/** Option, the pipeline's error kinds, and a failure-compatible Result. */
module Results {

  datatype Option<T> = None | Some(value: T) {
    /** The value, or `default` when there is none (Python's `d[k] if k in d else default`). */
    function GetOr(default: T): T {
      match this
      case Some(v) => v
      case None => default
    }
  }

  /** Every way the pipeline can abort; README "## Left out" names the Python exception behind each kind. */
  datatype Error =
    | MalformedTag           // lexer: an opening tag without its closing tag
    | DuplicateTag           // lexer: a tag name recorded twice
    | MissingPlacementPoint  // parser: a macro value without `{}`
    | DuplicateMacro         // parser: a macro name assigned twice
    | DuplicateVariable      // parser: a variable name assigned twice
    | UnclosedMacro          // expander: a macro opening tag without its closing tag
    | FormatError            // expander: `str.format` rejected a template
    | RecursionLimit         // expander: template nesting deeper than the fuel allows

  datatype Result<T> = Ok(value: T) | Err(error: Error) {
    predicate IsFailure() {
      Err?
    }

    function PropagateFailure<U>(): Result<U>
      requires Err?
    {
      Err(error)
    }

    function Extract(): T
      requires Ok?
    {
      value
    }
  }
}
