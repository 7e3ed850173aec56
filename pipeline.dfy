/**
 * The whole build of one post: lex the document's tag sections, parse them into
 * macros, variables, globals and custom tags, expand the custom tags, and compile
 * the result into the html template. Reading and writing files is not modelled:
 * the document and the template come in as strings, the page goes out as one.
 */
module Pipeline {
  import opened Results
  import opened Text
  import opened Tables
  import Lexer
  import Parser
  import Expansion
  import Compiler

  /** The page built from `program` and `template`, or the error of the first stage that raises. */
  function Build(program: string, template: string, fuel: nat): Result<string> {
    var tags :- Lexer.ScanFrom(program, []);
    var parsed :- Parser.ParseSpec(tags, Parser.Trimmed);
    var content :- Expansion.InjectAll(Expansion.Injector(parsed.variables, parsed.macros, fuel), parsed.customTags);
    Ok(Compiler.Compiled(template, parsed.globals + Compiler.CouchKeys(content)))
  }

  /** The four stages in order, each handing its result to the next; an exception ends the run. */
  method Run(program: string, template: string, fuel: nat) returns (r: Result<string>)
    ensures r == Build(program, template, fuel)
  {
    var lexed := Lexer.Scan(program);
    if lexed.Err? {
      return Err(lexed.error);
    }
    var parsed := Parser.Parse(lexed.value, Parser.Trimmed);
    if parsed.Err? {
      return Err(parsed.error);
    }
    var ctx := parsed.value;
    var err := Expansion.Expand(ctx, fuel);
    if err.Some? {
      return Err(err.value);
    }
    var html := Compiler.Compile(ctx, template);
    r := Ok(html);
  }

  /** Compiling with keys none of which occurs in the template leaves it as it is. */
  lemma CompiledWithoutKeys(template: string, globals: Table, customTags: Table, content: Table)
    requires |content| == |customTags|
    requires forall i :: 0 <= i < |content| ==> content[i].0 == customTags[i].0
    requires forall i :: 0 <= i < |globals| ==> !Contains(template, globals[i].0)
    requires forall i :: 0 <= i < |customTags| ==> !Contains(template, Couch(customTags[i].0))
    ensures Compiler.Compiled(template, globals + Compiler.CouchKeys(content)) == template
  {
    var couched := Compiler.CouchKeys(content);
    var keys := globals + couched;
    forall i | 0 <= i < |keys| ensures !Contains(template, keys[i].0) {
      if i >= |globals| {
        assert keys[i] == couched[i - |globals|];
      }
    }
    Compiler.CompiledAbsent(template, keys);
  }

  /**
   * A template that mentions no global name and no couched custom tag name of the
   * document comes out as it went in, whenever the document is accepted.
   */
  lemma TemplateWithoutKeys(program: string, template: string, fuel: nat, parsed: Parser.Parsed)
    requires Lexer.ScanFrom(program, []).Ok?
    requires Parser.ParseSpec(Lexer.ScanFrom(program, []).value, Parser.Trimmed) == Ok(parsed)
    requires forall i :: 0 <= i < |parsed.globals| ==> !Contains(template, parsed.globals[i].0)
    requires forall i :: 0 <= i < |parsed.customTags| ==> !Contains(template, Couch(parsed.customTags[i].0))
    ensures Build(program, template, fuel).Ok? ==> Build(program, template, fuel).value == template
  {
    var content := Expansion.InjectAll(Expansion.Injector(parsed.variables, parsed.macros, fuel), parsed.customTags);
    if content.Ok? {
      CompiledWithoutKeys(template, parsed.globals, parsed.customTags, content.value);
    }
  }
}
