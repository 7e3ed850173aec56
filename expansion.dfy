/**
 * The expander (blagh/expansion/__init__.py): rewrites every custom tag's body, first
 * substituting `$name$` tokens by their values, then replacing each `<m>inner</m>` span by
 * the macro `$m$`'s template with the inner text at its `{}`. Both passes walk a cursor
 * over the text; macro expansion recurses into the inner text and into the template.
 */
module Expansion {
  import opened Results
  import opened Text
  import opened Tables
  import Parser
  import Lexer

  // ---------------------------------------------------------------------------------------
  // Matchers
  // ---------------------------------------------------------------------------------------

  /** `$` + one or more word characters + `$`. */
  predicate IsToken(t: string) {
    |t| >= 3 && t[0] == '$' && t[|t| - 1] == '$' && forall i :: 1 <= i < |t| - 1 ==> IsWordChar(t[i])
  }

  /**
   * `match_variable(s[at:])`: the pattern `(\$\w+\$)` at index `at` of `s`; the token with its
   * dollars.
   */
  function MatchVariable(s: string, at: nat): (r: Option<string>)
    ensures r.Some? ==> |r.value| >= 3 && at + |r.value| <= |s|
    ensures at >= |s| || s[at] != '$' ==> r == None
  {
    if at >= |s| || s[at] != '$' then None
    else
      var j := WordEnd(s, at + 1);
      if j > at + 1 && j < |s| && s[j] == '$' then Some(s[at..j + 1]) else None
  }

  /** What is matched is a token, a name of word characters between two dollars, and it occurs at `at`. */
  lemma MatchVariableIsToken(s: string, at: nat)
    ensures MatchVariable(s, at).Some? ==> IsToken(MatchVariable(s, at).value) && OccursAt(s, MatchVariable(s, at).value, at)
  {
    if MatchVariable(s, at).Some? {
      WordEndRun(s, at + 1);
    }
  }

  /** A token `$name$` is matched whatever precedes and follows it. */
  lemma MatchVariableToken(pre: string, name: string, rest: string)
    requires IsIdent(name)
    ensures MatchVariable(pre + Couch(name) + rest, |pre|) == Some(Couch(name))
  {
    var s := pre + Couch(name) + rest;
    var j := |pre| + 1 + |name|;
    assert s[|pre|] == '$' && s[j] == '$';
    forall k | |pre| + 1 <= k < j ensures IsWordChar(s[k]) {
      assert s[k] == name[k - |pre| - 1];
    }
    WordEndAt(s, |pre| + 1, j);
    assert s[|pre|..j + 1] == Couch(name);
  }

  /** `$$` is not a token: a name needs at least one word character. */
  lemma MatchVariableEmptyName(pre: string, rest: string)
    ensures MatchVariable(pre + "$$" + rest, |pre|) == None
  {
    var s := pre + "$$" + rest;
    assert s[|pre| + 1] == '$';
  }

  /** Matching at `at` is matching the text from `at` on at its start. */
  lemma MatchVariableShift(s: string, at: nat)
    requires at <= |s|
    ensures MatchVariable(s, at) == MatchVariable(s[at..], 0)
  {
    var t := s[at..];
    if at < |s| && s[at] == '$' {
      WordEndShift(s, at, at + 1);
      var j := WordEnd(s, at + 1);
      if j > at + 1 && j < |s| && s[j] == '$' {
        assert t[..j - at + 1] == s[at..j + 1];
      }
    }
  }

  /** The run of word characters found in a suffix is the one found in the whole string, shifted. */
  lemma {:induction false} WordEndShift(s: string, n: nat, i: nat)
    requires n <= i <= |s|
    ensures WordEnd(s[n..], i - n) == WordEnd(s, i) - n
    decreases |s| - i
  {
    if i < |s| {
      assert s[n..][i - n] == s[i];
      if IsWordChar(s[i]) {
        WordEndShift(s, n, i + 1);
      }
    }
  }

  /** `match_macro_open(s)`: the pattern `<(\w+)>.+` (DOTALL) at the start of `s`; the tag's name. */
  function MatchMacroOpen(s: string): (r: Option<string>)
    ensures r.Some? ==> IsIdent(r.value) && |r.value| + 2 < |s| && s[..|r.value| + 2] == "<" + r.value + ">"
    ensures s == [] || s[0] != '<' ==> r == None
  {
    if s == [] || s[0] != '<' then None
    else
      var name := WordPrefix(s[1..]);
      if name != [] && |name| + 2 < |s| && s[|name| + 1] == '>' then
        assert s[..|name| + 2] == "<" + name + ">" by {
          assert s[1..][..|name|] == s[1..|name| + 1];
        }
        Some(name)
      else None
  }

  /** An opening tag `<name>` followed by at least one character is matched. */
  lemma MatchMacroOpenTag(name: string, rest: string)
    requires IsIdent(name) && rest != []
    ensures MatchMacroOpen("<" + name + ">" + rest) == Some(name)
  {
    var s := "<" + name + ">" + rest;
    assert s[1..] == name + (">" + rest);
    WordPrefixOf(name, ">" + rest);
  }

  // ---------------------------------------------------------------------------------------
  // Variables
  // ---------------------------------------------------------------------------------------

  /** The value a token expands to: its table entry, or `''` for an unknown token. */
  function ValueOf(variables: Table, token: string): string {
    ValueOr(variables, token, "")
  }

  /**
   * The loop of `expand_variables` from a cursor onwards; `bound` is the length of the original
   * text. Each pass (`find_variable`, `expand_variable`, `advance_to_next_variable`) replaces a
   * token at the cursor by its value and moves past the value and one more character, and
   * otherwise moves the cursor by one.
   */
  function VariableLoop(variables: Table, contents: string, offset: nat, bound: nat): string
    decreases bound - offset, 1
  {
    if offset >= bound then contents
    else VariablePass(variables, contents, offset, bound, MatchVariable(contents, offset))
  }

  /** One pass at a cursor before `bound`, given what `find_variable` found there. */
  function VariablePass(variables: Table, contents: string, offset: nat, bound: nat, found: Option<string>): string
    requires offset < bound
    decreases bound - offset, 0
  {
    match found
    case None => VariableLoop(variables, contents, offset + 1, bound)
    case Some(token) =>
      var value := ValueOf(variables, token);
      VariableLoop(variables, ReplaceAt(token, value, contents, offset), offset + |value| + 1, bound)
  }

  /** What `expand_variables(variables, contents)` returns. */
  function ExpandVariablesSpec(variables: Table, contents: string): string {
    VariableLoop(variables, contents, 0, |contents|)
  }

  /** The `memo` dict of `expand_variables`, updated in place by each stage of the pipeline. */
  class VariableMemo {
    var offset: nat
    var currentVariable: Option<string>
    var expandedVariable: Option<string>
    var contents: string
    var variables: Table

    constructor (variables: Table, contents: string)
      ensures this.offset == 0 && this.currentVariable == None && this.expandedVariable == None
      ensures this.contents == contents && this.variables == variables
    {
      this.offset := 0;
      this.currentVariable := None;
      this.expandedVariable := None;
      this.contents := contents;
      this.variables := variables;
    }

    /** `find_variable`: the token at the cursor, if any. */
    method FindVariable()
      modifies this
      ensures currentVariable == MatchVariable(contents, offset)
      ensures offset == old(offset) && contents == old(contents)
      ensures expandedVariable == old(expandedVariable) && variables == old(variables)
    {
      currentVariable := MatchVariable(contents, offset);
    }

    /** `expand_variable`: the token at the cursor replaced by its value. */
    method ExpandVariable()
      modifies this
      ensures currentVariable.None? ==> expandedVariable == None && contents == old(contents)
      ensures currentVariable.Some? ==>
        && expandedVariable == Some(ValueOf(variables, currentVariable.value))
        && contents == ReplaceAt(currentVariable.value, expandedVariable.value, old(contents), offset)
      ensures offset == old(offset) && currentVariable == old(currentVariable) && variables == old(variables)
    {
      if currentVariable.None? {
        expandedVariable := None;
      } else {
        var value := ValueOf(variables, currentVariable.value);
        expandedVariable := Some(value);
        contents := ReplaceAt(currentVariable.value, value, contents, offset);
      }
    }

    /** `advance_to_next_variable`: past the value and one more character, or one character. */
    method AdvanceToNextVariable()
      modifies this
      ensures offset == old(offset) + if expandedVariable.Some? then |expandedVariable.value| + 1 else 1
      ensures contents == old(contents) && variables == old(variables)
      ensures currentVariable == old(currentVariable) && expandedVariable == old(expandedVariable)
    {
      if expandedVariable.Some? {
        offset := offset + |expandedVariable.value| + 1;
      } else {
        offset := offset + 1;
      }
    }
  }

  /** `expand_variables(variables, contents)`: the cursor walks up to the ORIGINAL length. */
  method ExpandVariables(variables: Table, contents: string) returns (r: string)
    ensures r == ExpandVariablesSpec(variables, contents)
  {
    var memo := new VariableMemo(variables, contents);
    while memo.offset < |contents|
      invariant memo.variables == variables
      invariant VariableLoop(variables, memo.contents, memo.offset, |contents|) == ExpandVariablesSpec(variables, contents)
      decreases |contents| - memo.offset
    {
      ghost var before, at := memo.contents, memo.offset;
      memo.FindVariable();
      memo.ExpandVariable();
      memo.AdvanceToNextVariable();
      VariableLoopPassed(variables, before, at, |contents|, memo.contents, memo.offset);
    }
    return memo.contents;
  }

  /** One pass of the three stages moves the loop from one state to the next without changing where it ends. */
  lemma VariableLoopPassed(variables: Table, contents: string, offset: nat, bound: nat, next: string, cursor: nat)
    requires offset < bound
    requires MatchVariable(contents, offset).None? ==> next == contents && cursor == offset + 1
    requires MatchVariable(contents, offset).Some? ==>
      var token := MatchVariable(contents, offset).value;
      && next == ReplaceAt(token, ValueOf(variables, token), contents, offset)
      && cursor == offset + |ValueOf(variables, token)| + 1
    ensures VariableLoop(variables, contents, offset, bound) == VariableLoop(variables, next, cursor, bound)
  {
    match MatchVariable(contents, offset)
    case None => VariableLoopPlain(variables, contents, offset, bound);
    case Some(token) => VariableLoopAtToken(variables, contents, offset, bound, token);
  }

  /** No token at the cursor: the loop moves on by one character. */
  lemma VariableLoopPlain(variables: Table, contents: string, offset: nat, bound: nat)
    requires offset < bound && MatchVariable(contents, offset).None?
    ensures VariableLoop(variables, contents, offset, bound) == VariableLoop(variables, contents, offset + 1, bound)
  {
    assert VariableLoop(variables, contents, offset, bound) == VariablePass(variables, contents, offset, bound, None);
  }

  /** A text without `$` is left as it is. */
  lemma {:induction false} VariableLoopNoToken(variables: Table, contents: string, offset: nat, bound: nat)
    requires '$' !in contents
    ensures VariableLoop(variables, contents, offset, bound) == contents
    decreases bound - offset
  {
    if offset < bound {
      assert offset < |contents| ==> contents[offset] in contents;
      VariableLoopNoToken(variables, contents, offset + 1, bound);
    }
  }

  lemma ExpandVariablesNoToken(variables: Table, contents: string)
    requires '$' !in contents
    ensures ExpandVariablesSpec(variables, contents) == contents
  {
    VariableLoopNoToken(variables, contents, 0, |contents|);
  }

  /** The cursor walks over `$`-free text one character at a time. */
  lemma {:induction false} VariableLoopSkips(variables: Table, s: string, from: nat, to: nat, bound: nat)
    requires from <= to <= |s| && forall k :: from <= k < to ==> s[k] != '$'
    ensures VariableLoop(variables, s, from, bound) == VariableLoop(variables, s, to, bound)
    decreases |s| - from
  {
    if from < to {
      VariableLoopSkips(variables, s, from + 1, to, bound);
    }
  }

  /** At a token the loop splices in its value and moves the cursor past it and one more character. */
  lemma VariableLoopAtToken(variables: Table, contents: string, offset: nat, bound: nat, token: string)
    requires offset < bound && MatchVariable(contents, offset) == Some(token)
    ensures VariableLoop(variables, contents, offset, bound) == VariableLoop(variables,
      ReplaceAt(token, ValueOf(variables, token), contents, offset), offset + |ValueOf(variables, token)| + 1, bound)
  {
    assert VariableLoop(variables, contents, offset, bound) == VariablePass(variables, contents, offset, bound, Some(token));
  }

  lemma SpliceToken(a: string, token: string, value: string, b: string)
    ensures ReplaceAt(token, value, a + token + b, |a|) == a + value + b
  {
    var s := a + token + b;
    assert Take(s, |a|) == a;
    assert Drop(s, |a| + |token|) == b;
  }

  /** The cursor at a token `$name$`: the token becomes its value and the cursor moves past it and one more character. */
  lemma TokenStep(variables: Table, pre: string, name: string, post: string, bound: nat)
    requires IsIdent(name) && |pre| < bound
    ensures var v := ValueOf(variables, Couch(name));
      VariableLoop(variables, pre + Couch(name) + post, |pre|, bound) == VariableLoop(variables, pre + v + post, |pre| + |v| + 1, bound)
  {
    var token := Couch(name);
    MatchVariableToken(pre, name, post);
    VariableLoopAtToken(variables, pre + token + post, |pre|, bound, token);
    SpliceToken(pre, token, ValueOf(variables, token), post);
  }

  /** The cursor crosses a `$`-free start of the text one character at a time. */
  lemma PlainStart(variables: Table, a: string, rest: string, bound: nat)
    requires '$' !in a
    ensures VariableLoop(variables, a + rest, 0, bound) == VariableLoop(variables, a + rest, |a|, bound)
  {
    var s := a + rest;
    forall k | 0 <= k < |a| ensures s[k] != '$' {
      assert s[k] == a[k] && a[k] in a;
    }
    VariableLoopSkips(variables, s, 0, |a|, bound);
  }

  /**
   * A token among `$`-free text is replaced by its value (an unknown token by `''`),
   * whatever the value's length.
   */
  lemma ExpandOneVariable(variables: Table, a: string, name: string, b: string)
    requires IsIdent(name) && '$' !in a && '$' !in b
    ensures ExpandVariablesSpec(variables, a + Couch(name) + b) == a + ValueOf(variables, Couch(name)) + b
  {
    var token := Couch(name);
    var s := a + token + b;
    var value := ValueOf(variables, token);
    assert s == a + (token + b);
    calc {
      ExpandVariablesSpec(variables, s);
      VariableLoop(variables, a + (token + b), 0, |s|);
      { PlainStart(variables, a, token + b, |s|); }
      VariableLoop(variables, a + (token + b), |a|, |s|);
      VariableLoop(variables, s, |a|, |s|);
      { TokenStep(variables, a, name, b, |s|); }
      VariableLoop(variables, a + value + b, |a| + |value| + 1, |s|);
      { VariableAfter(variables, a + value, b, |a| + |value| + 1, |s|); }
      a + value + b;
    }
  }

  /** Past the last token the loop changes nothing. */
  lemma {:induction false} VariableAfter(variables: Table, done: string, b: string, offset: nat, bound: nat)
    requires '$' !in b && offset >= |done|
    ensures VariableLoop(variables, done + b, offset, bound) == done + b
    decreases bound - offset
  {
    if offset < bound {
      var s := done + b;
      if offset < |s| {
        assert s[offset] == b[offset - |done|] && b[offset - |done|] in b;
      }
      VariableAfter(variables, done, b, offset + 1, bound);
    }
  }

  /**
   * Two adjacent tokens: the cursor skips the character after the first value, which is
   * the second token's `$`, so the second token stays as it is.
   */
  lemma AdjacentVariables(variables: Table, first: string, second: string)
    requires IsIdent(first) && IsIdent(second)
    ensures ExpandVariablesSpec(variables, Couch(first) + Couch(second)) ==
      ValueOf(variables, Couch(first)) + Couch(second)
  {
    var s := Couch(first) + Couch(second);
    var value := ValueOf(variables, Couch(first));
    LeadingToken(variables, first, Couch(second), value, s);
    assert value + Couch(second) == (value + "$") + second + "$";
    assert '$' !in second by {
      forall i | 0 <= i < |second| ensures second[i] != '$' {
        assert IsWordChar(second[i]);
      }
    }
    VariableTail(variables, value + "$", second, |value| + 1, |s|);
  }

  /**
   * The loop stops at the original length, so after a substitution the next token is
   * reached only if it starts inside that length: with a value longer than the text it
   * replaced, a later token can stay unexpanded.
   */
  lemma SecondVariable(variables: Table, first: string, b: string, second: string)
    requires IsIdent(first) && IsIdent(second) && b != [] && '$' !in b
    ensures var v := ValueOf(variables, Couch(first));
      ExpandVariablesSpec(variables, Couch(first) + b + Couch(second)) ==
        v + b + if |v + b| < |Couch(first) + b + Couch(second)| then ValueOf(variables, Couch(second)) else Couch(second)
  {
    var v := ValueOf(variables, Couch(first));
    var s := Couch(first) + b + Couch(second);
    SecondVariableFirst(variables, first, b, second, v, s);
    TokenAtEnd(variables, v + b, second, |s|);
  }

  /** The first token is replaced and the cursor crosses the `$`-free text up to the second one. */
  lemma SecondVariableFirst(variables: Table, first: string, b: string, second: string, v: string, s: string)
    requires IsIdent(first) && b != [] && '$' !in b
    requires v == ValueOf(variables, Couch(first)) && s == Couch(first) + b + Couch(second)
    ensures ExpandVariablesSpec(variables, s) == VariableLoop(variables, v + b + Couch(second), |v + b|, |s|)
  {
    var rest := b + Couch(second);
    ConcatAssoc(v, b, Couch(second));
    ConcatAssoc(Couch(first), b, Couch(second));
    assert ExpandVariablesSpec(variables, s) == VariableLoop(variables, v + rest, |v| + 1, |s|) by {
      LeadingToken(variables, first, rest, v, s);
    }
    assert VariableLoop(variables, v + b + Couch(second), |v| + 1, |s|) == VariableLoop(variables, v + b + Couch(second), |v + b|, |s|) by {
      SkipAfterValue(variables, v, b, Couch(second), |s|);
    }
  }

  /** A text that opens with a token has it replaced first, the cursor landing just past the value. */
  lemma LeadingToken(variables: Table, name: string, rest: string, v: string, s: string)
    requires IsIdent(name) && v == ValueOf(variables, Couch(name)) && s == Couch(name) + rest
    ensures ExpandVariablesSpec(variables, s) == VariableLoop(variables, v + rest, |v| + 1, |s|)
  {
    var token := Couch(name);
    assert s == [] + token + rest;
    assert v + rest == [] + v + rest;
    SpliceToken([], token, v, rest);
    MatchVariableToken([], name, rest);
    VariableLoopAtToken(variables, s, 0, |s|, token);
  }

  /** After a substitution the cursor walks over the rest of `$`-free text one character at a time. */
  lemma SkipAfterValue(variables: Table, v: string, b: string, rest: string, bound: nat)
    requires b != [] && '$' !in b
    ensures VariableLoop(variables, v + b + rest, |v| + 1, bound) == VariableLoop(variables, v + b + rest, |v| + |b|, bound)
  {
    var s := v + b + rest;
    forall k | |v| + 1 <= k < |v| + |b| ensures s[k] != '$' {
      assert s[k] == b[k - |v|] && b[k - |v|] in b;
    }
    VariableLoopSkips(variables, s, |v| + 1, |v| + |b|, bound);
  }

  /** A token at the end of the text is expanded when the cursor reaches it within the bound. */
  lemma TokenAtEnd(variables: Table, pre: string, name: string, bound: nat)
    requires IsIdent(name)
    ensures VariableLoop(variables, pre + Couch(name), |pre|, bound) ==
      pre + if |pre| < bound then ValueOf(variables, Couch(name)) else Couch(name)
  {
    if |pre| < bound {
      var w := ValueOf(variables, Couch(name));
      var s := pre + Couch(name);
      assert s == pre + Couch(name) + [];
      assert pre + w + [] == pre + w;
      MatchVariableToken(pre, name, []);
      VariableLoopAtToken(variables, s, |pre|, bound, Couch(name));
      SpliceToken(pre, Couch(name), w, []);
      VariableAfter(variables, pre + w, [], |pre| + |w| + 1, bound);
    }
  }

  /** A word run followed by a final `$` holds no token. */
  lemma {:induction false} VariableTail(variables: Table, done: string, word: string, offset: nat, bound: nat)
    requires '$' !in word && offset >= |done|
    ensures VariableLoop(variables, done + word + "$", offset, bound) == done + word + "$"
    decreases bound - offset
  {
    if offset < bound {
      var s := done + word + "$";
      if offset < |done| + |word| {
        assert s[offset] == word[offset - |done|] && word[offset - |done|] in word;
      } else if offset == |done| + |word| {
        assert WordEnd(s, offset + 1) == offset + 1;
      }
      VariableTail(variables, done, word, offset + 1, bound);
    }
  }

  // ---------------------------------------------------------------------------------------
  // Macros
  // ---------------------------------------------------------------------------------------

  /**
   * `find_opening_macro_tag`: the name of the tag that opens at the start of `s` when `$name$`
   * is a macro; an unknown tag, or none, gives `None`.
   */
  function OpenMacro(macros: Table, s: string): (r: Option<string>)
    ensures r.Some? ==>
      && IsIdent(r.value) && HasKey(macros, Couch(r.value))
      && |r.value| + 2 < |s| && s[..|r.value| + 2] == "<" + r.value + ">"
    ensures s == [] || s[0] != '<' ==> r == None
  {
    match MatchMacroOpen(s)
    case None => None
    case Some(name) => if HasKey(macros, Couch(name)) then Some(name) else None
  }

  /** The text `<name>content</name>` that one expansion replaces. */
  function Span(name: string, content: string): string {
    "<" + name + ">" + content + CloseTag(name)
  }

  /** What the first two stages find at the cursor: no known macro, one left open, or a whole span. */
  datatype Found = Plain | Unclosed | At(name: string, content: string)

  /**
   * `find_opening_macro_tag` then `find_closing_macro_tag` on the text `rest` from the cursor on:
   * a known macro's opening tag and the body before its last closing tag, if there is one.
   */
  function FindMacro(macros: Table, rest: string): (f: Found)
    ensures f.At? ==> OpenMacro(macros, rest) == Some(f.name)
    ensures f.At? ==> Lexer.MatchCloseTag(f.name, Drop(rest, |f.name| + 2)) == Some(f.content)
    ensures f.At? ==> IsIdent(f.name) && HasKey(macros, Couch(f.name))
    ensures f.At? ==> |Strip(f.content)| <= |f.content| < |Span(f.name, f.content)| <= |rest|
    ensures rest == [] || rest[0] != '<' ==> f == Plain
  {
    match OpenMacro(macros, rest)
    case None => Plain
    case Some(name) =>
      match Lexer.MatchCloseTag(name, Drop(rest, |name| + 2))
      case None => Unclosed
      case Some(content) => SpanFits(rest, name, content); At(name, content)
  }

  /** The body found after an opening tag, with its closing tag, fits in the text. */
  lemma SpanFits(rest: string, name: string, content: string)
    requires |name| + 2 < |rest|
    requires Lexer.MatchCloseTag(name, Drop(rest, |name| + 2)) == Some(content)
    ensures |Strip(content)| <= |content| < |Span(name, content)| <= |rest|
  {
    assert |content + CloseTag(name)| <= |rest| - |name| - 2;
  }

  /** A span found at the cursor is what the text from the cursor starts with. */
  lemma FindMacroSpan(macros: Table, rest: string)
    requires FindMacro(macros, rest).At?
    ensures var f := FindMacro(macros, rest);
      rest == Span(f.name, f.content) + rest[|Span(f.name, f.content)|..]
  {
    var f := FindMacro(macros, rest);
    SpanPrefix(rest, f.name, f.content);
  }

  /** An opening tag followed by a body and its closing tag make a span at the start of the text. */
  lemma SpanPrefix(rest: string, name: string, content: string)
    requires |name| + 2 < |rest| && rest[..|name| + 2] == "<" + name + ">"
    requires OccursAt(Drop(rest, |name| + 2), content + CloseTag(name), 0)
    ensures rest == Span(name, content) + rest[|Span(name, content)|..]
  {
    var open := "<" + name + ">";
    ConcatAssoc(open, content, CloseTag(name));
    PrefixThen(rest, open, content + CloseTag(name));
  }

  /** A text that starts with `open` followed by `body` is the two and what comes after them. */
  lemma PrefixThen(rest: string, open: string, body: string)
    requires |open| <= |rest| && rest[..|open|] == open && OccursAt(rest[|open|..], body, 0)
    ensures rest == open + body + rest[|open| + |body|..]
  {
    assert rest == rest[..|open|] + rest[|open|..];
    var t := rest[|open|..];
    assert t == t[..|body|] + t[|body|..];
  }

  /**
   * `expand_macros(macros, s)`: the loop starts with the cursor at 0 and walks up to the ORIGINAL
   * length of `s`. Python's own recursion limit is modelled by `fuel`, the depth of template
   * expansions still allowed.
   */
  function MacroExpand(macros: Table, s: string, fuel: nat): Result<string>
    decreases fuel, |s|, 2
  {
    MacroLoop(macros, [], s, |s|, fuel)
  }

  /**
   * The loop of `expand_macros` with the text split at the cursor into `done` and `rest`, so that
   * the cursor is `|done|`; `bound` is the length of the text the loop started with. At a known
   * macro's opening tag the body up to the last matching closing tag is found (or the macro is
   * improperly closed), the span is replaced by its expansion and the cursor moves past the
   * expansion; elsewhere it moves by one. Once the cursor has passed the end of the text every
   * further step moves it by one and changes nothing, so the loop ends there.
   */
  function MacroLoop(macros: Table, done: string, rest: string, bound: nat, fuel: nat): Result<string>
    decreases fuel, |rest|, 1
  {
    if |done| >= bound || rest == [] then Ok(done + rest)
    else MacroPass(macros, done, rest, bound, fuel, FindMacro(macros, rest))
  }

  /** One pass at a cursor before `bound`, given what the first two stages found there. */
  function MacroPass(macros: Table, done: string, rest: string, bound: nat, fuel: nat, found: Found): Result<string>
    requires rest != [] && found == FindMacro(macros, rest)
    decreases fuel, |rest|, 0
  {
    match found
    case Plain => MacroLoop(macros, done + [rest[0]], rest[1..], bound, fuel)
    case Unclosed => Err(UnclosedMacro)
    case At(name, content) =>
      match ExpandOne(macros, name, content, fuel)
      case Err(e) => Err(e)
      case Ok(expansion) => MacroLoop(macros, done + expansion, rest[|Span(name, content)|..], bound, fuel)
  }

  /**
   * `expand_macro` for the span `<name>content</name>`: the stripped body is expanded first, then
   * the stripped template `$name$`, and the expanded body is put in the template's `{}`.
   */
  function ExpandOne(macros: Table, name: string, content: string, fuel: nat): Result<string>
    decreases fuel, |content|, 3
  {
    match MacroExpand(macros, Strip(content), fuel)
    case Err(e) => Err(e)
    case Ok(inner) =>
      if fuel == 0 then Err(RecursionLimit)
      else
        match MacroExpand(macros, Strip(Template(macros, name)), fuel - 1)
        case Err(e) => Err(e)
        case Ok(target) => Format(target, inner)
  }

  /** The template of the macro `name` (`''` when there is none, which the opening tag already excludes). */
  function Template(macros: Table, name: string): string {
    ValueOr(macros, Couch(name), "")
  }

  /** The memo dict of `expand_macros`, updated in place by each stage of the pipeline. */
  class MacroMemo {
    var offset: nat
    var currentMacro: Option<string>
    var contentToInject: Option<string>
    var macroExpansion: Option<string>
    var contents: string
    var macros: Table

    constructor (macros: Table, contents: string)
      ensures this.offset == 0 && this.contents == contents && this.macros == macros
      ensures currentMacro == None && contentToInject == None && macroExpansion == None
    {
      this.offset := 0;
      this.currentMacro := None;
      this.contentToInject := None;
      this.macroExpansion := None;
      this.contents := contents;
      this.macros := macros;
    }

    /** `find_opening_macro_tag`: the known macro whose tag opens at the cursor, if any. */
    method FindOpeningMacroTag()
      modifies this
      ensures currentMacro == OpenMacro(macros, Drop(contents, offset))
      ensures offset == old(offset) && contents == old(contents) && macros == old(macros)
      ensures contentToInject == old(contentToInject) && macroExpansion == old(macroExpansion)
    {
      currentMacro := OpenMacro(macros, Drop(contents, offset));
    }

    /**
     * `find_closing_macro_tag`: the body before the macro's last closing tag; the macro is
     * improperly closed when there is none.
     */
    method FindClosingMacroTag() returns (err: Option<Error>)
      modifies this
      ensures offset == old(offset) && contents == old(contents) && macros == old(macros)
      ensures currentMacro == old(currentMacro) && macroExpansion == old(macroExpansion)
      ensures currentMacro.None? ==> err == None && contentToInject == old(contentToInject)
      ensures currentMacro.Some? ==>
        var m := Lexer.MatchCloseTag(currentMacro.value, Drop(contents, offset + |currentMacro.value| + 2));
        && (m.None? ==> err == Some(UnclosedMacro))
        && (m.Some? ==> err == None && contentToInject == m)
    {
      err := None;
      if currentMacro.Some? {
        var name := currentMacro.value;
        var m := Lexer.MatchCloseTag(name, Drop(contents, offset + |name| + 2));
        if m.None? {
          err := Some(UnclosedMacro);
        } else {
          contentToInject := m;
        }
      }
    }

    /**
     * `expand_macro`: the span at the cursor replaced by its expansion, which is also recorded;
     * an error while expanding leaves the text as it was.
     */
    method ExpandMacro(fuel: nat) returns (err: Option<Error>)
      requires currentMacro.Some? ==> contentToInject.Some? && |contentToInject.value| < |Drop(contents, offset)|
      modifies this
      decreases fuel, |Drop(contents, offset)|, 2
      ensures offset == old(offset) && macros == old(macros)
      ensures currentMacro == old(currentMacro) && contentToInject == old(contentToInject)
      ensures currentMacro.None? ==> err == None && macroExpansion == None && contents == old(contents)
      ensures currentMacro.Some? ==>
        var e := ExpandOne(macros, currentMacro.value, contentToInject.value, fuel);
        && (e.Err? ==> err == Some(e.error) && contents == old(contents))
        && (e.Ok? ==>
              && err == None && macroExpansion == Some(e.value)
              && contents == ReplaceAt(Span(currentMacro.value, contentToInject.value), e.value, old(contents), offset))
    {
      err := None;
      if currentMacro.None? {
        macroExpansion := None;
        return;
      }
      var name := currentMacro.value;
      var content := contentToInject.value;
      var expansion := ExpandSpan(macros, name, content, fuel);
      if expansion.Err? {
        return Some(expansion.error);
      }
      macroExpansion := Some(expansion.value);
      contents := ReplaceAt(Span(name, content), expansion.value, contents, offset);
    }

    /** `advance_to_next_macro`: past the expansion, or one character; the stage fields are reset. */
    method AdvanceToNextMacro()
      modifies this
      ensures offset == old(offset) + if old(macroExpansion).Some? then |old(macroExpansion).value| else 1
      ensures currentMacro == None && contentToInject == None && macroExpansion == None
      ensures contents == old(contents) && macros == old(macros)
    {
      if macroExpansion.None? {
        offset := offset + 1;
      } else {
        offset := offset + |macroExpansion.value|;
      }
      currentMacro, contentToInject, macroExpansion := None, None, None;
    }

    /**
     * One pass of the `pipe` of the four stages: the loop of `expand_macros` from the new cursor
     * gives what it gave from the old one, or the pass fails as the loop does.
     */
    method Pipe(fuel: nat, ghost bound: nat) returns (err: Option<Error>)
      requires currentMacro == None && macroExpansion == None && offset < bound
      modifies this
      decreases fuel, |Drop(contents, offset)|, 3
      ensures macros == old(macros)
      ensures err.Some? ==>
        MacroLoop(macros, Take(old(contents), old(offset)), Drop(old(contents), old(offset)), bound, fuel) == Err(err.value)
      ensures err.None? ==>
        && currentMacro == None && macroExpansion == None
        && MacroLoop(macros, Take(contents, offset), Drop(contents, offset), bound, fuel)
           == MacroLoop(macros, Take(old(contents), old(offset)), Drop(old(contents), old(offset)), bound, fuel)
        && (|Drop(contents, offset)| < |Drop(old(contents), old(offset))|
            || (contents == old(contents) && offset == old(offset) + 1))
    {
      ghost var cur, at := contents, offset;
      FindOpeningMacroTag();
      err := FindClosingMacroTag();
      if currentMacro.None? {
        LoopPlain(macros, cur, at, bound, fuel);
        err := ExpandMacro(fuel);
        AdvanceToNextMacro();
        return;
      }
      ghost var name := currentMacro.value;
      if err.Some? {
        FoundByStages(macros, cur, at, name, None);
        LoopUnclosed(macros, Take(cur, at), Drop(cur, at), bound, fuel);
        return;
      }
      FoundByStages(macros, cur, at, name, contentToInject);
      ghost var content := contentToInject.value;
      err := ExpandMacro(fuel);
      if err.Some? {
        LoopExpandErr(macros, Take(cur, at), Drop(cur, at), bound, fuel, name, content);
        return;
      }
      ghost var e := macroExpansion.value;
      AdvanceToNextMacro();
      LoopExpand(macros, cur, at, bound, fuel, name, content, e, contents, offset);
    }
  }

  /** The opening tag and the body the two stages find at the cursor make the span `FindMacro` finds. */
  lemma FoundByStages(macros: Table, cur: string, at: nat, name: string, body: Option<string>)
    requires OpenMacro(macros, Drop(cur, at)) == Some(name)
    requires Lexer.MatchCloseTag(name, Drop(cur, at + |name| + 2)) == body
    ensures body.None? ==> FindMacro(macros, Drop(cur, at)) == Unclosed
    ensures body.Some? ==> FindMacro(macros, Drop(cur, at)) == At(name, body.value)
  {
    DropDrop(cur, at, |name| + 2);
    FindMacroOpen(macros, Drop(cur, at), name, body);
  }

  /** At a known macro's opening tag, the span search reports what the closing-tag match gives. */
  lemma FindMacroOpen(macros: Table, rest: string, name: string, body: Option<string>)
    requires OpenMacro(macros, rest) == Some(name)
    requires Lexer.MatchCloseTag(name, Drop(rest, |name| + 2)) == body
    ensures body.None? ==> FindMacro(macros, rest) == Unclosed
    ensures body.Some? ==> FindMacro(macros, rest) == At(name, body.value)
  {
    if body.None? {
      assert FindMacro(macros, rest) == Unclosed;
    } else {
      assert FindMacro(macros, rest) == At(name, body.value);
    }
  }

  /** No known macro at the cursor: the cursor moves by one and the loop gives the same. */
  lemma LoopPlain(macros: Table, cur: string, at: nat, bound: nat, fuel: nat)
    requires at < bound && FindMacro(macros, Drop(cur, at)) == Plain
    ensures MacroLoop(macros, Take(cur, at + 1), Drop(cur, at + 1), bound, fuel)
      == MacroLoop(macros, Take(cur, at), Drop(cur, at), bound, fuel)
  {
    if at < |cur| {
      assert Take(cur, at + 1) == Take(cur, at) + [Drop(cur, at)[0]];
      assert Drop(cur, at + 1) == Drop(cur, at)[1..];
    } else {
      assert Take(cur, at + 1) == cur == Take(cur, at);
    }
  }

  /** A known macro left open at the cursor fails the loop. */
  lemma LoopUnclosed(macros: Table, done: string, rest: string, bound: nat, fuel: nat)
    requires |done| < bound && FindMacro(macros, rest) == Unclosed
    ensures MacroLoop(macros, done, rest, bound, fuel) == Err(UnclosedMacro)
  {
  }

  /** A span whose expansion fails fails the loop with the same error. */
  lemma LoopExpandErr(macros: Table, done: string, rest: string, bound: nat, fuel: nat, name: string, content: string)
    requires |done| < bound && FindMacro(macros, rest) == At(name, content)
    requires ExpandOne(macros, name, content, fuel).Err?
    ensures MacroLoop(macros, done, rest, bound, fuel) == Err(ExpandOne(macros, name, content, fuel).error)
  {
  }

  /**
   * A span that expands is replaced at the cursor, which moves past the expansion: the loop gives
   * the same, with less text left after the cursor.
   */
  lemma LoopExpand(macros: Table, cur: string, at: nat, bound: nat, fuel: nat, name: string, content: string, e: string,
                    next: string, k: nat)
    requires at < bound && FindMacro(macros, Drop(cur, at)) == At(name, content)
    requires ExpandOne(macros, name, content, fuel) == Ok(e)
    requires next == ReplaceAt(Span(name, content), e, cur, at) && k == at + |e|
    ensures MacroLoop(macros, Take(next, k), Drop(next, k), bound, fuel)
      == MacroLoop(macros, Take(cur, at), Drop(cur, at), bound, fuel)
    ensures |Drop(next, k)| < |Drop(cur, at)|
  {
    SpliceCursor(Span(name, content), e, cur, at);
    LoopAtSpan(macros, Take(cur, at), Drop(cur, at), bound, fuel, e);
  }

  /** One step of the loop at a span that expands to `e`. */
  lemma LoopAtSpan(macros: Table, done: string, rest: string, bound: nat, fuel: nat, e: string)
    requires |done| < bound && FindMacro(macros, rest).At?
    requires ExpandOne(macros, FindMacro(macros, rest).name, FindMacro(macros, rest).content, fuel) == Ok(e)
    ensures var f := FindMacro(macros, rest);
      MacroLoop(macros, done, rest, bound, fuel)
      == MacroLoop(macros, done + e, rest[|Span(f.name, f.content)|..], bound, fuel)
  {
  }

  /** After `replace_variable` at the cursor, the text before the new cursor and after it. */
  lemma SpliceCursor(span: string, e: string, cur: string, at: nat)
    requires at + |span| <= |cur| && span != []
    ensures Take(ReplaceAt(span, e, cur, at), at + |e|) == Take(cur, at) + e
    ensures Drop(ReplaceAt(span, e, cur, at), at + |e|) == Drop(cur, at)[|span|..]
    ensures |Drop(cur, at)[|span|..]| < |Drop(cur, at)|
  {
  }

  // ---------------------------------------------------------------------------------------
  // What macro expansion does
  // ---------------------------------------------------------------------------------------

  /** No known macro's opening tag starts anywhere in `s`. */
  predicate MacroFree(macros: Table, s: string) {
    s == [] || (OpenMacro(macros, s) == None && MacroFree(macros, s[1..]))
  }

  /** `s` holds no `<` at all. */
  predicate NoTag(s: string) {
    forall i :: 0 <= i < |s| ==> s[i] != '<'
  }

  /** Text without a `<` holds no macro's opening tag. */
  lemma {:induction false} NoTagIsMacroFree(macros: Table, s: string)
    requires NoTag(s)
    ensures MacroFree(macros, s)
    decreases |s|
  {
    if s != [] {
      NoTagIsMacroFree(macros, s[1..]);
    }
  }

  /** The loop leaves text without a known macro's opening tag as it is. */
  lemma {:induction false} MacroLoopFree(macros: Table, done: string, rest: string, bound: nat, fuel: nat)
    requires MacroFree(macros, rest)
    ensures MacroLoop(macros, done, rest, bound, fuel) == Ok(done + rest)
    decreases |rest|
  {
    if |done| < bound && rest != [] {
      MacroLoopFree(macros, done + [rest[0]], rest[1..], bound, fuel);
      assert done + [rest[0]] + rest[1..] == done + rest;
    }
  }

  /** `expand_macros` returns text without a known macro's opening tag unchanged. */
  lemma MacroExpandFree(macros: Table, s: string, fuel: nat)
    requires MacroFree(macros, s)
    ensures MacroExpand(macros, s, fuel) == Ok(s)
  {
    MacroLoopFree(macros, [], s, |s|, fuel);
    assert [] + s == s;
  }

  /** At a character other than `<` the loop copies that character and moves on. */
  lemma LoopPlainStep(macros: Table, done: string, s: string, bound: nat, fuel: nat)
    requires |done| < bound && s != [] && s[0] != '<'
    ensures MacroLoop(macros, done, s, bound, fuel) == MacroLoop(macros, done + [s[0]], s[1..], bound, fuel)
  {
  }

  /** The loop walks over text without a `<` one character at a time, changing nothing. */
  lemma {:induction false} MacroLoopSkip(macros: Table, done: string, pre: string, rest: string, bound: nat, fuel: nat)
    requires NoTag(pre)
    ensures MacroLoop(macros, done, pre + rest, bound, fuel) == MacroLoop(macros, done + pre, rest, bound, fuel)
    decreases |pre|
  {
    var s := pre + rest;
    if pre == [] {
      assert s == rest && done + pre == done;
    } else if |done| >= bound {
      ConcatAssoc(done, pre, rest);
    } else {
      SkipStep(macros, done, pre, rest, bound, fuel);
      MacroLoopSkip(macros, done + [pre[0]], pre[1..], rest, bound, fuel);
    }
  }

  lemma SkipStep(macros: Table, done: string, pre: string, rest: string, bound: nat, fuel: nat)
    requires NoTag(pre) && pre != [] && |done| < bound
    ensures MacroLoop(macros, done, pre + rest, bound, fuel) == MacroLoop(macros, done + [pre[0]], pre[1..] + rest, bound, fuel)
    ensures done + [pre[0]] + pre[1..] == done + pre
  {
    var s := pre + rest;
    assert s[0] == pre[0] && s[1..] == pre[1..] + rest;
    LoopPlainStep(macros, done, s, bound, fuel);
  }

  /**
   * A known macro's span `<name>content</name>` is found as such when no `</name>` follows it:
   * its body is the text before the last closing tag.
   */
  lemma FindMacroAt(macros: Table, name: string, content: string, post: string)
    requires IsIdent(name) && HasKey(macros, Couch(name)) && |content| >= 1
    requires !Contains(post, CloseTag(name))
    ensures FindMacro(macros, Span(name, content) + post) == At(name, content)
  {
    var open := "<" + name + ">";
    var tail := content + CloseTag(name) + post;
    var s := Span(name, content) + post;
    assert s == open + tail;
    MatchMacroOpenTag(name, tail);
    assert Drop(s, |name| + 2) == tail;
    Lexer.MatchCloseTagLast(name, content, post);
  }

  /** At a known macro's span the loop replaces the span by its expansion and goes on after it. */
  lemma MacroLoopAtSpan(macros: Table, done: string, name: string, content: string, post: string, bound: nat, fuel: nat)
    requires |done| < bound
    requires IsIdent(name) && HasKey(macros, Couch(name)) && |content| >= 1
    requires !Contains(post, CloseTag(name))
    ensures ExpandOne(macros, name, content, fuel).Err? ==>
      MacroLoop(macros, done, Span(name, content) + post, bound, fuel) == Err(ExpandOne(macros, name, content, fuel).error)
    ensures ExpandOne(macros, name, content, fuel).Ok? ==>
      MacroLoop(macros, done, Span(name, content) + post, bound, fuel)
      == MacroLoop(macros, done + ExpandOne(macros, name, content, fuel).value, post, bound, fuel)
  {
    FindMacroAt(macros, name, content, post);
    var s := Span(name, content) + post;
    assert s[|Span(name, content)|..] == post;
  }

  /**
   * One macro between text without tags: `pre<name>content</name>post` becomes `pre`, the
   * macro's expansion, then `post` (`post` may hold tags of unknown names).
   */
  lemma MacroExpandSingle(macros: Table, pre: string, name: string, content: string, post: string, fuel: nat)
    requires NoTag(pre) && MacroFree(macros, post)
    requires IsIdent(name) && HasKey(macros, Couch(name)) && |content| >= 1
    requires !Contains(post, CloseTag(name))
    ensures var e := ExpandOne(macros, name, content, fuel);
      MacroExpand(macros, pre + Span(name, content) + post, fuel)
      == if e.Err? then Err(e.error) else Ok(pre + e.value + post)
  {
    var s := pre + Span(name, content) + post;
    assert s == pre + (Span(name, content) + post);
    MacroLoopSkip(macros, [], pre, Span(name, content) + post, |s|, fuel);
    assert [] + pre == pre;
    MacroLoopAtSpan(macros, pre, name, content, post, |s|, fuel);
    var e := ExpandOne(macros, name, content, fuel);
    if e.Ok? {
      MacroLoopFree(macros, pre + e.value, post, |s|, fuel);
    }
  }

  /**
   * `expand_macro` on a body and a template without known macros: the stripped template with
   * the stripped body at its `{}`.
   */
  lemma ExpandOneFree(macros: Table, name: string, content: string, fuel: nat)
    requires fuel >= 1
    requires MacroFree(macros, Strip(content)) && MacroFree(macros, Strip(Template(macros, name)))
    ensures ExpandOne(macros, name, content, fuel) == Format(Strip(Template(macros, name)), Strip(content))
  {
    MacroExpandFree(macros, Strip(content), fuel);
    MacroExpandFree(macros, Strip(Template(macros, name)), fuel - 1);
  }

  /**
   * A known macro whose name is followed by text without another `</name>` after its first
   * character is improperly closed: no body can be found.
   */
  lemma MacroLoopUnclosed(macros: Table, done: string, name: string, rest: string, bound: nat, fuel: nat)
    requires |done| < bound
    requires IsIdent(name) && HasKey(macros, Couch(name)) && rest != []
    requires !Contains(rest[1..], CloseTag(name))
    ensures MacroLoop(macros, done, "<" + name + ">" + rest, bound, fuel) == Err(UnclosedMacro)
  {
    var s := "<" + name + ">" + rest;
    MatchMacroOpenTag(name, rest);
    assert Drop(s, |name| + 2) == rest;
    forall i | 1 <= i ensures !OccursAt(rest, CloseTag(name), i) {
      OccursInDrop(rest, CloseTag(name), 1, i - 1);
    }
  }

  /** A macro with an empty body, `<name></name>`, counts as improperly closed. */
  lemma MacroLoopEmptyBody(macros: Table, done: string, name: string, post: string, bound: nat, fuel: nat)
    requires |done| < bound
    requires IsIdent(name) && HasKey(macros, Couch(name))
    requires !Contains(post, CloseTag(name))
    ensures MacroLoop(macros, done, "<" + name + ">" + CloseTag(name) + post, bound, fuel) == Err(UnclosedMacro)
  {
    var c := CloseTag(name);
    var rest := c + post;
    assert "<" + name + ">" + CloseTag(name) + post == "<" + name + ">" + rest;
    assert rest[|c|..] == post && c[0] == '<';
    forall j | 0 <= j ensures !OccursAt(rest[1..], c, j) {
      OccursInDrop(rest, c, 1, j);
      if j + 1 < |c| {
        assert rest[j + 1] == c[j + 1] == (if j == 0 then '/' else if j + 2 == |c| then '>' else name[j - 1]);
      } else {
        OccursInDrop(rest, c, |c|, j + 1 - |c|);
      }
    }
    MacroLoopUnclosed(macros, done, name, rest, bound, fuel);
  }

  /**
   * A macro whose stripped template is `<name>c</name>` itself never finishes expanding: at any
   * depth the template opens the same macro again, and Python's recursion limit is reached.
   */
  lemma {:induction false} SelfReference(macros: Table, name: string, c: string, content: string, fuel: nat)
    requires IsIdent(name) && HasKey(macros, Couch(name)) && |c| >= 1
    requires Strip(Template(macros, name)) == Span(name, c)
    requires MacroFree(macros, Strip(c)) && MacroFree(macros, Strip(content))
    ensures ExpandOne(macros, name, content, fuel) == Err(RecursionLimit)
    decreases fuel
  {
    if fuel == 0 {
      MacroExpandFree(macros, Strip(content), fuel);
    } else {
      SelfReference(macros, name, c, c, fuel - 1);
      SelfReferenceStep(macros, name, c, content, fuel);
    }
  }

  /** One level of `SelfReference`: when the template's own span fails, so does the outer one. */
  lemma SelfReferenceStep(macros: Table, name: string, c: string, content: string, fuel: nat)
    requires IsIdent(name) && HasKey(macros, Couch(name)) && |c| >= 1 && fuel > 0
    requires Strip(Template(macros, name)) == Span(name, c)
    requires MacroFree(macros, Strip(content))
    requires ExpandOne(macros, name, c, fuel - 1) == Err(RecursionLimit)
    ensures ExpandOne(macros, name, content, fuel) == Err(RecursionLimit)
  {
    var t := Span(name, c);
    MacroExpandFree(macros, Strip(content), fuel);
    assert t + [] == t;
    assert !Contains([], CloseTag(name));
    MacroLoopAtSpan(macros, [], name, c, [], |t|, fuel - 1);
    assert MacroExpand(macros, Strip(Template(macros, name)), fuel - 1) == Err(RecursionLimit);
  }

  /**
   * The cursor walks only up to the length the text had at the start: when an expansion is at
   * least that long, whatever follows the first macro is left as it is, macros included.
   */
  lemma MacroExpandStopsAtBound(macros: Table, name: string, content: string, post: string, fuel: nat)
    requires IsIdent(name) && HasKey(macros, Couch(name)) && |content| >= 1
    requires !Contains(post, CloseTag(name))
    requires ExpandOne(macros, name, content, fuel).Ok?
    requires |ExpandOne(macros, name, content, fuel).value| >= |Span(name, content) + post|
    ensures MacroExpand(macros, Span(name, content) + post, fuel) == Ok(ExpandOne(macros, name, content, fuel).value + post)
  {
    var s := Span(name, content) + post;
    MacroLoopAtSpan(macros, [], name, content, post, |s|, fuel);
    assert [] + ExpandOne(macros, name, content, fuel).value == ExpandOne(macros, name, content, fuel).value;
  }

  /**
   * Two spans one after the other: the first is replaced by its expansion; the second is
   * replaced too when the cursor, now just past the first expansion, is still inside the
   * original length, and is left as it is otherwise.
   */
  lemma SequentialSpans(macros: Table, pre: string, a: string, c1: string, b: string, c2: string, fuel: nat, e1: string, e2: string)
    requires NoTag(pre)
    requires IsIdent(a) && HasKey(macros, Couch(a)) && |c1| >= 1
    requires IsIdent(b) && HasKey(macros, Couch(b)) && |c2| >= 1
    requires !Contains(Span(b, c2), CloseTag(a))
    requires ExpandOne(macros, a, c1, fuel) == Ok(e1) && ExpandOne(macros, b, c2, fuel) == Ok(e2)
    ensures var s := pre + Span(a, c1) + Span(b, c2);
      MacroExpand(macros, s, fuel) == Ok(pre + e1 + if |pre + e1| < |s| then e2 else Span(b, c2))
  {
    var s := pre + Span(a, c1) + Span(b, c2);
    assert s == pre + (Span(a, c1) + Span(b, c2));
    MacroLoopSkip(macros, [], pre, Span(a, c1) + Span(b, c2), |s|, fuel);
    assert [] + pre == pre;
    MacroLoopAtSpan(macros, pre, a, c1, Span(b, c2), |s|, fuel);
    if |pre + e1| < |s| {
      assert Span(b, c2) + [] == Span(b, c2);
      assert !Contains([], CloseTag(b));
      MacroLoopAtSpan(macros, pre + e1, b, c2, [], |s|, fuel);
      assert pre + e1 + e2 + [] == pre + e1 + e2;
    }
  }

  /** A span starts with `<` and ends with `>`, so stripping leaves it as it is. */
  lemma SpanStripped(name: string, content: string)
    ensures Strip(Span(name, content)) == Span(name, content)
  {
    var t := Span(name, content);
    assert t[0] == '<' && t[|t| - 1] == '>';
    assert StripLeft(t) == t;
  }

  /**
   * A body that is itself a span is expanded before it is put in the template: with a template
   * without known macros, the result is the template filled with the inner expansion.
   */
  lemma NestedInBody(macros: Table, a: string, b: string, c: string, fuel: nat, e: string)
    requires fuel >= 1 && MacroFree(macros, Strip(Template(macros, a)))
    requires IsIdent(b) && HasKey(macros, Couch(b)) && |c| >= 1
    requires ExpandOne(macros, b, c, fuel) == Ok(e)
    ensures ExpandOne(macros, a, Span(b, c), fuel) == Format(Strip(Template(macros, a)), e)
  {
    var t := Span(b, c);
    SpanStripped(b, c);
    assert !Contains([], CloseTag(b));
    assert [] + t + [] == t;
    NoTagIsMacroFree(macros, []);
    MacroExpandSingle(macros, [], b, c, [], fuel);
    assert [] + e + [] == e;
    MacroExpandFree(macros, Strip(Template(macros, a)), fuel - 1);
  }

  /**
   * A template holding another macro's span is expanded, one level deeper, before the body is
   * put at its `{}`.
   */
  lemma NestedInTemplate(macros: Table, a: string, content: string, pre: string, b: string, c: string, post: string,
                         fuel: nat, e: string)
    requires fuel >= 1 && MacroFree(macros, Strip(content))
    requires Strip(Template(macros, a)) == pre + Span(b, c) + post
    requires NoTag(pre) && MacroFree(macros, post) && !Contains(post, CloseTag(b))
    requires IsIdent(b) && HasKey(macros, Couch(b)) && |c| >= 1
    requires ExpandOne(macros, b, c, fuel - 1) == Ok(e)
    ensures ExpandOne(macros, a, content, fuel) == Format(pre + e + post, Strip(content))
  {
    MacroExpandFree(macros, Strip(content), fuel);
    MacroExpandSingle(macros, pre, b, c, post, fuel - 1);
  }

  /** `expand_macros(macros, contents)` as the pipeline of stages over a memo; an exception is an `Err`. */
  method ExpandMacros(macros: Table, contents: string, fuel: nat) returns (r: Result<string>)
    ensures r == MacroExpand(macros, contents, fuel)
    decreases fuel, |contents|, 4
  {
    var memo := new MacroMemo(macros, contents);
    assert Take(contents, 0) == [] && Drop(contents, 0) == contents;
    while memo.offset < |contents|
      invariant memo.macros == macros
      invariant memo.currentMacro == None && memo.macroExpansion == None
      invariant |Drop(memo.contents, memo.offset)| <= |contents|
      invariant MacroLoop(macros, Take(memo.contents, memo.offset), Drop(memo.contents, memo.offset), |contents|, fuel)
        == MacroExpand(macros, contents, fuel)
      decreases |Drop(memo.contents, memo.offset)|, |contents| - memo.offset
    {
      var err := memo.Pipe(fuel, |contents|);
      if err.Some? {
        return Err(err.value);
      }
    }
    LoopEnd(macros, memo.contents, memo.offset, |contents|, fuel);
    return Ok(memo.contents);
  }

  /** Once the cursor reaches the bound, the loop gives the text as it is. */
  lemma LoopEnd(macros: Table, cur: string, at: nat, bound: nat, fuel: nat)
    requires at >= bound
    ensures MacroLoop(macros, Take(cur, at), Drop(cur, at), bound, fuel) == Ok(cur)
  {
    assert Take(cur, at) + Drop(cur, at) == cur;
  }

  /**
   * The recursive part of `expand_macro`: the stripped body and then the stripped template are
   * expanded, and the template's `{}` receives the body.
   */
  method ExpandSpan(macros: Table, name: string, content: string, fuel: nat) returns (r: Result<string>)
    ensures r == ExpandOne(macros, name, content, fuel)
    decreases fuel, |content|, 5
  {
    var inner := ExpandMacros(macros, Strip(content), fuel);
    if inner.Err? || fuel == 0 {
      r := if inner.Err? then inner else Err(RecursionLimit);
    } else {
      var target := ExpandMacros(macros, Strip(Template(macros, name)), fuel - 1);
      r := if target.Err? then target else Format(target.value, inner.value);
    }
  }

  // ---------------------------------------------------------------------------------------
  // Injection into content tags
  // ---------------------------------------------------------------------------------------

  /**
   * What `inject_data_into_content` gives for one content tag: whitespace runs become one
   * space, then variables are expanded, then macros.
   */
  function Inject(variables: Table, macros: Table, contents: string, fuel: nat): Result<string> {
    MacroExpand(macros, ExpandVariablesSpec(variables, CollapseWhitespace(contents)), fuel)
  }

  /** `inject_data_into_content` with the context's tables fixed, as a function of the contents. */
  function Injector(variables: Table, macros: Table, fuel: nat): string -> Result<string> {
    x => Inject(variables, macros, x, fuel)
  }

  /** A tag with neither `$` nor `<` only has its whitespace normalised. */
  lemma InjectPlain(variables: Table, macros: Table, contents: string, fuel: nat)
    requires '$' !in contents && '<' !in contents
    ensures Inject(variables, macros, contents, fuel) == Ok(CollapseWhitespace(contents))
    ensures Collapsed(CollapseWhitespace(contents))
  {
    var c := CollapseWhitespace(contents);
    CollapseKeepsAbsent(contents, '$');
    CollapseKeepsAbsent(contents, '<');
    CollapseWhitespaceSound(contents);
    ExpandVariablesNoToken(variables, c);
    assert NoTag(c) by {
      forall i | 0 <= i < |c| ensures c[i] != '<' {
        assert c[i] in c;
      }
    }
    NoTagIsMacroFree(macros, c);
    MacroExpandFree(macros, c, fuel);
  }

  /** `inject_data_into_content(ctx, contents)`, reading the tables of the parsed context. */
  method InjectDataIntoContent(ctx: Parser.Context, contents: string, fuel: nat) returns (r: Result<string>)
    ensures r == Inject(ctx.variables, ctx.macros, contents, fuel)
  {
    var collapsed := CollapseWhitespace(contents);
    var expanded := ExpandVariables(ctx.variables, collapsed);
    r := ExpandMacros(ctx.macros, expanded, fuel);
  }

  /**
   * What `expand` makes of the custom tags when `inject` rewrites one tag's contents: every
   * tag keeps its name and position and holds its rewritten contents. The first tag whose
   * rewriting fails decides the error.
   */
  function InjectAll(inject: string -> Result<string>, tags: Table): (r: Result<Table>)
    ensures r.Ok? ==> |r.value| == |tags|
    ensures r.Ok? ==> forall i :: 0 <= i < |tags| ==> r.value[i].0 == tags[i].0 && inject(tags[i].1) == Ok(r.value[i].1)
    ensures r.Ok? <==> forall i :: 0 <= i < |tags| ==> inject(tags[i].1).Ok?
    ensures r.Err? ==> exists i ::
      && 0 <= i < |tags|
      && inject(tags[i].1) == Err(r.error)
      && (forall j :: 0 <= j < i ==> inject(tags[j].1).Ok?)
    decreases |tags|
  {
    if tags == [] then Ok([])
    else
      match inject(tags[0].1)
      case Err(e) => Err(e)
      case Ok(v) =>
        match InjectAll(inject, tags[1..])
        case Err(e) =>
          assert forall i :: 1 <= i < |tags| ==> tags[i] == tags[1..][i - 1];
          Err(e)
        case Ok(rest) =>
          assert forall i :: 1 <= i < |tags| ==> tags[i] == tags[1..][i - 1];
          Ok([(tags[0].0, v)] + rest)
  }

  /**
   * `expand` part-way through the custom tags: `now` has the names of `tags` in the same order,
   * the tags before `i` hold their rewritten contents and the others are as they were.
   */
  ghost predicate RewrittenUpTo(inject: string -> Result<string>, tags: Table, now: Table, i: int) {
    && |now| == |tags| && 0 <= i <= |tags|
    && (forall j :: 0 <= j < |tags| ==> now[j].0 == tags[j].0)
    && (forall j :: 0 <= j < i ==> inject(tags[j].1) == Ok(now[j].1))
    && (forall j :: i <= j < |tags| ==> now[j] == tags[j])
  }

  /** When every tag before `i` is rewritten and tag `i` fails, `expand` fails with tag `i`'s error. */
  lemma {:induction false} InjectAllFirstErr(inject: string -> Result<string>, tags: Table, i: nat)
    requires i < |tags| && inject(tags[i].1).Err?
    requires forall j :: 0 <= j < i ==> inject(tags[j].1).Ok?
    ensures InjectAll(inject, tags) == Err(inject(tags[i].1).error)
    decreases i
  {
    if i > 0 {
      assert forall j :: 1 <= j < |tags| ==> tags[j] == tags[1..][j - 1];
      InjectAllFirstErr(inject, tags[1..], i - 1);
    }
  }

  /** A table whose items are the rewritten items, in order, is what `expand` produces. */
  lemma {:induction false} InjectAllOk(inject: string -> Result<string>, tags: Table, out: Table)
    requires |out| == |tags|
    requires forall i :: 0 <= i < |tags| ==> out[i].0 == tags[i].0 && inject(tags[i].1) == Ok(out[i].1)
    ensures InjectAll(inject, tags) == Ok(out)
    decreases |tags|
  {
    if tags != [] {
      assert forall j :: 1 <= j < |tags| ==> tags[j] == tags[1..][j - 1] && out[j] == out[1..][j - 1];
      InjectAllOk(inject, tags[1..], out[1..]);
      assert out == [(tags[0].0, out[0].1)] + out[1..];
    }
  }

  /**
   * `expand(ctx)`: every custom tag's contents are overwritten, in insertion order, by their
   * injection. An exception leaves the tags before the failing one already rewritten.
   */
  method Expand(ctx: Parser.Context, fuel: nat) returns (err: Option<Error>)
    modifies ctx
    ensures ctx.macros == old(ctx.macros) && ctx.globals == old(ctx.globals) && ctx.variables == old(ctx.variables)
    ensures Keys(ctx.customTags) == Keys(old(ctx.customTags))
    ensures InjectAll(Injector(ctx.variables, ctx.macros, fuel), old(ctx.customTags))
      == if err.Some? then Err(err.value) else Ok(ctx.customTags)
    ensures err.Some? ==> exists i ::
      && RewrittenUpTo(Injector(ctx.variables, ctx.macros, fuel), old(ctx.customTags), ctx.customTags, i)
      && i < |old(ctx.customTags)|
      && Inject(ctx.variables, ctx.macros, old(ctx.customTags)[i].1, fuel) == Err(err.value)
  {
    ghost var tags := ctx.customTags;
    ghost var inject := Injector(ctx.variables, ctx.macros, fuel);
    var i := 0;
    while i < |ctx.customTags|
      invariant ctx.macros == old(ctx.macros) && ctx.globals == old(ctx.globals) && ctx.variables == old(ctx.variables)
      invariant RewrittenUpTo(inject, tags, ctx.customTags, i)
    {
      var (name, contents) := ctx.customTags[i];
      var r := InjectDataIntoContent(ctx, contents, fuel);
      assert r == inject(tags[i].1);
      if r.Err? {
        InjectAllFirstErr(inject, tags, i);
        return Some(r.error);
      }
      ctx.customTags := ctx.customTags[i := (name, r.value)];
      i := i + 1;
    }
    InjectAllOk(inject, tags, ctx.customTags);
    return None;
  }
}
