/**
 * The draft expander (blagh/parser/expansion.py), an earlier version of the expander that
 * the package's tests import. It differs from the live one in five ways: its patterns do not
 * reach past the first newline and its opening-tag pattern takes everything up to the last
 * `>` of the line as the name; it looks a macro up by its bare name rather than `$name$`;
 * it expands neither the inner text nor the template of a macro; it does not normalise
 * whitespace; and its cursor loops run to the CURRENT length of the text, which they
 * rebind after every splice.
 */
module DraftExpansion {
  import opened Results
  import opened Text
  import opened Tables
  import Parser
  import Expansion

  // ---------------------------------------------------------------------------------------
  // Matchers (`match_variable` is the live one, `Expansion.MatchVariable`)
  // ---------------------------------------------------------------------------------------

  /** The text before the first newline: as far as `.` reaches without DOTALL. */
  function FirstLine(s: string): (r: string)
    ensures |r| <= |s| && r == s[..|r|]
    ensures forall i :: 0 <= i < |r| ==> r[i] != '\n'
    ensures |r| < |s| ==> s[|r|] == '\n'
    decreases |s|
  {
    if s == [] || s[0] == '\n' then [] else [s[0]] + FirstLine(s[1..])
  }

  /** A string without a newline is its own first line. */
  lemma {:induction false} FirstLineWhole(s: string)
    requires forall i :: 0 <= i < |s| ==> s[i] != '\n'
    ensures FirstLine(s) == s
    decreases |s|
  {
    if s != [] {
      FirstLineWhole(s[1..]);
    }
  }

  /**
   * `match_macro_open(s)`: the pattern `(<(.+)>).+` without DOTALL; the name, group 2. The
   * greedy `.+` runs to the LAST `>` of the first line that still has a character after it
   * (`MatchMacroOpenSpec`).
   */
  function MatchMacroOpen(s: string): (r: Option<string>)
    ensures r.Some? ==> |r.value| >= 1 && OccursAt(s, "<" + r.value + ">", 0) && |r.value| + 2 < |FirstLine(s)|
  {
    var line := FirstLine(s);
    if line == [] || line[0] != '<' then None
    else
      var j := LastBetween(line, ">", 2, |line| - 2);
      if j < 2 then None
      else
        assert s[..j + 1] == "<" + line[1..j] + ">" by {
          assert line[j..j + 1] == ">";
          assert s[..j + 1] == line[..j + 1] == [line[0]] + line[1..j] + [line[j]];
        }
        Some(line[1..j])
  }

  /**
   * The name `match_macro_open` takes runs to the last `>` of the first line with a character
   * after it, and there is a match exactly when the first line starts with `<` and has such a
   * `>` at index 2 or later.
   */
  lemma MatchMacroOpenSpec(s: string)
    ensures var r := MatchMacroOpen(s);
      && (r.Some? ==> forall j :: |r.value| + 1 < j < |FirstLine(s)| - 1 ==> s[j] != '>')
      && (r.None? <==>
          || FirstLine(s) == []
          || s[0] != '<'
          || forall j :: 2 <= j < |FirstLine(s)| - 1 ==> s[j] != '>')
  {
    var line := FirstLine(s);
    if line != [] && line[0] == '<' {
      var j := LastBetween(line, ">", 2, |line| - 2);
      assert forall k :: 2 <= k < |line| - 1 && j < k ==> s[k] != '>' by {
        forall k | 2 <= k < |line| - 1 && j < k ensures s[k] != '>' {
          assert !OccursAt(line, ">", k);
          assert line[k..k + 1] == [line[k]];
        }
      }
      if j >= 2 {
        assert line[j..j + 1] == ">";
        assert s[j] == line[j];
      }
    }
  }

  /**
   * `match_macro_close(name, s)`: the pattern `(.+)(</name>).?` with the name escaped and
   * without DOTALL; the inner text, group 1: everything before the last `</name>` that starts
   * on the first line after at least one character (`MatchMacroCloseSpec`).
   */
  function MatchMacroClose(name: string, s: string): (r: Option<string>)
    ensures r.Some? ==> 1 <= |r.value| <= |FirstLine(s)| && OccursAt(s, r.value + CloseTag(name), 0)
  {
    var i := LastBetween(s, CloseTag(name), 1, |FirstLine(s)|);
    if i < 1 then None
    else
      assert s[..i + |CloseTag(name)|] == s[..i] + CloseTag(name) by {
        assert s[..i + |CloseTag(name)|] == s[..i] + s[i..i + |CloseTag(name)|];
      }
      Some(s[..i])
  }

  /**
   * The inner text `match_macro_close` takes ends at the last closing tag that starts on the
   * first line after a first character, and there is a match exactly when there is one.
   */
  lemma MatchMacroCloseSpec(name: string, s: string)
    ensures var r := MatchMacroClose(name, s);
      && (r.Some? ==> forall j :: |r.value| < j <= |FirstLine(s)| ==> !OccursAt(s, CloseTag(name), j))
      && (r.None? <==> forall j :: 1 <= j <= |FirstLine(s)| ==> !OccursAt(s, CloseTag(name), j))
  {
  }

  /** The template of a macro: looked up under its bare name; a miss gives `''`. */
  function Template(macros: Table, name: string): string {
    ValueOr(macros, name, "")
  }

  // ---------------------------------------------------------------------------------------
  // Variables
  // ---------------------------------------------------------------------------------------

  /**
   * What `expand_variables(variables, contents)` returns, told from left to right: each
   * token becomes its value, and the character right after a token is copied without being
   * looked at, since the cursor moves past the value and one more character.
   */
  function Substitute(variables: Table, s: string): string
    decreases |s|, 1
  {
    if s == [] then []
    else
      match Expansion.MatchVariable(s, 0)
      case None => [s[0]] + Substitute(variables, s[1..])
      case Some(token) => SubstituteTokenCase(variables, s, token)
  }

  /** `Substitute` at a token that starts `s`: its value, the character after it, then the rest. */
  function SubstituteTokenCase(variables: Table, s: string, token: string): string
    requires s != [] && |token| <= |s|
    decreases |s|, 0
  {
    Expansion.ValueOf(variables, token) + Take(s[|token|..], 1) + Substitute(variables, Drop(s, |token| + 1))
  }

  /**
   * `expand_variables(variables, contents)`: the cursor walks while it is inside the text as
   * it is NOW, the text being rebound after every splice.
   */
  method ExpandVariables(variables: Table, contents: string) returns (r: string)
    ensures r == Substitute(variables, contents)
  {
    var offset: nat := 0;
    r := contents;
    ScanStart(variables, contents);
    while offset < |r|
      invariant Take(r, offset) + Substitute(variables, Drop(r, offset)) == Substitute(variables, contents)
      decreases |r| - offset
    {
      r, offset := ExpandVariableAt(variables, r, offset, Substitute(variables, contents));
    }
    ScanEnd(variables, r, offset, Substitute(variables, contents));
  }

  /** One turn of the loop: a token at the cursor is spliced in, and the cursor moves one past what was written. */
  method ExpandVariableAt(variables: Table, r: string, offset: nat, ghost goal: string) returns (next: string, k: nat)
    requires offset < |r|
    requires Take(r, offset) + Substitute(variables, Drop(r, offset)) == goal
    ensures |next| - k < |r| - offset
    ensures Take(next, k) + Substitute(variables, Drop(next, k)) == goal
  {
    var varmatch := Expansion.MatchVariable(r, offset);
    if varmatch.Some? {
      var varname := varmatch.value;
      var data := Expansion.ValueOf(variables, varname);
      next := ReplaceAt(varname, data, r, offset);
      k := offset + |data| + 1;
      SpliceScan(variables, r, offset, varname, next, k, goal);
    } else {
      next, k := r, offset + 1;
      PlainScan(variables, r, offset, goal);
    }
  }

  /** Before the loop nothing is copied and the whole text is still to scan. */
  lemma ScanStart(variables: Table, contents: string)
    ensures Take(contents, 0) + Substitute(variables, Drop(contents, 0)) == Substitute(variables, contents)
  {
    assert Take(contents, 0) + Drop(contents, 0) == [] + contents;
  }

  /** Once the cursor is past the end, the text is its own substitution. */
  lemma ScanEnd(variables: Table, r: string, offset: nat, goal: string)
    requires offset >= |r|
    requires Take(r, offset) + Substitute(variables, Drop(r, offset)) == goal
    ensures r == goal
  {
    assert Take(r, offset) == r && Drop(r, offset) == [];
    assert r + [] == r;
  }

  lemma SubstitutePlain(variables: Table, s: string)
    requires s != [] && Expansion.MatchVariable(s, 0).None?
    ensures Substitute(variables, s) == [s[0]] + Substitute(variables, s[1..])
  {
  }

  lemma SubstituteAt(variables: Table, s: string, token: string)
    requires Expansion.MatchVariable(s, 0) == Some(token)
    ensures Substitute(variables, s)
      == Expansion.ValueOf(variables, token) + Take(s[|token|..], 1) + Substitute(variables, Drop(s, |token| + 1))
  {
    assert s != [];
  }

  /** The cursor over a character that starts no token: the character is copied. */
  lemma PlainScan(variables: Table, r: string, at: nat, goal: string)
    requires at < |r| && Expansion.MatchVariable(r, at).None?
    requires Take(r, at) + Substitute(variables, Drop(r, at)) == goal
    ensures Take(r, at + 1) + Substitute(variables, Drop(r, at + 1)) == goal
  {
    var rest := Drop(r, at);
    Expansion.MatchVariableShift(r, at);
    SubstitutePlain(variables, rest);
    assert rest[1..] == Drop(r, at + 1);
    assert Take(r, at + 1) == Take(r, at) + [rest[0]];
    ConcatAssoc(Take(r, at), [rest[0]], Substitute(variables, rest[1..]));
  }

  /**
   * The cursor at a token, `next` being the text after the splice: the token becomes its
   * value and the next character is copied.
   */
  lemma TokenScan(variables: Table, r: string, at: nat, token: string, next: string)
    requires at < |r| && Expansion.MatchVariable(r, at) == Some(token)
    requires var data := Expansion.ValueOf(variables, token);
      var rest := Drop(r, at);
      && Take(next, at + |data| + 1) == Take(r, at) + data + Take(rest[|token|..], 1)
      && Drop(next, at + |data| + 1) == Drop(rest, |token| + 1)
    ensures var data := Expansion.ValueOf(variables, token);
      Take(next, at + |data| + 1) + Substitute(variables, Drop(next, at + |data| + 1))
      == Take(r, at) + Substitute(variables, Drop(r, at))
  {
    var data := Expansion.ValueOf(variables, token);
    var rest := Drop(r, at);
    Expansion.MatchVariableShift(r, at);
    SubstituteAt(variables, rest, token);
    var c := Take(rest[|token|..], 1);
    var tail := Substitute(variables, Drop(rest, |token| + 1));
    ConcatAssoc(Take(r, at) + data, c, tail);
    ConcatAssoc(Take(r, at), data, c + tail);
    ConcatAssoc(data, c, tail);
  }

  /** One turn of the loop at a token, told on the spliced text. */
  lemma SpliceScan(variables: Table, r: string, at: nat, token: string, next: string, k: nat, goal: string)
    requires at < |r| && Expansion.MatchVariable(r, at) == Some(token)
    requires next == ReplaceAt(token, Expansion.ValueOf(variables, token), r, at)
    requires k == at + |Expansion.ValueOf(variables, token)| + 1
    requires Take(r, at) + Substitute(variables, Drop(r, at)) == goal
    ensures |next| - k < |r| - at
    ensures Take(next, k) + Substitute(variables, Drop(next, k)) == goal
  {
    Expansion.MatchVariableIsToken(r, at);
    assert OccursAt(Drop(r, at), token, 0) by {
      assert Drop(r, at)[..|token|] == r[at..at + |token|];
    }
    Splice(r, at, token, Expansion.ValueOf(variables, token));
    TokenScan(variables, r, at, token, next);
  }

  /**
   * Splicing `data` over a prefix `cut` of the text after the cursor, then moving the cursor
   * past `data` and one more character.
   */
  lemma Splice(r: string, at: nat, cut: string, data: string)
    requires at < |r| && OccursAt(Drop(r, at), cut, 0)
    ensures var next := ReplaceAt(cut, data, r, at);
      var rest := Drop(r, at);
      && |next| - (at + |data| + 1) < |r| - at + 1 - |cut|
      && Take(next, at + |data| + 1) == Take(r, at) + data + Take(rest[|cut|..], 1)
      && Drop(next, at + |data| + 1) == Drop(rest, |cut| + 1)
  {
    var next := ReplaceAt(cut, data, r, at);
    var rest := Drop(r, at);
    var n := at + |data| + 1;
    ReplaceAtParts(cut, data, r, at);
    var tail := r[at + |cut|..];
    assert rest[|cut|..] == tail;
    assert next == r[..at] + data + tail;
    if tail == [] {
      assert Take(next, n) == next && Drop(next, n) == [];
      assert Drop(rest, |cut| + 1) == [];
    } else {
      assert next[..n] == r[..at] + data + [tail[0]];
      assert next[n..] == tail[1..];
      assert Drop(rest, |cut| + 1) == tail[1..];
    }
  }

  /** Text without `$` is left as it is. */
  lemma {:induction false} SubstituteNoToken(variables: Table, s: string)
    requires '$' !in s
    ensures Substitute(variables, s) == s
    decreases |s|
  {
    if s != [] {
      assert '$' !in s[1..] by {
        assert forall c :: c in s[1..] ==> c in s;
      }
      SubstituteNoToken(variables, s[1..]);
    }
  }

  /** A token followed by a character: its value, then the character, then the rest substituted. */
  lemma SubstituteToken(variables: Table, name: string, c: char, rest: string)
    requires IsIdent(name)
    ensures Substitute(variables, Couch(name) + [c] + rest)
      == Expansion.ValueOf(variables, Couch(name)) + [c] + Substitute(variables, rest)
  {
    var t := Couch(name);
    var s := t + [c] + rest;
    assert s == [] + t + ([c] + rest);
    Expansion.MatchVariableToken([], name, [c] + rest);
    SubstituteAt(variables, s, t);
    assert s[|t|..] == [c] + rest;
    assert Take(s[|t|..], 1) == [c];
    assert Drop(s, |t| + 1) == rest;
  }

  /** A token that ends the text: its value. */
  lemma SubstituteLastToken(variables: Table, name: string)
    requires IsIdent(name)
    ensures Substitute(variables, Couch(name)) == Expansion.ValueOf(variables, Couch(name))
  {
    var t := Couch(name);
    assert t == [] + t + [];
    Expansion.MatchVariableToken([], name, []);
    SubstituteAt(variables, t, t);
    assert t[|t|..] == [] && Drop(t, |t| + 1) == [];
  }

  /**
   * Two tokens with one character between them both expand, whatever that character is and
   * however long the first value is: the cursor follows the text as it grows.
   */
  lemma TwoTokens(variables: Table, a: string, c: char, b: string)
    requires IsIdent(a) && IsIdent(b)
    ensures Substitute(variables, Couch(a) + [c] + Couch(b))
      == Expansion.ValueOf(variables, Couch(a)) + [c] + Expansion.ValueOf(variables, Couch(b))
  {
    SubstituteToken(variables, a, c, Couch(b));
    SubstituteLastToken(variables, b);
  }

  /** Two adjacent tokens: the second one's leading `$` is copied unread, so it is not expanded. */
  lemma AdjacentTokens(variables: Table, a: string, b: string)
    requires IsIdent(a) && IsIdent(b) && '$' !in b
    ensures Substitute(variables, Couch(a) + Couch(b)) == Expansion.ValueOf(variables, Couch(a)) + Couch(b)
  {
    var rest := b + "$";
    assert Couch(b) == ['$'] + rest;
    ConcatAssoc(Couch(a), ['$'], rest);
    SubstituteToken(variables, a, '$', rest);
    TailAfterWord(variables, b);
  }

  /** A word followed by a single `$` is copied: the `$` starts no token. */
  lemma {:induction false} TailAfterWord(variables: Table, b: string)
    requires '$' !in b
    ensures Substitute(variables, b + "$") == b + "$"
    decreases |b|
  {
    var s := b + "$";
    if b == [] {
      assert s == "$" && s[1..] == [];
    } else {
      assert s[0] == b[0] && s[1..] == b[1..] + "$";
      assert b[0] in b;
      assert '$' !in b[1..] by {
        assert forall c :: c in b[1..] ==> c in b;
      }
      TailAfterWord(variables, b[1..]);
    }
  }

  // ---------------------------------------------------------------------------------------
  // Macros
  // ---------------------------------------------------------------------------------------

  /** `<name>content</name>`: the text a macro expansion replaces. */
  function Span(name: string, content: string): string {
    "<" + name + ">" + content + CloseTag(name)
  }

  /** `p` in front of a result; an error stays as it is. */
  function Prepend(p: string, r: Result<string>): (q: Result<string>)
    ensures q.Ok? <==> r.Ok?
    ensures r.Ok? ==> q.value == p + r.value
    ensures r.Err? ==> q == r
  {
    match r
    case Ok(v) => Ok(p + v)
    case Err(e) => Err(e)
  }

  /**
   * What `expand_macros(macros, contents)` returns, told from left to right: a macro span
   * becomes its template with the inner text at `{}`, expanded no further, and the character
   * right after the expansion is copied without being looked at; an unclosed macro or a
   * template `str.format` rejects is an error.
   */
  function MacroScan(macros: Table, s: string): Result<string>
    decreases |s|, 3
  {
    if s == [] then Ok([]) else MacroScanAt(macros, s, MatchMacroOpen(s))
  }

  /** `MacroScan` at the start of `s`, `open` being the name of the macro that opens there. */
  function MacroScanAt(macros: Table, s: string, open: Option<string>): Result<string>
    requires s != [] && open == MatchMacroOpen(s)
    decreases |s|, 2
  {
    match open
    case None => Prepend([s[0]], MacroScan(macros, s[1..]))
    case Some(name) => MacroScanTag(macros, s, name, MatchMacroClose(name, Drop(s, |name| + 2)))
  }

  /** `MacroScan` at a macro `name` that opens at the start of `s`, `close` being its inner text. */
  function MacroScanTag(macros: Table, s: string, name: string, close: Option<string>): Result<string>
    requires s != [] && MatchMacroOpen(s) == Some(name) && close == MatchMacroClose(name, Drop(s, |name| + 2))
    decreases |s|, 1
  {
    match close
    case None => Err(UnclosedMacro)
    case Some(content) => MacroScanSpanAt(macros, s, name, content, Format(Template(macros, name), content))
  }

  /** `MacroScan` at a span that starts `s`, `expansion` being its template formatted. */
  function MacroScanSpanAt(macros: Table, s: string, name: string, content: string, expansion: Result<string>)
    : Result<string>
    requires s != [] && MatchMacroOpen(s) == Some(name) && MatchMacroClose(name, Drop(s, |name| + 2)) == Some(content)
    decreases |s|, 0
  {
    match expansion
    case Err(e) => Err(e)
    case Ok(x) =>
      var after := Drop(s, |Span(name, content)|);
      Prepend(x + Take(after, 1), MacroScan(macros, Drop(after, 1)))
  }

  /** `expand_macros(macros, contents)`: one level of expansion, no recursion. */
  method ExpandMacros(macros: Table, contents: string) returns (r: Result<string>)
    ensures r == MacroScan(macros, contents)
  {
    var offset: nat := 0;
    var text := contents;
    ghost var goal := MacroScan(macros, contents);
    assert Take(text, 0) == [] && Drop(text, 0) == contents;
    PrependEmpty(goal);
    while offset < |text|
      invariant Prepend(Take(text, offset), MacroScan(macros, Drop(text, offset))) == goal
      decreases |text| - offset
    {
      var step := ExpandMacroAt(macros, text, offset);
      if step.Err? {
        return Err(step.error);
      }
      text, offset := step.value.0, step.value.1;
    }
    assert Take(text, offset) == text && Drop(text, offset) == [];
    assert text + [] == text;
    r := Ok(text);
  }

  /**
   * One pass of the `expand_macros` loop at `offset`: the spliced text and the
   * next offset, which leave the pending scan unchanged, or the error that
   * the scan from `offset` raises.
   */
  method ExpandMacroAt(macros: Table, text: string, offset: nat) returns (step: Result<(string, nat)>)
    requires offset < |text|
    ensures step.Err? ==> MacroScan(macros, Drop(text, offset)) == Err(step.error)
    ensures step.Ok? ==> |step.value.0| - step.value.1 < |text| - offset
    ensures step.Ok? ==>
      Prepend(Take(step.value.0, step.value.1), MacroScan(macros, Drop(step.value.0, step.value.1)))
      == Prepend(Take(text, offset), MacroScan(macros, Drop(text, offset)))
  {
    var rest := Drop(text, offset);
    var macroMatch := MatchMacroOpen(rest);
    if macroMatch.None? {
      MacroPlainScan(macros, text, offset);
      return Ok((text, offset + 1));
    }
    var name := macroMatch.value;
    var opener := "<" + name + ">";
    var closeMatch := MatchMacroClose(name, Drop(rest, |opener|));
    if closeMatch.None? {
      UnclosedScan(macros, text, offset, name, opener);
      return Err(UnclosedMacro);
    }
    var content := closeMatch.value;
    var fullExpansion := Format(Template(macros, name), content);
    if fullExpansion.Err? {
      FormatErrScan(macros, text, offset, name, opener, content);
      return Err(fullExpansion.error);
    }
    var unexpanded := opener + content + CloseTag(name);
    var next := ReplaceAt(unexpanded, fullExpansion.value, text, offset);
    var k := offset + |fullExpansion.value| + 1;
    SpanSpliceScan(macros, text, offset, name, opener, content, fullExpansion.value, next, k);
    return Ok((next, k));
  }

  lemma PrependEmpty(r: Result<string>)
    ensures Prepend([], r) == r
  {
    if r.Ok? {
      assert [] + r.value == r.value;
    }
  }

  lemma PrependPrepend(a: string, b: string, r: Result<string>)
    ensures Prepend(a, Prepend(b, r)) == Prepend(a + b, r)
  {
    if r.Ok? {
      ConcatAssoc(a, b, r.value);
    }
  }

  /** `MacroScan` at a macro that opens the text goes on at its closing tag. */
  lemma MacroScanOpen(macros: Table, s: string, name: string)
    requires s != [] && MatchMacroOpen(s) == Some(name)
    ensures MacroScan(macros, s) == MacroScanTag(macros, s, name, MatchMacroClose(name, Drop(s, |name| + 2)))
  {
    MacroScanUnfold(macros, s);
    MacroScanAtOpen(macros, s, name);
  }

  /** `MacroScan` on a text that is not empty looks at what opens there. */
  lemma MacroScanUnfold(macros: Table, s: string)
    requires s != []
    ensures MacroScan(macros, s) == MacroScanAt(macros, s, MatchMacroOpen(s))
  {
  }

  /** `MacroScanAt` at an opening tag looks for its closing tag. */
  lemma MacroScanAtOpen(macros: Table, s: string, name: string)
    requires s != [] && MatchMacroOpen(s) == Some(name)
    ensures MacroScanAt(macros, s, Some(name)) == MacroScanTag(macros, s, name, MatchMacroClose(name, Drop(s, |name| + 2)))
  {
  }

  /** `MacroScan` at a span that opens the text goes on with its template formatted. */
  lemma MacroScanClosed(macros: Table, s: string, name: string, content: string)
    requires s != [] && MatchMacroOpen(s) == Some(name)
    requires MatchMacroClose(name, Drop(s, |name| + 2)) == Some(content)
    ensures MacroScan(macros, s) == MacroScanSpanAt(macros, s, name, content, Format(Template(macros, name), content))
  {
    MacroScanOpen(macros, s, name);
    assert MacroScanTag(macros, s, name, MatchMacroClose(name, Drop(s, |name| + 2)))
      == MacroScanTag(macros, s, name, Some(content));
  }

  /** The cursor over a character that opens no macro: the character is copied. */
  lemma MacroPlainScan(macros: Table, text: string, at: nat)
    requires at < |text| && MatchMacroOpen(Drop(text, at)).None?
    ensures Prepend(Take(text, at + 1), MacroScan(macros, Drop(text, at + 1))) == Prepend(Take(text, at), MacroScan(macros, Drop(text, at)))
  {
    var rest := Drop(text, at);
    assert rest[1..] == Drop(text, at + 1);
    assert Take(text, at + 1) == Take(text, at) + [rest[0]];
    assert MacroScan(macros, rest) == MacroScanAt(macros, rest, None);
    PrependPrepend(Take(text, at), [rest[0]], MacroScan(macros, rest[1..]));
  }

  /** A macro without its closing tag on the line: the scan fails. */
  lemma UnclosedScan(macros: Table, text: string, at: nat, name: string, opener: string)
    requires at < |text| && MatchMacroOpen(Drop(text, at)) == Some(name) && opener == "<" + name + ">"
    requires MatchMacroClose(name, Drop(Drop(text, at), |opener|)).None?
    ensures MacroScan(macros, Drop(text, at)) == Err(UnclosedMacro)
  {
    var rest := Drop(text, at);
    MacroScanOpen(macros, rest, name);
    assert MacroScanTag(macros, rest, name, None) == Err(UnclosedMacro);
  }

  /** A template `str.format` rejects: the scan fails. */
  lemma FormatErrScan(macros: Table, text: string, at: nat, name: string, opener: string, content: string)
    requires at < |text| && MatchMacroOpen(Drop(text, at)) == Some(name) && opener == "<" + name + ">"
    requires MatchMacroClose(name, Drop(Drop(text, at), |opener|)) == Some(content)
    requires Format(Template(macros, name), content).Err?
    ensures MacroScan(macros, Drop(text, at)) == Err(Format(Template(macros, name), content).error)
  {
    MacroScanFormatErr(macros, Drop(text, at), name, content);
  }

  /** `MacroScan` over a plain variable that starts with a span whose template is rejected. */
  lemma MacroScanFormatErr(macros: Table, s: string, name: string, content: string)
    requires s != [] && MatchMacroOpen(s) == Some(name)
    requires MatchMacroClose(name, Drop(s, |name| + 2)) == Some(content)
    requires Format(Template(macros, name), content).Err?
    ensures MacroScan(macros, s) == Err(Format(Template(macros, name), content).error)
  {
    MacroScanClosed(macros, s, name, content);
  }

  /** `MacroScan` over a plain variable that starts with a span. */
  lemma MacroScanSpan(macros: Table, s: string, name: string, content: string, expansion: string)
    requires s != [] && MatchMacroOpen(s) == Some(name)
    requires MatchMacroClose(name, Drop(s, |name| + 2)) == Some(content)
    requires Format(Template(macros, name), content) == Ok(expansion)
    ensures var after := Drop(s, |Span(name, content)|);
      MacroScan(macros, s) == Prepend(expansion + Take(after, 1), MacroScan(macros, Drop(after, 1)))
  {
    MacroScanClosed(macros, s, name, content);
  }

  /**
   * A found span, `next` being the text after the splice: the expansion replaces the span
   * and the next character is copied.
   */
  lemma SpanScan(macros: Table, text: string, at: nat, name: string, content: string, expansion: string, next: string)
    requires at < |text| && MatchMacroOpen(Drop(text, at)) == Some(name)
    requires MatchMacroClose(name, Drop(Drop(text, at), |name| + 2)) == Some(content)
    requires Format(Template(macros, name), content) == Ok(expansion)
    requires var rest := Drop(text, at);
      var span := Span(name, content);
      && Take(next, at + |expansion| + 1) == Take(text, at) + expansion + Take(rest[|span|..], 1)
      && Drop(next, at + |expansion| + 1) == Drop(rest, |span| + 1)
    ensures Prepend(Take(next, at + |expansion| + 1), MacroScan(macros, Drop(next, at + |expansion| + 1)))
      == Prepend(Take(text, at), MacroScan(macros, Drop(text, at)))
  {
    var rest := Drop(text, at);
    var span := Span(name, content);
    var after := Drop(rest, |span|);
    MacroScanSpan(macros, rest, name, content, expansion);
    assert rest[|span|..] == after;
    DropDrop(rest, |span|, 1);
    PrependPrepend(Take(text, at), expansion + Take(after, 1), MacroScan(macros, Drop(after, 1)));
    ConcatAssoc(Take(text, at), expansion, Take(after, 1));
  }

  /** One turn of the loop at a span, told on the spliced text. */
  lemma SpanSpliceScan(macros: Table, text: string, at: nat, name: string, opener: string, content: string,
                       expansion: string, next: string, k: nat)
    requires at < |text| && MatchMacroOpen(Drop(text, at)) == Some(name) && opener == "<" + name + ">"
    requires MatchMacroClose(name, Drop(Drop(text, at), |opener|)) == Some(content)
    requires Format(Template(macros, name), content) == Ok(expansion)
    requires next == ReplaceAt(opener + content + CloseTag(name), expansion, text, at)
    requires k == at + |expansion| + 1
    ensures |next| - k < |text| - at
    ensures Prepend(Take(next, k), MacroScan(macros, Drop(next, k))) == Prepend(Take(text, at), MacroScan(macros, Drop(text, at)))
  {
    SpanSplice(text, at, name, opener, content, expansion, next);
    SpanScan(macros, text, at, name, content, expansion, next);
  }

  /** The text after splicing an expansion over a span, around the cursor's next stop. */
  lemma SpanSplice(text: string, at: nat, name: string, opener: string, content: string, expansion: string, next: string)
    requires at < |text| && opener == "<" + name + ">"
    requires OccursAt(Drop(text, at), opener, 0)
    requires OccursAt(Drop(Drop(text, at), |opener|), content + CloseTag(name), 0)
    requires next == ReplaceAt(opener + content + CloseTag(name), expansion, text, at)
    ensures var rest := Drop(text, at);
      var span := Span(name, content);
      && |next| - (at + |expansion| + 1) < |text| - at
      && Take(next, at + |expansion| + 1) == Take(text, at) + expansion + Take(rest[|span|..], 1)
      && Drop(next, at + |expansion| + 1) == Drop(rest, |span| + 1)
  {
    var rest := Drop(text, at);
    assert opener + content + CloseTag(name) == Span(name, content);
    SpanAtCursor(rest, name, content);
    Splice(text, at, Span(name, content), expansion);
  }

  /** The opening tag and the inner text with its closing tag make a span at the start. */
  lemma SpanAtCursor(rest: string, name: string, content: string)
    requires OccursAt(rest, "<" + name + ">", 0)
    requires OccursAt(Drop(rest, |name| + 2), content + CloseTag(name), 0)
    ensures OccursAt(rest, Span(name, content), 0)
  {
    var open := "<" + name + ">";
    var body := content + CloseTag(name);
    assert rest[|open|..][..|body|] == body;
    assert rest[..|open| + |body|] == rest[..|open|] + rest[|open|..][..|body|];
    ConcatAssoc(open, content, CloseTag(name));
  }

  /** Text without `<` is left as it is. */
  lemma {:induction false} MacroScanNoTag(macros: Table, s: string)
    requires '<' !in s
    ensures MacroScan(macros, s) == Ok(s)
    decreases |s|
  {
    if s != [] {
      assert '<' !in s[1..] by {
        assert forall c :: c in s[1..] ==> c in s;
      }
      MacroScanNoTag(macros, s[1..]);
      assert [s[0]] + s[1..] == s;
    }
  }

  /**
   * A line `p>m` + `c`, where `p` is `<` and a name and `m` holds no `>`, opens a macro whose
   * name is the rest of `p`, whatever that holds: the name runs to the last `>` that has a
   * character after it.
   */
  lemma OpenGreedy(p: string, m: string, c: char)
    requires |p| >= 2 && p[0] == '<'
    requires '\n' !in p && '\n' !in m && c != '\n'
    requires '>' !in m
    ensures MatchMacroOpen(p + ">" + m + [c]) == Some(p[1..])
  {
    var s := p + ">" + m + [c];
    assert forall i :: 0 <= i < |s| ==> s[i] != '\n' by {
      forall i | 0 <= i < |s| ensures s[i] != '\n' {
        if i < |p| {
          assert s[i] == p[i];
        } else if |p| < i < |s| - 1 {
          assert s[i] == m[i - |p| - 1];
        }
      }
    }
    assert forall j :: |p| < j < |s| - 1 ==> s[j] != '>' by {
      forall j | |p| < j < |s| - 1 ensures s[j] != '>' {
        assert s[j] == m[j - |p| - 1];
      }
    }
    assert s[1..|p|] == p[1..];
    OpenAt(s, |p|);
  }

  /** A first line `<`...`>` + one character, with no later `>` but the last character's, opens at that `>`. */
  lemma OpenAt(s: string, k: nat)
    requires forall i :: 0 <= i < |s| ==> s[i] != '\n'
    requires |s| >= 4 && s[0] == '<' && 2 <= k < |s| - 1 && s[k] == '>'
    requires forall j :: k < j < |s| - 1 ==> s[j] != '>'
    ensures MatchMacroOpen(s) == Some(s[1..k])
  {
    FirstLineWhole(s);
    MatchMacroOpenSpec(s);
    var r := MatchMacroOpen(s);
    assert r.Some?;
    var n := |r.value|;
    assert s[..n + 2] == "<" + r.value + ">";
    assert s[n + 1] == s[..n + 2][n + 1];
    assert n + 1 == k;
    assert r.value == s[..n + 2][1..n + 1];
  }

  /**
   * A macro opened by `p>` followed by too little text to hold its closing tag after a
   * first character is improperly closed, and `expand_macros` raises.
   */
  lemma GreedyUnclosed(macros: Table, p: string, m: string, c: char)
    requires |p| >= 2 && p[0] == '<' && |m| + 1 <= |p| + 2
    requires '\n' !in p && '\n' !in m && c != '\n'
    requires '>' !in m
    ensures MacroScan(macros, p + ">" + m + [c]) == Err(UnclosedMacro)
  {
    var s := p + ">" + m + [c];
    OpenGreedy(p, m, c);
    assert Drop(s, |p| + 1) == m + [c];
    MacroScanOpen(macros, s, p[1..]);
    assert MatchMacroClose(p[1..], Drop(s, |p| + 1)).None?;
    assert MacroScanTag(macros, s, p[1..], None) == Err(UnclosedMacro);
  }

  /**
   * A single macro filling a line, with a name and an inner text free of `>`, expands to its
   * template with the inner text at `{}`, NOT expanded again; the template is looked up
   * under the bare name.
   */
  lemma SingleMacro(macros: Table, name: string, content: string)
    requires name != [] && content != []
    requires '\n' !in name && '>' !in name && '\n' !in content && '>' !in content
    ensures MacroScan(macros, Span(name, content)) == Format(Template(macros, name), content)
  {
    var s := Span(name, content);
    var p := "<" + name;
    var m := content + "</" + name;
    assert s == p + ">" + m + ['>'];
    assert '>' !in m && '\n' !in m by {
      assert forall x :: x in m ==> x in content || x in "</" || x in name;
    }
    OpenGreedy(p, m, '>');
    assert p[1..] == name;
    assert Drop(s, |name| + 2) == content + CloseTag(name);
    SingleClose(name, content);
    match Format(Template(macros, name), content)
    case Err(e) =>
      MacroScanFormatErr(macros, s, name, content);
    case Ok(expansion) =>
      MacroScanSpan(macros, s, name, content, expansion);
      assert Drop(s, |s|) == [];
      assert MacroScan(macros, []) == Ok([]);
      assert expansion + [] + [] == expansion;
  }

  /** The inner text of a lone span is everything before its closing tag. */
  lemma SingleClose(name: string, content: string)
    requires content != []
    requires '\n' !in name && '\n' !in content
    ensures MatchMacroClose(name, content + CloseTag(name)) == Some(content)
  {
    var b := content + CloseTag(name);
    assert forall i :: 0 <= i < |b| ==> b[i] != '\n' by {
      forall i | 0 <= i < |b| ensures b[i] != '\n' {
        if i < |content| {
          assert b[i] == content[i];
        } else if |content| + 2 <= i < |b| - 1 {
          assert b[i] == name[i - |content| - 2];
        }
      }
    }
    FirstLineWhole(b);
    assert b[|content|..] == CloseTag(name);
    assert OccursAt(b, CloseTag(name), |content|);
    var r := MatchMacroClose(name, b);
    assert r.Some?;
    assert |r.value| >= |content|;
    assert r.value == b[..|r.value|];
  }

  /**
   * `<conversation>what</conversation><foo>is this</foo>`: the greedy name runs to the `>`
   * of `<foo>`, and that name's closing tag is nowhere, so the draft raises.
   */
  lemma SequentialMacrosRaise(macros: Table)
    ensures MacroScan(macros, "<conversation>what</conversation><foo>is this</foo>") == Err(UnclosedMacro)
  {
    var p := "<conversation>what</conversation><foo";
    var m := "is this</foo";
    assert p + ">" + m + ['>'] == "<conversation>what</conversation><foo>is this</foo>";
    GreedyUnclosed(macros, p, m, '>');
  }

  /**
   * `<conversation><foo>is this</foo></conversation>`: the greedy name runs to the `>` of
   * `</foo>`, so the draft raises on a macro nested in the text.
   */
  lemma NestedMacrosRaise(macros: Table)
    ensures MacroScan(macros, "<conversation><foo>is this</foo></conversation>") == Err(UnclosedMacro)
  {
    var p := "<conversation><foo>is this</foo";
    var m := "</conversation";
    assert p + ">" + m + ['>'] == "<conversation><foo>is this</foo></conversation>";
    GreedyUnclosed(macros, p, m, '>');
  }

  /**
   * With the template stored under `$conversation$`, as the parser stores it, the bare-name
   * lookup misses and the span expands to nothing.
   */
  lemma CouchedKeyMissed(template: string)
    ensures MacroScan([("$conversation$", template)], Span("conversation", "what")) == Ok("")
  {
    var macros := [("$conversation$", template)];
    SingleMacro(macros, "conversation", "what");
    assert |macros[0].0| != |"conversation"| && ValueOr(macros[1..], "conversation", "") == "";
    assert Template(macros, "conversation") == "";
    FormatWithoutPlaceholder("", "what");
  }

  // ---------------------------------------------------------------------------------------
  // Injection into content tags
  // ---------------------------------------------------------------------------------------

  /** What `inject_data_into_content` gives for one content tag: variables, then macros. */
  function Inject(variables: Table, macros: Table, contents: string): Result<string> {
    MacroScan(macros, Substitute(variables, contents))
  }

  function Injector(variables: Table, macros: Table): string -> Result<string> {
    x => Inject(variables, macros, x)
  }

  /** Whitespace is kept as it is: a tag with neither `$` nor `<` comes out unchanged. */
  lemma InjectPlain(variables: Table, macros: Table, contents: string)
    requires '$' !in contents && '<' !in contents
    ensures Inject(variables, macros, contents) == Ok(contents)
  {
    SubstituteNoToken(variables, contents);
    MacroScanNoTag(macros, contents);
  }

  /** `inject_data_into_content(ctx, contents)`, reading the tables of the parsed context. */
  method InjectDataIntoContent(ctx: Parser.Context, contents: string) returns (r: Result<string>)
    ensures r == Inject(ctx.variables, ctx.macros, contents)
  {
    var expanded := ExpandVariables(ctx.variables, contents);
    r := ExpandMacros(ctx.macros, expanded);
  }

  /**
   * `expand(ctx)`: every custom tag's contents are overwritten, in insertion order, by their
   * injection. An exception leaves the tags before the failing one already rewritten.
   */
  method Expand(ctx: Parser.Context) returns (err: Option<Error>)
    modifies ctx
    ensures ctx.macros == old(ctx.macros) && ctx.globals == old(ctx.globals) && ctx.variables == old(ctx.variables)
    ensures Keys(ctx.customTags) == Keys(old(ctx.customTags))
    ensures Expansion.InjectAll(Injector(ctx.variables, ctx.macros), old(ctx.customTags))
      == if err.Some? then Err(err.value) else Ok(ctx.customTags)
    ensures err.Some? ==> exists i ::
      && Expansion.RewrittenUpTo(Injector(ctx.variables, ctx.macros), old(ctx.customTags), ctx.customTags, i)
      && i < |old(ctx.customTags)|
      && Inject(ctx.variables, ctx.macros, old(ctx.customTags)[i].1) == Err(err.value)
  {
    ghost var tags := ctx.customTags;
    ghost var inject := Injector(ctx.variables, ctx.macros);
    var i := 0;
    while i < |ctx.customTags|
      invariant ctx.macros == old(ctx.macros) && ctx.globals == old(ctx.globals) && ctx.variables == old(ctx.variables)
      invariant Expansion.RewrittenUpTo(inject, tags, ctx.customTags, i)
    {
      var (name, contents) := ctx.customTags[i];
      var r := InjectDataIntoContent(ctx, contents);
      assert r == inject(tags[i].1);
      if r.Err? {
        Expansion.InjectAllFirstErr(inject, tags, i);
        return Some(r.error);
      }
      ctx.customTags := ctx.customTags[i := (name, r.value)];
      i := i + 1;
    }
    Expansion.InjectAllOk(inject, tags, ctx.customTags);
    return None;
  }
}
