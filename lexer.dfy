/**
 * The lexer (`blagh/lexer`): splits a document into its top-level sections `<name>body</name>`,
 * producing the table `name -> body` in the order the sections appear.
 *
 * The scan context is an object whose fields the four stages update in turn, as the
 * source's `ctx` dict is; `ScanFrom` is the function the scan loop is proved against.
 */
module Lexer {
  import opened Results
  import opened Text
  import opened Tables

  /** `advance(src, n)`: the source without its first `n` characters. */
  function Advance(src: string, n: nat): (r: string)
    ensures n <= |src| ==> src == src[..n] + r
    ensures n <= |src| ==> |r| == |src| - n
    ensures n > |src| ==> r == []
  {
    Drop(src, n)
  }

  /**
   * `match_open_tag`: the pattern `<(\w+)[^>]*>.+` (DOTALL) at the start of `src`.
   * It yields the tag name: the longest run of word characters after `<`, ended by
   * the first `>`, which must not be the last character.
   */
  function MatchOpenTag(src: string): (r: Option<string>)
    ensures r.Some? <==>
      && |src| >= 2 && src[0] == '<' && IsWordChar(src[1])
      && exists j :: 1 <= j < |src| - 1 && src[j] == '>'
    ensures r.Some? ==>
      && IsIdent(r.value)
      && |r.value| + 2 < |src|
      && src[..|r.value| + 1] == "<" + r.value
      && !IsWordChar(src[|r.value| + 1])
  {
    if |src| < 2 || src[0] != '<' then None
    else
      var name := WordPrefix(src[1..]);
      var close := Find(src, ">", 1);
      assert name != [] <==> IsWordChar(src[1]);
      assert (exists j :: 1 <= j < |src| - 1 && src[j] == '>') ==> 1 <= close < |src| - 1 by {
        forall j | 1 <= j < |src| - 1 && src[j] == '>' ensures 1 <= close <= j {
          assert src[j..j + 1] == [src[j]];
          assert OccursAt(src, ">", j);
        }
      }
      if name == [] || close < 0 || close + 1 >= |src| then None
      else
        assert src[close] == src[close..close + 1][0];
        assert close >= |name| + 1 by {
          forall j | 1 <= j < |name| + 1 ensures !OccursAt(src, ">", j) {
            assert src[j] == name[j - 1];
            assert src[j..j + 1][0] == src[j];
          }
        }
        assert src[..|name| + 1] == "<" + name;
        Some(name)
  }

  /**
   * `match_close_tag(tag, src)`: the pattern `(.+)</tag>.?` (DOTALL) at the start of `src`.
   * It yields the body: the non-empty text before the last `</tag>`.
   */
  function MatchCloseTag(tag: string, src: string): (r: Option<string>)
    ensures r.Some? <==> exists i :: 1 <= i && OccursAt(src, CloseTag(tag), i)
    ensures r.Some? ==> 1 <= |r.value| && OccursAt(src, r.value + CloseTag(tag), 0)
  {
    assert CloseTag(tag) == "</" + tag + ">";
    BodyBeforeLastClose(tag, src)
  }

  /** The body ends at the last `</tag>`: none starts after it. */
  lemma MatchCloseTagIsLast(tag: string, src: string)
    ensures MatchCloseTag(tag, src).Some? ==>
      forall j :: |MatchCloseTag(tag, src).value| < j ==> !OccursAt(src, CloseTag(tag), j)
  {
    BodyBeforeLastCloseIsLast(tag, src);
  }

  /**
   * One pass of the stage pipeline over `(source, tags)`: the new source and table,
   * or the error a stage raises.
   */
  function ScanStep(source: string, tags: Table): (r: Result<(string, Table)>)
    requires source != []
    ensures r.Ok? ==> |r.value.0| < |source|
  {
    match MatchOpenTag(source)
    case None => Ok((Advance(source, 1), tags))
    case Some(name) =>
      match MatchCloseTag(name, Drop(source, |name| + 2))
      case None => Err(MalformedTag)
      case Some(body) =>
        if HasKey(tags, name) then Err(DuplicateTag)
        else Ok((Advance(source, |name| + 2 + |body| + |CloseTag(name)|), Set(tags, name, body)))
  }

  /** The table the scan loop ends with when it starts from `source` and `tags`. */
  function ScanFrom(source: string, tags: Table): Result<Table>
    decreases |source|
  {
    if source == [] then Ok(tags)
    else
      match ScanStep(source, tags)
      case Err(e) => Err(e)
      case Ok((rest, tags')) => ScanFrom(rest, tags')
  }

  /** The `ctx` dict of `scan`, updated in place by each stage. */
  class ScanContext {
    var source: string
    var currentTag: Option<string>
    var tagContents: string
    var cursorAdvance: nat
    var tags: Table

    constructor (program: string)
      ensures source == program && currentTag == None && tagContents == []
      ensures cursorAdvance == 1 && tags == []
    {
      source := program;
      currentTag := None;
      tagContents := [];
      cursorAdvance := 1;
      tags := [];
    }

    /** `find_opening_tag`: records the tag opened at the start of the source and the cursor past `<name>`. */
    method FindOpeningTag()
      modifies this
      ensures currentTag == MatchOpenTag(source)
      ensures cursorAdvance == if currentTag.Some? then |currentTag.value| + 2 else 1
      ensures source == old(source) && tagContents == old(tagContents) && tags == old(tags)
    {
      var m := MatchOpenTag(source);
      if m.Some? {
        currentTag := m;
        cursorAdvance := |m.value| + 2;
      } else {
        currentTag := None;
        cursorAdvance := 1;
      }
    }

    /**
     * `find_closing_tag`: with a current tag, finds its body in the source after the cursor and
     * moves the cursor past the closing tag; an unclosed tag is an error.
     */
    method FindClosingTag() returns (err: Option<Error>)
      modifies this
      ensures source == old(source) && currentTag == old(currentTag) && tags == old(tags)
      ensures currentTag.None? ==>
        err.None? && tagContents == old(tagContents) && cursorAdvance == old(cursorAdvance)
      ensures currentTag.Some? ==>
        var m := MatchCloseTag(currentTag.value, Drop(source, old(cursorAdvance)));
        && (m.None? ==> err == Some(MalformedTag))
        && (m.Some? ==>
              && err.None? && tagContents == m.value
              && cursorAdvance == old(cursorAdvance) + |m.value| + |CloseTag(currentTag.value)|)
    {
      err := None;
      if currentTag.Some? {
        var name := currentTag.value;
        var m := MatchCloseTag(name, Drop(source, cursorAdvance));
        if m.None? {
          err := Some(MalformedTag);
        } else {
          tagContents := m.value;
          cursorAdvance := cursorAdvance + |m.value| + |CloseTag(name)|;
        }
      }
    }

    /** `add_tag_to_dict`: records the current tag's body; a name recorded before is an error. */
    method AddTagToDict() returns (err: Option<Error>)
      modifies this
      ensures source == old(source) && currentTag == old(currentTag)
      ensures tagContents == old(tagContents) && cursorAdvance == old(cursorAdvance)
      ensures currentTag.None? ==> err.None? && tags == old(tags)
      ensures currentTag.Some? && HasKey(old(tags), currentTag.value) ==> err == Some(DuplicateTag)
      ensures currentTag.Some? && !HasKey(old(tags), currentTag.value) ==>
        err.None? && tags == Set(old(tags), currentTag.value, tagContents)
    {
      err := None;
      if currentTag.Some? {
        if HasKey(tags, currentTag.value) {
          err := Some(DuplicateTag);
        } else {
          tags := Set(tags, currentTag.value, tagContents);
        }
      }
    }

    /** `advance_to_next_tag`: drops the consumed characters from the source. */
    method AdvanceToNextTag()
      modifies this
      ensures source == Advance(old(source), cursorAdvance)
      ensures currentTag == old(currentTag) && tagContents == old(tagContents)
      ensures cursorAdvance == old(cursorAdvance) && tags == old(tags)
    {
      source := Advance(source, cursorAdvance);
    }
  }

  /** `scan`: runs the four stages until the source is used up. */
  method Scan(program: string) returns (r: Result<Table>)
    ensures r == ScanFrom(program, [])
  {
    var ctx := new ScanContext(program);
    while |ctx.source| > 0
      invariant ScanFrom(ctx.source, ctx.tags) == ScanFrom(program, [])
      decreases |ctx.source|
    {
      ghost var source, tags := ctx.source, ctx.tags;
      ctx.FindOpeningTag();
      var err := ctx.FindClosingTag();
      if err.Some? {
        return Err(err.value);
      }
      err := ctx.AddTagToDict();
      if err.Some? {
        return Err(err.value);
      }
      ctx.AdvanceToNextTag();
      assert ScanStep(source, tags) == Ok((ctx.source, ctx.tags));
    }
    return Ok(ctx.tags);
  }

  lemma ContainsInDrop(s: string, sub: string, n: nat)
    ensures Contains(Drop(s, n), sub) ==> Contains(s, sub)
  {
    if n <= |s| {
      assert Drop(s, n) == s[n..|s|];
      ContainsInSlice(s, sub, n, |s|);
    } else {
      assert Contains(Drop(s, n), sub) ==> OccursAt(s, sub, 0);
    }
  }

  /** A `</name>` never starts inside another `</name>`: its only `<` is its first character. */
  lemma CloseTagNoSelfOverlap(t: string, s: string, k: int)
    requires IsIdent(t) && OccursAt(s, CloseTag(t), 0) && 0 < k < |CloseTag(t)|
    ensures !OccursAt(s, CloseTag(t), k)
  {
    var c := CloseTag(t);
    assert s[k] == s[..|c|][k] == c[k];
    assert c[k] != '<' by {
      assert c[1] == '/' && c[|c| - 1] == '>';
      assert forall i :: 2 <= i < |c| - 1 ==> c[i] == t[i - 2];
    }
    assert k + |c| <= |s| ==> s[k..k + |c|][0] == s[k];
  }

  /** The body of `body + </t> + rest` is `body` when `rest` holds no further `</t>`. */
  lemma MatchCloseTagLast(t: string, body: string, rest: string)
    requires IsIdent(t) && |body| >= 1 && !Contains(rest, CloseTag(t))
    ensures MatchCloseTag(t, body + CloseTag(t) + rest) == Some(body)
  {
    var c := CloseTag(t);
    var s := body + c + rest;
    assert s[|body|..|body| + |c|] == c;
    assert OccursAt(s, c, |body|);
    assert Drop(s, |body|) == c + rest;
    assert OccursAt(Drop(s, |body|), c, 0);
    forall j | |body| < j ensures !OccursAt(s, c, j) {
      if j < |body| + |c| {
        CloseTagNoSelfOverlap(t, Drop(s, |body|), j - |body|);
        assert j + |c| <= |s| ==> Drop(s, |body|)[j - |body|..j - |body| + |c|] == s[j..j + |c|];
      } else if j + |c| <= |s| {
        assert s[j..j + |c|] == rest[j - |body| - |c|..j - |body|];
        assert !OccursAt(rest, c, j - |body| - |c|);
      }
    }
    var m := MatchCloseTag(t, s);
    MatchCloseTagIsLast(t, s);
    assert m.Some?;
    assert s[..|m.value|] == m.value;
    assert |m.value| == |body|;
  }

  /** The name `match_open_tag` yields is the word run that follows `<`. */
  lemma MatchOpenTagName(src: string, t: string)
    requires IsIdent(t) && |t| + 1 < |src| && src[..|t| + 1] == "<" + t && !IsWordChar(src[|t| + 1])
    requires exists j :: 1 <= j < |src| - 1 && src[j] == '>'
    ensures MatchOpenTag(src) == Some(t)
  {
    assert src[1] == t[0];
    assert src[1..] == t + src[|t| + 1..];
    WordPrefixOf(t, src[|t| + 1..]);
    assert MatchOpenTag(src).Some? ==> MatchOpenTag(src).value == WordPrefix(src[1..]);
  }

  /**
   * One whole section: when `source` starts with `<t` (then anything up to the first `>`) and the
   * text from index `|t| + 2` is `body + </t> + rest` with no later `</t>`, one pass records
   * `t -> body` and leaves `rest`.
   */
  lemma ScanStepSection(source: string, t: string, body: string, rest: string, tags: Table)
    requires IsIdent(t) && |t| + 2 <= |source|
    requires source[..|t| + 1] == "<" + t && !IsWordChar(source[|t| + 1])
    requires exists j :: 1 <= j < |source| - 1 && source[j] == '>'
    requires source[|t| + 2..] == body + CloseTag(t) + rest
    requires |body| >= 1 && !Contains(rest, CloseTag(t)) && !HasKey(tags, t)
    ensures ScanStep(source, tags).Ok?
    ensures ScanStep(source, tags).value.0 == rest && ScanStep(source, tags).value.1 == tags + [(t, body)]
  {
    var n := |t| + 2 + |body| + |CloseTag(t)|;
    assert source[n..] == rest by {
      assert source[n..] == source[|t| + 2..][|body| + |CloseTag(t)|..];
    }
    assert Advance(source, n) == rest;
    assert Set(tags, t, body) == tags + [(t, body)];
    MatchOpenTagName(source, t);
    assert Drop(source, |t| + 2) == body + CloseTag(t) + rest;
    MatchCloseTagLast(t, body, rest);
    ScanStepAt(source, tags, t, body);
  }

  /** A pass at an opening tag `t` whose body is found records the body and moves past its closing tag. */
  lemma ScanStepAt(source: string, tags: Table, t: string, body: string)
    requires source != [] && MatchOpenTag(source) == Some(t) && !HasKey(tags, t)
    requires MatchCloseTag(t, Drop(source, |t| + 2)) == Some(body)
    ensures ScanStep(source, tags).Ok?
    ensures ScanStep(source, tags).value.0 == Advance(source, |t| + 2 + |body| + |CloseTag(t)|)
    ensures ScanStep(source, tags).value.1 == Set(tags, t, body)
  {
  }

  lemma ScanSection(source: string, t: string, body: string, rest: string, tags: Table)
    requires IsIdent(t) && |t| + 2 <= |source|
    requires source[..|t| + 1] == "<" + t && !IsWordChar(source[|t| + 1])
    requires exists j :: 1 <= j < |source| - 1 && source[j] == '>'
    requires source[|t| + 2..] == body + CloseTag(t) + rest
    requires |body| >= 1 && !Contains(rest, CloseTag(t)) && !HasKey(tags, t)
    ensures ScanFrom(source, tags) == ScanFrom(rest, tags + [(t, body)])
  {
    ScanStepSection(source, t, body, rest, tags);
  }

  /** The facts `ScanSection` needs about a source that starts with a plain section `<t>body</t>`. */
  lemma SectionShape(t: string, body: string, rest: string, source: string)
    requires IsIdent(t) && source == "<" + t + ">" + body + CloseTag(t) + rest
    ensures |t| + 2 <= |source|
    ensures source[..|t| + 1] == "<" + t && !IsWordChar(source[|t| + 1])
    ensures exists j :: 1 <= j < |source| - 1 && source[j] == '>'
    ensures source[|t| + 2..] == body + CloseTag(t) + rest
  {
    assert source[|t| + 1] == '>';
  }

  /** A source that ends with one section `<t>B</t>` adds `t -> B` to the table and stops. */
  lemma ScanLastSection(t: string, body: string, tags: Table)
    requires IsIdent(t) && |body| >= 1 && !HasKey(tags, t)
    ensures ScanFrom("<" + t + ">" + body + CloseTag(t), tags) == Ok(tags + [(t, body)])
  {
    var source := "<" + t + ">" + body + CloseTag(t);
    assert source == "<" + t + ">" + body + CloseTag(t) + [];
    SectionShape(t, body, [], source);
    assert !Contains([], CloseTag(t));
    ScanSection(source, t, body, [], tags);
  }

  /** `scan` of `<t>B</t>` is exactly `{t: B}` (the body must not be empty). */
  lemma ScanSingleTag(t: string, body: string)
    requires IsIdent(t) && |body| >= 1
    ensures ScanFrom("<" + t + ">" + body + CloseTag(t), []) == Ok([(t, body)])
  {
    ScanLastSection(t, body, []);
    assert [] + [(t, body)] == [(t, body)];
  }

  /** With no opening tag at its start, the source loses exactly one character and the table stays. */
  lemma ScanSkipsChar(source: string, tags: Table)
    requires source != [] && MatchOpenTag(source).None?
    ensures ScanFrom(source, tags) == ScanFrom(source[1..], tags)
  {
  }

  lemma ScanNewlineThenSection(u: string, b: string, tags: Table, rest: string)
    requires IsIdent(u) && |b| >= 1 && !HasKey(tags, u)
    requires rest == "\n" + ("<" + u + ">" + b + CloseTag(u))
    ensures ScanFrom(rest, tags) == Ok(tags + [(u, b)])
  {
    ScanSkipsChar(rest, tags);
    assert rest[1..] == "<" + u + ">" + b + CloseTag(u);
    ScanLastSection(u, b, tags);
  }

  /** Two sections separated by a newline give both bodies, in order. */
  lemma ScanTwoTags(t: string, a: string, u: string, b: string)
    requires IsIdent(t) && IsIdent(u) && t != u && |a| >= 1 && |b| >= 1
    requires !Contains("\n" + ("<" + u + ">" + b + CloseTag(u)), CloseTag(t))
    ensures ScanFrom("<" + t + ">" + a + CloseTag(t) + ("\n" + ("<" + u + ">" + b + CloseTag(u))), [])
      == Ok([(t, a), (u, b)])
  {
    var rest := "\n" + ("<" + u + ">" + b + CloseTag(u));
    var source := "<" + t + ">" + a + CloseTag(t) + rest;
    SectionShape(t, a, rest, source);
    ScanSection(source, t, a, rest, []);
    assert [] + [(t, a)] == [(t, a)];
    assert !HasKey([(t, a)], u);
    ScanNewlineThenSection(u, b, [(t, a)], rest);
    assert [(t, a)] + [(u, b)] == [(t, a), (u, b)];
  }

  /**
   * Attributes are not skipped: the body starts right after `<t` and one more character, so
   * for `<t attrs>B</t>` the recorded body is `attrs>B`.
   */
  lemma ScanTagWithAttributes(t: string, attrs: string, body: string)
    requires IsIdent(t)
    ensures ScanFrom("<" + t + " " + attrs + ">" + body + CloseTag(t), [])
      == Ok([(t, attrs + ">" + body)])
  {
    var source := "<" + t + " " + attrs + ">" + body + CloseTag(t);
    AttributeShape(t, attrs, body, source);
    assert !Contains([], CloseTag(t));
    ScanSection(source, t, attrs + ">" + body, [], []);
    assert [] + [(t, attrs + ">" + body)] == [(t, attrs + ">" + body)];
  }

  lemma AttributeShape(t: string, attrs: string, body: string, source: string)
    requires IsIdent(t) && source == "<" + t + " " + attrs + ">" + body + CloseTag(t)
    ensures |t| + 2 <= |source|
    ensures source[..|t| + 1] == "<" + t && !IsWordChar(source[|t| + 1])
    ensures exists j :: 1 <= j < |source| - 1 && source[j] == '>'
    ensures source[|t| + 2..] == (attrs + ">" + body) + CloseTag(t) + []
  {
    var j := |t| + 2 + |attrs|;
    assert source[j] == '>' && j < |source| - 1;
    assert source[|t| + 1] == ' ';
  }

  /** An opening tag whose text holds no `</t>` after its first character raises. */
  lemma ScanNoCloseTag(t: string, body: string, tags: Table)
    requires IsIdent(t) && |body| >= 1
    requires forall i :: 1 <= i ==> !OccursAt(body, CloseTag(t), i)
    ensures ScanFrom("<" + t + ">" + body, tags) == Err(MalformedTag)
  {
    var source := "<" + t + ">" + body;
    assert source[|t| + 1] == '>';
    assert source[..|t| + 1] == "<" + t;
    MatchOpenTagName(source, t);
    assert Drop(source, |t| + 2) == body;
  }

  /** A tag that is never closed raises. */
  lemma ScanUnclosedTag(t: string, body: string, tags: Table)
    requires IsIdent(t) && |body| >= 1 && !Contains(body, CloseTag(t))
    ensures ScanFrom("<" + t + ">" + body, tags) == Err(MalformedTag)
  {
    forall i | 1 <= i ensures !OccursAt(body, CloseTag(t), i) {
      assert i <= |body| ==> !OccursAt(body, CloseTag(t), i);
    }
    ScanNoCloseTag(t, body, tags);
  }

  /** An empty section `<t></t>` raises: the body before the closing tag needs one character. */
  lemma ScanEmptySection(t: string, post: string, tags: Table)
    requires IsIdent(t) && !Contains(post, CloseTag(t))
    ensures ScanFrom("<" + t + ">" + CloseTag(t) + post, tags) == Err(MalformedTag)
  {
    var c := CloseTag(t);
    var body := c + post;
    assert "<" + t + ">" + c + post == "<" + t + ">" + body;
    assert body[|c|..] == post;
    forall i | 1 <= i ensures !OccursAt(body, c, i) {
      if i < |c| {
        CloseTagNoSelfOverlap(t, body, i);
      } else {
        OccursInDrop(body, c, |c|, i - |c|);
      }
    }
    ScanNoCloseTag(t, body, tags);
  }

  /**
   * Only the first `<t>` and the last `</t>` delimit a section, so a name written twice
   * yields one section whose body holds the second one.
   */
  lemma ScanRepeatedTagMerges(t: string, a: string, b: string)
    requires IsIdent(t) && |a| >= 1
    ensures ScanFrom("<" + t + ">" + (a + CloseTag(t) + "<" + t + ">" + b) + CloseTag(t), [])
      == Ok([(t, a + CloseTag(t) + "<" + t + ">" + b)])
  {
    ScanSingleTag(t, a + CloseTag(t) + "<" + t + ">" + b);
  }

  /** `s` is what is left of `program` after dropping some prefix. */
  predicate IsSuffix(s: string, program: string) {
    |s| <= |program| && program[|program| - |s|..] == s
  }

  /** No recorded name has its `</name>` left in the source. */
  predicate Consumed(source: string, tags: Table) {
    forall i :: 0 <= i < |tags| ==> !Contains(source, CloseTag(tags[i].0))
  }

  /**
   * What a table produced from `program` satisfies: no name twice, every name a word,
   * and every body non-empty and followed in `program` by its `</name>`.
   */
  predicate Recorded(program: string, tags: Table) {
    && DistinctKeys(tags)
    && forall i :: 0 <= i < |tags| ==>
         && IsIdent(tags[i].0) && |tags[i].1| >= 1
         && Contains(program, tags[i].1 + CloseTag(tags[i].0))
  }

  lemma SuffixOccurs(s: string, program: string, x: string, i: int)
    requires IsSuffix(s, program) && OccursAt(s, x, i)
    ensures Contains(program, x)
  {
    var n := |program| - |s|;
    assert s == Drop(program, n);
    OccursInDrop(program, x, n, i);
  }

  /** After one section `name -> body`, no `</name>` is left in the rest of the source. */
  lemma SectionConsumed(source: string, name: string, body: string)
    requires |name| + 2 <= |source|
    requires MatchCloseTag(name, Drop(source, |name| + 2)) == Some(body)
    ensures !Contains(Advance(source, |name| + 2 + |body| + |CloseTag(name)|), CloseTag(name))
  {
    var c := CloseTag(name);
    var sub := Drop(source, |name| + 2);
    var rest := Advance(source, |name| + 2 + |body| + |c|);
    MatchCloseTagIsLast(name, sub);
    assert rest == Drop(sub, |body| + |c|);
    forall j | 0 <= j <= |rest| ensures !OccursAt(rest, c, j) {
      OccursInDrop(sub, c, |body| + |c|, j);
    }
  }

  /** A section's name, body and closing tag are found in the document it comes from. */
  lemma SectionRecorded(program: string, source: string, name: string, body: string)
    requires IsSuffix(source, program) && |name| + 2 <= |source|
    requires MatchCloseTag(name, Drop(source, |name| + 2)) == Some(body)
    ensures Contains(source, CloseTag(name))
    ensures Contains(program, body + CloseTag(name))
    ensures IsSuffix(Advance(source, |name| + 2 + |body| + |CloseTag(name)|), program)
  {
    var c := CloseTag(name);
    var sub := Drop(source, |name| + 2);
    var k :| 1 <= k && OccursAt(sub, c, k);
    OccursInDrop(source, c, |name| + 2, k);
    OccursInDrop(source, body + c, |name| + 2, 0);
    SuffixOccurs(source, program, body + c, |name| + 2);
    var n := |name| + 2 + |body| + |c|;
    var rest := Advance(source, n);
    assert program[|program| - |rest|..] == program[|program| - |source|..][n..];
  }

  /** The invariant of the scan loop, over the document, the source left and the table so far. */
  predicate ScanInvariant(program: string, source: string, tags: Table) {
    IsSuffix(source, program) && Consumed(source, tags) && Recorded(program, tags)
  }

  lemma SkipSound(program: string, source: string, tags: Table)
    requires source != [] && ScanInvariant(program, source, tags)
    ensures ScanInvariant(program, Advance(source, 1), tags)
  {
    var rest := Advance(source, 1);
    forall i | 0 <= i < |tags| ensures !Contains(rest, CloseTag(tags[i].0)) {
      ContainsInDrop(source, CloseTag(tags[i].0), 1);
    }
    assert program[|program| - |rest|..] == program[|program| - |source|..][1..];
  }

  lemma SectionSound(program: string, source: string, tags: Table, name: string, body: string)
    requires ScanInvariant(program, source, tags)
    requires MatchOpenTag(source) == Some(name)
    requires MatchCloseTag(name, Drop(source, |name| + 2)) == Some(body)
    ensures !HasKey(tags, name)
    ensures ScanInvariant(program, Advance(source, |name| + 2 + |body| + |CloseTag(name)|), tags + [(name, body)])
  {
    SectionRecorded(program, source, name, body);
    assert !HasKey(tags, name) by {
      forall i | 0 <= i < |tags| ensures tags[i].0 != name {
        assert !Contains(source, CloseTag(tags[i].0));
      }
    }
    ConsumedAfterSection(source, tags, name, body);
    RecordedAppend(program, tags, name, body);
  }

  /** After a section, neither its own `</name>` nor an earlier one is left in the source. */
  lemma ConsumedAfterSection(source: string, tags: Table, name: string, body: string)
    requires Consumed(source, tags) && |name| + 2 <= |source|
    requires MatchCloseTag(name, Drop(source, |name| + 2)) == Some(body)
    ensures Consumed(Advance(source, |name| + 2 + |body| + |CloseTag(name)|), tags + [(name, body)])
  {
    var n := |name| + 2 + |body| + |CloseTag(name)|;
    var rest := Advance(source, n);
    SectionConsumed(source, name, body);
    forall i | 0 <= i < |tags| ensures !Contains(rest, CloseTag(tags[i].0)) {
      ContainsInDrop(source, CloseTag(tags[i].0), n);
    }
  }

  /** A new name with a non-empty body found in the document keeps the table recorded. */
  lemma RecordedAppend(program: string, tags: Table, name: string, body: string)
    requires Recorded(program, tags) && !HasKey(tags, name)
    requires IsIdent(name) && |body| >= 1 && Contains(program, body + CloseTag(name))
    ensures Recorded(program, tags + [(name, body)])
  {
    var t := tags + [(name, body)];
    assert t[|tags|] == (name, body);
    assert forall i :: 0 <= i < |tags| ==> t[i] == tags[i];
  }

  /** One pass over a section records it and drops it from the source. */
  lemma ScanStepRecords(source: string, tags: Table, name: string, body: string)
    requires source != []
    requires MatchOpenTag(source) == Some(name)
    requires MatchCloseTag(name, Drop(source, |name| + 2)) == Some(body)
    requires !HasKey(tags, name)
    ensures ScanStep(source, tags)
      == Ok((Advance(source, |name| + 2 + |body| + |CloseTag(name)|), tags + [(name, body)]))
  {
  }

  lemma ScanStepSound(program: string, source: string, tags: Table)
    requires source != [] && ScanInvariant(program, source, tags)
    ensures ScanStep(source, tags) != Err(DuplicateTag)
    ensures ScanStep(source, tags).Ok? ==>
      && ScanInvariant(program, ScanStep(source, tags).value.0, ScanStep(source, tags).value.1)
      && |tags| <= |ScanStep(source, tags).value.1|
      && ScanStep(source, tags).value.1[..|tags|] == tags
  {
    var m := MatchOpenTag(source);
    if m.None? {
      SkipSound(program, source, tags);
    } else {
      var name := m.value;
      var mc := MatchCloseTag(name, Drop(source, |name| + 2));
      if mc.Some? {
        var body := mc.value;
        SectionSound(program, source, tags, name, body);
        ScanStepRecords(source, tags, name, body);
        assert (tags + [(name, body)])[..|tags|] == tags;
      }
    }
  }

  lemma {:induction false} ScanFromSound(program: string, source: string, tags: Table)
    requires ScanInvariant(program, source, tags)
    ensures ScanFrom(source, tags) != Err(DuplicateTag)
    ensures ScanFrom(source, tags).Ok? ==>
      var t := ScanFrom(source, tags).value;
      Recorded(program, t) && |tags| <= |t| && t[..|tags|] == tags
    decreases |source|
  {
    if source != [] {
      ScanStepSound(program, source, tags);
      if ScanStep(source, tags).Ok? {
        var (rest, tags') := ScanStep(source, tags).value;
        ScanFromSound(program, rest, tags');
        if ScanFrom(rest, tags').Ok? {
          var t := ScanFrom(rest, tags').value;
          assert t[..|tags|] == t[..|tags'|][..|tags|];
        }
      }
    }
  }

  /**
   * `scan` never reports a duplicate tag: the body of a section runs to the last `</name>`,
   * so no second `</name>` is left for a repeated name. Every name it returns is a word,
   * appears once, and its non-empty body is followed by `</name>` in the document.
   */
  lemma ScanResultSound(program: string)
    ensures ScanFrom(program, []) != Err(DuplicateTag)
    ensures ScanFrom(program, []).Ok? ==> Recorded(program, ScanFrom(program, []).value)
  {
    assert program[|program| - |program|..] == program;
    ScanFromSound(program, program, []);
  }
}
