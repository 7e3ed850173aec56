/**
 * The string operations the pipeline is built from, with Python's semantics:
 * `str.find`, slicing that clips at the end, `strip`, `split`, `re.sub('\s+', ' ', _)`,
 * `str.format` with one positional argument, and the `$name$` couching of names.
 * Regular-expression character classes are restricted to ASCII.
 */
module Text {
  import opened Results

  /** `\w` on ASCII: letters, digits and underscore. */
  predicate IsWordChar(c: char) {
    ('a' <= c <= 'z') || ('A' <= c <= 'Z') || ('0' <= c <= '9') || c == '_'
  }

  /** `\s` (equivalently `str.isspace`) on ASCII: space, \t \n \v \f \r and the separators 0x1c-0x1f. */
  predicate IsSpace(c: char) {
    c == ' ' || ('\t' <= c <= '\r') || (28 <= c as int <= 31)
  }

  /** One or more word characters: what `\w+` matches. */
  predicate IsIdent(w: string) {
    |w| >= 1 && forall i :: 0 <= i < |w| ==> IsWordChar(w[i])
  }

  /** The longest prefix of `s` made of word characters (greedy `\w*`). */
  function WordPrefix(s: string): (w: string)
    ensures |w| <= |s| && w == s[..|w|]
    ensures forall i :: 0 <= i < |w| ==> IsWordChar(w[i])
    ensures |w| < |s| ==> !IsWordChar(s[|w|])
  {
    if s == [] || !IsWordChar(s[0]) then [] else [s[0]] + WordPrefix(s[1..])
  }

  /** The word run of `w + s` is `w` when `s` does not start with a word character. */
  lemma {:induction false} WordPrefixOf(w: string, s: string)
    requires forall i :: 0 <= i < |w| ==> IsWordChar(w[i])
    requires s != [] ==> !IsWordChar(s[0])
    ensures WordPrefix(w + s) == w
  {
    if w != [] {
      assert (w + s)[1..] == w[1..] + s;
      WordPrefixOf(w[1..], s);
    } else {
      assert w + s == s;
    }
  }

  /** Where the run of word characters that starts at index `i` of `s` stops (greedy `\w*` from `i`). */
  function WordEnd(s: string, i: nat): (j: nat)
    requires i <= |s|
    ensures i <= j <= |s|
    decreases |s| - i
  {
    if i < |s| && IsWordChar(s[i]) then WordEnd(s, i + 1) else i
  }

  /** The run holds word characters only, and the character after it is not one. */
  lemma {:induction false} WordEndRun(s: string, i: nat)
    requires i <= |s|
    ensures forall k :: i <= k < WordEnd(s, i) ==> IsWordChar(s[k])
    ensures WordEnd(s, i) < |s| ==> !IsWordChar(s[WordEnd(s, i)])
    decreases |s| - i
  {
    if i < |s| && IsWordChar(s[i]) {
      WordEndRun(s, i + 1);
    }
  }

  /** Word characters from `i` up to a non-word character (or the end) at `j`: the run stops at `j`. */
  lemma {:induction false} WordEndAt(s: string, i: nat, j: nat)
    requires i <= j <= |s|
    requires forall k :: i <= k < j ==> IsWordChar(s[k])
    requires j < |s| ==> !IsWordChar(s[j])
    ensures WordEnd(s, i) == j
    decreases j - i
  {
    if i < j {
      WordEndAt(s, i + 1, j);
    }
  }

  /** `sub` occurs in `s` starting at index `i`. */
  predicate OccursAt(s: string, sub: string, i: int) {
    0 <= i && i + |sub| <= |s| && s[i..i + |sub|] == sub
  }

  predicate Contains(s: string, sub: string) {
    exists i :: 0 <= i <= |s| && OccursAt(s, sub, i)
  }

  /** An occurrence in a suffix is an occurrence in the whole string, shifted by the length dropped, and back. */
  lemma OccursInDrop(s: string, sub: string, n: nat, j: int)
    requires n <= |s|
    ensures OccursAt(s[n..], sub, j) ==> OccursAt(s, sub, n + j)
    ensures 0 <= j && OccursAt(s, sub, n + j) ==> OccursAt(s[n..], sub, j)
  {
    if 0 <= j && j + |sub| <= |s| - n {
      assert s[n + j..n + j + |sub|] == s[n..][j..j + |sub|];
    }
  }

  /** `s.find(sub) >= 0` is `sub in s`. */
  lemma FindContains(s: string, sub: string)
    ensures Find(s, sub, 0) >= 0 <==> Contains(s, sub)
  {
    var r := Find(s, sub, 0);
    assert r >= 0 ==> OccursAt(s, sub, r) && r <= |s|;
  }

  /** What a slice of `s` contains, `s` contains. */
  lemma ContainsInSlice(s: string, sub: string, lo: nat, hi: nat)
    requires lo <= hi <= |s|
    ensures Contains(s[lo..hi], sub) ==> Contains(s, sub)
  {
    var t := s[lo..hi];
    forall j | 0 <= j <= |t| && OccursAt(t, sub, j) ensures Contains(s, sub) {
      assert forall m :: 0 <= m < |sub| ==> sub[m] == t[j + m] == s[lo + j + m];
      assert s[lo + j..lo + j + |sub|] == sub;
      assert OccursAt(s, sub, lo + j);
    }
  }

  /** Python's `s.find(sub, start)`: the least index at or after `start` where `sub` occurs, or -1. */
  function Find(s: string, sub: string, start: nat): (r: int)
    ensures r == -1 || (start <= r && OccursAt(s, sub, r))
    ensures forall j :: start <= j && (r == -1 || j < r) ==> !OccursAt(s, sub, j)
    decreases |s| - start
  {
    if start + |sub| > |s| then -1
    else if s[start..start + |sub|] == sub then start
    else Find(s, sub, start + 1)
  }

  /** The greatest index in `[lo, hi]` where `sub` occurs in `s`, or -1: what a greedy `(.+)` before `sub` settles on. */
  function LastBetween(s: string, sub: string, lo: nat, hi: int): (r: int)
    ensures r == -1 || (lo <= r <= hi && OccursAt(s, sub, r))
    ensures forall j :: lo <= j <= hi && r < j ==> !OccursAt(s, sub, j)
    decreases hi - lo
  {
    if hi < lo then -1
    else if OccursAt(s, sub, hi) then hi
    else LastBetween(s, sub, lo, hi - 1)
  }

  /** The closing form `</name>` of a tag. */
  function CloseTag(name: string): string {
    "</" + name + ">"
  }

  /**
   * The regular expression `(.+)</name>.?` (with DOTALL) matched at the start of `s`:
   * the non-empty text before the LAST occurrence of `</name>`, if there is one.
   */
  function BodyBeforeLastClose(name: string, s: string): (r: Option<string>)
    ensures r.Some? <==> exists i :: 1 <= i && OccursAt(s, "</" + name + ">", i)
    ensures r.Some? ==> 1 <= |r.value| && OccursAt(s, r.value + "</" + name + ">", 0)
  {
    var close := "</" + name + ">";
    var i := LastBetween(s, close, 1, |s| - |close|);
    if i < 1 then None
    else
      assert s[..i + |close|] == s[..i] + close by {
        assert s[..i + |close|] == s[..i] + s[i..i + |close|];
      }
      Some(s[..i])
  }

  /** The body ends at the last `</name>`: none starts after it. */
  lemma BodyBeforeLastCloseIsLast(name: string, s: string)
    ensures BodyBeforeLastClose(name, s).Some? ==>
      forall j :: |BodyBeforeLastClose(name, s).value| < j ==> !OccursAt(s, "</" + name + ">", j)
  {
  }

  /** Python's `s[:n]`. */
  function Take(s: string, n: nat): string {
    if n <= |s| then s[..n] else s
  }

  /** Python's `s[n:]`. */
  function Drop(s: string, n: nat): string {
    if n <= |s| then s[n..] else []
  }

  /**
   * `replace_variable(name, data, contents, offset)`: `data` spliced over `|name|` characters
   * at `offset`; slicing clips as Python's does when `offset` is past the end.
   */
  function ReplaceAt(name: string, data: string, contents: string, offset: nat): (r: string)
    ensures offset + |name| <= |contents| ==> |r| == |contents| - |name| + |data|
  {
    Take(contents, offset) + data + Drop(contents, offset + |name|)
  }

  /** Within the string the splice keeps what is before `offset`, then `data`, then what follows the cut. */
  lemma ReplaceAtParts(name: string, data: string, contents: string, offset: nat)
    requires offset + |name| <= |contents|
    ensures var r := ReplaceAt(name, data, contents, offset);
      && r == contents[..offset] + data + contents[offset + |name|..]
      && r[..offset] == contents[..offset]
      && r[offset..offset + |data|] == data
      && r[offset + |data|..] == contents[offset + |name|..]
  {
  }

  /** Replacing an occurrence and then replacing the inserted text back restores the string. */
  lemma ReplaceAtRoundTrip(name: string, data: string, contents: string, offset: nat)
    requires OccursAt(contents, name, offset)
    ensures ReplaceAt(data, name, ReplaceAt(name, data, contents, offset), offset) == contents
  {
    var r := ReplaceAt(name, data, contents, offset);
    ReplaceAtParts(name, data, contents, offset);
    ReplaceAtParts(data, name, r, offset);
    calc {
      ReplaceAt(data, name, r, offset);
      r[..offset] + name + r[offset + |data|..];
      contents[..offset] + contents[offset..offset + |name|] + contents[offset + |name|..];
      { assert contents == contents[..offset] + contents[offset..offset + |name|] + contents[offset + |name|..]; }
      contents;
    }
  }

  /** `s.lstrip()`: `s` without its leading whitespace. */
  function StripLeft(s: string): (r: string)
    ensures |r| <= |s|
    ensures forall i :: 0 <= i < |s| - |r| ==> IsSpace(s[i])
    ensures r != [] ==> !IsSpace(r[0])
    ensures s != [] && IsSpace(s[0]) ==> |r| < |s|
  {
    if s != [] && IsSpace(s[0]) then StripLeft(s[1..]) else s
  }

  /** What `lstrip` leaves is a suffix of its input. */
  lemma {:induction false} StripLeftSuffix(s: string)
    ensures StripLeft(s) == s[|s| - |StripLeft(s)|..]
    decreases |s|
  {
    if s != [] && IsSpace(s[0]) {
      var r := StripLeft(s[1..]);
      StripLeftSuffix(s[1..]);
      assert s[1..][|s| - 1 - |r|..] == s[|s| - |r|..];
    }
  }

  /** `s.rstrip()`: `s` without its trailing whitespace. */
  function StripRight(s: string): (r: string)
    ensures |r| <= |s| && forall i :: 0 <= i < |r| ==> r[i] == s[i]
    ensures forall i :: |r| <= i < |s| ==> IsSpace(s[i])
    ensures r != [] ==> !IsSpace(r[|r| - 1])
  {
    if s != [] && IsSpace(s[|s| - 1]) then StripRight(s[..|s| - 1]) else s
  }

  /** `s.lstrip().rstrip()`. */
  function Strip(s: string): string {
    StripRight(StripLeft(s))
  }

  /** The characters of `s` that are not whitespace, in order. */
  function NonSpace(s: string): string {
    if s == [] then [] else (if IsSpace(s[0]) then [] else [s[0]]) + NonSpace(s[1..])
  }

  lemma {:induction false} NonSpaceAppend(a: string, b: string)
    ensures NonSpace(a + b) == NonSpace(a) + NonSpace(b)
  {
    if a != [] {
      assert (a + b)[0] == a[0];
      assert (a + b)[1..] == a[1..] + b;
      NonSpaceAppend(a[1..], b);
      assert NonSpace(a + b) == (if IsSpace(a[0]) then [] else [a[0]]) + NonSpace(a[1..] + b);
    } else {
      assert a + b == b;
    }
  }

  lemma {:induction false} NonSpaceOfSpaces(s: string)
    requires forall i :: 0 <= i < |s| ==> IsSpace(s[i])
    ensures NonSpace(s) == []
  {
    if s != [] {
      NonSpaceOfSpaces(s[1..]);
    }
  }

  /** `lstrip` removes only whitespace. */
  lemma StripLeftKeepsText(s: string)
    ensures NonSpace(StripLeft(s)) == NonSpace(s)
  {
    var l := StripLeft(s);
    var p := s[..|s| - |l|];
    StripLeftSuffix(s);
    assert s == p + l;
    NonSpaceAppend(p, l);
    NonSpaceOfSpaces(p);
  }

  /** `rstrip` removes only whitespace. */
  lemma StripRightKeepsText(s: string)
    ensures NonSpace(StripRight(s)) == NonSpace(s)
  {
    var r := StripRight(s);
    var q := s[|r|..];
    assert s == r + q;
    NonSpaceAppend(r, q);
    NonSpaceOfSpaces(q);
  }

  /** Stripping removes only whitespace, and a stripped string has no whitespace at either end. */
  lemma StripKeepsText(s: string)
    ensures NonSpace(Strip(s)) == NonSpace(s)
    ensures Strip(s) != [] ==> !IsSpace(Strip(s)[0]) && !IsSpace(Strip(s)[|Strip(s)| - 1])
  {
    var l := StripLeft(s);
    StripLeftKeepsText(s);
    StripRightKeepsText(l);
    if StripRight(l) != [] {
      assert StripRight(l)[0] == l[0];
    }
  }

  /** Stripping twice is stripping once. */
  lemma StripIdempotent(s: string)
    ensures Strip(Strip(s)) == Strip(s)
  {
    var r := Strip(s);
    StripKeepsText(s);
    if r != [] {
      assert StripLeft(r) == r;
      assert StripRight(r) == r;
    }
  }

  /** Stripping only removes characters from the ends, so what the result contains the input contains. */
  lemma ContainsInStrip(s: string, sub: string)
    ensures Contains(Strip(s), sub) ==> Contains(s, sub)
  {
    ContainsInStripRight(StripLeft(s), sub);
    ContainsInStripLeft(s, sub);
  }

  lemma {:induction false} ContainsInStripLeft(s: string, sub: string)
    ensures Contains(StripLeft(s), sub) ==> Contains(s, sub)
    decreases |s|
  {
    if s != [] && IsSpace(s[0]) {
      ContainsInStripLeft(s[1..], sub);
      assert s[1..|s|] == s[1..];
      ContainsInSlice(s, sub, 1, |s|);
    }
  }

  lemma {:induction false} ContainsInStripRight(s: string, sub: string)
    ensures Contains(StripRight(s), sub) ==> Contains(s, sub)
    decreases |s|
  {
    if s != [] && IsSpace(s[|s| - 1]) {
      ContainsInStripRight(s[..|s| - 1], sub);
      ContainsInSlice(s, sub, 0, |s| - 1);
    }
  }

  /** No whitespace at all. */
  predicate SpaceFree(s: string) {
    forall i :: 0 <= i < |s| ==> !IsSpace(s[i])
  }

  lemma {:induction false} NonSpaceIsSpaceFree(s: string)
    ensures SpaceFree(NonSpace(s))
  {
    if s != [] {
      NonSpaceIsSpaceFree(s[1..]);
    }
  }

  lemma {:induction false} NonSpaceOfSpaceFree(s: string)
    requires SpaceFree(s)
    ensures NonSpace(s) == s
  {
    if s != [] {
      NonSpaceOfSpaceFree(s[1..]);
    }
  }

  /** A string found inside a whitespace-free string is whitespace-free. */
  lemma SpaceFreeContained(s: string, sub: string)
    requires SpaceFree(s) && Contains(s, sub)
    ensures SpaceFree(sub)
  {
    var j :| 0 <= j <= |s| && OccursAt(s, sub, j);
    forall i | 0 <= i < |sub| ensures !IsSpace(sub[i]) {
      assert sub[i] == s[j..j + |sub|][i] == s[j + i];
    }
  }

  /** `re.sub(r'\s+', ' ', s)`: every maximal run of whitespace becomes one space. */
  function CollapseWhitespace(s: string): (r: string)
    decreases |s|
  {
    if s == [] then []
    else if IsSpace(s[0]) then
      " " + CollapseWhitespace(StripLeft(s))
    else [s[0]] + CollapseWhitespace(s[1..])
  }

  /** Whitespace is only single spaces, never two in a row. */
  predicate Collapsed(s: string) {
    && (forall i :: 0 <= i < |s| && IsSpace(s[i]) ==> s[i] == ' ')
    && (forall i :: 0 <= i < |s| - 1 ==> !(IsSpace(s[i]) && IsSpace(s[i + 1])))
  }

  lemma {:induction false} CollapseFirst(s: string)
    ensures s == [] <==> CollapseWhitespace(s) == []
    ensures s != [] ==> (IsSpace(s[0]) <==> IsSpace(CollapseWhitespace(s)[0]))
  {
  }

  /**
   * The output of the whitespace normalisation is collapsed, keeps every non-whitespace
   * character in order, and normalising again changes nothing.
   */
  lemma {:induction false} CollapseWhitespaceSound(s: string)
    ensures Collapsed(CollapseWhitespace(s))
    ensures NonSpace(CollapseWhitespace(s)) == NonSpace(s)
    decreases |s|
  {
    if s == [] {
    } else if IsSpace(s[0]) {
      var rest := StripLeft(s);
      CollapseWhitespaceSound(rest);
      var c := CollapseWhitespace(rest);
      assert CollapseWhitespace(s) == " " + c;
      CollapseFirst(rest);
      NonSpaceAppend(" ", c);
      StripLeftKeepsText(s);
    } else {
      CollapseWhitespaceSound(s[1..]);
      var c := CollapseWhitespace(s[1..]);
      assert CollapseWhitespace(s) == [s[0]] + c;
      NonSpaceAppend([s[0]], c);
    }
  }

  /** A collapsed string is left as it is. */
  lemma {:induction false} CollapseWhitespaceFixes(s: string)
    requires Collapsed(s)
    ensures CollapseWhitespace(s) == s
    decreases |s|
  {
    if s != [] {
      assert Collapsed(s[1..]);
      CollapseWhitespaceFixes(s[1..]);
      if IsSpace(s[0]) {
        assert s[0] == ' ';
        assert StripLeft(s) == s[1..] by {
          assert StripLeft(s) == StripLeft(s[1..]);
          if |s| > 1 { assert !IsSpace(s[1]); }
        }
      }
    }
  }

  /** Normalising whitespace twice is normalising once. */
  lemma CollapseWhitespaceIdempotent(s: string)
    ensures CollapseWhitespace(CollapseWhitespace(s)) == CollapseWhitespace(s)
  {
    CollapseWhitespaceSound(s);
    CollapseWhitespaceFixes(CollapseWhitespace(s));
  }

  /** A character survives in `NonSpace(s)` exactly when it is in `s` and is not whitespace. */
  lemma {:induction false} NonSpaceMember(s: string, c: char)
    ensures c in NonSpace(s) <==> c in s && !IsSpace(c)
  {
    if s != [] {
      NonSpaceMember(s[1..], c);
      assert s == [s[0]] + s[1..];
    }
  }

  /** Normalising whitespace introduces no character other than a space. */
  lemma CollapseKeepsAbsent(s: string, c: char)
    requires !IsSpace(c) && c !in s
    ensures c !in CollapseWhitespace(s)
  {
    CollapseWhitespaceSound(s);
    NonSpaceMember(s, c);
    NonSpaceMember(CollapseWhitespace(s), c);
  }

  /** `s` with every character `c` for which `del(c)` holds removed. */
  function Delete(s: string, del: char -> bool): (r: string)
    ensures |r| <= |s|
    ensures forall i :: 0 <= i < |r| ==> !del(r[i])
    ensures (forall i :: 0 <= i < |s| ==> !del(s[i])) ==> r == s
  {
    if s == [] then [] else (if del(s[0]) then [] else [s[0]]) + Delete(s[1..], del)
  }

  /** Python's `s.split(sep)`: the pieces between the non-overlapping occurrences of `sep`, left to right. */
  function Split(s: string, sep: string): (parts: seq<string>)
    requires |sep| > 0
    ensures |parts| >= 1
    decreases |s|
  {
    var i := Find(s, sep, 0);
    if i < 0 then [s] else [s[..i]] + Split(s[i + |sep|..], sep)
  }

  /** `sep.join(parts)`. */
  function Join(parts: seq<string>, sep: string): string
    requires |parts| >= 1
  {
    if |parts| == 1 then parts[0] else parts[0] + sep + Join(parts[1..], sep)
  }

  lemma JoinCons(head: string, tail: seq<string>, sep: string)
    requires |tail| >= 1
    ensures Join([head] + tail, sep) == head + sep + Join(tail, sep)
  {
    assert ([head] + tail)[1..] == tail;
  }

  lemma SplitAround(s: string, sep: string, i: int)
    requires OccursAt(s, sep, i)
    ensures s == s[..i] + sep + s[i + |sep|..]
  {
    assert s == s[..i] + s[i..i + |sep|] + s[i + |sep|..];
  }

  /** Splitting loses nothing: joining the pieces with the separator gives back the string. */
  lemma {:induction false} SplitJoin(s: string, sep: string)
    requires |sep| > 0
    ensures Join(Split(s, sep), sep) == s
    decreases |s|
  {
    var i := Find(s, sep, 0);
    if i >= 0 {
      var rest := s[i + |sep|..];
      SplitJoin(rest, sep);
      JoinCons(s[..i], Split(rest, sep), sep);
      SplitAround(s, sep, i);
    }
  }

  /** No piece of a split contains the separator. */
  lemma {:induction false} SplitPiecesFree(s: string, sep: string)
    requires |sep| > 0
    ensures forall k :: 0 <= k < |Split(s, sep)| ==> !Contains(Split(s, sep)[k], sep)
    decreases |s|
  {
    var i := Find(s, sep, 0);
    if i < 0 {
      assert Split(s, sep) == [s];
    } else {
      var rest := s[i + |sep|..];
      SplitPiecesFree(rest, sep);
      var head := s[..i];
      forall j | OccursAt(head, sep, j) ensures false {
        assert head[j..j + |sep|] == s[j..j + |sep|];
        assert OccursAt(s, sep, j);
      }
      assert Split(s, sep) == [head] + Split(rest, sep);
    }
  }

  /** A line holding exactly one `:=` splits into the text before it and the text after it. */
  lemma SplitAssignment(k: string, v: string)
    requires !Contains(k, ":=") && !Contains(v, ":=")
    ensures Split(k + ":=" + v, ":=") == [k, v]
  {
    var s := k + ":=" + v;
    assert OccursAt(s, ":=", |k|);
    forall j | 0 <= j < |k| ensures !OccursAt(s, ":=", j) {
      if j + 2 <= |k| {
        assert s[j..j + 2] == k[j..j + 2];
        assert !OccursAt(k, ":=", j);
      } else {
        assert s[j + 1] == ':' && s[j..j + 2][1] == s[j + 1];
      }
    }
    var i := Find(s, ":=", 0);
    assert i == |k|;
    assert s[..i] == k;
    assert s[i + 2..] == v;
    assert Find(v, ":=", 0) < 0 by {
      var w := Find(v, ":=", 0);
      assert w >= 0 ==> OccursAt(v, ":=", w) && w <= |v|;
    }
    assert Split(v, ":=") == [v];
    assert Split(s, ":=") == [k] + [v];
  }

  /** Every piece of a split is found in the string that was split. */
  lemma {:induction false} SplitPiecesOccur(s: string, sep: string)
    requires |sep| > 0
    ensures forall k :: 0 <= k < |Split(s, sep)| ==> Contains(s, Split(s, sep)[k])
    decreases |s|
  {
    var i := Find(s, sep, 0);
    if i < 0 {
      assert Split(s, sep) == [s];
      assert OccursAt(s, s, 0);
    } else {
      var rest := s[i + |sep|..];
      assert rest == s[i + |sep|..|s|];
      var later := Split(rest, sep);
      SplitPiecesOccur(rest, sep);
      SplitFound(s, sep);
      var parts := [s[..i]] + later;
      assert OccursAt(s, s[..i], 0);
      forall k | 0 < k < |parts| ensures Contains(s, parts[k]) {
        assert parts[k] == later[k - 1];
        ContainsInSlice(s, later[k - 1], i + |sep|, |s|);
      }
    }
  }

  /** A string without the separator splits into itself alone. */
  lemma SplitWithout(s: string, sep: string)
    requires |sep| > 0 && !Contains(s, sep)
    ensures Split(s, sep) == [s]
  {
    FindContains(s, sep);
  }

  /** Two occurrences of the separator that do not overlap cut a string into three pieces or more. */
  lemma SplitTwoOccurrences(s: string, sep: string, i: nat, j: nat)
    requires |sep| > 0 && i + |sep| <= j
    requires OccursAt(s, sep, i) && OccursAt(s, sep, j)
    ensures |Split(s, sep)| >= 3
  {
    var k := Find(s, sep, 0);
    assert 0 <= k <= i;
    var n := k + |sep|;
    assert n <= |s| && n <= j;
    var rest := s[n..];
    var m: nat := j - n;
    assert n + m == j;
    OccursInDrop(s, sep, n, m);
    assert OccursAt(rest, sep, m);
    SplitOccurs(rest, sep, m);
    SplitFound(s, sep);
  }

  /** A string in which the separator is found splits into the text before it and the pieces of what follows. */
  lemma SplitFound(s: string, sep: string)
    requires |sep| > 0 && Find(s, sep, 0) >= 0
    ensures Split(s, sep) == [s[..Find(s, sep, 0)]] + Split(s[Find(s, sep, 0) + |sep|..], sep)
  {
  }

  /** One occurrence of the separator cuts a string into two pieces or more. */
  lemma SplitOccurs(s: string, sep: string, j: nat)
    requires |sep| > 0 && OccursAt(s, sep, j)
    ensures |Split(s, sep)| >= 2
  {
    assert Find(s, sep, 0) >= 0;
    SplitFound(s, sep);
  }

  /** Split cuts at the first occurrence of the separator. */
  lemma SplitAtFirst(s: string, sep: string, i: nat)
    requires |sep| > 0 && OccursAt(s, sep, i)
    requires forall j :: 0 <= j < i ==> !OccursAt(s, sep, j)
    ensures Split(s, sep) == [s[..i]] + Split(s[i + |sep|..], sep)
  {
    assert Find(s, sep, 0) == i;
  }

  /** Splitting on a one-character separator undoes joining pieces that do not contain it. */
  lemma {:induction false} JoinSplit(parts: seq<string>, sep: string)
    requires |sep| == 1 && |parts| >= 1
    requires forall k :: 0 <= k < |parts| ==> !Contains(parts[k], sep)
    ensures Split(Join(parts, sep), sep) == parts
    decreases |parts|
  {
    var p := parts[0];
    if |parts| == 1 {
      assert Find(p, sep, 0) < 0 by {
        var w := Find(p, sep, 0);
        assert w >= 0 ==> OccursAt(p, sep, w) && w <= |p|;
      }
    } else {
      var tail := parts[1..];
      var j := Join(tail, sep);
      var s := p + sep + j;
      assert parts == [p] + tail;
      JoinCons(p, tail, sep);
      assert s[|p|..|p| + 1] == sep;
      forall i | 0 <= i < |p| ensures !OccursAt(s, sep, i) {
        assert s[i..i + 1] == p[i..i + 1];
        assert !OccursAt(p, sep, i);
      }
      SplitAtFirst(s, sep, |p|);
      assert s[..|p|] == p;
      assert s[|p| + 1..] == j;
      JoinSplit(tail, sep);
    }
  }

  /** Dropping twice is dropping the sum. */
  lemma DropDrop(s: string, m: nat, n: nat)
    ensures Drop(Drop(s, m), n) == Drop(s, m + n)
  {
  }

  /** Regrouping a concatenation; a call keeps the solver from re-deriving it in a crowded context. */
  lemma ConcatAssoc<T>(a: seq<T>, b: seq<T>, c: seq<T>)
    ensures a + (b + c) == a + b + c
  {
  }

  /** `"$" + name + "$"`: a name as it is written in a document. */
  function Couch(name: string): string {
    "$" + name + "$"
  }

  /** Python's `v[1:-1]`: drops the first and the last character. */
  function Uncouch(v: string): string {
    if |v| >= 2 then v[1..|v| - 1] else []
  }

  /** Uncouching undoes couching, so couching is injective. */
  lemma UncouchCouch(name: string)
    ensures Uncouch(Couch(name)) == name
    ensures forall other :: Couch(other) == Couch(name) ==> other == name
  {
    forall other | Couch(other) == Couch(name) ensures other == name {
      assert Uncouch(Couch(other)) == other;
    }
  }

  /** No `{` and no `}`. */
  predicate BraceFree(s: string) {
    forall i :: 0 <= i < |s| ==> s[i] != '{' && s[i] != '}'
  }

  /**
   * `template.format(arg)` for templates whose fields are all the automatically numbered `{}`:
   * `{{` and `}}` are literal braces, the first `{}` becomes `arg`, and a second `{}` (an index
   * out of range), a lone brace or any other field is an error.
   */
  function Format(template: string, arg: string): Result<string> {
    FormatFrom(template, arg, false)
  }

  function FormatFrom(t: string, arg: string, used: bool): Result<string>
    decreases |t|
  {
    if t == [] then Ok([])
    else if |t| >= 2 && t[0] == '{' && t[1] == '{' then
      var rest :- FormatFrom(t[2..], arg, used);
      Ok("{" + rest)
    else if |t| >= 2 && t[0] == '}' && t[1] == '}' then
      var rest :- FormatFrom(t[2..], arg, used);
      Ok("}" + rest)
    else if |t| >= 2 && t[0] == '{' && t[1] == '}' then
      if used then Err(FormatError)
      else
        var rest :- FormatFrom(t[2..], arg, true);
        Ok(arg + rest)
    else if t[0] == '{' || t[0] == '}' then Err(FormatError)
    else
      var rest :- FormatFrom(t[1..], arg, used);
      Ok([t[0]] + rest)
  }

  /** A character that is not a brace is copied through. */
  lemma FormatFromPlain(t: string, arg: string, used: bool)
    requires t != [] && t[0] != '{' && t[0] != '}'
    ensures FormatFrom(t, arg, used) ==
      (match FormatFrom(t[1..], arg, used)
       case Ok(rest) => Ok([t[0]] + rest)
       case Err(e) => Err(e))
  {
  }

  lemma {:induction false} FormatBraceFree(t: string, arg: string, used: bool)
    requires BraceFree(t)
    ensures FormatFrom(t, arg, used) == Ok(t)
  {
    if t != [] {
      FormatFromPlain(t, arg, used);
      FormatBraceFree(t[1..], arg, used);
      assert [t[0]] + t[1..] == t;
    }
  }

  /** A template without braces formats to itself. */
  lemma FormatWithoutPlaceholder(t: string, arg: string)
    requires BraceFree(t)
    ensures Format(t, arg) == Ok(t)
  {
    FormatBraceFree(t, arg, false);
  }

  /** A template `a{}b` without other braces formats to `a` + arg + `b`. */
  lemma FormatSinglePlaceholder(a: string, b: string, arg: string)
    requires BraceFree(a) && BraceFree(b)
    ensures Format(a + "{}" + b, arg) == Ok(a + arg + b)
  {
    FormatFromSingle(a, b, arg);
  }

  lemma FormatFromPlaceholder(b: string, arg: string)
    requires BraceFree(b)
    ensures FormatFrom("{}" + b, arg, false) == Ok(arg + b)
  {
    var t := "{}" + b;
    assert t[0] == '{' && t[1] == '}' && t[2..] == b;
    FormatBraceFree(b, arg, true);
  }

  lemma {:induction false} FormatFromSingle(a: string, b: string, arg: string)
    requires BraceFree(a) && BraceFree(b)
    ensures FormatFrom(a + "{}" + b, arg, false) == Ok(a + arg + b)
    decreases |a|
  {
    if a == [] {
      assert a + "{}" + b == "{}" + b;
      assert a + arg + b == arg + b;
      FormatFromPlaceholder(b, arg);
    } else {
      var t := a + "{}" + b;
      assert t[0] == a[0];
      FormatFromPlain(t, arg, false);
      assert t[1..] == a[1..] + "{}" + b;
      FormatFromSingle(a[1..], b, arg);
      assert [a[0]] + (a[1..] + arg + b) == a + arg + b;
    }
  }

  /** Two `{}` fields with one argument are an error (Python: replacement index out of range). */
  lemma FormatTwoPlaceholders(arg: string)
    ensures Format("{}{}", arg) == Err(FormatError)
  {
    assert "{}{}"[2..] == "{}";
    assert "{}"[..2] == "{}";
  }
}
