/**
 * The compiler: splices the parsed and expanded tags into an html template.
 * Globals are looked for under their own names, custom tags under their couched
 * names `$name$`; every key's occurrences are located once, then spliced over one
 * after another at those precomputed offsets.
 */
module Compiler {
  import opened Results
  import opened Text
  import opened Tables
  import Parser

  /**
   * The loop of `collect_substring_locations` from the occurrence `found` on:
   * `found` itself while it is positive, then what the search from `found + 1` yields.
   */
  function LocationsFrom(html: string, sub: string, found: int): (r: seq<nat>)
    requires found == -1 || OccursAt(html, sub, found)
    ensures forall i :: 0 <= i < |r| ==> found <= r[i] && OccursAt(html, sub, r[i])
    ensures forall i, j :: 0 <= i < j < |r| ==> r[i] < r[j]
    ensures found <= 0 ==> r == []
    decreases if found <= 0 then 0 else |html| + 1 - found
  {
    if found <= 0 then []
    else
      var rest := LocationsFrom(html, sub, Find(html, sub, found + 1));
      [found] + rest
  }

  /** What `collect_substring_locations(html, substring)` returns. */
  function Locations(html: string, sub: string): (r: seq<nat>)
    ensures forall i :: 0 <= i < |r| ==> 1 <= r[i] && OccursAt(html, sub, r[i])
    ensures forall i, j :: 0 <= i < j < |r| ==> r[i] < r[j]
  {
    LocationsFrom(html, sub, Find(html, sub, 0))
  }

  /** The search from `start >= 1` on collects every occurrence at or after `start`, and nothing else. */
  lemma {:induction false} LocationsFromExact(html: string, sub: string, start: nat)
    requires start >= 1
    ensures forall j :: j in LocationsFrom(html, sub, Find(html, sub, start)) <==> start <= j && OccursAt(html, sub, j)
    decreases |html| + 1 - start
  {
    var found := Find(html, sub, start);
    if found != -1 {
      var rest := LocationsFrom(html, sub, Find(html, sub, found + 1));
      LocationsFromExact(html, sub, found + 1);
      assert LocationsFrom(html, sub, found) == [found] + rest;
      forall j ensures j in [found] + rest <==> start <= j && OccursAt(html, sub, j) {
        assert j in [found] + rest <==> j == found || j in rest;
      }
    }
  }

  /**
   * The locations are exactly the occurrences of `sub`, except that an occurrence at
   * index 0 (which includes every empty `sub`) makes the loop stop before it starts.
   */
  lemma LocationsExact(html: string, sub: string)
    ensures OccursAt(html, sub, 0) ==> Locations(html, sub) == []
    ensures !OccursAt(html, sub, 0) ==> forall j :: j in Locations(html, sub) <==> OccursAt(html, sub, j)
    ensures !Contains(html, sub) ==> Locations(html, sub) == []
  {
    if !OccursAt(html, sub, 0) {
      assert Find(html, sub, 0) == Find(html, sub, 1);
      LocationsFromExact(html, sub, 1);
    }
  }

  /** `collect_substring_locations`: repeated `find`s from just past the last hit, while the hit is positive. */
  method CollectSubstringLocations(html: string, substring: string) returns (locations: seq<nat>)
    ensures locations == Locations(html, substring)
  {
    locations := [];
    var lastFound := Find(html, substring, 0);
    while lastFound > 0
      invariant lastFound == -1 || OccursAt(html, substring, lastFound)
      invariant locations + LocationsFrom(html, substring, lastFound) == Locations(html, substring)
      decreases if lastFound <= 0 then 0 else |html| + 1 - lastFound
    {
      ghost var rest := LocationsFrom(html, substring, Find(html, substring, lastFound + 1));
      assert LocationsFrom(html, substring, lastFound) == [lastFound] + rest;
      assert (locations + [lastFound]) + rest == locations + ([lastFound] + rest);
      locations := locations + [lastFound];
      lastFound := Find(html, substring, lastFound + 1);
    }
  }

  /**
   * The inner loop of `compile_variables`: `value` spliced over `|name|` characters at
   * each offset in turn; the offsets are not adjusted after a splice changes the length.
   */
  function SpliceEach(name: string, value: string, html: string, locations: seq<nat>): string
    decreases |locations|
  {
    if locations == [] then html
    else SpliceEach(name, value, ReplaceAt(name, value, html, locations[0]), locations[1..])
  }

  /** What `compile_variables(html, variables)` returns: each key located and spliced, in dict order. */
  function Compiled(html: string, variables: Table): string
    decreases |variables|
  {
    if variables == [] then html
    else
      var (name, value) := variables[0];
      Compiled(SpliceEach(name, value, html, Locations(html, name)), variables[1..])
  }

  /** `compile_variables`: for each item, the locations of its key, then one splice per location. */
  method CompileVariables(html: string, variables: Table) returns (r: string)
    ensures r == Compiled(html, variables)
  {
    r := html;
    for i := 0 to |variables|
      invariant Compiled(r, variables[i..]) == Compiled(html, variables)
    {
      var (varname, value) := variables[i];
      var locations := CollectSubstringLocations(r, varname);
      ghost var before := r;
      for k := 0 to |locations|
        invariant SpliceEach(varname, value, r, locations[k..]) == SpliceEach(varname, value, before, locations)
      {
        r := ReplaceAt(varname, value, r, locations[k]);
      }
      assert variables[i..][1..] == variables[i + 1..];
    }
  }

  /** A table processes as its first part followed by its second: keys are handled strictly in dict order. */
  lemma {:induction false} CompiledAppend(html: string, first: Table, second: Table)
    ensures Compiled(html, first + second) == Compiled(Compiled(html, first), second)
    decreases |first|
  {
    if first == [] {
      assert first + second == second;
    } else {
      var (name, value) := first[0];
      assert (first + second)[0] == first[0] && (first + second)[1..] == first[1..] + second;
      CompiledAppend(SpliceEach(name, value, html, Locations(html, name)), first[1..], second);
    }
  }

  /** Keys that do not occur in the html leave it unchanged. */
  lemma {:induction false} CompiledAbsent(html: string, variables: Table)
    requires forall i :: 0 <= i < |variables| ==> !Contains(html, variables[i].0)
    ensures Compiled(html, variables) == html
    decreases |variables|
  {
    if variables != [] {
      LocationsExact(html, variables[0].0);
      CompiledAbsent(html, variables[1..]);
    }
  }

  /** An occurrence of the key at index 0 hides every occurrence of that key: the html is unchanged. */
  lemma LeadingOccurrenceKept(html: string, name: string, value: string)
    requires OccursAt(html, name, 0)
    ensures Compiled(html, [(name, value)]) == html
  {
    LocationsExact(html, name);
  }

  /** A key that occurs exactly once, past index 0, is located there and nowhere else. */
  lemma OnlyLocation(html: string, name: string, at: nat)
    requires 1 <= at && OccursAt(html, name, at)
    requires forall j :: OccursAt(html, name, j) ==> j == at
    ensures Locations(html, name) == [at]
  {
    LocationsExact(html, name);
    var locs := Locations(html, name);
    assert at in locs;
    forall i | 0 <= i < |locs| ensures locs[i] == at {
      assert OccursAt(html, name, locs[i]);
    }
    if |locs| > 1 {
      assert false;
    }
  }

  /** A key that occurs exactly once, past index 0, has its value spliced over that one occurrence. */
  lemma SingleOccurrence(html: string, name: string, value: string, at: nat)
    requires 1 <= at && OccursAt(html, name, at)
    requires forall j :: OccursAt(html, name, j) ==> j == at
    ensures Compiled(html, [(name, value)]) == html[..at] + value + html[at + |name|..]
  {
    OnlyLocation(html, name, at);
    assert SpliceEach(name, value, html, [at]) == ReplaceAt(name, value, html, at);
  }

  /** Where `$a$` occurs in `x$a$$a$`: after the leading `x`, and right after that occurrence. */
  lemma TwoAdjacentLocations()
    ensures Locations("x$a$$a$", "$a$") == [1, 4]
  {
    var html, key := "x$a$$a$", "$a$";
    assert !OccursAt(html, key, 0) by { assert html[0] != '$'; }
    assert OccursAt(html, key, 1) by { assert html[1..4] == key; }
    assert !OccursAt(html, key, 2) by { assert html[2] != '$'; }
    assert !OccursAt(html, key, 3) by { assert html[4] != 'a'; }
    assert OccursAt(html, key, 4) by { assert html[4..7] == key; }
    assert Find(html, key, 5) == -1;
    assert LocationsFrom(html, key, 4) == [4];
    assert LocationsFrom(html, key, 1) == [1] + [4];
  }

  /** The two splices at `[1, 4]`: the second lands inside the value the first one inserted. */
  lemma SplicesAtStaleOffset()
    ensures SpliceEach("$a$", "LONGER", "x$a$$a$", [1, 4]) == "xLON" + "LONGER" + "$a$"
  {
    var html, key, value := "x$a$$a$", "$a$", "LONGER";
    var once := ReplaceAt(key, value, html, 1);
    assert once == "x" + value + key by {
      assert Take(html, 1) == "x" && Drop(html, 4) == key;
    }
    var twice := ReplaceAt(key, value, once, 4);
    assert twice == "xLON" + value + key by {
      assert once == ("x" + value) + key;
      assert Take(once, 4) == ("x" + value)[..4];
      assert ("x" + value)[..4] == "xLON";
      assert Drop(once, 7) == key;
    }
    assert SpliceEach(key, value, once, [4]) == twice;
  }

  /**
   * Offsets are precomputed, so once a value longer than its key is spliced in,
   * the next offset no longer points at the key: `x$a$$a$` with `$a$ = LONGER`
   * becomes `xLONLONGER$a$`, not `xLONGERLONGER`.
   */
  lemma StaleOffsets()
    ensures Compiled("x$a$$a$", [("$a$", "LONGER")]) == "xLON" + "LONGER" + "$a$"
  {
    TwoAdjacentLocations();
    SplicesAtStaleOffset();
  }

  /**
   * The locations as the loop evidently meant them, with `while last_found >= 0`: from the
   * occurrence `found` on, stopping only when `find` gives -1.
   */
  function AllLocationsFrom(html: string, sub: string, found: int): (r: seq<nat>)
    requires found == -1 || OccursAt(html, sub, found)
    ensures forall i :: 0 <= i < |r| ==> found <= r[i] && OccursAt(html, sub, r[i])
    ensures forall i, j :: 0 <= i < j < |r| ==> r[i] < r[j]
    decreases if found < 0 then 0 else |html| + 1 - found
  {
    if found < 0 then []
    else [found] + AllLocationsFrom(html, sub, Find(html, sub, found + 1))
  }

  function AllLocations(html: string, sub: string): (r: seq<nat>)
    ensures forall i, j :: 0 <= i < j < |r| ==> r[i] < r[j]
  {
    AllLocationsFrom(html, sub, Find(html, sub, 0))
  }

  /** The search from `start` on collects every occurrence at or after `start`, and nothing else. */
  lemma {:induction false} AllLocationsFromExact(html: string, sub: string, start: nat)
    ensures forall j :: j in AllLocationsFrom(html, sub, Find(html, sub, start)) <==> start <= j && OccursAt(html, sub, j)
    decreases |html| + 1 - start
  {
    var found := Find(html, sub, start);
    if found != -1 {
      var rest := AllLocationsFrom(html, sub, Find(html, sub, found + 1));
      AllLocationsFromExact(html, sub, found + 1);
      assert AllLocationsFrom(html, sub, found) == [found] + rest;
      forall j ensures j in [found] + rest <==> start <= j && OccursAt(html, sub, j) {
        assert j in [found] + rest <==> j == found || j in rest;
      }
    }
  }

  /** With the loop condition corrected, the locations are exactly the occurrences, index 0 included. */
  lemma AllLocationsExact(html: string, sub: string)
    ensures forall j :: j in AllLocations(html, sub) <==> OccursAt(html, sub, j)
  {
    AllLocationsFromExact(html, sub, 0);
  }

  /** A key at the very start: the loop as written finds nothing, the corrected loop finds index 0. */
  lemma LocationsMissStart(sub: string, rest: string)
    ensures Locations(sub + rest, sub) == []
    ensures 0 in AllLocations(sub + rest, sub)
  {
    var html := sub + rest;
    assert html[..|sub|] == sub;
    assert OccursAt(html, sub, 0);
    LocationsExact(html, sub);
    AllLocationsExact(html, sub);
  }

  /**
   * What splicing at every location evidently means: Python's `html.replace(name, value)`,
   * the text cut at each leftmost occurrence of `name` and put back together around `value`.
   */
  function ReplaceAll(html: string, name: string, value: string): string
    requires |name| > 0
  {
    Join(Split(html, name), value)
  }

  /** The leftmost occurrence is replaced and the search goes on after it. */
  lemma ReplaceAllFirst(html: string, name: string, value: string, i: nat)
    requires |name| > 0 && OccursAt(html, name, i)
    requires forall j :: 0 <= j < i ==> !OccursAt(html, name, j)
    ensures ReplaceAll(html, name, value) == html[..i] + value + ReplaceAll(html[i + |name|..], name, value)
  {
    SplitAtFirst(html, name, i);
    JoinCons(html[..i], Split(html[i + |name|..], name), value);
  }

  /** Text without the key is left as it is. */
  lemma ReplaceAllAbsent(html: string, name: string, value: string)
    requires |name| > 0 && !Contains(html, name)
    ensures ReplaceAll(html, name, value) == html
  {
    SplitWithout(html, name);
  }

  /** Replacing the key by itself changes nothing. */
  lemma ReplaceAllSelf(html: string, name: string)
    requires |name| > 0
    ensures ReplaceAll(html, name, name) == html
  {
    SplitJoin(html, name);
  }

  /** On the text where the precomputed offsets go stale, the replacement hits both keys. */
  lemma StaleOffsetsFixed()
    ensures ReplaceAll("x$a$$a$", "$a$", "LONGER") == "x" + "LONGER" + "LONGER"
  {
    var html, key, value := "x$a$$a$", "$a$", "LONGER";
    assert OccursAt(html, key, 1) by { assert html[1..4] == key; }
    assert !OccursAt(html, key, 0) by { assert html[0] != '$'; }
    ReplaceAllFirst(html, key, value, 1);
    var tail := html[4..];
    assert tail == key;
    assert OccursAt(tail, key, 0) by { assert tail[0..3] == key; }
    ReplaceAllFirst(tail, key, value, 0);
    assert tail[3..] == [];
    assert !Contains([], key);
    ReplaceAllAbsent([], key, value);
    assert html[..1] == "x" && tail[..0] == [];
  }

  /** `{getvarname(k): v for k, v in custom_tags.items()}`. */
  function CouchKeys(tags: Table): (r: Table)
    ensures |r| == |tags|
    ensures forall i :: 0 <= i < |tags| ==> r[i].0 == Couch(tags[i].0) && r[i].1 == tags[i].1
  {
    if tags == [] then [] else [(Couch(tags[0].0), tags[0].1)] + CouchKeys(tags[1..])
  }

  /** Couching keeps keys apart, so the comprehension loses no item, and each original name can be read back. */
  lemma CouchKeysDistinct(tags: Table)
    ensures forall i :: 0 <= i < |tags| ==> Uncouch(CouchKeys(tags)[i].0) == tags[i].0
    ensures DistinctKeys(tags) ==> DistinctKeys(CouchKeys(tags))
  {
    var r := CouchKeys(tags);
    forall i | 0 <= i < |tags| ensures Uncouch(r[i].0) == tags[i].0 {
      UncouchCouch(tags[i].0);
    }
  }

  /** A custom tag whose couched name occurs once in the html, past index 0, replaces that `$name$`. */
  lemma ContentSpliced(html: string, name: string, value: string, at: nat)
    requires 1 <= at && OccursAt(html, Couch(name), at)
    requires forall j :: OccursAt(html, Couch(name), j) ==> j == at
    ensures Compiled(html, CouchKeys([(name, value)])) == html[..at] + value + html[at + |name| + 2..]
  {
    assert CouchKeys([(name, value)]) == [(Couch(name), value)];
    SingleOccurrence(html, Couch(name), value, at);
  }

  /** `compile_globals`: global names are looked for verbatim. */
  method CompileGlobals(html: string, globals: Table) returns (r: string)
    ensures r == Compiled(html, globals)
  {
    r := CompileVariables(html, globals);
  }

  /** `compile_content`: custom tags are looked for under their couched names. */
  method CompileContent(html: string, customTags: Table) returns (r: string)
    ensures r == Compiled(html, CouchKeys(customTags))
  {
    var tags := CouchKeys(customTags);
    r := CompileVariables(html, tags);
  }

  /** `compile(tags, html)`: the globals first, then the custom tags, as one pass over both tables in that order. */
  method Compile(tags: Parser.Context, html: string) returns (r: string)
    ensures r == Compiled(html, tags.globals + CouchKeys(tags.customTags))
  {
    r := CompileGlobals(html, tags.globals);
    r := CompileContent(r, tags.customTags);
    CompiledAppend(html, tags.globals, CouchKeys(tags.customTags));
  }
}
