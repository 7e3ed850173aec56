/**
 * The parser: turns the lexer's tag table into the context the expander reads. The bodies
 * of `<macros>`, `<globals>` and `<variables>` are lists of `name := value` lines, validated
 * into dicts; every other tag is kept verbatim as a custom tag.
 *
 * Two versions of the parser exist and differ only in how an assignment line is cleaned
 * (see `Dialect`); everything else is shared.
 */
module Parser {
  import opened Results
  import opened Text
  import opened Tables

  /**
   * `Trimmed` is blagh/parser/__init__.py: tabs and newlines are removed from a line and
   * each side of `:=` is stripped. `Erased` is blagh/parser/parser.py: every whitespace
   * character is removed from the line and the sides are taken as they are.
   */
  datatype Dialect = Trimmed | Erased

  predicate IsTabOrNewline(c: char) {
    c == '\t' || c == '\n'
  }

  /** A line after its whitespace has been removed, as the dialect does it. */
  function Clean(line: string, d: Dialect): string {
    match d
    case Trimmed => Delete(line, IsTabOrNewline)
    case Erased => NonSpace(line)
  }

  /** No whitespace at either end: what `s.lstrip().rstrip()` leaves. */
  predicate Stripped(s: string) {
    s != [] ==> !IsSpace(s[0]) && !IsSpace(s[|s| - 1])
  }

  /** One side of `:=` as the dialect keeps it. */
  function Tidy(side: string, d: Dialect): string {
    match d
    case Trimmed => Strip(side)
    case Erased => side
  }

  /**
   * One line of an assignment block: the `(name, value)` pair when the cleaned line splits
   * on `:=` into exactly two pieces, nothing otherwise.
   */
  function ParseLine(line: string, d: Dialect): (r: Option<(string, string)>)
    ensures r.Some? ==> !Contains(r.value.0, ":=") && !Contains(r.value.1, ":=")
    ensures !Contains(Clean(line, d), ":=") ==> r == None
  {
    var parts := Split(Clean(line, d), ":=");
    SplitFacts(line, d);
    if |parts| == 2 then Some((Tidy(parts[0], d), Tidy(parts[1], d))) else None
  }

  /** A line whose cleaned form holds `:=` twice splits into three pieces or more, so it is dropped. */
  lemma ParseLineTwoSeparators(line: string, d: Dialect, i: nat, j: nat)
    requires i + 2 <= j && OccursAt(Clean(line, d), ":=", i) && OccursAt(Clean(line, d), ":=", j)
    ensures ParseLine(line, d) == None
  {
    SplitTwoOccurrences(Clean(line, d), ":=", i, j);
  }

  /** What splitting a cleaned line tells about its pieces. */
  lemma SplitFacts(line: string, d: Dialect)
    ensures !Contains(Clean(line, d), ":=") ==> |Split(Clean(line, d), ":=")| == 1
    ensures forall k :: 0 <= k < |Split(Clean(line, d), ":=")| ==>
      var side := Tidy(Split(Clean(line, d), ":=")[k], d);
      !Contains(side, ":=") &&
      (d == Trimmed ==> Stripped(side)) &&
      (d == Erased ==> SpaceFree(side))
  {
    var c := Clean(line, d);
    var parts := Split(c, ":=");
    if !Contains(c, ":=") {
      SplitWithout(c, ":=");
    }
    SplitPiecesFree(c, ":=");
    SplitPiecesOccur(c, ":=");
    forall k | 0 <= k < |parts|
      ensures !Contains(Tidy(parts[k], d), ":=")
      ensures d == Trimmed ==> Stripped(Tidy(parts[k], d))
      ensures d == Erased ==> SpaceFree(Tidy(parts[k], d))
    {
      TidySound(parts[k], d);
      if d == Erased {
        NonSpaceIsSpaceFree(line);
        SpaceFreeContained(c, parts[k]);
      }
    }
  }

  lemma TidySound(side: string, d: Dialect)
    ensures Contains(Tidy(side, d), ":=") ==> Contains(side, ":=")
    ensures d == Trimmed ==> Stripped(Tidy(side, d))
  {
    if d == Trimmed {
      ContainsInStrip(side, ":=");
      StripKeepsText(side);
    }
  }

  /** The pairs of the lines that hold an assignment, in order (`[... for x in lines if len(pair) == 2]`). */
  function ParseLines(lines: seq<string>, d: Dialect): (r: seq<(string, string)>)
    ensures |r| <= |lines|
  {
    if lines == [] then []
    else
      (match ParseLine(lines[0], d) case Some(pair) => [pair] case None => []) + ParseLines(lines[1..], d)
  }

  /** No parsed name or value holds `:=`. */
  lemma {:induction false} ParseLinesFree(lines: seq<string>, d: Dialect)
    ensures forall i :: 0 <= i < |ParseLines(lines, d)| ==>
      !Contains(ParseLines(lines, d)[i].0, ":=") && !Contains(ParseLines(lines, d)[i].1, ":=")
  {
    if lines != [] {
      var head: seq<(string, string)> := match ParseLine(lines[0], d) case Some(pair) => [pair] case None => [];
      var tail := ParseLines(lines[1..], d);
      ParseLinesFree(lines[1..], d);
      assert ParseLines(lines, d) == head + tail;
      forall i | 0 <= i < |head + tail|
        ensures !Contains((head + tail)[i].0, ":=") && !Contains((head + tail)[i].1, ":=")
      {
        if i >= |head| {
          assert (head + tail)[i] == tail[i - |head|];
        }
      }
    }
  }

  /** `parse_assignments(contents)`: the block is split into lines and each line parsed. */
  function ParseAssignments(contents: string, d: Dialect): seq<(string, string)> {
    ParseLines(Split(contents, "\n"), d)
  }

  /** No tab, no newline. */
  predicate Unbroken(s: string) {
    forall i :: 0 <= i < |s| ==> !IsTabOrNewline(s[i])
  }

  /** A line `k := v` parses, in the trimmed dialect, into `k` and `v` stripped. */
  lemma ParseLineTrimmed(k: string, v: string)
    requires Plain(k) && Plain(v)
    ensures ParseLine(k + ":=" + v, Trimmed) == Some((Strip(k), Strip(v)))
  {
    var line := k + ":=" + v;
    assert forall i :: 0 <= i < |line| ==> !IsTabOrNewline(line[i]) by {
      forall i | 0 <= i < |line| ensures !IsTabOrNewline(line[i]) {
        if i < |k| {
          assert line[i] == k[i];
        } else if i >= |k| + 2 {
          assert line[i] == v[i - |k| - 2];
        }
      }
    }
    assert Clean(line, Trimmed) == line;
    SplitAssignment(k, v);
  }

  /** A line `k := v` parses, in the erased dialect, into `k` and `v` with all their whitespace removed. */
  lemma ParseLineErased(k: string, v: string)
    requires !Contains(NonSpace(k), ":=") && !Contains(NonSpace(v), ":=")
    ensures ParseLine(k + ":=" + v, Erased) == Some((NonSpace(k), NonSpace(v)))
  {
    NonSpaceAppend(k + ":=", v);
    NonSpaceAppend(k, ":=");
    NonSpaceOfSpaceFree(":=");
    assert Clean(k + ":=" + v, Erased) == NonSpace(k) + ":=" + NonSpace(v);
    SplitAssignment(NonSpace(k), NonSpace(v));
  }

  /** Splitting a block of lines on newlines gives back the lines, so each line is parsed on its own. */
  lemma ParseAssignmentsOfLines(lines: seq<string>, d: Dialect)
    requires |lines| >= 1
    requires forall i :: 0 <= i < |lines| ==> !Contains(lines[i], "\n")
    ensures ParseAssignments(Join(lines, "\n"), d) == ParseLines(lines, d)
  {
    JoinSplit(lines, "\n");
  }

  /** A name or value that can be written on an assignment line as it is. */
  predicate Plain(s: string) {
    Unbroken(s) && !Contains(s, ":=")
  }

  /** The lines `pairs[i].0 := pairs[i].1`, in order. */
  function AssignmentLines(pairs: seq<(string, string)>): (lines: seq<string>)
    ensures |lines| == |pairs|
  {
    if pairs == [] then [] else [pairs[0].0 + ":=" + pairs[0].1] + AssignmentLines(pairs[1..])
  }

  /** Each side stripped, as the trimmed dialect stores it. */
  function StripPairs(pairs: seq<(string, string)>): (r: seq<(string, string)>)
    ensures |r| == |pairs|
    ensures forall i :: 0 <= i < |pairs| ==> r[i] == (Strip(pairs[i].0), Strip(pairs[i].1))
  {
    if pairs == [] then [] else [(Strip(pairs[0].0), Strip(pairs[0].1))] + StripPairs(pairs[1..])
  }

  /** Assignment lines give one pair per line, in order, with both sides stripped. */
  lemma {:induction false} ParseLinesTrimmed(pairs: seq<(string, string)>)
    requires forall i :: 0 <= i < |pairs| ==> Plain(pairs[i].0) && Plain(pairs[i].1)
    ensures ParseLines(AssignmentLines(pairs), Trimmed) == StripPairs(pairs)
  {
    if pairs != [] {
      var lines := AssignmentLines(pairs);
      assert lines[1..] == AssignmentLines(pairs[1..]);
      ParseLineTrimmed(pairs[0].0, pairs[0].1);
      ParseLinesTrimmed(pairs[1..]);
    }
  }

  lemma PlainLine(k: string, v: string)
    requires Plain(k) && Plain(v)
    ensures Unbroken(k + ":=" + v)
  {
    var line := k + ":=" + v;
    forall i | 0 <= i < |line| ensures !IsTabOrNewline(line[i]) {
      if i < |k| {
        assert line[i] == k[i];
      } else if i >= |k| + 2 {
        assert line[i] == v[i - |k| - 2];
      }
    }
  }

  lemma UnbrokenHasNoNewline(s: string)
    requires Unbroken(s)
    ensures !Contains(s, "\n")
  {
    forall j | 0 <= j <= |s| ensures !OccursAt(s, "\n", j) {
      assert j < |s| ==> s[j..j + 1][0] == s[j];
    }
  }

  /**
   * A block of assignment lines, in the trimmed dialect, parses into one stripped pair per
   * line, in the order written.
   */
  lemma ParseAssignmentsTrimmed(pairs: seq<(string, string)>)
    requires |pairs| >= 1
    requires forall i :: 0 <= i < |pairs| ==> Plain(pairs[i].0) && Plain(pairs[i].1)
    ensures ParseAssignments(Join(AssignmentLines(pairs), "\n"), Trimmed) == StripPairs(pairs)
  {
    var lines := AssignmentLines(pairs);
    forall i | 0 <= i < |lines| ensures !Contains(lines[i], "\n") {
      AssignmentLine(pairs, i);
      PlainLine(pairs[i].0, pairs[i].1);
      UnbrokenHasNoNewline(lines[i]);
    }
    ParseAssignmentsOfLines(lines, Trimmed);
    ParseLinesTrimmed(pairs);
  }

  lemma {:induction false} AssignmentLine(pairs: seq<(string, string)>, i: nat)
    requires i < |pairs|
    ensures AssignmentLines(pairs)[i] == pairs[i].0 + ":=" + pairs[i].1
  {
    if i > 0 {
      AssignmentLine(pairs[1..], i - 1);
    }
  }

  /** The pieces of a parsed line are stripped (trimmed dialect) or whitespace-free (erased dialect). */
  lemma ParseLineTidy(line: string, d: Dialect)
    ensures ParseLine(line, d).Some? && d == Trimmed ==>
      Stripped(ParseLine(line, d).value.0) && Stripped(ParseLine(line, d).value.1)
    ensures ParseLine(line, d).Some? && d == Erased ==>
      SpaceFree(ParseLine(line, d).value.0) && SpaceFree(ParseLine(line, d).value.1)
  {
    SplitFacts(line, d);
  }

  /** A line whose cleaned form has no `:=` (a blank line, a comment) contributes nothing. */
  lemma ParseLinesSkips(line: string, rest: seq<string>, d: Dialect)
    requires !Contains(Clean(line, d), ":=")
    ensures ParseLines([line] + rest, d) == ParseLines(rest, d)
  {
    assert ([line] + rest)[1..] == rest;
  }

  // ---------------------------------------------------------------------------------------
  // Validation
  // ---------------------------------------------------------------------------------------

  /**
   * `validate_one_macro`: a macro value needs a `{}` placement point, and a name may be
   * defined once. The placement point is checked first.
   */
  function ValidateOneMacro(name: string, value: string, macros: Table): (r: Result<string>)
    ensures r.Ok? <==> Contains(value, "{}") && !HasKey(macros, name)
    ensures r.Ok? ==> r.value == value
    ensures !Contains(value, "{}") ==> r == Err(MissingPlacementPoint)
    ensures Contains(value, "{}") && HasKey(macros, name) ==> r == Err(DuplicateMacro)
  {
    FindContains(value, "{}");
    if Find(value, "{}", 0) < 0 then Err(MissingPlacementPoint)
    else if HasKey(macros, name) then Err(DuplicateMacro)
    else Ok(value)
  }

  /** `validate_one_variable`: a variable may be defined once. */
  function ValidateOneVariable(name: string, value: string, variables: Table): (r: Result<string>)
    ensures r.Ok? <==> !HasKey(variables, name)
    ensures r.Ok? ==> r.value == value
    ensures r.Err? ==> r.error == DuplicateVariable
  {
    if HasKey(variables, name) then Err(DuplicateVariable) else Ok(value)
  }

  /** The loop of `validate_macros` from a given dict onwards: each pair validated, then stored. */
  function ValidateMacrosFrom(pairs: seq<(string, string)>, macros: Table): Result<Table>
    decreases |pairs|
  {
    if pairs == [] then Ok(macros)
    else
      match ValidateOneMacro(pairs[0].0, pairs[0].1, macros)
      case Err(e) => Err(e)
      case Ok(v) => ValidateMacrosFrom(pairs[1..], Set(macros, pairs[0].0, v))
  }

  /** The loop of `validate_variables` from a given dict onwards. */
  function ValidateVariablesFrom(pairs: seq<(string, string)>, variables: Table): Result<Table>
    decreases |pairs|
  {
    if pairs == [] then Ok(variables)
    else
      match ValidateOneVariable(pairs[0].0, pairs[0].1, variables)
      case Err(e) => Err(e)
      case Ok(v) => ValidateVariablesFrom(pairs[1..], Set(variables, pairs[0].0, v))
  }

  /** What `validate_macros(contents)` returns. */
  function MacroTable(contents: string, d: Dialect): Result<Table> {
    ValidateMacrosFrom(ParseAssignments(contents, d), [])
  }

  /** What `validate_variables(contents)` returns. */
  function VariableTable(contents: string, d: Dialect): Result<Table> {
    ValidateVariablesFrom(ParseAssignments(contents, d), [])
  }

  /** Every macro value has a placement point. */
  predicate Placeable(pairs: seq<(string, string)>) {
    forall i :: 0 <= i < |pairs| ==> Contains(pairs[i].1, "{}")
  }

  lemma DistinctKeysAppend(acc: Table, pair: (string, string), rest: Table)
    requires DistinctKeys(acc)
    ensures DistinctKeys(acc + ([pair] + rest)) <==> !HasKey(acc, pair.0) && DistinctKeys((acc + [pair]) + rest)
  {
    assert acc + ([pair] + rest) == (acc + [pair]) + rest;
    var all := acc + ([pair] + rest);
    assert all[|acc|] == pair;
    if !HasKey(acc, pair.0) {
      assert DistinctKeys(acc + [pair]);
    } else {
      var i :| 0 <= i < |acc| && acc[i].0 == pair.0;
      assert all[i].0 == all[|acc|].0;
    }
  }

  /**
   * Validation succeeds exactly when every value has a placement point and no name repeats,
   * and then the dict holds the pairs in the order they were written.
   */
  lemma {:induction false} ValidateMacrosFromSound(pairs: seq<(string, string)>, acc: Table)
    requires DistinctKeys(acc)
    ensures ValidateMacrosFrom(pairs, acc).Ok? <==> Placeable(pairs) && DistinctKeys(acc + pairs)
    ensures ValidateMacrosFrom(pairs, acc).Ok? ==> ValidateMacrosFrom(pairs, acc).value == acc + pairs
    ensures ValidateMacrosFrom(pairs, acc).Err? ==>
      ValidateMacrosFrom(pairs, acc).error in {MissingPlacementPoint, DuplicateMacro}
    decreases |pairs|
  {
    if pairs == [] {
      assert acc + pairs == acc;
    } else {
      var p := pairs[0];
      var rest := pairs[1..];
      assert pairs == [p] + rest;
      assert (acc + [p]) + rest == acc + pairs;
      DistinctKeysAppend(acc, p, rest);
      assert Placeable(pairs) <==> Contains(p.1, "{}") && Placeable(rest) by {
        assert forall i :: 0 <= i < |rest| ==> rest[i] == pairs[i + 1];
      }
      var one := ValidateOneMacro(p.0, p.1, acc);
      if one.Ok? {
        assert Set(acc, p.0, p.1) == acc + [p];
        GetSet(acc, p.0, p.1, p.0);
        assert ValidateMacrosFrom(pairs, acc) == ValidateMacrosFrom(rest, acc + [p]);
        ValidateMacrosFromSound(rest, acc + [p]);
      } else {
        assert ValidateMacrosFrom(pairs, acc) == Err(one.error);
      }
    }
  }

  /** Validation succeeds exactly when no name repeats, and then the dict holds the pairs in order. */
  lemma {:induction false} ValidateVariablesFromSound(pairs: seq<(string, string)>, acc: Table)
    requires DistinctKeys(acc)
    ensures ValidateVariablesFrom(pairs, acc).Ok? <==> DistinctKeys(acc + pairs)
    ensures ValidateVariablesFrom(pairs, acc).Ok? ==> ValidateVariablesFrom(pairs, acc).value == acc + pairs
    ensures ValidateVariablesFrom(pairs, acc).Err? ==> ValidateVariablesFrom(pairs, acc).error == DuplicateVariable
    decreases |pairs|
  {
    if pairs == [] {
      assert acc + pairs == acc;
    } else {
      var p := pairs[0];
      var rest := pairs[1..];
      assert pairs == [p] + rest;
      assert (acc + [p]) + rest == acc + pairs;
      DistinctKeysAppend(acc, p, rest);
      var one := ValidateOneVariable(p.0, p.1, acc);
      if one.Ok? {
        assert Set(acc, p.0, p.1) == acc + [p];
        GetSet(acc, p.0, p.1, p.0);
        assert ValidateVariablesFrom(pairs, acc) == ValidateVariablesFrom(rest, acc + [p]);
        ValidateVariablesFromSound(rest, acc + [p]);
      } else {
        assert ValidateVariablesFrom(pairs, acc) == Err(one.error);
      }
    }
  }

  /**
   * `validate_macros(contents)` succeeds exactly when every assignment's value has a `{}`
   * and no name repeats, and then returns the assignments in the order they were written.
   */
  lemma MacroTableSound(contents: string, d: Dialect)
    ensures MacroTable(contents, d).Ok? <==>
      Placeable(ParseAssignments(contents, d)) && DistinctKeys(ParseAssignments(contents, d))
    ensures MacroTable(contents, d).Ok? ==> MacroTable(contents, d).value == ParseAssignments(contents, d)
    ensures MacroTable(contents, d).Err? ==> MacroTable(contents, d).error in {MissingPlacementPoint, DuplicateMacro}
  {
    var pairs := ParseAssignments(contents, d);
    ValidateMacrosFromSound(pairs, []);
    assert [] + pairs == pairs;
  }

  /** `validate_variables(contents)` succeeds exactly when no name repeats, and returns the assignments in order. */
  lemma VariableTableSound(contents: string, d: Dialect)
    ensures VariableTable(contents, d).Ok? <==> DistinctKeys(ParseAssignments(contents, d))
    ensures VariableTable(contents, d).Ok? ==> VariableTable(contents, d).value == ParseAssignments(contents, d)
    ensures VariableTable(contents, d).Err? ==> VariableTable(contents, d).error == DuplicateVariable
  {
    var pairs := ParseAssignments(contents, d);
    ValidateVariablesFromSound(pairs, []);
    assert [] + pairs == pairs;
  }

  /**
   * `validate_macros(contents)`: the block's assignments, in order, when every value has a
   * `{}` and every name is new; the first failure otherwise.
   */
  method ValidateMacros(contents: string, d: Dialect) returns (r: Result<Table>)
    ensures r == MacroTable(contents, d)
    ensures r.Ok? <==> Placeable(ParseAssignments(contents, d)) && DistinctKeys(ParseAssignments(contents, d))
    ensures r.Ok? ==> r.value == ParseAssignments(contents, d)
  {
    var assignments := ParseAssignments(contents, d);
    var macros: Table := [];
    for i := 0 to |assignments|
      invariant ValidateMacrosFrom(assignments[i..], macros) == MacroTable(contents, d)
    {
      var (name, value) := assignments[i];
      assert assignments[i..][1..] == assignments[i + 1..];
      var checked := ValidateOneMacro(name, value, macros);
      if checked.Err? {
        MacroTableSound(contents, d);
        return Err(checked.error);
      }
      macros := Set(macros, name, checked.value);
    }
    assert assignments[|assignments|..] == [];
    MacroTableSound(contents, d);
    return Ok(macros);
  }

  /** `validate_variables(contents)`: the block's assignments, in order, when every name is new. */
  method ValidateVariables(contents: string, d: Dialect) returns (r: Result<Table>)
    ensures r == VariableTable(contents, d)
    ensures r.Ok? <==> DistinctKeys(ParseAssignments(contents, d))
    ensures r.Ok? ==> r.value == ParseAssignments(contents, d)
  {
    var assignments := ParseAssignments(contents, d);
    var variables: Table := [];
    for i := 0 to |assignments|
      invariant ValidateVariablesFrom(assignments[i..], variables) == VariableTable(contents, d)
    {
      var (name, value) := assignments[i];
      assert assignments[i..][1..] == assignments[i + 1..];
      var checked := ValidateOneVariable(name, value, variables);
      if checked.Err? {
        VariableTableSound(contents, d);
        return Err(checked.error);
      }
      variables := Set(variables, name, checked.value);
    }
    assert assignments[|assignments|..] == [];
    VariableTableSound(contents, d);
    return Ok(variables);
  }

  // ---------------------------------------------------------------------------------------
  // Routing tags into the context
  // ---------------------------------------------------------------------------------------

  /** The parse context: the `ctx` dict with its four entries. */
  datatype Parsed = Parsed(macros: Table, globals: Table, variables: Table, customTags: Table)

  /** The tag names the parser interprets; every other tag is custom content. */
  predicate Reserved(name: string) {
    name == "macros" || name == "globals" || name == "variables"
  }

  predicate IsCustom(name: string) {
    !Reserved(name)
  }

  /**
   * `validate_and_parse_tag(ctx, name, contents)`: a reserved tag replaces its entry by the
   * validated block, any other tag is stored under its name among the custom tags.
   */
  function ParseTag(p: Parsed, name: string, contents: string, d: Dialect): (r: Result<Parsed>)
    ensures r.Err? ==> Reserved(name)
    ensures r.Ok? && IsCustom(name) ==>
      r.value == p.(customTags := Set(p.customTags, name, contents))
    ensures r.Ok? && Reserved(name) ==> r.value.customTags == p.customTags
    ensures Reserved(name) ==>
      (r.Ok? <==> (if name == "macros" then MacroTable(contents, d) else VariableTable(contents, d)).Ok?)
    ensures r.Err? ==>
      r.error == (if name == "macros" then MacroTable(contents, d) else VariableTable(contents, d)).error
    ensures r.Ok? && name == "macros" ==> r.value == p.(macros := MacroTable(contents, d).value)
    ensures r.Ok? && name == "globals" ==> r.value == p.(globals := VariableTable(contents, d).value)
    ensures r.Ok? && name == "variables" ==> r.value == p.(variables := VariableTable(contents, d).value)
  {
    if name == "macros" then
      match MacroTable(contents, d)
      case Err(e) => Err(e)
      case Ok(m) => Ok(p.(macros := m))
    else if name == "globals" then
      match VariableTable(contents, d)
      case Err(e) => Err(e)
      case Ok(g) => Ok(p.(globals := g))
    else if name == "variables" then
      match VariableTable(contents, d)
      case Err(e) => Err(e)
      case Ok(v) => Ok(p.(variables := v))
    else
      Ok(p.(customTags := Set(p.customTags, name, contents)))
  }

  /** The loop of `parse` from a given context onwards. */
  function ParseFrom(tags: Table, p: Parsed, d: Dialect): Result<Parsed>
    decreases |tags|
  {
    if tags == [] then Ok(p)
    else
      match ParseTag(p, tags[0].0, tags[0].1, d)
      case Err(e) => Err(e)
      case Ok(q) => ParseFrom(tags[1..], q, d)
  }

  /** What `parse(tags)` returns. */
  function ParseSpec(tags: Table, d: Dialect): Result<Parsed> {
    ParseFrom(tags, Parsed([], [], [], []), d)
  }

  /** The validated table of a reserved tag, or `default` when the document has no such tag. */
  function Field(tags: Table, name: string, d: Dialect, default: Table): Result<Table> {
    match Get(tags, name)
    case None => Ok(default)
    case Some(contents) => if name == "macros" then MacroTable(contents, d) else VariableTable(contents, d)
  }

  /** No key of `tags` is already a custom tag of the context. */
  predicate Fresh(tags: Table, customTags: Table) {
    forall i :: 0 <= i < |tags| ==> !HasKey(customTags, tags[i].0)
  }

  lemma FieldCons(tags: Table, name: string, d: Dialect, default: Table)
    requires tags != []
    ensures Field(tags, name, d, default) ==
      if tags[0].0 == name then Field([tags[0]], name, d, default) else Field(tags[1..], name, d, default)
  {
    GetCons(tags, name);
    GetCons([tags[0]], name);
  }

  lemma DistinctTail(tags: Table)
    requires tags != [] && DistinctKeys(tags)
    ensures DistinctKeys(tags[1..])
    ensures !HasKey(tags[1..], tags[0].0)
  {
    assert forall i :: 0 <= i < |tags| - 1 ==> tags[1..][i] == tags[i + 1];
  }

  /**
   * The fold over the tags succeeds exactly when every reserved tag's block validates; each
   * reserved entry then holds its tag's validated block, and the custom tags are the other
   * tags, in document order, after those already present.
   */
  lemma {:induction false} ParseFromSound(tags: Table, p: Parsed, d: Dialect)
    requires DistinctKeys(tags) && Fresh(tags, p.customTags)
    ensures ParseFrom(tags, p, d).Ok? <==>
      Field(tags, "macros", d, p.macros).Ok? && Field(tags, "globals", d, p.globals).Ok? &&
      Field(tags, "variables", d, p.variables).Ok?
    ensures ParseFrom(tags, p, d).Ok? ==> ParseFrom(tags, p, d).value == Parsed(
      Field(tags, "macros", d, p.macros).value, Field(tags, "globals", d, p.globals).value,
      Field(tags, "variables", d, p.variables).value, p.customTags + Where(tags, IsCustom))
    decreases |tags|
  {
    if tags == [] {
      assert p.customTags + Where(tags, IsCustom) == p.customTags;
    } else {
      var t := tags[0];
      var rest := tags[1..];
      DistinctTail(tags);
      FieldCons(tags, "macros", d, p.macros);
      FieldCons(tags, "globals", d, p.globals);
      FieldCons(tags, "variables", d, p.variables);
      GetCons([t], "macros");
      GetCons([t], "globals");
      GetCons([t], "variables");
      var r := ParseTag(p, t.0, t.1, d);
      if r.Ok? {
        var q := r.value;
        if IsCustom(t.0) {
          assert q.customTags == p.customTags + [t];
          assert Fresh(rest, q.customTags) by {
            forall i | 0 <= i < |rest| ensures !HasKey(q.customTags, rest[i].0) {
              assert rest[i].0 != t.0;
              assert !HasKey(p.customTags, tags[i + 1].0);
            }
          }
          assert Where(tags, IsCustom) == [t] + Where(rest, IsCustom);
          ConcatAssoc(p.customTags, [t], Where(rest, IsCustom));
        } else {
          assert Fresh(rest, q.customTags) by {
            forall i | 0 <= i < |rest| ensures !HasKey(q.customTags, rest[i].0) {
              assert !HasKey(p.customTags, tags[i + 1].0);
            }
          }
          assert Where(tags, IsCustom) == Where(rest, IsCustom);
          GetCons(tags, t.0);
          assert Get(rest, t.0) == None;
        }
        ParseFromSound(rest, q, d);
      }
    }
  }

  /** `parse(tags)` over the lexer's dict: the statement above from an empty context. */
  lemma ParseSpecSound(tags: Table, d: Dialect)
    requires DistinctKeys(tags)
    ensures ParseSpec(tags, d).Ok? <==>
      Field(tags, "macros", d, []).Ok? && Field(tags, "globals", d, []).Ok? && Field(tags, "variables", d, []).Ok?
    ensures ParseSpec(tags, d).Ok? ==> ParseSpec(tags, d).value == Parsed(
      Field(tags, "macros", d, []).value, Field(tags, "globals", d, []).value,
      Field(tags, "variables", d, []).value, Where(tags, IsCustom))
  {
    ParseFromSound(tags, Parsed([], [], [], []), d);
    assert [] + Where(tags, IsCustom) == Where(tags, IsCustom);
  }

  /** The context `parse` builds and `validate_and_parse_tag` updates in place. */
  class Context {
    var macros: Table
    var globals: Table
    var variables: Table
    var customTags: Table

    /** The four empty entries `parse` starts from. */
    constructor ()
      ensures macros == [] && globals == [] && variables == [] && customTags == []
    {
      macros := [];
      globals := [];
      variables := [];
      customTags := [];
    }

    function Value(): Parsed
      reads this
    {
      Parsed(macros, globals, variables, customTags)
    }

    /**
     * `validate_and_parse_tag(ctx, name, contents)`: on success the context becomes what
     * `ParseTag` describes; on failure it is left as it was.
     */
    method ValidateAndParseTag(name: string, contents: string, d: Dialect) returns (err: Option<Error>)
      modifies this
      ensures ParseTag(old(Value()), name, contents, d) == if err.Some? then Err(err.value) else Ok(Value())
      ensures err.Some? ==> Value() == old(Value())
    {
      err := None;
      if name == "macros" {
        var m := ValidateMacros(contents, d);
        if m.Err? {
          return Some(m.error);
        }
        macros := m.value;
      } else if name == "globals" || name == "variables" {
        var v := ValidateVariables(contents, d);
        if v.Err? {
          return Some(v.error);
        }
        if name == "globals" {
          globals := v.value;
        } else {
          variables := v.value;
        }
      } else {
        customTags := Set(customTags, name, contents);
      }
    }
  }

  /** `parse(tags)`: every tag routed into a fresh context, in the dict's order; the first failure stops it. */
  method Parse(tags: Table, d: Dialect) returns (r: Result<Context>)
    ensures r.Err? <==> ParseSpec(tags, d).Err?
    ensures r.Err? ==> r.error == ParseSpec(tags, d).error
    ensures r.Ok? ==> fresh(r.value) && r.value.Value() == ParseSpec(tags, d).value
  {
    var ctx := new Context();
    for i := 0 to |tags|
      invariant ParseFrom(tags[i..], ctx.Value(), d) == ParseSpec(tags, d)
    {
      assert tags[i..][1..] == tags[i + 1..];
      var err := ctx.ValidateAndParseTag(tags[i].0, tags[i].1, d);
      if err.Some? {
        return Err(err.value);
      }
    }
    assert tags[|tags|..] == [];
    return Ok(ctx);
  }
}
