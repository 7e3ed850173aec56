# blagh, modelled in Dafny

blagh is a template engine for blog posts. A post is a document of sections such as
`<globals>…</globals>`, `<macros>…</macros>` and `<content>…</content>`. Four stages turn the
document and an HTML template into the finished page:

1. The **lexer** scans the document into an ordered `{tag: body}` dict.
2. The **parser** turns the `name := value` lines of the reserved sections into the macro,
   global and variable tables. Every other section becomes a custom tag.
3. The **expander** rewrites every custom tag. Whitespace is collapsed, then `$name$` tokens
   become their values, then `<name>body</name>` macro spans become the macro's template with the
   body at its `{}`. Macro expansion is recursive in both the body and the template.
4. The **compiler** splices the globals, then the custom tags under their couched `$name$`
   names, into the template.

Python's dicts are insertion-ordered sequences of `(key, value)` pairs (`Tables`). Each regular
expression is an explicit search function (`Text`). Every exception becomes an `Err` of the
`Results.Error` kind that names its cause.

The repository holds two drafts beside the live stages, and both are modelled:

- `blagh/parser/parser.py` erases all whitespace from assignment lines. It is the `Erased`
  dialect of the `Parser` module; `blagh/parser/__init__.py` is the `Trimmed` dialect.
- `blagh/parser/expansion.py` is an earlier expander that the expansion tests import. It is the
  `DraftExpansion` module.

The modules are:

- `Results`: Option, Result, Error.
- `Text`: characters, find, splice, strip, split, whitespace collapse, `str.format`.
- `Tables`: ordered dicts.
- `Lexer`: the lexer.
- `Parser`: the parser, both dialects.
- `Expansion`: the live expander.
- `DraftExpansion`: the draft expander.
- `Compiler`: the compiler.
- `Pipeline`: the composition in `blagh/tool.py`.

Where the source updates a `ctx` dict stage by stage, the model has a class with one field per
key and one method per stage. The stage loop is proved equal to a specification function, and
the properties are lemmas about that function.

## Model

| member | source | states |
|---|---|---|
| Text.Find | blagh/compiler/__init__.py:26-30 | `s.find(sub, start)`: -1, or an occurrence at or after `start` with none between `start` and it |
| Text.LastBetween | blagh/lexer/__init__.py:38 | the greatest occurrence in a range, or -1 when there is none: where a greedy `(.+)` before a closing tag settles |
| Text.BodyBeforeLastClose | blagh/lexer/__init__.py:36-39 | there is a match exactly when `</name>` occurs at some index >= 1; the body is then non-empty and followed by `</name>` |
| Text.BodyBeforeLastCloseIsLast | blagh/lexer/__init__.py:38 | no `</name>` starts after the body that was found |
| Text.ReplaceAt | blagh/expansion/__init__.py:48-50 | when the cut fits, `replace_variable` makes the text longer by the length of `data` and shorter by the length of `name` |
| Text.ReplaceAtParts | blagh/expansion/__init__.py:48-50 | the splice is the text before `offset`, then `data`, then the text after the cut |
| Text.ReplaceAtRoundTrip | blagh/expansion/__init__.py:48-50 | splicing the old text back over the new restores the string |
| Text.StripLeft | blagh/parser/__init__.py:41 | `lstrip` removes only leading whitespace, and the result starts with none |
| Text.StripLeftSuffix | blagh/parser/__init__.py:41 | what `lstrip` leaves is a suffix of its input |
| Text.StripRight | blagh/parser/__init__.py:41 | `rstrip` keeps a prefix, removes only trailing whitespace, and the result ends with none |
| Text.StripKeepsText | blagh/parser/__init__.py:41 | `strip` removes only whitespace, from the ends only |
| Text.StripIdempotent | blagh/expansion/__init__.py:172 | stripping twice is stripping once |
| Text.ContainsInStrip | blagh/expansion/__init__.py:172 | a stripped string contains nothing that the original did not |
| Text.CollapseWhitespaceSound | blagh/expansion/__init__.py:236 | `re.sub('\s+', ' ', s)` leaves only single spaces, never two in a row, and keeps every other character in order |
| Text.CollapseWhitespaceIdempotent | blagh/expansion/__init__.py:236 | normalising twice is normalising once |
| Text.CollapseKeepsAbsent | blagh/expansion/__init__.py:236 | the normalisation adds no character except a space |
| Text.Delete | blagh/parser/__init__.py:38 | `re.sub(r'[\n\t]', '', x)` leaves none of the deleted characters and changes a clean string not at all |
| Text.Split | blagh/parser/__init__.py:37-38 | `str.split` gives at least one piece |
| Text.SplitJoin | blagh/parser/__init__.py:37-38 | joining the pieces with the separator gives back the string |
| Text.JoinSplit | blagh/parser/__init__.py:37 | splitting on a one-character separator undoes joining pieces that do not contain it |
| Text.SplitTwoOccurrences | blagh/parser/__init__.py:38 | two non-overlapping occurrences of the separator give at least three pieces |
| Text.SplitPiecesFree | blagh/parser/__init__.py:38 | no piece contains the separator |
| Text.SplitAssignment | blagh/parser/__init__.py:38 | a line holding one `:=` splits into the text before it and the text after it |
| Text.UncouchCouch | blagh/compiler/__init__.py:17-19 | `getvarname` is injective: removing the dollars gives the name back |
| Text.FormatWithoutPlaceholder | blagh/expansion/__init__.py:184 | a template without braces formats to itself |
| Text.FormatSinglePlaceholder | blagh/expansion/__init__.py:184 | `a{}b` formats to `a`, then the argument, then `b` |
| Text.FormatTwoPlaceholders | blagh/expansion/__init__.py:184 | two `{}` fields with one argument are an error |
| Tables.Get | blagh/expansion/__init__.py:78 | a lookup finds a value exactly when the key is in the dict |
| Tables.ValueOrIsGet | blagh/expansion/__init__.py:78 | `d[k] if k in d else default` is the lookup with the default filled in |
| Tables.GetSet | blagh/lexer/__init__.py:85 | after `d[k] = v`, `d[k]` is `v`, every other key keeps its value, and the keys stay distinct |
| Tables.Where | blagh/parser/__init__.py:90-91 | the custom-tag filter keeps only items that pass it, and never more items than it was given |
| Lexer.Advance | blagh/lexer/__init__.py:25-27 | the source is the dropped prefix followed by the result |
| Lexer.MatchOpenTag | blagh/lexer/__init__.py:30-33 | there is a match exactly when the text starts with `<` and a word character and has a `>` before its last character; the name is an identifier followed by a non-word character |
| Lexer.MatchOpenTagName | blagh/lexer/__init__.py:30-33 | the name matched is the word run after `<` |
| Lexer.MatchCloseTag | blagh/lexer/__init__.py:36-39 | there is a match exactly when `</tag>` occurs after the first character; the body is then non-empty and followed by `</tag>` |
| Lexer.MatchCloseTagIsLast | blagh/lexer/__init__.py:36-39 | the body ends at the last `</tag>` |
| Lexer.ScanStep | blagh/lexer/__init__.py:108-116 | one pass of the stage pipeline always consumes input |
| Lexer.ScanContext.FindOpeningTag | blagh/lexer/__init__.py:42-54 | the current tag is the open-tag match, and the cursor moves past `<name>` or one character |
| Lexer.ScanContext.FindClosingTag | blagh/lexer/__init__.py:57-73 | the body is the close-tag match after the cursor, and the cursor moves past the closing tag; an unclosed tag is `MalformedTag` |
| Lexer.ScanContext.AddTagToDict | blagh/lexer/__init__.py:76-86 | records the body under the current tag; a repeated name is `DuplicateTag` |
| Lexer.ScanContext.AdvanceToNextTag | blagh/lexer/__init__.py:89-92 | the source loses the consumed characters |
| Lexer.Scan | blagh/lexer/__init__.py:95-118 | the loop over the four stages gives the scan function's table or error |
| Lexer.ScanSingleTag | blagh/lexer/__init__.py:95-118 | `<t>B</t>` scans to `{t: B}` |
| Lexer.ScanLastSection | blagh/lexer/__init__.py:95-118 | a final section adds its name and body to the table and ends the scan |
| Lexer.ScanSkipsChar | blagh/lexer/__init__.py:50-52 | whenever no opening tag matches at the start, the source loses one character and the table is unchanged |
| Lexer.ScanTwoTags | blagh/lexer/__init__.py:95-118 | two sections separated by a newline give both bodies, in order |
| Lexer.ScanTagWithAttributes | blagh/lexer/__init__.py:49 | the cursor moves by `len('<' + name + '>')` even when attributes follow the name, so the body of `<t attrs>B</t>` starts inside the attributes |
| Lexer.ScanNoCloseTag | blagh/lexer/__init__.py:66-67 | an opening tag whose `</t>` does not follow makes the scan fail |
| Lexer.ScanUnclosedTag | blagh/lexer/__init__.py:66-67 | a tag that is never closed is `MalformedTag` |
| Lexer.ScanEmptySection | blagh/lexer/__init__.py:57-73 | an empty section `<t></t>` is `MalformedTag`, because `(.+)` needs one character |
| Lexer.ScanRepeatedTagMerges | blagh/lexer/__init__.py:36-39 | a name written twice yields one section, running from the first `<t>` to the last `</t>` |
| Lexer.SectionConsumed | blagh/lexer/__init__.py:70-71 | after a section no `</name>` is left in the source |
| Lexer.ScanStepRecords | blagh/lexer/__init__.py:108-116 | one pass over a section records it and drops it from the source |
| Lexer.ScanResultSound | blagh/lexer/__init__.py:82-83 | the duplicate-tag error is never raised; every name returned is a word, appears once, and its body is followed by `</name>` in the document |
| Parser.ParseLine | blagh/parser/__init__.py:37-41 | a parsed line's two pieces hold no `:=`, and a line whose cleaned form has no `:=` is dropped |
| Parser.ParseLineTwoSeparators | blagh/parser/__init__.py:38-41 | a line whose cleaned form holds `:=` twice is dropped by `if len(pair) == 2` |
| Parser.ParseLines | blagh/parser/__init__.py:41 | at most one pair per line |
| Parser.ParseLinesFree | blagh/parser/__init__.py:41 | no parsed name or value holds `:=` |
| Parser.ParseLineTrimmed | blagh/parser/__init__.py:37-41 | `k := v` parses to `k` and `v` stripped |
| Parser.ParseLineErased | blagh/parser/parser.py:35-42 | `k := v` parses to `k` and `v` with all whitespace removed |
| Parser.ParseLineTidy | blagh/parser/__init__.py:41 | parsed pieces are stripped in one dialect and whitespace-free in the other |
| Parser.ParseLinesSkips | blagh/parser/__init__.py:41 | a line without `:=` contributes nothing |
| Parser.ParseAssignmentsOfLines | blagh/parser/__init__.py:37 | splitting a block on newlines parses each line on its own |
| Parser.ParseAssignmentsTrimmed | blagh/parser/__init__.py:34-41 | a block of assignment lines parses into one stripped pair per line, in order |
| Parser.ValidateOneMacro | blagh/parser/__init__.py:44-50 | succeeds exactly when the value holds `{}` and the name is new; a missing `{}` is reported before a repeated name |
| Parser.ValidateOneVariable | blagh/parser/__init__.py:53-57 | succeeds exactly when the name is new |
| Parser.MacroTableSound | blagh/parser/__init__.py:60-71 | validation succeeds exactly when every value holds `{}` and no name repeats, and then returns the pairs in order |
| Parser.VariableTableSound | blagh/parser/__init__.py:74-81 | validation succeeds exactly when no name repeats, and then returns the pairs in order |
| Parser.ValidateMacros | blagh/parser/__init__.py:60-71 | the loop gives the validated macro table or the first failure |
| Parser.ValidateVariables | blagh/parser/__init__.py:74-81 | the loop gives the validated variable table or the first failure |
| Parser.ParseTag | blagh/parser/__init__.py:84-93 | a reserved tag fails exactly when its block fails to validate, with that block's error, and otherwise replaces its own entry (`macros`, `globals` or `variables`) with the validated table and leaves the custom tags alone; any other tag is stored among the custom tags and never fails |
| Parser.ParseFromSound | blagh/parser/__init__.py:108-111 | the fold succeeds exactly when every reserved block validates; each reserved entry then holds its tag's validated block, or its earlier value when the tag is absent, and the custom tags are the other tags in document order |
| Parser.ParseSpecSound | blagh/parser/__init__.py:96-113 | the same, starting from four empty entries |
| Parser.Context.ValidateAndParseTag | blagh/parser/__init__.py:84-93 | the context becomes what `ParseTag` gives, or is unchanged on failure |
| Parser.Parse | blagh/parser/__init__.py:96-113 | the loop fails exactly when the fold fails, and otherwise yields the fold's context |
| Expansion.MatchVariable | blagh/expansion/__init__.py:28-29 | a match is at least three characters long and fits in the text |
| Expansion.MatchVariableIsToken | blagh/expansion/__init__.py:28-29 | the match is `$`, a non-empty word, then `$`, at the cursor |
| Expansion.MatchVariableToken | blagh/expansion/__init__.py:28-29 | a token `$name$` is matched whatever surrounds it |
| Expansion.MatchVariableEmptyName | blagh/expansion/__init__.py:28-29 | `$$` is not a token |
| Expansion.MatchMacroOpen | blagh/expansion/__init__.py:32-35 | a match is an identifier in `<…>` at the start of the text, with text after it |
| Expansion.MatchMacroOpenTag | blagh/expansion/__init__.py:32-35 | `<name>` followed by a character is matched |
| Expansion.VariableMemo.FindVariable | blagh/expansion/__init__.py:53-64 | the current variable is the token at the cursor, if any |
| Expansion.VariableMemo.ExpandVariable | blagh/expansion/__init__.py:67-81 | the token at the cursor is replaced by its value, and an unknown token by `''` |
| Expansion.VariableMemo.AdvanceToNextVariable | blagh/expansion/__init__.py:84-91 | the cursor moves past the value and one more character, or by one |
| Expansion.ExpandVariables | blagh/expansion/__init__.py:94-114 | the loop, bounded by the original length, gives the variable-loop function's text |
| Expansion.VariableLoopPassed | blagh/expansion/__init__.py:106-112 | one pass of `find_variable`, `expand_variable` and `advance_to_next_variable` leaves the final text unchanged |
| Expansion.VariableLoopNoToken | blagh/expansion/__init__.py:105-112 | a text without `$` is unchanged |
| Expansion.VariableLoopAtToken | blagh/expansion/__init__.py:76-89 | at a token the loop splices in its value and moves past it and one more character |
| Expansion.ExpandOneVariable | blagh/expansion/__init__.py:94-114 | one token in `$`-free text is replaced by its value, whatever the value's length |
| Expansion.AdjacentVariables | blagh/expansion/__init__.py:87 | of two adjacent tokens only the first is expanded, because the `+ 1` skips the second token's `$` |
| Expansion.SecondVariable | blagh/expansion/__init__.py:105 | the second of two tokens is expanded only if it starts inside the original length |
| Expansion.TokenAtEnd | blagh/expansion/__init__.py:105 | a final token is expanded when the cursor reaches it within the bound |
| Expansion.OpenMacro | blagh/expansion/__init__.py:117-133 | a tag is a macro only when its couched name is a key |
| Expansion.FindMacro | blagh/expansion/__init__.py:117-153 | the span found at the cursor is a known macro's opening tag and the body before its last closing tag |
| Expansion.FindMacroSpan | blagh/expansion/__init__.py:185 | the text from the cursor starts with the span found |
| Expansion.MacroMemo.FindOpeningMacroTag | blagh/expansion/__init__.py:117-133 | the current macro is the known macro that opens at the cursor |
| Expansion.MacroMemo.FindClosingMacroTag | blagh/expansion/__init__.py:136-153 | the body is the text before the last closing tag; none is `UnclosedMacro` |
| Expansion.MacroMemo.ExpandMacro | blagh/expansion/__init__.py:156-191 | the span is replaced by its expansion, which is recorded; an error leaves the text unchanged |
| Expansion.MacroMemo.AdvanceToNextMacro | blagh/expansion/__init__.py:194-205 | the cursor moves past the expansion, or by one, and the stage fields are reset |
| Expansion.MacroMemo.Pipe | blagh/expansion/__init__.py:224-229 | one pass keeps the pending loop result unchanged, or fails as the loop does |
| Expansion.FoundByStages | blagh/expansion/__init__.py:117-153 | the two finding stages find what the span search finds |
| Expansion.LoopExpand | blagh/expansion/__init__.py:184-200 | a span that expands is replaced and the cursor moves past the expansion |
| Expansion.MacroExpandFree | blagh/expansion/__init__.py:209-231 | a text without a known macro's opening tag is unchanged |
| Expansion.MacroLoopSkip | blagh/expansion/__init__.py:196-197 | the loop crosses text without `<` one character at a time |
| Expansion.FindMacroAt | blagh/expansion/__init__.py:136-153 | a known macro's span with no later closing tag is found as such |
| Expansion.MacroLoopAtSpan | blagh/expansion/__init__.py:156-200 | at a span the loop replaces it by its expansion and carries on after it, or fails with the expansion's error |
| Expansion.MacroExpandSingle | blagh/expansion/__init__.py:209-231 | `pre<name>c</name>post` becomes `pre`, the expansion, then `post` |
| Expansion.ExpandOneFree | blagh/expansion/__init__.py:172-184 | with a macro-free body and template, the stripped template is formatted with the stripped body |
| Expansion.MacroLoopUnclosed | blagh/expansion/__init__.py:147-148 | a known macro without a later closing tag is `UnclosedMacro` |
| Expansion.MacroLoopEmptyBody | blagh/expansion/__init__.py:136-153 | an empty body `<name></name>` is `UnclosedMacro` |
| Expansion.SelfReference | blagh/expansion/__init__.py:182 | a macro whose template opens itself never finishes; at any depth it ends in `RecursionLimit` |
| Expansion.SelfReferenceStep | blagh/expansion/__init__.py:182 | when the template's own span fails, the outer span fails too |
| Expansion.MacroExpandStopsAtBound | blagh/expansion/__init__.py:199-221 | when the first expansion reaches the original length, the text after it is left unexpanded |
| Expansion.SequentialSpans | blagh/expansion/__init__.py:199-221 | of two spans in a row the first is expanded, and the second only when the cursor after the first expansion is still inside the original length |
| Expansion.NestedInBody | blagh/expansion/__init__.py:172 | a body that is itself a span is expanded before it goes into the template |
| Expansion.NestedInTemplate | blagh/expansion/__init__.py:182 | a template holding another macro's span is expanded, one level deeper, before the body goes in |
| Expansion.ExpandMacros | blagh/expansion/__init__.py:209-231 | the loop of stages gives the macro-expansion function's text or error |
| Expansion.ExpandSpan | blagh/expansion/__init__.py:170-184 | body, then template, are stripped and expanded, and the template's `{}` receives the body |
| Expansion.InjectPlain | blagh/expansion/__init__.py:234-239 | a tag without `$` or `<` only has its whitespace collapsed |
| Expansion.InjectDataIntoContent | blagh/expansion/__init__.py:234-239 | whitespace collapse, then variables, then macros |
| Expansion.InjectAll | blagh/expansion/__init__.py:252-254 | every tag keeps its name and position and holds its rewritten contents, or the first failure is reported |
| Expansion.InjectAllFirstErr | blagh/expansion/__init__.py:252-254 | the first failing tag's error is the result |
| Expansion.InjectAllOk | blagh/expansion/__init__.py:252-254 | a table of the rewritten items, in order, is the result |
| Expansion.Expand | blagh/expansion/__init__.py:243-256 | the custom tags are rewritten in order; after a failure at some tag, the tags before it hold their rewritten contents, it and the later tags are untouched, and the error is its error; the other tables are unchanged |
| DraftExpansion.FirstLine | blagh/parser/expansion.py:20-27 | without DOTALL `.` stops at the first newline: a prefix of the text |
| DraftExpansion.MatchMacroOpen | blagh/parser/expansion.py:20-22 | the greedy `(<(.+)>).+` name runs to the last `>` of the first line that has a character after it |
| DraftExpansion.MatchMacroOpenSpec | blagh/parser/expansion.py:20-22 | there is a match exactly when the first line starts with `<` and has such a `>`; the name is everything between |
| DraftExpansion.MatchMacroClose | blagh/parser/expansion.py:25-27 | the inner text is everything before the last `</name>` on the first line |
| DraftExpansion.MatchMacroCloseSpec | blagh/parser/expansion.py:25-27 | there is a match exactly when `</name>` starts on the first line after a first character |
| DraftExpansion.ExpandVariables | blagh/parser/expansion.py:42-64 | the loop, bounded by the current length, gives the substitution function's text |
| DraftExpansion.ExpandVariableAt | blagh/parser/expansion.py:50-62 | one turn of the loop keeps what is copied plus the substitution of what is left equal to the final text, and the distance to the end shrinks |
| DraftExpansion.SubstituteNoToken | blagh/parser/expansion.py:49-62 | a text without `$` is unchanged |
| DraftExpansion.SubstituteToken | blagh/parser/expansion.py:53-62 | a token becomes its value and the next character is copied unread |
| DraftExpansion.SubstituteLastToken | blagh/parser/expansion.py:53-58 | a final token becomes its value |
| DraftExpansion.TwoTokens | blagh/parser/expansion.py:49 | two tokens with one character between them are both expanded, however long the first value is |
| DraftExpansion.AdjacentTokens | blagh/parser/expansion.py:58-62 | of two adjacent tokens only the first is expanded |
| DraftExpansion.TailAfterWord | blagh/parser/expansion.py:16-17 | a word followed by one `$` is copied |
| DraftExpansion.ExpandMacros | blagh/parser/expansion.py:68-108 | the loop gives the one-level macro-scan function's text or error |
| DraftExpansion.ExpandMacroAt | blagh/parser/expansion.py:76-106 | one pass leaves the pending scan result unchanged, or fails as the scan does |
| DraftExpansion.UnclosedScan | blagh/parser/expansion.py:83-84 | a macro without its closing tag on the line fails the scan |
| DraftExpansion.FormatErrScan | blagh/parser/expansion.py:94 | a template that `str.format` rejects fails the scan |
| DraftExpansion.MacroScanNoTag | blagh/parser/expansion.py:75-106 | a text without `<` is unchanged |
| DraftExpansion.OpenGreedy | blagh/parser/expansion.py:20-22 | the name runs to the last `>` that has a character after it, whatever it holds |
| DraftExpansion.GreedyUnclosed | blagh/parser/expansion.py:82-84 | a greedy opener left with too little text for its closing tag raises |
| DraftExpansion.SingleMacro | blagh/parser/expansion.py:76-102 | a lone span fills its template's `{}` with the inner text, not expanded again, with the template looked up under the bare name |
| DraftExpansion.SequentialMacrosRaise | blagh/parser/expansion.py:76-84 | `<conversation>what</conversation><foo>is this</foo>` raises |
| DraftExpansion.NestedMacrosRaise | blagh/parser/expansion.py:76-84 | `<conversation><foo>is this</foo></conversation>` raises |
| DraftExpansion.CouchedKeyMissed | blagh/parser/expansion.py:93 | with the template under `$conversation$`, the span expands to nothing |
| DraftExpansion.InjectPlain | blagh/parser/expansion.py:111-115 | a tag without `$` or `<` is unchanged; whitespace is not collapsed |
| DraftExpansion.InjectDataIntoContent | blagh/parser/expansion.py:111-115 | variables, then macros |
| DraftExpansion.Expand | blagh/parser/expansion.py:119-129 | the custom tags are rewritten in order; after a failure at some tag, the tags before it hold their rewritten contents, it and the later tags are untouched, and the error is its error |
| Compiler.LocationsFrom | blagh/compiler/__init__.py:26-32 | every location is an occurrence at or after the first hit, in increasing order, and a hit at index 0 or none gives no locations |
| Compiler.Locations | blagh/compiler/__init__.py:22-32 | every location is an occurrence at index 1 or later, in increasing order |
| Compiler.LocationsFromExact | blagh/compiler/__init__.py:28-30 | from a start of at least 1 the search collects every occurrence and nothing else |
| Compiler.LocationsExact | blagh/compiler/__init__.py:22-32 | the locations are exactly the occurrences, unless there is one at index 0, in which case there are none |
| Compiler.CollectSubstringLocations | blagh/compiler/__init__.py:22-32 | the loop gives the locations function's list |
| Compiler.CompileVariables | blagh/compiler/__init__.py:35-42 | the loops give the compiled function's text |
| Compiler.CompiledAppend | blagh/compiler/__init__.py:37 | keys are handled one after another, in dict order |
| Compiler.CompiledAbsent | blagh/compiler/__init__.py:35-42 | keys that do not occur leave the html unchanged |
| Compiler.LeadingOccurrenceKept | blagh/compiler/__init__.py:28 | a key at index 0 hides all of its occurrences |
| Compiler.OnlyLocation | blagh/compiler/__init__.py:22-32 | a key that occurs once, past index 0, is located there only |
| Compiler.SingleOccurrence | blagh/compiler/__init__.py:35-42 | a key that occurs once, past index 0, has its value spliced over it |
| Compiler.TwoAdjacentLocations | blagh/compiler/__init__.py:22-32 | `$a$` is located at 1 and 4 in `x$a$$a$` |
| Compiler.SplicesAtStaleOffset | blagh/compiler/__init__.py:39-40 | the second splice lands inside the first value |
| Compiler.StaleOffsets | blagh/compiler/__init__.py:38-40 | `x$a$$a$` with a longer value keeps one `$a$` and cuts into the value |
| Compiler.AllLocationsFrom | blagh/compiler/__init__.py:26-32 | with `>= 0` as the loop condition: occurrences at or after the first hit, increasing |
| Compiler.AllLocations | blagh/compiler/__init__.py:22-32 | the corrected locations are strictly increasing |
| Compiler.AllLocationsExact | blagh/compiler/__init__.py:22-32 | with `>= 0` as the loop condition the locations are exactly the occurrences, index 0 included |
| Compiler.LocationsMissStart | blagh/compiler/__init__.py:28 | a key at the start is found by the corrected loop but not by the loop as written |
| Compiler.ReplaceAllFirst | blagh/compiler/__init__.py:35-42 | the splice without precomputed offsets replaces the leftmost occurrence and goes on after it |
| Compiler.ReplaceAllAbsent | blagh/compiler/__init__.py:35-42 | text without the key is unchanged |
| Compiler.ReplaceAllSelf | blagh/compiler/__init__.py:35-42 | replacing a key by itself changes nothing |
| Compiler.StaleOffsetsFixed | blagh/compiler/__init__.py:38-40 | on the text where the offsets go stale, the corrected splice replaces both keys |
| Compiler.CouchKeys | blagh/compiler/__init__.py:54 | the comprehension keeps the number of items |
| Compiler.CouchKeysDistinct | blagh/compiler/__init__.py:54 | couching keeps keys apart, and each name can be read back |
| Compiler.ContentSpliced | blagh/compiler/__init__.py:50-55 | a custom tag whose `$name$` occurs once, past index 0, is spliced there |
| Compiler.CompileGlobals | blagh/compiler/__init__.py:45-47 | global names are looked for verbatim |
| Compiler.CompileContent | blagh/compiler/__init__.py:50-55 | custom tags are looked for under their couched names |
| Compiler.Compile | blagh/compiler/__init__.py:58-68 | globals first, then custom tags, as one pass over both tables in that order |
| Pipeline.Run | blagh/tool.py:94-101 | scan, parse, expand and compile in order; the first error ends the run |
| Pipeline.CompiledWithoutKeys | blagh/compiler/__init__.py:58-68 | keys none of which occurs in the template leave it unchanged |
| Pipeline.TemplateWithoutKeys | blagh/tool.py:94-101 | a template naming no global and no couched custom tag of an accepted document comes out unchanged |

## Left out

- File I/O, argument parsing and the output directory (`load_file`, `write_blog_post`,
  `sluggify`, `parse_arguments` in `blagh/tool.py`): the document and the template are
  parameters of `Pipeline.Run`, and the page is its result.
- Logging, and the `logging.basicConfig` calls made when the drafts are imported: they do not
  affect any result.
- Exception types and messages. The errors the source detects itself raise a bare `Exception`,
  with one exception: the lexer's unclosed-tag error (blagh/lexer/__init__.py:67). Its message
  reads `ctx['contents']`, a key that the `scan` context (lines 99-105) never sets. So that path
  raises `KeyError` before the `Exception` is built. `Lexer.ScanContext.FindClosingTag` reports
  it as `MalformedTag` all the same. Beyond these, `str.format` raises `IndexError`, `KeyError` or
  `ValueError`, and deep recursion raises `RecursionError`. The model gives each cause its own
  `Results.Error` kind and says nothing of the Python class raised or its message.
- `pipe`: the stage lists of `scan`, `expand_variables` and `expand_macros` are written as calls
  in sequence.
- The `imports` section named in the grammar comment: neither the parser nor the expander acts
  on it, so it is stored among the custom tags, as the source does.
- Text.Format: handles only the fields blagh's templates use: `{}` once, `{{` and `}}`. The model
  rejects fields that Python's `str.format` accepts, such as `{0}`, `{0}{0}`, `{:>5}` and `{!r}`.
  For example, `<li>{0}</li>` with the body `x` gives `<li>x</li>` in Python but `FormatError` in
  the model.
- Text.IsWordChar: ASCII letters, digits and `_` only. Python's `\w` on `str` is Unicode, so in
  `<café>x</café>` Python's tag name is `café`, while the model's is `caf`.
- Text.IsSpace: ASCII whitespace only (space, tab, newline, carriage return, vertical tab, form
  feed, and the separators 0x1c-0x1f). Python's `\s`, `str.strip()` and `str.split` also treat other Unicode spaces as
  whitespace.
- Expansion.ExpandOne: the recursion into templates carries a `fuel` bound. When it runs out the
  result is `RecursionLimit`, which stands in for Python's `RecursionError` at the interpreter's
  stack limit. Python's limit counts frames, not template depth, so the depth at which the model
  fails is a parameter rather than the interpreter's.
- DraftExpansion.ExpandMacros: only the first line is searched for a closing tag. This is the
  non-DOTALL regex of `blagh/parser/expansion.py`. `MatchMacroClose` models it by searching the
  text before the first newline; other line terminators that Python's `.` excludes are not
  modelled.

## Findings

| source | as written | input that shows it | evidently intended | confidence | as-written member | corrected member |
|---|---|---|---|---|---|---|
| blagh/compiler/__init__.py:28 | `collect_substring_locations` loops `while last_found > 0`, so a hit at index 0 ends the loop before it is recorded | the template `$title$ …` with the global `$title$`: nothing is spliced | every occurrence is located, index 0 included (`>= 0`) | medium, not executed | Compiler.LocationsExact, Compiler.LocationsMissStart | Compiler.AllLocations, Compiler.AllLocationsExact |
| blagh/compiler/__init__.py:38-40 | all locations of a key are computed before splicing, and each splice moves the later occurrences by `len(value) - len(key)` | `x$a$$a$` with `$a$ = LONGER` gives `xLONLONGER$a$` | each occurrence replaced: `xLONGERLONGER` | high, not executed | Compiler.StaleOffsets, Compiler.SplicesAtStaleOffset | Compiler.ReplaceAll, Compiler.ReplaceAllFirst, Compiler.StaleOffsetsFixed |
| blagh/parser/expansion.py:76-93 | the draft expander, which the expansion tests import, looks templates up under the bare name, matches the opening tag greedily and does not recurse | `<conversation>what</conversation>` with `$conversation$ = <li>{}</li>` gives `''`; `<conversation>what</conversation><foo>is this</foo>` and `<conversation><foo>is this</foo></conversation>` raise | the test expectations: `<li>what</li><p>is this</p>` and `<li><p>is this</p></li>` | medium, not executed | DraftExpansion.CouchedKeyMissed, DraftExpansion.SequentialMacrosRaise, DraftExpansion.NestedMacrosRaise | Expansion.MacroExpandSingle, Expansion.SequentialSpans, Expansion.NestedInBody, Expansion.NestedInTemplate |
