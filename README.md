# defmac `Script` in Dafny

defmac lets a C++ source file define its own surface syntax. A statement
``#defmac `syntax`C++` `` says that text shaped like `syntax`, where
`$name` stands for a variable, should be rewritten into the C++ text. A
statement ``#defmac_include `file` `` pulls in the definitions of another
file. The class `DEF_MAC::Script` does all of this. It keeps a table of
rewrite rules (C++ text and the regex it replaces), a list of file
prefixes, and a table of type bindings. Its `map_buffer` does four things:

- it cuts every statement out of a buffer;
- it compiles each definition into a rule;
- it rewrites the buffer with every rule in table order;
- it puts the removed statements in a comment in front.

`map_file` wraps this with file reading, the prefixes and a newline
collapse.

The model is imperative where the class is:

- `Defmac.Script` is a class whose fields (`syntax`, `prefixes`,
  `typeData`) its methods update in place.
- The loops of `parse_defmac_macros` and `map_buffer` are methods with
  loop invariants.
- Each method is proved equal to a specification function, and the
  properties the program promises are proved about those functions.
- The compiler's text edits are tied to regex elements: when no variable
  name is a prefix of another, a compiled syntax is `Emit` of its
  anchored, collapsed elements, which are well formed
  (`Compiler.CompiledPatternIs`). The lemmas about matching and the
  rewrite loop then apply to the rules a parse builds.

The modules:

| module | file | what it holds |
|---|---|---|
| `Base` | base.dfy | `Option`, `Result`, and the failures: an out-of-range `replace`, a missing file, a too-deep include, a rule with no fixpoint, a regex `std::regex` refuses |
| `Text` | text.dfy | character classes, `std::to_string`, `find`, literal `regex_replace`, string concatenation |
| `RegexShape` | shape.dfy | the generated regexes as element sequences; `Emit`/`Parse`; relational matching; the abstract search |
| `Extractor` | extractor.dfy | the include and definition regexes and the two cut loops |
| `Templates` | templates.dfy | type annotations `$<T>name` and variable numbering `\vN` |
| `Patterns` | patterns.dfy | escaping, backreferences, wildcards and the start/end anchors, as text edits |
| `Compiler` | compiler.dfy | the same compile steps on a syntax split into variables and characters, proving what regex elements they produce |
| `Distribution` | distribute.dfy | putting a type in front of every identifier of a capture |
| `Engine` | engine.dfy | the rule table entries, placeholder sets, expansion and the rewrite loops |
| `Defmac` | script.dfy | the parse as a whole, include recursion, `map_buffer`, `map_file` and the `Script` class |

Matching is modelled as follows.

- A generated regex is a sequence of `Lit(c)`, `Lazy` (`((.)+?)`),
  `NonSpace` (`((\S)+)`) and `BackRef(n)`.
- `Emit` spells a sequence exactly as the compiler writes it.
- `Matches` says which texts a sequence matches under ECMAScript rules,
  where `.` refuses line ends.
- The regex engine itself is a parameter `search` of type `Searcher`. Its
  contract `Sound` says that a match it reports splits the buffer and is a
  real match, and that it reports none only when there is none.

The program's behaviour is reproduced as written, quirks included. The
one exception is that matching runs over characters where the program
matches bytes (see "## Left out"):

- The backreference buffer is rebuilt from the unmodified escaped syntax
  for every new name. So only the name whose first appearance comes last
  gets its repeats turned into backreferences (`Patterns.Collapse`).
- Variable numbers advance on every occurrence, repeats included, and a
  backreference adds no group. So after a repeat, the numbers stop being
  group numbers.
- Placeholders are substituted without a boundary check.
  `Engine.PlaceholderPrefixClash` shows `\v1` rewriting the front of
  `\v11`.
- Type bindings go into the member table under the rule's C++ text, and
  `map_buffer` looks them up by that text. Two rules with the same C++
  text therefore share their bindings.
- When the compiled regex is six bytes long (its UTF-8 size, as
  `std::string::size()` counts it), `size()-7` wraps to `npos`, the
  `rfind` comparison succeeds, and `replace(npos, …)` is out of range.
  This is `ReplaceOutOfRange` (`Patterns.AnchorFails`).
- The backreference loop locates a name with `find("\$name")`, which
  also hits a longer name that starts with it. For `$xy $x` the rebuild
  keeps `\$xy`, and the result `((\S)+) \3` refers to a group that does
  not exist, so building the `std::regex` at defmac.cpp:351 fails. This
  is `RegexError` (`Defmac.PrefixClashRefused`).
- `clear()` empties the rules and the prefixes but not the type bindings.

Where the code and the written description of defmac differ, the model
follows the code:

- A definition has three backticks and two segments: the syntax is group
  2 and the C++ text is group 4 of its regex. It is not three segments.
- Include file names are delimited by backticks, not quotes. The name is
  greedy up to the last backtick on the line.
- The newline collapse turns every run of three or more newlines into two
  newlines (`\n{3,}` to `\n\n`). It does not reduce them to one blank line.
- Only the name whose first occurrence is last has its repeats turned
  into backreferences. The repeats of every other name become further
  wildcards.

## Model

| member | source | states |
|---|---|---|
| Defmac.Script.constructor | defmac.cpp:144 | a default script has no rules, no prefixes and no type bindings |
| Defmac.Script.WithSyntax | defmac.cpp:146-149 | the script holds exactly the given rule table and prefix list, and no bindings |
| Defmac.Script.WithPrefixes | defmac.cpp:151 | the script holds exactly the given prefixes, and no rules |
| Defmac.Script.PushAlias | defmac.cpp:157-158 | exactly one rule is appended at the end; earlier rules, the prefixes and the bindings are unchanged |
| Defmac.Script.PushPrefix | defmac.cpp:159 | exactly one prefix is appended at the end; nothing else changes |
| Defmac.Script.PopCppAlias | defmac.cpp:163-170 | returns true iff some rule has that C++ text; then only the first such rule is erased, otherwise nothing changes |
| Defmac.Script.PopPrefix | defmac.cpp:171-178 | returns true iff the prefix is present; then only its first occurrence is erased, otherwise nothing changes |
| Defmac.Script.ClearAlias | defmac.cpp:182 | empties the rule table only |
| Defmac.Script.ClearPrefix | defmac.cpp:183 | empties the prefix list only |
| Defmac.Script.Clear | defmac.cpp:184 | empties rules and prefixes but leaves the type bindings |
| Defmac.Script.AliasSize | defmac.cpp:188 | the number of rules |
| Defmac.Script.PrefixSize | defmac.cpp:189 | the number of prefixes |
| Defmac.Script.Syntax | defmac.cpp:200 | a copy equal to the rule table |
| Defmac.Script.Prefix | defmac.cpp:201 | a copy equal to the prefix list |
| Defmac.FirstAliasFor | defmac.cpp:164-165 | the index of the first rule with the given C++ text, or none when no rule has it |
| Defmac.FirstIndexOf | defmac.cpp:172-173 | the index of the first equal prefix, or none when absent |
| Defmac.RemoveAtKeepsOthers | defmac.cpp:166 | `erase` removes one copy of that element and keeps all others in order |
| Defmac.MergeContainerStrings | defmac.cpp:122-128 | the loop yields the concatenation of the strings in order, and its length is the sum of their lengths |
| Text.ConcatAppend | defmac.cpp:122-128 | merging two lists one after the other is merging their join |
| Defmac.CollapseLeavesNoTriple | defmac.cpp:224-225 | after the collapse no three newlines follow each other |
| Defmac.CollapseKeepsShortRuns | defmac.cpp:224-225 | text without three newlines in a row is left unchanged |
| Defmac.CollapseIdempotent | defmac.cpp:224-225 | collapsing twice is the same as collapsing once |
| Defmac.Script.MapFile | defmac.cpp:210-231 | a missing input file fails and changes nothing; a failed parse or rewrite is reported as such; otherwise the tables become those of the parse, and the output goes to the named file (the input file when none is named) and is the merged prefixes plus the mapped buffer, collapsed, with no triple newline |
| Defmac.Script.ParseDmacFile | defmac.cpp:236-244 | an empty name does nothing; a file that cannot be opened reports that failure; otherwise the tables become those of parsing the file's text one level deeper, or that parse's failure is reported; the prefixes are untouched |
| Defmac.Script.ParseIncludes | defmac.cpp:264-272 | the include loop cuts every include statement, records each with a newline, and parses the named files in order into the tables |
| Defmac.IncludeStep | defmac.cpp:268-271 | what `parse_dmac_file` reports for the first included name decides the include loop: its failure ends it, otherwise the loop goes on from the tables it left |
| Defmac.Parsed | defmac.cpp:250-357 | a successful parse, with its included files, only appends to the rule and binding tables |
| Defmac.ParsedRest | defmac.cpp:264-281 | after a parse no definition is left in the buffer, and remaining plus removed text accounts for every character and one newline per statement |
| Defmac.CutStep | defmac.cpp:268-271 | one turn of a cut loop makes the buffer strictly shorter, keeps prefix and suffix, and records the statement and its name first |
| Defmac.Script.ParseDefmacMacros | defmac.cpp:250-357 | the tables become those of the parse, and it returns the remaining buffer and the removed statements, or the parse's failure; prefixes untouched |
| Extractor.IncludeAtShape | defmac.cpp:266 | a found include is the keyword, spaces, a backtick, a name on one line, and the last backtick of that line |
| Extractor.DefinitionAtShape | defmac.cpp:275 | a found definition is the keyword, spaces, then syntax and C++ text each closed by the next backtick, neither holding a carriage return |
| Extractor.IncludeIsNoDefinition | defmac.cpp:266-277 | an include statement is never read as a definition |
| Extractor.FindIncludeLeftmost | defmac.cpp:268 | the include search finds the leftmost statement, or there is none anywhere |
| Extractor.FindIncludeAt | defmac.cpp:268-271 | group 0 is the whole statement and group 1 the file name between the backticks |
| Extractor.FindDefinition | defmac.cpp:275-277 | a found definition splits the buffer and has a non-empty syntax and C++ text |
| Extractor.FindDefinitionLeftmost | defmac.cpp:277 | the definition search finds the leftmost definition, or there is none anywhere |
| Extractor.FindDefinitionAt | defmac.cpp:277-278 | group 2 is the syntax and group 4 the C++ text of the definition found |
| Extractor.IncludeNameOnOneLine | defmac.cpp:266 | an include file name holds no line end |
| Extractor.Drain | defmac.cpp:268-281 | a cut loop stops only when nothing more is found, and the remaining plus removed text is the buffer plus one newline per statement |
| Extractor.DrainIncludesDone | defmac.cpp:268-272 | after the include loop no include statement is left |
| Extractor.DrainDefinitionsDone | defmac.cpp:277-281 | after the definition loop no definition is left |
| Extractor.DrainFound | defmac.cpp:268-281 | every statement a loop collects is a match its search can return |
| Extractor.IncludedFileNames | defmac.cpp:266-271 | every included file name is non-empty and on one line |
| Extractor.DefinitionsOfBuffer | defmac.cpp:277-278 | one (syntax, C++) pair per definition found, in source order, both non-empty and free of carriage returns |
| Extractor.DrainLoop | defmac.cpp:268-281 | the cut loop computes the remaining buffer, the removed text and the statements found, in order |
| Defmac.CutDefinitions | defmac.cpp:274-281 | the definition loop leaves the drained buffer and removed text, and the definitions in source order |
| Templates.TypedAtShape | defmac.cpp:284 | an annotation is `$<`, a non-empty word, `>` and a whole word |
| Templates.FindTyped | defmac.cpp:289 | the search finds the leftmost annotation, or there is none |
| Templates.Entries | defmac.cpp:290 | each annotation records its type and `$name` under the definition's syntax |
| Templates.NoTypedInMarker | defmac.cpp:291-293 | the comment marker that replaces an annotation holds no annotation, so the loop moves on |
| Templates.AnnotateTypes | defmac.cpp:289-294 | the loop rewrites every annotation to its numbered marker, records one binding each, advances the count by their number, and leaves no annotation |
| Defmac.AnnotateAll | defmac.cpp:288-294 | one count runs across all definitions; each keeps its syntax, and there is one binding per marker |
| Defmac.AnnotateDefinitions | defmac.cpp:288-294 | the annotation loop over all definitions computes the annotated texts and bindings, and no annotation is left in any of them |
| Templates.VarNames | defmac.cpp:302 | the variables of a syntax, left to right with repeats, each a non-empty word |
| Templates.Numbering | defmac.cpp:302-310 | every variable of the syntax, and only those, gets a number |
| Templates.NumberingFirst | defmac.cpp:297-302 | a variable whose first occurrence is the k-th (counting repeats) gets number 2k+1 |
| Templates.NumberingLast | defmac.cpp:302-310 | one more occurrence numbers a new name 2k+1 and leaves an already numbered name alone |
| Templates.NumberStep | defmac.cpp:309-310 | one replacement step turns the next name into its placeholder, in agreement with numbering by first occurrence |
| Templates.ReplaceVarRenumbered | defmac.cpp:309-310 | replacing a name that is already numbered changes nothing |
| Templates.RenumberLeaves | defmac.cpp:302-311 | after renumbering, the only whole-word variables left are those the syntax does not use |
| Templates.FirstBinding | defmac.cpp:304-305 | the first binding under the syntax for that token, or none |
| Templates.FindBinding | defmac.cpp:304-308 | the search loop finds that first binding |
| Templates.Retagged | defmac.cpp:304-308 | retagging changes only bindings under this syntax and keeps every type |
| Templates.RetaggedStep | defmac.cpp:304-308 | the k-th variable retags the first matching binding with `\v(2k+1)` |
| Templates.NumberVariables | defmac.cpp:297-311 | the loop numbers the C++ text by first occurrence and retags the bindings accordingly |
| Patterns.EscapePassStep | defmac.cpp:315-316 | escaping one more character adds a backslash before it only, and backslash goes first so no inserted backslash is escaped again |
| Patterns.EscapeControlChars | defmac.cpp:313-316 | the escaping loop spells the syntax as literal characters, each control character with one backslash |
| Patterns.EscapeRoundTrip | defmac.cpp:313-316 | the escaped syntax reads back as exactly its own characters |
| RegexShape.ParseEmit | defmac.cpp:313-340 | a generated regex reads back as the element sequence it was written from |
| Patterns.EscVarOccurs | defmac.cpp:321-326 | each escaped variable found is a non-empty word that occurs in the escaped syntax |
| Patterns.LastFirst | defmac.cpp:323-325 | the variable whose first appearance comes last among first appearances; every later one is a repeat |
| Patterns.CollapseNew | defmac.cpp:324-329 | a name met for the first time replaces whatever the buffer held by the rebuild of the unmodified escaped syntax for that name and its number |
| Patterns.CollapseRepeat | defmac.cpp:324 | a repeated name leaves the buffer as it is |
| Patterns.CollapseBackrefs | defmac.cpp:318-331 | the loop leaves the rebuild for the name met last among first occurrences; Compiler.CollapseItems says what that rebuild is |
| Patterns.CollapseLast | defmac.cpp:318-331 | the loop's result is the rebuild for the last new name, or the escaped syntax when there is no variable |
| Patterns.WildcardsLeaveNoVariable | defmac.cpp:336 | after the wildcard replacement no escaped variable is left; Compiler.WildcardsSpell says what replaced each |
| Patterns.RFind | defmac.cpp:337 | `rfind` gives the last occurrence, the end when the text ends with it, or `npos` |
| Patterns.AnchorEndCases | defmac.cpp:337-338 | a regex of six UTF-8 bytes fails; a regex ending in the lazy wildcard ends in the non-space one; any other is kept |
| Patterns.EndsLazy | defmac.cpp:337 | an emitted regex ends with the lazy wildcard's text exactly when its last element is the lazy wildcard |
| Patterns.StartsLazy | defmac.cpp:339 | an emitted regex starts with the lazy wildcard's text exactly when its first element is the lazy wildcard |
| Patterns.AnchorEndIsEndElems | defmac.cpp:337-338 | on a generated regex, the text edit is a trailing `Lazy` becoming `NonSpace`, except the six-byte failure |
| Patterns.AnchorStartIsStartElems | defmac.cpp:339-340 | on a generated regex, a leading lazy wildcard becomes the non-space one and nothing else changes |
| Patterns.AnchorIsAnchorElems | defmac.cpp:337-340 | both anchors on a generated regex change only its first and last wildcard, except the six-byte failure |
| Patterns.AnchorFails | defmac.cpp:337-338 | the out-of-range `replace` happens exactly for regexes of six UTF-8 bytes |
| RegexShape.MatchStaysOnLine | defmac.cpp:336 | a generated regex without line-end literals never matches across a line end |
| RegexShape.MatchGroupCount | defmac.cpp:323 | a match captures two groups per wildcard and none per backreference |
| Defmac.ReKeyed | defmac.cpp:345-346 | the bindings of a definition are copied under its C++ text, with nothing else |
| Defmac.CompileFromOk | defmac.cpp:298-347 | the compile loop succeeds iff every remaining regex compiled |
| Defmac.CompileFromRules | defmac.cpp:298-351 | a successful loop appends one rule per definition, in source order |
| Defmac.CompileAllFails | defmac.cpp:298-347 | the compile loop, before any regex is built, fails iff some definition's syntax hits the six-byte failure |
| Defmac.RefusedFrom | defmac.cpp:350-351 | the first rule whose regex `std::regex` refuses: every rule before it is accepted, and none means every rule is |
| Defmac.Pushed | defmac.cpp:350-354 | the push loop succeeds iff every compiled rule's regex is accepted, and then keeps the compiled rules |
| Defmac.CompileAndPushFails | defmac.cpp:298-354 | compiling and pushing fails iff some syntax hits the six-byte failure or compiles to a regex `std::regex` refuses |
| Defmac.PrefixClashRefused | defmac.cpp:318-351 | `$xy $x` compiles, and the push loop then fails with a regex error on `((\S)+) \3` |
| Defmac.CompileDefinitions | defmac.cpp:298-347 | the compile loop computes the rules and the member-table bindings of all definitions, or the first six-byte failure; building the regexes is left to PushRules |
| Defmac.CompileBuffer | defmac.cpp:274-347 | cutting, annotating and compiling the definitions of a buffer |
| Defmac.Script.PushRules | defmac.cpp:350-351 | the compiled rules are appended in order up to the first regex `std::regex` refuses, which is reported; with none refused all are appended; nothing else changes |
| Defmac.Script.CompileAndPush | defmac.cpp:274-354 | the definitions left after the includes are cut, compiled and pushed: the tables grow by their rules and bindings, or the compile or push failure is reported |
| Compiler.SpellLiterals | defmac.cpp:313-316 | the escaped syntax is the spelling of its items, variables and characters, which are tight and hold no backreference |
| Compiler.EscVarNamesSpell | defmac.cpp:321 | the backreference loop's search finds exactly the variables of the items, in order |
| Compiler.MarkedAt | defmac.cpp:324-329 | item by item: an occurrence of the name after its first becomes the backreference, and every other item is unchanged |
| Compiler.CollapseItems | defmac.cpp:318-331 | when no name is a prefix of another, the loop's text is the spelling of the collapsed items: the repeats of the name first met last become backreferences to its group, and nothing else changes |
| Compiler.BackRefTargetsFirst | defmac.cpp:323-329 | the backreference `2j+1` names the outer group of the first occurrence of the j-th name, a lazy wildcard |
| Compiler.CollapsedRefsOpen | defmac.cpp:318-331 | every backreference of the collapsed syntax names a group already closed |
| Compiler.CollapsedWellFormed | defmac.cpp:318-351 | the collapsed elements are well formed |
| Compiler.WildcardsSpell | defmac.cpp:336 | every variable left becomes the lazy wildcard and every other item keeps its spelling |
| Compiler.GroupsOfNames | defmac.cpp:336 | each variable, and only a variable, opens two groups |
| Compiler.UnanchoredIs | defmac.cpp:313-336 | with prefix-free names, the text before anchoring is the emitted collapsed elements |
| Compiler.AnchorWellFormed | defmac.cpp:337-340 | anchoring keeps elements well formed |
| Compiler.CompiledPatternIs | defmac.cpp:313-351 | with prefix-free names, a six-byte regex fails; any other is the emitted anchored collapsed elements, well formed and accepted by `std::regex` |
| Compiler.RepeatExample | defmac.cpp:318-340 | `$x + $x` compiles to `((\S)+) \+ \1` |
| Compiler.PrefixClashExample | defmac.cpp:318-351 | `$xy $x` compiles to `((\S)+) \3`, which `std::regex` refuses |
| RegexShape.AcceptedWellFormed | defmac.cpp:351 | a regex `std::regex` accepts is well formed |
| Text.NatToString | defmac.cpp:292 | `to_string` of a count is a non-empty run of digits with no leading zero |
| Text.DigitsValueOfNatToString | defmac.cpp:383 | reading back the digits of a placeholder gives its number |
| Text.NatToStringInjective | defmac.cpp:292 | different counts give different markers |
| Text.IndexOf | defmac.cpp:326 | `find` gives the first occurrence, or none when there is none |
| Engine.Insert | defmac.cpp:383 | inserting into the set keeps it increasing and adds exactly that number |
| Engine.InsertAll | defmac.cpp:380-385 | the set holds exactly the numbers inserted, in increasing order |
| Engine.PlaceholderSet | defmac.cpp:380-385 | the loop collects each placeholder number of the C++ text once, in increasing order |
| Engine.ExpandMatch | defmac.cpp:390-417 | the expansion substitutes each placeholder in increasing order, distributing a bound type over the capture |
| Engine.PlaceholderPrefixClash | defmac.cpp:392-416 | substituting `\vn` also rewrites the front of `\vn` followed by a digit |
| Distribution.FindIdent | defmac.cpp:406 | the identifier search finds the leftmost identifier, or none when the capture has none |
| Distribution.DistributeFind | defmac.cpp:406-408 | distribution is the text before the leftmost identifier, the type, a space, the identifier, then the rest distributed |
| Distribution.DistributeNoIdent | defmac.cpp:410-414 | a capture without an identifier is passed through unchanged |
| Distribution.DistributeIdent | defmac.cpp:407 | a single identifier becomes the type, a space and the identifier |
| Distribution.DistributeAppend | defmac.cpp:406-410 | distribution works piece by piece across a non-word boundary |
| Distribution.DistributeLength | defmac.cpp:407 | each identifier adds exactly the type and one space; no other character changes |
| Distribution.DistributeType | defmac.cpp:397-414 | the distribution loop puts the type before every identifier, left to right, and keeps everything else |
| Engine.ApplyRuleSettles | defmac.cpp:389 | a rule's loop ends only where its regex no longer matches |
| Engine.ApplyRuleNoMatchLeft | defmac.cpp:389-419 | for a generated regex and a sound search, no part of the result matches the rule |
| Engine.ApplyRulesLastSettles | defmac.cpp:375-420 | after the table has run, the last rule's regex no longer matches |
| Engine.Rewrite | defmac.cpp:389-419 | the rewrite loop of one rule computes that rule's fixpoint |
| Engine.RunRule | defmac.cpp:376-419 | one rule: its placeholder set, then its rewrite loop |
| Engine.RunRules | defmac.cpp:375-420 | the loop over the rule table computes the whole rewrite |
| Defmac.Script.MapBuffer | defmac.cpp:363-422 | the tables become those of the parse, and the result is the removed statements in a comment followed by every rule applied in order |

## Left out

- File I/O. Files are an in-memory map from name to contents. A file that
  cannot be opened ends the program in the source (`confirmFileIsOpen`,
  defmac.cpp:131-139); here it is the failure `MissingFile`.
- `parse_dmac_file` also rewrites the included file's own buffer and
  throws the result away (defmac.cpp:242). The model keeps only its
  effect on the tables, so that rewrite pass is not modelled.
- Include recursion has no bound in the source. The model carries a
  depth, and running out of it is the failure `IncludeTooDeep`.
- A rule's rewrite loop need not terminate in the source
  (defmac.cpp:389). The model carries fuel, and running out of it is the
  failure `NoFixpoint`.
- Matching on bytes. `std::regex` over `std::string` (defmac.cpp:389)
  matches UTF-8 bytes; `RegexShape.Matches` and the contract `Sound`
  match characters. On ASCII text the two agree. On non-ASCII text they
  differ where two wildcards are adjacent and where an inner group
  `(.)`/`(\S)` is read: for `((\S)+)((\S)+)` on `aé` the program splits
  inside `é`, and on `é` alone it finds a match the model does not.
  Only `size()` is counted in bytes (`Utf8Size`).
- The `std::regex` engine itself: backtracking, and which of several
  matches lazy or greedy priority selects. It is the parameter `search`,
  constrained by `Sound`. Only the generated pattern shapes are modelled
  concretely. A user regex given to `push_alias` is kept as its source
  text, so its construction errors are not modelled.
- `regex_replace` reads `$` sequences in its replacement as format
  directives (defmac.cpp:329, 416). Engine.ExpandMatch splices a capture
  in literally, so a capture holding `$&` or `$1` is not reinterpreted.
- `std::stoi` overflow on a placeholder of more than nine digits
  (defmac.cpp:383), and the `int` result of `alias_size` and
  `prefix_size`: numbers are unbounded.
- Defmac.Script.AliasSize: returns the exact length. It does not narrow
  to `int` as the source does.
- `unordered_multimap` bindings are kept in insertion order. Lookups
  take the first entry under a key; the source takes the first in its
  bucket order.
- Patterns.AnchorIsAnchorElems: requires the regex to be shorter than
  `npos`, because the 64-bit wrap of `size()-7` is modelled only below
  it.
- Patterns.AnchorFails: requires the regex to be shorter than `npos`,
  for the same reason.
- Patterns.AnchorEndCases: requires the regex to be shorter than `npos`,
  for the same reason.
- Patterns.SizeMinus7: a size of 2^64 bytes or more is not reduced
  modulo 2^64. No string in memory can be that long.
- Compiler.CompiledPatternIs: requires the variable names to be prefix
  free and the regex shorter than `npos`. When one name is a prefix of
  another, the elements are not derived. That case is covered only by
  Defmac.CompileAndPushFails, which reports any refused regex, and by
  the example Compiler.PrefixClashExample.
- Compiler.UnanchoredIs: requires prefix-free names, for the same reason.
- Compiler.CollapseItems: requires prefix-free names, for the same reason.
- Patterns.AnchorEndIsEndElems: requires the regex to be shorter than
  `npos`, for the same reason.
- `cluster_buffer_headers` and the `clusterHeaders` flag of `map_file`
  (defmac.cpp:220-221, 426-444). Its output order depends on
  `unordered_set` hashing. Defmac.Script.MapFile models the call with
  the flag off.
- The `show_info` printing (defmac.cpp:352-353), the raw iterators
  `alias_begin`/`alias_end`/`prefix_begin`/`prefix_end`
  (defmac.cpp:193-196), `main` and command-line handling.
