/** The `DEF_MAC::Script` object (defmac.cpp:90-445): a table of rewrite
    rules and a list of file prefixes, filled by hand or by `#defmac`
    statements found in a buffer, and used to rewrite buffers and files. */
module Defmac {
  import opened Base
  import opened Text
  import opened RegexShape
  import opened Extractor
  import opened Templates
  import opened Patterns
  import opened Engine
  import opened Compiler

  // ---------------------------------------------------------------------
  // Table searches

  /** The first rule whose C++ text is `key`. */
  function FirstAliasFor(rules: seq<Alias>, key: string): (r: Option<nat>)
    ensures r.Some? ==> r.value < |rules| && rules[r.value].cpp == key
    ensures r.Some? ==> forall j :: 0 <= j < r.value ==> rules[j].cpp != key
    ensures r.None? ==> forall j :: 0 <= j < |rules| ==> rules[j].cpp != key
    decreases |rules|
  {
    if rules == [] then None
    else if rules[0].cpp == key then Some(0)
    else
      var r := FirstAliasFor(rules[1..], key);
      if r.None? then None else Some(r.value + 1)
  }

  /** The first position of `x` in `xs`. */
  function FirstIndexOf(xs: seq<string>, x: string): (r: Option<nat>)
    ensures r.Some? ==> r.value < |xs| && xs[r.value] == x
    ensures r.Some? ==> forall j :: 0 <= j < r.value ==> xs[j] != x
    ensures r.None? ==> x !in xs
    decreases |xs|
  {
    if xs == [] then None
    else if xs[0] == x then Some(0)
    else
      var r := FirstIndexOf(xs[1..], x);
      if r.None? then None else Some(r.value + 1)
  }

  /** `erase` of the element at `i`. */
  function RemoveAt<T>(xs: seq<T>, i: nat): seq<T>
    requires i < |xs|
  {
    xs[..i] + xs[i + 1..]
  }

  /** Erasing one element keeps every other one, in order. */
  lemma RemoveAtKeepsOthers<T>(xs: seq<T>, i: nat)
    requires i < |xs|
    ensures |RemoveAt(xs, i)| == |xs| - 1
    ensures multiset(RemoveAt(xs, i)) == multiset(xs) - multiset{xs[i]}
    ensures forall j :: 0 <= j < i ==> RemoveAt(xs, i)[j] == xs[j]
    ensures forall j :: i <= j < |xs| - 1 ==> RemoveAt(xs, i)[j] == xs[j + 1]
  {
    assert xs == xs[..i] + [xs[i]] + xs[i + 1..];
  }

  // ---------------------------------------------------------------------
  // Compiling the definitions of one buffer

  /** The definitions a buffer holds, once its include statements are cut. */
  function DefinitionsIn(buffer: string): seq<Definition>
  {
    DefinitionsOf(DrainDefinitions(buffer).found)
  }

  /** The definition loop: cut each `#defmac` statement out of the buffer,
      appending it, with a newline, to the removed text, and record its
      syntax and C++ text. */
  method CutDefinitions(buffer: string) returns (rest: string, removed: string, defs: seq<Definition>)
    ensures rest == DrainDefinitions(buffer).rest && removed == DrainDefinitions(buffer).removed
    ensures defs == DefinitionsIn(buffer)
  {
    FindDefinitionCuts();
    var found;
    rest, removed, found := DrainLoop(FindDefinition, buffer);
    defs := DefinitionsOf(found);
  }

  /** The definitions after the annotation pass, the entries it made, and
      the next marker number. */
  datatype Annotation = Annotation(defs: seq<Definition>, bindings: seq<Binding>, count: nat)

  /** The annotation pass over all definitions of a buffer, with one marker
      count shared by all of them, keyed by each definition's syntax. */
  function AnnotateAll(defs: seq<Definition>): (r: Annotation)
    ensures |r.defs| == |defs| && r.count == |r.bindings|
    ensures forall i :: 0 <= i < |defs| ==> r.defs[i].syntax == defs[i].syntax
    decreases |defs|
  {
    if defs == [] then Annotation([], [], 0)
    else
      var a := AnnotateAll(defs[..|defs| - 1]);
      var d := defs[|defs| - 1];
      var ann := Annotate(d.cpp, 0, a.count);
      Annotation(a.defs + [Definition(d.syntax, ann.text)], a.bindings + Entries(d.syntax, ann.typed), a.count + |ann.typed|)
  }

  /** The annotation loop of `parse_defmac_macros`. */
  method AnnotateDefinitions(defs: seq<Definition>) returns (annotated: seq<Definition>, bindings: seq<Binding>)
    ensures annotated == AnnotateAll(defs).defs && bindings == AnnotateAll(defs).bindings
    ensures forall i :: 0 <= i < |annotated| ==> FindTyped(annotated[i].cpp, 0).None?
  {
    annotated := [];
    bindings := [];
    var count := 0;
    for i := 0 to |defs|
      invariant AnnotateAll(defs[..i]) == Annotation(annotated, bindings, count)
      invariant forall j :: 0 <= j < |annotated| ==> FindTyped(annotated[j].cpp, 0).None?
    {
      assert defs[..i + 1][..i] == defs[..i];
      var text, entries, next := AnnotateTypes(defs[i].syntax, defs[i].cpp, count);
      annotated := annotated + [Definition(defs[i].syntax, text)];
      bindings := bindings + entries;
      count := next;
    }
    assert defs[..|defs|] == defs;
  }

  /** The entries under `key`, in order, moved under `newKey`: the copy of
      the `equal_range` into the member table. */
  function ReKeyed(bs: seq<Binding>, key: string, newKey: string): (r: seq<Binding>)
    ensures forall i :: 0 <= i < |r| ==> r[i].key == newKey
    ensures forall b :: b in r <==> b.key == newKey && Binding(key, b.typeName, b.token) in bs
    decreases |bs|
  {
    if bs == [] then []
    else
      var rest := ReKeyed(bs[1..], key, newKey);
      assert forall b :: b in bs <==> b == bs[0] || b in bs[1..];
      if bs[0].key == key then [bs[0].(key := newKey)] + rest else rest
  }

  /** The rules, the member-table entries and the local entries, as the
      compile loop builds them. */
  datatype Compiled = Compiled(rules: seq<Alias>, typeData: seq<Binding>, bindings: seq<Binding>)

  /** The rule a definition compiles to: the C++ text with its variables
      numbered, and the syntax compiled into a regex. */
  function RuleOf(d: Definition, rx: string): Alias
  {
    Alias(Renumber(d.cpp, Numbering(VarNames(d.syntax))), rx)
  }

  /** The regex each definition's syntax compiles to, in order. */
  function PatternsOf(defs: seq<Definition>): (pats: seq<Result<string>>)
    ensures |pats| == |defs|
  {
    seq(|defs|, j requires 0 <= j < |defs| => CompiledPattern(defs[j].syntax))
  }

  /** One turn of the compile loop, given the definition's compiled
      pattern: number the variables of the C++ text, retag the local
      entries, and copy the definition's entries under the numbered C++
      text; a pattern that failed to compile ends the program. */
  function CompileStep(d: Definition, pat: Result<string>, c: Compiled): Result<Compiled>
  {
    var names := VarNames(d.syntax);
    var numbered := Renumber(d.cpp, Numbering(names));
    var retagged := Retagged(c.bindings, d.syntax, names);
    match pat
    case Err(f) => Err(f)
    case Ok(rx) => Ok(Compiled(c.rules + [Alias(numbered, rx)], c.typeData + ReKeyed(retagged, d.syntax, numbered), retagged))
  }

  /** The compile loop from the `i`-th definition on. */
  function CompileFrom(defs: seq<Definition>, pats: seq<Result<string>>, i: nat, c: Compiled): Result<Compiled>
    requires i <= |defs| == |pats|
    decreases |defs| - i
  {
    if i == |defs| then Ok(c)
    else
      match CompileStep(defs[i], pats[i], c)
      case Err(f) => Err(f)
      case Ok(c') => CompileFrom(defs, pats, i + 1, c')
  }

  function CompileAll(defs: seq<Definition>, bindings: seq<Binding>): Result<Compiled>
  {
    CompileFrom(defs, PatternsOf(defs), 0, Compiled([], [], bindings))
  }

  /** One step fails exactly when its pattern failed, and otherwise appends
      the definition's rule. */
  lemma CompileStepRules(d: Definition, pat: Result<string>, c: Compiled)
    ensures CompileStep(d, pat, c).Ok? == pat.Ok?
    ensures pat.Ok? ==> CompileStep(d, pat, c).value.rules == c.rules + [RuleOf(d, pat.value)]
  {
  }

  /** The loop succeeds exactly when every remaining pattern compiled. */
  lemma {:induction false} CompileFromOk(defs: seq<Definition>, pats: seq<Result<string>>, i: nat, c: Compiled)
    requires i <= |defs| == |pats|
    ensures CompileFrom(defs, pats, i, c).Ok? <==> forall j :: i <= j < |defs| ==> pats[j].Ok?
    decreases |defs| - i
  {
    if i < |defs| {
      CompileStepRules(defs[i], pats[i], c);
      CompileFromStep(defs, pats, i, c);
      if pats[i].Ok? {
        CompileFromOk(defs, pats, i + 1, CompileStep(defs[i], pats[i], c).value);
      } else {
        assert !pats[i].Ok?;
      }
    }
  }

  /** The compile loop from `i` on is one step, then the loop from `i + 1`. */
  lemma CompileFromStep(defs: seq<Definition>, pats: seq<Result<string>>, i: nat, c: Compiled)
    requires i < |defs| == |pats|
    ensures CompileStep(defs[i], pats[i], c).Err? ==>
      CompileFrom(defs, pats, i, c) == Err(CompileStep(defs[i], pats[i], c).failure)
    ensures CompileStep(defs[i], pats[i], c).Ok? ==>
      CompileFrom(defs, pats, i, c) == CompileFrom(defs, pats, i + 1, CompileStep(defs[i], pats[i], c).value)
  {
  }

  /** A successful loop appends one rule per remaining definition, in order. */
  lemma {:induction false} CompileFromRules(defs: seq<Definition>, pats: seq<Result<string>>, i: nat, c: Compiled)
    requires i <= |defs| == |pats|
    requires CompileFrom(defs, pats, i, c).Ok?
    ensures var r := CompileFrom(defs, pats, i, c).value.rules;
      && |r| == |c.rules| + |defs| - i && r[..|c.rules|] == c.rules
      && forall j :: i <= j < |defs| ==> pats[j].Ok? && r[|c.rules| + j - i] == RuleOf(defs[j], pats[j].value)
    decreases |defs| - i
  {
    if i == |defs| {
      assert c.rules[..|c.rules|] == c.rules;
    } else {
      CompileStepRules(defs[i], pats[i], c);
      var c' := CompileStep(defs[i], pats[i], c).value;
      CompileFromRules(defs, pats, i + 1, c');
      var r := CompileFrom(defs, pats, i, c).value.rules;
      assert r == CompileFrom(defs, pats, i + 1, c').value.rules;
      assert r[..|c'.rules|] == c'.rules;
      assert r[..|c.rules|] == r[..|c'.rules|][..|c.rules|];
      forall j | i <= j < |defs|
        ensures pats[j].Ok? && r[|c.rules| + j - i] == RuleOf(defs[j], pats[j].value)
      {
        if j == i {
          assert r[|c.rules|] == c'.rules[|c.rules|];
        } else {
          assert |c.rules| + j - i == |c'.rules| + j - (i + 1);
        }
      }
    }
  }

  /** The `j`-th compiled pattern is the `j`-th definition's syntax compiled. */
  lemma PatternsOfElements(defs: seq<Definition>)
    ensures forall j :: 0 <= j < |defs| ==> PatternsOf(defs)[j] == CompiledPattern(defs[j].syntax)
  {
  }

  /** Compiling the definitions of a buffer fails exactly when one syntax
      fails to compile. */
  lemma CompileAllFails(defs: seq<Definition>, bindings: seq<Binding>)
    ensures CompileAll(defs, bindings).Err? <==> exists j :: 0 <= j < |defs| && CompiledPattern(defs[j].syntax).Err?
  {
    CompileFromOk(defs, PatternsOf(defs), 0, Compiled([], [], bindings));
    PatternsOfElements(defs);
  }

  /** The compile loop of `parse_defmac_macros`. */
  method CompileDefinitions(defs: seq<Definition>, bindings: seq<Binding>) returns (r: Result<Compiled>)
    ensures r == CompileAll(defs, bindings)
  {
    ghost var pats := PatternsOf(defs);
    var c := Compiled([], [], bindings);
    for i := 0 to |defs|
      invariant CompileFrom(defs, pats, i, c) == CompileAll(defs, bindings)
    {
      var d := defs[i];
      var numbered, retagged := NumberVariables(d.syntax, d.cpp, c.bindings);
      var esc := EscapeControlChars(d.syntax);
      var backtraced := CollapseBackrefs(esc);
      var compiled := Anchor(Wildcards(backtraced));
      assert compiled == pats[i];
      if compiled.Err? {
        return Err(compiled.failure);
      }
      c := Compiled(c.rules + [Alias(numbered, compiled.value)], c.typeData + ReKeyed(retagged, d.syntax, numbered), retagged);
    }
    return Ok(c);
  }

  /** The definitions of a buffer without include statements, annotated
      and compiled. */
  function CompiledDefinitions(rest: string): Result<Compiled>
  {
    var ann := AnnotateAll(DefinitionsIn(rest));
    CompileAll(ann.defs, ann.bindings)
  }

  /** The first rule whose regex `std::regex` refuses, from the `i`-th on. */
  function RefusedFrom(rules: seq<Alias>, i: nat): (k: Option<nat>)
    requires i <= |rules|
    ensures k.Some? ==> i <= k.value < |rules| && !Accepted(rules[k.value].rx)
    ensures k.Some? ==> forall j :: i <= j < k.value ==> Accepted(rules[j].rx)
    ensures k.None? ==> forall j :: i <= j < |rules| ==> Accepted(rules[j].rx)
    decreases |rules| - i
  {
    if i == |rules| then None
    else if !Accepted(rules[i].rx) then Some(i)
    else RefusedFrom(rules, i + 1)
  }

  /** The push loop of `parse_defmac_macros` builds one `std::regex` per
      compiled rule; the first one refused ends the program. */
  function Pushed(c: Result<Compiled>): (r: Result<Compiled>)
    ensures r.Ok? <==> c.Ok? && forall j :: 0 <= j < |c.value.rules| ==> Accepted(c.value.rules[j].rx)
    ensures r.Ok? ==> r == c
  {
    match c
    case Err(f) => Err(f)
    case Ok(c) =>
      match RefusedFrom(c.rules, 0)
      case Some(k) => Err(RegexError(c.rules[k].rx))
      case None => Ok(c)
  }

  /** Compiling and pushing the definitions of a buffer fails exactly when
      one syntax hits the six-byte failure or compiles to a regex that
      `std::regex` refuses. */
  lemma CompileAndPushFails(defs: seq<Definition>, bindings: seq<Binding>)
    ensures Pushed(CompileAll(defs, bindings)).Err? <==>
      exists j :: 0 <= j < |defs| &&
        (CompiledPattern(defs[j].syntax).Err? || !Accepted(CompiledPattern(defs[j].syntax).value))
  {
    PushedFromFails(defs, PatternsOf(defs), Compiled([], [], bindings));
    PatternsOfElements(defs);
  }

  /** `#defmac `$xy $x`...`: the syntax compiles, but `std::regex` refuses
      the regex it compiles to, so the definition ends the program. */
  lemma PrefixClashRefused(cpp: string, bindings: seq<Binding>)
    ensures Pushed(CompileAll([Definition("$xy $x", cpp)], bindings)) == Err(RegexError("((\\S)+) \\3"))
  {
    var defs := [Definition("$xy $x", cpp)];
    var pats := PatternsOf(defs);
    var c := Compiled([], [], bindings);
    PrefixClashExample();
    PatternsOfElements(defs);
    assert pats[0] == Ok("((\\S)+) \\3");
    CompileFromOk(defs, pats, 0, c);
    CompileFromRules(defs, pats, 0, c);
    var rules := CompileAll(defs, bindings).value.rules;
    assert rules[0].rx == "((\\S)+) \\3";
  }

  /** The same over any list of compiled patterns. */
  lemma PushedFromFails(defs: seq<Definition>, pats: seq<Result<string>>, c: Compiled)
    requires |defs| == |pats| && c.rules == []
    ensures Pushed(CompileFrom(defs, pats, 0, c)).Err? <==>
      exists j :: 0 <= j < |defs| && (pats[j].Err? || !Accepted(pats[j].value))
  {
    var cr := CompileFrom(defs, pats, 0, c);
    CompileFromOk(defs, pats, 0, c);
    if cr.Ok? {
      CompileFromRules(defs, pats, 0, c);
      RulesAccepted(cr.value.rules, pats);
    } else {
      var j :| 0 <= j < |defs| && !pats[j].Ok?;
      assert pats[j].Err?;
    }
  }

  lemma RulesAccepted(rules: seq<Alias>, pats: seq<Result<string>>)
    requires |rules| == |pats|
    requires forall j :: 0 <= j < |pats| ==> pats[j].Ok? && rules[j].rx == pats[j].value
    ensures (forall j :: 0 <= j < |rules| ==> Accepted(rules[j].rx)) <==>
      (forall j :: 0 <= j < |pats| ==> pats[j].Ok? && Accepted(pats[j].value))
  {
  }

  /** The second half of `parse_defmac_macros`: cut, annotate and compile
      the definitions. */
  method CompileBuffer(rest: string) returns (defRest: string, defRemoved: string, r: Result<Compiled>)
    ensures defRest == DrainDefinitions(rest).rest && defRemoved == DrainDefinitions(rest).removed
    ensures r == CompiledDefinitions(rest)
  {
    var defs;
    defRest, defRemoved, defs := CutDefinitions(rest);
    var annotated, bindings := AnnotateDefinitions(defs);
    r := CompileDefinitions(annotated, bindings);
  }

  // ---------------------------------------------------------------------
  // Parsing a buffer, with its included files

  /** The parts of the object a parse changes. */
  datatype Tables = Tables(syntax: seq<Alias>, typeData: seq<Binding>)

  /** What `parse_defmac_macros` leaves: the new tables, the buffer without
      its statements, and the statements it removed, each on its own line. */
  datatype Parse = Parse(tables: Tables, rest: string, removed: string)

  /** The outcome of `parse_defmac_macros` on `buffer` with the tables `t`
      and the files `files`: first every included file, in order, then the
      buffer's own definitions. An include nested deeper than `depth`
      counts as a failure. A parse only appends to the tables. */
  function Parsed(files: map<string, string>, depth: nat, t: Tables, buffer: string): (r: Result<Parse>)
    ensures r.Ok? ==> t.syntax <= r.value.tables.syntax && t.typeData <= r.value.tables.typeData
    decreases depth, 2
  {
    var inc := DrainIncludes(buffer);
    match IncludeAll(files, depth, t, IncludedFiles(buffer))
    case Err(f) => Err(f)
    case Ok(t') =>
      var defs := DrainDefinitions(inc.rest);
      match Pushed(CompiledDefinitions(inc.rest))
      case Err(f) => Err(f)
      case Ok(c) => Ok(Parse(Tables(t'.syntax + c.rules, t'.typeData + c.typeData), defs.rest, inc.removed + defs.removed))
  }

  /** The included files parsed one after another. */
  function IncludeAll(files: map<string, string>, depth: nat, t: Tables, names: seq<string>): (r: Result<Tables>)
    ensures r.Ok? ==> t.syntax <= r.value.syntax && t.typeData <= r.value.typeData
    decreases depth, 1, |names|
  {
    if names == [] then Ok(t)
    else
      match ParsedFile(files, depth, t, names[0])
      case Err(f) => Err(f)
      case Ok(t') => IncludeAll(files, depth, t', names[1..])
  }

  /** `parse_dmac_file`: an empty name does nothing; a file that cannot be
      opened ends the program. */
  function ParsedFile(files: map<string, string>, depth: nat, t: Tables, name: string): (r: Result<Tables>)
    ensures r.Ok? ==> t.syntax <= r.value.syntax && t.typeData <= r.value.typeData
    decreases depth, 0
  {
    if name == [] then Ok(t)
    else if name !in files then Err(MissingFile(name))
    else if depth == 0 then Err(IncludeTooDeep(name))
    else
      match Parsed(files, depth - 1, t, files[name])
      case Err(f) => Err(f)
      case Ok(p) => Ok(p.tables)
  }

  /** Parsing a file that exists, within the depth bound, is parsing its
      text one level deeper. */
  lemma ParsedFileOf(files: map<string, string>, depth: nat, t: Tables, name: string)
    requires name != [] && name in files && depth > 0
    ensures ParsedFile(files, depth, t, name).Ok? == Parsed(files, depth - 1, t, files[name]).Ok?
    ensures ParsedFile(files, depth, t, name).Ok? ==>
      ParsedFile(files, depth, t, name).value == Parsed(files, depth - 1, t, files[name]).value.tables
    ensures ParsedFile(files, depth, t, name).Err? ==>
      ParsedFile(files, depth, t, name).failure == Parsed(files, depth - 1, t, files[name]).failure
  {
  }

  /** The cases of `ParsedFile` that read no file. */
  lemma ParsedFileCases(files: map<string, string>, depth: nat, t: Tables, name: string)
    ensures name == [] ==> ParsedFile(files, depth, t, name) == Ok(t)
    ensures name != [] && name !in files ==> ParsedFile(files, depth, t, name) == Err(MissingFile(name))
    ensures name != [] && name in files && depth == 0 ==> ParsedFile(files, depth, t, name) == Err(IncludeTooDeep(name))
  {
  }

  /** The buffer a parse leaves holds no definition, and it keeps the length
      of the original buffer less the removed statements, whose newlines
      are counted in `removed`. */
  lemma ParsedRest(files: map<string, string>, depth: nat, t: Tables, buffer: string)
    requires Parsed(files, depth, t, buffer).Ok?
    ensures var p := Parsed(files, depth, t, buffer).value;
      && FindDefinition(p.rest).None?
      && |p.rest| + |p.removed| == |buffer| + |DrainIncludes(buffer).found| + |DrainDefinitions(DrainIncludes(buffer).rest).found|
  {
    DrainIncludesDone(buffer);
    DrainDefinitionsDone(DrainIncludes(buffer).rest);
  }

  /** One turn of a cut loop: the statement is cut out of the buffer, and
      the name it holds is the first still to be visited. */
  lemma CutStep(find: string -> Option<Match>, buffer: string)
    requires Cuts(find) && find(buffer).Some?
    ensures var m := find(buffer).value; var b := m.prefix + m.suffix;
      && |b| < |buffer|
      && Drain(find, buffer).rest == Drain(find, b).rest
      && Drain(find, buffer).removed == m.groups[0] + "\n" + Drain(find, b).removed
      && NamesOf(Drain(find, buffer).found) == [GroupOf(m.groups, 1)] + NamesOf(Drain(find, b).found)
  {
    var m := find(buffer).value;
    DrainStep(find, buffer);
    var d := Drain(find, m.prefix + m.suffix);
    assert ([m.groups] + d.found)[1..] == d.found;
  }

  /** The first included file is parsed first, and a failure there is
      the failure of the whole include loop. */
  lemma IncludeAllFirst(files: map<string, string>, depth: nat, t: Tables, name: string, names: seq<string>)
    ensures ParsedFile(files, depth, t, name).Err? ==>
      IncludeAll(files, depth, t, [name] + names) == Err(ParsedFile(files, depth, t, name).failure)
    ensures ParsedFile(files, depth, t, name).Ok? ==>
      IncludeAll(files, depth, t, [name] + names) == IncludeAll(files, depth, ParsedFile(files, depth, t, name).value, names)
  {
    assert ([name] + names)[0] == name && ([name] + names)[1..] == names;
  }

  /** One turn of the include loop: what `parse_dmac_file` reports for
      the first name, and the tables it leaves, decide the rest of the
      loop. */
  lemma IncludeStep(files: map<string, string>, depth: nat, t: Tables, name: string, pending: seq<string>, failed: Option<Failure>, t': Tables)
    requires name == [] ==> failed == None && t' == t
    requires name != [] && name !in files ==> failed == Some(MissingFile(name))
    requires name != [] && name in files && depth == 0 ==> failed == Some(IncludeTooDeep(name))
    requires name != [] && name in files && depth > 0 && Parsed(files, depth - 1, t, files[name]).Err? ==>
      failed == Some(Parsed(files, depth - 1, t, files[name]).failure)
    requires name != [] && name in files && depth > 0 && Parsed(files, depth - 1, t, files[name]).Ok? ==>
      failed == None && t' == Parsed(files, depth - 1, t, files[name]).value.tables
    ensures failed.Some? ==> IncludeAll(files, depth, t, [name] + pending) == Err(failed.value)
    ensures failed.None? ==> IncludeAll(files, depth, t, [name] + pending) == IncludeAll(files, depth, t', pending)
  {
    ParsedFileCases(files, depth, t, name);
    if name != [] && name in files && depth > 0 {
      ParsedFileOf(files, depth, t, name);
    }
    IncludeAllFirst(files, depth, t, name, pending);
  }

  /** `Parsed` in two steps: the includes, then the buffer's own definitions. */
  lemma ParsedUnfold(files: map<string, string>, depth: nat, t: Tables, buffer: string)
    ensures IncludeAll(files, depth, t, IncludedFiles(buffer)).Err? ==>
      Parsed(files, depth, t, buffer) == Err(IncludeAll(files, depth, t, IncludedFiles(buffer)).failure)
    ensures IncludeAll(files, depth, t, IncludedFiles(buffer)).Ok? ==>
      var t' := IncludeAll(files, depth, t, IncludedFiles(buffer)).value;
      var inc := DrainIncludes(buffer);
      var defs := DrainDefinitions(inc.rest);
      Parsed(files, depth, t, buffer) == match Pushed(CompiledDefinitions(inc.rest))
        case Err(f) => Err(f)
        case Ok(c) => Ok(Parse(Tables(t'.syntax + c.rules, t'.typeData + c.typeData), defs.rest, inc.removed + defs.removed))
  {
  }

  /** The statements a parse removes and the buffer it leaves. */
  datatype Extraction = Extraction(rest: string, removed: string)

  /** The text `map_buffer` returns: the removed statements inside a block
      comment, then the rewritten buffer. */
  function Commented(removed: string, rewritten: string): string
  {
    "/*\n" + removed + "*/\n" + rewritten
  }

  // ---------------------------------------------------------------------
  // Collapsing blank lines

  function NewlineEnd(s: string, i: nat): (e: nat)
    requires i <= |s|
    ensures i <= e <= |s| && (e < |s| ==> s[e] != '\n')
    ensures forall k :: i <= k < e ==> s[k] == '\n'
    decreases |s| - i
  {
    if i == |s| || s[i] != '\n' then i else NewlineEnd(s, i + 1)
  }

  /** `regex_replace(s, regex("\n{3,}"), "\n\n")`: every run of three or
      more newlines becomes two; shorter runs stay. */
  function CollapseNewlines(s: string): string
    decreases |s|
  {
    if s == [] then []
    else if s[0] == '\n' then
      var e := NewlineEnd(s, 0);
      (if e >= 3 then "\n\n" else s[..e]) + CollapseNewlines(s[e..])
    else [s[0]] + CollapseNewlines(s[1..])
  }

  /** No three newlines in a row. */
  predicate NoTripleNewline(s: string) {
    forall i :: 0 <= i && i + 2 < |s| ==> !(s[i] == '\n' && s[i + 1] == '\n' && s[i + 2] == '\n')
  }

  lemma CollapseStartsAsBefore(s: string)
    requires s != [] && s[0] != '\n'
    ensures CollapseNewlines(s) != [] && CollapseNewlines(s)[0] == s[0]
  {
  }

  lemma JoinAfterChar(c: char, b: string)
    requires c != '\n' && NoTripleNewline(b)
    ensures NoTripleNewline([c] + b)
  {
    var s := [c] + b;
    forall i | 0 <= i && i + 2 < |s|
      ensures !(s[i] == '\n' && s[i + 1] == '\n' && s[i + 2] == '\n')
    {
      if i > 0 {
        assert s[i] == b[i - 1] && s[i + 1] == b[i] && s[i + 2] == b[i + 1];
      }
    }
  }

  lemma JoinAfterRun(a: string, b: string)
    requires |a| <= 2 && NoTripleNewline(b) && (b == [] || b[0] != '\n')
    ensures NoTripleNewline(a + b)
  {
    var s := a + b;
    forall i | 0 <= i && i + 2 < |s|
      ensures !(s[i] == '\n' && s[i + 1] == '\n' && s[i + 2] == '\n')
    {
      if i >= |a| {
        assert s[i] == b[i - |a|] && s[i + 1] == b[i - |a| + 1] && s[i + 2] == b[i - |a| + 2];
      } else {
        assert s[|a|] == b[0];
      }
    }
  }

  /** After the collapse no three newlines follow each other. */
  lemma {:induction false} CollapseLeavesNoTriple(s: string)
    ensures NoTripleNewline(CollapseNewlines(s))
    decreases |s|
  {
    if s != [] {
      if s[0] == '\n' {
        var e := NewlineEnd(s, 0);
        CollapseLeavesNoTriple(s[e..]);
        if s[e..] != [] {
          CollapseStartsAsBefore(s[e..]);
        }
        JoinAfterRun(if e >= 3 then "\n\n" else s[..e], CollapseNewlines(s[e..]));
      } else {
        CollapseLeavesNoTriple(s[1..]);
        JoinAfterChar(s[0], CollapseNewlines(s[1..]));
      }
    }
  }

  /** In text without three newlines in a row, a leading run of newlines
      is shorter than three. */
  lemma ShortLeadingRun(s: string)
    requires NoTripleNewline(s) && s != [] && s[0] == '\n'
    ensures NewlineEnd(s, 0) < 3
  {
    assert 2 < |s| ==> !(s[0] == '\n' && s[1] == '\n' && s[2] == '\n');
  }

  /** Text without three newlines in a row is left as it is. */
  lemma {:induction false} CollapseKeepsShortRuns(s: string)
    requires NoTripleNewline(s)
    ensures CollapseNewlines(s) == s
    decreases |s|
  {
    if s != [] {
      if s[0] == '\n' {
        var e := NewlineEnd(s, 0);
        ShortLeadingRun(s);
        assert NoTripleNewline(s[e..]) by {
          forall i | 0 <= i && i + 2 < |s[e..]|
            ensures !(s[e..][i] == '\n' && s[e..][i + 1] == '\n' && s[e..][i + 2] == '\n')
          {
            assert s[e..][i] == s[e + i] && s[e..][i + 1] == s[e + i + 1] && s[e..][i + 2] == s[e + i + 2];
          }
        }
        CollapseKeepsShortRuns(s[e..]);
        assert s[..e] + s[e..] == s;
      } else {
        assert NoTripleNewline(s[1..]) by {
          forall i | 0 <= i && i + 2 < |s[1..]|
            ensures !(s[1..][i] == '\n' && s[1..][i + 1] == '\n' && s[1..][i + 2] == '\n')
          {
            assert s[1..][i] == s[i + 1] && s[1..][i + 1] == s[i + 2] && s[1..][i + 2] == s[i + 3];
          }
        }
        CollapseKeepsShortRuns(s[1..]);
      }
    }
  }

  /** Collapsing twice is collapsing once. */
  lemma CollapseIdempotent(s: string)
    ensures CollapseNewlines(CollapseNewlines(s)) == CollapseNewlines(s)
  {
    CollapseLeavesNoTriple(s);
    CollapseKeepsShortRuns(CollapseNewlines(s));
  }

  /** `merge_container_strings`: the strings of the container, concatenated
      in order. */
  method MergeContainerStrings(strs: seq<string>) returns (acc: string)
    ensures acc == Concat(strs) && |acc| == TotalLength(strs)
  {
    acc := "";
    for i := 0 to |strs|
      invariant acc == Concat(strs[..i])
    {
      assert strs[..i + 1][..i] == strs[..i];
      acc := acc + strs[i];
    }
    assert strs[..|strs|] == strs;
    ConcatLength(strs);
  }

  /** The file `map_file` writes to: the one it read when no other is named. */
  function WriteTarget(readName: string, writeName: string): string
  {
    if writeName == [] then readName else writeName
  }

  // ---------------------------------------------------------------------
  // The object

  class Script {
    /** `script_syntax`: the rules, applied in this order. */
    var syntax: seq<Alias>
    /** `file_prefixes`: texts put in front of every mapped file. */
    var prefixes: seq<string>
    /** `formatted_prefixed_token_data`: the type bindings, keyed by the
        numbered C++ text of their rule. */
    var typeData: seq<Binding>

    function State(): Tables
      reads this
    {
      Tables(syntax, typeData)
    }

    constructor ()
      ensures syntax == [] && prefixes == [] && typeData == []
    {
      syntax := [];
      prefixes := [];
      typeData := [];
    }

    /** A script built from a ready rule table and a prefix list. */
    constructor WithSyntax(customSyntax: seq<Alias>, filePrefixes: seq<string>)
      ensures syntax == customSyntax && prefixes == filePrefixes && typeData == []
    {
      syntax := customSyntax;
      prefixes := filePrefixes;
      typeData := [];
    }

    /** A script built from a prefix list only. */
    constructor WithPrefixes(filePrefixes: seq<string>)
      ensures syntax == [] && prefixes == filePrefixes && typeData == []
    {
      syntax := [];
      prefixes := filePrefixes;
      typeData := [];
    }

    /** `push_alias`, in both forms: the rule goes to the end of the table. */
    method PushAlias(cppKey: string, rx: string)
      modifies this
      ensures syntax == old(syntax) + [Alias(cppKey, rx)]
      ensures prefixes == old(prefixes) && typeData == old(typeData)
    {
      syntax := syntax + [Alias(cppKey, rx)];
    }

    method PushPrefix(prefix: string)
      modifies this
      ensures prefixes == old(prefixes) + [prefix]
      ensures syntax == old(syntax) && typeData == old(typeData)
    {
      prefixes := prefixes + [prefix];
    }

    /** `pop_cpp_alias`: erase the first rule whose C++ text is `cppKey`,
        and say whether there was one. */
    method PopCppAlias(cppKey: string) returns (found: bool)
      modifies this
      ensures found <==> FirstAliasFor(old(syntax), cppKey).Some?
      ensures found ==> syntax == RemoveAt(old(syntax), FirstAliasFor(old(syntax), cppKey).value)
      ensures !found ==> syntax == old(syntax)
      ensures prefixes == old(prefixes) && typeData == old(typeData)
    {
      var i := 0;
      while i < |syntax|
        invariant 0 <= i <= |syntax| && syntax == old(syntax)
        invariant forall j :: 0 <= j < i ==> syntax[j].cpp != cppKey
      {
        if syntax[i].cpp == cppKey {
          syntax := RemoveAt(syntax, i);
          return true;
        }
        i := i + 1;
      }
      return false;
    }

    /** `pop_prefix`: erase the first prefix equal to `prefix`. */
    method PopPrefix(prefix: string) returns (found: bool)
      modifies this
      ensures found <==> prefix in old(prefixes)
      ensures found ==> prefixes == RemoveAt(old(prefixes), FirstIndexOf(old(prefixes), prefix).value)
      ensures !found ==> prefixes == old(prefixes)
      ensures syntax == old(syntax) && typeData == old(typeData)
    {
      var i := 0;
      while i < |prefixes|
        invariant 0 <= i <= |prefixes| && prefixes == old(prefixes)
        invariant forall j :: 0 <= j < i ==> prefixes[j] != prefix
      {
        if prefixes[i] == prefix {
          assert FirstIndexOf(prefixes, prefix) == Some(i);
          prefixes := RemoveAt(prefixes, i);
          return true;
        }
        i := i + 1;
      }
      return false;
    }

    method ClearAlias()
      modifies this
      ensures syntax == [] && prefixes == old(prefixes) && typeData == old(typeData)
    {
      syntax := [];
    }

    method ClearPrefix()
      modifies this
      ensures prefixes == [] && syntax == old(syntax) && typeData == old(typeData)
    {
      prefixes := [];
    }

    /** `clear`: both lists, but not the type bindings. */
    method Clear()
      modifies this
      ensures syntax == [] && prefixes == [] && typeData == old(typeData)
    {
      syntax := [];
      prefixes := [];
    }

    method AliasSize() returns (n: nat)
      ensures n == |syntax|
    {
      n := |syntax|;
    }

    method PrefixSize() returns (n: nat)
      ensures n == |prefixes|
    {
      n := |prefixes|;
    }

    /** `syntax()`: a copy of the rule table. */
    method Syntax() returns (r: seq<Alias>)
      ensures r == syntax
    {
      r := syntax;
    }

    /** `prefix()`: a copy of the prefix list. */
    method Prefix() returns (r: seq<string>)
      ensures r == prefixes
    {
      r := prefixes;
    }

    /** `parse_dmac_file`: parse the definitions of the named file into the
        tables. */
    method ParseDmacFile(files: map<string, string>, depth: nat, name: string) returns (failed: Option<Failure>)
      modifies this
      ensures prefixes == old(prefixes)
      ensures name == [] ==> failed == None && State() == old(State())
      ensures name != [] && name !in files ==> failed == Some(MissingFile(name))
      ensures name != [] && name in files && depth == 0 ==> failed == Some(IncludeTooDeep(name))
      ensures name != [] && name in files && depth > 0 && Parsed(files, depth - 1, old(State()), files[name]).Err? ==>
        failed == Some(Parsed(files, depth - 1, old(State()), files[name]).failure)
      ensures name != [] && name in files && depth > 0 && Parsed(files, depth - 1, old(State()), files[name]).Ok? ==>
        failed == None && State() == Parsed(files, depth - 1, old(State()), files[name]).value.tables
      decreases depth, 0
    {
      if name == [] {
        return None;
      }
      if name !in files {
        return Some(MissingFile(name));
      }
      if depth == 0 {
        return Some(IncludeTooDeep(name));
      }
      var r := ParseDefmacMacros(files, depth - 1, files[name]);
      failed := if r.Err? then Some(r.failure) else None;
    }

    /** The include loop of `parse_defmac_macros`, over the include search
        `find`: cut each include statement out of the buffer, append it,
        with a newline, to the removed text, and parse the file it names
        into the tables. The first file that fails ends the loop. */
    method ParseIncludes(find: string -> Option<Match>, files: map<string, string>, depth: nat, buffer: string)
      returns (rest: string, removed: string, failed: Option<Failure>)
      requires Cuts(find)
      modifies this
      ensures prefixes == old(prefixes)
      ensures IncludeAll(files, depth, old(State()), NamesOf(Drain(find, buffer).found)).Err? ==>
        failed == Some(IncludeAll(files, depth, old(State()), NamesOf(Drain(find, buffer).found)).failure)
      ensures IncludeAll(files, depth, old(State()), NamesOf(Drain(find, buffer).found)).Ok? ==>
        && failed == None && State() == IncludeAll(files, depth, old(State()), NamesOf(Drain(find, buffer).found)).value
        && rest == Drain(find, buffer).rest && removed == Drain(find, buffer).removed
      decreases depth, 1
    {
      ghost var target := IncludeAll(files, depth, State(), NamesOf(Drain(find, buffer).found));
      rest := buffer;
      removed := "";
      while find(rest).Some?
        invariant prefixes == old(prefixes)
        invariant Drain(find, buffer).rest == Drain(find, rest).rest
        invariant Drain(find, buffer).removed == removed + Drain(find, rest).removed
        invariant IncludeAll(files, depth, State(), NamesOf(Drain(find, rest).found)) == target
        decreases |rest|
      {
        var m := find(rest).value;
        CutStep(find, rest);
        ghost var pending := NamesOf(Drain(find, m.prefix + m.suffix).found);
        ghost var t := State();
        rest := m.prefix + m.suffix;
        removed := removed + (m.groups[0] + "\n");
        failed := ParseDmacFile(files, depth, GroupOf(m.groups, 1));
        IncludeStep(files, depth, t, GroupOf(m.groups, 1), pending, failed, State());
        if failed.Some? {
          return;
        }
      }
      DrainNothing(find, rest);
      failed := None;
    }

    /** `parse_defmac_macros`: parse the included files, then cut the
        definitions out, annotate and compile them, and append them to the
        tables. */
    method ParseDefmacMacros(files: map<string, string>, depth: nat, buffer: string) returns (r: Result<Extraction>)
      modifies this
      ensures prefixes == old(prefixes)
      ensures Parsed(files, depth, old(State()), buffer).Err? ==> r == Err(Parsed(files, depth, old(State()), buffer).failure)
      ensures Parsed(files, depth, old(State()), buffer).Ok? ==>
        var p := Parsed(files, depth, old(State()), buffer).value;
        r == Ok(Extraction(p.rest, p.removed)) && State() == p.tables
      decreases depth, 2
    {
      ghost var t0 := State();
      FindIncludeCuts();
      var rest, removed, failed := ParseIncludes(FindInclude, files, depth, buffer);
      ParsedUnfold(files, depth, t0, buffer);
      if failed.Some? {
        return Err(failed.value);
      }
      var defRest, defRemoved, pushed := CompileAndPush(rest);
      if pushed.Some? {
        return Err(pushed.value);
      }
      return Ok(Extraction(defRest, removed + defRemoved));
    }

    /** The second half of `parse_defmac_macros`: compile the definitions
        left in `rest`, then append their entries and rules to the tables. */
    method CompileAndPush(rest: string) returns (defRest: string, defRemoved: string, failed: Option<Failure>)
      modifies this
      ensures defRest == DrainDefinitions(rest).rest && defRemoved == DrainDefinitions(rest).removed
      ensures prefixes == old(prefixes)
      ensures Pushed(CompiledDefinitions(rest)).Err? ==> failed == Some(Pushed(CompiledDefinitions(rest)).failure)
      ensures Pushed(CompiledDefinitions(rest)).Ok? ==>
        var c := Pushed(CompiledDefinitions(rest)).value;
        failed.None? && State() == Tables(old(syntax) + c.rules, old(typeData) + c.typeData)
    {
      var compiled;
      defRest, defRemoved, compiled := CompileBuffer(rest);
      if compiled.Err? {
        return defRest, defRemoved, Some(compiled.failure);
      }
      typeData := typeData + compiled.value.typeData;
      var refused := PushRules(compiled.value.rules);
      if refused.Some? {
        return defRest, defRemoved, Some(RegexError(refused.value));
      }
      failed := None;
    }

    /** Appends the compiled rules to the rule table in order, building a
        `std::regex` for each; stops at the first regex refused and returns
        its text. */
    method PushRules(rules: seq<Alias>) returns (refused: Option<string>)
      modifies this
      ensures RefusedFrom(rules, 0).None? ==> refused.None? && syntax == old(syntax) + rules
      ensures RefusedFrom(rules, 0).Some? ==>
        var k := RefusedFrom(rules, 0).value;
        refused == Some(rules[k].rx) && syntax == old(syntax) + rules[..k]
      ensures prefixes == old(prefixes) && typeData == old(typeData)
    {
      for i := 0 to |rules|
        invariant syntax == old(syntax) + rules[..i]
        invariant RefusedFrom(rules, 0) == RefusedFrom(rules, i)
        invariant prefixes == old(prefixes) && typeData == old(typeData)
      {
        if !Accepted(rules[i].rx) {
          return Some(rules[i].rx);
        }
        assert rules[..i + 1] == rules[..i] + [rules[i]];
        syntax := syntax + [rules[i]];
      }
      assert rules[..|rules|] == rules;
      return None;
    }

    /** `map_buffer`: parse the buffer's statements into the tables, then
        run every rule over what is left, and return the removed statements
        in a comment followed by the rewritten buffer. */
    method MapBuffer(search: Searcher, files: map<string, string>, depth: nat, fuel: nat, buffer: string) returns (r: Result<string>)
      modifies this
      ensures prefixes == old(prefixes)
      ensures Parsed(files, depth, old(State()), buffer).Err? ==> r == Err(Parsed(files, depth, old(State()), buffer).failure)
      ensures Parsed(files, depth, old(State()), buffer).Ok? ==>
        var p := Parsed(files, depth, old(State()), buffer).value;
        var out := ApplyRules(search, p.tables.syntax, p.tables.typeData, p.rest, fuel);
        && State() == p.tables
        && (out.Err? ==> r == Err(out.failure))
        && (out.Ok? ==> r == Ok(Commented(p.removed, out.value)))
    {
      var parsed := ParseDefmacMacros(files, depth, buffer);
      if parsed.Err? {
        return Err(parsed.failure);
      }
      var out := RunRules(search, syntax, typeData, parsed.value.rest, fuel);
      if out.Err? {
        return Err(out.failure);
      }
      return Ok(Commented(parsed.value.removed, out.value));
    }

    /** `map_file`: map the contents of the file `readName`, put the
        prefixes in front, collapse runs of blank lines, and return the
        name of the file to write with the text to write to it. */
    method MapFile(search: Searcher, files: map<string, string>, depth: nat, fuel: nat, readName: string, writeName: string)
      returns (r: Result<(string, string)>)
      modifies this
      ensures prefixes == old(prefixes)
      ensures readName !in files ==> r == Err(MissingFile(readName)) && State() == old(State())
      ensures r.Ok? ==> NoTripleNewline(r.value.1)
      ensures readName in files && Parsed(files, depth, old(State()), files[readName]).Err? ==>
        r == Err(Parsed(files, depth, old(State()), files[readName]).failure)
      ensures readName in files && Parsed(files, depth, old(State()), files[readName]).Ok? ==>
        var p := Parsed(files, depth, old(State()), files[readName]).value;
        var out := ApplyRules(search, p.tables.syntax, p.tables.typeData, p.rest, fuel);
        && State() == p.tables
        && (out.Err? ==> r == Err(out.failure))
        && (out.Ok? ==> r == Ok((WriteTarget(readName, writeName), CollapseNewlines(Concat(prefixes) + Commented(p.removed, out.value)))))
    {
      if readName !in files {
        return Err(MissingFile(readName));
      }
      var converted := MapBuffer(search, files, depth, fuel, files[readName]);
      if converted.Err? {
        return Err(converted.failure);
      }
      var merged := MergeContainerStrings(prefixes);
      var written := CollapseNewlines(merged + converted.value);
      CollapseLeavesNoTriple(merged + converted.value);
      return Ok((WriteTarget(readName, writeName), written));
    }
  }
}
