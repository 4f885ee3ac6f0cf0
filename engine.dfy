/** The rewrite engine of `map_buffer` (defmac.cpp:363-422): every rule of
    the table, in order, rewrites the buffer until its regex no longer
    matches; each match is replaced by the rule's C++ text with the match's
    groups spliced into its `\vN` placeholders. */
module Engine {
  import opened Base
  import opened Text
  import opened RegexShape
  import opened Templates
  import opened Distribution

  /** An entry of the rule table `script_syntax`: the C++ text with its
      `\vN` placeholders, and the source text of the regex it replaces. */
  datatype Alias = Alias(cpp: string, rx: string)

  // ---------------------------------------------------------------------
  // Placeholder numbers

  /** The numbers of the placeholders `\v<digits>` of a C++ text, as the
      regex `(\\v[\d]+)` finds them from left to right. */
  function PlaceholderNumbers(s: string): seq<nat>
    decreases |s|
  {
    if |s| >= 3 && s[0] == '\\' && s[1] == 'v' && IsDigit(s[2]) then
      var e := DigitEnd(s, 2);
      assert forall k :: 0 <= k < e - 2 ==> s[2..e][k] == s[k + 2];
      [DigitsValue(s[2..e])] + PlaceholderNumbers(s[e..])
    else if s == [] then []
    else PlaceholderNumbers(s[1..])
  }

  predicate Increasing(xs: seq<nat>) {
    forall i, j :: 0 <= i < j < |xs| ==> xs[i] < xs[j]
  }

  /** `std::set<int>::insert`, the set kept as an increasing list. */
  function Insert(xs: seq<nat>, n: nat): (r: seq<nat>)
    requires Increasing(xs)
    ensures Increasing(r)
    ensures forall m :: m in r <==> m in xs || m == n
    decreases |xs|
  {
    if xs == [] then [n]
    else if n < xs[0] then [n] + xs
    else if n == xs[0] then xs
    else
      var rest := Insert(xs[1..], n);
      HeadBelowTail(xs);
      IncreasingCons(xs[0], rest);
      assert xs == [xs[0]] + xs[1..];
      [xs[0]] + rest
  }

  /** In an increasing list, every later element exceeds the first. */
  lemma HeadBelowTail(xs: seq<nat>)
    requires Increasing(xs) && xs != []
    ensures forall m :: m in xs[1..] ==> m > xs[0]
  {
    forall m | m in xs[1..]
      ensures m > xs[0]
    {
      var k :| 0 <= k < |xs| - 1 && xs[1..][k] == m;
      assert xs[k + 1] == m;
    }
  }

  /** A number below every element of an increasing list can go in front. */
  lemma IncreasingCons(x: nat, rest: seq<nat>)
    requires Increasing(rest) && forall m :: m in rest ==> m > x
    ensures Increasing([x] + rest)
  {
    var r := [x] + rest;
    forall i, j | 0 <= i < j < |r|
      ensures r[i] < r[j]
    {
      assert r[j] == rest[j - 1];
      if i > 0 {
        assert r[i] == rest[i - 1];
      } else {
        assert rest[j - 1] in rest;
      }
    }
  }

  /** The set of numbers inserted one after another. */
  function InsertAll(nums: seq<nat>): (r: seq<nat>)
    ensures Increasing(r)
    ensures forall m :: m in r <==> m in nums
    decreases |nums|
  {
    if nums == [] then []
    else
      var k := |nums| - 1;
      assert forall m :: m in nums <==> m in nums[..k] || m == nums[k];
      Insert(InsertAll(nums[..k]), nums[k])
  }

  /** The loop that fills `var_token_match_idx_set`: the placeholder
      numbers of the C++ text, each once, in increasing order. */
  method PlaceholderSet(key: string) returns (idxs: seq<nat>)
    ensures Increasing(idxs)
    ensures forall n :: n in idxs <==> n in PlaceholderNumbers(key)
    ensures idxs == InsertAll(PlaceholderNumbers(key))
  {
    var nums := PlaceholderNumbers(key);
    idxs := [];
    for i := 0 to |nums|
      invariant idxs == InsertAll(nums[..i])
    {
      assert nums[..i + 1][..i] == nums[..i];
      idxs := Insert(idxs, nums[i]);
    }
    assert nums[..|nums|] == nums;
  }

  // ---------------------------------------------------------------------
  // Expansion

  /** The text spliced in for placeholder `\vn`: group `n` of the match,
      with the type of the first binding under `key` for `\vn`
      distributed over its identifiers. */
  function Substitution(key: string, typeData: seq<Binding>, m: Match, n: nat): string
  {
    var capture := m.Group(n);
    match FirstBinding(typeData, key, Placeholder(n))
    case None => capture
    case Some(i) => Distribute(typeData[i].typeName, capture)
  }

  /** The C++ text after substituting the placeholders `idxs` in order:
      each substitution replaces every `\vn`, including the front of a
      longer `\vnm`. */
  function SubstituteAll(key: string, typeData: seq<Binding>, m: Match, idxs: seq<nat>): string
    decreases |idxs|
  {
    if idxs == [] then key
    else
      var k := |idxs| - 1;
      ReplaceAll(SubstituteAll(key, typeData, m, idxs[..k]), Placeholder(idxs[k]), Substitution(key, typeData, m, idxs[k]))
  }

  /** The body of the rewrite loop for one match: for each placeholder
      number, look up its binding, distribute the type over the capture if
      there is one, and substitute the capture. */
  method ExpandMatch(key: string, typeData: seq<Binding>, m: Match, idxs: seq<nat>) returns (mapped: string)
    ensures mapped == SubstituteAll(key, typeData, m, idxs)
  {
    mapped := key;
    for j := 0 to |idxs|
      invariant mapped == SubstituteAll(key, typeData, m, idxs[..j])
    {
      var n := idxs[j];
      var currentVal := Placeholder(n);
      var instance := m.Group(n);
      var found := FindBinding(typeData, key, currentVal);
      if found.Some? {
        instance := DistributeType(typeData[found.value].typeName, instance);
      }
      assert idxs[..j + 1][..j] == idxs[..j];
      mapped := ReplaceAll(mapped, currentVal, instance);
    }
    assert idxs[..|idxs|] == idxs;
  }

  /** The substitution of `\vn` also rewrites the front of `\vn` followed
      by a digit: placeholders are replaced without a boundary check. */
  lemma PlaceholderPrefixClash(n: nat, d: char, x: string)
    requires IsDigit(d)
    ensures ReplaceAll(Placeholder(n) + [d], Placeholder(n), x) == x + [d]
  {
    var p := Placeholder(n);
    var s := p + [d];
    assert s[..|p|] == p;
    assert s[|p|..] == [d];
    assert !StartsWith([d], p);
    assert ReplaceAll([d], p, x) == [d] + ReplaceAll([], p, x);
    assert ReplaceAll(s, p, x) == x + ReplaceAll([d], p, x);
  }

  // ---------------------------------------------------------------------
  // Rules

  /** The rewrite loop of one rule: while the search finds a match, the
      buffer becomes the text before it, the expansion, and the text after
      it. `fuel` bounds the number of rewrites: the loop of the program
      need not end, since an expansion can match again. */
  function ApplyRule(search: Searcher, rule: Alias, typeData: seq<Binding>, idxs: seq<nat>, buffer: string, fuel: nat): Result<string>
    decreases fuel
  {
    match search(rule.rx, buffer)
    case None => Ok(buffer)
    case Some(m) =>
      if fuel == 0 then Err(NoFixpoint(rule.cpp))
      else ApplyRule(search, rule, typeData, idxs, m.prefix + SubstituteAll(rule.cpp, typeData, m, idxs) + m.suffix, fuel - 1)
  }

  /** One turn of a rule's loop: the match is replaced by the expanded C++
      text, and one step of fuel is spent. */
  lemma ApplyRuleStep(search: Searcher, rule: Alias, typeData: seq<Binding>, idxs: seq<nat>, buffer: string, fuel: nat, m: Match)
    requires search(rule.rx, buffer) == Some(m) && fuel > 0
    ensures ApplyRule(search, rule, typeData, idxs, buffer, fuel)
      == ApplyRule(search, rule, typeData, idxs, m.prefix + SubstituteAll(rule.cpp, typeData, m, idxs) + m.suffix, fuel - 1)
  {
  }

  /** A rule's loop ends only where its regex no longer matches. */
  lemma {:induction false} ApplyRuleSettles(search: Searcher, rule: Alias, typeData: seq<Binding>, idxs: seq<nat>, buffer: string, fuel: nat)
    requires ApplyRule(search, rule, typeData, idxs, buffer, fuel).Ok?
    ensures search(rule.rx, ApplyRule(search, rule, typeData, idxs, buffer, fuel).value).None?
    decreases fuel
  {
    match search(rule.rx, buffer)
    case None =>
    case Some(m) =>
      ApplyRuleSettles(search, rule, typeData, idxs, m.prefix + SubstituteAll(rule.cpp, typeData, m, idxs) + m.suffix, fuel - 1);
  }

  /** For a rule whose regex is a generated shape, and a search that agrees
      with the shape's matching, no part of the rewritten buffer matches. */
  lemma ApplyRuleNoMatchLeft(search: Searcher, rule: Alias, typeData: seq<Binding>, idxs: seq<nat>, buffer: string, fuel: nat)
    requires Sound(search) && Parse(rule.rx).Some? && WellFormed(Parse(rule.rx).value)
    requires ApplyRule(search, rule, typeData, idxs, buffer, fuel).Ok?
    ensures var out := ApplyRule(search, rule, typeData, idxs, buffer, fuel).value;
      forall i, j, gs :: 0 <= i <= j <= |out| ==> !Matches(Parse(rule.rx).value, out[i..j], gs)
  {
    var out := ApplyRule(search, rule, typeData, idxs, buffer, fuel).value;
    ApplyRuleSettles(search, rule, typeData, idxs, buffer, fuel);
    assert ShapeSearch(Parse(rule.rx).value, out, search(rule.rx, out));
  }

  /** Each rule of the table in order, each run to its own end. */
  function ApplyRules(search: Searcher, rules: seq<Alias>, typeData: seq<Binding>, buffer: string, fuel: nat): Result<string>
    decreases |rules|
  {
    if rules == [] then Ok(buffer)
    else
      match ApplyRule(search, rules[0], typeData, InsertAll(PlaceholderNumbers(rules[0].cpp)), buffer, fuel)
      case Err(f) => Err(f)
      case Ok(b) => ApplyRules(search, rules[1..], typeData, b, fuel)
  }

  /** After the whole table has run, the last rule's regex no longer
      matches; earlier rules are not run again, so theirs may. */
  lemma {:induction false} ApplyRulesLastSettles(search: Searcher, rules: seq<Alias>, typeData: seq<Binding>, buffer: string, fuel: nat)
    requires rules != [] && ApplyRules(search, rules, typeData, buffer, fuel).Ok?
    ensures search(rules[|rules| - 1].rx, ApplyRules(search, rules, typeData, buffer, fuel).value).None?
    decreases |rules|
  {
    var idxs := InsertAll(PlaceholderNumbers(rules[0].cpp));
    var b := ApplyRule(search, rules[0], typeData, idxs, buffer, fuel).value;
    if |rules| == 1 {
      ApplyRuleSettles(search, rules[0], typeData, idxs, buffer, fuel);
      assert ApplyRules(search, rules[1..], typeData, b, fuel) == Ok(b);
    } else {
      ApplyRulesLastSettles(search, rules[1..], typeData, b, fuel);
      assert rules[1..][|rules[1..]| - 1] == rules[|rules| - 1];
    }
  }

  lemma ApplyRulesStep(search: Searcher, rules: seq<Alias>, typeData: seq<Binding>, i: nat, buffer: string, fuel: nat)
    requires i < |rules|
    ensures ApplyRules(search, rules[i..], typeData, buffer, fuel)
      == match ApplyRule(search, rules[i], typeData, InsertAll(PlaceholderNumbers(rules[i].cpp)), buffer, fuel)
         case Err(f) => Err(f)
         case Ok(b) => ApplyRules(search, rules[i + 1..], typeData, b, fuel)
  {
    assert rules[i..][0] == rules[i];
    assert rules[i..][1..] == rules[i + 1..];
  }

  /** The rewrite loop of one rule, as the program runs it: collect the
      placeholder numbers of the C++ text once, then rewrite until the
      regex no longer matches. */
  method RunRule(search: Searcher, rule: Alias, typeData: seq<Binding>, buffer: string, fuel: nat) returns (r: Result<string>)
    ensures r == ApplyRule(search, rule, typeData, InsertAll(PlaceholderNumbers(rule.cpp)), buffer, fuel)
  {
    var idxs := PlaceholderSet(rule.cpp);
    r := Rewrite(search, rule, typeData, idxs, buffer, fuel);
  }

  /** The loop of `RunRule`: while the regex matches, replace the match by
      the expanded C++ text. */
  method Rewrite(search: Searcher, rule: Alias, typeData: seq<Binding>, idxs: seq<nat>, buffer: string, fuel: nat) returns (r: Result<string>)
    ensures r == ApplyRule(search, rule, typeData, idxs, buffer, fuel)
  {
    var current := buffer;
    var steps := fuel;
    while true
      invariant ApplyRule(search, rule, typeData, idxs, current, steps) == ApplyRule(search, rule, typeData, idxs, buffer, fuel)
      decreases steps
    {
      var found := search(rule.rx, current);
      if found.None? {
        return Ok(current);
      }
      if steps == 0 {
        return Err(NoFixpoint(rule.cpp));
      }
      var m := found.value;
      var mapped := ExpandMatch(rule.cpp, typeData, m, idxs);
      ApplyRuleStep(search, rule, typeData, idxs, current, steps, m);
      current := m.prefix + mapped + m.suffix;
      steps := steps - 1;
    }
  }

  /** The loop over the rule table, in order. */
  method RunRules(search: Searcher, rules: seq<Alias>, typeData: seq<Binding>, buffer: string, fuel: nat) returns (r: Result<string>)
    ensures r == ApplyRules(search, rules, typeData, buffer, fuel)
  {
    var current := buffer;
    for i := 0 to |rules|
      invariant ApplyRules(search, rules[i..], typeData, current, fuel) == ApplyRules(search, rules, typeData, buffer, fuel)
    {
      ApplyRulesStep(search, rules, typeData, i, current, fuel);
      var step := RunRule(search, rules[i], typeData, current, fuel);
      if step.Err? {
        return Err(step.failure);
      }
      current := step.value;
    }
    assert rules[|rules|..] == [];
    return Ok(current);
  }
}
