/** Finding and removing `#defmac_include` and `#defmac` statements.

    The two regular expressions of `parse_defmac_macros` are written out here
    as the matches `std::regex` makes for them:

      #defmac_include\s*`(.+)`                  (greedy: up to the LAST backtick on the line)
      #defmac(\s*?)`((.|\n)+?)`((.|\n)+?)`      (lazy: up to the NEXT backtick, across `\n`)

    `.` refuses `\n` and `\r`, so `(.|\n)` refuses only `\r`. */
module Extractor {
  import opened Base
  import opened Text
  import opened RegexShape

  const IncludeKeyword: string := "#defmac_include"
  const DefineKeyword: string := "#defmac"

  /** A `#defmac` statement: the script syntax and the C++ text it stands for. */
  datatype Definition = Definition(syntax: string, cpp: string)

  /** A half-open range of positions. */
  datatype Span = Span(start: nat, end: nat)

  /** The first line end at or after `i`, or `|s|`. */
  function LineEndFrom(s: string, i: nat): (e: nat)
    requires i <= |s|
    ensures i <= e <= |s| && (e < |s| ==> IsLineEnd(s[e]))
    ensures forall k :: i <= k < e ==> !IsLineEnd(s[k])
    decreases |s| - i
  {
    if i == |s| || IsLineEnd(s[i]) then i else LineEndFrom(s, i + 1)
  }

  /** The first backtick or carriage return at or after `i`, or `|s|`. */
  function StopFrom(s: string, i: nat): (e: nat)
    requires i <= |s|
    ensures i <= e <= |s| && (e < |s| ==> s[e] == '`' || s[e] == '\r')
    ensures forall k :: i <= k < e ==> s[k] != '`' && s[k] != '\r'
    decreases |s| - i
  {
    if i == |s| || s[i] == '`' || s[i] == '\r' then i else StopFrom(s, i + 1)
  }

  /** The last backtick in `[lo, hi)`. */
  function LastTick(s: string, lo: nat, hi: nat): (r: Option<nat>)
    requires lo <= hi <= |s|
    ensures r.Some? ==> lo <= r.value < hi && s[r.value] == '`'
    ensures r.Some? ==> forall k :: r.value < k < hi ==> s[k] != '`'
    ensures r.None? ==> forall k :: lo <= k < hi ==> s[k] != '`'
    decreases hi - lo
  {
    if lo == hi then None
    else if s[hi - 1] == '`' then Some(hi - 1)
    else LastTick(s, lo, hi - 1)
  }

  /** The `#defmac_include` match that starts at `p`, as the span of the
      file name; the match itself ends just after `span.end`. */
  function IncludeAt(s: string, p: nat): (r: Option<Span>)
    requires p <= |s|
    ensures r.Some? ==> p + 15 < r.value.start < r.value.end < |s|
  {
    if !At(s, p, IncludeKeyword) then None
    else
      var q := SpaceEnd(s, p + 15);
      if q == |s| || s[q] != '`' then None
      else
        var e := LineEndFrom(s, q + 1);
        if e < q + 2 then None
        else
          match LastTick(s, q + 2, e)
          case None => None
          case Some(b) => Some(Span(q + 1, b))
  }

  /** What the include regex matches: the keyword, blanks, a backtick, a
      file name on one line, and the last backtick of that line. */
  lemma IncludeAtShape(s: string, p: nat)
    requires p <= |s| && IncludeAt(s, p).Some?
    ensures var sp := IncludeAt(s, p).value;
      && At(s, p, IncludeKeyword)
      && (forall k :: p + |IncludeKeyword| <= k < sp.start - 1 ==> IsSpace(s[k]))
      && s[sp.start - 1] == '`' && s[sp.end] == '`'
      && (forall k :: sp.start <= k < sp.end ==> !IsLineEnd(s[k]))
      && (forall k :: sp.end < k < |s| && s[k] == '`' ==> exists j :: sp.end < j < k && IsLineEnd(s[j]))
  {
    var q := SpaceEnd(s, p + 15);
    var e := LineEndFrom(s, q + 1);
    var b := LastTick(s, q + 2, e).value;
    forall k | b < k < |s| && s[k] == '`' ensures exists j :: b < j < k && IsLineEnd(s[j]) {
      assert e < k && IsLineEnd(s[e]);
    }
  }

  /** The `#defmac` match that starts at `p`, as the spans of the syntax and
      of the C++ text; the match itself ends just after `cpp.end`. */
  function DefinitionAt(s: string, p: nat): (r: Option<(Span, Span)>)
    requires p <= |s|
    ensures r.Some? ==>
      p + 7 < r.value.0.start < r.value.0.end
      && r.value.0.end + 1 == r.value.1.start < r.value.1.end < |s|
  {
    if !At(s, p, DefineKeyword) then None
    else
      var q := SpaceEnd(s, p + 7);
      if q + 2 > |s| || s[q] != '`' || s[q + 1] == '\r' then None
      else
        var a := StopFrom(s, q + 2);
        if a + 2 > |s| || s[a] != '`' || s[a + 1] == '\r' then None
        else
          var b := StopFrom(s, a + 2);
          if b == |s| || s[b] != '`' then None
          else Some((Span(q + 1, a), Span(a + 1, b)))
  }

  /** What the definition regex matches: the keyword, blanks, then two
      backtick-delimited texts, each ending at the first backtick after its
      first character and neither holding a carriage return. */
  lemma DefinitionAtShape(s: string, p: nat)
    requires p <= |s| && DefinitionAt(s, p).Some?
    ensures var (syn, cpp) := DefinitionAt(s, p).value;
      && At(s, p, DefineKeyword)
      && (forall k :: p + |DefineKeyword| <= k < syn.start - 1 ==> IsSpace(s[k]))
      && s[syn.start - 1] == '`' && s[syn.end] == '`' && s[cpp.end] == '`'
      && (forall k :: syn.start <= k < syn.end ==> s[k] != '\r')
      && (forall k :: syn.start < k < syn.end ==> s[k] != '`')
      && (forall k :: cpp.start <= k < cpp.end ==> s[k] != '\r')
      && (forall k :: cpp.start < k < cpp.end ==> s[k] != '`')
  {
  }

  /** A `#defmac_include` statement is never read as a definition. */
  lemma IncludeIsNoDefinition(s: string, p: nat)
    requires p <= |s| && At(s, p, IncludeKeyword)
    ensures DefinitionAt(s, p).None?
  {
    assert s[p + 7] == IncludeKeyword[7] == '_';
  }

  /** No match of the include regex starts in `[lo, hi)`. */
  predicate NoIncludeIn(s: string, lo: nat, hi: nat)
    requires lo <= hi <= |s|
    decreases hi - lo
  {
    lo == hi || (IncludeAt(s, lo).None? && NoIncludeIn(s, lo + 1, hi))
  }

  lemma {:induction false} NoIncludeInAt(s: string, lo: nat, hi: nat, k: nat)
    requires lo <= k < hi <= |s| && NoIncludeIn(s, lo, hi)
    ensures IncludeAt(s, k).None?
    decreases k - lo
  {
    if lo < k {
      NoIncludeInAt(s, lo + 1, hi, k);
    }
  }

  /** The leftmost position at or after `i` where the include regex
      matches: `regex_search` tries the start positions from left to right. */
  function FirstIncludeFrom(s: string, i: nat): (r: Option<nat>)
    requires i <= |s|
    ensures r.Some? ==> i <= r.value <= |s| && IncludeAt(s, r.value).Some? && NoIncludeIn(s, i, r.value)
    ensures r.None? ==> NoIncludeIn(s, i, |s|) && IncludeAt(s, |s|).None?
    decreases |s| - i
  {
    if IncludeAt(s, i).Some? then Some(i)
    else if i == |s| then None
    else FirstIncludeFrom(s, i + 1)
  }

  /** No match of the definition regex starts in `[lo, hi)`. */
  predicate NoDefinitionIn(s: string, lo: nat, hi: nat)
    requires lo <= hi <= |s|
    decreases hi - lo
  {
    lo == hi || (DefinitionAt(s, lo).None? && NoDefinitionIn(s, lo + 1, hi))
  }

  lemma {:induction false} NoDefinitionInAt(s: string, lo: nat, hi: nat, k: nat)
    requires lo <= k < hi <= |s| && NoDefinitionIn(s, lo, hi)
    ensures DefinitionAt(s, k).None?
    decreases k - lo
  {
    if lo < k {
      NoDefinitionInAt(s, lo + 1, hi, k);
    }
  }

  /** The leftmost position at or after `i` where the definition regex
      matches: `regex_search` tries the start positions from left to right. */
  function FirstDefinitionFrom(s: string, i: nat): (r: Option<nat>)
    requires i <= |s|
    ensures r.Some? ==> i <= r.value <= |s| && DefinitionAt(s, r.value).Some? && NoDefinitionIn(s, i, r.value)
    ensures r.None? ==> NoDefinitionIn(s, i, |s|) && DefinitionAt(s, |s|).None?
    decreases |s| - i
  {
    if DefinitionAt(s, i).Some? then Some(i)
    else if i == |s| then None
    else FirstDefinitionFrom(s, i + 1)
  }

  /** `regex_search(buffer, m, defmac_include)`: groups are the whole
      statement and the file name. */
  function FindInclude(s: string): (r: Option<Match>)
    ensures r.Some? ==> r.value.Splits(s) && |r.value.groups| == 2 && |r.value.groups[0]| > 0
  {
    match FirstIncludeFrom(s, 0)
    case None => None
    case Some(p) =>
      var sp := IncludeAt(s, p).value;
      SplitThree(s, p, sp.end + 1);
      Some(Match(s[..p], [s[p..sp.end + 1], s[sp.start..sp.end]], s[sp.end + 1..]))
  }

  /** The search finds the leftmost include statement, or reports that
      there is none anywhere. */
  lemma FindIncludeLeftmost(s: string)
    ensures FindInclude(s).None? ==> NoIncludeIn(s, 0, |s|) && IncludeAt(s, |s|).None?
    ensures FindInclude(s).Some? ==> NoIncludeIn(s, 0, |FindInclude(s).value.prefix|)
  {
  }

  /** Where the include statement the search finds lies in the buffer. */
  lemma FindIncludeAt(s: string)
    requires FindInclude(s).Some?
    ensures var m := FindInclude(s).value; var p := |m.prefix|;
      && IncludeAt(s, p).Some?
      && var sp := IncludeAt(s, p).value;
      m.groups[0] == s[p..sp.end + 1] && m.groups[1] == s[sp.start..sp.end]
  {
  }

  /** `regex_search(buffer, m, language_definition)`: groups 0 to 5 as
      `std::smatch` numbers them, the syntax being group 2 and the C++ text
      group 4. */
  function FindDefinition(s: string): (r: Option<Match>)
    ensures r.Some? ==> r.value.Splits(s) && |r.value.groups| == 6 && |r.value.groups[0]| > 0
    ensures r.Some? ==> |r.value.groups[2]| > 0 && |r.value.groups[4]| > 0
  {
    match FirstDefinitionFrom(s, 0)
    case None => None
    case Some(p) => Some(DefinitionMatch(s, p, DefinitionAt(s, p).value.0, DefinitionAt(s, p).value.1))
  }

  /** The `std::smatch` of a definition whose syntax and C++ text occupy
      `syn` and `cpp`. */
  function DefinitionMatch(s: string, p: nat, syn: Span, cpp: Span): (m: Match)
    requires p + 7 < syn.start < syn.end && syn.end + 1 == cpp.start < cpp.end < |s|
    ensures m.Splits(s) && |m.groups| == 6 && |m.prefix| == p
    ensures m.groups[0] == s[p..cpp.end + 1]
    ensures m.groups[2] == s[syn.start..syn.end] && m.groups[4] == s[cpp.start..cpp.end]
  {
    SplitThree(s, p, cpp.end + 1);
    var groups := [s[p..cpp.end + 1], s[p + 7..syn.start - 1],
                   s[syn.start..syn.end], [s[syn.end - 1]],
                   s[cpp.start..cpp.end], [s[cpp.end - 1]]];
    Match(s[..p], groups, s[cpp.end + 1..])
  }

  /** The search finds the leftmost definition, or reports that there is
      none anywhere. */
  lemma FindDefinitionLeftmost(s: string)
    ensures FindDefinition(s).None? ==> NoDefinitionIn(s, 0, |s|) && DefinitionAt(s, |s|).None?
    ensures FindDefinition(s).Some? ==> NoDefinitionIn(s, 0, |FindDefinition(s).value.prefix|)
  {
  }

  /** Where the definition the search finds lies in the buffer. */
  lemma FindDefinitionAt(s: string)
    requires FindDefinition(s).Some?
    ensures var m := FindDefinition(s).value; var p := |m.prefix|;
      && DefinitionAt(s, p).Some?
      && var (syn, cpp) := DefinitionAt(s, p).value;
      && m.groups[0] == s[p..cpp.end + 1]
      && m.groups[2] == s[syn.start..syn.end]
      && m.groups[4] == s[cpp.start..cpp.end]
  {
  }

  /** The file name of an include statement lies on one line. */
  lemma IncludeNameOnOneLine(s: string, p: nat)
    requires p <= |s| && IncludeAt(s, p).Some?
    ensures NoLineEnd(s[IncludeAt(s, p).value.start..IncludeAt(s, p).value.end])
  {
    var q := SpaceEnd(s, p + 15);
    var e := LineEndFrom(s, q + 1);
    var sp := IncludeAt(s, p).value;
    assert sp.end < e;
  }

  /** A search that, whenever it finds something, finds a non-empty match
      that splits the buffer. */
  ghost predicate Cuts(find: string -> Option<Match>) {
    forall b :: find(b).Some? ==> find(b).value.Splits(b) && |find(b).value.groups[0]| > 0
  }

  lemma FindIncludeCuts()
    ensures Cuts(FindInclude)
  {
  }

  lemma FindDefinitionCuts()
    ensures Cuts(FindDefinition)
  {
  }

  /** What repeatedly cutting statements out of a buffer leaves: the rest of
      the buffer, the removed statements each followed by a newline, and the
      groups of each cut match, in the order they were cut. */
  datatype Drained = Drained(rest: string, removed: string, found: seq<seq<string>>)

  /** Cut the leftmost match out of the buffer and append it, with a
      newline, to the removed text, until the search finds nothing. */
  function Drain(find: string -> Option<Match>, buffer: string): (d: Drained)
    requires Cuts(find)
    ensures |d.rest| + |d.removed| == |buffer| + |d.found|
    ensures find(d.rest).None?
    decreases |buffer|
  {
    match find(buffer)
    case None => Drained(buffer, [], [])
    case Some(m) =>
      assert |buffer| == |m.prefix| + |m.groups[0]| + |m.suffix|;
      var d := Drain(find, m.prefix + m.suffix);
      Drained(d.rest, m.groups[0] + "\n" + d.removed, [m.groups] + d.found)
  }

  /** Each step of a drain cuts one match out and keeps the rest of the
      buffer, in order, around the cut. */
  lemma DrainStep(find: string -> Option<Match>, buffer: string)
    requires Cuts(find) && find(buffer).Some?
    ensures var m := find(buffer).value; var d := Drain(find, m.prefix + m.suffix);
      && buffer == m.prefix + m.groups[0] + m.suffix
      && Drain(find, buffer) == Drained(d.rest, m.groups[0] + "\n" + d.removed, [m.groups] + d.found)
  {
  }

  /** Draining a buffer with nothing to find changes nothing. */
  lemma DrainNothing(find: string -> Option<Match>, buffer: string)
    requires Cuts(find) && find(buffer).None?
    ensures Drain(find, buffer) == Drained(buffer, [], [])
  {
  }

  /** The include loop: the buffer without include statements, the removed
      statements, and the included file names in order. */
  function DrainIncludes(buffer: string): Drained
  {
    FindIncludeCuts();
    Drain(FindInclude, buffer)
  }

  /** The definition loop. */
  function DrainDefinitions(buffer: string): Drained
  {
    FindDefinitionCuts();
    Drain(FindDefinition, buffer)
  }

  /** The include loop stops when no include statement is left, having cut
      one statement per name; the rest and the removed text account for
      every character of the buffer and one newline per statement. */
  lemma DrainIncludesDone(buffer: string)
    ensures FindInclude(DrainIncludes(buffer).rest).None?
    ensures |DrainIncludes(buffer).rest| + |DrainIncludes(buffer).removed| == |buffer| + |DrainIncludes(buffer).found|
  {
    FindIncludeCuts();
  }

  /** The definition loop stops when no definition is left. */
  lemma DrainDefinitionsDone(buffer: string)
    ensures FindDefinition(DrainDefinitions(buffer).rest).None?
    ensures |DrainDefinitions(buffer).rest| + |DrainDefinitions(buffer).removed| == |buffer| + |DrainDefinitions(buffer).found|
  {
    FindDefinitionCuts();
  }

  /** A drain finds only what its search finds: a property of every match
      the search can return holds of every match the drain collects. */
  lemma {:induction false} DrainFound(find: string -> Option<Match>, ok: seq<string> -> bool, buffer: string)
    requires Cuts(find)
    requires forall b :: find(b).Some? ==> ok(find(b).value.groups)
    ensures forall i :: 0 <= i < |Drain(find, buffer).found| ==> ok(Drain(find, buffer).found[i])
    decreases |buffer|
  {
    match find(buffer)
    case None =>
    case Some(m) =>
      assert |buffer| == |m.prefix| + |m.groups[0]| + |m.suffix|;
      DrainFound(find, ok, m.prefix + m.suffix);
  }

  /** The groups of an include match: the statement and a file name on one line. */
  predicate IncludeGroups(g: seq<string>) {
    |g| == 2 && |g[1]| > 0 && NoLineEnd(g[1])
  }

  /** The groups of a definition match: syntax (group 2) and C++ text
      (group 4), neither empty nor holding a carriage return. */
  predicate DefinitionGroups(g: seq<string>) {
    && |g| == 6 && |g[2]| > 0 && |g[4]| > 0
    && NoCarriageReturn(g[2]) && NoCarriageReturn(g[4])
  }

  /** Group `n` of a match, or the empty string when there is none. */
  function GroupOf(g: seq<string>, n: nat): string {
    if n < |g| then g[n] else []
  }

  /** The file names of a list of include matches, in order. */
  function NamesOf(found: seq<seq<string>>): seq<string>
    decreases |found|
  {
    if found == [] then [] else [GroupOf(found[0], 1)] + NamesOf(found[1..])
  }

  /** The included file names, in the order the loop opens them. */
  function IncludedFiles(buffer: string): seq<string>
  {
    NamesOf(DrainIncludes(buffer).found)
  }

  lemma IncludeNames(buffer: string)
    ensures forall i :: 0 <= i < |DrainIncludes(buffer).found| ==> IncludeGroups(DrainIncludes(buffer).found[i])
  {
    FindIncludeCuts();
    forall b | FindInclude(b).Some? ensures IncludeGroups(FindInclude(b).value.groups) {
      var m := FindInclude(b).value;
      FindIncludeAt(b);
      IncludeNameOnOneLine(b, |m.prefix|);
    }
    DrainFound(FindInclude, IncludeGroups, buffer);
  }

  lemma {:induction false} NamesOfGroups(found: seq<seq<string>>)
    requires forall i :: 0 <= i < |found| ==> IncludeGroups(found[i])
    ensures |NamesOf(found)| == |found|
    ensures forall i :: 0 <= i < |found| ==> NamesOf(found)[i] == GroupOf(found[i], 1)
    decreases |found|
  {
    if found != [] {
      NamesOfGroups(found[1..]);
    }
  }

  /** Every included name is a nonempty name on one line: the `(.+)` of the
      include statement. */
  lemma IncludedFileNames(buffer: string)
    ensures forall i :: 0 <= i < |IncludedFiles(buffer)| ==>
      |IncludedFiles(buffer)[i]| > 0 && NoLineEnd(IncludedFiles(buffer)[i])
  {
    IncludeNames(buffer);
    NamesOfGroups(DrainIncludes(buffer).found);
  }

  /** The groups of the definition match at `p`. */
  lemma DefinitionGroupsAt(s: string, p: nat)
    requires p <= |s| && DefinitionAt(s, p).Some?
    ensures DefinitionGroups(DefinitionMatch(s, p, DefinitionAt(s, p).value.0, DefinitionAt(s, p).value.1).groups)
  {
    var (syn, cpp) := DefinitionAt(s, p).value;
    var g := DefinitionMatch(s, p, syn, cpp).groups;
    DefinitionAtShape(s, p);
    assert forall k :: 0 <= k < |g[2]| ==> g[2][k] == s[syn.start + k];
    assert forall k :: 0 <= k < |g[4]| ==> g[4][k] == s[cpp.start + k];
  }

  lemma FindDefinitionGroups(s: string)
    requires FindDefinition(s).Some?
    ensures DefinitionGroups(FindDefinition(s).value.groups)
  {
    DefinitionGroupsAt(s, FirstDefinitionFrom(s, 0).value);
  }

  /** The definition a match records: `(m.str(2), m.str(4))`. */
  function DefinitionOf(g: seq<string>): Definition
  {
    Definition(GroupOf(g, 2), GroupOf(g, 4))
  }

  predicate NoCarriageReturn(s: string) {
    forall k :: 0 <= k < |s| ==> s[k] != '\r'
  }

  /** The definitions the loop records from its matches, in order. */
  function DefinitionsOf(found: seq<seq<string>>): seq<Definition>
    decreases |found|
  {
    if found == [] then [] else DefinitionsOf(found[..|found| - 1]) + [DefinitionOf(found[|found| - 1])]
  }

  lemma {:induction false} DefinitionsOfElements(found: seq<seq<string>>)
    ensures |DefinitionsOf(found)| == |found|
    ensures forall i :: 0 <= i < |found| ==>
      DefinitionsOf(found)[i] == DefinitionOf(found[i])
    decreases |found|
  {
    if found != [] {
      DefinitionsOfElements(found[..|found| - 1]);
    }
  }

  lemma DefinitionTexts(buffer: string)
    ensures forall i :: 0 <= i < |DrainDefinitions(buffer).found| ==> DefinitionGroups(DrainDefinitions(buffer).found[i])
  {
    FindDefinitionCuts();
    forall b | FindDefinition(b).Some? ensures DefinitionGroups(FindDefinition(b).value.groups) {
      FindDefinitionGroups(b);
    }
    DrainFound(FindDefinition, DefinitionGroups, buffer);
  }

  /** The definitions of a buffer: as many as the loop cuts, each with a
      nonempty syntax and C++ text free of carriage returns, taken from
      groups 2 and 4 of its match. */
  lemma DefinitionsOfBuffer(buffer: string)
    ensures var found := DrainDefinitions(buffer).found; var defs := DefinitionsOf(found);
      && |defs| == |found|
      && forall i :: 0 <= i < |defs| ==>
        && defs[i] == DefinitionOf(found[i])
        && |defs[i].syntax| > 0 && |defs[i].cpp| > 0
        && NoCarriageReturn(defs[i].syntax) && NoCarriageReturn(defs[i].cpp)
  {
    DefinitionTexts(buffer);
    DefinitionsOfElements(DrainDefinitions(buffer).found);
  }

  /** One turn of a drain loop keeps the loop's account of what is left to
      drain: the rest, the removed text and the groups found so far. */
  lemma DrainLoopStep(find: string -> Option<Match>, buffer: string, rest: string, removed: string, found: seq<seq<string>>)
    requires Cuts(find) && find(rest).Some?
    requires Drain(find, buffer) == Drained(Drain(find, rest).rest, removed + Drain(find, rest).removed, found + Drain(find, rest).found)
    ensures var m := find(rest).value; var rest' := m.prefix + m.suffix;
      && |rest'| < |rest|
      && Drain(find, buffer) == Drained(Drain(find, rest').rest, removed + (m.groups[0] + "\n") + Drain(find, rest').removed, (found + [m.groups]) + Drain(find, rest').found)
  {
    var m := find(rest).value;
    var d := Drain(find, m.prefix + m.suffix);
    DrainStep(find, rest);
    assert removed + (m.groups[0] + "\n" + d.removed) == removed + (m.groups[0] + "\n") + d.removed;
    assert found + ([m.groups] + d.found) == (found + [m.groups]) + d.found;
  }
  /** The cut loop, as the program runs it for either kind of statement:
      while the search finds a statement, cut it out of the buffer and
      append it, with a newline, to the removed text. */
  method DrainLoop(find: string -> Option<Match>, buffer: string) returns (rest: string, removed: string, found: seq<seq<string>>)
    requires Cuts(find)
    ensures Drained(rest, removed, found) == Drain(find, buffer)
  {
    rest := buffer;
    removed := "";
    found := [];
    while find(rest).Some?
      invariant Drain(find, buffer) == Drained(Drain(find, rest).rest, removed + Drain(find, rest).removed, found + Drain(find, rest).found)
      decreases |rest|
    {
      var m := find(rest).value;
      DrainLoopStep(find, buffer, rest, removed, found);
      removed := removed + (m.groups[0] + "\n");
      rest := m.prefix + m.suffix;
      found := found + [m.groups];
    }
    DrainNothing(find, rest);
    assert removed + [] == removed && found + [] == found;
  }
}
