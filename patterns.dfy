/** The regular expression `parse_defmac_macros` builds from the script
    syntax of a `#defmac` definition: every regex control character is
    escaped, the repeats of one variable become backreferences, the other
    variables become wildcards, and a wildcard at either end of the syntax
    only takes non-space characters. */
module Patterns {
  import opened Base
  import opened Text
  import opened RegexShape

  // ---------------------------------------------------------------------
  // Escaping

  /** One pass of the escaping loop, `regex_replace(s, regex("\\" + c), "\\" + c)`:
      every `c` gets a backslash in front. */
  function EscapePass(s: string, c: char): string
    decreases |s|
  {
    if s == [] then [] else (if s[0] == c then ['\\', c] else [s[0]]) + EscapePass(s[1..], c)
  }

  /** `s` with a backslash in front of each character listed in `done`. */
  function EscapedIn(s: string, done: string): string
    decreases |s|
  {
    if s == [] then [] else (if s[0] in done then ['\\', s[0]] else [s[0]]) + EscapedIn(s[1..], done)
  }

  /** The characters of `s`, each a literal element of a regex. */
  function Literals(s: string): (es: seq<Elem>)
    ensures |es| == |s| && forall i :: 0 <= i < |es| ==> es[i] == Lit(s[i])
    decreases |s|
  {
    if s == [] then [] else [Lit(s[0])] + Literals(s[1..])
  }

  lemma {:induction false} EscapePassAppend(a: string, b: string, c: char)
    ensures EscapePass(a + b, c) == EscapePass(a, c) + EscapePass(b, c)
    decreases |a|
  {
    if a == [] {
      assert a + b == b;
    } else {
      assert (a + b)[1..] == a[1..] + b;
      EscapePassAppend(a[1..], b, c);
    }
  }

  /** Escaping one more character on top of the ones already escaped.
      The backslash has to come first: a later pass for a backslash would
      double the ones inserted before it. */
  lemma {:induction false} EscapePassStep(s: string, done: string, c: char)
    requires c !in done && (c == '\\' ==> done == [])
    ensures EscapePass(EscapedIn(s, done), c) == EscapedIn(s, done + [c])
    decreases |s|
  {
    if s != [] {
      var piece := if s[0] in done then ['\\', s[0]] else [s[0]];
      EscapePassAppend(piece, EscapedIn(s[1..], done), c);
      EscapePassStep(s[1..], done, c);
      if s[0] in done {
        assert EscapePass(piece, c) == piece by {
          assert piece[1..] == [s[0]];
        }
      }
      assert s[0] in done + [c] <==> s[0] in done || s[0] == c;
    }
  }

  lemma {:induction false} EscapedInNothing(s: string)
    ensures EscapedIn(s, []) == s
    decreases |s|
  {
    if s != [] {
      EscapedInNothing(s[1..]);
    }
  }

  /** Escaping every control character is spelling the characters as
      literal elements. */
  lemma {:induction false} EscapedInControl(s: string)
    ensures EscapedIn(s, ControlChars) == Emit(Literals(s))
    decreases |s|
  {
    if s != [] {
      EscapedInControl(s[1..]);
      assert Literals(s)[1..] == Literals(s[1..]);
    }
  }

  /** The control characters are all different, and the backslash is the first. */
  lemma ControlCharsDistinct(i: nat)
    requires i < |ControlChars|
    ensures ControlChars[i] !in ControlChars[..i]
    ensures ControlChars[i] == '\\' ==> i == 0
  {
  }

  /** The escaping loop of `parse_defmac_macros`: one replacement pass per
      control character, in the order `\^$.*+?()[]{}|`. */
  method EscapeControlChars(syntax: string) returns (esc: string)
    ensures esc == Emit(Literals(syntax))
  {
    esc := syntax;
    EscapedInNothing(syntax);
    for i := 0 to |ControlChars|
      invariant esc == EscapedIn(syntax, ControlChars[..i])
    {
      var c := ControlChars[i];
      ControlCharsDistinct(i);
      EscapePassStep(syntax, ControlChars[..i], c);
      assert ControlChars[..i + 1] == ControlChars[..i] + [c];
      esc := EscapePass(esc, c);
    }
    assert ControlChars[..|ControlChars|] == ControlChars;
    EscapedInControl(syntax);
  }

  /** The escaped syntax reads back as exactly its own characters, each a
      literal: no inserted backslash was escaped a second time. */
  lemma EscapeRoundTrip(syntax: string)
    ensures Parse(Emit(Literals(syntax))) == Some(Literals(syntax))
  {
    ParseEmit(Literals(syntax));
  }

  // ---------------------------------------------------------------------
  // Backreferences

  /** A variable `$name` as the escaping loop leaves it: `\$name`. */
  function EscapedVar(name: string): string {
    "\\$" + name
  }

  /** The names of the escaped variables `\$name` of an escaped syntax, as
      the regex `(\\\$\w+)` finds them from left to right. */
  function EscVarNames(s: string): (names: seq<string>)
    decreases |s|
  {
    if |s| >= 3 && s[0] == '\\' && s[1] == '$' && IsWord(s[2]) then
      [s[2..WordEnd(s, 2)]] + EscVarNames(s[WordEnd(s, 2)..])
    else if s == [] then []
    else EscVarNames(s[1..])
  }

  /** Each variable found is a non-empty word whose escaped form occurs in the text. */
  lemma {:induction false} EscVarOccurs(s: string, i: nat)
    requires i < |EscVarNames(s)|
    ensures |EscVarNames(s)[i]| > 0 && AllWord(EscVarNames(s)[i])
    ensures Occurs(s, EscapedVar(EscVarNames(s)[i]))
    decreases |s|
  {
    var names := EscVarNames(s);
    if |s| >= 3 && s[0] == '\\' && s[1] == '$' && IsWord(s[2]) {
      var e := WordEnd(s, 2);
      WordEndRun(s, 2);
      if i == 0 {
        var tok := EscapedVar(names[0]);
        assert names[0] == s[2..e];
        WordRunAllWord(s, 2);
        SliceJoin(s, 0, 2, e);
        assert s[..2] == "\\$";
        assert s[0..][..|tok|] == s[..e] == tok;
        assert StartsAt(s, tok, 0);
      } else {
        EscVarOccurs(s[e..], i - 1);
        var j :| 0 <= j <= |s[e..]| && StartsAt(s[e..], EscapedVar(names[i]), j);
        assert s[e..][j..] == s[e + j..];
        assert StartsAt(s, EscapedVar(names[i]), e + j);
      }
    } else {
      EscVarOccurs(s[1..], i);
      var j :| 0 <= j <= |s[1..]| && StartsAt(s[1..], EscapedVar(names[i]), j);
      assert s[1..][j..] == s[1 + j..];
      assert StartsAt(s, EscapedVar(names[i]), 1 + j);
    }
  }

  /** The position of the last name that is not a repeat of an earlier one. */
  function LastFirst(names: seq<string>): (r: Option<nat>)
    ensures r.None? <==> names == []
    ensures r.Some? ==> r.value < |names| && names[r.value] !in names[..r.value]
    ensures r.Some? ==> forall j :: r.value < j < |names| ==> names[j] in names[..j]
    decreases |names|
  {
    if names == [] then None
    else
      var k := |names| - 1;
      if names[k] !in names[..k] then Some(k)
      else
        var r := LastFirst(names[..k]);
        assert forall j :: 0 <= j < k ==> names[..k][..j] == names[..j];
        r
  }

  /** The buffer rebuilt for the variable `name` numbered `idx`: the text
      up to the end of the first occurrence of `\$name`, then the rest with
      every `$name` turned into the digits of `idx`. */
  function Backtrace(esc: string, name: string, idx: nat): (r: string)
    requires Occurs(esc, EscapedVar(name))
  {
    RebuildFrom(esc, FirstEnd(esc, name), name, idx)
  }

  /** Where the first `\$name` ends. */
  function FirstEnd(esc: string, name: string): (e: nat)
    requires Occurs(esc, EscapedVar(name))
    ensures e <= |esc|
  {
    IndexOf(esc, EscapedVar(name)).value + |name| + 2
  }

  /** The text up to `end` as it is, then the rest with every `$name`
      turned into the digits of `idx`. */
  function RebuildFrom(esc: string, end: nat, name: string, idx: nat): string
    requires end <= |esc|
  {
    esc[..end] + ReplaceAll(esc[end..], "$" + name, NatToString(idx))
  }

  /** The buffer the loop holds when the last new name it has met is
      the one at position `last`, if any. */
  function Rebuilt(esc: string, last: Option<nat>): string
    requires last.Some? ==> last.value < |EscVarNames(esc)|
  {
    match last
    case None => esc
    case Some(j) =>
      EscVarOccurs(esc, j);
      Backtrace(esc, EscVarNames(esc)[j], 2 * j + 1)
  }

  /** The buffer after the backreference loop has looked at the first `k`
      variables: each new name rebuilds it from the escaped syntax, so it
      is the rebuild for the last new name among them, if any. */
  function CollapseAfter(esc: string, k: nat): string
    requires k <= |EscVarNames(esc)|
  {
    Rebuilt(esc, LastFirst(EscVarNames(esc)[..k]))
  }

  /** What the backreference loop leaves: only the name that appears
      first last has its repeats turned into backreferences. */
  function Collapse(esc: string): string
  {
    CollapseAfter(esc, |EscVarNames(esc)|)
  }

  /** The loop leaves the rebuild for the last new name. */
  lemma CollapseLast(esc: string)
    ensures Collapse(esc) == Rebuilt(esc, LastFirst(EscVarNames(esc)))
  {
    var names := EscVarNames(esc);
    assert names[..|names|] == names;
  }

  /** The names met so far, as the loop's `seen_tokens` set. */
  function ElementsOf(names: seq<string>): set<string>
  {
    set w | w in names
  }

  lemma ElementsOfStep(names: seq<string>, k: nat)
    requires k < |names|
    ensures ElementsOf(names[..k + 1]) == ElementsOf(names[..k]) + {names[k]}
    ensures names[k] in ElementsOf(names[..k]) <==> names[k] in names[..k]
  {
    assert names[..k + 1] == names[..k] + [names[k]];
  }

  /** One more name: a repeat keeps the last new one, a new name is the last. */
  lemma LastFirstStep(names: seq<string>, k: nat)
    requires k < |names|
    ensures LastFirst(names[..k + 1]) == if names[k] in names[..k] then LastFirst(names[..k]) else Some(k)
  {
    assert names[..k + 1][..k] == names[..k];
  }

  /** A new name rebuilds the buffer from the escaped syntax. */
  lemma CollapseNew(esc: string, k: nat, rebuilt: string)
    requires k < |EscVarNames(esc)| && EscVarNames(esc)[k] !in EscVarNames(esc)[..k]
    requires Occurs(esc, EscapedVar(EscVarNames(esc)[k]))
    requires rebuilt == Backtrace(esc, EscVarNames(esc)[k], 2 * k + 1)
    ensures rebuilt == CollapseAfter(esc, k + 1)
  {
    LastFirstStep(EscVarNames(esc), k);
  }

  /** A repeated name leaves the buffer as it is. */
  lemma CollapseRepeat(esc: string, k: nat)
    requires k < |EscVarNames(esc)| && EscVarNames(esc)[k] in EscVarNames(esc)[..k]
    ensures CollapseAfter(esc, k + 1) == CollapseAfter(esc, k)
  {
    LastFirstStep(EscVarNames(esc), k);
  }

  /** The backreference loop of `parse_defmac_macros`: for each variable
      occurrence (the `k`-th numbered `2k+1`), unless its name was seen
      before, rebuild the buffer from the escaped syntax. */
  method CollapseBackrefs(esc: string) returns (backtraced: string)
    ensures backtraced == Collapse(esc)
  {
    var names := EscVarNames(esc);
    var seen: set<string> := {};
    backtraced := esc;
    var idx := 1;
    for k := 0 to |names|
      invariant idx == 2 * k + 1
      invariant seen == ElementsOf(names[..k])
      invariant backtraced == CollapseAfter(esc, k)
    {
      ElementsOfStep(names, k);
      if names[k] !in seen {
        seen := seen + {names[k]};
        EscVarOccurs(esc, k);
        var rebuilt := Backtrace(esc, names[k], idx);
        CollapseNew(esc, k, rebuilt);
        backtraced := rebuilt;
      } else {
        CollapseRepeat(esc, k);
      }
      idx := idx + 2;
    }
  }

  // ---------------------------------------------------------------------
  // Wildcards

  /** `regex_replace(s, regex(R"((\\\$\w+))"), "((.)+?)")`: every escaped
      variable left becomes the lazy wildcard. */
  function Wildcards(s: string): string
    decreases |s|
  {
    if |s| >= 3 && s[0] == '\\' && s[1] == '$' && IsWord(s[2]) then LazyText + Wildcards(s[WordEnd(s, 2)..])
    else if s == [] then []
    else [s[0]] + Wildcards(s[1..])
  }

  /** The replaced text begins where the original did, or with a wildcard. */
  lemma WildcardsHead(s: string)
    requires s != []
    ensures Wildcards(s) != [] && (Wildcards(s)[0] == s[0] || Wildcards(s)[0] == '(')
  {
  }

  lemma EscVarNamesSkip(c: char, y: string)
    requires c != '\\' || !(|y| >= 2 && y[0] == '$' && IsWord(y[1]))
    ensures EscVarNames([c] + y) == EscVarNames(y)
  {
    assert ([c] + y)[1..] == y;
  }

  /** Text without a backslash holds no escaped variable of its own. */
  lemma {:induction false} EscVarNamesNoBackslash(x: string, y: string)
    requires '\\' !in x
    ensures EscVarNames(x + y) == EscVarNames(y)
    decreases |x|
  {
    if x != [] {
      assert x[0] in x && forall c :: c in x[1..] ==> c in x;
      assert x + y == [x[0]] + (x[1..] + y);
      EscVarNamesSkip(x[0], x[1..] + y);
      EscVarNamesNoBackslash(x[1..], y);
    } else {
      assert x + y == y;
    }
  }

  /** No escaped variable is left once the wildcards are in. */
  lemma {:induction false} WildcardsLeaveNoVariable(s: string)
    ensures EscVarNames(Wildcards(s)) == []
    decreases |s|
  {
    if |s| >= 3 && s[0] == '\\' && s[1] == '$' && IsWord(s[2]) {
      WildcardsLeaveNoVariable(s[WordEnd(s, 2)..]);
      EscVarNamesNoBackslash(LazyText, Wildcards(s[WordEnd(s, 2)..]));
    } else if s != [] {
      var y := Wildcards(s[1..]);
      WildcardsLeaveNoVariable(s[1..]);
      if s[0] == '\\' && |y| >= 2 && y[0] == '$' {
        WildcardsHead(s[1..]);
        var z := Wildcards(s[2..]);
        assert y == ['$'] + z;
        assert y[1] == z[0];
        WildcardsHead(s[2..]);
        assert !IsWord(y[1]);
      }
      EscVarNamesSkip(s[0], y);
    }
  }

  // ---------------------------------------------------------------------
  // Wildcards at the ends

  /** `std::string::npos`, the largest `size_t` of a 64-bit platform. */
  const Npos: nat := 0xFFFF_FFFF_FFFF_FFFF

  /** `s.size() - 7` in `size_t` arithmetic: below 7 it wraps around to
      `2^64 + n - 7`. */
  function SizeMinus7(n: nat): nat
  {
    if n >= 7 then n - 7 else Npos + 1 + n - 7
  }

  /** `s.rfind(t)`: the last position at which `t` occurs in `s`, or `Npos`. */
  function RFind(s: string, t: string): (r: nat)
    ensures r != Npos ==> r + |t| <= |s| && s[r..r + |t|] == t
    ensures |t| <= |s| && s[|s| - |t|..] == t ==> r == |s| - |t|
    ensures r != Npos && |t| <= |s| && s[|s| - |t|..] != t ==> r < |s| - |t|
  {
    if |t| > |s| then Npos else RFindBelow(s, t, |s| - |t| + 1)
  }

  /** The last position below `hi` at which `t` occurs, or `Npos`. */
  function RFindBelow(s: string, t: string, hi: nat): (r: nat)
    ensures r != Npos ==> r < hi && r + |t| <= |s| && s[r..r + |t|] == t
    ensures hi > 0 && hi - 1 + |t| <= |s| && s[hi - 1..hi - 1 + |t|] == t ==> r == hi - 1
    decreases hi
  {
    if hi == 0 then Npos
    else if hi - 1 + |t| <= |s| && s[hi - 1..hi - 1 + |t|] == t then hi - 1
    else RFindBelow(s, t, hi - 1)
  }

  /** Lines 337-338 of defmac.cpp: a lazy wildcard that ends the regex
      becomes the non-space wildcard. `size()` and `rfind` count the bytes
      of the UTF-8 text, so the character position `rfind` finds is compared
      by its byte offset. When the regex is six bytes long, `size() - 7`
      wraps to `npos`, which is also what `rfind` reports when it finds
      nothing, and the `replace` at `npos` is out of range. */
  function AnchorEnd(s: string): Result<string>
  {
    AnchorEndAt(s, RFind(s, LazyText), SizeMinus7(Utf8Size(s)))
  }

  /** The rewrite of lines 337-338 once the last lazy wildcard `r` and the
      expected byte position `pos` are known. */
  function AnchorEndAt(s: string, r: nat, pos: nat): Result<string>
    requires r == Npos || r <= |s|
  {
    if r == Npos then (if pos == Npos then Err(ReplaceOutOfRange(s)) else Ok(s))
    else if Utf8Size(s[..r]) != pos then Ok(s)
    else Ok(s[..r] + NonSpaceText)
  }

  /** Lines 339-340: a lazy wildcard that starts the regex becomes the
      non-space wildcard. */
  function AnchorStart(s: string): string
  {
    if IndexOf(s, LazyText) == Some(0) then NonSpaceText + s[7..] else s
  }

  /** Both special cases, the end first. */
  function Anchor(s: string): Result<string>
  {
    match AnchorEnd(s)
    case Err(f) => Err(f)
    case Ok(s1) => Ok(AnchorStart(s1))
  }

  /** The intended reading of the end case, on elements: a lazy wildcard
      as the last element takes non-space characters. */
  function EndElems(es: seq<Elem>): seq<Elem>
  {
    if es != [] && es[|es| - 1] == Lazy then es[..|es| - 1] + [NonSpace] else es
  }

  /** The start case, on elements. */
  function StartElems(es: seq<Elem>): seq<Elem>
  {
    if es != [] && es[0] == Lazy then [NonSpace] + es[1..] else es
  }

  /** Both cases on elements; every element in between is kept. */
  function AnchorElems(es: seq<Elem>): seq<Elem>
  {
    StartElems(EndElems(es))
  }

  /** Only the lazy wildcard's spelling ends in `?)`. */
  lemma EmitElemLast(e: Elem)
    ensures var t := EmitElem(e);
      |t| >= 1 && (t[|t| - 1] == ')' ==> |t| >= 2 && (t[|t| - 2] == '?' <==> e == Lazy))
  {
    match e
    case Lit(c) =>
    case Lazy =>
    case NonSpace =>
    case BackRef(n) =>
      var d := NatToString(n);
      assert EmitElem(e) == "\\" + d;
      assert IsDigit(d[|d| - 1]);
  }

  /** An emitted regex ends with the text of the lazy wildcard exactly when
      its last element is the lazy wildcard. */
  lemma EndsLazy(es: seq<Elem>)
    ensures var s := Emit(es);
      EndsWith(s, LazyText) <==> (es != [] && es[|es| - 1] == Lazy)
  {
    if es != [] {
      var n := |es| - 1;
      EmitSplitLast(es);
      if EndsWith(Emit(es), LazyText) {
        EndsLazyLast(Emit(es[..n]), es[n]);
      }
      if es[n] == Lazy {
        EndsWithAppend(Emit(es[..n]), EmitElem(es[n]));
      }
    }
  }

  lemma EndsLazyLast(init: string, e: Elem)
    requires EndsWith(init + EmitElem(e), LazyText)
    ensures e == Lazy
  {
    var tail := EmitElem(e);
    EmitElemLast(e);
    EndsWithChar(init, tail, LazyText, 1);
    EndsWithChar(init, tail, LazyText, 2);
  }

  /** The last element's spelling ends the emitted regex. */
  lemma EmitSplitLast(es: seq<Elem>)
    requires es != []
    ensures Emit(es) == Emit(es[..|es| - 1]) + EmitElem(es[|es| - 1])
  {
    var n := |es| - 1;
    EmitAppend(es[..n], [es[n]]);
    assert es[..n] + [es[n]] == es;
    assert Emit([es[n]]) == EmitElem(es[n]) by { assert [es[n]][1..] == []; }
  }

  /** A suffix `w` of `x + y` agrees with `y` on their common tail. */
  lemma EndsWithChar(x: string, y: string, w: string, k: nat)
    requires EndsWith(x + y, w) && 0 < k <= |y| && k <= |w|
    ensures y[|y| - k] == w[|w| - k]
  {
    var s := x + y;
    assert s[|s| - k] == y[|y| - k];
    assert s[|s| - |w|..][|w| - k] == s[|s| - k];
  }

  lemma EndsWithAppend(x: string, y: string)
    ensures EndsWith(x + y, y)
  {
    assert (x + y)[|x|..] == y;
  }

  /** Of the spellings that open a group, only the lazy wildcard's has `.`
      third. */
  lemma EmitElemFirst(e: Elem)
    ensures var t := EmitElem(e);
      |t| >= 1 && (t[0] == '(' ==> |t| >= 3 && (t[2] == '.' <==> e == Lazy))
  {
    match e
    case Lit(c) =>
    case Lazy =>
    case NonSpace =>
    case BackRef(n) =>
      assert EmitElem(e)[0] == '\\';
  }

  /** An emitted regex starts with the text of the lazy wildcard exactly
      when its first element is the lazy wildcard. */
  lemma StartsLazy(es: seq<Elem>)
    ensures StartsWith(Emit(es), LazyText) <==> (es != [] && es[0] == Lazy)
  {
    var s := Emit(es);
    if es != [] {
      var head := EmitElem(es[0]);
      assert s == head + Emit(es[1..]);
      EmitElemFirst(es[0]);
      assert s[0] == head[0];
      if StartsWith(s, LazyText) {
        assert s[0] == LazyText[0] && s[2] == LazyText[2];
        assert s[2] == head[2];
      }
      if es[0] == Lazy {
        assert s[..7] == LazyText;
      }
    }
  }

  lemma IndexOfAtZero(s: string, t: string)
    ensures IndexOf(s, t) == Some(0) <==> StartsWith(s, t)
  {
  }

  /** The end case on text: a regex ending in the lazy wildcard gets the
      non-space wildcard there; a six-byte regex is the out-of-range
      `replace`; any other regex is kept. */
  lemma AnchorEndCases(s: string)
    requires Utf8Size(s) < Npos
    ensures Utf8Size(s) == 6 ==> AnchorEnd(s) == Err(ReplaceOutOfRange(s))
    ensures Utf8Size(s) != 6 && EndsWith(s, LazyText) ==> AnchorEnd(s) == Ok(s[..|s| - 7] + NonSpaceText)
    ensures Utf8Size(s) != 6 && !EndsWith(s, LazyText) ==> AnchorEnd(s) == Ok(s)
  {
    if Utf8Size(s) < 7 {
      AnchorEndShort(s);
    } else {
      AnchorEndLong(s);
    }
  }

  /** Below seven bytes, `size() - 7` wraps and `rfind` finds nothing. */
  lemma AnchorEndShort(s: string)
    requires Utf8Size(s) < 7
    ensures !EndsWith(s, LazyText)
    ensures AnchorEnd(s) == if Utf8Size(s) == 6 then Err(ReplaceOutOfRange(s)) else Ok(s)
  {
    assert |s| < 7;
    assert SizeMinus7(Utf8Size(s)) == Npos + 1 + Utf8Size(s) - 7;
    assert RFind(s, LazyText) == Npos;
  }

  /** From seven bytes on, `rfind` meets `size() - 7` exactly when the
      lazy wildcard's text ends the regex. */
  lemma AnchorEndLong(s: string)
    requires 7 <= Utf8Size(s) < Npos
    ensures EndsWith(s, LazyText) ==> AnchorEnd(s) == Ok(s[..|s| - 7] + NonSpaceText)
    ensures !EndsWith(s, LazyText) ==> AnchorEnd(s) == Ok(s)
  {
    if EndsWith(s, LazyText) {
      AnchorEndLongLazy(s);
    } else {
      AnchorEndLongOther(s);
    }
  }

  lemma AnchorEndLongLazy(s: string)
    requires 7 <= Utf8Size(s) < Npos && EndsWith(s, LazyText)
    ensures AnchorEnd(s) == Ok(s[..|s| - 7] + NonSpaceText)
  {
    var r, pos := |s| - 7, SizeMinus7(Utf8Size(s));
    LazyLastFound(s);
    LazyLastBytes(s);
    AnchorEndFound(s, r, pos);
  }

  /** The last lazy wildcard found where the byte arithmetic expects it. */
  lemma AnchorEndFound(s: string, r: nat, pos: nat)
    requires r < Npos && r <= |s| && Utf8Size(s[..r]) == pos
    ensures AnchorEndAt(s, r, pos) == Ok(s[..r] + NonSpaceText)
  {
  }

  lemma LazyLastFound(s: string)
    requires EndsWith(s, LazyText)
    ensures |s| >= 7 && RFind(s, LazyText) == |s| - 7
  {
    assert |LazyText| == 7;
  }

  lemma LazyLastBytes(s: string)
    requires 7 <= Utf8Size(s) < Npos && EndsWith(s, LazyText)
    ensures |s| >= 7 && Utf8Size(s[..|s| - 7]) == SizeMinus7(Utf8Size(s))
  {
    LazyTextBytes();
    AsciiSuffixBytes(s, LazyText);
  }

  lemma AnchorEndLongOther(s: string)
    requires 7 <= Utf8Size(s) < Npos && !EndsWith(s, LazyText)
    ensures AnchorEnd(s) == Ok(s)
  {
    var r := RFind(s, LazyText);
    assert SizeMinus7(Utf8Size(s)) == Utf8Size(s) - 7;
    if r != Npos {
      LazyAtBytes(s, r);
      assert r + 7 != |s|;
    }
  }

  /** Where the lazy wildcard's text occurs at character `r`, it ends the
      regex exactly when it ends the regex's bytes. */
  lemma LazyAtBytes(s: string, r: nat)
    requires r + 7 <= |s| && s[r..r + 7] == LazyText
    ensures Utf8Size(s[..r]) + 7 <= Utf8Size(s)
    ensures Utf8Size(s[..r]) + 7 == Utf8Size(s) <==> r + 7 == |s|
  {
    LazyTextBytes();
    AsciiAtBytes(s, r, LazyText);
  }

  lemma AsciiAtBytes(s: string, r: nat, t: string)
    requires r + |t| <= |s| && s[r..r + |t|] == t && Utf8Size(t) == |t|
    ensures Utf8Size(s[..r]) + |t| <= Utf8Size(s)
    ensures Utf8Size(s[..r]) + |t| == Utf8Size(s) <==> r + |t| == |s|
  {
    var before, rest, after := s[..r], s[r..], s[r + |t|..];
    assert s == before + rest;
    assert rest == t + after;
    Utf8SizeAppend(before, rest);
    Utf8SizeAppend(t, after);
  }

  /** An ASCII suffix `t` takes `|t|` of the bytes. */
  lemma AsciiSuffixBytes(s: string, t: string)
    requires EndsWith(s, t) && Utf8Size(t) == |t|
    ensures Utf8Size(s[..|s| - |t|]) + |t| == Utf8Size(s)
  {
    var before := s[..|s| - |t|];
    assert s == before + t;
    Utf8SizeAppend(before, t);
  }

  lemma LazyTextBytes()
    ensures Utf8Size(LazyText) == 7
  {
    Utf8SizeIsLength(LazyText);
    assert forall k :: 0 <= k < |LazyText| ==> LazyText[k] < '\U{0080}';
  }

  /** On an emitted regex, the end case on text is the end case on elements,
      except that a six-byte regex is the out-of-range `replace`. */
  lemma AnchorEndIsEndElems(es: seq<Elem>)
    requires Utf8Size(Emit(es)) < Npos
    ensures Utf8Size(Emit(es)) == 6 ==> AnchorEnd(Emit(es)) == Err(ReplaceOutOfRange(Emit(es)))
    ensures Utf8Size(Emit(es)) != 6 ==> AnchorEnd(Emit(es)) == Ok(Emit(EndElems(es)))
  {
    if es != [] && es[|es| - 1] == Lazy {
      AnchorEndLazy(es);
    } else {
      AnchorEndOther(es);
    }
  }

  /** A regex that ends in the lazy wildcard gets the non-space one instead. */
  lemma AnchorEndLazy(es: seq<Elem>)
    requires Utf8Size(Emit(es)) < Npos && es != [] && es[|es| - 1] == Lazy
    ensures |Emit(es)| >= 7 && AnchorEnd(Emit(es)) == Ok(Emit(EndElems(es)))
  {
    var s := Emit(es);
    LazyEndEmit(es);
    EndsLazy(es);
    AnchorEndCases(s);
  }

  /** Any other regex is kept, unless it is six bytes long. */
  lemma AnchorEndOther(es: seq<Elem>)
    requires Utf8Size(Emit(es)) < Npos && !(es != [] && es[|es| - 1] == Lazy)
    ensures EndElems(es) == es
    ensures Utf8Size(Emit(es)) == 6 ==> AnchorEnd(Emit(es)) == Err(ReplaceOutOfRange(Emit(es)))
    ensures Utf8Size(Emit(es)) != 6 ==> AnchorEnd(Emit(es)) == Ok(Emit(es))
  {
    var s := Emit(es);
    EndsLazy(es);
    assert !EndsWith(s, LazyText);
    AnchorEndCases(s);
  }

  /** A regex that ends in the lazy wildcard is spelled with its text last,
      and replacing that text by the non-space wildcard's spells the
      regex with the element replaced. */
  lemma LazyEndEmit(es: seq<Elem>)
    requires es != [] && es[|es| - 1] == Lazy
    ensures var s := Emit(es); |s| >= 7 && s[..|s| - 7] + NonSpaceText == Emit(EndElems(es))
  {
    var n := |es| - 1;
    var init := es[..n];
    assert init + [Lazy] == es;
    EmitLast(init, Lazy);
    EmitLast(init, NonSpace);
    var s := Emit(es);
    assert s == Emit(init) + LazyText;
    assert s[..|s| - 7] == Emit(init);
  }

  /** Emitting one more element appends its spelling. */
  lemma EmitLast(es: seq<Elem>, e: Elem)
    ensures Emit(es + [e]) == Emit(es) + EmitElem(e)
  {
    EmitAppend(es, [e]);
    assert [e][1..] == [];
  }

  /** On an emitted regex, the start case on text is the start case on elements. */
  lemma AnchorStartIsStartElems(es: seq<Elem>)
    ensures AnchorStart(Emit(es)) == Emit(StartElems(es))
  {
    var s := Emit(es);
    StartsLazy(es);
    IndexOfAtZero(s, LazyText);
    if es != [] && es[0] == Lazy {
      assert s == LazyText + Emit(es[1..]);
      assert s[7..] == Emit(es[1..]);
      assert Emit([NonSpace] + es[1..]) == NonSpaceText + Emit(es[1..]) by {
        assert ([NonSpace] + es[1..])[1..] == es[1..];
      }
    }
  }

  /** On every emitted regex other than a six-byte one, the text-level
      replacements of lines 337-340 are the element-level anchoring; a
      six-byte regex is the out-of-range `replace`. */
  lemma AnchorIsAnchorElems(es: seq<Elem>)
    requires Utf8Size(Emit(es)) < Npos
    ensures Utf8Size(Emit(es)) == 6 ==> Anchor(Emit(es)) == Err(ReplaceOutOfRange(Emit(es)))
    ensures Utf8Size(Emit(es)) != 6 ==> Anchor(Emit(es)) == Ok(Emit(AnchorElems(es)))
  {
    AnchorEndIsEndElems(es);
    AnchorStartIsStartElems(EndElems(es));
  }

  /** The out-of-range `replace` happens for exactly the regexes whose
      UTF-8 text is six bytes long. */
  lemma AnchorFails(s: string)
    requires Utf8Size(s) < Npos
    ensures Anchor(s).Err? <==> Utf8Size(s) == 6
  {
    AnchorEndCases(s);
  }

  /** The whole regex of a definition's syntax. */
  function CompiledPattern(syntax: string): Result<string>
  {
    Anchor(Wildcards(Collapse(Emit(Literals(syntax)))))
  }
}
