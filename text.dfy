/** Character classes and string operations that the engine's regular
    expressions and `std::string` calls rely on, in the "C" locale. */
module Text {
  import opened Base

  /** `[0-9]` */
  predicate IsDigit(c: char) { '0' <= c <= '9' }

  /** `[:alpha:]` */
  predicate IsAlpha(c: char) { 'a' <= c <= 'z' || 'A' <= c <= 'Z' }

  /** `\w` */
  predicate IsWord(c: char) { IsAlpha(c) || IsDigit(c) || c == '_' }

  /** `[_[:alpha:]]`, the first character of an identifier */
  predicate IsIdentStart(c: char) { IsAlpha(c) || c == '_' }

  /** `\s` */
  predicate IsSpace(c: char) {
    c == ' ' || c == '\t' || c == '\n' || c == '\r' || c == '\U{000B}' || c == '\U{000C}'
  }

  /** The characters an ECMAScript `.` refuses in `std::regex` over `char`. */
  predicate IsLineEnd(c: char) { c == '\n' || c == '\r' }

  predicate StartsWith(s: string, t: string) {
    |t| <= |s| && s[..|t|] == t
  }

  predicate EndsWith(s: string, t: string) {
    |t| <= |s| && s[|s| - |t|..] == t
  }

  /** `t` occurs in `s` at position `p`. */
  predicate At(s: string, p: nat, t: string) {
    p + |t| <= |s| && s[p..p + |t|] == t
  }

  predicate AllWord(s: string) {
    forall k :: 0 <= k < |s| ==> IsWord(s[k])
  }

  predicate AllDigits(s: string) {
    forall k :: 0 <= k < |s| ==> IsDigit(s[k])
  }

  /** The end of the run of word characters that starts at `i`. */
  function WordEnd(s: string, i: nat): (e: nat)
    requires i <= |s|
    ensures i <= e <= |s|
    decreases |s| - i
  {
    if i == |s| || !IsWord(s[i]) then i else WordEnd(s, i + 1)
  }

  /** The run `WordEnd` ends is all word characters, and ends at a
      character that is not one. */
  lemma {:induction false} WordEndRun(s: string, i: nat)
    requires i <= |s|
    ensures forall k :: i <= k < WordEnd(s, i) ==> IsWord(s[k])
    ensures WordEnd(s, i) == |s| || !IsWord(s[WordEnd(s, i)])
    decreases |s| - i
  {
    if i < |s| && IsWord(s[i]) {
      WordEndRun(s, i + 1);
    }
  }

  /** A text is what comes before `i`, between `i` and `j`, and after `j`. */
  lemma SplitThree(s: string, i: nat, j: nat)
    requires i <= j <= |s|
    ensures s[..i] + s[i..j] + s[j..] == s
  {
  }

  /** Text whose first character differs from the prefix's does not start
      with it. */
  lemma NotStartsWith(s: string, p: string)
    requires s != [] && p != [] && s[0] != p[0]
    ensures !StartsWith(s, p)
  {
    if |p| <= |s| {
      assert s[..|p|][0] == s[0];
    }
  }

  /** A slice is its two halves, joined. */
  lemma SliceJoin(s: string, i: nat, j: nat, l: nat)
    requires i <= j <= l <= |s|
    ensures s[i..l] == s[i..j] + s[j..l]
  {
  }

  /** The run `WordEnd` ends, as a string, is all word characters. */
  lemma WordRunAllWord(s: string, i: nat)
    requires i <= |s|
    ensures AllWord(s[i..WordEnd(s, i)])
  {
    WordEndRun(s, i);
    var w := s[i..WordEnd(s, i)];
    forall k | 0 <= k < |w|
      ensures IsWord(w[k])
    {
      assert w[k] == s[i + k];
    }
  }

  lemma WordEndIs(s: string, i: nat, e: nat)
    requires i <= e <= |s|
    requires forall k :: i <= k < e ==> IsWord(s[k])
    requires e == |s| || !IsWord(s[e])
    ensures WordEnd(s, i) == e
    decreases e - i
  {
    if i < e {
      WordEndIs(s, i + 1, e);
    }
  }

  /** The end of the run of digits that starts at `i`. */
  function DigitEnd(s: string, i: nat): (e: nat)
    requires i <= |s|
    ensures i <= e <= |s|
    ensures forall k :: i <= k < e ==> IsDigit(s[k])
    ensures e == |s| || !IsDigit(s[e])
    decreases |s| - i
  {
    if i == |s| || !IsDigit(s[i]) then i else DigitEnd(s, i + 1)
  }

  /** The end of the run of `\s` characters that starts at `i`. */
  function SpaceEnd(s: string, i: nat): (e: nat)
    requires i <= |s|
    ensures i <= e <= |s|
    ensures forall k :: i <= k < e ==> IsSpace(s[k])
    ensures e == |s| || !IsSpace(s[e])
    decreases |s| - i
  {
    if i == |s| || !IsSpace(s[i]) then i else SpaceEnd(s, i + 1)
  }

  function DigitChar(d: nat): (c: char)
    requires d < 10
    ensures IsDigit(c) && c as int - '0' as int == d
  {
    ('0' as int + d) as char
  }

  /** `std::to_string` of a non-negative count. */
  function NatToString(n: nat): (s: string)
    ensures |s| > 0 && AllDigits(s)
    ensures n < 10 <==> |s| == 1
    ensures s[0] != '0' || n == 0
    decreases n
  {
    if n < 10 then [DigitChar(n)] else NatToString(n / 10) + [DigitChar(n % 10)]
  }

  /** The value of a run of decimal digits (`std::stoi` without its overflow check). */
  function DigitsValue(s: string): nat
    requires AllDigits(s)
    decreases |s|
  {
    if s == [] then 0
    else DigitsValue(s[..|s| - 1]) * 10 + (s[|s| - 1] as int - '0' as int)
  }

  lemma {:induction false} DigitsValueOfNatToString(n: nat)
    ensures DigitsValue(NatToString(n)) == n
    decreases n
  {
    if n >= 10 {
      var s := NatToString(n);
      assert s[..|s| - 1] == NatToString(n / 10);
      DigitsValueOfNatToString(n / 10);
    }
  }

  /** Different counts print differently. */
  lemma NatToStringInjective(m: nat, n: nat)
    requires NatToString(m) == NatToString(n)
    ensures m == n
  {
    DigitsValueOfNatToString(m);
    DigitsValueOfNatToString(n);
  }

  /** `std::regex_replace(s, regex(<pat as literal>), rep)`: every leftmost,
      non-overlapping occurrence of the literal `pat` becomes `rep`. */
  function ReplaceAll(s: string, pat: string, rep: string): string
    requires |pat| > 0
    decreases |s|
  {
    if s == [] then []
    else if StartsWith(s, pat) then rep + ReplaceAll(s[|pat|..], pat, rep)
    else [s[0]] + ReplaceAll(s[1..], pat, rep)
  }

  /** `t` occurs in `s` at position `i`. */
  predicate StartsAt(s: string, t: string, i: nat) {
    i <= |s| && StartsWith(s[i..], t)
  }

  predicate Occurs(s: string, t: string) {
    exists i :: 0 <= i <= |s| && StartsAt(s, t, i)
  }

  lemma {:induction false} ReplaceAllAbsent(s: string, pat: string, rep: string)
    requires |pat| > 0 && !Occurs(s, pat)
    ensures ReplaceAll(s, pat, rep) == s
    decreases |s|
  {
    if s != [] {
      assert !StartsAt(s, pat, 0);
      assert s[0..] == s;
      forall i | 0 <= i <= |s[1..]| ensures !StartsAt(s[1..], pat, i) {
        assert s[1..][i..] == s[i + 1..];
        assert !StartsAt(s, pat, i + 1);
      }
      ReplaceAllAbsent(s[1..], pat, rep);
    }
  }

  /** `s.find(t)`: the first index at which `t` occurs in `s`. */
  function IndexOf(s: string, t: string): (r: Option<nat>)
    ensures r.Some? ==> r.value + |t| <= |s| && s[r.value..r.value + |t|] == t
    ensures r.Some? ==> forall j :: 0 <= j < r.value ==> !StartsAt(s, t, j)
    ensures r.None? ==> !Occurs(s, t)
    decreases |s|
  {
    if StartsWith(s, t) then
      assert s[0..] == s;
      Some(0)
    else if s == [] then
      assert forall i :: 0 <= i <= |s| ==> !StartsAt(s, t, i) by {
        assert s[0..] == s;
      }
      None
    else
      match IndexOf(s[1..], t)
      case None =>
        NotOccursStep(s, t);
        None
      case Some(i) =>
        IndexOfStep(s, t, i);
        Some(i + 1)
  }

  /** No occurrence at the front nor in the tail: none at all. */
  lemma NotOccursStep(s: string, t: string)
    requires s != [] && !StartsWith(s, t) && !Occurs(s[1..], t)
    ensures !Occurs(s, t)
  {
    forall i | 1 <= i <= |s|
      ensures !StartsAt(s, t, i)
    {
      assert s[i..] == s[1..][i - 1..];
      assert !StartsAt(s[1..], t, i - 1);
    }
    assert s[0..] == s;
  }

  /** The first occurrence in the tail, one further on, is the first in the
      whole text when the text does not start with it. */
  lemma IndexOfStep(s: string, t: string, i: nat)
    requires s != [] && !StartsWith(s, t)
    requires i + |t| <= |s[1..]| && s[1..][i..i + |t|] == t
    requires forall j :: 0 <= j < i ==> !StartsAt(s[1..], t, j)
    ensures i + 1 + |t| <= |s| && s[i + 1..i + 1 + |t|] == t
    ensures forall j :: 0 <= j < i + 1 ==> !StartsAt(s, t, j)
  {
    assert s[i + 1..i + 1 + |t|] == s[1..][i..i + |t|];
    forall j | 1 <= j < i + 1
      ensures !StartsAt(s, t, j)
    {
      assert s[j..] == s[1..][j - 1..];
      assert !StartsAt(s[1..], t, j - 1);
    }
    assert s[0..] == s;
  }

  /** Concatenation of a list of strings, in order. */
  function Concat(ss: seq<string>): string
    decreases |ss|
  {
    if ss == [] then [] else Concat(ss[..|ss| - 1]) + ss[|ss| - 1]
  }

  function TotalLength(ss: seq<string>): nat
    decreases |ss|
  {
    if ss == [] then 0 else TotalLength(ss[..|ss| - 1]) + |ss[|ss| - 1]|
  }

  lemma {:induction false} ConcatAppend(a: seq<string>, b: seq<string>)
    ensures Concat(a + b) == Concat(a) + Concat(b)
    ensures TotalLength(a + b) == TotalLength(a) + TotalLength(b)
    decreases |b|
  {
    if b == [] {
      assert a + b == a;
    } else {
      var init, last := b[..|b| - 1], b[|b| - 1];
      assert (a + b)[..|a + b| - 1] == a + init;
      assert (a + b)[|a + b| - 1] == last;
      ConcatAppend(a, init);
      ConcatLast(a + b);
      ConcatLast(b);
      assert Concat(a + b) == (Concat(a) + Concat(init)) + last;
    }
  }

  /** The last string comes last. */
  lemma ConcatLast(ss: seq<string>)
    requires ss != []
    ensures Concat(ss) == Concat(ss[..|ss| - 1]) + ss[|ss| - 1]
    ensures TotalLength(ss) == TotalLength(ss[..|ss| - 1]) + |ss[|ss| - 1]|
  {
  }

  lemma {:induction false} ConcatLength(ss: seq<string>)
    ensures |Concat(ss)| == TotalLength(ss)
    decreases |ss|
  {
    if ss != [] {
      ConcatLength(ss[..|ss| - 1]);
    }
  }

  /** The number of bytes UTF-8 spends on one character. */
  function Utf8Width(c: char): (n: nat)
    ensures 1 <= n <= 4
    ensures n == 1 <==> c < '\U{0080}'
  {
    if c < '\U{0080}' then 1 else if c < '\U{0800}' then 2 else if c < '\U{10000}' then 3 else 4
  }

  /** `std::string::size()` of the UTF-8 encoding of `s`: its byte count. */
  function Utf8Size(s: string): (n: nat)
    ensures n >= |s|
    decreases |s|
  {
    if s == [] then 0 else Utf8Width(s[0]) + Utf8Size(s[1..])
  }

  /** The byte count equals the character count exactly when every
      character is ASCII. */
  lemma {:induction false} Utf8SizeIsLength(s: string)
    ensures Utf8Size(s) == |s| <==> forall k :: 0 <= k < |s| ==> s[k] < '\U{0080}'
    decreases |s|
  {
    if s != [] {
      Utf8SizeIsLength(s[1..]);
      assert forall k :: 1 <= k < |s| ==> s[k] == s[1..][k - 1];
    }
  }

  lemma {:induction false} Utf8SizeAppend(a: string, b: string)
    ensures Utf8Size(a + b) == Utf8Size(a) + Utf8Size(b)
    decreases |a|
  {
    if a == [] {
      assert a + b == b;
    } else {
      assert (a + b)[1..] == a[1..] + b;
      Utf8SizeAppend(a[1..], b);
    }
  }

  /** No character takes more than four bytes. */
  lemma {:induction false} Utf8SizeAtMost(s: string)
    ensures Utf8Size(s) <= 4 * |s|
    decreases |s|
  {
    if s != [] {
      Utf8SizeAtMost(s[1..]);
    }
  }

  // Sequence identities, stated once so that proofs about strings need not
  // rediscover them by extensionality.

  lemma TakeDrop<T>(s: seq<T>, k: nat)
    requires k <= |s|
    ensures s[..k] + s[k..] == s
  {
  }

  lemma AppendAssoc<T>(a: seq<T>, b: seq<T>, c: seq<T>)
    ensures a + (b + c) == (a + b) + c
  {
  }

  lemma AppendParts<T>(a: seq<T>, b: seq<T>)
    ensures (a + b)[..|a|] == a && (a + b)[|a|..] == b
  {
  }

  lemma DropSplit<T>(s: seq<T>, i: nat, e: nat)
    requires i <= e <= |s|
    ensures s[i..] == s[i..e] + s[e..]
  {
  }
}
