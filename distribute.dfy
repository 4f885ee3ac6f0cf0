/** Type distribution (`map_buffer`, defmac.cpp:397-414): when a capture is
    spliced into a placeholder that a `$<T>name` annotation typed, every
    identifier of the capture gets `T ` in front of it. */
module Distribution {
  import opened Base
  import opened Text
  import opened RegexShape

  /** The first identifier start at or after `k`, or `|s|`. */
  function IdentFrom(s: string, k: nat): (p: nat)
    requires k <= |s|
    ensures k <= p <= |s| && (p < |s| ==> IsIdentStart(s[p]))
    ensures forall j :: k <= j < p ==> !IsIdentStart(s[j])
    decreases |s| - k
  {
    if k == |s| || IsIdentStart(s[k]) then k else IdentFrom(s, k + 1)
  }

  predicate NoIdent(s: string) {
    forall j :: 0 <= j < |s| ==> !IsIdentStart(s[j])
  }

  /** `regex_search(s, m, regex("[_[:alpha:]]\\w*"))`: the leftmost
      identifier, with the text before and after it. */
  function FindIdent(s: string): (r: Option<Match>)
    ensures r.None? <==> NoIdent(s)
    ensures r.Some? ==> r.value.Splits(s) && |r.value.groups| == 1 && |r.value.groups[0]| > 0
  {
    var p := IdentFrom(s, 0);
    if p == |s| then None
    else
      var e := WordEnd(s, p);
      SplitThree(s, p, e);
      Some(Match(s[..p], [s[p..e]], s[e..]))
  }

  /** `T ` before every identifier, left to right; every other character
      as it was. */
  function Distribute(t: string, s: string): string
    decreases |s|
  {
    if s == [] then []
    else if IsIdentStart(s[0]) then t + " " + s[..WordEnd(s, 0)] + Distribute(t, s[WordEnd(s, 0)..])
    else [s[0]] + Distribute(t, s[1..])
  }

  /** Text without an identifier is left as it is. */
  lemma {:induction false} DistributeNoIdent(t: string, s: string)
    requires NoIdent(s)
    ensures Distribute(t, s) == s
    decreases |s|
  {
    if s != [] {
      DistributeNoIdent(t, s[1..]);
    }
  }

  /** Text without an identifier start goes through before the first identifier. */
  lemma {:induction false} DistributeSkip(t: string, s: string, p: nat)
    requires p <= |s| && forall j :: 0 <= j < p ==> !IsIdentStart(s[j])
    ensures Distribute(t, s) == s[..p] + Distribute(t, s[p..])
    decreases p
  {
    if p > 0 {
      DistributeSkip(t, s[1..], p - 1);
      assert s[1..][p - 1..] == s[p..];
      assert s[..p] == [s[0]] + s[1..][..p - 1];
    }
  }

  /** Distributing over the leftmost identifier the search finds. */
  lemma DistributeFind(t: string, s: string)
    requires FindIdent(s).Some?
    ensures var m := FindIdent(s).value;
      Distribute(t, s) == m.prefix + t + " " + m.groups[0] + Distribute(t, m.suffix)
  {
    var p := IdentFrom(s, 0);
    var e := WordEnd(s, p);
    FindIdentAt(s);
    DistributeSkip(t, s, p);
    DistributeAt(t, s, p);
    Regroup(s[..p], t, s[p..e], Distribute(t, s[e..]));
  }

  lemma Regroup(a: string, t: string, w: string, d: string)
    ensures a + (t + " " + w + d) == a + t + " " + w + d
  {
  }

  lemma FindIdentAt(s: string)
    requires FindIdent(s).Some?
    ensures var p := IdentFrom(s, 0); var e := WordEnd(s, p);
      p < |s| && FindIdent(s).value == Match(s[..p], [s[p..e]], s[e..])
  {
  }

  /** Distribution from an identifier start: the type, the identifier, and the rest. */
  lemma DistributeAt(t: string, s: string, p: nat)
    requires p < |s| && IsIdentStart(s[p])
    ensures Distribute(t, s[p..]) == t + " " + s[p..WordEnd(s, p)] + Distribute(t, s[WordEnd(s, p)..])
  {
    var s' := s[p..];
    var e := WordEnd(s, p);
    WordEndDrop(s, p);
    assert s'[0] == s[p];
    assert s'[..e - p] == s[p..e];
    assert s'[e - p..] == s[e..];
  }

  /** The run of word characters is found the same from a later start. */
  lemma WordEndDrop(s: string, p: nat)
    requires p < |s|
    ensures WordEnd(s[p..], 0) == WordEnd(s, p) - p
  {
    WordEndRun(s, p);
    var s' := s[p..];
    var e := WordEnd(s, p);
    assert forall k :: 0 <= k < e - p ==> s'[k] == s[p + k];
    assert e - p < |s'| ==> s'[e - p] == s[e];
    WordEndIs(s', 0, e - p);
  }

  /** A whole identifier gets the type in front of it. */
  lemma DistributeIdent(t: string, w: string)
    requires |w| > 0 && IsIdentStart(w[0]) && AllWord(w)
    ensures Distribute(t, w) == t + " " + w
  {
    WordEndIs(w, 0, |w|);
    assert w[..|w|] == w;
    assert w[|w|..] == [];
  }

  /** Distribution works piece by piece when the pieces meet at a
      non-word character, so that no identifier spans the cut. */
  lemma {:induction false} DistributeAppend(t: string, a: string, b: string)
    requires a == [] || b == [] || !IsWord(a[|a| - 1]) || !IsWord(b[0])
    ensures Distribute(t, a + b) == Distribute(t, a) + Distribute(t, b)
    decreases |a|
  {
    if a == [] {
      assert a + b == b;
    } else if IsIdentStart(a[0]) {
      var e := WordEnd(a, 0);
      DistributeAppend(t, a[e..], b);
      DistributeAppendIdent(t, a, b);
    } else {
      DistributeAppend(t, a[1..], b);
      assert (a + b)[1..] == a[1..] + b;
    }
  }

  /** The step of `DistributeAppend` at an identifier that starts `a`. */
  lemma DistributeAppendIdent(t: string, a: string, b: string)
    requires a != [] && IsIdentStart(a[0])
    requires b == [] || !IsWord(a[|a| - 1]) || !IsWord(b[0])
    requires var e := WordEnd(a, 0); Distribute(t, a[e..] + b) == Distribute(t, a[e..]) + Distribute(t, b)
    ensures Distribute(t, a + b) == Distribute(t, a) + Distribute(t, b)
  {
    var e := WordEnd(a, 0);
    DistributeAppendHead(t, a, b);
    DistributeIdentStep(t, a);
    Reassociate(Distribute(t, a + b), Distribute(t, a), t + " " + a[..e], Distribute(t, a[e..]), Distribute(t, b));
  }

  /** The identifier that starts `a` is the one that starts `a + b`. */
  lemma DistributeAppendHead(t: string, a: string, b: string)
    requires a != [] && IsIdentStart(a[0])
    requires b == [] || !IsWord(a[|a| - 1]) || !IsWord(b[0])
    ensures var e := WordEnd(a, 0); Distribute(t, a + b) == t + " " + a[..e] + Distribute(t, a[e..] + b)
  {
    var e := WordEnd(a, 0);
    AppendWordEnd(a, b);
    SliceAppend(a, b, e);
    DistributeIdentStep(t, a + b);
  }

  lemma Reassociate(x: string, y: string, p: string, u: string, v: string)
    requires x == p + (u + v) && y == p + u
    ensures x == y + v
  {
  }

  /** Distribution at a leading identifier: the type, the identifier, and the rest. */
  lemma DistributeIdentStep(t: string, s: string)
    requires s != [] && IsIdentStart(s[0])
    ensures var e := WordEnd(s, 0); Distribute(t, s) == t + " " + s[..e] + Distribute(t, s[e..])
  {
  }

  lemma SliceAppend(a: string, b: string, e: nat)
    requires e <= |a|
    ensures (a + b)[..e] == a[..e] && (a + b)[e..] == a[e..] + b
  {
  }

  /** A word that ends inside `a`, or at its end before a non-word
      character, ends at the same place in `a + b`. */
  lemma AppendWordEnd(a: string, b: string)
    requires a != [] && (b == [] || !IsWord(a[|a| - 1]) || !IsWord(b[0]))
    ensures WordEnd(a + b, 0) == WordEnd(a, 0)
  {
    var s := a + b;
    var e := WordEnd(a, 0);
    WordEndRun(a, 0);
    assert forall k :: 0 <= k < e ==> IsWord(s[k]) by {
      forall k | 0 <= k < e
        ensures IsWord(s[k])
      {
        assert s[k] == a[k];
      }
    }
    assert e < |s| ==> !IsWord(s[e]) by {
      if e < |a| {
        assert s[e] == a[e];
      } else if e < |s| {
        assert s[e] == b[0];
      }
    }
    WordEndIs(s, 0, e);
  }

  /** Number of identifiers the search finds in `s`. */
  function IdentCount(s: string): nat
    decreases |s|
  {
    if s == [] then 0
    else if IsIdentStart(s[0]) then 1 + IdentCount(s[WordEnd(s, 0)..])
    else IdentCount(s[1..])
  }

  /** Each identifier costs the type and a space, and nothing else changes length. */
  lemma {:induction false} DistributeLength(t: string, s: string)
    ensures |Distribute(t, s)| == |s| + (|t| + 1) * IdentCount(s)
    decreases |s|
  {
    if s != [] {
      if IsIdentStart(s[0]) {
        var e := WordEnd(s, 0);
        DistributeLength(t, s[e..]);
        assert Distribute(t, s) == t + " " + s[..e] + Distribute(t, s[e..]);
        assert IdentCount(s) == 1 + IdentCount(s[e..]);
        assert |s| == |s[..e]| + |s[e..]|;
        var k, n := |t| + 1, IdentCount(s[e..]);
        assert k * (1 + n) == k + k * n;
      } else {
        DistributeLength(t, s[1..]);
        assert Distribute(t, s) == [s[0]] + Distribute(t, s[1..]);
      }
    }
  }

  /** The distribution loop of `map_buffer` for a capture typed `t`: splice
      `t ` before each identifier the search finds, keep the text after the
      last one, and fall back to the capture itself when nothing was
      collected. */
  method DistributeType(t: string, capture: string) returns (r: string)
    ensures r == Distribute(t, capture)
  {
    var instance := capture;
    var prefixed := "";
    var suffixBuffer := "";
    ghost var matched := false;
    while FindIdent(instance).Some?
      invariant prefixed + Distribute(t, instance) == Distribute(t, capture)
      invariant matched ==> suffixBuffer == instance && prefixed != []
      invariant !matched ==> suffixBuffer == [] && prefixed == [] && instance == capture
      decreases |instance|
    {
      var m := FindIdent(instance).value;
      DistributeFind(t, instance);
      prefixed := prefixed + (m.prefix + t + " " + m.groups[0]);
      instance := m.suffix;
      suffixBuffer := m.suffix;
      matched := true;
    }
    DistributeNoIdent(t, instance);
    prefixed := prefixed + suffixBuffer;
    r := if prefixed != [] then prefixed else capture;
  }
}
