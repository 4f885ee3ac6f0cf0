/** The pattern compiler of `parse_defmac_macros` (defmac.cpp:313-340)
    read on the syntax's own parts. A syntax is a sequence of items: a
    literal character, a variable `$name`, or (after the backreference
    loop) a backreference. Each text-level step of `Patterns` is proved to
    be an item-level step here, so that the regex a syntax compiles to is
    `Emit` of a known element sequence. */
module Compiler {
  import opened Base
  import opened Text
  import opened RegexShape
  import opened Patterns
  import opened Templates

  datatype Item = Chr(c: char) | Var(name: string) | Ref(group: nat)
  {
    /** Items after which no word character may follow: a variable name
        runs to the last word character, and a `$` followed by one would
        have been a variable. */
    predicate StopsWord() { Var? || Ref? || this == Chr('$') }

    predicate IsWordChr() { Chr? && IsWord(c) }

    predicate NameOk() { Var? ==> |name| > 0 && AllWord(name) }
  }

  /** A syntax split into its variables (`$` and a maximal run of word
      characters, as `(\$\w+)` finds them) and the characters between. */
  function Items(s: string): seq<Item>
    decreases |s|
  {
    if s == [] then []
    else if 2 <= |s| && s[0] == '$' && IsWord(s[1]) then [Var(s[1..WordEnd(s, 1)])] + Items(s[WordEnd(s, 1)..])
    else [Chr(s[0])] + Items(s[1..])
  }

  /** The names of the variables, in order, repeats included. */
  function Names(items: seq<Item>): seq<string>
    decreases |items|
  {
    if items == [] then [] else (if items[0].Var? then [items[0].name] else []) + Names(items[1..])
  }

  /** How the compiler's text spells each item: an escaped character, the
      escaped variable `\$name`, or the backreference `\n`. */
  function SpellItem(it: Item): string {
    match it
    case Chr(c) => EscapeChar(c)
    case Var(n) => EscapedVar(n)
    case Ref(g) => "\\" + NatToString(g)
  }

  function Spell(items: seq<Item>): string
    decreases |items|
  {
    if items == [] then [] else SpellItem(items[0]) + Spell(items[1..])
  }

  /** The regex element an item becomes once the wildcards are in. */
  function ElemOf(it: Item): Elem {
    match it
    case Chr(c) => Lit(c)
    case Var(_) => Lazy
    case Ref(g) => BackRef(g)
  }

  function Elems(items: seq<Item>): (es: seq<Elem>)
    ensures |es| == |items| && forall i :: 0 <= i < |items| ==> es[i] == ElemOf(items[i])
    decreases |items|
  {
    if items == [] then [] else [ElemOf(items[0])] + Elems(items[1..])
  }

  /** Every name is a non-empty word, and no word character follows an
      item that stops words. */
  predicate Tight(items: seq<Item>)
    decreases |items|
  {
    items == [] ||
    (items[0].NameOk()
     && (|items| > 1 && items[0].StopsWord() ==> !items[1].IsWordChr())
     && Tight(items[1..]))
  }

  predicate NoRefs(items: seq<Item>) {
    forall it :: it in items ==> !it.Ref?
  }

  /** What may follow the spelling of `it`: never a `$` (it is always
      escaped), and no word character after an item that stops words. */
  predicate Follows(it: Item, y: string) {
    y == [] || (y[0] != '$' && (it.StopsWord() ==> !IsWord(y[0])))
  }

  // ---------------------------------------------------------------------
  // Spelling

  lemma {:induction false} SpellAppend(a: seq<Item>, b: seq<Item>)
    ensures Spell(a + b) == Spell(a) + Spell(b)
    decreases |a|
  {
    if a == [] {
      assert a + b == b;
    } else {
      assert (a + b)[1..] == a[1..] + b;
      SpellAppend(a[1..], b);
    }
  }

  lemma WordNotControl(c: char)
    requires IsWord(c)
    ensures !IsControl(c) && c != '$' && c != '\\'
  {
  }

  /** A spelling never starts with `$`, and starts with a word character
      exactly when its first item is one. */
  lemma SpellHead(items: seq<Item>)
    ensures Spell(items) == [] <==> items == []
    ensures items != [] ==> Spell(items)[0] != '$' && (IsWord(Spell(items)[0]) <==> items[0].IsWordChr())
  {
    if items != [] {
      var it := items[0];
      assert Spell(items) == SpellItem(it) + Spell(items[1..]);
      match it
      case Chr(c) =>
        if IsWord(c) { WordNotControl(c); }
      case Var(n) =>
      case Ref(g) =>
    }
  }

  /** In a tight sequence, what follows each item's spelling may follow it. */
  lemma TightFollows(items: seq<Item>)
    requires Tight(items) && items != []
    ensures Follows(items[0], Spell(items[1..]))
  {
    SpellHead(items[1..]);
  }

  lemma {:induction false} TightAt(items: seq<Item>, i: nat)
    requires Tight(items) && i < |items|
    ensures items[i].NameOk()
    ensures i + 1 < |items| && items[i].StopsWord() ==> !items[i + 1].IsWordChr()
    decreases i
  {
    if i > 0 {
      TightAt(items[1..], i - 1);
    }
  }

  lemma {:induction false} TightSuffix(items: seq<Item>, k: nat)
    requires Tight(items) && k <= |items|
    ensures Tight(items[k..])
    decreases k
  {
    if k > 0 {
      TightSuffix(items[1..], k - 1);
      assert items[1..][k - 1..] == items[k..];
    }
  }

  // ---------------------------------------------------------------------
  // Escaping

  /** The first item of a syntax is its first variable or character. */
  lemma ItemsHead(s: string)
    requires s != []
    ensures Items(s) != []
    ensures Items(s)[0].Var? ==> s[0] == '$'
    ensures Items(s)[0].Chr? ==> Items(s)[0].c == s[0]
    ensures !Items(s)[0].Ref?
  {
  }

  /** Escaping takes the characters one at a time. */
  lemma EmitLiteralsHead(t: string)
    requires t != []
    ensures Emit(Literals(t)) == EscapeChar(t[0]) + Emit(Literals(t[1..]))
  {
    var ls := Literals(t);
    assert ls[1..] == Literals(t[1..]);
    assert EmitElem(ls[0]) == EscapeChar(t[0]);
  }

  /** Escaping a run of word characters leaves it as it is. */
  lemma EmitLiteralsWord(w: string, rest: string)
    requires AllWord(w)
    ensures Emit(Literals(w + rest)) == w + Emit(Literals(rest))
  {
    LiteralsAppend(w, rest);
    EmitAppend(Literals(w), Literals(rest));
    EmitWord(w);
  }

  lemma LiteralsAppend(a: string, b: string)
    ensures Literals(a + b) == Literals(a) + Literals(b)
  {
    var l, r := Literals(a + b), Literals(a) + Literals(b);
    forall i | 0 <= i < |l|
      ensures l[i] == r[i]
    {
      if i < |a| {
        assert (a + b)[i] == a[i];
      } else {
        assert (a + b)[i] == b[i - |a|];
      }
    }
  }

  lemma {:induction false} EmitWord(w: string)
    requires AllWord(w)
    ensures Emit(Literals(w)) == w
    decreases |w|
  {
    if w != [] {
      EmitLiteralsHead(w);
      AllWordTail(w);
      EmitWord(w[1..]);
      assert [w[0]] + w[1..] == w;
    }
  }

  lemma AllWordTail(w: string)
    requires AllWord(w) && w != []
    ensures IsWord(w[0]) && AllWord(w[1..]) && EscapeChar(w[0]) == [w[0]]
  {
    WordNotControl(w[0]);
    forall k | 0 <= k < |w[1..]| ensures IsWord(w[1..][k]) { assert w[1..][k] == w[k + 1]; }
  }

  /** The facts `SpellLiterals` states, for one syntax. */
  predicate SpelledAsItems(s: string) {
    && Emit(Literals(s)) == Spell(Items(s))
    && Tight(Items(s)) && NoRefs(Items(s))
    && Names(Items(s)) == VarNames(s)
  }

  /** The escaping loop's text is the spelling of the syntax's items, which
      are tight and hold no backreference. */
  lemma {:induction false} SpellLiterals(s: string)
    ensures SpelledAsItems(s)
    decreases |s|
  {
    if s == [] {
    } else if 2 <= |s| && s[0] == '$' && IsWord(s[1]) {
      SpellLiterals(s[WordEnd(s, 1)..]);
      SpellLiteralsVar(s);
    } else {
      SpellLiterals(s[1..]);
      SpellLiteralsChr(s);
    }
  }

  lemma SpellLiteralsVar(s: string)
    requires 2 <= |s| && s[0] == '$' && IsWord(s[1])
    requires SpelledAsItems(s[WordEnd(s, 1)..])
    ensures SpelledAsItems(s)
  {
    var e := WordEnd(s, 1);
    var w, rest := s[1..e], s[e..];
    EscapeVar(s);
    var items := Items(s);
    assert items == [Var(w)] + Items(rest);
    assert items[1..] == Items(rest);
    if rest != [] {
      ItemsHead(rest);
    }
    assert VarNames(s) == [w] + VarNames(rest);
  }

  /** A variable is escaped as `\$` and its name. */
  lemma EscapeVar(s: string)
    requires 2 <= |s| && s[0] == '$' && IsWord(s[1])
    ensures var e := WordEnd(s, 1);
      && |s[1..e]| > 0 && AllWord(s[1..e]) && (e == |s| || !IsWord(s[e]))
      && Emit(Literals(s)) == "\\$" + s[1..e] + Emit(Literals(s[e..]))
  {
    var e := WordEnd(s, 1);
    var w, rest := s[1..e], s[e..];
    WordEndRun(s, 1);
    WordRunAllWord(s, 1);
    EmitLiteralsHead(s);
    assert EscapeChar(s[0]) == "\\$";
    DropSplit(s, 1, e);
    EmitLiteralsWord(w, rest);
    AppendAssoc("\\$", w, Emit(Literals(rest)));
  }

  lemma SpellLiteralsChr(s: string)
    requires s != [] && !(2 <= |s| && s[0] == '$' && IsWord(s[1]))
    requires SpelledAsItems(s[1..])
    ensures SpelledAsItems(s)
  {
    EmitLiteralsHead(s);
    var items := Items(s);
    assert items == [Chr(s[0])] + Items(s[1..]);
    assert items[1..] == Items(s[1..]);
    if s[1..] != [] {
      ItemsHead(s[1..]);
    }
    assert VarNames(s) == VarNames(s[1..]);
  }

  // ---------------------------------------------------------------------
  // The variables the backreference loop finds

  /** The escaped variables of one item's spelling. */
  lemma EscVarNamesItem(it: Item, y: string)
    requires it.NameOk() && Follows(it, y)
    ensures EscVarNames(SpellItem(it) + y) == (if it.Var? then [it.name] else []) + EscVarNames(y)
  {
    match it
    case Chr(c) => EscVarNamesChr(c, y);
    case Var(n) => EscVarNamesVar(n, y);
    case Ref(g) => EscVarNamesRef(g, y);
  }

  lemma EscVarNamesChr(c: char, y: string)
    requires Follows(Chr(c), y)
    ensures EscVarNames(SpellItem(Chr(c)) + y) == EscVarNames(y)
  {
    if IsControl(c) {
      assert SpellItem(Chr(c)) + y == ['\\'] + ([c] + y);
      EscVarNamesSkip('\\', [c] + y);
    } else {
      assert SpellItem(Chr(c)) + y == [c] + y;
    }
    EscVarNamesSkip(c, y);
  }

  lemma EscVarNamesVar(n: string, y: string)
    requires |n| > 0 && AllWord(n) && Follows(Var(n), y)
    ensures EscVarNames(SpellItem(Var(n)) + y) == [n] + EscVarNames(y)
  {
    var s := SpellItem(Var(n)) + y;
    assert s[2..2 + |n|] == n && s[2 + |n|..] == y;
    WordEndIs(s, 2, 2 + |n|);
  }

  lemma EscVarNamesRef(g: nat, y: string)
    ensures EscVarNames(SpellItem(Ref(g)) + y) == EscVarNames(y)
  {
    var d := NatToString(g);
    assert SpellItem(Ref(g)) + y == ['\\'] + (d + y);
    EscVarNamesSkip('\\', d + y);
    EscVarNamesNoBackslash(d, y);
  }

  /** The backreference loop finds exactly the variables of the items. */
  lemma {:induction false} EscVarNamesSpell(items: seq<Item>)
    requires Tight(items)
    ensures EscVarNames(Spell(items)) == Names(items)
    decreases |items|
  {
    if items != [] {
      TightFollows(items);
      EscVarNamesItem(items[0], Spell(items[1..]));
      EscVarNamesSpell(items[1..]);
    }
  }

  // ---------------------------------------------------------------------
  // Wildcards

  lemma {:induction false} WildcardsPlain(x: string, y: string)
    requires '\\' !in x
    ensures Wildcards(x + y) == x + Wildcards(y)
    decreases |x|
  {
    if x != [] {
      assert x[0] in x && forall c :: c in x[1..] ==> c in x;
      assert (x + y)[1..] == x[1..] + y;
      WildcardsPlain(x[1..], y);
    } else {
      assert x + y == y;
    }
  }

  /** The wildcard replacement of one item's spelling. */
  lemma WildcardsItem(it: Item, y: string)
    requires it.NameOk() && Follows(it, y)
    ensures Wildcards(SpellItem(it) + y) == EmitElem(ElemOf(it)) + Wildcards(y)
  {
    match it
    case Chr(c) =>
      if IsControl(c) { WildcardsEscaped(c, y); } else { WildcardsPlain([c], y); }
    case Var(n) => WildcardsVar(n, y);
    case Ref(g) => WildcardsRef(g, y);
  }

  lemma WildcardsEscaped(c: char, y: string)
    requires IsControl(c) && Follows(Chr(c), y)
    ensures Wildcards(EscapeChar(c) + y) == EscapeChar(c) + Wildcards(y)
  {
    var s := EscapeChar(c) + y;
    assert s == ['\\', c] + y;
    assert s[1..] == [c] + y;
    assert !(|s| >= 3 && s[1] == '$' && IsWord(s[2]));
    assert Wildcards(s) == ['\\'] + Wildcards([c] + y);
    if c == '\\' {
      assert !(|[c] + y| >= 3 && ([c] + y)[1] == '$');
    }
    WildcardsPlainChar(c, y);
  }

  lemma WildcardsPlainChar(c: char, y: string)
    requires c == '\\' ==> y == [] || y[0] != '$'
    ensures Wildcards([c] + y) == [c] + Wildcards(y)
  {
    assert ([c] + y)[1..] == y;
  }

  lemma WildcardsVar(n: string, y: string)
    requires |n| > 0 && AllWord(n) && Follows(Var(n), y)
    ensures Wildcards("\\$" + n + y) == LazyText + Wildcards(y)
  {
    var s := "\\$" + n + y;
    assert s[2..2 + |n|] == n && s[2 + |n|..] == y;
    assert s[2] == n[0];
    WordEndIs(s, 2, 2 + |n|);
  }

  lemma WildcardsRef(g: nat, y: string)
    ensures Wildcards(SpellItem(Ref(g)) + y) == EmitElem(BackRef(g)) + Wildcards(y)
  {
    var d := NatToString(g);
    var s := SpellItem(Ref(g)) + y;
    assert s == ['\\'] + (d + y);
    assert s[1..] == d + y;
    assert s[1] == d[0];
    WildcardsPlain(d, y);
  }

  /** Every variable left becomes the lazy wildcard, and every other item
      keeps its spelling: the wildcard step is `Elems`. */
  lemma {:induction false} WildcardsSpell(items: seq<Item>)
    requires Tight(items)
    ensures Wildcards(Spell(items)) == Emit(Elems(items))
    decreases |items|
  {
    if items != [] {
      TightFollows(items);
      WildcardsItem(items[0], Spell(items[1..]));
      WildcardsSpell(items[1..]);
      assert Elems(items)[1..] == Elems(items[1..]);
    }
  }

  // ---------------------------------------------------------------------
  // Backreferences

  /** Every `Var(name)` after the first one (every one, once `seen`)
      becomes the backreference `Ref(g)`; every other item is kept. */
  function Marked(items: seq<Item>, name: string, g: nat, seen: bool): (r: seq<Item>)
    ensures |r| == |items|
    decreases |items|
  {
    if items == [] then []
    else if items[0] == Var(name) then [if seen then Ref(g) else Var(name)] + Marked(items[1..], name, g, true)
    else [items[0]] + Marked(items[1..], name, g, seen)
  }

  /** Item by item: an occurrence of `name` with one before it is the
      backreference, and everything else is unchanged. */
  lemma {:induction false} MarkedAt(items: seq<Item>, name: string, g: nat, seen: bool, i: nat)
    requires i < |items|
    ensures Marked(items, name, g, seen)[i] ==
      if items[i] == Var(name) && (seen || Var(name) in items[..i]) then Ref(g) else items[i]
    decreases i
  {
    if i > 0 {
      MarkedAt(items[1..], name, g, seen || items[0] == Var(name), i - 1);
      assert items[1..][i - 1] == items[i];
      assert items[..i] == [items[0]] + items[1..][..i - 1];
    }
  }

  /** Up to and including the first occurrence nothing changes. */
  lemma {:induction false} MarkedSplit(items: seq<Item>, name: string, g: nat, q: nat)
    requires q < |items| && items[q] == Var(name) && Var(name) !in items[..q]
    ensures Marked(items, name, g, false) == items[..q + 1] + Marked(items[q + 1..], name, g, true)
    decreases q
  {
    if q > 0 {
      assert items[0] != Var(name) by { assert items[0] == items[..q][0]; }
      assert items[1..][..q - 1] == items[1..q];
      assert Var(name) !in items[1..q] by {
        forall k | 0 <= k < q - 1 ensures items[1..q][k] != Var(name) { assert items[1..q][k] == items[..q][k + 1]; }
      }
      MarkedSplit(items[1..], name, g, q - 1);
      assert items[1..][q..] == items[q + 1..];
      assert items[..q + 1] == [items[0]] + items[1..][..q];
    }
  }

  /** The position of the first `it`. */
  function FirstAt(items: seq<Item>, it: Item): (q: nat)
    requires it in items
    ensures q < |items| && items[q] == it && it !in items[..q]
    decreases |items|
  {
    if items[0] == it then 0
    else
      assert it in items[1..];
      var q := FirstAt(items[1..], it);
      assert items[..q + 1] == [items[0]] + items[1..][..q];
      q + 1
  }

  /** `t` begins nowhere inside `x` in the text `x + y`. */
  predicate NoneWithin(x: string, y: string, t: string) {
    forall p :: 0 <= p < |x| ==> !StartsAt(x + y, t, p)
  }

  lemma NoneWithinTail(x: string, y: string, t: string)
    requires x != [] && NoneWithin(x, y, t)
    ensures !StartsWith(x + y, t) && NoneWithin(x[1..], y, t) && (x + y)[1..] == x[1..] + y
  {
    assert (x + y)[0..] == x + y;
    assert !StartsAt(x + y, t, 0);
    forall p | 0 <= p < |x[1..]|
      ensures !StartsAt(x[1..] + y, t, p)
    {
      assert (x[1..] + y)[p..] == (x + y)[p + 1..];
      assert !StartsAt(x + y, t, p + 1);
    }
  }

  lemma NoneWithinJoin(a: string, b: string, c: string, t: string)
    requires NoneWithin(a, b + c, t) && NoneWithin(b, c, t)
    ensures NoneWithin(a + b, c, t)
  {
    forall p | 0 <= p < |a + b|
      ensures !StartsAt(a + b + c, t, p)
    {
      assert a + b + c == a + (b + c);
      if p >= |a| {
        assert (a + b + c)[p..] == (b + c)[p - |a|..];
        assert !StartsAt(b + c, t, p - |a|);
      } else {
        assert !StartsAt(a + (b + c), t, p);
      }
    }
  }

  /** A text that differs from `t` at some position within both does
      not start with `t`; nor does one shorter than `t`. */
  lemma DiffersAt(z: string, t: string, k: nat)
    requires k < |t| && (k < |z| ==> z[k] != t[k])
    ensures !StartsWith(z, t)
  {
    if |t| <= |z| {
      assert z[..|t|][k] == z[k];
    }
  }

  /** A text that starts with `[a] + t` has `t` after its first character. */
  lemma StartsWithTail(z: string, a: char, t: string)
    ensures StartsWith(z, [a] + t) ==> StartsWith(z[1..], t)
  {
    if StartsWith(z, [a] + t) {
      assert z[1..][..|t|] == z[..|t| + 1][1..];
    }
  }

  /** The search for `t` finds the first place where it begins. */
  lemma IndexOfIs(s: string, t: string, k: nat)
    requires StartsAt(s, t, k)
    requires forall j :: 0 <= j < k ==> !StartsAt(s, t, j)
    ensures IndexOf(s, t) == Some(k)
  {
    assert Occurs(s, t);
    var r := IndexOf(s, t);
    assert StartsAt(s, t, r.value) by {
      assert s[r.value..][..|t|] == s[r.value..r.value + |t|];
    }
  }

  lemma ReplaceAllFront(s: string, t: string, rep: string)
    requires |t| > 0 && s != [] && !StartsWith(s, t)
    ensures ReplaceAll(s, t, rep) == [s[0]] + ReplaceAll(s[1..], t, rep)
  {
  }

  /** So does the replacement of `t`. */
  lemma {:induction false} ReplaceAllSkip(x: string, y: string, t: string, rep: string)
    requires |t| > 0 && NoneWithin(x, y, t)
    ensures ReplaceAll(x + y, t, rep) == x + ReplaceAll(y, t, rep)
    decreases |x|
  {
    if x == [] {
      assert x + y == y;
    } else {
      NoneWithinTail(x, y, t);
      ReplaceAllSkip(x[1..], y, t, rep);
      ReplaceAllFront(x + y, t, rep);
      assert x == [x[0]] + x[1..];
    }
  }

  /** A `\$name` inside `x` would be a `$name` inside `x` or at the start
      of `y`. */
  lemma BackslashWithin(x: string, y: string, name: string)
    requires NoneWithin(x, y, "$" + name) && (y == [] || y[0] != '$')
    ensures NoneWithin(x, y, EscapedVar(name))
  {
    var tok := EscapedVar(name);
    assert tok == ['\\'] + ("$" + name);
    forall p | 0 <= p < |x|
      ensures !StartsAt(x + y, tok, p)
    {
      var z := (x + y)[p..];
      StartsWithTail(z, '\\', "$" + name);
      assert z[1..] == (x + y)[p + 1..];
      if p + 1 == |x| {
        DiffersAt(z, tok, 1);
      } else {
        assert !StartsAt(x + y, "$" + name, p + 1);
      }
    }
  }

  /** No `$name` begins inside the spelling of a literal character. */
  lemma NoDollarInChr(c: char, y: string, name: string)
    requires Follows(Chr(c), y) && |name| > 0 && IsWord(name[0])
    ensures NoneWithin(SpellItem(Chr(c)), y, "$" + name)
  {
    var x := SpellItem(Chr(c));
    var t := "$" + name;
    forall p | 0 <= p < |x|
      ensures !StartsAt(x + y, t, p)
    {
      var z := (x + y)[p..];
      if x[p] != '$' {
        DiffersAt(z, t, 0);
      } else {
        assert x == ['\\', '$'] && p == 1;
        assert z == "$" + y;
        DiffersAt(z, t, 1);
      }
    }
  }

  /** No `$name` begins inside the spelling of a variable whose name does
      not start with `name`. */
  lemma NoDollarInVar(n: string, y: string, name: string)
    requires |n| > 0 && AllWord(n) && Follows(Var(n), y) && |name| > 0 && AllWord(name)
    requires !StartsWith(n, name)
    ensures NoneWithin(SpellItem(Var(n)), y, "$" + name)
  {
    var x := SpellItem(Var(n));
    var t := "$" + name;
    forall p | 0 <= p < |x|
      ensures !StartsAt(x + y, t, p)
    {
      var z := (x + y)[p..];
      if p != 1 {
        if p >= 2 {
          assert x[p] == n[p - 2];
        }
        DiffersAt(z, t, 0);
      } else {
        assert z == "$" + (n + y);
        NoDollarAfter(n, y, name);
      }
    }
  }

  /** `$` and a name that does not start with `name`, followed by what
      may follow a variable, does not start with `$name`. */
  lemma NoDollarAfter(n: string, y: string, name: string)
    requires |n| > 0 && AllWord(n) && Follows(Var(n), y) && |name| > 0 && AllWord(name)
    requires !StartsWith(n, name)
    ensures !StartsWith("$" + (n + y), "$" + name)
  {
    var z, t := "$" + (n + y), "$" + name;
    if |name| <= |n| {
      if |t| <= |z| {
        assert z[..|t|] == "$" + n[..|name|];
        assert t == "$" + name;
        assert ("$" + n[..|name|])[1..] == n[..|name|];
      }
    } else {
      assert IsWord(name[|n|]);
      if y != [] {
        assert z[|n| + 1] == y[0];
      }
      DiffersAt(z, t, |n| + 1);
    }
  }

  /** Nor inside the spelling of a backreference. */
  lemma NoDollarInRef(g: nat, y: string, name: string)
    ensures NoneWithin(SpellItem(Ref(g)), y, "$" + name)
  {
    var x := SpellItem(Ref(g));
    var d := NatToString(g);
    forall p | 0 <= p < |x|
      ensures !StartsAt(x + y, "$" + name, p)
    {
      if p > 0 {
        assert x[p] == d[p - 1];
      }
      DiffersAt((x + y)[p..], "$" + name, 0);
    }
  }

  /** No `$name` begins inside an item other than `Var(name)`, as long as
      no longer name starts with `name`. */
  lemma NoDollarWithin(it: Item, y: string, name: string)
    requires it.NameOk() && Follows(it, y) && |name| > 0 && AllWord(name)
    requires it.Var? ==> !StartsWith(it.name, name)
    ensures NoneWithin(SpellItem(it), y, "$" + name)
  {
    match it
    case Chr(c) => NoDollarInChr(c, y, name);
    case Var(n) => NoDollarInVar(n, y, name);
    case Ref(g) => NoDollarInRef(g, y, name);
  }

  /** No other variable's name starts with `name`. */
  predicate PrefixFreeFor(items: seq<Item>, name: string) {
    forall it :: it in items && it.Var? && StartsWith(it.name, name) ==> it.name == name
  }

  lemma PrefixFreeTail(items: seq<Item>, name: string)
    requires items != [] && PrefixFreeFor(items, name)
    ensures PrefixFreeFor(items[1..], name)
    ensures items[0].Var? && items[0] != Var(name) ==> !StartsWith(items[0].name, name)
  {
    assert forall it :: it in items[1..] ==> it in items;
  }

  /** No `\$name` begins inside the spelling of an item other than
      `Var(name)`. */
  lemma NoTokenInItem(items: seq<Item>, name: string)
    requires Tight(items) && items != [] && PrefixFreeFor(items, name) && |name| > 0 && AllWord(name)
    requires items[0] != Var(name)
    ensures NoneWithin(SpellItem(items[0]), Spell(items[1..]), EscapedVar(name))
  {
    PrefixFreeTail(items, name);
    TightFollows(items);
    NoDollarWithin(items[0], Spell(items[1..]), name);
    BackslashWithin(SpellItem(items[0]), Spell(items[1..]), name);
  }

  /** No `\$name` begins before the first `Var(name)`. */
  lemma {:induction false} NoTokenBefore(items: seq<Item>, name: string, q: nat)
    requires Tight(items) && PrefixFreeFor(items, name) && |name| > 0 && AllWord(name)
    requires q <= |items| && Var(name) !in items[..q]
    ensures NoneWithin(Spell(items[..q]), Spell(items[q..]), EscapedVar(name))
    decreases q
  {
    if q > 0 {
      var it, rest := items[0], items[1..];
      PrefixFreeTail(items, name);
      NoTokenBeforeTail(items, name, q);
      NoTokenBefore(rest, name, q - 1);
      NoTokenInItem(items, name);
      SpellAppend(rest[..q - 1], rest[q - 1..]);
      NoneWithinJoin(SpellItem(it), Spell(rest[..q - 1]), Spell(rest[q - 1..]), EscapedVar(name));
    }
  }

  /** The first `q` items are the first one and the next `q - 1`. */
  lemma NoTokenBeforeTail(items: seq<Item>, name: string, q: nat)
    requires 0 < q <= |items| && Var(name) !in items[..q]
    ensures items[0] != Var(name) && Var(name) !in items[1..][..q - 1]
    ensures items[1..][..q - 1] + items[1..][q - 1..] == items[1..] && items[1..][q - 1..] == items[q..]
    ensures Spell(items[..q]) == SpellItem(items[0]) + Spell(items[1..][..q - 1])
  {
    assert items[..q] == [items[0]] + items[1..][..q - 1];
    assert items[0] in items[..q];
    assert forall it :: it in items[1..][..q - 1] ==> it in items[..q];
  }

  /** Replacing `$name` by the digits of `g` after the first occurrence
      turns every `\$name` there into the backreference `\g`. */
  lemma {:induction false} ReplaceMarked(items: seq<Item>, name: string, g: nat)
    requires Tight(items) && PrefixFreeFor(items, name) && |name| > 0 && AllWord(name)
    ensures ReplaceAll(Spell(items), "$" + name, NatToString(g)) == Spell(Marked(items, name, g, true))
    decreases |items|
  {
    if items != [] {
      var it, rest := items[0], items[1..];
      var y := Spell(rest);
      PrefixFreeTail(items, name);
      ReplaceMarked(rest, name, g);
      TightFollows(items);
      if it == Var(name) {
        ReplaceVar(name, g, y);
      } else {
        NoDollarWithin(it, y, name);
        ReplaceAllSkip(SpellItem(it), y, "$" + name, NatToString(g));
      }
    }
  }

  lemma ReplaceVar(name: string, g: nat, y: string)
    requires |name| > 0
    ensures ReplaceAll(SpellItem(Var(name)) + y, "$" + name, NatToString(g)) ==
      SpellItem(Ref(g)) + ReplaceAll(y, "$" + name, NatToString(g))
  {
    var t, d := "$" + name, NatToString(g);
    var r := ReplaceAll(y, t, d);
    assert SpellItem(Var(name)) + y == ['\\'] + (t + y);
    assert SpellItem(Ref(g)) + r == ['\\'] + (d + r);
    ReplaceBackslash(t + y, t, d);
    ReplaceAllMatch(t, y, d);
  }

  /** A backslash in front of `t` is kept as it is. */
  lemma ReplaceBackslash(s: string, t: string, rep: string)
    requires |t| > 0 && t[0] != '\\'
    ensures ReplaceAll(['\\'] + s, t, rep) == ['\\'] + ReplaceAll(s, t, rep)
  {
    DiffersAt(['\\'] + s, t, 0);
    assert (['\\'] + s)[1..] == s;
  }

  lemma ReplaceAllMatch(t: string, y: string, rep: string)
    requires |t| > 0
    ensures ReplaceAll(t + y, t, rep) == rep + ReplaceAll(y, t, rep)
  {
    assert (t + y)[..|t|] == t && (t + y)[|t|..] == y;
  }

  /** The spelling around a variable at position `q`. */
  lemma SpellAround(items: seq<Item>, name: string, q: nat)
    requires q < |items| && items[q] == Var(name)
    ensures Spell(items) == Spell(items[..q]) + Spell(items[q..])
    ensures Spell(items[q..]) == EscapedVar(name) + Spell(items[q + 1..])
    ensures Spell(items[..q + 1]) == Spell(items[..q]) + EscapedVar(name)
  {
    SpellSplit(items, q);
    SpellFrom(items, q);
    SpellUpTo(items, q);
  }

  /** The spelling from position `q` on. */
  lemma SpellFrom(items: seq<Item>, q: nat)
    requires q < |items|
    ensures Spell(items[q..]) == SpellItem(items[q]) + Spell(items[q + 1..])
  {
    assert items[q..][1..] == items[q + 1..];
  }

  /** The spelling up to and including position `q`. */
  lemma SpellUpTo(items: seq<Item>, q: nat)
    requires q < |items|
    ensures Spell(items[..q + 1]) == Spell(items[..q]) + SpellItem(items[q])
  {
    assert items[..q + 1] == items[..q] + [items[q]];
    SpellAppend(items[..q], [items[q]]);
    assert Spell([items[q]]) == SpellItem(items[q]) + Spell([]);
  }

  lemma SpellSplit(items: seq<Item>, k: nat)
    requires k <= |items|
    ensures Spell(items) == Spell(items[..k]) + Spell(items[k..])
  {
    TakeDrop(items, k);
    SpellAppend(items[..k], items[k..]);
  }

  /** The first `\$name` ends after the name, once the search has found
      it at `k`. */
  lemma FirstEndAt(esc: string, name: string, k: nat)
    requires Occurs(esc, EscapedVar(name)) && IndexOf(esc, EscapedVar(name)) == Some(k)
    ensures FirstEnd(esc, name) == k + |name| + 2
  {
  }

  /** Rebuilding `x + y` from a point inside `y`. */
  lemma RebuildSplit(x: string, y: string, name: string, idx: nat)
    requires |name| + 2 <= |y|
    ensures RebuildFrom(x + y, |x| + |name| + 2, name, idx) ==
      (x + y[..|name| + 2]) + ReplaceAll(y[|name| + 2..], "$" + name, NatToString(idx))
  {
    var e := |name| + 2;
    AppendParts(x, y);
    assert (x + y)[..|x| + e] == x + y[..e];
    assert (x + y)[|x| + e..] == y[e..];
  }

  /** The rebuild when the first `\$name` starts right after `x`: `x`
      and the token are kept, and the rest has `$name` replaced. */
  lemma BacktraceSplit(x: string, y: string, name: string, idx: nat)
    requires NoneWithin(x, y, EscapedVar(name)) && StartsWith(y, EscapedVar(name))
    ensures Occurs(x + y, EscapedVar(name))
    ensures Backtrace(x + y, name, idx) ==
      (x + EscapedVar(name)) + ReplaceAll(y[|name| + 2..], "$" + name, NatToString(idx))
  {
    var tok := EscapedVar(name);
    var s := x + y;
    AppendParts(x, y);
    assert StartsAt(s, tok, |x|);
    IndexOfIs(s, tok, |x|);
    FirstEndAt(s, name, |x|);
    RebuildSplit(x, y, name, idx);
  }

  /** Where the first `Var(name)` is, in the spelling: no `\$name` before
      it, and its own token. */
  lemma FindFirstVar(items: seq<Item>, name: string)
    requires Tight(items) && PrefixFreeFor(items, name) && Var(name) in items
    ensures var q := FirstAt(items, Var(name));
      && NoneWithin(Spell(items[..q]), Spell(items[q..]), EscapedVar(name))
      && StartsWith(Spell(items[q..]), EscapedVar(name))
      && Spell(items) == Spell(items[..q]) + Spell(items[q..])
      && Spell(items[q..])[|name| + 2..] == Spell(items[q + 1..])
      && Spell(items[..q + 1]) == Spell(items[..q]) + EscapedVar(name)
  {
    var q := FirstAt(items, Var(name));
    TightAt(items, q);
    SpellAround(items, name, q);
    AppendParts(EscapedVar(name), Spell(items[q + 1..]));
    NoTokenBefore(items, name, q);
  }

  /** The rebuild of lines 326-329 for a name no other name starts with:
      the text up to its first occurrence is kept, and each later
      occurrence becomes the backreference `\g`. */
  lemma BacktraceMarked(items: seq<Item>, name: string, g: nat)
    requires Tight(items) && PrefixFreeFor(items, name) && Var(name) in items
    ensures Occurs(Spell(items), EscapedVar(name))
    ensures Backtrace(Spell(items), name, g) == Spell(Marked(items, name, g, false))
  {
    var q := FirstAt(items, Var(name));
    FindFirstVar(items, name);
    TightAt(items, q);
    BacktraceSplit(Spell(items[..q]), Spell(items[q..]), name, g);
    BacktraceTail(items, name, g, q);
    MarkedSplit(items, name, g, q);
    SpellAppend(items[..q + 1], Marked(items[q + 1..], name, g, true));
  }

  /** After the first occurrence every `$name` becomes `\g`. */
  lemma BacktraceTail(items: seq<Item>, name: string, g: nat, q: nat)
    requires Tight(items) && PrefixFreeFor(items, name) && q < |items| && |name| > 0 && AllWord(name)
    ensures ReplaceAll(Spell(items[q + 1..]), "$" + name, NatToString(g)) == Spell(Marked(items[q + 1..], name, g, true))
  {
    TightSuffix(items, q + 1);
    assert PrefixFreeFor(items[q + 1..], name) by {
      assert forall it :: it in items[q + 1..] ==> it in items;
    }
    ReplaceMarked(items[q + 1..], name, g);
  }

  // ---------------------------------------------------------------------
  // The collapsed syntax

  /** No variable's name is a proper prefix of another's. */
  predicate PrefixFree(names: seq<string>) {
    forall a, b :: a in names && b in names && StartsWith(a, b) ==> a == b
  }

  /** What the backreference loop of lines 318-331 leaves, on items: only
      the name met last among the first occurrences has its repeats turned
      into backreferences, to group `2 * j + 1` for its position `j` among
      the names. */
  function Collapsed(items: seq<Item>): seq<Item> {
    match LastFirst(Names(items))
    case None => items
    case Some(j) => Marked(items, Names(items)[j], 2 * j + 1, false)
  }

  /** The elements a syntax's regex is made of before anchoring. */
  function CompiledElems(syntax: string): seq<Elem> {
    Elems(Collapsed(Items(syntax)))
  }

  lemma {:induction false} NamesAppend(a: seq<Item>, b: seq<Item>)
    ensures Names(a + b) == Names(a) + Names(b)
    decreases |a|
  {
    if a == [] {
      assert a + b == b;
    } else {
      assert (a + b)[1..] == a[1..] + b;
      NamesAppend(a[1..], b);
    }
  }

  /** A name is among the names exactly when its variable is among the items. */
  lemma {:induction false} NamesAreVars(items: seq<Item>)
    ensures forall w :: w in Names(items) <==> Var(w) in items
    decreases |items|
  {
    if items != [] {
      NamesAreVars(items[1..]);
      assert items == [items[0]] + items[1..];
    }
  }

  lemma NameIsVar(items: seq<Item>, w: string)
    requires w in Names(items)
    ensures Var(w) in items
  {
    NamesAreVars(items);
  }

  /** Prefix-free names make every name prefix-free among the items. */
  lemma PrefixFreeItems(items: seq<Item>, name: string)
    requires PrefixFree(Names(items)) && name in Names(items)
    ensures PrefixFreeFor(items, name)
  {
    NamesAreVars(items);
    forall it | it in items && it.Var? && StartsWith(it.name, name)
      ensures it.name == name
    {
      assert Var(it.name) == it;
    }
  }

  /** The backreference loop on the escaped text is `Collapsed` on items. */
  lemma CollapseItems(s: string)
    requires PrefixFree(VarNames(s))
    ensures Collapse(Emit(Literals(s))) == Spell(Collapsed(Items(s)))
  {
    SpellLiterals(s);
    CollapseSpell(Items(s));
  }

  /** The same on the spelling of tight items with prefix-free names. */
  lemma CollapseSpell(items: seq<Item>)
    requires Tight(items) && PrefixFree(Names(items))
    ensures Collapse(Spell(items)) == Spell(Collapsed(items))
  {
    var esc := Spell(items);
    var names := Names(items);
    EscVarNamesSpell(items);
    CollapseLast(esc);
    var c := Collapsed(items);
    if LastFirst(names).None? {
      assert c == items;
    } else {
      var j := LastFirst(names).value;
      PrefixFreeItems(items, names[j]);
      NameIsVar(items, names[j]);
      BacktraceMarked(items, names[j], 2 * j + 1);
      assert c == Marked(items, names[j], 2 * j + 1, false);
    }
  }

  /** Turning variables into backreferences keeps a sequence tight. */
  lemma {:induction false} TightMarked(items: seq<Item>, name: string, g: nat, seen: bool)
    requires Tight(items)
    ensures Tight(Marked(items, name, g, seen))
    decreases |items|
  {
    if items != [] {
      var seen' := seen || items[0] == Var(name);
      TightMarked(items[1..], name, g, seen');
      if |items| > 1 {
        MarkedAt(items[1..], name, g, seen', 0);
        TightAt(items, 0);
      }
    }
  }

  /** After a backreference, no digit: it stops words. */
  lemma NoDigitAfterRef(items: seq<Item>)
    requires Tight(items)
    ensures NoDigitAfterBackRef(Elems(items))
  {
    var es := Elems(items);
    forall i | 0 <= i < |es| - 1 && es[i].BackRef?
      ensures !(es[i + 1].Lit? && IsDigit(es[i + 1].c))
    {
      TightAt(items, i);
    }
  }

  /** Each variable, and only a variable, opens two groups. */
  lemma {:induction false} GroupsOfNames(items: seq<Item>)
    ensures GroupCount(Elems(items)) == 2 * |Names(items)|
    decreases |items|
  {
    if items != [] {
      GroupsOfNames(items[1..]);
      assert Elems(items)[1..] == Elems(items[1..]);
    }
  }

  lemma {:induction false} GroupCountAppend(a: seq<Elem>, b: seq<Elem>)
    ensures GroupCount(a + b) == GroupCount(a) + GroupCount(b)
    decreases |a|
  {
    if a == [] {
      assert a + b == b;
    } else {
      assert (a + b)[1..] == a[1..] + b;
      GroupCountAppend(a[1..], b);
    }
  }

  lemma ElemsPrefix(items: seq<Item>, k: nat)
    requires k <= |items|
    ensures Elems(items)[..k] == Elems(items[..k])
  {
  }

  /** The first variable named `names[j]` is preceded by exactly `j`
      names. */
  lemma FirstVarNames(items: seq<Item>, j: nat)
    requires j < |Names(items)| && Names(items)[j] !in Names(items)[..j]
    requires Var(Names(items)[j]) in items
    ensures var q := FirstAt(items, Var(Names(items)[j]));
      |Names(items[..q])| == j
  {
    var names := Names(items);
    var name := names[j];
    var q := FirstAt(items, Var(name));
    assert items == items[..q] + [Var(name)] + items[q + 1..];
    NamesAppend(items[..q] + [Var(name)], items[q + 1..]);
    NamesAppend(items[..q], [Var(name)]);
    var k := |Names(items[..q])|;
    NamesAreVars(items[..q]);
    assert names[..k] == Names(items[..q]);
    assert names[k] == name;
  }

  /** The items up to the first `Var(name)` are kept by `Marked`, and so
      are their elements. */
  lemma MarkedFront(items: seq<Item>, name: string, g: nat, q: nat)
    requires q < |items| && items[q] == Var(name) && Var(name) !in items[..q]
    ensures var es := Elems(Marked(items, name, g, false));
      es[..q] == Elems(items[..q]) && es[q] == Lazy
  {
    var c := Marked(items, name, g, false);
    MarkedSplit(items, name, g, q);
    assert c[..q] == items[..q];
    assert c[q] == Var(name);
    ElemsPrefix(c, q);
  }

  /** Past an element that opens groups, more groups are open. */
  lemma GroupsPast(es: seq<Elem>, q: nat, i: nat)
    requires q < i <= |es| && es[q].IsWildcard()
    ensures GroupCount(es[..i]) >= GroupCount(es[..q]) + 2
  {
    assert es[..i] == es[..q] + [es[q]] + es[q + 1..i];
    GroupCountAppend(es[..q] + [es[q]], es[q + 1..i]);
    GroupCountAppend(es[..q], [es[q]]);
  }

  /** The backreference the loop writes names the outer group of the
      first occurrence: `2 * j` groups open before that occurrence, whose
      element is the lazy wildcard. */
  lemma BackRefTargetsFirst(items: seq<Item>, j: nat)
    requires j < |Names(items)| && Names(items)[j] !in Names(items)[..j]
    requires Var(Names(items)[j]) in items
    ensures var name := Names(items)[j];
      var q := FirstAt(items, Var(name));
      var es := Elems(Marked(items, name, 2 * j + 1, false));
      && q < |es| && es[q] == Lazy
      && GroupCount(es[..q]) == 2 * j
  {
    var name := Names(items)[j];
    var q := FirstAt(items, Var(name));
    MarkedFront(items, name, 2 * j + 1, q);
    FirstVarNames(items, j);
    GroupsOfNames(items[..q]);
  }

  /** A backreference of `Marked` stands where `name` occurs again. */
  lemma MarkedRef(items: seq<Item>, name: string, g: nat, i: nat)
    requires NoRefs(items) && i < |items|
    requires Elems(Marked(items, name, g, false))[i].BackRef?
    ensures Var(name) in items[..i] && Elems(Marked(items, name, g, false))[i].group == g
  {
    MarkedAt(items, name, g, false, i);
    assert items[i] in items;
  }

  /** An item met among the first `i` is first met before `i`. */
  lemma FirstBefore(items: seq<Item>, it: Item, i: nat)
    requires i <= |items| && it in items[..i]
    ensures it in items && FirstAt(items, it) < i
  {
    var k :| 0 <= k < i && items[..i][k] == it;
    assert items[k] == it;
  }

  /** Each backreference `Marked` writes for `names[j]` comes after the
      group it names has closed. */
  lemma RefOpenAt(items: seq<Item>, j: nat, i: nat)
    requires NoRefs(items) && j < |Names(items)| && Names(items)[j] !in Names(items)[..j]
    requires Var(Names(items)[j]) in items && i < |items|
    requires Elems(Marked(items, Names(items)[j], 2 * j + 1, false))[i].BackRef?
    ensures var es := Elems(Marked(items, Names(items)[j], 2 * j + 1, false));
      1 <= es[i].group <= GroupCount(es[..i])
  {
    var name := Names(items)[j];
    var es := Elems(Marked(items, name, 2 * j + 1, false));
    MarkedRef(items, name, 2 * j + 1, i);
    FirstBefore(items, Var(name), i);
    BackRefTargetsFirst(items, j);
    GroupsPast(es, FirstAt(items, Var(name)), i);
  }

  /** The backreferences of a collapsed syntax name groups already closed. */
  lemma CollapsedRefsOpen(items: seq<Item>)
    requires NoRefs(items)
    ensures BackRefsOpen(Elems(Collapsed(items)))
  {
    var c := Collapsed(items);
    if LastFirst(Names(items)).None? {
      NoBackRefs(items);
      assert c == items;
    } else {
      var j := LastFirst(Names(items)).value;
      MarkedRefsOpen(items, j);
      assert c == Marked(items, Names(items)[j], 2 * j + 1, false);
    }
  }

  /** Items without backreferences make elements without them. */
  lemma NoBackRefs(items: seq<Item>)
    requires NoRefs(items)
    ensures BackRefsOpen(Elems(items))
  {
    var es := Elems(items);
    forall i | 0 <= i < |es|
      ensures !es[i].BackRef?
    {
      assert items[i] in items;
    }
  }

  /** The backreferences to the last new name's group come after it. */
  lemma MarkedRefsOpen(items: seq<Item>, j: nat)
    requires NoRefs(items) && LastFirst(Names(items)) == Some(j)
    ensures BackRefsOpen(Elems(Marked(items, Names(items)[j], 2 * j + 1, false)))
  {
    var name := Names(items)[j];
    NameIsVar(items, name);
    var es := Elems(Marked(items, name, 2 * j + 1, false));
    forall i | 0 <= i < |es| && es[i].BackRef?
      ensures 1 <= es[i].group <= GroupCount(es[..i])
    {
      RefOpenAt(items, j, i);
    }
  }

  /** The collapsed syntax's elements are well formed, so `std::regex`
      accepts them. */
  lemma CollapsedWellFormed(s: string)
    ensures WellFormed(CompiledElems(s))
  {
    var items := Items(s);
    SpellLiterals(s);
    CollapsedRefsOpen(items);
    TightCollapsed(items);
    NoDigitAfterRef(Collapsed(items));
  }

  // ---------------------------------------------------------------------
  // Anchoring and the whole compiler

  /** Two element sequences that differ at most in which wildcard stands
      at a position. */
  predicate Kindred(a: seq<Elem>, b: seq<Elem>) {
    |a| == |b| && forall i :: 0 <= i < |a| ==> a[i] == b[i] || (a[i].IsWildcard() && b[i].IsWildcard())
  }

  lemma {:induction false} KindredGroups(a: seq<Elem>, b: seq<Elem>)
    requires Kindred(a, b)
    ensures GroupCount(a) == GroupCount(b)
    decreases |a|
  {
    if a != [] {
      assert Kindred(a[1..], b[1..]) by {
        forall i | 0 <= i < |a[1..]| ensures a[1..][i] == b[1..][i] || (a[1..][i].IsWildcard() && b[1..][i].IsWildcard()) {
          assert a[1..][i] == a[i + 1] && b[1..][i] == b[i + 1];
        }
      }
      KindredGroups(a[1..], b[1..]);
    }
  }

  /** Swapping one wildcard for another keeps a sequence well formed. */
  lemma KindredWellFormed(a: seq<Elem>, b: seq<Elem>)
    requires Kindred(a, b) && WellFormed(a)
    ensures WellFormed(b)
  {
    forall i | 0 <= i < |b| && b[i].BackRef?
      ensures 1 <= b[i].group <= GroupCount(b[..i])
    {
      assert Kindred(a[..i], b[..i]);
      KindredGroups(a[..i], b[..i]);
    }
  }

  /** Anchoring only swaps lazy wildcards for non-space ones. */
  lemma AnchorKindred(es: seq<Elem>)
    ensures Kindred(es, EndElems(es)) && Kindred(EndElems(es), AnchorElems(es))
  {
  }

  /** Anchoring keeps elements well formed. */
  lemma AnchorWellFormed(es: seq<Elem>)
    requires WellFormed(es)
    ensures WellFormed(AnchorElems(es))
  {
    AnchorKindred(es);
    KindredWellFormed(es, EndElems(es));
    KindredWellFormed(EndElems(es), AnchorElems(es));
  }

  /** The compiler's text up to anchoring is `Emit` of the syntax's
      collapsed elements. */
  lemma UnanchoredIs(syntax: string)
    requires PrefixFree(VarNames(syntax))
    ensures Wildcards(Collapse(Emit(Literals(syntax)))) == Emit(CompiledElems(syntax))
  {
    var items := Items(syntax);
    CollapseItems(syntax);
    SpellLiterals(syntax);
    TightCollapsed(items);
    WildcardsSpell(Collapsed(items));
  }

  lemma TightCollapsed(items: seq<Item>)
    requires Tight(items)
    ensures Tight(Collapsed(items))
  {
    match LastFirst(Names(items))
    case None =>
    case Some(j) => TightMarked(items, Names(items)[j], 2 * j + 1, false);
  }

  /** What lines 313-340 make of a syntax whose variable names are prefix
      free: the out-of-range `replace` for a six-byte regex, and otherwise
      the anchored collapsed elements, which are well formed and which
      `std::regex` therefore accepts at line 351. */
  lemma CompiledPatternIs(syntax: string)
    requires PrefixFree(VarNames(syntax)) && Utf8Size(Emit(CompiledElems(syntax))) < Npos
    ensures var es := CompiledElems(syntax);
      && WellFormed(es)
      && (Utf8Size(Emit(es)) == 6 ==> CompiledPattern(syntax) == Err(ReplaceOutOfRange(Emit(es))))
      && (Utf8Size(Emit(es)) != 6 ==>
            && CompiledPattern(syntax) == Ok(Emit(AnchorElems(es)))
            && WellFormed(AnchorElems(es))
            && Accepted(Emit(AnchorElems(es))))
  {
    var es := CompiledElems(syntax);
    UnanchoredIs(syntax);
    CollapsedWellFormed(syntax);
    AnchorIsAnchorElems(es);
    AnchorWellFormed(es);
    ParseEmit(AnchorElems(es));
  }

  lemma ExampleItems()
    ensures Items("$x + $x") == [Var("x"), Chr(' '), Chr('+'), Chr(' '), Var("x")]
  {
    var s := "$x + $x";
    assert WordEnd(s, 2) == 2;
    assert WordEnd(s, 1) == 2;
    assert s[1..2] == "x" && s[2..] == " + $x";
    assert Items(" + $x") == [Chr(' ')] + Items("+ $x");
    assert Items("+ $x") == [Chr('+')] + Items(" $x");
    assert Items(" $x") == [Chr(' ')] + Items("$x");
    assert WordEnd("$x", 2) == 2;
    assert WordEnd("$x", 1) == 2;
    assert "$x"[1..2] == "x" && "$x"[2..] == [];
    assert Items("$x") == [Var("x")];
  }

  lemma ExampleNames()
    ensures var items := [Var("x"), Chr(' '), Chr('+'), Chr(' '), Var("x")];
      Names(items) == ["x", "x"] && LastFirst(Names(items)) == Some(0)
  {
    var items := [Var("x"), Chr(' '), Chr('+'), Chr(' '), Var("x")];
    assert Names(items[4..]) == ["x"];
    assert Names(items[3..]) == ["x"];
    assert Names(items[2..]) == ["x"];
    assert Names(items[1..]) == ["x"];
    assert ["x", "x"][..1] == ["x"];
  }

  lemma ExampleMarked()
    ensures var items := [Var("x"), Chr(' '), Chr('+'), Chr(' '), Var("x")];
      Marked(items, "x", 1, false) == [Var("x"), Chr(' '), Chr('+'), Chr(' '), Ref(1)]
  {
    var items := [Var("x"), Chr(' '), Chr('+'), Chr(' '), Var("x")];
    assert Marked(items[4..], "x", 1, true) == [Ref(1)];
    assert Marked(items[3..], "x", 1, true) == [Chr(' '), Ref(1)];
    assert Marked(items[2..], "x", 1, true) == [Chr('+'), Chr(' '), Ref(1)];
    assert Marked(items[1..], "x", 1, true) == [Chr(' '), Chr('+'), Chr(' '), Ref(1)];
  }

  lemma ExampleVarNames()
    ensures VarNames("$x + $x") == ["x", "x"]
  {
    var s := "$x + $x";
    assert WordEnd(s, 2) == 2;
    assert WordEnd(s, 1) == 2;
    assert s[1..2] == "x" && s[2..] == " + $x";
    assert VarNames(" + $x") == VarNames("+ $x");
    assert VarNames("+ $x") == VarNames(" $x");
    assert VarNames(" $x") == VarNames("$x");
    assert WordEnd("$x", 2) == 2;
    assert WordEnd("$x", 1) == 2;
    assert "$x"[1..2] == "x" && "$x"[2..] == [];
    assert VarNames("$x") == ["x"];
  }

  lemma ExampleCollapsed()
    ensures CompiledElems("$x + $x") == [Lazy, Lit(' '), Lit('+'), Lit(' '), BackRef(1)]
    ensures PrefixFree(VarNames("$x + $x"))
  {
    var items := [Var("x"), Chr(' '), Chr('+'), Chr(' '), Var("x")];
    var c := [Var("x"), Chr(' '), Chr('+'), Chr(' '), Ref(1)];
    ExampleItems();
    ExampleNames();
    ExampleMarked();
    ExampleVarNames();
    assert Collapsed(items) == c;
    assert Elems(c) == [Lazy, Lit(' '), Lit('+'), Lit(' '), BackRef(1)];
  }

  lemma ExampleEmit()
    ensures Emit([Lazy, Lit(' '), Lit('+'), Lit(' '), BackRef(1)]) == "((.)+?) \\+ \\1"
    ensures Emit([NonSpace, Lit(' '), Lit('+'), Lit(' '), BackRef(1)]) == "((\\S)+) \\+ \\1"
  {
    assert NatToString(1) == "1";
    assert EscapeChar('+') == "\\+";
    assert EscapeChar(' ') == " ";
    var tail := [Lit(' '), Lit('+'), Lit(' '), BackRef(1)];
    assert Emit([BackRef(1)]) == "\\1";
    assert Emit(tail[3..]) == "\\1";
    assert Emit(tail[2..]) == " \\1";
    assert Emit(tail[1..]) == "\\+ \\1";
    assert Emit(tail) == " \\+ \\1";
  }

  lemma ExampleSize()
    ensures 6 < Utf8Size(Emit([Lazy, Lit(' '), Lit('+'), Lit(' '), BackRef(1)])) < Npos
  {
    var t := "((.)+?) \\+ \\1";
    ExampleEmit();
    Utf8SizeAtMost(t);
    assert t == "((.)+?)" + " \\+ \\1";
  }

  lemma ExampleAnchored()
    ensures Emit(AnchorElems([Lazy, Lit(' '), Lit('+'), Lit(' '), BackRef(1)])) == "((\\S)+) \\+ \\1"
  {
    ExampleEmit();
    assert AnchorElems([Lazy, Lit(' '), Lit('+'), Lit(' '), BackRef(1)]) == [NonSpace, Lit(' '), Lit('+'), Lit(' '), BackRef(1)];
  }

  /** The repeated variable of `$x + $x` becomes a backreference to the
      first one's group, so the two sides must be the same text. */
  lemma RepeatExample()
    ensures CompiledPattern("$x + $x") == Ok("((\\S)+) \\+ \\1")
  {
    ExampleCollapsed();
    ExampleSize();
    ExampleAnchored();
    CompiledPatternIs("$x + $x");
  }

  // A name that is a prefix of another: the search of line 326 stops in
  // the longer name, and the backreference written names a group that is
  // never opened.

  lemma ClashItems()
    ensures Items("$xy $x") == [Var("xy"), Chr(' '), Var("x")]
  {
    var s := "$xy $x";
    assert WordEnd(s, 3) == 3;
    assert WordEnd(s, 2) == 3;
    assert WordEnd(s, 1) == 3;
    assert s[1..3] == "xy" && s[3..] == " $x";
    assert Items(" $x") == [Chr(' ')] + Items("$x");
    assert WordEnd("$x", 2) == 2;
    assert WordEnd("$x", 1) == 2;
    assert "$x"[1..2] == "x" && "$x"[2..] == [];
    assert Items("$x") == [Var("x")];
  }

  lemma ClashEscaped()
    ensures Emit(Literals("$xy $x")) == "\\$xy \\$x"
    ensures EscVarNames("\\$xy \\$x") == ["xy", "x"]
  {
    var items := [Var("xy"), Chr(' '), Var("x")];
    ClashItems();
    ClashItemsSpelled();
    SpellLiterals("$xy $x");
    EscVarNamesSpell(items);
  }

  lemma ClashItemsSpelled()
    ensures Spell([Var("xy"), Chr(' '), Var("x")]) == "\\$xy \\$x"
    ensures Names([Var("xy"), Chr(' '), Var("x")]) == ["xy", "x"]
  {
    var items := [Var("xy"), Chr(' '), Var("x")];
    assert Spell(items[2..]) == "\\$x";
    assert Spell(items[1..]) == " \\$x";
    assert Names(items[2..]) == ["x"];
    assert Names(items[1..]) == ["x"];
  }

  lemma ClashFound()
    ensures Occurs("\\$xy \\$x", "\\$x")
    ensures IndexOf("\\$xy \\$x", "\\$x") == Some(0)
  {
    var esc := "\\$xy \\$x";
    assert esc[0..][..3] == "\\$x";
    assert StartsAt(esc, "\\$x", 0);
    IndexOfIs(esc, "\\$x", 0);
  }

  lemma ClashReplaced()
    ensures ReplaceAll("y \\$x", "$x", NatToString(3)) == "y \\3"
  {
    assert NatToString(3) == "3";
    assert ReplaceAll("$x", "$x", "3") == "3" by {
      assert "$x"[2..] == [];
    }
    assert ReplaceAll("\\$x", "$x", "3") == "\\3" by {
      assert "\\$x"[1..] == "$x";
    }
    assert ReplaceAll(" \\$x", "$x", "3") == " \\3" by {
      assert " \\$x"[1..] == "\\$x";
    }
    assert "y \\$x"[1..] == " \\$x";
  }

  lemma ClashBacktrace(esc: string, name: string)
    requires esc == "\\$xy \\$x" && name == "x"
    ensures Occurs(esc, EscapedVar(name))
    ensures Backtrace(esc, name, 3) == "\\$xy \\3"
  {
    ClashFound();
    ClashPieces(esc, name);
    FirstEndAt(esc, name, 0);
    ClashReplaced();
  }

  lemma ClashPieces(esc: string, name: string)
    requires esc == "\\$xy \\$x" && name == "x"
    ensures EscapedVar(name) == "\\$x" && "$" + name == "$x" && |name| + 2 == 3 <= |esc|
    ensures esc[3..] == "y \\$x" && esc[..3] + "y \\3" == "\\$xy \\3"
  {
    assert esc[..3] == "\\$x";
  }

  lemma ClashCollapsed(esc: string)
    requires esc == Emit(Literals("$xy $x"))
    ensures Collapse(esc) == Spell([Var("xy"), Chr(' '), Ref(3)])
  {
    ClashEscaped();
    var names := EscVarNames(esc);
    assert names == ["xy", "x"];
    assert LastFirst(names) == Some(1) by {
      assert names[..1] == ["xy"];
    }
    assert names[..|names|] == names;
    ClashBacktrace(esc, names[1]);
    var c := [Var("xy"), Chr(' '), Ref(3)];
    ClashSpell();
  }

  lemma ClashSpell()
    ensures Spell([Var("xy"), Chr(' '), Ref(3)]) == "\\$xy \\3"
  {
    var c := [Var("xy"), Chr(' '), Ref(3)];
    assert NatToString(3) == "3";
    assert Spell(c[2..]) == "\\3";
    assert Spell(c[1..]) == " \\3";
    assert SpellItem(c[0]) == "\\$xy";
    assert "\\$xy" + " \\3" == "\\$xy \\3";
  }

  lemma ClashElems()
    ensures Wildcards(Collapse(Emit(Literals("$xy $x")))) == Emit([Lazy, Lit(' '), BackRef(3)])
  {
    var c := [Var("xy"), Chr(' '), Ref(3)];
    ClashCollapsed(Emit(Literals("$xy $x")));
    ClashTight();
    WildcardsSpell(c);
  }

  lemma ClashTight()
    ensures Tight([Var("xy"), Chr(' '), Ref(3)])
    ensures Elems([Var("xy"), Chr(' '), Ref(3)]) == [Lazy, Lit(' '), BackRef(3)]
  {
    var c := [Var("xy"), Chr(' '), Ref(3)];
    assert Tight(c[2..]);
    assert Tight(c[1..]);
  }

  lemma ClashEmit()
    ensures Emit([Lazy, Lit(' '), BackRef(3)]) == "((.)+?) \\3"
    ensures Emit([NonSpace, Lit(' '), BackRef(3)]) == "((\\S)+) \\3"
  {
    assert NatToString(3) == "3";
    assert EscapeChar(' ') == " ";
    var tail := [Lit(' '), BackRef(3)];
    assert Emit(tail[1..]) == "\\3";
    assert Emit(tail) == " \\3";
  }

  lemma ClashAnchored()
    ensures Anchor(Emit([Lazy, Lit(' '), BackRef(3)])) == Ok("((\\S)+) \\3")
  {
    var es := [Lazy, Lit(' '), BackRef(3)];
    ClashSize();
    AnchorIsAnchorElems(es);
    ClashAnchorElems();
    ClashEmit();
  }

  lemma ClashAnchorElems()
    ensures AnchorElems([Lazy, Lit(' '), BackRef(3)]) == [NonSpace, Lit(' '), BackRef(3)]
  {
    var es := [Lazy, Lit(' '), BackRef(3)];
    assert EndElems(es) == es;
    assert es[1..] == [Lit(' '), BackRef(3)];
  }

  lemma ClashSize()
    ensures 6 < Utf8Size(Emit([Lazy, Lit(' '), BackRef(3)])) < Npos
  {
    var t := "((.)+?) \\3";
    ClashEmit();
    Utf8SizeAtMost(t);
    assert t == "((.)+?)" + " \\3";
  }

  lemma ClashRejected()
    ensures !Accepted("((\\S)+) \\3")
  {
    var es := [NonSpace, Lit(' '), BackRef(3)];
    ClashEmit();
    ParseEmit(es);
    assert es[..2] == [NonSpace, Lit(' ')];
    assert GroupCount([Lit(' ')]) == 0 by {
      assert [Lit(' ')][1..] == [];
    }
    assert [NonSpace, Lit(' ')][1..] == [Lit(' ')];
  }

  /** `$xy $x`: the backreference loop finds `\$x` inside `\$xy`, keeps
      the text up to it, and turns the real `$x` into `\3`; only two
      groups are ever opened, so `std::regex` rejects the result at line
      351. */
  lemma PrefixClashExample()
    ensures CompiledPattern("$xy $x") == Ok("((\\S)+) \\3")
    ensures !Accepted("((\\S)+) \\3")
  {
    ClashElems();
    ClashAnchored();
    ClashRejected();
  }
}
