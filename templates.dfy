/** The C++ side of a definition: type annotations and numbered placeholders.

    In the C++ text of a `#defmac`, a variable may carry a type, `$<T>name`.
    The compiler records `(T, "$name")` in the type table under the
    definition's syntax and leaves a numbered comment in its place,
    `/*k*/$name`. It then replaces every whole-word `$name` that the syntax
    also uses by the placeholder `\vN`, where `N = 2i+1` and `i` is the
    position of the first `$name` among the syntax's variables. */
module Templates {
  import opened Base
  import opened Text

  /** An entry of the type table: under `key`, the variable `token` (first
      `$name`, later its placeholder `\vN`) has type `typeName`. */
  datatype Binding = Binding(key: string, typeName: string, token: string)

  // ---------------------------------------------------------------------
  // Type annotations: `\$<(\w+)>(\w+)`

  /** A type annotation `$<typeName>name`. */
  datatype Typed = Typed(typeName: string, name: string)
  {
    function Length(): nat { |typeName| + |name| + 3 }
  }

  /** The annotation that starts at position `k` of `s`, if one does. */
  function TypedAt(s: string, k: nat): (r: Option<Typed>)
    requires k <= |s|
    ensures r.Some? ==> k + r.value.Length() <= |s| && |r.value.name| > 0
  {
    if k + 2 <= |s| && s[k] == '$' && s[k + 1] == '<' then
      var te := WordEnd(s, k + 2);
      if k + 2 < te < |s| && s[te] == '>' then
        var ne := WordEnd(s, te + 1);
        if te + 1 < ne then Some(Typed(s[k + 2..te], s[te + 1..ne])) else None
      else None
    else None
  }

  /** The positions an annotation found by `TypedAt` spans. */
  lemma TypedAtParts(s: string, k: nat)
    requires k <= |s| && TypedAt(s, k).Some?
    ensures var te := WordEnd(s, k + 2); var ne := WordEnd(s, te + 1);
      && k + 2 < te < ne <= |s| && s[k] == '$' && s[k + 1] == '<' && s[te] == '>'
      && TypedAt(s, k).value == Typed(s[k + 2..te], s[te + 1..ne])
  {
  }

  /** What an annotation looks like: `$<`, a word, `>`, and a whole word. */
  lemma TypedAtShape(s: string, k: nat)
    requires k <= |s| && TypedAt(s, k).Some?
    ensures var t := TypedAt(s, k).value;
      && s[k..k + t.Length()] == "$<" + t.typeName + ">" + t.name
      && |t.typeName| > 0 && AllWord(t.typeName) && AllWord(t.name)
      && (k + t.Length() == |s| || !IsWord(s[k + t.Length()]))
  {
    TypedAtText(s, k);
    TypedAtWords(s, k);
  }

  lemma TypedAtText(s: string, k: nat)
    requires k <= |s| && TypedAt(s, k).Some?
    ensures var t := TypedAt(s, k).value;
      s[k..k + t.Length()] == "$<" + t.typeName + ">" + t.name
  {
    TypedAtParts(s, k);
    var te := WordEnd(s, k + 2);
    var ne := WordEnd(s, te + 1);
    AnnotationText(s, k, te, ne);
  }

  /** A `$<`, a stretch, a `>` and a stretch, as slices of one text. */
  lemma AnnotationText(s: string, k: nat, te: nat, ne: nat)
    requires k + 2 < te < ne <= |s| && s[k] == '$' && s[k + 1] == '<' && s[te] == '>'
    ensures s[k..ne] == "$<" + s[k + 2..te] + ">" + s[te + 1..ne]
  {
    SliceJoin(s, k, k + 2, ne);
    SliceJoin(s, k + 2, te, ne);
    SliceJoin(s, te, te + 1, ne);
    assert s[k..k + 2] == "$<" && s[te..te + 1] == ">";
  }

  lemma TypedAtWords(s: string, k: nat)
    requires k <= |s| && TypedAt(s, k).Some?
    ensures var t := TypedAt(s, k).value;
      && |t.typeName| > 0 && AllWord(t.typeName) && AllWord(t.name)
      && (k + t.Length() == |s| || !IsWord(s[k + t.Length()]))
  {
    TypedAtParts(s, k);
    var te := WordEnd(s, k + 2);
    WordRunAllWord(s, k + 2);
    WordRunAllWord(s, te + 1);
    WordEndRun(s, te + 1);
  }

  /** No annotation starts at a position in `[lo, hi)`. */
  predicate NoTypedIn(s: string, lo: nat, hi: nat)
    requires lo <= hi <= |s|
  {
    forall j :: lo <= j < hi ==> TypedAt(s, j).None?
  }

  /** `regex_search` for `variable_prefix_token` from position `k`: the
      leftmost annotation. */
  function FindTyped(s: string, k: nat): (r: Option<nat>)
    requires k <= |s|
    ensures r.Some? ==> k <= r.value < |s| && TypedAt(s, r.value).Some? && NoTypedIn(s, k, r.value)
    ensures r.None? ==> NoTypedIn(s, k, |s|)
    decreases |s| - k
  {
    if k == |s| then None
    else if TypedAt(s, k).Some? then Some(k)
    else FindTyped(s, k + 1)
  }

  /** The comment and variable an annotation becomes. */
  function Marker(n: nat, name: string): string {
    "/*" + NatToString(n) + "*/$" + name
  }

  /** The annotated C++ text and the annotations in order of appearance. */
  datatype Annotated = Annotated(text: string, typed: seq<Typed>)

  /** Reference definition of the annotation pass over `s` from position
      `k`: one left-to-right scan that turns the `i`-th annotation
      `$<T>name` into `/*n+i*/$name`. */
  function Annotate(s: string, k: nat, n: nat): (r: Annotated)
    requires k <= |s|
    decreases |s| - k
  {
    if k == |s| then Annotated([], [])
    else match TypedAt(s, k)
      case Some(t) =>
        var rest := Annotate(s, k + t.Length(), n + 1);
        Annotated(Marker(n, t.name) + rest.text, [t] + rest.typed)
      case None =>
        var rest := Annotate(s, k + 1, n);
        Annotated([s[k]] + rest.text, rest.typed)
  }

  /** A stretch without annotations is copied through unchanged. */
  lemma {:induction false} AnnotateSkip(s: string, k: nat, i: nat, n: nat)
    requires k <= i <= |s| && NoTypedIn(s, k, i)
    ensures Annotate(s, k, n).text == s[k..i] + Annotate(s, i, n).text
    ensures Annotate(s, k, n).typed == Annotate(s, i, n).typed
    decreases i - k
  {
    if k < i {
      assert TypedAt(s, k).None?;
      AnnotateSkip(s, k + 1, i, n);
      AnnotateStep(s, k, n);
      SliceJoin(s, k, k + 1, i);
      assert s[k..k + 1] == [s[k]];
      PrependOne([s[k]], s[k + 1..i], Annotate(s, k + 1, n).text, Annotate(s, i, n).text);
    }
  }

  lemma PrependOne(c: string, u: string, x: string, y: string)
    requires x == u + y
    ensures c + x == (c + u) + y
  {
  }

  lemma {:induction false} WordEndDrop(s: string, d: nat, i: nat)
    requires d <= i <= |s|
    ensures WordEnd(s, i) == d + WordEnd(s[d..], i - d)
    decreases |s| - i
  {
    if i < |s| {
      assert s[d..][i - d] == s[i];
      if IsWord(s[i]) {
        WordEndDrop(s, d, i + 1);
      }
    }
  }

  /** Whether an annotation starts at a position depends only on the text
      from there on. */
  lemma TypedAtDrop(s: string, d: nat, k: nat)
    requires d <= k <= |s|
    ensures TypedAt(s, k) == TypedAt(s[d..], k - d)
  {
    if k + 2 <= |s| && s[k] == '$' && s[k + 1] == '<' {
      assert s[d..][k - d] == '$' && s[d..][k - d + 1] == '<';
      WordEndDrop(s, d, k + 2);
      var te := WordEnd(s, k + 2);
      if k + 2 < te < |s| && s[te] == '>' {
        TypedAtDropWords(s, d, k, te);
      }
    }
  }

  /** The type and the name an annotation reads are the same in a suffix. */
  lemma TypedAtDropWords(s: string, d: nat, k: nat, te: nat)
    requires d <= k && k + 2 < te < |s|
    ensures s[d..][te - d] == s[te]
    ensures WordEnd(s[d..], te - d + 1) + d == WordEnd(s, te + 1)
    ensures s[k + 2..te] == s[d..][k - d + 2..te - d]
    ensures s[te + 1..WordEnd(s, te + 1)] == s[d..][te - d + 1..WordEnd(s, te + 1) - d]
  {
    WordEndDrop(s, d, te + 1);
  }

  /** One step of the scan: an annotation at `k` becomes its marker, any
      other character is copied. */
  lemma AnnotateStep(s: string, k: nat, n: nat)
    requires k < |s|
    ensures TypedAt(s, k).Some? ==>
      var t := TypedAt(s, k).value;
      var rest := Annotate(s, k + t.Length(), n + 1);
      Annotate(s, k, n) == Annotated(Marker(n, t.name) + rest.text, [t] + rest.typed)
    ensures TypedAt(s, k).None? ==>
      var rest := Annotate(s, k + 1, n);
      Annotate(s, k, n) == Annotated([s[k]] + rest.text, rest.typed)
  {
  }

  /** The scan depends only on the text from where it starts. */
  lemma {:induction false} AnnotateDrop(s: string, d: nat, k: nat, n: nat)
    requires d <= k <= |s|
    ensures Annotate(s, k, n) == Annotate(s[d..], k - d, n)
    decreases |s| - k
  {
    if k < |s| {
      if TypedAt(s, k).Some? {
        AnnotateDrop(s, d, k + TypedAt(s, k).value.Length(), n + 1);
      } else {
        AnnotateDrop(s, d, k + 1, n);
      }
      AnnotateDropAt(s, d, k, n);
    }
  }

  /** The step of `AnnotateDrop` at position `k`. */
  lemma AnnotateDropAt(s: string, d: nat, k: nat, n: nat)
    requires d <= k < |s|
    requires TypedAt(s, k).Some? ==>
      var e := k + TypedAt(s, k).value.Length();
      Annotate(s, e, n + 1) == Annotate(s[d..], e - d, n + 1)
    requires TypedAt(s, k).None? ==> Annotate(s, k + 1, n) == Annotate(s[d..], k + 1 - d, n)
    ensures Annotate(s, k, n) == Annotate(s[d..], k - d, n)
  {
    TypedAtDrop(s, d, k);
    AnnotateStep(s, k, n);
    AnnotateStep(s[d..], k - d, n);
    if TypedAt(s, k).None? {
      assert s[d..][k - d] == s[k];
    }
  }

  /** Two texts that agree from `k` on scan alike from `k`. */
  lemma AnnotateSameSuffix(x: string, i: nat, y: string, j: nat, n: nat)
    requires i <= |x| && j <= |y| && x[i..] == y[j..]
    ensures Annotate(x, i, n) == Annotate(y, j, n)
  {
    AnnotateDrop(x, i, i, n);
    AnnotateDrop(y, j, j, n);
  }

  /** A text that agrees with one holding no annotation at `j` up to a
      character that cannot continue an annotation holds none at `j`
      either. */
  lemma TypedLocal(x: string, y: string, j: nat, k: nat)
    requires j < k < |x| && k < |y| && x[j..k] == y[j..k]
    requires !IsWord(x[k]) && x[k] != '<' && x[k] != '>'
    requires !IsWord(y[k]) && y[k] != '<' && y[k] != '>'
    requires TypedAt(x, j).None?
    ensures TypedAt(y, j).None?
  {
    assert forall i :: j <= i < k ==> x[i] == y[i] by {
      forall i | j <= i < k ensures x[i] == y[i] {
        assert x[j..k][i - j] == y[j..k][i - j];
      }
    }
    if j + 2 <= |y| && y[j] == '$' && y[j + 1] == '<' {
      var te := WordEnd(y, j + 2);
      if j + 2 < te < |y| && y[te] == '>' {
        WordEndRun(y, j + 2);
        WordEndIs(x, j + 2, te);
        if te + 1 < k {
          assert x[te + 1] == y[te + 1];
        }
      }
    }
  }

  /** No annotation starts inside a marker. */
  lemma NoTypedInMarker(s: string, p: nat, n: nat, name: string)
    requires |name| > 0 && AllWord(name)
    requires p + |Marker(n, name)| <= |s| && s[p..p + |Marker(n, name)|] == Marker(n, name)
    ensures NoTypedIn(s, p, p + |Marker(n, name)|)
  {
    var m := Marker(n, name);
    var d := NatToString(n);
    forall j | p <= j < p + |m| ensures TypedAt(s, j).None? {
      var i := j - p;
      assert s[j] == m[i];
      if i == |d| + 4 {
        assert s[j + 1] == m[i + 1] == name[0];
      } else {
        assert m[i] != '$';
      }
    }
  }

  /** The type-table entries for annotations found under `key`. */
  function Entries(key: string, typed: seq<Typed>): (r: seq<Binding>)
    ensures |r| == |typed|
    ensures forall i :: 0 <= i < |typed| ==> r[i] == Binding(key, typed[i].typeName, "$" + typed[i].name)
  {
    if typed == [] then [] else [Binding(key, typed[0].typeName, "$" + typed[0].name)] + Entries(key, typed[1..])
  }

  lemma EntriesAppend(key: string, a: seq<Typed>, b: seq<Typed>)
    ensures Entries(key, a + b) == Entries(key, a) + Entries(key, b)
  {
  }

  /** Replacing the leftmost annotation, at `p`, by its marker leaves no
      annotation up to the end of the marker. */
  lemma AnnotateStepClean(text: string, p: nat, n: nat, t: Typed, text': string)
    requires p < |text| && NoTypedIn(text, 0, p) && TypedAt(text, p) == Some(t)
    requires p + t.Length() <= |text| && text' == text[..p] + Marker(n, t.name) + text[p + t.Length()..]
    ensures p + |Marker(n, t.name)| <= |text'| && NoTypedIn(text', 0, p + |Marker(n, t.name)|)
  {
    TypedAtShape(text, p);
    var m := Marker(n, t.name);
    Splice(text, p, t.Length(), m);
    NoTypedInMarker(text', p, n, t.name);
    forall j | 0 <= j < p ensures TypedAt(text', j).None? {
      TypedLocal(text, text', j, p);
    }
  }

  /** Replacing the leftmost annotation at or after `d`, at `p`, by its
      marker advances the scan from `d` to the end of the marker. */
  lemma AnnotateStepScan(text: string, d: nat, p: nat, n: nat, t: Typed, text': string, d': nat)
    requires d <= p < |text| && NoTypedIn(text, d, p) && TypedAt(text, p) == Some(t)
    requires p + t.Length() <= |text| && text' == text[..p] + Marker(n, t.name) + text[p + t.Length()..]
    requires d' == p + |Marker(n, t.name)|
    ensures d' <= |text'|
    ensures text[..d] + Annotate(text, d, n).text == text'[..d'] + Annotate(text', d', n + 1).text
    ensures Annotate(text, d, n).typed == [t] + Annotate(text', d', n + 1).typed
  {
    ScanBefore(text, d, p, n, t);
    ScanAfter(text, p, n, t, text', d');
  }

  /** Before the splice: the scan from `d` copies up to `p`, then the
      marker, then scans on after the annotation. */
  lemma ScanBefore(text: string, d: nat, p: nat, n: nat, t: Typed)
    requires d <= p < |text| && NoTypedIn(text, d, p) && TypedAt(text, p) == Some(t)
    ensures p + t.Length() <= |text|
    ensures var after := Annotate(text, p + t.Length(), n + 1);
      && text[..d] + Annotate(text, d, n).text == text[..p] + Marker(n, t.name) + after.text
      && Annotate(text, d, n).typed == [t] + after.typed
  {
    var m, len := Marker(n, t.name), t.Length();
    var after := Annotate(text, p + len, n + 1);
    AnnotateSkip(text, d, p, n);
    AnnotateTyped(text, p, n, t);
    SliceJoin(text, 0, d, p);
    assert text[0..p] == text[..p] && text[0..d] == text[..d];
    ScanStepJoin(Annotate(text, d, n), Annotate(text, p, n), after, text[..d], text[d..p], m, t);
  }

  /** After the splice: the text up to the end of the marker is the text
      before the annotation and the marker, and the scan from there is the
      scan after the annotation in the old text. */
  lemma ScanAfter(text: string, p: nat, n: nat, t: Typed, text': string, d': nat)
    requires p + t.Length() <= |text| && text' == text[..p] + Marker(n, t.name) + text[p + t.Length()..]
    requires d' == p + |Marker(n, t.name)|
    ensures d' <= |text'| && text'[..d'] == text[..p] + Marker(n, t.name)
    ensures Annotate(text', d', n + 1) == Annotate(text, p + t.Length(), n + 1)
  {
    SpliceParts(text, p, t.Length(), Marker(n, t.name), text', d');
    AnnotateSameSuffix(text', d', text, p + t.Length(), n + 1);
  }

  /** The equational core of `ScanBefore`, over the pieces it names. */
  lemma ScanStepJoin(ad: Annotated, ap: Annotated, after: Annotated,
                     pre: string, mid: string, m: string, t: Typed)
    requires ad.text == mid + ap.text && ad.typed == ap.typed
    requires ap == Annotated(m + after.text, [t] + after.typed)
    ensures pre + ad.text == (pre + mid) + m + after.text
    ensures ad.typed == [t] + after.typed
  {
  }

  /** The scan at an annotation `t`: its marker, then the scan after it. */
  lemma AnnotateTyped(s: string, k: nat, n: nat, t: Typed)
    requires k < |s| && TypedAt(s, k) == Some(t)
    ensures k + t.Length() <= |s|
    ensures var rest := Annotate(s, k + t.Length(), n + 1);
      Annotate(s, k, n) == Annotated(Marker(n, t.name) + rest.text, [t] + rest.typed)
  {
  }

  /** The pieces of `s` with `s[p..p+len]` replaced by `m`. */
  lemma Splice(s: string, p: nat, len: nat, m: string)
    requires p + len <= |s| && |m| > 0
    ensures var s' := s[..p] + m + s[p + len..];
      && s'[..p + |m|] == s[..p] + m && s'[p..p + |m|] == m && s'[p + |m|..] == s[p + len..]
      && s'[p] == m[0] && (forall j :: 0 <= j < p ==> s[j..p] == s'[j..p])
  {
    var s' := s[..p] + m + s[p + len..];
    forall j | 0 <= j < p ensures s[j..p] == s'[j..p] {
      assert forall i :: j <= i < p ==> s[i] == s'[i];
    }
  }

  /** The spliced text `s'`, with the marker `m` ending at `e`. */
  lemma SpliceParts(s: string, p: nat, len: nat, m: string, s': string, e: nat)
    requires p + len <= |s| && s' == s[..p] + m + s[p + len..] && e == p + |m|
    ensures e <= |s'| && s'[..e] == s[..p] + m && s'[e..] == s[p + len..]
  {
  }

  /** The state of the annotation loop: the text before `d` is final and
      holds no annotation, and scanning the text from `d` completes the
      reference scan `total`, whose annotations before `d` are `typed`. */
  ghost predicate ScanState(total: Annotated, text: string, d: nat, typed: seq<Typed>, next: nat)
  {
    && d <= |text| && NoTypedIn(text, 0, d)
    && total.text == text[..d] + Annotate(text, d, next).text
    && total.typed == typed + Annotate(text, d, next).typed
  }

  /** One turn of the annotation loop keeps its state. */
  lemma ScanStateStep(total: Annotated, text: string, d: nat, typed: seq<Typed>, next: nat, p: nat, t: Typed, text': string, d': nat)
    requires ScanState(total, text, d, typed, next)
    requires p < |text| && NoTypedIn(text, 0, p) && TypedAt(text, p) == Some(t)
    requires p + t.Length() <= |text|
    requires text' == text[..p] + Marker(next, t.name) + text[p + t.Length()..]
    requires d' == p + |Marker(next, t.name)|
    ensures |text'| - d' < |text| - d
    ensures ScanState(total, text', d', typed + [t], next + 1)
  {
    assert p >= d;
    AnnotateStepClean(text, p, next, t, text');
    AnnotateStepScan(text, d, p, next, t, text', d');
    var after := Annotate(text', d', next + 1).typed;
    assert typed + ([t] + after) == (typed + [t]) + after;
  }

  /** When no annotation is left, the loop has produced the reference scan. */
  lemma ScanStateDone(total: Annotated, text: string, d: nat, typed: seq<Typed>, next: nat)
    requires ScanState(total, text, d, typed, next) && NoTypedIn(text, 0, |text|)
    ensures total.text == text && total.typed == typed
  {
    AnnotateSkip(text, d, |text|, next);
    assert text[..d] + text[d..] == text;
  }

  /** The annotation pass of `parse_defmac_macros` on one C++ text: while an
      annotation `$<T>name` is left, record `(key, T, "$name")` and replace
      the leftmost annotation by `/*count*/$name`, counting up. */
  method AnnotateTypes(key: string, cpp: string, count: nat) returns (text: string, entries: seq<Binding>, next: nat)
    ensures text == Annotate(cpp, 0, count).text
    ensures entries == Entries(key, Annotate(cpp, 0, count).typed)
    ensures next == count + |entries|
    ensures FindTyped(text, 0).None?
  {
    text := cpp;
    entries := [];
    next := count;
    ghost var total := Annotate(cpp, 0, count);
    ghost var d: nat := 0;
    ghost var typed: seq<Typed> := [];
    assert text[..0] == [];
    while true
      invariant ScanState(total, text, d, typed, next)
      invariant entries == Entries(key, typed) && next == count + |typed|
      decreases |text| - d
    {
      var found := FindTyped(text, 0);
      if found.None? {
        ScanStateDone(total, text, d, typed, next);
        break;
      }
      var p := found.value;
      var t := TypedAt(text, p).value;
      var marker := Marker(next, t.name);
      ghost var d' := p + |marker|;
      var text' := text[..p] + marker + text[p + t.Length()..];
      ScanStateStep(total, text, d, typed, next, p, t, text', d');
      EntriesAppend(key, typed, [t]);
      entries := entries + [Binding(key, t.typeName, "$" + t.name)];
      text, d, typed, next := text', d', typed + [t], next + 1;
    }
  }

  // ---------------------------------------------------------------------
  // Variables and their numbers

  /** The variables `$\w+` of a text, left to right, repeats included
      (the `sregex_iterator` over `(\$\w+)`), without their `$`. */
  function VarNames(s: string): (names: seq<string>)
    ensures forall i :: 0 <= i < |names| ==> |names[i]| > 0 && AllWord(names[i])
    decreases |s|
  {
    if s == [] then []
    else if 2 <= |s| && s[0] == '$' && IsWord(s[1]) then
      var e := WordEnd(s, 1);
      WordEndRun(s, 1);
      [s[1..e]] + VarNames(s[e..])
    else VarNames(s[1..])
  }

  /** The number each variable of a syntax gets: `2i+1` for the position
      `i` of its first occurrence (see `NumberingFirst`). */
  function Numbering(names: seq<string>): (f: map<string, nat>)
    ensures forall w :: w in f <==> w in names
    decreases |names|
  {
    if names == [] then map[]
    else
      var init := names[..|names| - 1];
      var w := names[|names| - 1];
      var f := Numbering(init);
      assert names == init + [w];
      if w in f then f else f[w := 2 * (|names| - 1) + 1]
  }

  /** A variable is numbered after its first occurrence among the names. */
  lemma {:induction false} NumberingFirst(names: seq<string>, k: nat)
    requires k < |names| && names[k] !in names[..k]
    ensures Numbering(names)[names[k]] == 2 * k + 1
    decreases |names|
  {
    var init := names[..|names| - 1];
    var w := names[|names| - 1];
    assert names == init + [w];
    if k < |init| {
      assert init[k] == names[k] && init[..k] == names[..k];
      NumberingFirst(init, k);
      assert names[k] in init;
    } else {
      assert init == names[..k];
    }
  }

  /** The placeholder `\vN`. */
  function Placeholder(n: nat): (r: string)
    ensures |r| >= 3 && r[0] == '\\' && r[1] == 'v'
    ensures forall k :: 0 <= k < |r| ==> r[k] != '$'
  {
    "\\v" + NatToString(n)
  }

  /** A whole-word `$name` at the front of `s` (the regex `(\$name\b)`). */
  predicate IsVarAt(s: string, name: string) {
    StartsWith(s, "$" + name) && (|s| == |name| + 1 || !IsWord(s[|name| + 1]))
  }

  /** `regex_replace(s, regex("(\\$" + name + "\\b)"), rep)`. */
  function ReplaceVar(s: string, name: string, rep: string): string
    decreases |s|
  {
    if s == [] then []
    else if IsVarAt(s, name) then rep + ReplaceVar(s[|name| + 1..], name, rep)
    else [s[0]] + ReplaceVar(s[1..], name, rep)
  }

  /** Reference definition of the numbering pass: one left-to-right scan
      that turns every whole-word `$w` with `w` numbered into its
      placeholder. */
  function Renumber(s: string, f: map<string, nat>): string
    decreases |s|
  {
    if s == [] then []
    else if 2 <= |s| && s[0] == '$' && IsWord(s[1]) then
      var e := WordEnd(s, 1);
      WordEndRun(s, 1);
      var w := s[1..e];
      (if w in f then Placeholder(f[w]) else "$" + w) + Renumber(s[e..], f)
    else [s[0]] + Renumber(s[1..], f)
  }

  predicate NoDollar(s: string) {
    forall k :: 0 <= k < |s| ==> s[k] != '$'
  }

  /** Renumbered text starts where the original did: with a non-word
      character, or not at all. */
  lemma RenumberFront(s: string, f: map<string, nat>)
    requires s == [] || !IsWord(s[0])
    ensures Renumber(s, f) == [] || !IsWord(Renumber(s, f)[0])
  {
  }

  lemma {:induction false} ReplaceVarNoDollar(x: string, y: string, name: string, rep: string)
    requires NoDollar(x)
    ensures ReplaceVar(x + y, name, rep) == x + ReplaceVar(y, name, rep)
    decreases |x|
  {
    if x != [] {
      var s := x + y;
      assert s[0] == x[0] && x[0] != '$';
      assert x + ReplaceVar(y, name, rep) == [x[0]] + (x[1..] + ReplaceVar(y, name, rep));
      assert !IsVarAt(s, name);
      assert s[1..] == x[1..] + y;
      ReplaceVarNoDollar(x[1..], y, name, rep);
    } else {
      assert x + y == y;
    }
  }

  /** A character that does not start `$name`, or a `$` that the next text
      keeps from continuing into a word, is passed through. */
  lemma ReplaceVarSkip(c: char, y: string, name: string, rep: string)
    requires c != '$' || y == [] || !IsWord(y[0])
    requires |name| > 0 && AllWord(name)
    ensures ReplaceVar([c] + y, name, rep) == [c] + ReplaceVar(y, name, rep)
  {
    var s := [c] + y;
    assert s[1..] == y;
  }

  /** `$w` followed by a non-word character is not the variable `$name`
      unless `w` is `name`. */
  lemma NotVarAt(w: string, y: string, name: string)
    requires |w| > 0 && AllWord(w) && AllWord(name) && w != name
    requires y == [] || !IsWord(y[0])
    ensures !IsVarAt("$" + w + y, name)
  {
    var x := "$" + w + y;
    assert x[1..|w| + 1] == w;
  }

  /** `$w` followed by a non-word character is the variable `$w`. */
  lemma VarAt(w: string, y: string)
    requires |w| > 0 && AllWord(w)
    requires y == [] || !IsWord(y[0])
    ensures IsVarAt("$" + w + y, w) && ("$" + w + y)[|w| + 1..] == y
  {
    var x := "$" + w + y;
    assert x[..|w| + 1] == "$" + w;
  }

  /** Replacing the placeholder for a variable not yet numbered is numbering it. */
  lemma {:induction false} ReplaceVarRenumber(s: string, f: map<string, nat>, name: string, m: nat)
    requires |name| > 0 && AllWord(name) && name !in f
    ensures ReplaceVar(Renumber(s, f), name, Placeholder(m)) == Renumber(s, f[name := m])
    decreases |s|
  {
    var rep := Placeholder(m);
    var g := f[name := m];
    if s == [] {
    } else if 2 <= |s| && s[0] == '$' && IsWord(s[1]) {
      var e := WordEnd(s, 1);
      WordEndRun(s, 1);
      ReplaceVarRenumber(s[e..], f, name, m);
      ReplaceVarRenumberVar(s, f, name, m);
    } else {
      ReplaceVarRenumber(s[1..], f, name, m);
      if s[0] == '$' {
        RenumberFront(s[1..], f);
      }
      assert Renumber(s, f) == [s[0]] + Renumber(s[1..], f);
      assert Renumber(s, g) == [s[0]] + Renumber(s[1..], g);
      ReplaceVarSkip(s[0], Renumber(s[1..], f), name, rep);
    }
  }

  /** The step of `ReplaceVarRenumber` at a variable. */
  lemma ReplaceVarRenumberVar(s: string, f: map<string, nat>, name: string, m: nat)
    requires |name| > 0 && AllWord(name) && name !in f
    requires 2 <= |s| && s[0] == '$' && IsWord(s[1])
    requires var e := WordEnd(s, 1);
      ReplaceVar(Renumber(s[e..], f), name, Placeholder(m)) == Renumber(s[e..], f[name := m])
    ensures ReplaceVar(Renumber(s, f), name, Placeholder(m)) == Renumber(s, f[name := m])
  {
    var rep := Placeholder(m);
    var g := f[name := m];
    var e := WordEnd(s, 1);
    WordEndRun(s, 1);
    var w := s[1..e];
    var y := Renumber(s[e..], f);
    RenumberFront(s[e..], f);
    if w in f {
      assert w in g && g[w] == f[w];
      assert Renumber(s, f) == Placeholder(f[w]) + y;
      assert Renumber(s, g) == Placeholder(f[w]) + Renumber(s[e..], g);
      ReplaceVarNoDollar(Placeholder(f[w]), y, name, rep);
    } else if w == name {
      assert w in g && g[w] == m;
      assert Renumber(s, f) == "$" + w + y;
      assert Renumber(s, g) == rep + Renumber(s[e..], g);
      VarAt(w, y);
    } else {
      assert w !in g;
      assert Renumber(s, f) == "$" + w + y;
      assert Renumber(s, g) == "$" + w + Renumber(s[e..], g);
      ReplaceVarOther(w, y, name, rep);
    }
  }

  /** Another variable is kept as it is. */
  lemma ReplaceVarOther(w: string, y: string, name: string, rep: string)
    requires |w| > 0 && AllWord(w) && |name| > 0 && AllWord(name) && w != name
    requires y == [] || !IsWord(y[0])
    ensures ReplaceVar("$" + w + y, name, rep) == "$" + w + ReplaceVar(y, name, rep)
  {
    NotVarAt(w, y, name);
    assert ("$" + w + y)[1..] == w + y;
    ReplaceVarNoDollar(w, y, name, rep);
  }

  /** Replacing a variable already numbered finds nothing left to replace. */
  lemma {:induction false} ReplaceVarRenumbered(s: string, f: map<string, nat>, name: string, rep: string)
    requires |name| > 0 && AllWord(name) && name in f
    ensures ReplaceVar(Renumber(s, f), name, rep) == Renumber(s, f)
    decreases |s|
  {
    if s == [] {
    } else if 2 <= |s| && s[0] == '$' && IsWord(s[1]) {
      var e := WordEnd(s, 1);
      WordEndRun(s, 1);
      ReplaceVarRenumbered(s[e..], f, name, rep);
      ReplaceVarRenumberedVar(s, f, name, rep);
    } else {
      ReplaceVarRenumbered(s[1..], f, name, rep);
      if s[0] == '$' {
        RenumberFront(s[1..], f);
      }
      ReplaceVarSkip(s[0], Renumber(s[1..], f), name, rep);
    }
  }

  /** The step of `ReplaceVarRenumbered` at a variable. */
  lemma ReplaceVarRenumberedVar(s: string, f: map<string, nat>, name: string, rep: string)
    requires |name| > 0 && AllWord(name) && name in f
    requires 2 <= |s| && s[0] == '$' && IsWord(s[1])
    requires var e := WordEnd(s, 1);
      ReplaceVar(Renumber(s[e..], f), name, rep) == Renumber(s[e..], f)
    ensures ReplaceVar(Renumber(s, f), name, rep) == Renumber(s, f)
  {
    var e := WordEnd(s, 1);
    WordEndRun(s, 1);
    var w := s[1..e];
    var y := Renumber(s[e..], f);
    RenumberFront(s[e..], f);
    if w in f {
      assert Renumber(s, f) == Placeholder(f[w]) + y;
      ReplaceVarNoDollar(Placeholder(f[w]), y, name, rep);
    } else {
      assert Renumber(s, f) == "$" + w + y;
      ReplaceVarOther(w, y, name, rep);
    }
  }

  lemma {:induction false} RenumberNothing(s: string)
    ensures Renumber(s, map[]) == s
    decreases |s|
  {
    if s != [] {
      if 2 <= |s| && s[0] == '$' && IsWord(s[1]) {
        var e := WordEnd(s, 1);
        WordEndRun(s, 1);
        RenumberNothing(s[e..]);
        assert s == "$" + s[1..e] + s[e..];
      } else {
        RenumberNothing(s[1..]);
        assert s == [s[0]] + s[1..];
      }
    }
  }

  /** The variables of `names` that `f` does not number, in order. */
  function Unnumbered(names: seq<string>, f: map<string, nat>): seq<string>
    decreases |names|
  {
    if names == [] then []
    else (if names[0] in f then [] else [names[0]]) + Unnumbered(names[1..], f)
  }

  lemma {:induction false} VarNamesNoDollar(x: string, y: string)
    requires NoDollar(x)
    ensures VarNames(x + y) == VarNames(y)
    decreases |x|
  {
    if x != [] {
      assert (x + y)[0] == x[0] && x[0] != '$';
      assert (x + y)[1..] == x[1..] + y;
      VarNamesNoDollar(x[1..], y);
    } else {
      assert x + y == y;
    }
  }

  /** After numbering, the variables left in the text are exactly those
      `f` does not number, in their order. */
  lemma {:induction false} RenumberLeaves(s: string, f: map<string, nat>)
    ensures VarNames(Renumber(s, f)) == Unnumbered(VarNames(s), f)
    decreases |s|
  {
    if s == [] {
    } else if 2 <= |s| && s[0] == '$' && IsWord(s[1]) {
      var e := WordEnd(s, 1);
      WordEndRun(s, 1);
      RenumberLeaves(s[e..], f);
      RenumberLeavesVar(s, f, e);
    } else {
      RenumberLeaves(s[1..], f);
      if s[0] == '$' {
        RenumberFront(s[1..], f);
      }
      var y := Renumber(s[1..], f);
      assert ([s[0]] + y)[1..] == y;
    }
  }

  /** The step of `RenumberLeaves` over a leading variable `s[1..e]`. */
  lemma RenumberLeavesVar(s: string, f: map<string, nat>, e: nat)
    requires 2 <= |s| && s[0] == '$' && IsWord(s[1]) && e == WordEnd(s, 1)
    requires 1 < e <= |s| && AllWord(s[1..e]) && (e == |s| || !IsWord(s[e]))
    requires VarNames(Renumber(s[e..], f)) == Unnumbered(VarNames(s[e..]), f)
    ensures VarNames(Renumber(s, f)) == Unnumbered(VarNames(s), f)
  {
    var w := s[1..e];
    var y := Renumber(s[e..], f);
    RenumberFront(s[e..], f);
    assert VarNames(s) == [w] + VarNames(s[e..]);
    if w in f {
      VarNamesNoDollar(Placeholder(f[w]), y);
    } else {
      var x := "$" + w + y;
      assert x[1..|w| + 1] == w && x[|w| + 1..] == y;
      WordEndIs(x, 1, |w| + 1);
    }
  }

  // ---------------------------------------------------------------------
  // The type table

  /** The position of the first entry under `key` for `token`
      (`equal_range(key)` searched in order for `token`). */
  function FirstBinding(bs: seq<Binding>, key: string, token: string): (r: Option<nat>)
    ensures r.Some? ==> r.value < |bs| && bs[r.value].key == key && bs[r.value].token == token
    ensures r.Some? ==> forall j :: 0 <= j < r.value ==> !(bs[j].key == key && bs[j].token == token)
    ensures r.None? ==> forall j :: 0 <= j < |bs| ==> !(bs[j].key == key && bs[j].token == token)
    decreases |bs|
  {
    if bs == [] then None
    else if bs[0].key == key && bs[0].token == token then Some(0)
    else
      var r := FirstBinding(bs[1..], key, token);
      if r.None? then None else Some(r.value + 1)
  }

  /** The search of the table, as the loop the program runs. */
  method FindBinding(bs: seq<Binding>, key: string, token: string) returns (r: Option<nat>)
    ensures r == FirstBinding(bs, key, token)
  {
    var i := 0;
    while i < |bs|
      invariant 0 <= i <= |bs|
      invariant forall j :: 0 <= j < i ==> !(bs[j].key == key && bs[j].token == token)
    {
      if bs[i].key == key && bs[i].token == token {
        return Some(i);
      }
      i := i + 1;
    }
    return None;
  }

  /** Give the first entry under `key` for `$name` the token `tag`. */
  function Retag(bs: seq<Binding>, key: string, name: string, tag: string): (r: seq<Binding>)
    ensures |r| == |bs|
    ensures forall j :: 0 <= j < |bs| ==> r[j].key == bs[j].key && r[j].typeName == bs[j].typeName
  {
    match FirstBinding(bs, key, "$" + name)
    case None => bs
    case Some(i) => bs[i := bs[i].(token := tag)]
  }

  /** The table after numbering the variables `names` of the syntax `key`:
      the `k`-th variable retags with `\v(2k+1)`. */
  function Retagged(bs: seq<Binding>, key: string, names: seq<string>): (r: seq<Binding>)
    ensures |r| == |bs|
    ensures forall j :: 0 <= j < |bs| ==> r[j].key == bs[j].key && r[j].typeName == bs[j].typeName
    ensures forall j :: 0 <= j < |bs| && bs[j].key != key ==> r[j] == bs[j]
    decreases |names|
  {
    if names == [] then bs
    else
      var k := |names| - 1;
      Retag(Retagged(bs, key, names[..k]), key, names[k], Placeholder(2 * k + 1))
  }

  lemma RetaggedStep(bs: seq<Binding>, key: string, names: seq<string>, k: nat)
    requires k < |names|
    ensures Retagged(bs, key, names[..k + 1])
      == Retag(Retagged(bs, key, names[..k]), key, names[k], Placeholder(2 * k + 1))
  {
    assert names[..k + 1][..k] == names[..k];
  }

  /** One more name numbers that name, unless it is already numbered. */
  lemma NumberingLast(names: seq<string>, k: nat)
    requires k < |names|
    ensures var f := Numbering(names[..k]);
      Numbering(names[..k + 1]) == if names[k] in f then f else f[names[k] := 2 * k + 1]
  {
    var p := names[..k + 1];
    assert p[..|p| - 1] == names[..k];
    assert p[|p| - 1] == names[k];
  }

  /** Replacing the `k`-th variable extends the numbering by that variable. */
  lemma NumberStep(cpp: string, names: seq<string>, k: nat)
    requires k < |names| && |names[k]| > 0 && AllWord(names[k])
    ensures ReplaceVar(Renumber(cpp, Numbering(names[..k])), names[k], Placeholder(2 * k + 1))
      == Renumber(cpp, Numbering(names[..k + 1]))
  {
    var f := Numbering(names[..k]);
    NumberingLast(names, k);
    if names[k] in f {
      ReplaceVarRenumbered(cpp, f, names[k], Placeholder(2 * k + 1));
    } else {
      ReplaceVarRenumber(cpp, f, names[k], 2 * k + 1);
    }
  }

  /** The numbering loop of `parse_defmac_macros` for one definition: for
      the `k`-th variable `$w` of the syntax, retag its first entry in the
      table and replace every whole-word `$w` of the C++ text by `\v(2k+1)`. */
  method NumberVariables(syntax: string, cpp: string, bindings: seq<Binding>) returns (numbered: string, retagged: seq<Binding>)
    ensures numbered == Renumber(cpp, Numbering(VarNames(syntax)))
    ensures retagged == Retagged(bindings, syntax, VarNames(syntax))
  {
    var names := VarNames(syntax);
    numbered := cpp;
    retagged := bindings;
    RenumberNothing(cpp);
    for k := 0 to |names|
      invariant numbered == Renumber(cpp, Numbering(names[..k]))
      invariant retagged == Retagged(bindings, syntax, names[..k])
    {
      var tag := Placeholder(2 * k + 1);
      var i := FindBinding(retagged, syntax, "$" + names[k]);
      if i.Some? {
        retagged := retagged[i.value := retagged[i.value].(token := tag)];
      }
      RetaggedStep(bindings, syntax, names, k);
      NumberStep(cpp, names, k);
      numbered := ReplaceVar(numbered, names[k], tag);
    }
    assert names[..|names|] == names;
  }
}
