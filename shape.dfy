/** The regular expressions the pattern compiler generates, as data.

    A generated expression is a sequence of elements: an escaped literal
    character, the lazy wildcard `((.)+?)`, the non-space wildcard
    `((\S)+)`, or a numeric backreference `\n`. `Emit` spells a sequence
    exactly as the compiler writes it, `Parse` reads such a spelling back,
    and `Matches` says, relationally, which text an element sequence matches
    under ECMAScript rules and which groups the match captures. Which of
    several possible matches the regex engine prefers (lazy shortest first,
    greedy longest first) is left to the engine: see `Searcher`. */
module RegexShape {
  import opened Base
  import opened Text

  /** The characters the compiler escapes, in the order it escapes them. */
  const ControlChars: string := "\\^$.*+?()[]{}|"

  /** Membership in `ControlChars`, spelled out. */
  predicate IsControl(c: char) {
    || c == '\\' || c == '^' || c == '$' || c == '.' || c == '*' || c == '+' || c == '?'
    || c == '(' || c == ')' || c == '[' || c == ']' || c == '{' || c == '}' || c == '|'
  }

  lemma ControlCharsAre(c: char)
    ensures c in ControlChars <==> IsControl(c)
  {
  }

  /** One literal pattern character as it appears in the generated regex. */
  function EscapeChar(c: char): string
  {
    if IsControl(c) then ['\\', c] else [c]
  }

  const LazyText: string := "((.)+?)"
  const NonSpaceText: string := "((\\S)+)"

  datatype Elem = Lit(c: char) | Lazy | NonSpace | BackRef(group: nat)
  {
    predicate IsWildcard() { Lazy? || NonSpace? }

    /** Which characters one repetition of a wildcard accepts. */
    predicate Admits(ch: char)
      requires IsWildcard()
    {
      if Lazy? then !IsLineEnd(ch) else !IsSpace(ch)
    }
  }

  function EmitElem(e: Elem): string {
    match e
    case Lit(c) => EscapeChar(c)
    case Lazy => LazyText
    case NonSpace => NonSpaceText
    case BackRef(n) => "\\" + NatToString(n)
  }

  function Emit(es: seq<Elem>): string
    decreases |es|
  {
    if es == [] then [] else EmitElem(es[0]) + Emit(es[1..])
  }

  lemma {:induction false} EmitAppend(a: seq<Elem>, b: seq<Elem>)
    ensures Emit(a + b) == Emit(a) + Emit(b)
    decreases |a|
  {
    if a == [] {
      assert a + b == b;
    } else {
      assert (a + b)[1..] == a[1..] + b;
      EmitAppend(a[1..], b);
    }
  }

  /** Number of capture groups opened by `es`: two per wildcard. */
  function GroupCount(es: seq<Elem>): nat
    decreases |es|
  {
    if es == [] then 0 else (if es[0].IsWildcard() then 2 else 0) + GroupCount(es[1..])
  }

  /** Every backreference names a group opened before it: the condition
      under which `std::regex` accepts the expression (a backreference to a
      group not yet opened raises `error_backref`). */
  predicate BackRefsOpen(es: seq<Elem>) {
    forall i :: 0 <= i < |es| && es[i].BackRef? ==> 1 <= es[i].group <= GroupCount(es[..i])
  }

  /** No backreference is followed by a literal digit, which would be read
      as part of its number. */
  predicate NoDigitAfterBackRef(es: seq<Elem>) {
    forall i :: 0 <= i < |es| - 1 && es[i].BackRef? ==> !(es[i + 1].Lit? && IsDigit(es[i + 1].c))
  }

  /** Element sequences whose spelling reads back unambiguously and which
      `std::regex` accepts. */
  predicate WellFormed(es: seq<Elem>) {
    BackRefsOpen(es) && NoDigitAfterBackRef(es)
  }

  function Cons(e: Elem, r: Option<seq<Elem>>): Option<seq<Elem>> {
    if r.Some? then Some([e] + r.value) else None
  }

  /** Reads a generated regex back into elements; `None` for any other text. */
  function Parse(s: string): Option<seq<Elem>>
    decreases |s|
  {
    if s == [] then Some([])
    else if StartsWith(s, LazyText) then Cons(Lazy, Parse(s[7..]))
    else if StartsWith(s, NonSpaceText) then Cons(NonSpace, Parse(s[7..]))
    else if s[0] == '\\' && |s| >= 2 && IsControl(s[1]) then Cons(Lit(s[1]), Parse(s[2..]))
    else if s[0] == '\\' && |s| >= 2 && IsDigit(s[1]) then
      var e := DigitEnd(s, 1);
      Cons(BackRef(DigitsValue(s[1..e])), Parse(s[e..]))
    else if IsControl(s[0]) then None
    else Cons(Lit(s[0]), Parse(s[1..]))
  }

  /** Reading back what was emitted gives the elements again. */
  lemma {:induction false} ParseEmit(es: seq<Elem>)
    requires NoDigitAfterBackRef(es)
    ensures Parse(Emit(es)) == Some(es)
    decreases |es|
  {
    if es != [] {
      NoDigitAfterBackRefTail(es);
      ParseEmit(es[1..]);
      EmitAfterBackRef(es);
      ParseStep(es[0], Emit(es[1..]));
      assert Emit(es) == EmitElem(es[0]) + Emit(es[1..]);
      assert [es[0]] + es[1..] == es;
    }
  }

  lemma NoDigitAfterBackRefTail(es: seq<Elem>)
    requires es != [] && NoDigitAfterBackRef(es)
    ensures NoDigitAfterBackRef(es[1..])
  {
    forall i | 0 <= i < |es[1..]| - 1 && es[1..][i].BackRef?
      ensures !(es[1..][i + 1].Lit? && IsDigit(es[1..][i + 1].c))
    {
      assert es[1..][i] == es[i + 1] && es[1..][i + 1] == es[i + 2];
    }
  }

  /** What follows an emitted backreference does not start with a digit. */
  lemma EmitAfterBackRef(es: seq<Elem>)
    requires es != [] && NoDigitAfterBackRef(es)
    ensures es[0].BackRef? ==> Emit(es[1..]) == [] || !IsDigit(Emit(es[1..])[0])
  {
    var rest := Emit(es[1..]);
    if es[0].BackRef? && rest != [] {
      assert es[1..] != [];
      assert rest == EmitElem(es[1]) + Emit(es[2..]);
      if es[1].Lit? {
        assert !IsDigit(es[1].c);
      }
    }
  }

  /** Parsing takes one emitted element off the front. */
  lemma ParseStep(e: Elem, rest: string)
    requires e.BackRef? ==> rest == [] || !IsDigit(rest[0])
    ensures Parse(EmitElem(e) + rest) == Cons(e, Parse(rest))
  {
    match e
    case Lit(c) =>
      if IsControl(c) { ParseEscaped(c, rest); } else { ParsePlain(c, rest); }
    case Lazy => ParseLazy(rest);
    case NonSpace => ParseNonSpace(rest);
    case BackRef(n) => ParseBackRef(n, rest);
  }

  lemma ParseEscaped(c: char, rest: string)
    requires IsControl(c)
    ensures Parse(EmitElem(Lit(c)) + rest) == Cons(Lit(c), Parse(rest))
  {
    var s := EmitElem(Lit(c)) + rest;
    assert s[0] == '\\' && s[1] == c;
    NotStartsWith(s, LazyText);
    NotStartsWith(s, NonSpaceText);
    assert s[2..] == rest;
  }

  lemma ParsePlain(c: char, rest: string)
    requires !IsControl(c)
    ensures Parse(EmitElem(Lit(c)) + rest) == Cons(Lit(c), Parse(rest))
  {
    var s := EmitElem(Lit(c)) + rest;
    assert s[0] == c;
    NotStartsWith(s, LazyText);
    NotStartsWith(s, NonSpaceText);
    assert s[1..] == rest;
  }

  lemma ParseLazy(rest: string)
    ensures Parse(EmitElem(Lazy) + rest) == Cons(Lazy, Parse(rest))
  {
    var s := EmitElem(Lazy) + rest;
    assert s[..7] == LazyText;
    assert s[7..] == rest;
  }

  lemma ParseNonSpace(rest: string)
    ensures Parse(EmitElem(NonSpace) + rest) == Cons(NonSpace, Parse(rest))
  {
    var s := EmitElem(NonSpace) + rest;
    assert s[2] != LazyText[2];
    assert s[..7] == NonSpaceText;
    assert s[7..] == rest;
  }

  lemma ParseBackRef(n: nat, rest: string)
    requires rest == [] || !IsDigit(rest[0])
    ensures Parse(EmitElem(BackRef(n)) + rest) == Cons(BackRef(n), Parse(rest))
  {
    var digits := NatToString(n);
    BackRefSpelling(digits, rest);
    assert EmitElem(BackRef(n)) + rest == ['\\'] + digits + rest;
    DigitsValueOfNatToString(n);
  }

  /** How `Parse` sees a backslash, a run of digits and a text that does
      not start with a digit. */
  lemma BackRefSpelling(digits: string, rest: string)
    requires |digits| > 0 && AllDigits(digits)
    requires rest == [] || !IsDigit(rest[0])
    ensures var s := ['\\'] + digits + rest;
      && !StartsWith(s, LazyText) && !StartsWith(s, NonSpaceText)
      && |s| >= 2 && s[0] == '\\' && !IsControl(s[1]) && IsDigit(s[1])
      && DigitEnd(s, 1) == 1 + |digits|
      && s[1..1 + |digits|] == digits && s[1 + |digits|..] == rest
  {
    var s := ['\\'] + digits + rest;
    NotStartsWith(s, LazyText);
    NotStartsWith(s, NonSpaceText);
    assert s[1] == digits[0];
    assert forall k :: 1 <= k < 1 + |digits| ==> s[k] == digits[k - 1];
    DigitEndIs(s, 1, 1 + |digits|);
    assert s[1..1 + |digits|] == digits;
    assert s[1 + |digits|..] == rest;
  }

  lemma DigitEndIs(s: string, i: nat, e: nat)
    requires i <= e <= |s|
    requires forall k :: i <= k < e ==> IsDigit(s[k])
    requires e == |s| || !IsDigit(s[e])
    ensures DigitEnd(s, i) == e
    decreases e - i
  {
    if i < e {
      DigitEndIs(s, i + 1, e);
    }
  }

  /** Whether `std::regex` builds an expression from the text `rx`. Only
      the generated spellings are considered: a text `Parse` cannot read is
      counted as refused. */
  predicate Accepted(rx: string) {
    Parse(rx).Some? && BackRefsOpen(Parse(rx).value)
  }

  /** A backreference that `Parse` reads is never followed by a literal
      digit, since the digit would have been read as part of its number; so
      an accepted expression is well formed. */
  lemma AcceptedWellFormed(rx: string)
    requires Accepted(rx)
    ensures WellFormed(Parse(rx).value)
  {
    ParseNoDigitAfterBackRef(rx);
  }

  lemma {:induction false} ParseNoDigitAfterBackRef(s: string)
    requires Parse(s).Some?
    ensures NoDigitAfterBackRef(Parse(s).value)
    decreases |s|
  {
    if s == [] {
    } else if StartsWith(s, LazyText) || StartsWith(s, NonSpaceText) {
      ParseNoDigitAfterBackRef(s[7..]);
      ConsNoDigit(if StartsWith(s, LazyText) then Lazy else NonSpace, Parse(s[7..]).value);
    } else if s[0] == '\\' && |s| >= 2 && IsControl(s[1]) {
      ParseNoDigitAfterBackRef(s[2..]);
      ConsNoDigit(Lit(s[1]), Parse(s[2..]).value);
    } else if s[0] == '\\' && |s| >= 2 && IsDigit(s[1]) {
      var e := DigitEnd(s, 1);
      ParseNoDigitAfterBackRef(s[e..]);
      ParseHeadDigit(s[e..]);
      ConsNoDigit(BackRef(DigitsValue(s[1..e])), Parse(s[e..]).value);
    } else {
      ParseNoDigitAfterBackRef(s[1..]);
      ConsNoDigit(Lit(s[0]), Parse(s[1..]).value);
    }
  }

  lemma ConsNoDigit(e: Elem, rest: seq<Elem>)
    requires NoDigitAfterBackRef(rest)
    requires e.BackRef? && rest != [] ==> !(rest[0].Lit? && IsDigit(rest[0].c))
    ensures NoDigitAfterBackRef([e] + rest)
  {
    var es := [e] + rest;
    forall i | 0 <= i < |es| - 1 && es[i].BackRef?
      ensures !(es[i + 1].Lit? && IsDigit(es[i + 1].c))
    {
      if i > 0 { assert es[i] == rest[i - 1] && es[i + 1] == rest[i]; }
    }
  }

  /** A literal digit is only read from a plain digit character. */
  lemma ParseHeadDigit(s: string)
    requires Parse(s).Some?
    ensures Parse(s).value != [] && Parse(s).value[0].Lit? && IsDigit(Parse(s).value[0].c) ==>
      s != [] && IsDigit(s[0])
  {
  }

  /** `MatchesFrom(es, text, prior, caps)`: the elements `es` match all of
      `text`, given the groups `prior` captured before them, and capture the
      groups `caps`. A wildcard captures its whole run and, as its inner
      group, the run's last character; a backreference must repeat the text
      of the group it names. */
  predicate MatchesFrom(es: seq<Elem>, text: string, prior: seq<string>, caps: seq<string>)
    decreases |es|
  {
    if es == [] then text == [] && caps == []
    else match es[0]
      case Lit(c) =>
        |text| > 0 && text[0] == c && MatchesFrom(es[1..], text[1..], prior, caps)
      case BackRef(n) =>
        1 <= n <= |prior| && StartsWith(text, prior[n - 1])
        && MatchesFrom(es[1..], text[|prior[n - 1]|..], prior, caps)
      case _ =>
        |caps| >= 2 &&
        var k := |caps[0]|;
        1 <= k <= |text| && text[..k] == caps[0]
        && (forall i :: 0 <= i < k ==> es[0].Admits(text[i]))
        && caps[1] == [text[k - 1]]
        && MatchesFrom(es[1..], text[k..], prior + caps[..2], caps[2..])
  }

  /** `groups[0]` is the whole match, as in `std::smatch`. */
  predicate Matches(es: seq<Elem>, text: string, groups: seq<string>) {
    |groups| >= 1 && groups[0] == text && MatchesFrom(es, text, [], groups[1..])
  }

  predicate NoLineEnd(s: string) {
    forall k :: 0 <= k < |s| ==> !IsLineEnd(s[k])
  }

  /** A match never runs across a line end that the pattern does not spell
      out itself: wildcards stop at `\n` and `\r`, and a backreference only
      repeats text a wildcard captured. */
  lemma {:induction false} MatchStaysOnLine(es: seq<Elem>, text: string, prior: seq<string>, caps: seq<string>)
    requires MatchesFrom(es, text, prior, caps)
    requires forall i :: 0 <= i < |es| && es[i].Lit? ==> !IsLineEnd(es[i].c)
    requires forall i :: 0 <= i < |prior| ==> NoLineEnd(prior[i])
    ensures NoLineEnd(text)
    ensures forall i :: 0 <= i < |caps| ==> NoLineEnd(caps[i])
    decreases |es|
  {
    if es != [] {
      assert forall i :: 0 <= i < |es[1..]| && es[1..][i].Lit? ==> !IsLineEnd(es[1..][i].c) by {
        forall i | 0 <= i < |es[1..]| && es[1..][i].Lit? ensures !IsLineEnd(es[1..][i].c) {
          assert es[1..][i] == es[i + 1];
        }
      }
      match es[0]
      case Lit(c) =>
        MatchStaysOnLine(es[1..], text[1..], prior, caps);
        assert text == [c] + text[1..];
      case BackRef(n) =>
        var r := prior[n - 1];
        MatchStaysOnLine(es[1..], text[|r|..], prior, caps);
        assert text == r + text[|r|..];
      case _ =>
        var k := |caps[0]|;
        var p' := prior + caps[..2];
        assert NoLineEnd(caps[0]) by {
          forall i | 0 <= i < k ensures !IsLineEnd(caps[0][i]) {
            assert es[0].Admits(text[i]);
          }
        }
        assert NoLineEnd(caps[1]) by { assert caps[1][0] == caps[0][k - 1]; }
        assert forall i :: 0 <= i < |p'| ==> NoLineEnd(p'[i]) by {
          forall i | 0 <= i < |p'| ensures NoLineEnd(p'[i]) {
            if i >= |prior| { assert p'[i] == caps[i - |prior|]; }
          }
        }
        MatchStaysOnLine(es[1..], text[k..], p', caps[2..]);
        assert text == caps[0] + text[k..];
        assert forall i :: 2 <= i < |caps| ==> caps[i] == caps[2..][i - 2];
    }
  }

  /** A match of `es` captures exactly two groups per wildcard. */
  lemma {:induction false} MatchGroupCount(es: seq<Elem>, text: string, prior: seq<string>, caps: seq<string>)
    requires MatchesFrom(es, text, prior, caps)
    ensures |caps| == GroupCount(es)
    decreases |es|
  {
    if es != [] {
      match es[0]
      case Lit(c) => MatchGroupCount(es[1..], text[1..], prior, caps);
      case BackRef(n) => MatchGroupCount(es[1..], text[|prior[n - 1]|..], prior, caps);
      case _ => MatchGroupCount(es[1..], text[|caps[0]|..], prior + caps[..2], caps[2..]);
    }
  }

  /** The result of a `std::regex_search`: the text before the match, the
      groups (`groups[0]` the whole match) and the text after it. */
  datatype Match = Match(prefix: string, groups: seq<string>, suffix: string)
  {
    /** `prefix + whole + suffix` is the searched buffer. */
    predicate Splits(buffer: string) {
      |groups| > 0 && prefix + groups[0] + suffix == buffer
    }

    /** `matches.str(n)`: an absent group reads as the empty string. */
    function Group(n: nat): string {
      if n < |groups| then groups[n] else []
    }
  }

  /** `std::regex_search` of the buffer (second argument) for the regex
      whose source text is the first argument: the leftmost match, if any. */
  type Searcher = (string, string) -> Option<Match>

  /** What a search must return for a regex that is a generated shape: no
      match anywhere, or a match that starts at the leftmost position where
      one exists. */
  ghost predicate ShapeSearch(es: seq<Elem>, buffer: string, r: Option<Match>) {
    match r
    case None =>
      forall i, j, gs :: 0 <= i <= j <= |buffer| ==> !Matches(es, buffer[i..j], gs)
    case Some(m) =>
      && m.Splits(buffer)
      && Matches(es, m.groups[0], m.groups)
      && forall i, j, gs :: 0 <= i < |m.prefix| && i <= j <= |buffer| ==> !Matches(es, buffer[i..j], gs)
  }

  /** The contract the rewrite engine relies on: a found match splits the
      buffer, and on generated shapes the search agrees with `Matches`. */
  ghost predicate Sound(search: Searcher) {
    && (forall rx, buffer :: search(rx, buffer).Some? ==> search(rx, buffer).value.Splits(buffer))
    && (forall rx, buffer :: Parse(rx).Some? && WellFormed(Parse(rx).value) ==>
          ShapeSearch(Parse(rx).value, buffer, search(rx, buffer)))
  }
}
