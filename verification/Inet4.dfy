/** Dotted-quad addresses: tor_inet_ntoa (src/common/address.c) and tor_inet_aton
    (src/common/compat.c). */
module Inet4 {
  import opened Numerals
  import opened Scanf
  import opened Wrappers

  type Octet = n: nat | n < 256

  const PATTERN: string := "%3u.%3u.%3u.%3u%c"

  /** What the pattern asks for. */
  const DOTTED: seq<Directive> := [
    Unsigned(3, 10), Literal('.'), Unsigned(3, 10), Literal('.'), Unsigned(3, 10), Literal('.'), Unsigned(3, 10),
      AnyChar
  ]

  lemma PatternIs()
    ensures Directives(PATTERN, 0) == DOTTED
  {
    hide Directives, DirectiveAt;
    var p := PATTERN;
    NumberDot(p, 0);
    NumberDot(p, 4);
    NumberDot(p, 8);
    ThreeDigits(p, 12);
    First(p, 12);
    OneCharacter(p, 15);
    First(p, 15);
    First(p, 17);
  }

  /** "%3u." */
  lemma NumberDot(p: string, i: nat)
    requires i + 3 < |p| && p[i] == '%' && p[i + 1] == '3' && p[i + 2] == 'u' && p[i + 3] == '.'
    ensures Directives(p, i) == [Unsigned(3, 10), Literal('.')] + Directives(p, i + 4)
  {
    hide Directives, DirectiveAt;
    ThreeDigits(p, i);
    First(p, i);
    Dot(p, i + 3);
    First(p, i + 3);
  }

  lemma First(p: string, i: nat)
    requires i <= |p|
    ensures Directives(p, i) == if i == |p| then [] else [DirectiveAt(p, i).0] + Directives(p, DirectiveAt(p, i).1)
  {
  }

  lemma Dot(p: string, i: nat)
    requires i < |p| && p[i] == '.'
    ensures DirectiveAt(p, i) == (Literal('.'), i + 1)
  {
  }

  /** "%c" */
  lemma OneCharacter(p: string, i: nat)
    requires i + 1 < |p| && p[i] == '%' && p[i + 1] == 'c'
    ensures DirectiveAt(p, i) == (AnyChar, i + 2)
  {
    RunEndIs(p, i + 1, i + 1, 10);
  }

  /** "%3u" */
  lemma ThreeDigits(p: string, i: nat)
    requires i + 2 < |p| && p[i] == '%' && p[i + 1] == '3' && p[i + 2] == 'u'
    ensures DirectiveAt(p, i) == (Unsigned(3, 10), i + 3)
  {
    RunEndIs(p, i + 1, i + 2, 10);
    assert p[i + 1..i + 2] == ['3'];
    ValueOfDigit('3', 10);
  }

  function Quad(s: string): (quad: Option<seq<Octet>>)
    ensures quad.Some? ==> |quad.value| == 4
  {
    QuadOf(Matched(s, 0, DOTTED))
  }

  /** What is left to check when the fields have been stored. */
  function QuadOf(v: seq<Field>): (quad: Option<seq<Octet>>)
    ensures quad.Some? ==> |quad.value| == 4
  {
    if |v| == 4 && forall i | 0 <= i < 4 :: v[i].Number? && v[i].n <= 255
    then Some([v[0].n, v[1].n, v[2].n, v[3].n]) else None
  }

  /** tor_inet_aton, giving the four bytes of the address. */
  method Aton(s: string) returns (quad: Option<seq<Octet>>)
    ensures quad == Quad(s)
    ensures forall q :: quad == Some(q) <==> exists p :: Spells(s, p, q)
  {
    hide Matched, Spells;
    forall q ensures Quad(s) == Some(q) <==> exists p :: Spells(s, p, q) {
      QuadSpells(s, q);
    }
    QuadFields(s);
    var n, v := ScanQuad(s);
    if n != 4 {
      return None;
    }
    if v[0].n > 255 { return None; }
    if v[1].n > 255 { return None; }
    if v[2].n > 255 { return None; }
    if v[3].n > 255 { return None; }
    return Some([v[0].n, v[1].n, v[2].n, v[3].n]);
  }

  method ScanQuad(s: string) returns (n: int, v: seq<Field>)
    ensures v == Matched(s, 0, DOTTED) && n == |v|
  {
    hide Matched, Spoilt, Directives;
    PatternIs();
    NeverSpoilt(s, 0, DOTTED);
    n, v := Sscanf(s, PATTERN);
  }

  lemma {:induction false} NeverSpoilt(s: string, k: nat, pattern: seq<Directive>)
    requires k <= |s| && Malformed !in pattern
    ensures !Spoilt(s, k, pattern)
    decreases |pattern|
  {
    hide Advance;
    if pattern != [] && Advance(s, k, pattern[0]).Some? {
      NeverSpoilt(s, Advance(s, k, pattern[0]).value.0, pattern[1..]);
    }
  }

  /** If four things are stored, they are numbers. */
  lemma QuadFields(s: string)
    ensures var v := Matched(s, 0, DOTTED);
            |v| == 4 ==> v[0].Number? && v[1].Number? && v[2].Number? && v[3].Number?
  {
    hide Matched, DottedFrom;
    DottedIs();
    var p := MatchedIsJoined(s, 0, 4);
  }

  /** Numerals joined by dots. */
  function Joined(p: seq<string>): string
    requires p != []
  {
    if |p| == 1 then p[0] else p[0] + "." + Joined(p[1..])
  }

  predicate ShortNumeral(t: string) {
    1 <= |t| <= 3 && AllDigits(t, 10)
  }

  /** The text is four numerals of one to three digits, none above 255, joined by dots. */
  ghost predicate Spells(s: string, p: seq<string>, quad: seq<Octet>) {
    && |p| == |quad| == 4 && s == Joined(p)
    && forall i | 0 <= i < 4 :: ShortNumeral(p[i]) && Value(p[i], 10) == quad[i]
  }

  function DottedFrom(n: nat): seq<Directive>
    requires 1 <= n
  {
    if n == 1 then [Unsigned(3, 10), AnyChar] else [Unsigned(3, 10), Literal('.')] + DottedFrom(n - 1)
  }

  lemma DottedIs()
    ensures DottedFrom(4) == DOTTED
  {
    assert DottedFrom(2) == [Unsigned(3, 10), Literal('.'), Unsigned(3, 10), AnyChar];
  }

  /** The number that starts at k, if there is one. */
  function NumberAt(s: string, k: nat): seq<Field>
    requires k <= |s|
  {
    [Number(Value(s[k..ScanEnd(s, k, 3, 10)], 10))]
  }

  /** One number and a dot. */
  lemma MatchNumber(s: string, k: nat, n: nat)
    requires k <= |s| && 1 <= n
    ensures var m, e := Matched(s, k, DottedFrom(n)), ScanEnd(s, k, 3, 10);
            if e == k then m == []
            else if n == 1 then m == if e < |s| then NumberAt(s, k) + [Character(s[e])] else NumberAt(s, k)
            else m == NumberAt(s, k) + if e < |s| && s[e] == '.' then Matched(s, e + 1, DottedFrom(n - 1)) else []
  {
    hide ScanEnd, Value, RunEnd, DottedFrom, Matched, Scanned;
    var e := ScanEnd(s, k, 3, 10);
    DottedStep(n);
    DigitsThere(s, k, e);
    MatchedStep(s, k, DottedFrom(n), 0);
    assert DottedFrom(n)[0..] == DottedFrom(n);
    MatchedStep(s, e, DottedFrom(n), 1);
    if n > 1 {
      assert DottedFrom(n)[2..] == DottedFrom(n - 1);
    } else if e < |s| {
      MatchedStep(s, e + 1, DottedFrom(n), 2);
    }
  }

  /** How Matched goes on at directive p. */
  lemma MatchedStep(s: string, k: nat, pattern: seq<Directive>, p: nat)
    requires k <= |s| && p <= |pattern|
    ensures p == |pattern| ==> Matched(s, k, pattern[p..]) == []
    ensures p < |pattern| ==>
              Matched(s, k, pattern[p..]) == match Advance(s, k, pattern[p])
                                             case None => []
                                             case Some((next, stored)) => stored + Matched(s, next, pattern[p + 1..])
  {
    hide Advance;
    if p < |pattern| {
      assert pattern[p..][1..] == pattern[p + 1..];
    }
  }

  lemma DottedStep(n: nat)
    requires 1 <= n
    ensures DottedFrom(n) == if n == 1 then [Unsigned(3, 10), AnyChar]
              else [Unsigned(3, 10), Literal('.')] + DottedFrom(n - 1)
  {
  }

  function Values(p: seq<string>): (v: seq<Field>)
    ensures |v| == |p| && forall i | 0 <= i < |p| :: v[i] == Number(Value(p[i], 10))
  {
    if p == [] then [] else [Number(Value(p[0], 10))] + Values(p[1..])
  }

  lemma {:induction false} MatchesJoined(s: string, k: nat, p: seq<string>)
    requires k <= |s| && p != [] && s[k..] == Joined(p)
    requires forall i | 0 <= i < |p| :: ShortNumeral(p[i])
    ensures Matched(s, k, DottedFrom(|p|)) == Values(p)
    decreases |p|
  {
    hide ScanEnd, Value, RunEnd, DottedFrom, Matched, Joined, Values, ShortNumeral;
    var e := k + |p[0]|;
    assert ShortNumeral(p[0]);
    JoinedFront(s, k, p);
    ScanEndIs(s, k, e);
    MatchNumber(s, k, |p|);
    OneNumeral(s, k, e);
    if |p| > 1 {
      MatchesJoined(s, e + 1, p[1..]);
    }
  }

  lemma JoinedFront(s: string, k: nat, p: seq<string>)
    requires k <= |s| && p != [] && s[k..] == Joined(p)
    ensures var e := k + |p[0]|;
            && e <= |s| && s[k..e] == p[0]
               && (if |p| == 1 then e == |s| else e < |s| && s[e] == '.' && s[e + 1..] == Joined(p[1..]))
    ensures Values(p) == Values([p[0]]) + Values(p[1..])
  {
    var e := k + |p[0]|;
    assert s[k..][..|p[0]|] == p[0];
    assert p[1..] == [] <==> |p| == 1;
    if |p| > 1 {
      assert s[e] == s[k..][|p[0]|];
      assert s[e + 1..] == s[k..][|p[0]| + 1..];
    }
  }

  lemma ScanEndIs(s: string, k: nat, e: nat)
    requires k <= e <= |s| && ShortNumeral(s[k..e]) && (e < |s| ==> s[e] == '.')
    ensures ScanEnd(s, k, 3, 10) == e && k < e
  {
    RunEndIs(s, k, e, 10);
  }

  lemma {:induction false} MatchedIsJoined(s: string, k: nat, n: nat) returns (p: seq<string>)
    requires k <= |s| && 1 <= n
    ensures |Matched(s, k, DottedFrom(n))| == n ==>
              |p| == n && s[k..] == Joined(p) && Values(p) == Matched(s, k, DottedFrom(n))
              && forall i | 0 <= i < n :: ShortNumeral(p[i])
    decreases n
  {
    hide ScanEnd, Value, RunEnd, DottedFrom, Matched, Joined, Values, ShortNumeral;
    var e := ScanEnd(s, k, 3, 10);
    MatchNumber(s, k, n);
    if e == k {
      p := [];
    } else if n == 1 {
      OneNumeral(s, k, e);
      p := [s[k..e]];
    } else if e < |s| && s[e] == '.' {
      var q := MatchedIsJoined(s, e + 1, n - 1);
      OneNumeral(s, k, e);
      p := [s[k..e]] + q;
      if |q| == n - 1 && s[e + 1..] == Joined(q) {
        OneMore(s, k, e, q);
      }
    } else {
      p := [];
    }
  }

  lemma OneNumeral(s: string, k: nat, e: nat)
    requires k <= |s| && e == ScanEnd(s, k, 3, 10) && k < e
    ensures ShortNumeral(s[k..e]) && Values([s[k..e]]) == NumberAt(s, k)
    ensures e == |s| ==> s[k..] == Joined([s[k..e]])
  {
    DigitsThere(s, k, e);
    assert e == |s| ==> s[k..] == s[k..e];
  }

  lemma OneMore(s: string, k: nat, e: nat, q: seq<string>)
    requires k <= e < |s| && s[e] == '.' && q != [] && s[e + 1..] == Joined(q)
    ensures s[k..] == Joined([s[k..e]] + q) && Values([s[k..e]] + q) == Values([s[k..e]]) + Values(q)
  {
    assert ([s[k..e]] + q)[1..] == q;
    assert s[k..] == s[k..e] + "." + s[e + 1..];
  }

  lemma DigitsThere(s: string, k: nat, e: nat)
    requires k <= |s| && e == ScanEnd(s, k, 3, 10)
    ensures AllDigits(s[k..e], 10) && Scanned(s[k..e], 10) == Some(Value(s[k..e], 10))
  {
    assert s[k..e] == s[k..RunEnd(s, k, 10)][..e - k];
    NineDigits(s[k..e]);
  }

  function Numbers(quad: seq<Octet>): seq<Field> {
    seq(|quad|, i requires 0 <= i < |quad| => Number(quad[i]))
  }

  lemma QuadMatched(v: seq<Field>, quad: seq<Octet>)
    ensures QuadOf(v) == Some(quad) <==> |quad| == 4 && v == Numbers(quad)
  {
    var w := Numbers(quad);
    if |quad| == 4 {
      assert [quad[0], quad[1], quad[2], quad[3]] == quad;
      assert v == w <==> |v| == 4 && v[0] == w[0] && v[1] == w[1] && v[2] == w[2] && v[3] == w[3];
    }
  }

  /** tor_inet_aton accepts exactly the dotted quads. */
  lemma QuadSpells(s: string, quad: seq<Octet>)
    ensures Quad(s) == Some(quad) <==> exists p :: Spells(s, p, quad)
  {
    hide Matched, DottedFrom, Value, Joined;
    DottedIs();
    assert s[0..] == s;
    if p :| Spells(s, p, quad) {
      MatchesJoined(s, 0, p);
      assert Values(p) == Numbers(quad);
    }
    QuadMatched(Matched(s, 0, DOTTED), quad);
    var p := MatchedIsJoined(s, 0, 4);
    if Quad(s) == Some(quad) {
      assert Spells(s, p, quad);
    }
  }

  /** "%d.%d.%d.%d" */
  function DottedText(a: seq<Octet>): string
    requires |a| == 4
  {
    Numeral(a[0], 10) + "." + Numeral(a[1], 10) + "." + Numeral(a[2], 10) + "." + Numeral(a[3], 10)
  }

  lemma OctetNumeral(n: Octet)
    ensures ShortNumeral(Numeral(n, 10)) && Value(Numeral(n, 10), 10) == n
  {
    NumeralReads(n, 10);
    Powers();
    NumeralLength(n, 10, 3);
  }

  /** What tor_inet_ntoa writes, tor_inet_aton reads back; it takes 7 to 15 characters. */
  lemma QuadRoundTrip(a: seq<Octet>)
    requires |a| == 4
    ensures Quad(DottedText(a)) == Some(a) && 7 <= |DottedText(a)| <= 15
  {
    hide Numeral, Value, Quad;
    var p := [Numeral(a[0], 10), Numeral(a[1], 10), Numeral(a[2], 10), Numeral(a[3], 10)];
    OctetNumeral(a[0]);
    OctetNumeral(a[1]);
    OctetNumeral(a[2]);
    OctetNumeral(a[3]);
    JoinedFour(p);
    assert Spells(DottedText(a), p, a);
    QuadSpells(DottedText(a), a);
  }

  lemma JoinedFour(p: seq<string>)
    requires |p| == 4
    ensures Joined(p) == p[0] + "." + p[1] + "." + p[2] + "." + p[3]
  {
    assert p[1..][1..][1..] == [p[3]];
    assert Joined(p[1..][1..]) == p[2] + "." + p[3];
    assert Joined(p[1..]) == p[1] + "." + (p[2] + "." + p[3]);
  }
}
