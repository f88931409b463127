/** What tor_inet_ntop in src/common/compat.c prints, said without its loops: which form an
    address gets, which run of zeros is left out, and how the words are spelt. */
module Inet6Canonical {
  import opened Inet4
  import opened Inet6RoundTrip
  import opened Inet6Text
  import opened Numerals

  // ---------------------------------------------------------------------------------------------
  // The form.

  /** The address as a number, the first byte the highest. */
  function BigEndian(a: seq<Octet>): nat {
    if a == [] then 0 else BigEndian(a[..|a| - 1]) * 256 + a[|a| - 1]
  }

  lemma BigEndianMore(a: seq<Octet>, n: nat)
    requires n < |a|
    ensures BigEndian(a[..n + 1]) == BigEndian(a[..n]) * 256 + a[n]
  {
    assert a[..n + 1][..n] == a[..n];
  }

  /** With two more bytes a number gains a word. */
  lemma WordMore(a: seq<Octet>, i: nat)
    requires |a| == 16 && i < 8
    ensures BigEndian(a[..2 * i + 2]) == BigEndian(a[..2 * i]) * 65536 + Words(a)[i]
  {
    BigEndianMore(a, 2 * i);
    BigEndianMore(a, 2 * i + 1);
  }

  lemma {:induction false} ZeroWords(a: seq<Octet>, n: nat)
    requires |a| == 16 && n <= 8
    ensures BigEndian(a[..2 * n]) == 0 <==> forall i | 0 <= i < n :: Words(a)[i] == 0
  {
    hide BigEndian, Words;
    if n == 0 {
      assert a[..0] == [] && BigEndian([]) == 0 by { NoBytes(); }
    } else {
      ZeroWords(a, n - 1);
      WordMore(a, n - 1);
    }
  }

  lemma NoBytes()
    ensures BigEndian([]) == 0
  {
  }

  /** An address is printed with a dotted tail exactly if it is IPv4-mapped, or else below 2^32 with
      neither of its last two words zero. */
  lemma DottedIff(a: seq<Octet>, gap: int)
    requires |a| == 16 && IsGap(Words(a), gap)
    ensures var n := BigEndian(a);
            '.' in Text(a, gap) <==>
            n / 0x1_0000_0000 == 0xffff || (0x1_0000 <= n < 0x1_0000_0000 && n % 0x1_0000 != 0)
  {
    hide BigEndian, Words, IsGap, Printed, DottedText, Numeral;
    ZeroWords(a, 5);
    WordMore(a, 5);
    WordMore(a, 6);
    WordMore(a, 7);
    assert a[..16] == a;
    GapFacts(Words(a), gap);
    if HasDottedTail(Words(a)) {
      DotThere(a[12..]);
    } else {
      PrintedChars(Words(a), gap, 0);
      NoDot(Printed(Words(a), gap, 0));
    }
  }

  /** What such an address looks like. */
  lemma DottedShape(a: seq<Octet>, gap: int)
    requires |a| == 16 && IsGap(Words(a), gap) && '.' in Text(a, gap)
    ensures Text(a, gap) == (if BigEndian(a) < 0x1_0000_0000 then "::" else "::ffff:") + DottedText(a[12..])
  {
    hide BigEndian, Words, IsGap, Printed, DottedText, Numeral;
    DottedIff(a, gap);
    ZeroWords(a, 5);
    WordMore(a, 5);
    WordMore(a, 6);
    WordMore(a, 7);
    assert a[..16] == a;
    GapFacts(Words(a), gap);
    AllOnes();
    if !HasDottedTail(Words(a)) {
      PrintedChars(Words(a), gap, 0);
      NoDot(Printed(Words(a), gap, 0));
    }
  }

  lemma AllOnes()
    ensures Numeral(0xffff, 16) == "ffff"
  {
    hide Numeral;
    OneF(0xffff);
    OneF(0xfff);
    OneF(0xff);
    OneDigit(15, 16);
  }

  lemma OneF(n: nat)
    requires n in {0xff, 0xfff, 0xffff}
    ensures Numeral(n, 16) == Numeral(n / 16, 16) + "f"
  {
  }

  lemma DotThere(quad: seq<Octet>)
    requires |quad| == 4
    ensures '.' in DottedText(quad)
  {
    hide Numeral;
    assert DottedText(quad)[|Numeral(quad[0], 10)|] == '.';
  }

  // ---------------------------------------------------------------------------------------------
  // The run that is left out.

  /** The n words from i on are all zero. */
  predicate ZerosAt(w: seq<Word>, i: nat, n: nat) {
    i + n <= |w| && forall j | i <= j < i + n :: w[j] == 0
  }

  lemma {:induction false} RunIsLongest(w: seq<Word>, i: nat, n: nat)
    requires i <= |w|
    ensures ZerosAt(w, i, n) <==> n <= RunLength(w, i)
    decreases n
  {
    if n > 0 {
      if ZerosAt(w, i, n) {
        assert w[i] == 0;
        assert ZerosAt(w, i + 1, n - 1);
        RunIsLongest(w, i + 1, n - 1);
      }
    }
  }

  /** Each run of zeros is at most n long, and shorter if it starts before p. */
  ghost predicate NoneBeats(w: seq<Word>, p: nat, n: nat) {
    forall i: nat, m: nat | ZerosAt(w, i, m) && 0 < m :: m <= n && (m == n ==> p <= i)
  }

  lemma BestIffNoneBeats(w: seq<Word>, p: nat, n: nat)
    requires |w| == 8 && 0 < n
    ensures Best(w, 8, p, n) <==> NoneBeats(w, p, n)
  {
    hide RunLength, ZerosAt;
    forall i: nat, m: nat | ZerosAt(w, i, m) && 0 < m ensures i < 8 && m <= RunLength(w, i) {
      Bounded(w, i, m);
      RunIsLongest(w, i, m);
    }
    forall i | 0 <= i < 8 ensures ZerosAt(w, i, RunLength(w, i)) {
      RunIsLongest(w, i, RunLength(w, i));
    }
  }

  lemma Bounded(w: seq<Word>, i: nat, m: nat)
    requires ZerosAt(w, i, m)
    ensures i + m <= |w|
  {
  }

  /** The gap is the run of n zero words at p: two at least, no run anywhere is longer, and none as
      long starts before. */
  lemma GapIsLeftmostLongest(w: seq<Word>, p: nat, n: nat)
    requires |w| == 8
    ensures (p < 8 && IsGap(w, p) && n == RunLength(w, p)) <==> (2 <= n && ZerosAt(w, p, n) && NoneBeats(w, p, n))
  {
    hide RunLength, ZerosAt, Best, NoneBeats;
    if 2 <= n && ZerosAt(w, p, n) {
      Bounded(w, p, n);
    }
    if p < 8 {
      RunIsLongest(w, p, n);
      RunIsLongest(w, p, RunLength(w, p));
      if 0 < n {
        BestIffNoneBeats(w, p, n);
        NotBeaten(w, p, n, RunLength(w, p));
      }
    }
  }

  lemma NotBeaten(w: seq<Word>, p: nat, n: nat, m: nat)
    requires ZerosAt(w, p, m)
    ensures NoneBeats(w, p, n) ==> m == 0 || m <= n
  {
  }

  /** There is none exactly if no two adjacent words are zero. */
  lemma NoGap(w: seq<Word>)
    requires |w| == 8
    ensures IsGap(w, -1) <==> forall i: nat :: !ZerosAt(w, i, 2)
  {
    hide RunLength, ZerosAt;
    forall i: nat | ZerosAt(w, i, 2) ensures i < 8 {
      Bounded(w, i, 2);
    }
    forall i: nat | i < 8 ensures ZerosAt(w, i, 2) <==> 2 <= RunLength(w, i) {
      RunIsLongest(w, i, 2);
    }
  }

  // ---------------------------------------------------------------------------------------------
  // The spelling.

  /** The words in hexadecimal with colons between them. */
  function Spelt(w: seq<Word>): string {
    if w == [] then ""
    else if |w| == 1 then Numeral(w[0], 16)
    else Numeral(w[0], 16) + ":" + Spelt(w[1..])
  }

  lemma {:induction false} BehindGap(w: seq<Word>, gap: int, i: nat)
    requires |w| == 8 && GapOk(w, gap) && gap < i <= 8
    ensures Printed(w, gap, i) == Spelt(w[i..])
    decreases 8 - i
  {
    hide Numeral, RunLength;
    if i < 8 {
      BehindGap(w, gap, i + 1);
      assert w[i..][0] == w[i] && w[i..][1..] == w[i + 1..];
    }
  }

  lemma {:induction false} BeforeGap(w: seq<Word>, gap: nat, i: nat)
    requires |w| == 8 && GapOk(w, gap) && i < gap
    ensures Printed(w, gap, i) == Spelt(w[i..gap]) + "::" + Spelt(w[gap + RunLength(w, gap)..])
    decreases gap - i
  {
    hide Numeral, RunLength;
    var rest := Spelt(w[gap + RunLength(w, gap)..]);
    assert w[i..gap][0] == w[i] && w[i..gap][1..] == w[i + 1..gap];
    if i + 1 < gap {
      BeforeGap(w, gap, i + 1);
      Regrouped(Numeral(w[i], 16), ":", Spelt(w[i + 1..gap]), "::", rest);
    } else {
      BehindGap(w, gap, gap + RunLength(w, gap));
      assert Printed(w, gap, gap) == ":" + rest;
      Regrouped(Numeral(w[i], 16), ":", "", ":", rest);
    }
  }

  lemma Regrouped(a: string, b: string, c: string, d: string, e: string)
    ensures (a + b) + (c + d + e) == (a + b + c) + d + e
  {
  }

  /** Without a dotted tail an address is its words, with a double colon for the gap. */
  lemma TextIsSpelt(a: seq<Octet>, gap: int)
    requires |a| == 16 && IsGap(Words(a), gap) && !HasDottedTail(Words(a))
    ensures var w := Words(a);
            -1 <= gap < 8 &&
            Text(a, gap) ==
            if gap < 0 then Spelt(w) else Spelt(w[..gap]) + "::" + Spelt(w[gap + RunLength(w, gap)..])
  {
    hide Numeral, RunLength, Words, Best, Spelt, Printed, HasDottedTail;
    WholeSpelt(Words(a), gap);
  }

  lemma WholeSpelt(w: seq<Word>, gap: int)
    requires |w| == 8 && GapOk(w, gap)
    ensures Printed(w, gap, 0) ==
            if gap < 0 then Spelt(w) else Spelt(w[..gap]) + "::" + Spelt(w[gap + RunLength(w, gap)..])
  {
    hide Numeral, RunLength;
    if gap < 0 {
      BehindGap(w, gap, 0);
      assert w[0..] == w;
    } else if gap == 0 {
      BehindGap(w, gap, RunLength(w, gap));
      assert w[..0] == [];
    } else {
      BeforeGap(w, gap, 0);
      assert w[0..gap] == w[..gap];
    }
  }

  /** All letters are lower-case digits. */
  predicate Tidy(s: string) {
    forall c | c in s :: Plain(c, 16) || c == ':' || c == '.'
  }

  lemma TextIsTidy(a: seq<Octet>, gap: int)
    requires |a| == 16 && IsGap(Words(a), gap)
    ensures Tidy(Text(a, gap))
  {
    hide Numeral, RunLength, Words, Best, Spelt, Printed, DottedText;
    var w := Words(a);
    if HasDottedTail(w) {
      DottedIsTidy(a[12..]);
      NumeralIsPlain(w[5], 16);
    } else {
      TextIsSpelt(a, gap);
      SpeltIsTidy(w);
      if gap >= 0 {
        SpeltIsTidy(w[..gap]);
        SpeltIsTidy(w[gap + RunLength(w, gap)..]);
      }
    }
  }

  lemma {:induction false} SpeltIsTidy(w: seq<Word>)
    ensures Tidy(Spelt(w))
  {
    hide Numeral, Plain;
    if w != [] {
      NumeralIsPlain(w[0], 16);
      SpeltIsTidy(w[1..]);
    }
  }

  lemma DottedIsTidy(quad: seq<Octet>)
    requires |quad| == 4
    ensures Tidy(DottedText(quad))
  {
    hide Numeral, Plain;
    DecimalIsTidy(quad[0]);
    DecimalIsTidy(quad[1]);
    DecimalIsTidy(quad[2]);
    DecimalIsTidy(quad[3]);
  }

  lemma DecimalIsTidy(n: nat)
    ensures forall c | c in Numeral(n, 10) :: Plain(c, 16)
  {
    hide Numeral;
    NumeralIsPlain(n, 10);
    forall c | c in Numeral(n, 10) ensures Plain(c, 16) {
      assert Plain(c, 10);
    }
  }

  // ---------------------------------------------------------------------------------------------
  // Two addresses that differ in form only by a word.

  lemma LoopbackText(gap: int)
    requires IsGap(Words(seq(15, _ => 0) + [1]), gap)
    ensures Text(seq(15, _ => 0) + [1], gap) == "::1"
  {
    hide IsGap, Text, RunLength, Words, Numeral, ZerosAt, NoneBeats;
    var a: seq<Octet> := seq(15, _ => 0) + [1];
    var w := Words(a);
    LoopbackWords();
    LoopbackGap(w);
    GapIsLeftmostLongest(w, 0, 7);
    GapIsUnique(w, gap, 0);
    TextIsSpelt(a, 0);
    assert w[..0] == [] && w[7..] == [1];
    OneDigit(1, 16);
  }

  lemma LoopbackWords()
    ensures Words(seq(15, _ => 0) + [1]) == [0, 0, 0, 0, 0, 0, 0, 1]
  {
    var a: seq<Octet> := seq(15, _ => 0) + [1];
    forall i | 0 <= i < 8 ensures Words(a)[i] == if i < 7 then 0 else 1 {
      assert a[2 * i] == 0 && a[2 * i + 1] == if i < 7 then 0 else 1;
    }
  }

  lemma LoopbackGap(w: seq<Word>)
    requires w == [0, 0, 0, 0, 0, 0, 0, 1]
    ensures ZerosAt(w, 0, 7) && NoneBeats(w, 0, 7)
  {
    forall i: nat, m: nat | ZerosAt(w, i, m) && 0 < m ensures m <= 7 {
      assert w[7] == 1;
    }
  }

  lemma OneDigit(d: nat, base: nat)
    requires d < base && 10 <= base <= 16
    ensures Numeral(d, base) == [Digit(d)] && (d == 1 ==> Numeral(d, base) == "1")
  {
  }

  lemma CompatibleText(gap: int)
    requires IsGap(Words(seq(12, _ => 0) + [1, 2, 3, 4]), gap)
    ensures Text(seq(12, _ => 0) + [1, 2, 3, 4], gap) == "::1.2.3.4"
  {
    hide IsGap, RunLength, Printed, Words, DottedText;
    var a: seq<Octet> := seq(12, _ => 0) + [1, 2, 3, 4];
    GapFacts(Words(a), gap);
    CompatibleWords();
    assert a[12..] == [1, 2, 3, 4];
    OneTwoThreeFour();
  }

  lemma CompatibleWords()
    ensures Words(seq(12, _ => 0) + [1, 2, 3, 4]) == [0, 0, 0, 0, 0, 0, 258, 772]
  {
    var a: seq<Octet> := seq(12, _ => 0) + [1, 2, 3, 4];
    forall i | 0 <= i < 8 ensures Words(a)[i] == if i < 6 then 0 else if i == 6 then 258 else 772 {
      assert i < 6 ==> a[2 * i] == a[2 * i + 1] == 0;
    }
  }

  lemma OneTwoThreeFour()
    ensures DottedText([1, 2, 3, 4]) == "1.2.3.4"
  {
    hide Numeral;
    OneDigit(1, 10);
    OneDigit(2, 10);
    OneDigit(3, 10);
    OneDigit(4, 10);
  }
}
