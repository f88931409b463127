/** Digits in base 10 and 16: what the printf conversions %d and %x write, what strtol and the
    %u of tor_sscanf (src/common/util.c) read. */
module Numerals {

  /** The value of a digit of base 16, or 16 for any other character. */
  function DigitValue(c: char): (d: nat)
    ensures d <= 16
  {
    if '0' <= c <= '9' then c as int - '0' as int
    else if 'a' <= c <= 'f' then c as int - 'a' as int + 10
    else if 'A' <= c <= 'F' then c as int - 'A' as int + 10
    else 16
  }

  /** TOR_ISDIGIT in base 10, TOR_ISXDIGIT in base 16. */
  predicate IsDigit(c: char, base: nat) {
    DigitValue(c) < base
  }

  predicate AllDigits(s: string, base: nat) {
    forall i | 0 <= i < |s| :: IsDigit(s[i], base)
  }

  function Digit(d: nat): char
    requires d < 16
  {
    "0123456789abcdef"[d]
  }

  lemma DigitReads(d: nat)
    requires d < 16
    ensures DigitValue(Digit(d)) == d
    ensures d > 0 ==> Digit(d) != '0'
  {
  }

  /** The numeral printf writes for n, with no leading zero. */
  function Numeral(n: nat, base: nat): (s: string)
    requires 2 <= base <= 16
    ensures s != []
  {
    if n < base then [Digit(n)]
    else
      assert n / base < n by { Quotient(n, base); }
      Numeral(n / base, base) + [Digit(n % base)]
  }

  function Append(v: nat, base: nat, d: nat): nat {
    v * base + d
  }

  /** The number that a run of digits stands for. */
  function Value(s: string, base: nat): nat {
    if s == [] then 0 else Append(Value(s[..|s| - 1], base), base, DigitValue(s[|s| - 1]))
  }

  function Pow(base: nat, k: nat): nat {
    if k == 0 then 1 else Append(Pow(base, k - 1), base, 0)
  }

  lemma Quotient(n: nat, base: nat)
    requires 2 <= base
    ensures Append(n / base, base, n % base) == n
    ensures base <= n ==> 0 < n / base < n
  {
    var q, r := n / base, n % base;
    assert n == q * base + r;
    Smaller(q, base, n, r);
  }

  lemma Smaller(q: int, base: nat, n: nat, r: nat)
    requires 2 <= base && n == q * base + r && r < base
    ensures base <= n ==> 0 < q < n
  {
    if q <= 0 {
      assert q * base <= 0;
    } else {
      assert q * 2 <= q * base;
    }
  }

  lemma Grows(v: nat, base: nat, d: nat, m: nat)
    requires v < m && d < base
    ensures Append(v, base, d) < Append(m, base, 0)
  {
    assert (v + 1) * base <= m * base;
  }

  lemma Shrinks(v: nat, base: nat, d: nat, m: nat)
    requires Append(v, base, d) < Append(m, base, 0)
    ensures v < m
  {
    assert m <= v ==> m * base <= v * base;
  }

  lemma ValueOfDigit(c: char, base: nat)
    ensures Value([c], base) == DigitValue(c)
  {
    assert [c][..0] == [] && Value([], base) == 0;
  }

  lemma ValueOfMore(s: string, c: char, base: nat)
    ensures Value(s + [c], base) == Append(Value(s, base), base, DigitValue(c))
  {
    assert (s + [c])[..|s|] == s;
  }

  lemma {:induction false} NumeralReads(n: nat, base: nat)
    requires 2 <= base <= 16
    ensures AllDigits(Numeral(n, base), base) && Value(Numeral(n, base), base) == n
    ensures n > 0 ==> Numeral(n, base)[0] != '0'
  {
    hide DigitValue, Digit, Value, Append;
    Quotient(n, base);
    if n < base {
      DigitReads(n);
      ValueOfDigit(Digit(n), base);
    } else {
      var q, r := n / base, n % base;
      NumeralReads(q, base);
      DigitReads(r);
      ValueOfMore(Numeral(q, base), Digit(r), base);
    }
  }

  /** A lower-case digit, as printf writes them. */
  predicate Plain(c: char, base: nat) {
    IsDigit(c, base) && !('A' <= c <= 'F')
  }

  lemma DigitsArePlain(d: nat, base: nat)
    requires d < base <= 16
    ensures Plain(Digit(d), base)
  {
  }

  lemma PlainDigit(c: char, base: nat)
    requires Plain(c, base) && base <= 16
    ensures DigitValue(c) < base && Digit(DigitValue(c)) == c && (DigitValue(c) == 0 <==> c == '0')
  {
  }

  /** What a digit is worth: upper and lower case are the same, and nothing else is a digit. */
  lemma DigitsAre(c: char, d: nat)
    requires d < 16
    ensures DigitValue(c) == d <==> c == "0123456789abcdef"[d] || c == "0123456789ABCDEF"[d]
  {
  }

  /** A numeral is in lower case and has no needless zero in front. */
  lemma {:induction false} NumeralIsPlain(n: nat, base: nat)
    requires 2 <= base <= 16
    ensures forall c | c in Numeral(n, base) :: Plain(c, base)
    ensures |Numeral(n, base)| > 1 ==> Numeral(n, base)[0] != '0'
  {
    hide Plain, DigitValue, Digit;
    NumeralReads(n, base);
    Quotient(n, base);
    if n < base {
      DigitsArePlain(n, base);
    } else {
      DigitsArePlain(n % base, base);
      NumeralIsPlain(n / base, base);
    }
  }

  /** And it is the only such text for its number. */
  lemma {:induction false} NumeralIsOnly(s: string, base: nat)
    requires 2 <= base <= 16 && s != "" && forall c | c in s :: Plain(c, base)
    requires |s| > 1 ==> s[0] != '0'
    ensures s == Numeral(Value(s, base), base)
  {
    hide Plain, DigitValue, Digit;
    var n := |s| - 1;
    PlainDigit(s[n], base);
    if n == 0 {
      ValueOfDigit(s[0], base);
      assert s == [s[0]];
    } else {
      PlainDigit(s[0], base);
      NumeralIsOnly(s[..n], base);
      if Value(s[..n], base) == 0 {
        ZeroIs(s[..n], base);
      }
      Appended(Value(s[..n], base), base, DigitValue(s[n]));
      assert s == s[..n] + [s[n]];
    }
  }

  lemma ZeroIs(s: string, base: nat)
    requires 2 <= base <= 16 && s == Numeral(0, base)
    ensures s == "0"
  {
  }

  lemma Appended(v: nat, base: nat, d: nat)
    requires 2 <= base && d < base
    ensures Append(v, base, d) / base == v && Append(v, base, d) % base == d
    ensures 0 < v ==> base <= Append(v, base, d)
  {
    var n := Append(v, base, d);
    var q, r := n / base, n % base;
    assert n == q * base + r && n == v * base + d;
    assert q < v ==> (q + 1) * base <= v * base;
    assert v < q ==> (v + 1) * base <= q * base;
    assert 0 < v ==> 1 * base <= v * base;
  }

  /** A number below base to the k has at most k digits. */
  lemma {:induction false} NumeralLength(n: nat, base: nat, k: nat)
    requires 2 <= base <= 16 && 1 <= k && n < Pow(base, k)
    ensures |Numeral(n, base)| <= k
  {
    hide Append;
    Quotient(n, base);
    if base <= n {
      PowOne(base);
      Shrinks(n / base, base, n % base, Pow(base, k - 1));
      NumeralLength(n / base, base, k - 1);
    }
  }

  lemma PowOne(base: nat)
    ensures Pow(base, 1) == base
  {
    assert Pow(base, 0) == 1;
  }

  lemma {:induction false} ValueBound(s: string, base: nat)
    requires AllDigits(s, base)
    ensures Value(s, base) < Pow(base, |s|)
  {
    hide Append;
    if s != [] {
      ValueBound(s[..|s| - 1], base);
      Grows(Value(s[..|s| - 1], base), base, DigitValue(s[|s| - 1]), Pow(base, |s| - 1));
    }
  }

  lemma Powers()
    ensures Pow(16, 1) == 16 && Pow(16, 2) == 256 && Pow(16, 3) == 4096 && Pow(16, 4) == 65536
    ensures Pow(10, 1) == 10 && Pow(10, 2) == 100 && Pow(10, 3) == 1000
  {
    assert Pow(16, 0) == 1 && Pow(10, 0) == 1;
  }

  /** Where the run of digits at k ends. */
  function RunEnd(s: string, k: nat, base: nat): (e: nat)
    requires k <= |s|
    ensures k <= e <= |s| && AllDigits(s[k..e], base) && (e < |s| ==> !IsDigit(s[e], base))
    decreases |s| - k
  {
    if k < |s| && IsDigit(s[k], base) then RunEnd(s, k + 1, base) else k
  }

  /** Where the run of digits before k starts. */
  function RunStart(s: string, k: nat): (b: nat)
    requires k <= |s|
    ensures b <= k && AllDigits(s[b..k], 10) && (b > 0 ==> !IsDigit(s[b - 1], 10))
  {
    if k > 0 && IsDigit(s[k - 1], 10) then
      assert forall b: nat | b < k :: s[b..k] == s[b..k - 1] + [s[k - 1]];
      RunStart(s, k - 1)
    else k
  }

  lemma {:induction false} RunEndIs(s: string, k: nat, e: nat, base: nat)
    requires k <= e <= |s| && AllDigits(s[k..e], base) && (e < |s| ==> !IsDigit(s[e], base))
    ensures RunEnd(s, k, base) == e
    decreases e - k
  {
    if k < e {
      assert s[k..e][0] == s[k] && s[k..e][1..] == s[k + 1..e];
      RunEndIs(s, k + 1, e, base);
    }
  }

  lemma {:induction false} RunEndBefore(s: string, k: nat, e: nat, base: nat)
    requires k <= e <= |s| && (e < |s| ==> !IsDigit(s[e], base))
    ensures RunEnd(s, k, base) <= e
    decreases e - k
  {
    hide IsDigit;
    if k < e {
      RunEndBefore(s, k + 1, e, base);
    }
  }

  lemma {:induction false} RunStartIs(s: string, b: nat, k: nat)
    requires b <= k <= |s| && AllDigits(s[b..k], 10) && (b > 0 ==> !IsDigit(s[b - 1], 10))
    ensures RunStart(s, k) == b
    decreases k - b
  {
    if b < k {
      assert s[b..k][k - 1 - b] == s[k - 1] && s[b..k][..k - 1 - b] == s[b..k - 1];
      RunStartIs(s, b, k - 1);
    }
  }
}
