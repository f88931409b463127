/** tor_sscanf of src/common/util.c. */
module Scanf {
  import opened Numerals
  import opened Wrappers

  const UINT: nat := 0x1_0000_0000

  /** A width in a pattern is not zero and at most MAX_SCANF_WIDTH, which also stands for none. */
  type Width = w: nat | 1 <= w <= 9999 witness 1

  type Base = b: nat | b == 10 || b == 16 witness 10

  /** A character, %<width>u or %<width>x, %<width>s, or %c; or something that is none of these. */
  datatype Directive = Literal(c: char) | Unsigned(width: Width, base: Base) | Text(width: Width) | AnyChar | Malformed

  /** What a directive stores. */
  datatype Field = Number(n: nat) | Copied(text: string) | Character(c: char)

  /** Where a number of at most `width` digits stops at k. */
  function ScanEnd(s: string, k: nat, width: nat, base: nat): (e: nat)
    requires k <= |s|
    ensures k <= e <= RunEnd(s, k, base) && e <= k + width
    ensures e == RunEnd(s, k, base) || e == k + width
  {
    var e := RunEnd(s, k, base);
    if e < k + width then e else k + width
  }

  /** result * base + digit in 32 bits. */
  function Wrapped(result: nat, base: nat, digit: nat): nat {
    Append(result, base, digit) % UINT
  }

  /** What the digits come to in 32 bits; None where a sum is seen to be less than the one before. */
  function Scanned(t: string, base: nat): (r: Option<nat>)
    ensures r.Some? ==> r.value < UINT
  {
    if t == "" then Some(0)
    else
      var n := |t| - 1;
      match Scanned(t[..n], base)
      case None => None
      case Some(before) =>
        var sum := Wrapped(before, base, DigitValue(t[n]));
        if sum < before then None else Some(sum)
  }

  /** A number is read right exactly if it fits 32 bits; whatever is read otherwise is what is left
      of it in 32 bits. */
  lemma {:induction false} ScannedIsValue(t: string, base: Base)
    requires AllDigits(t, base)
    ensures Scanned(t, base) == Some(Value(t, base)) <==> Value(t, base) < UINT
    ensures Scanned(t, base).Some? ==> Scanned(t, base).value == Value(t, base) % UINT
  {
    hide Append, Wrapped, DigitValue;
    if t != "" {
      var n := |t| - 1;
      assert AllDigits(t[..n], base) && IsDigit(t[n], base);
      ScannedIsValue(t[..n], base);
      IsDigitIs(t[n], base);
      Step(Value(t[..n], base), base, DigitValue(t[n]));
    }
  }

  lemma IsDigitIs(c: char, base: nat)
    ensures IsDigit(c, base) <==> DigitValue(c) < base
  {
  }

  lemma Step(v: nat, base: nat, d: nat)
    requires 10 <= base && d < base
    ensures v <= Append(v, base, d)
    ensures Wrapped(v % UINT, base, d) == Append(v, base, d) % UINT
  {
    var q, r := v / UINT, v % UINT;
    Distribute(q, r, base);
    WholeTurns(r * base + d, q * base);
  }

  lemma Distribute(q: nat, r: nat, base: nat)
    ensures (q * UINT + r) * base == (q * base) * UINT + r * base
    ensures 10 <= base ==> q * UINT + r <= (q * UINT + r) * base
  {
    var v := q * UINT + r;
    assert 10 <= base ==> v * 10 <= v * base;
  }

  lemma WholeTurns(x: nat, k: nat)
    ensures (k * UINT + x) % UINT == x % UINT
    decreases k
  {
    if k > 0 {
      WholeTurns(x, k - 1);
      assert k * UINT + x == ((k - 1) * UINT + x) + UINT;
    }
  }

  /** The comparison is meant to notice every overflow, but 6442450944 is read as 2147483648. */
  method Unnoticed() returns (r: Option<nat>)
    ensures Value("6442450944", 10) == 6_442_450_944 && r == Some(2_147_483_648)
  {
    var next;
    r, next := ScanUnsigned("6442450944", 0, 9999, 10);
    TooLarge();
  }

  lemma TooLarge()
    ensures var s := "6442450944";
            ScanEnd(s, 0, 9999, 10) == |s| && s[0..|s|] == s && Value(s, 10) == 6_442_450_944
              && Scanned(s, 10) == Some(2_147_483_648)
  {
    hide Value, Scanned, RunEnd;
    var s := "6442450944";
    assert s[0..10] == s && AllDigits(s, 10);
    RunEndIs(s, 0, 10, 10);
    assert s[..9] == "644245094" && s[9] == '4';
    SixFour();
    NineDigits("644245094");
    ScannedMore("644245094", '4');
    ValueOfMore("644245094", '4', 10);
    assert "644245094" + ['4'] == s;
  }

  lemma ScannedMore(t: string, c: char)
    requires Scanned(t, 10).Some?
    ensures var before := Scanned(t, 10).value;
            var sum := Wrapped(before, 10, DigitValue(c));
            Scanned(t + [c], 10) == if sum < before then None else Some(sum)
  {
    assert (t + [c])[..|t|] == t;
  }

  lemma SixFour()
    ensures Value("644245094", 10) == 644_245_094
  {
    ValueOfDigit('6', 10);
    var t := "6";
    for i := 1 to 9
      invariant t == "644245094"[..i]
      invariant Value(t, 10) == [6, 64, 644, 6442, 64424, 644245, 6442450, 64424509, 644245094][i - 1]
    {
      ValueOfMore(t, "644245094"[i], 10);
      t := t + ["644245094"[i]];
    }
    assert t == "644245094";
  }

  /** Up to nine decimal digits always fit. */
  lemma NineDigits(t: string)
    requires AllDigits(t, 10) && |t| <= 9
    ensures Scanned(t, 10) == Some(Value(t, 10))
  {
    ValueBound(t, 10);
    PowOfTen(|t|);
    ScannedIsValue(t, 10);
  }

  lemma {:induction false} PowOfTen(k: nat)
    requires k <= 9
    ensures Pow(10, k) <= 1_000_000_000
    ensures k <= 8 ==> Pow(10, k) <= 100_000_000
  {
    Powers();
    assert Pow(10, 4) == 10_000;
    assert Pow(10, 6) == 1_000_000;
    assert Pow(10, 8) == 100_000_000;
  }

  /** No prefix comes to less, modulo 2^32, than the one a digit shorter. */
  predicate Rising(t: string, base: nat) {
    forall k | 0 <= k < |t| :: PrefixRest(t, base, k) <= PrefixRest(t, base, k + 1)
  }

  lemma RisingMore(t: string, base: nat, n: nat)
    requires |t| == n + 1
    ensures Rising(t, base) <==> Rising(t[..n], base) && PrefixRest(t, base, n) <= PrefixRest(t, base, n + 1)
  {
    hide PrefixRest;
    forall k | 0 <= k <= n ensures PrefixRest(t[..n], base, k) == PrefixRest(t, base, k) {
      SamePrefix(t, base, n, k);
    }
  }

  lemma SamePrefix(t: string, base: nat, n: nat, k: nat)
    requires k <= n <= |t|
    ensures PrefixRest(t[..n], base, k) == PrefixRest(t, base, k)
  {
    assert t[..n][..k] == t[..k];
  }

  /** Which texts are accepted: exactly those. */
  lemma {:induction false} AcceptedIff(t: string, base: Base)
    requires AllDigits(t, base)
    ensures Scanned(t, base).Some? <==> Rising(t, base)
  {
    hide Append, Wrapped, DigitValue, Rising;
    if t == "" {
      NothingRises(base);
    } else {
      var n := |t| - 1;
      assert AllDigits(t[..n], base) && IsDigit(t[n], base);
      AcceptedIff(t[..n], base);
      RisingMore(t, base, n);
      ScannedIsValue(t[..n], base);
      IsDigitIs(t[n], base);
      Step(Value(t[..n], base), base, DigitValue(t[n]));
      assert t[..n + 1] == t;
    }
  }

  lemma NothingRises(base: nat)
    ensures Rising("", base)
  {
  }

  function PrefixRest(t: string, base: nat, k: nat): nat
    requires k <= |t|
  {
    Value(t[..k], base) % UINT
  }

  /** Of ten decimal digits those that do not fit 32 bits are refused just if the remainder is less
      than the number the first nine of them make up. */
  lemma TenDigits(t: string)
    requires AllDigits(t, 10) && |t| == 10
    ensures Scanned(t, 10).Some? <==> Value(t, 10) / 10 <= Value(t, 10) % UINT
  {
    hide Wrapped, DigitValue;
    assert AllDigits(t[..9], 10) && IsDigit(t[9], 10);
    IsDigitIs(t[9], 10);
    NineDigits(t[..9]);
    Step(Value(t[..9], 10), 10, DigitValue(t[9]));
    ScannedIsValue(t[..9], 10);
    assert Append(Value(t[..9], 10), 10, DigitValue(t[9])) / 10 == Value(t[..9], 10);
  }

  /** scan_unsigned; after a failure nobody looks at the position. */
  method ScanUnsigned(s: string, k: nat, width: Width, base: Base) returns (r: Option<nat>, next: nat)
    requires k <= |s|
    ensures var e := ScanEnd(s, k, width, base);
            && r == (if e == k then None else Scanned(s[k..e], base))
            && (r.Some? ==> next == e)
  {
    hide *;
    var result := 0;
    next := k;
    NothingYet(base);
    assert s[k..k] == "";
    while next < |s| && IsDigit(s[next], base) && next - k < width
      invariant k <= next <= |s| && next - k <= width
      invariant RunEnd(s, k, base) == RunEnd(s, next, base)
      invariant Scanned(s[k..next], base) == Some(result)
    {
      TakeDigit(s, k, next, base);
      Longer(s, k, next + 1, ScanEnd(s, k, width, base), base);
      Inside(s, k, next, width, base);
      var sum := Wrapped(result, base, DigitValue(s[next]));
      if sum < result {
        return None, next + 1;
      }
      result, next := sum, next + 1;
    }
    StopsThere(s, k, next, width, base);
    return if k == next then None else Some(result), next;
  }

  lemma NothingYet(base: nat)
    ensures Scanned("", base) == Some(0)
  {
  }

  lemma TakeDigit(s: string, k: nat, next: nat, base: nat)
    requires k <= next < |s| && IsDigit(s[next], base)
    ensures RunEnd(s, next, base) == RunEnd(s, next + 1, base)
    ensures var before := Scanned(s[k..next], base);
            Scanned(s[k..next + 1], base) ==
            if before.None? then None
            else if Wrapped(before.value, base, DigitValue(s[next])) < before.value then None
            else Some(Wrapped(before.value, base, DigitValue(s[next])))
  {
    hide Wrapped, DigitValue;
    assert s[k..next + 1][..next - k] == s[k..next];
  }

  /** What has failed on a prefix fails on the whole. */
  lemma {:induction false} Longer(s: string, k: nat, m: nat, e: nat, base: nat)
    requires k <= m <= |s| && e <= |s|
    ensures m <= e && Scanned(s[k..m], base).None? ==> Scanned(s[k..e], base).None?
    decreases e
  {
    hide Wrapped, DigitValue;
    if m < e {
      Longer(s, k, m, e - 1, base);
      assert s[k..e][..e - 1 - k] == s[k..e - 1];
    }
  }

  lemma Inside(s: string, k: nat, next: nat, width: nat, base: nat)
    requires k <= next < |s| && next - k < width && IsDigit(s[next], base)
    requires RunEnd(s, k, base) == RunEnd(s, next, base)
    ensures next + 1 <= ScanEnd(s, k, width, base)
  {
  }

  lemma StopsThere(s: string, k: nat, next: nat, width: nat, base: nat)
    requires k <= next <= |s| && next - k <= width
    requires RunEnd(s, k, base) == RunEnd(s, next, base)
    requires next < |s| && next - k < width ==> !IsDigit(s[next], base)
    ensures next == ScanEnd(s, k, width, base)
  {
  }

  /** TOR_ISSPACE */
  predicate IsSpace(c: char) {
    c == ' ' || '\t' <= c <= '\r'
  }

  /** Where a word of at most `width` characters stops at k. */
  function WordEnd(s: string, k: nat, width: nat): (e: nat)
    requires k <= |s|
    ensures k <= e <= |s| && e - k <= width && forall i | k <= i < e :: !IsSpace(s[i])
    ensures e < |s| && e - k < width ==> IsSpace(s[e])
    decreases |s| - k
  {
    if k < |s| && !IsSpace(s[k]) && 0 < width then WordEnd(s, k + 1, width - 1) else k
  }

  /** scan_string, which never fails; the buffer takes up to width characters and a NUL. */
  method ScanString(s: string, k: nat, width: Width) returns (out: string, next: nat)
    requires k <= |s|
    ensures next == WordEnd(s, k, width) && out == s[k..next] && |out| <= width
  {
    out, next := "", k;
    while next < |s| && !IsSpace(s[next]) && |out| < width
      invariant k <= next <= |s| && out == s[k..next] && |out| <= width
      invariant WordEnd(s, k, width) == WordEnd(s, next, width - |out|)
    {
      out, next := out + [s[next]], next + 1;
    }
  }

  /** What a directive does at k: where it leaves off and what it stores; None if it fails. */
  function Advance(s: string, k: nat, d: Directive): (r: Option<(nat, seq<Field>)>)
    requires k <= |s|
    ensures r.Some? ==> r.value.0 <= |s|
  {
    match d
    case Literal(c) => if k < |s| && s[k] == c then Some((k + 1, [])) else None
    case Unsigned(width, base) =>
      var e := ScanEnd(s, k, width, base);
      if e == k || Scanned(s[k..e], base).None? then None else Some((e, [Number(Scanned(s[k..e], base).value)]))
    case Text(width) =>
      var e := WordEnd(s, k, width);
      Some((e, [Copied(s[k..e])]))
    case AnyChar => if k < |s| then Some((k + 1, [Character(s[k])])) else None
    case Malformed => None
  }

  /** What the directives store from k on, until one fails. */
  function Matched(s: string, k: nat, pattern: seq<Directive>): seq<Field>
    requires k <= |s|
    decreases |pattern|
  {
    if pattern == [] then []
    else match Advance(s, k, pattern[0])
      case None => []
      case Some((next, stored)) => stored + Matched(s, next, pattern[1..])
  }

  /** The directives match up to a malformed one. */
  predicate Spoilt(s: string, k: nat, pattern: seq<Directive>)
    requires k <= |s|
    decreases |pattern|
  {
    pattern != [] &&
    (pattern[0].Malformed?
     || (Advance(s, k, pattern[0]).Some? && Spoilt(s, Advance(s, k, pattern[0]).value.0, pattern[1..])))
  }

  /** The directive at i, and where the next one starts.  A width is not zero and has at most four
      digits that count; %s needs one and %c must not have one. */
  function DirectiveAt(p: string, i: nat): (r: (Directive, nat))
    requires i < |p|
    ensures i < r.1 <= |p|
  {
    if p[i] != '%' then (Literal(p[i]), i + 1)
    else
      var e := RunEnd(p, i + 1, 10);
      var width := Value(p[i + 1..e], 10);
      if (i + 1 < e && (width == 0 || width > 9999)) || e == |p| then (Malformed, |p|)
      else (Converted(if i + 1 < e then Some(width) else None, p[e]), e + 1)
  }

  /** The directive with a conversion character and a width that is allowed. */
  function Converted(width: Option<nat>, c: char): Directive
    requires width.Some? ==> 1 <= width.value <= 9999
  {
    var w: Width := if width.Some? then width.value else 9999;
    match c
    case 'u' => Unsigned(w, 10)
    case 'x' => Unsigned(w, 16)
    case 's' => if width.Some? then Text(w) else Malformed
    case 'c' => if width.Some? then Malformed else AnyChar
    case '%' => Literal('%')
    case _ => Malformed
  }

  /** The directives from i on. */
  function Directives(p: string, i: nat): seq<Directive>
    requires i <= |p|
    decreases |p| - i
  {
    if i == |p| then [] else [DirectiveAt(p, i).0] + Directives(p, DirectiveAt(p, i).1)
  }

  /** util.c:2752-2764: the width behind a percent sign, None if it is not allowed. */
  method ScanWidth(p: string, i: nat) returns (ok: bool, width: Option<nat>, next: nat)
    requires i <= |p|
    ensures var e := RunEnd(p, i, 10);
            var v := Value(p[i..e], 10);
            && (ok <==> e == i || 1 <= v <= 9999)
            && (ok ==> next == e && width == if i < e then Some(v) else None)
  {
    hide *;
    next := i;
    Nothing();
    if next == |p| || !IsDigit(p[next], 10) {
      NoRun(p, i);
      return true, None, next;
    }
    OneDigit(p, i);
    var w := DigitValue(p[next]);
    next := next + 1;
    while next < |p| && IsDigit(p[next], 10)
      invariant i < next <= |p| && RunEnd(p, i, 10) == RunEnd(p, next, 10)
      invariant w == Value(p[i..next], 10) <= 9999
    {
      MoreDigits(p, i, next);
      w := w * 10 + DigitValue(p[next]);
      next := next + 1;
      if w > 9999 {
        return false, None, next;
      }
    }
    NoRun(p, next);
    return w != 0, Some(w), next;
  }

  lemma Nothing()
    ensures Value("", 10) == 0
  {
  }

  lemma NoRun(p: string, i: nat)
    requires i <= |p| && (i < |p| ==> !IsDigit(p[i], 10))
    ensures RunEnd(p, i, 10) == i && p[i..i] == ""
  {
  }

  lemma OneDigit(p: string, i: nat)
    requires i < |p| && IsDigit(p[i], 10)
    ensures RunEnd(p, i, 10) == RunEnd(p, i + 1, 10) > i
    ensures Value(p[i..i + 1], 10) == DigitValue(p[i]) <= 9
  {
    assert p[i..i + 1] == [p[i]];
    ValueOfDigit(p[i], 10);
  }

  lemma MoreDigits(p: string, i: nat, next: nat)
    requires i < next < |p| && IsDigit(p[next], 10) && RunEnd(p, i, 10) == RunEnd(p, next, 10)
    ensures RunEnd(p, i, 10) == RunEnd(p, next + 1, 10) > i
    ensures Value(p[i..next + 1], 10) == Value(p[i..next], 10) * 10 + DigitValue(p[next])
    ensures Value(p[i..next + 1], 10) <= Value(p[i..RunEnd(p, i, 10)], 10)
  {
    assert p[i..next + 1] == p[i..next] + [p[next]];
    ValueOfMore(p[i..next], p[next], 10);
    ValueGrows(p, i, next + 1, RunEnd(p, i, 10));
  }

  lemma {:induction false} ValueGrows(p: string, i: nat, m: nat, e: nat)
    requires i <= m <= e <= |p|
    ensures Value(p[i..m], 10) <= Value(p[i..e], 10)
    decreases e
  {
    if m < e {
      ValueGrows(p, i, m, e - 1);
      assert p[i..e] == p[i..e - 1] + [p[e - 1]];
      ValueOfMore(p[i..e - 1], p[e - 1], 10);
    }
  }

  /** tor_vsscanf: what is stored, and how much of it, or -1 when a malformed directive is reached. */
  method Sscanf(s: string, p: string) returns (matched: int, fields: seq<Field>)
    ensures fields == Matched(s, 0, Directives(p, 0))
    ensures matched == if Spoilt(s, 0, Directives(p, 0)) then -1 else |fields|
  {
    hide *;
    fields := [];
    var k: nat, i: nat := 0, 0;
    while i < |p|
      invariant i <= |p| && k <= |s|
      invariant fields + Matched(s, k, Directives(p, i)) == Matched(s, 0, Directives(p, 0))
      invariant Spoilt(s, k, Directives(p, i)) == Spoilt(s, 0, Directives(p, 0))
      decreases |p| - i
    {
      Follow(s, k, p, i);
      if p[i] != '%' {
        LiteralAt(s, k, p, i);
        if k < |s| && s[k] == p[i] {
          k, i := k + 1, i + 1;
        } else {
          return |fields|, fields;
        }
      } else {
        var ok, width, e := ScanWidth(p, i + 1);
        ConvertedAt(p, i);
        MalformedStays(s, k);
        if !ok || e == |p| {
          return -1, fields;
        }
        var done, next, stored := Convert(s, k, width, p[e]);
        if done.Some? {
          return if done.value then -1 else |fields|, fields;
        }
        k, i, fields := next, e + 1, fields + stored;
      }
    }
    Follow(s, k, p, i);
    matched := |fields|;
  }

  /** util.c:2765-2798.  `done` tells whether the scan ends here, and whether with -1. */
  method Convert(s: string, k: nat, width: Option<nat>, c: char)
    returns (done: Option<bool>, next: nat, stored: seq<Field>)
    requires k <= |s| && (width.Some? ==> 1 <= width.value <= 9999)
    ensures var d := Converted(width, c);
            && (done == Some(true) <==> d.Malformed?)
            && (done.None? <==> Advance(s, k, d) == Some((next, stored)))
            && (done == Some(false) ==> !d.Malformed? && Advance(s, k, d).None?)
  {
    hide ScanEnd, Scanned, RunEnd, WordEnd;
    done, next, stored := None, k, [];
    if c == 'u' || c == 'x' {
      if k == |s| {
        return Some(false), k, [];
      }
      var n;
      n, next := ScanUnsigned(s, k, if width.Some? then width.value else 9999, if c == 'u' then 10 else 16);
      if n.None? {
        return Some(false), k, [];
      }
      stored := [Number(n.value)];
    } else if c == 's' {
      if width.None? {
        return Some(true), k, [];
      }
      var text;
      text, next := ScanString(s, k, width.value);
      stored := [Copied(text)];
    } else if c == 'c' {
      if width.Some? {
        return Some(true), k, [];
      }
      if k == |s| {
        return Some(false), k, [];
      }
      next, stored := k + 1, [Character(s[k])];
    } else if c == '%' {
      if k == |s| || s[k] != '%' {
        return Some(false), k, [];
      }
      next := k + 1;
    } else {
      return Some(true), k, [];
    }
  }

  lemma Follow(s: string, k: nat, p: string, i: nat)
    requires k <= |s| && i <= |p|
    ensures i == |p| ==> Matched(s, k, Directives(p, i)) == [] && !Spoilt(s, k, Directives(p, i))
    ensures i < |p| ==>
              var (d, n) := DirectiveAt(p, i);
              var a := Advance(s, k, d);
              && (a.None? ==>
                 Matched(s, k, Directives(p, i)) == [] && (Spoilt(s, k, Directives(p, i)) <==> d.Malformed?))
              && (a.Some? ==>
                    && Matched(s, k, Directives(p, i)) == a.value.1 + Matched(s, a.value.0, Directives(p, n))
                    && Spoilt(s, k, Directives(p, i)) == Spoilt(s, a.value.0, Directives(p, n)))
  {
    hide Advance, DirectiveAt;
    if i < |p| {
      var (d, n) := DirectiveAt(p, i);
      assert Directives(p, i)[0] == d && Directives(p, i)[1..] == Directives(p, n);
      MalformedStays(s, k);
    }
  }

  lemma MalformedStays(s: string, k: nat)
    requires k <= |s|
    ensures Advance(s, k, Malformed).None?
  {
  }

  lemma LiteralAt(s: string, k: nat, p: string, i: nat)
    requires k <= |s| && i < |p| && p[i] != '%'
    ensures DirectiveAt(p, i) == (Literal(p[i]), i + 1)
    ensures Advance(s, k, Literal(p[i])) == if k < |s| && s[k] == p[i] then Some((k + 1, [])) else None
  {
  }

  lemma ConvertedAt(p: string, i: nat)
    requires i < |p| && p[i] == '%'
    ensures var e := RunEnd(p, i + 1, 10);
            var width := Value(p[i + 1..e], 10);
            i + 1 <= e <= |p| &&
            if (i + 1 < e && (width == 0 || width > 9999)) || e == |p| then DirectiveAt(p, i) == (Malformed, |p|)
            else DirectiveAt(p, i) == (Converted(if i + 1 < e then Some(width) else None, p[e]), e + 1)
  {
  }

  /** What printf writes with %u or %x is read back by the same conversion, whatever other text follows. */
  lemma PrintedIsScanned(n: nat, c: char, rest: string)
    requires n < UINT && (c == 'u' || c == 'x')
    requires rest != "" ==> !IsDigit(rest[0], if c == 'u' then 10 else 16)
    ensures Matched(Numeral(n, if c == 'u' then 10 else 16) + rest, 0, Directives(['%', c], 0)) == [Number(n)]
  {
    hide Numeral, RunEnd, Scanned, Value, Pow, IsDigit, Directives, Matched;
    var base: Base := if c == 'u' then 10 else 16;
    var t := Numeral(n, base);
    var s := t + rest;
    PlainConversion(c);
    NumeralReads(n, base);
    TenDigitsEnough(n, base);
    assert s[0..|t|] == t;
    RunEndIs(s, 0, |t|, base);
    ScannedIsValue(t, base);
    OneDirective(s, Unsigned(9999, base));
  }

  lemma TenDigitsEnough(n: nat, base: Base)
    requires n < UINT
    ensures 1 <= |Numeral(n, base)| <= 10
  {
    PowOfTen(9);
    PowOfSixteen();
    NumeralLength(n, base, 10);
  }

  lemma PowOfSixteen()
    ensures Pow(16, 10) >= UINT && Pow(10, 10) >= UINT
  {
  }

  lemma PlainConversion(c: char)
    requires c == 'u' || c == 'x'
    ensures Directives(['%', c], 0) == [Unsigned(9999, if c == 'u' then 10 else 16)]
  {
    NoRun(['%', c], 1);
  }

  lemma OneDirective(s: string, d: Directive)
    ensures Matched(s, 0, [d]) == if Advance(s, 0, d).None? then [] else Advance(s, 0, d).value.1
  {
  }
}
