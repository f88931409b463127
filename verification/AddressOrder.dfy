/** tor_addr_compare_masked of src/common/address.c, for CMP_EXACT and CMP_SEMANTIC. */
module AddressOrder {
  import opened Bytes
  import opened DiOps
  import opened Division
  import opened PowersOfTwo

  /** tor_addr_t; an IPv4 address is kept in host order. */
  datatype Address = Unspec | V4(ip: nat) | V6(bytes: seq<Byte>)

  predicate Proper(a: Address) {
    && (a.V4? ==> a.ip < WORD)
    && (a.V6? ==> |a.bytes| == 16)
  }

  /** AF_UNSPEC, AF_INET and AF_INET6 */
  function Family(a: Address): nat {
    match a
    case Unspec => 0
    case V4(_) => 2
    case V6(_) => 10
  }

  /** The first m bits as a number; all bits if there are no more than m. */
  function Prefix(a: Address, m: nat): nat {
    match a
    case Unspec => 0
    case V4(ip) => if m <= 32 then Shift(ip, 32 - m) else ip
    case V6(bytes) => if m <= 128 then Shift(Number(bytes), 128 - m) else Number(bytes)
  }

  /** n >> k */
  function Shift(n: nat, k: nat): nat {
    Div(n, Pow2(k))
  }

  function Div(n: nat, d: nat): nat
    requires 0 < d
  {
    n / d
  }

  function Tristate(a: int, b: int): int {
    if a < b then -1 else if a == b then 0 else 1
  }

  /** The order that the comparison realises: by family, then by the prefix. */
  function Order(a: Address, b: Address, m: nat): int {
    if Family(a) != Family(b) then Tristate(Family(a), Family(b)) else Tristate(Prefix(a, m), Prefix(b, m))
  }

  datatype How = Exact | Semantic

  /** What a comparison comes to: a result, or a read past the 16 bytes of an address. */
  datatype Comparison = Compared(r: int) | ReadsPast

  /** Two IPv6 addresses are told apart by their 16 bytes, or the mask asks for no more. */
  predicate Past(addr1: Address, addr2: Address, mbits: nat) {
    addr1.V6? && addr2.V6? && 128 < mbits && (136 <= mbits || addr1 == addr2)
  }

  /** tor_addr_compare_masked: maskbits_t has eight bits.  The mask is not reduced to 128 for IPv6,
      which matters just when the addresses agree or a whole byte behind them is asked for. */
  method CompareMasked(addr1: Address, addr2: Address, mbits: nat, how: How) returns (c: Comparison)
    requires Proper(addr1) && Proper(addr2) && mbits < 256
    ensures c.ReadsPast? <==> Past(addr1, addr2, mbits)
    ensures c.Compared? && how == Exact ==> Sign(c.r) == Order(addr1, addr2, mbits)
    ensures c.Compared? && how == Semantic ==> Sign(c.r) == SemanticOrder(addr1, addr2, mbits)
  {
    hide Shift, Number, ToInt, Mapped, SemanticOrder;
    SameFamily(addr1, addr2, mbits);
    if Family(addr1) == Family(addr2) {
      match addr1 {
        case Unspec =>
          return Compared(0);
        case V4(ip) =>
          if mbits <= 0 {
            NoBits(ip, 32, addr2.ip);
            return Compared(0);
          }
          var m := mbits;
          if m > 32 {
            m := 32;
          }
          AllBits(ip);
          AllBits(addr2.ip);
          return Compared(Tristate(Shift(ip, 32 - m), Shift(addr2.ip, 32 - m)));
        case V6(bytes) =>
          AllBits(Number(bytes));
          AllBits(Number(addr2.bytes));
          c := CompareBytes(addr1.bytes, addr2.bytes, mbits);
      }
    } else if how == Exact {
      return Compared(Tristate(Family(addr1), Family(addr2)));
    } else {
      var r := CompareFamilies(addr1, addr2, mbits);
      return Compared(r);
    }
  }

  /** The witness: equal addresses under a mask one bit too long. */
  method OneBitTooMany() returns (c: Comparison)
    ensures c.ReadsPast?
  {
    var localhost := V6(seq(15, _ => 0) + [1]);
    c := CompareMasked(localhost, localhost, 129, Exact);
  }

  lemma NoBits(a: nat, k: nat, b: nat)
    requires k == 32 && a < WORD && b < WORD
    ensures Shift(a, k) == Shift(b, k) == 0
  {
    Powers();
  }

  lemma AllBits(a: nat)
    ensures Shift(a, 0) == a
  {
  }

  /** The branch for two IPv6 addresses. */
  method CompareBytes(a1: seq<Byte>, a2: seq<Byte>, mbits: nat) returns (c: Comparison)
    requires |a1| == |a2| == 16 && mbits < 256
    ensures c.ReadsPast? <==> 128 < mbits && (136 <= mbits || a1 == a2)
    ensures c.Compared? ==>
              var k := if mbits <= 128 then 128 - mbits else 0;
              Sign(c.r) == Tristate(Shift(Number(a1), k), Shift(Number(a2), k))
  {
    hide Shift, Number, ToInt;
    var bytes, leftoverBits := mbits / 8, mbits % 8;
    if bytes > 16 {
      return ReadsPast;
    }
    BytesDecide(a1, a2, bytes, if bytes == 16 then 0 else leftoverBits);
    if bytes != 0 {
      var r := Memcmp(a1, a2, bytes);
      if r != 0 {
        return Compared(r);
      }
    }
    if leftoverBits != 0 {
      if bytes == 16 {
        return ReadsPast;
      }
      var b1 := Shift(ToInt(a1[bytes]), 8 - leftoverBits);
      var b2 := Shift(ToInt(a2[bytes]), 8 - leftoverBits);
      return Compared(Tristate(b1, b2));
    }
    return Compared(0);
  }

  /** The prefixes compare as their whole bytes do, or else as the leftover bits. */
  lemma BytesDecide(a1: seq<Byte>, a2: seq<Byte>, bytes: nat, bits: nat)
    requires |a1| == |a2| == 16 && bits < 8 && 8 * bytes + bits <= 128
    ensures var k, d := 128 - (8 * bytes + bits), FirstDifference(a1[..bytes], a2[..bytes]);
            && Tristate(Shift(Number(a1), k), Shift(Number(a2), k)) ==
               (if d != 0 then Sign(d) else Tristate(Leftover(a1, bytes, bits), Leftover(a2, bytes, bits)))
            && (bytes == 0 ==> d == 0) && (bytes == 16 ==> (d == 0 <==> a1 == a2))
  {
    hide Shift, Number, ToInt, FirstDifference, Leftover;
    PrefixSplit(a1, bytes, bits);
    PrefixSplit(a2, bytes, bits);
    ComparesNumbers(a1[..bytes], a2[..bytes]);
    DiffersIffUnequal(a1[..bytes], a2[..bytes]);
    PrefixDecides(Number(a1[..bytes]), Number(a2[..bytes]), bits, Leftover(a1, bytes, bits), Leftover(a2, bytes, bits));
    assert bytes == 0 ==> a1[..bytes] == a2[..bytes];
    assert bytes == 16 ==> a1[..bytes] == a1 && a2[..bytes] == a2;
  }

  // ---------------------------------------------------------------------------------------------
  // CMP_SEMANTIC.

  const MAPPED: seq<Byte> := [0, 0, 0, 0, 0, 0, 0, 0, 0, 0, 255, 255]

  /** An IPv4-mapped IPv6 address, ::ffff:a.b.c.d. */
  predicate Mapped(a: Address) {
    a.V6? && |a.bytes| == 16 && a.bytes[..12] == MAPPED
  }

  /** tor_addr_is_v4 */
  predicate IsV4(a: Address) {
    a.V4? || Mapped(a)
  }

  /** tor_addr_to_mapped_ipv4h or tor_addr_to_ipv4h */
  function Embedded(a: Address): nat {
    match a
    case Unspec => 0
    case V4(ip) => ip
    case V6(bytes) => if |bytes| == 16 then Number(bytes[12..]) else 0
  }

  /** The address as 128 bits, an IPv4 address as its mapped form. */
  function Whole(a: Address): nat {
    match a
    case Unspec => 0
    case V4(ip) => Compose(0xffff, WORD, ip)
    case V6(bytes) => Number(bytes)
  }

  /** How many of those bits a mask leaves, when it is read relative to a. */
  function Width(a: Address, m: nat): nat {
    if a.V6? then if m <= 128 then m else 128 else 96 + if m <= 32 then m else 32
  }

  /** The order of CMP_SEMANTIC: across the families only IPv4 addresses in their two forms are
      compared by their bits, under a mask that is relative to the first. */
  function SemanticOrder(a: Address, b: Address, m: nat): int {
    if Family(a) == Family(b) then Order(a, b, m)
    else if m == 0 then 0
    else if IsV4(a) && IsV4(b) then
      Tristate(Shift(Whole(a), 128 - Width(a, m)), Shift(Whole(b), 128 - Width(a, m)))
    else Tristate(Family(a), Family(b))
  }

  lemma SameFamily(a: Address, b: Address, m: nat)
    ensures Family(a) == Family(b) ==> SemanticOrder(a, b, m) == Order(a, b, m)
  {
  }

  /** address.c:929-960. */
  method CompareFamilies(addr1: Address, addr2: Address, mbits: nat) returns (r: int)
    requires Proper(addr1) && Proper(addr2) && Family(addr1) != Family(addr2)
    ensures Sign(r) == SemanticOrder(addr1, addr2, mbits)
  {
    hide Shift, Number, Whole, Embedded, Mapped, Compose, Pow2;
    if mbits == 0 {
      return 0;
    }
    var vFamily1, vFamily2 := Family(addr1), Family(addr2);
    if addr1.V6? && IsV4(addr1) {
      vFamily1 := Family(V4(0));
    }
    if addr2.V6? && IsV4(addr2) {
      vFamily2 := Family(V4(0));
    }
    IsEmbedded(addr1);
    IsEmbedded(addr2);
    if vFamily1 == vFamily2 {
      MappedBits(addr1, Width(addr1, mbits));
      MappedBits(addr2, Width(addr1, mbits));
      var m := mbits;
      if addr1.V6? {
        if m <= 96 {
          return 0;
        }
        m := m - 96;
      }
      if m <= 0 {
        return 0;
      }
      if m > 32 {
        m := 32;
      }
      SameHigh(m, Shift(Embedded(addr1), 32 - m), Shift(Embedded(addr2), 32 - m));
      return Tristate(Shift(Embedded(addr1), 32 - m), Shift(Embedded(addr2), 32 - m));
    }
    return Tristate(Family(addr1), Family(addr2));
  }

  lemma SameHigh(m: nat, x: nat, y: nat)
    ensures Tristate(Compose(0xffff, Pow2(m), x), Compose(0xffff, Pow2(m), y)) == Tristate(x, y)
  {
    hide Pow2;
  }

  /** Of the leading bits of an IPv4 address in either form those behind the first 96 are bits of
      the embedded number. */
  lemma MappedBits(a: Address, w: nat)
    requires Proper(a) && IsV4(a) && w <= 128
    ensures w >= 96 ==> Shift(Whole(a), 128 - w) == Compose(0xffff, Pow2(w - 96), Shift(Embedded(a), 128 - w))
    ensures w <= 96 ==> Shift(Whole(a), 128 - w) == Shift(0xffff, 96 - w)
    ensures Embedded(a) < WORD && Whole(a) == Compose(0xffff, WORD, Embedded(a))
  {
    hide Number, Pow2, Div, Compose;
    WholeMapped(a);
    Powers();
    if w >= 96 {
      Pow2Adds(w - 96, 128 - w);
      CutLow(0xffff, WORD, Pow2(w - 96), Embedded(a), Pow2(128 - w));
    }
    if w <= 96 {
      Pow2Adds(32, 96 - w);
      DivTwice(Whole(a), Pow2(32), Pow2(96 - w));
      CutLow(0xffff, WORD, 1, Embedded(a), WORD);
      HighOnly(Embedded(a));
    }
  }

  lemma HighOnly(low: nat)
    requires low < WORD
    ensures Div(low, WORD) == 0 && Compose(0xffff, 1, 0) == 0xffff
  {
  }

  lemma WholeMapped(a: Address)
    requires Proper(a) && IsV4(a)
    ensures Embedded(a) < WORD && Whole(a) == Compose(0xffff, WORD, Embedded(a))
  {
    if a.V6? {
      hide Number, Pow2, Compose;
      Powers();
      MappedNumber();
      NumberSplit(a.bytes, 12);
    }
  }

  lemma MappedNumber()
    ensures Number(MAPPED) == 0xffff
  {
    var zeros: seq<Byte> := seq(10, _ => 0);
    ZeroNumber(zeros);
    assert MAPPED == zeros + [255] + [255];
    assert (zeros + [255] + [255])[..11] == zeros + [255] && (zeros + [255])[..10] == zeros;
  }

  lemma {:induction false} ZeroNumber(s: seq<Byte>)
    requires forall i | 0 <= i < |s| :: s[i] == 0
    ensures Number(s) == 0
  {
    if s != [] {
      ZeroNumber(s[..|s| - 1]);
    }
  }

  /** What the documentation says of masks across the forms: 96 + m bits of a mapped address are
      m bits of an IPv4 address, with the sign turned around. */
  lemma MaskTranslates(a: Address, b: Address, m: nat)
    requires Mapped(a) && b.V4? && 0 < m <= 32
    ensures SemanticOrder(a, b, 96 + m) == -SemanticOrder(b, a, m)
  {
  }

  /** The semantic order under the full mask, by numbers. */
  lemma FullMask(a: Address, b: Address)
    requires Proper(a) && Proper(b)
    ensures SemanticOrder(a, b, 128) ==
            if IsV4(a) && IsV4(b) then Tristate(Embedded(a), Embedded(b))
            else if Family(a) != Family(b) then Tristate(Family(a), Family(b))
            else Tristate(Whole(a), Whole(b))
  {
    hide Number, Shift, Mapped, Embedded;
    AllBits(Whole(a));
    AllBits(Whole(b));
    if IsV4(a) && IsV4(b) {
      WholeMapped(a);
      WholeMapped(b);
      assert a.V4? ==> Embedded(a) == a.ip by { IsEmbedded(a); }
      assert b.V4? ==> Embedded(b) == b.ip by { IsEmbedded(b); }
    }
  }

  lemma IsEmbedded(a: Address)
    ensures a.V4? ==> Embedded(a) == a.ip && IsV4(a)
    ensures Mapped(a) ==> a.V6? && IsV4(a)
  {
  }

  /** Under the full mask of tor_addr_compare the semantic order turns its sign around with its
      arguments, and ties the two forms of an IPv4 address and no other addresses. */
  lemma SemanticTies(a: Address, b: Address)
    requires Proper(a) && Proper(b)
    ensures SemanticOrder(a, b, 128) == -SemanticOrder(b, a, 128)
    ensures SemanticOrder(a, b, 128) == 0 <==> a == b || (IsV4(a) && IsV4(b) && Embedded(a) == Embedded(b))
  {
    hide Number, Mapped, SemanticOrder, Shift, Embedded;
    FullMask(a, b);
    FullMask(b, a);
    IsEmbedded(a);
    IsEmbedded(b);
    if Family(a) == Family(b) {
      AllBits(Whole(a));
      AllBits(Whole(b));
      if Order(a, b, 128) == 0 {
        TiesAreEqual(a, b);
      }
    }
  }

  /** An IPv4 address, an IPv6 address below the mapped ones, and a mapped one that is not above
      the first: each precedes the next or ties, around in a circle. */
  predicate Circle(x: Address, u: Address, m: Address) {
    && x.V4? && u.V6? && !Mapped(u) && Mapped(m)
    && Whole(u) < Whole(m) && Embedded(m) <= x.ip
  }

  lemma Transitive(a: Address, b: Address, c: Address)
    requires Proper(a) && Proper(b) && Proper(c)
    requires !Circle(a, b, c) && !Circle(b, c, a) && !Circle(c, a, b)
    requires SemanticOrder(a, b, 128) <= 0 && SemanticOrder(b, c, 128) <= 0
    ensures SemanticOrder(a, c, 128) <= 0
  {
    hide Number, Mapped, SemanticOrder, Embedded, Whole;
    FullMask(a, b);
    FullMask(b, c);
    FullMask(a, c);
    SemanticTies(a, b);
    SemanticTies(b, c);
    EmbeddedOrder(a);
    EmbeddedOrder(b);
    EmbeddedOrder(c);
  }

  lemma EmbeddedOrder(a: Address)
    requires Proper(a)
    ensures IsV4(a) ==> Whole(a) == 0xffff * WORD + Embedded(a)
    ensures a.V4? ==> Embedded(a) == a.ip
    ensures Mapped(a) ==> a.V6?
  {
    hide Number, Mapped;
    if IsV4(a) {
      WholeMapped(a);
    }
    IsEmbedded(a);
  }

  /** The promise of a total order fails for CMP_SEMANTIC just on the sets of addresses with such a
      circle in them. */
  lemma SemanticPreorder(s: set<Address>)
    requires forall a | a in s :: Proper(a)
    ensures (forall a, b, c | a in s && b in s && c in s ::
               SemanticOrder(a, b, 128) <= 0 && SemanticOrder(b, c, 128) <= 0 ==> SemanticOrder(a, c, 128) <= 0)
            <==> forall x, u, m | x in s && u in s && m in s :: !Circle(x, u, m)
  {
    hide SemanticOrder, Circle;
    forall x, u, m | x in s && u in s && m in s && Circle(x, u, m)
      ensures SemanticOrder(u, m, 128) <= 0 && SemanticOrder(m, x, 128) <= 0 && SemanticOrder(u, x, 128) > 0
    {
      CircleCloses(x, u, m);
    }
    forall a, b, c | a in s && b in s && c in s && !Circle(a, b, c) && !Circle(b, c, a) && !Circle(c, a, b)
                     && SemanticOrder(a, b, 128) <= 0 && SemanticOrder(b, c, 128) <= 0
      ensures SemanticOrder(a, c, 128) <= 0
    {
      Transitive(a, b, c);
    }
  }

  lemma CircleCloses(x: Address, u: Address, m: Address)
    requires Proper(x) && Proper(u) && Proper(m) && Circle(x, u, m)
    ensures SemanticOrder(u, m, 128) <= 0 && SemanticOrder(m, x, 128) <= 0 && SemanticOrder(u, x, 128) > 0
  {
    hide Number, Mapped, SemanticOrder, Embedded, Whole;
    FullMask(u, m);
    FullMask(m, x);
    FullMask(u, x);
    EmbeddedOrder(m);
    EmbeddedOrder(x);
  }

  /** There are such circles: 1.2.3.4, :: and ::ffff:1.2.3.4. */
  lemma CircleExists()
    ensures var x, u, m := V4(0x0102_0304), V6(seq(16, _ => 0)), V6(MAPPED + [1, 2, 3, 4]);
            Proper(x) && Proper(u) && Proper(m) && Circle(x, u, m)
  {
    var u, m := V6(seq(16, _ => 0)), V6(MAPPED + [1, 2, 3, 4]);
    ZeroNumber(u.bytes);
    assert m.bytes[..12] == MAPPED && m.bytes[12..] == [1, 2, 3, 4];
    assert u.bytes[11] != MAPPED[11];
    assert !Mapped(u);
    WordIsNumber([1, 2, 3, 4]);
    EmbeddedOrder(m);
  }

  /** The leading bits of the byte that the mask cuts. */
  function Leftover(a: seq<Byte>, bytes: nat, bits: nat): nat
    requires bits < 8
  {
    if bits == 0 || |a| <= bytes then 0 else Shift(ToInt(a[bytes]), 8 - bits)
  }

  function Compose(high: nat, p: nat, low: nat): nat {
    high * p + low
  }

  lemma {:induction false} NumberSplit(a: seq<Byte>, q: nat)
    requires q <= |a|
    ensures Number(a) == Compose(Number(a[..q]), Pow2(8 * (|a| - q)), Number(a[q..]))
    ensures Number(a[q..]) < Pow2(8 * (|a| - q))
    decreases |a|
  {
    hide ToInt;
    if q == |a| {
      assert a[..q] == a && a[q..] == [];
    } else {
      var b := a[..|a| - 1];
      NumberSplit(b, q);
      assert b[..q] == a[..q] && a[q..] == b[q..] + [a[|a| - 1]];
      assert a[q..][..|a[q..]| - 1] == b[q..];
      Pow2Adds(8 * (|b| - q), 8);
      Powers();
      IntAndBack(a[|a| - 1]);
      OneByte(Number(a[..q]), Pow2(8 * (|b| - q)), Number(b[q..]), ToInt(a[|a| - 1]));
    }
  }

  lemma OneByte(high: nat, p: nat, low: nat, byte: nat)
    requires low < p && byte < 256
    ensures Compose(high, p, low) * 256 + byte == Compose(high, p * 256, low * 256 + byte)
    ensures low * 256 + byte < p * 256
  {
    assert (high * p) * 256 == high * (p * 256);
    assert (low + 1) * 256 <= p * 256;
  }

  /** Cutting off the low bits of a composed number. */
  lemma CutLow(high: nat, p: nat, r: nat, low: nat, d: nat)
    requires 0 < d && p == r * d && low < p
    ensures Div(Compose(high, p, low), d) == Compose(high, r, Div(low, d)) && Div(low, d) < r
  {
    var s, t := low / d, low % d;
    assert low == s * d + t;
    Regroup(high, r, d, s);
    QuotientIs(Compose(high, p, low), d, high * r + s, t);
    MulStep(s, r, d);
    if r <= s {
      MulMonotone(r, s, d);
    }
  }

  lemma Regroup(high: nat, r: nat, d: nat, s: nat)
    ensures high * (r * d) + s * d == (high * r + s) * d
  {
    Reassociate(high, r, d);
  }

  /** The prefix is made of whole bytes and of the leading bits of the next one. */
  lemma PrefixSplit(a: seq<Byte>, bytes: nat, bits: nat)
    requires |a| == 16 && bits < 8 && 8 * bytes + bits <= 128
    ensures Shift(Number(a), 128 - (8 * bytes + bits)) ==
              Compose(Number(a[..bytes]), Pow2(bits), Leftover(a, bytes, bits))
    ensures Leftover(a, bytes, bits) < Pow2(bits)
  {
    hide ToInt, Number, Pow2, Compose, Div;
    var k := 128 - (8 * bytes + bits);
    NumberSplit(a, bytes);
    Pow2Adds(bits, k);
    CutLow(Number(a[..bytes]), Pow2(8 * (16 - bytes)), Pow2(bits), Number(a[bytes..]), Pow2(k));
    if bits > 0 {
      TopBits(a, bytes, bits, k);
    } else {
      Powers();
    }
  }

  /** The leading bits of the rest are those of its first byte. */
  lemma TopBits(a: seq<Byte>, bytes: nat, bits: nat, k: nat)
    requires |a| == 16 && 0 < bits < 8 && k == 128 - (8 * bytes + bits) && 8 * bytes + bits <= 128
    ensures Div(Number(a[bytes..]), Pow2(k)) == Leftover(a, bytes, bits)
  {
    hide ToInt, Pow2, Number, Compose, Div;
    var rest := a[bytes..];
    NumberSplit(rest, 1);
    OneNumber(rest);
    var c := Pow2(8 * (|rest| - 1));
    Pow2Adds(8 * (|rest| - 1), 8 - bits);
    assert k == 8 * (|rest| - 1) + (8 - bits);
    CutByte(ToInt(rest[0]), c, Number(rest[1..]), Pow2(8 - bits));
  }

  lemma CutByte(b: nat, c: nat, low: nat, e: nat)
    requires 0 < e && low < c
    ensures 0 < c * e && Div(Compose(b, c, low), c * e) == Div(b, e)
  {
    var s, t := b / e, b % e;
    assert b == s * e + t;
    assert b * c == s * (c * e) + t * c by {
      assert (s * e) * c == s * (c * e);
    }
    assert t * c + low < c * e by {
      assert (t + 1) * c <= e * c;
    }
    QuotientIs(Compose(b, c, low), c * e, s, t * c + low);
  }

  lemma PrefixDecides(h1: nat, h2: nat, bits: nat, l1: nat, l2: nat)
    requires l1 < Pow2(bits) && l2 < Pow2(bits)
    ensures Tristate(Compose(h1, Pow2(bits), l1), Compose(h2, Pow2(bits), l2)) ==
            if h1 != h2 then Sign(h1 - h2) else Tristate(l1, l2)
    ensures bits == 0 ==> l1 == l2
  {
    ComposeDecides(h1, h2, Pow2(bits), l1, l2);
  }

  lemma ComposeDecides(h1: nat, h2: nat, p: nat, l1: nat, l2: nat)
    requires l1 < p && l2 < p
    ensures Tristate(Compose(h1, p, l1), Compose(h2, p, l2)) == if h1 != h2 then Sign(h1 - h2) else Tristate(l1, l2)
  {
    assert h1 < h2 ==> (h1 + 1) * p <= h2 * p;
    assert h2 < h1 ==> (h2 + 1) * p <= h1 * p;
  }

  /** It is a total preorder, and ties are exactly addresses of one family with the same leading
      bits. */
  lemma TotalPreorder(a: Address, b: Address, c: Address, m: nat)
    ensures Order(a, a, m) == 0 && Order(a, b, m) == -Order(b, a, m)
    ensures Order(a, b, m) <= 0 && Order(b, c, m) <= 0 ==> Order(a, c, m) <= 0
    ensures Order(a, b, m) == 0 <==> Family(a) == Family(b) && Prefix(a, m) == Prefix(b, m)
  {
    hide Prefix;
  }

  /** Under the longest mask only equal addresses tie. */
  lemma TiesAreEqual(a: Address, b: Address)
    requires Proper(a) && Proper(b) && Order(a, b, 128) == 0
    ensures a == b
  {
    hide Number, FirstDifference;
    if a.V6? {
      AllBits(Number(a.bytes));
      AllBits(Number(b.bytes));
      ComparesNumbers(a.bytes, b.bytes);
      DiffersIffUnequal(a.bytes, b.bytes);
    }
  }

  /** How many bits an address has, and the number that they make up. */
  function Length(a: Address): nat {
    match a
    case Unspec => 0
    case V4(_) => 32
    case V6(_) => 128
  }

  function Bits(a: Address): nat {
    match a
    case Unspec => 0
    case V4(ip) => ip
    case V6(bytes) => Number(bytes)
  }

  /** A is in the aligned block number k of 2^(Length - m) addresses: the netblock of m bits. */
  predicate InBlock(a: Address, m: nat, k: nat)
    requires m <= Length(a)
  {
    k * Pow2(Length(a) - m) <= Bits(a) < (k + 1) * Pow2(Length(a) - m)
  }

  /** The prefix is the number of the block, and every address is in one block only; a mask that is
      too long is reduced. */
  lemma PrefixIsBlock(a: Address, m: nat, k: nat)
    requires Proper(a)
    ensures m <= Length(a) ==> (InBlock(a, m, k) <==> k == Prefix(a, m))
    ensures Length(a) <= m ==> Prefix(a, m) == Bits(a)
  {
    hide Number;
    if m <= Length(a) {
      BlockNumber(Bits(a), Pow2(Length(a) - m), k);
    }
    AllBits(Bits(a));
    if a.Unspec? && m == 0 {
      assert Pow2(0) == 1;
    }
  }

  lemma BlockNumber(x: nat, d: nat, k: nat)
    requires 0 < d
    ensures k * d <= x < (k + 1) * d <==> k == Div(x, d)
  {
    var q, r := x / d, x % d;
    assert x == q * d + r && (q + 1) * d == q * d + d;
    if k < q {
      MulMonotone(k + 1, q, d);
    } else if q < k {
      MulMonotone(q + 1, k, d);
    }
  }

  /** Two addresses of one family tie exactly when they lie in the same netblock, and otherwise the
      one in the lower block comes first. */
  lemma OrderedByBlocks(a: Address, b: Address, m: nat, j: nat, k: nat)
    requires Proper(a) && Proper(b) && Family(a) == Family(b) && m <= Length(a)
    requires InBlock(a, m, j) && InBlock(b, m, k)
    ensures Order(a, b, m) == Tristate(j, k)
  {
    hide Number, InBlock;
    PrefixIsBlock(a, m, j);
    PrefixIsBlock(b, m, k);
  }

  /** Unspecified addresses come first, then IPv4 addresses, whatever the mask. */
  lemma FamiliesInOrder(ip: nat, bytes: seq<Byte>, m: nat)
    ensures Order(Unspec, V4(ip), m) == Order(V4(ip), V6(bytes), m) == Order(Unspec, V6(bytes), m) == -1
  {
  }

  /** 10.0.0.1 and 10.0.0.2 tie under a mask of 24 bits, but not under one of 31. */
  lemma Neighbours()
    ensures Order(V4(0x0a00_0001), V4(0x0a00_0002), 24) == 0 && Order(V4(0x0a00_0001), V4(0x0a00_0002), 31) == -1
  {
    var a, b := V4(0x0a00_0001), V4(0x0a00_0002);
    Powers();
    assert Pow2(1) == 2;
    OrderedByBlocks(a, b, 24, 0x0a_0000, 0x0a_0000);
    OrderedByBlocks(a, b, 31, 0x0500_0000, 0x0500_0001);
  }

  /** A shorter mask only identifies more addresses. */
  lemma ShorterMask(a: Address, b: Address, m: nat, n: nat)
    requires Proper(a) && Proper(b) && m <= n <= 128 && Order(a, b, n) == 0
    ensures Order(a, b, m) == 0
  {
    hide Number, Shift;
    if a.V6? {
      ShiftMore(Number(a.bytes), Number(b.bytes), 128 - n, 128 - m);
    } else if a.V4? {
      AllBits(a.ip);
      AllBits(b.ip);
      if m <= 32 {
        ShiftMore(a.ip, b.ip, if n <= 32 then 32 - n else 0, 32 - m);
      }
    }
  }

  lemma ShiftMore(a: nat, b: nat, j: nat, k: nat)
    requires j <= k && Shift(a, j) == Shift(b, j)
    ensures Shift(a, k) == Shift(b, k)
  {
    Pow2Adds(j, k - j);
    hide Pow2, Div;
    DivTwice(a, Pow2(j), Pow2(k - j));
    DivTwice(b, Pow2(j), Pow2(k - j));
  }

  lemma DivTwice(x: nat, d: nat, e: nat)
    requires 0 < d && 0 < e
    ensures 0 < d * e && Div(x, d * e) == Div(Div(x, d), e)
  {
    var q, r := x / d, x % d;
    assert x == q * d + r;
    CutByte(q, d, r, e);
  }
}
