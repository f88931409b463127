/** The data-independent comparisons of src/common/di_ops.c. */
module DiOps {
  import opened Bytes

  /** What memcmp promises, and the very value here: the difference at the first byte that
      differs. */
  function FirstDifference(x: seq<Byte>, y: seq<Byte>): int
    requires |x| == |y|
  {
    if x == [] then 0
    else if x[0] == y[0] then FirstDifference(x[1..], y[1..])
    else ToInt(x[0]) - ToInt(y[0])
  }

  /** The bytes as a number, the first one the highest. */
  function Number(x: seq<Byte>): nat {
    if x == [] then 0 else Number(x[..|x| - 1]) * 256 + ToInt(x[|x| - 1])
  }

  function Sign(n: int): int {
    if n < 0 then -1 else if n == 0 then 0 else 1
  }

  lemma {:induction false} FirstDifferenceSnoc(x: seq<Byte>, y: seq<Byte>, a: Byte, b: Byte)
    requires |x| == |y|
    ensures FirstDifference(x + [a], y + [b]) ==
            if FirstDifference(x, y) != 0 then FirstDifference(x, y) else ToInt(a) - ToInt(b)
  {
    hide ToInt;
    SameByte(a, b);
    if x == [] {
      assert (x + [a])[1..] == [] && (y + [b])[1..] == [];
    } else {
      assert (x + [a])[1..] == x[1..] + [a] && (y + [b])[1..] == y[1..] + [b];
      SameByte(x[0], y[0]);
      FirstDifferenceSnoc(x[1..], y[1..], a, b);
    }
  }

  lemma SameByte(a: Byte, b: Byte)
    ensures a == b <==> ToInt(a) == ToInt(b)
    ensures 0 <= ToInt(a) < 256 && 0 <= ToInt(b) < 256
  {
    IntAndBack(a);
    IntAndBack(b);
  }

  /** memcmp compares byte strings as it would their numbers. */
  lemma {:induction false} ComparesNumbers(x: seq<Byte>, y: seq<Byte>)
    requires |x| == |y|
    ensures Sign(FirstDifference(x, y)) == Sign(Number(x) - Number(y))
    decreases |x|
  {
    hide ToInt, FirstDifference;
    if x == [] {
      NothingDiffers(x, y);
    } else {
      var n := |x| - 1;
      var u, v := x[..n], y[..n];
      assert x == u + [x[n]] && y == v + [y[n]];
      ComparesNumbers(u, v);
      FirstDifferenceSnoc(u, v, x[n], y[n]);
      SameByte(x[n], y[n]);
      Scaled(Number(u), Number(v), ToInt(x[n]), ToInt(y[n]));
    }
  }

  lemma NothingDiffers(x: seq<Byte>, y: seq<Byte>)
    requires x == y == []
    ensures FirstDifference(x, y) == 0 && Number(x) == Number(y)
  {
  }

  lemma Scaled(a: nat, b: nat, c: nat, d: nat)
    requires c < 256 && d < 256
    ensures Sign((a * 256 + c) - (b * 256 + d)) == if a != b then Sign(a - b) else Sign(c - d)
  {
  }

  lemma {:induction false} DiffersIffUnequal(x: seq<Byte>, y: seq<Byte>)
    requires |x| == |y|
    ensures FirstDifference(x, y) == 0 <==> x == y
  {
    hide ToInt;
    if x != [] {
      SameByte(x[0], y[0]);
      DiffersIffUnequal(x[1..], y[1..]);
      assert x == [x[0]] + x[1..] && y == [y[0]] + y[1..];
    }
  }

  lemma OneNumber(a: seq<Byte>)
    requires |a| > 0
    ensures Number(a[..1]) == ToInt(a[0])
  {
    hide ToInt;
    assert a[..1][..0] == [] && Number([]) == 0;
  }

  /** ntohl reads a big-endian number. */
  lemma WordIsNumber(b: seq<Byte>)
    requires |b| == 4
    ensures Number(b) == LoadWord(b)
  {
    hide ToInt;
    OneNumber(b);
    assert b[..2][..1] == b[..1];
    assert Number(b[..2]) == ToInt(b[0]) * 256 + ToInt(b[1]);
    assert b[..3][..2] == b[..2];
    assert Number(b[..3]) == Number(b[..2]) * 256 + ToInt(b[2]);
  }

  /** htonl writes one. */
  lemma StoredNumber(w: nat)
    requires w < WORD
    ensures Number(StoreWord(w)) == LoadWord(StoreWord(w)) == w
  {
    hide Number, LoadWord, StoreWord;
    WordIsNumber(StoreWord(w));
    StoredWord(w);
  }

  /** A number of 32 bits more. */
  lemma AppendedWord(a: seq<Byte>, b: seq<Byte>)
    requires |b| == 4
    ensures Number(a + b) == Number(a) * WORD + LoadWord(b)
  {
    hide ToInt, Number;
    var a1 := a + [b[0]];
    var a2 := a1 + [b[1]];
    var a3 := a2 + [b[2]];
    Appended(a, b[0]);
    Appended(a1, b[1]);
    Appended(a2, b[2]);
    Appended(a3, b[3]);
    assert a + b == a3 + [b[3]];
    FourDigits(Number(a), ToInt(b[0]), ToInt(b[1]), ToInt(b[2]), ToInt(b[3]));
  }

  lemma FourDigits(n: nat, a: nat, b: nat, c: nat, d: nat)
    ensures (((n * 256 + a) * 256 + b) * 256 + c) * 256 + d == n * WORD + (((a * 256 + b) * 256 + c) * 256 + d)
  {
  }

  lemma Appended(a: seq<Byte>, x: Byte)
    ensures Number(a + [x]) == Number(a) * 256 + ToInt(x)
  {
    hide ToInt;
    assert (a + [x])[..|a|] == a;
  }

  /** v1 ^ v2 */
  function Xor(a: Byte, b: Byte): nat {
    ToInt(a ^ b)
  }

  lemma XorIsZero(a: Byte, b: Byte)
    ensures (Xor(a, b) == 0 <==> a == b) && Xor(a, b) < 256
  {
    IntAndBack(a ^ b);
    assert a ^ b == 0 <==> a == b;
    assert ToInt(a ^ b) == 0 <==> a ^ b == 0;
  }

  /** n & mask in two's complement, for a mask of all ones or all zeros. */
  function And(n: int, mask: int): int
    requires mask == -1 || mask == 0
  {
    if mask == -1 then n else 0
  }

  /** n >> 8 with sign extension */
  function ShiftByte(n: int): int {
    n / 256
  }

  /** tor_memcmp: no branch depends on the bytes. */
  method Memcmp(x: seq<Byte>, y: seq<Byte>, len: nat) returns (retval: int)
    requires len <= |x| && len <= |y|
    ensures retval == FirstDifference(x[..len], y[..len])
    ensures -256 < retval < 256
  {
    hide *;
    var i := len;
    retval := 0;
    NothingDiffers(x[len..len], y[len..len]);
    while i > 0
      invariant 0 <= i <= len && -256 < retval < 256
      invariant retval == FirstDifference(x[i..len], y[i..len])
    {
      i := i - 1;
      var v1: int, v2: int := ToInt(x[i]), ToInt(y[i]);
      var equalP := Xor(x[i], y[i]) as int;
      XorIsZero(x[i], y[i]);
      SameByte(x[i], y[i]);
      equalP := equalP - 1;
      Shifted(equalP);
      equalP := ShiftByte(equalP);
      Masked(retval, equalP);
      retval := And(retval, equalP);
      retval := retval + (v1 - v2);
      FromFront(x[i..len], y[i..len]);
      assert x[i..len][1..] == x[i + 1..len] && y[i..len][1..] == y[i + 1..len];
    }
    assert x[0..len] == x[..len] && y[0..len] == y[..len];
  }

  lemma Shifted(n: int)
    requires -1 <= n < 255
    ensures ShiftByte(n) == if n == -1 then -1 else 0
  {
  }

  lemma Masked(n: int, mask: int)
    requires mask == -1 || mask == 0
    ensures And(n, mask) == if mask == -1 then n else 0
  {
  }

  lemma FromFront(x: seq<Byte>, y: seq<Byte>)
    requires |x| == |y| > 0
    ensures FirstDifference(x, y) == if x[0] == y[0] then FirstDifference(x[1..], y[1..]) else ToInt(x[0]) - ToInt(y[0])
  {
  }

  /** tor_memeq */
  method Memeq(x: seq<Byte>, y: seq<Byte>, sz: nat) returns (r: bv32)
    requires sz <= |x| && sz <= |y|
    ensures r == if x[..sz] == y[..sz] then 1 else 0
  {
    var anyDifference: bv32 := 0;
    var i: nat := 0;
    while i < sz
      invariant i <= sz && anyDifference < 256
      invariant anyDifference == 0 <==> x[..i] == y[..i]
    {
      var byteDiff := x[i] ^ y[i];
      Gather(anyDifference, x[i], y[i]);
      anyDifference := anyDifference | (byteDiff as bv32);
      assert x[..i + 1] == x[..i] + [x[i]] && y[..i + 1] == y[..i] + [y[i]];
      i := i + 1;
    }
    ZeroToOne(anyDifference);
    return 1 & ((anyDifference - 1) >> 8);
  }

  lemma Gather(any: bv32, a: Byte, b: Byte)
    requires any < 256
    ensures any | ((a ^ b) as bv32) < 256
    ensures any | ((a ^ b) as bv32) == 0 <==> any == 0 && a == b
  {
  }

  lemma ZeroToOne(any: bv32)
    requires any < 256
    ensures 1 & ((any - 1) >> 8) == if any == 0 then 1 else 0
  {
  }
}
