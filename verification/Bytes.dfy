/** Bytes and big-endian 32-bit words. */
module Bytes {
  type Byte = bv8

  const WORD: nat := 0x1_0000_0000

  function ToInt(b: Byte): nat {
    b as nat
  }

  function FromInt(n: nat): Byte
    requires n < 256
  {
    n as bv8
  }

  lemma IntAndBack(b: Byte)
    ensures ToInt(b) < 256 && FromInt(ToInt(b)) == b
  {
  }

  /** ntohl(get_uint32(b)) */
  function LoadWord(b: seq<Byte>): nat
    requires |b| == 4
  {
    ((ToInt(b[0]) * 256 + ToInt(b[1])) * 256 + ToInt(b[2])) * 256 + ToInt(b[3])
  }

  /** htonl(w), as bytes. */
  function StoreWord(w: nat): (b: seq<Byte>)
    requires w < WORD
    ensures |b| == 4
  {
    [FromInt(w / 256 / 256 / 256), FromInt(w / 256 / 256 % 256), FromInt(w / 256 % 256), FromInt(w % 256)]
  }

  lemma StoreLoad(b: seq<Byte>)
    requires |b| == 4
    ensures LoadWord(b) < WORD && StoreWord(LoadWord(b)) == b
  {
    hide ToInt, FromInt;
    IntAndBack(b[0]);
    IntAndBack(b[1]);
    IntAndBack(b[2]);
    IntAndBack(b[3]);
    Digit(ToInt(b[0]), ToInt(b[1]));
    Digit(ToInt(b[0]) * 256 + ToInt(b[1]), ToInt(b[2]));
    Digit((ToInt(b[0]) * 256 + ToInt(b[1])) * 256 + ToInt(b[2]), ToInt(b[3]));
  }

  lemma StoredWord(w: nat)
    requires w < WORD
    ensures LoadWord(StoreWord(w)) == w
  {
    hide ToInt, FromInt;
    IntOf(w / 256 / 256 / 256);
    IntOf(w / 256 / 256 % 256);
    IntOf(w / 256 % 256);
    IntOf(w % 256);
  }

  lemma {:induction false} IntOf(n: nat)
    requires n < 256
    ensures ToInt(FromInt(n)) == n
  {
    hide *;
    IntOfZero();
    if n > 0 {
      IntOf(n - 1);
      NextByte(FromInt(n - 1));
      IntAndBack(FromInt(n - 1) + 1);
    }
  }

  lemma IntOfZero()
    ensures ToInt(FromInt(0)) == 0
  {
  }

  lemma NextByte(b: Byte)
    ensures ToInt(b) < 255 ==> ToInt(b + 1) == ToInt(b) + 1
  {
  }

  lemma Digit(high: nat, low: nat)
    requires low < 256
    ensures (high * 256 + low) / 256 == high && (high * 256 + low) % 256 == low
  {
  }
}
