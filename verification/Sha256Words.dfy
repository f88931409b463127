/** What the macros of src/common/sha256.c do to the bits and bytes of a word. */
module Sha256Words {
  import opened Bytes
  import opened DiOps
  import opened Sha256Compress
  import opened Sha256

  /** Bit i of a word, counted from the lowest. */
  function Bit(x: Word, i: Word): Word
    requires i < 32
  {
    (x >> i) & 1
  }

  /** RORc moves bit i + n to place i, and wraps around. */
  lemma RotatedBits(x: Word, n: Word, i: Word)
    requires n < 32 && i < 32
    ensures Bit(Ror(x, n), i) == Bit(x, (i + n) & 31)
  {
    Rotated(x, n, i);
  }

  lemma Rotated(x: Word, n: Word, i: Word)
    requires n < 32 && i < 32
    ensures (((x >> n) | (x << (32 - n))) >> i) & 1 == (x >> ((i + n) & 31)) & 1
  {
  }

  lemma UnsignedAndBack(x: Word)
    ensures Unsigned(x) < WORD && Unsigned(x) as bv32 == x
  {
  }

  lemma UnsignedIsInjective(k: Word, l: Word)
    ensures Unsigned(k) == Unsigned(l) <==> k == l
  {
    UnsignedAndBack(k);
    UnsignedAndBack(l);
  }

  /** A word is the number of its bytes, the highest first. */
  lemma StoredBytes(x: Word)
    ensures Number(Store32(x)) == Unsigned(x)
  {
    hide Number, ToInt, Unsigned;
    WordIsNumber(Store32(x));
    TopBits(x);
  }

  lemma TopBits(x: Word)
    ensures Unsigned(x) == LoadWord(Store32(x))
  {
    hide *;
    TopByte(x);
    SecondByte(x);
    ThirdByte(x);
    StoredByteByByte(x);
    Gathered(Store32(x));
  }

  // The bytes of a word from the highest, and what remains below each.

  function Byte3(x: Word): Byte { ((x >> 24) & 0xff) as bv8 }
  function Byte2(x: Word): Byte { ((x >> 16) & 0xff) as bv8 }
  function Byte1(x: Word): Byte { ((x >> 8) & 0xff) as bv8 }
  function Byte0(x: Word): Byte { (x & 0xff) as bv8 }
  function Low24(x: Word): Word { x & 0xff_ffff }
  function Low16(x: Word): Word { x & 0xffff }

  lemma TopByte(x: Word)
    ensures Unsigned(x) == ToInt(Byte3(x)) * 0x100_0000 + Unsigned(Low24(x))
  {
  }

  lemma SecondByte(x: Word)
    ensures Unsigned(Low24(x)) == ToInt(Byte2(x)) * 0x1_0000 + Unsigned(Low16(x))
  {
  }

  lemma ThirdByte(x: Word)
    ensures Unsigned(Low16(x)) == ToInt(Byte1(x)) * 0x100 + ToInt(Byte0(x))
  {
  }

  lemma StoredByteByByte(x: Word)
    ensures Store32(x) == [Byte3(x), Byte2(x), Byte1(x), Byte0(x)]
  {
  }

  lemma Gathered(b: seq<Byte>)
    requires |b| == 4
    ensures LoadWord(b) == ToInt(b[0]) * 0x100_0000 + ToInt(b[1]) * 0x1_0000 + ToInt(b[2]) * 0x100 + ToInt(b[3])
  {
    hide ToInt;
  }

  lemma LoadedIsStored(b: seq<Byte>)
    requires |b| == 4
    ensures Store32(Load32(b)) == b
  {
  }

  lemma LoadedBytes(b: seq<Byte>)
    requires |b| == 4
    ensures Unsigned(Load32(b)) == Number(b)
  {
    hide *;
    LoadedIsStored(b);
    StoredBytes(Load32(b));
  }

  /** The length is stored as eight bytes, the highest first. */
  lemma StoredLength(n: nat)
    requires n < LENGTHS
    ensures Number(Store64(n)) == n
  {
    hide LoadWord, StoreWord, Number;
    StoredNumber(n / WORD);
    StoredNumber(n % WORD);
    AppendedWord(StoreWord(n / WORD), StoreWord(n % WORD));
  }
}
