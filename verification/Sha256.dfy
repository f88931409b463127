/** The streaming state machine of src/common/sha256.c around its compression function. */
module Sha256 {
  import opened Bytes
  import opened Sha256Compress

  const LENGTHS: nat := 0x1_0000_0000_0000_0000

  /** The initial hash value: section 5.3.3 of FIPS 180-4. */
  const INITIAL: Regs := [
    0x6A09E667, 0xBB67AE85, 0x3C6EF372, 0xA54FF53A, 0x510E527F, 0x9B05688C, 0x1F83D9AB, 0x5BE0CD19
  ]

  /** Compress over the blocks of m in order. */
  ghost function Fold(s: Regs, m: seq<Byte>): Regs
    requires |m| % 64 == 0
  {
    if |m| == 0 then s else Compress(Fold(s, m[..|m| - 64]), m[|m| - 64..])
  }

  lemma FoldOneMore(s: Regs, m: seq<Byte>, b: seq<Byte>)
    requires |m| % 64 == 0 && |b| == 64
    ensures Fold(s, m + b) == Compress(Fold(s, m), b)
  {
    hide Compress;
    assert (m + b)[..|m + b| - 64] == m && (m + b)[|m + b| - 64..] == b;
  }

  function Zeros(n: nat): seq<Byte> {
    seq(n, i => 0)
  }

  /** STORE64H */
  function Store64(n: nat): (b: seq<Byte>)
    requires n < LENGTHS
    ensures |b| == 8
  {
    StoreWord(n / WORD) + StoreWord(n % WORD)
  }

  /** The length field of the state after n bytes. */
  function BitLength(n: nat): (l: nat)
    ensures l < LENGTHS
  {
    8 * n % LENGTHS
  }

  /** An addition to the length field. */
  function AddBits(length: nat, bits: nat): (l: nat)
    ensures l < LENGTHS
  {
    (length + bits) % LENGTHS
  }

  /** The padded message: section 5.1.1 of FIPS 180-4. */
  function Pad(m: seq<Byte>): (p: seq<Byte>)
    ensures |p| % 64 == 0
  {
    PadLength(|m|);
    m + [0x80] + Zeros((55 - |m|) % 64) + Store64(BitLength(|m|))
  }

  lemma PadLength(n: nat)
    ensures (n + 1 + (55 - n) % 64 + 8) % 64 == 0
  {
  }

  /** Padding adds as few blocks as it can. */
  lemma PadIsMinimal(m: seq<Byte>)
    ensures |Pad(m)| - 64 < |m| + 1 + 8 <= |Pad(m)|
  {
  }

  /** No two messages are padded alike: the marker byte is the last one before the length that
      is not zero. */
  lemma PadIsInjective(a: seq<Byte>, b: seq<Byte>)
    requires Pad(a) == Pad(b)
    ensures a == b
  {
    PadShape(a);
    PadShape(b);
    assert |a| == |b| by {
      assert Pad(a)[|b|] == 0x80 && Pad(b)[|a|] == 0x80;
    }
    assert a == Pad(a)[..|a|] && b == Pad(b)[..|b|];
  }

  lemma PadShape(m: seq<Byte>)
    ensures |m| < |Pad(m)| - 8 && Pad(m)[..|m|] == m && Pad(m)[|m|] == 0x80
    ensures forall i | |m| < i < |Pad(m)| - 8 :: Pad(m)[i] == 0
  {
    hide Store64;
  }

  /** The digest of the eight words. */
  function Digest(s: Regs): (d: seq<Byte>)
    ensures |d| == 32
  {
    Store32(s[0]) + Store32(s[1]) + Store32(s[2]) + Store32(s[3]) + Store32(s[4]) + Store32(s[5]) + Store32(s[6])
      + Store32(s[7])
  }

  ghost function Hash(m: seq<Byte>): seq<Byte> {
    Digest(Fold(INITIAL, Pad(m)))
  }

  lemma Joined<T>(m: seq<T>, s: seq<T>, i: nat, j: nat)
    requires i <= j <= |s|
    ensures (m + s[..i]) + s[i..j] == m + s[..j] && m + s[..0] == m && s[..|s|] == s
  {
  }

  class Sha256State {
    var length: nat
    var state: Regs
    var curlen: nat
    const buf: array<Byte>
    /** The blocks that have gone through the compression function. */
    ghost var blocks: seq<Byte>

    ghost predicate Valid()
      reads this, buf
    {
      && buf.Length == 64 && curlen < 64
      && |blocks| % 64 == 0 && state == Fold(INITIAL, blocks)
      && length == BitLength(|blocks|)
    }

    /** Everything that sha256_process has been given. */
    ghost function Message(): seq<Byte>
      requires Valid()
      reads this, buf
    {
      blocks + buf[..curlen]
    }

    /** sha256_init */
    constructor ()
      ensures Valid() && Message() == [] && fresh(buf)
    {
      length, curlen, state := 0, 0, INITIAL;
      buf := new Byte[64];
      blocks := [];
    }

    /** One call of the compression function on a full block. */
    method Absorb(block: seq<Byte>)
      requires |block| == 64 && |blocks| % 64 == 0 && state == Fold(INITIAL, blocks)
      modifies `state, `blocks
      ensures blocks == old(blocks) + block && |blocks| % 64 == 0 && state == Fold(INITIAL, blocks)
    {
      hide Fold, Compress;
      FoldOneMore(INITIAL, blocks, block);
      state := CompressUnrolled(state, block);
      blocks := blocks + block;
    }

    /** sha256.c:250-256: a whole block of input goes through directly. */
    method TakeBlock(block: seq<Byte>)
      requires Valid() && curlen == 0 && |block| == 64
      modifies `state, `blocks, `length
      ensures Valid() && Message() == old(Message()) + block
    {
      hide Fold, BitLength, AddBits;
      Absorb(block);
      LengthOf(|blocks| - 64, 64);
      length := AddBits(length, 64 * 8);
      assert buf[..0] == [];
    }

    /** The memcpy of sha256.c:259-260. */
    method CopyIn(part: seq<Byte>)
      requires buf.Length == 64 && |part| <= 64 - curlen
      modifies `curlen, buf
      ensures curlen == old(curlen) + |part| && buf[..curlen] == old(buf[..curlen]) + part
    {
      forall k | 0 <= k < |part| {
        buf[curlen + k] := part[k];
      }
      curlen := curlen + |part|;
    }

    /** sha256.c:258-269: as much as fits goes to the buffer, which is absorbed when full. */
    method TakePart(part: seq<Byte>)
      requires Valid() && 0 < |part| <= 64 - curlen
      modifies this, buf
      ensures Valid() && Message() == old(Message()) + part
    {
      hide Fold, Compress, BitLength, AddBits;
      CopyIn(part);
      if curlen == 64 {
        FullBuffer();
        LengthOf(|blocks| - 64, 64);
        length := AddBits(length, 8 * 64);
        curlen := 0;
      }
    }

    /** sha256.c:264. */
    method FullBuffer()
      requires buf.Length == 64 == curlen && |blocks| % 64 == 0 && state == Fold(INITIAL, blocks)
      modifies `state, `blocks
      ensures blocks == old(blocks) + buf[..curlen] && |blocks| % 64 == 0 && state == Fold(INITIAL, blocks)
      ensures buf[..0] == []
    {
      hide Fold;
      assert buf[..] == buf[..curlen];
      Absorb(buf[..]);
    }

    /** sha256_process */
    method Process(input: seq<Byte>)
      requires Valid()
      modifies this, buf
      ensures Valid() && Message() == old(Message()) + input
    {
      hide *;
      ValidFacts();
      ghost var m := Message();
      var i := 0;
      Joined(m, input, 0, 0);
      while i < |input|
        invariant 0 <= i <= |input| && Valid() && curlen < 64
        invariant Message() == m + input[..i]
      {
        if curlen == 0 && |input| - i >= 64 {
          Joined(m, input, i, i + 64);
          TakeBlock(input[i..i + 64]);
          i := i + 64;
        } else {
          var n := if |input| - i < 64 - curlen then |input| - i else 64 - curlen;
          Joined(m, input, i, i + n);
          TakePart(input[i..i + n]);
          i := i + n;
        }
        ValidFacts();
      }
    }

    lemma ValidFacts()
      requires Valid()
      ensures curlen < 64
    {
    }

    /** The zero loops of sha256_done. */
    method FillZeros(end: nat)
      requires buf.Length == 64 && curlen <= end <= 64
      modifies `curlen, buf
      ensures curlen == end && buf[..end] == old(buf[..curlen]) + Zeros(end - old(curlen))
    {
      ghost var c := curlen;
      while curlen < end
        invariant c <= curlen <= end && buf[..curlen] == old(buf[..curlen]) + Zeros(curlen - c)
      {
        buf[curlen] := 0;
        curlen := curlen + 1;
      }
    }

    /** Line 317: the length goes behind the first 56 bytes. */
    method StoreLength()
      requires buf.Length == 64 && length < LENGTHS
      modifies buf
      ensures buf[..] == old(buf[..56]) + Store64(length)
    {
      var b := Store64(length);
      forall k | 0 <= k < 8 {
        buf[56 + k] := b[k];
      }
    }

    /** sha256.c:304-308: a tail that leaves no room for the length gets a block of its own. */
    method FlushBlock()
      requires buf.Length == 64 && curlen <= 64 && |blocks| % 64 == 0 && state == Fold(INITIAL, blocks)
      modifies `curlen, `state, `blocks, buf
      ensures curlen == 0 && buf[..curlen] == [] && |blocks| % 64 == 0 && state == Fold(INITIAL, blocks)
      ensures blocks == old(blocks) + (old(buf[..curlen]) + Zeros(64 - old(curlen)))
    {
      hide Fold, Zeros;
      FillZeros(64);
      assert buf[..64] == buf[..];
      Absorb(buf[..]);
      curlen := 0;
    }

    /** sha256_done.  Its error return for a full buffer cannot happen between calls. */
    method Done() returns (out: seq<Byte>)
      requires Valid()
      modifies this, buf
      ensures out == Hash(old(Message()))
    {
      hide Fold, Digest, Store64, Zeros, Compress, Pad, BitLength, AddBits;
      ghost var m, tail := Message(), buf[..curlen];
      LengthOf(|blocks|, curlen);
      if |tail| <= 55 {
        PadOneBlock(blocks, tail);
      } else {
        PadTwoBlocks(blocks, tail);
      }
      length := AddBits(length, curlen * 8);
      buf[curlen] := 0x80;
      curlen := curlen + 1;
      assert buf[..curlen] == tail + [0x80];
      if curlen > 56 {
        FlushBlock();
      }
      FillZeros(56);
      StoreLength();
      Absorb(buf[..]);
      assert blocks == Pad(m);
      out := Digest(state);
    }
  }

  lemma LengthOf(n: nat, c: nat)
    ensures AddBits(BitLength(n), c * 8) == BitLength(n + c)
  {
  }

  /** The padding of a short tail ends in its own block. */
  lemma PadOneBlock(blocks: seq<Byte>, tail: seq<Byte>)
    requires |blocks| % 64 == 0 && |tail| <= 55
    ensures Pad(blocks + tail) == blocks
              + (((tail + [0x80]) + Zeros(55 - |tail|)) + Store64(BitLength(|blocks| + |tail|)))
  {
    hide Store64, BitLength;
    assert (55 - |blocks + tail|) % 64 == 55 - |tail|;
  }

  /** The padding of a long tail takes another block. */
  lemma PadTwoBlocks(blocks: seq<Byte>, tail: seq<Byte>)
    requires |blocks| % 64 == 0 && 55 < |tail| < 64
    ensures Pad(blocks + tail) ==
            (blocks + ((tail + [0x80]) + Zeros(63 - |tail|)))
              + (([] + Zeros(56)) + Store64(BitLength(|blocks| + |tail|)))
  {
    hide Store64, BitLength;
    assert (55 - |blocks + tail|) % 64 == 119 - |tail|;
    assert Zeros(119 - |tail|) == Zeros(63 - |tail|) + Zeros(56);
  }
}
