/** AES in counter mode as src/common/aes.c implements it over a block cipher, on a machine that
    is not big-endian.  The block cipher itself is a parameter. */
module CounterMode {
  import opened Bytes
  import opened DiOps

  const COUNTERS: nat := 0x1_0000_0000_0000_0000_0000_0000_0000_0000

  /** The four counter words as one number, counter3 the highest. */
  function Value(c3: nat, c2: nat, c1: nat, c0: nat): nat {
    ((c3 * WORD + c2) * WORD + c1) * WORD + c0
  }

  /** The counter as a block of bytes, in big-endian order. */
  function Block(v: nat): (b: seq<Byte>)
    requires v < COUNTERS
    ensures |b| == 16
  {
    StoreWord(v / WORD / WORD / WORD) + StoreWord(v / WORD / WORD % WORD) + StoreWord(v / WORD % WORD)
      + StoreWord(v % WORD)
  }

  lemma BlockOfWords(c3: nat, c2: nat, c1: nat, c0: nat)
    requires c3 < WORD && c2 < WORD && c1 < WORD && c0 < WORD
    ensures var v := Value(c3, c2, c1, c0);
            v < COUNTERS && Block(v) == StoreWord(c3) + StoreWord(c2) + StoreWord(c1) + StoreWord(c0)
  {
    hide StoreWord;
    Split(c3, c2);
    Split(c3 * WORD + c2, c1);
    Split((c3 * WORD + c2) * WORD + c1, c0);
  }

  lemma Split(high: nat, low: nat)
    requires low < WORD
    ensures (high * WORD + low) / WORD == high && (high * WORD + low) % WORD == low
  {
  }

  /** Sixteen bytes and the four words loaded from them are one number. */
  lemma WordsOfBytes(b: seq<Byte>)
    requires |b| == 16
    ensures Number(b) ==
            Value(LoadWord(b[0..4]), LoadWord(b[4..8]), LoadWord(b[8..12]), LoadWord(b[12..16]))
  {
    hide LoadWord, Number;
    AppendedWord([], b[0..4]);
    AppendedWord(b[..4], b[4..8]);
    AppendedWord(b[..8], b[8..12]);
    AppendedWord(b[..12], b[12..16]);
    assert [] + b[0..4] == b[..4] && b[..4] + b[4..8] == b[..8] && b[..8] + b[8..12] == b[..12];
    assert b[..12] + b[12..16] == b;
    NoNumber();
  }

  lemma NoNumber()
    ensures Number([]) == 0
  {
  }

  /** The block of a counter is the counter as a big-endian number, and no other block is. */
  lemma BlockIsNumber(v: nat, b: seq<Byte>)
    requires v < COUNTERS && |b| == 16
    ensures Number(b) == v <==> b == Block(v)
  {
    hide LoadWord, StoreWord, Number;
    WordsOfBytes(b);
    StoreLoad(b[0..4]);
    StoreLoad(b[4..8]);
    StoreLoad(b[8..12]);
    StoreLoad(b[12..16]);
    BlockOfWords(LoadWord(b[0..4]), LoadWord(b[4..8]), LoadWord(b[8..12]), LoadWord(b[12..16]));
    assert b == b[0..4] + b[4..8] + b[8..12] + b[12..16];
    hide Value, Block;
    NumberOfBlock(v);
  }

  lemma NumberOfBlock(v: nat)
    requires v < COUNTERS
    ensures Number(Block(v)) == v
  {
    hide LoadWord, StoreWord, Number, Value;
    var b, w3, w2, w1, w0 := Block(v), v / WORD / WORD / WORD, v / WORD / WORD % WORD, v / WORD % WORD, v % WORD;
    StoredWord(w3);
    StoredWord(w2);
    StoredWord(w1);
    StoredWord(w0);
    assert b[0..4] == StoreWord(w3) && b[4..8] == StoreWord(w2) && b[8..12] == StoreWord(w1);
    assert b[12..16] == StoreWord(w0);
    WordsOfBytes(b);
    ValueOfWords(v);
  }

  lemma ValueOfWords(v: nat)
    ensures Value(v / WORD / WORD / WORD, v / WORD / WORD % WORD, v / WORD % WORD, v % WORD) == v
  {
  }

  type Cipher = seq<Byte> -> seq<Byte>

  /** The block cipher gives blocks. */
  ghost predicate IsBlockCipher(encrypt: Cipher) {
    forall b: seq<Byte> | |b| == 16 :: |encrypt(b)| == 16
  }

  /** Byte number n of the key stream: section 6.5 of NIST SP 800-38A with the standard
      incrementing function of its appendix B.1 on the whole block. */
  ghost function KeyStream(encrypt: Cipher, iv: nat, n: nat): Byte
    requires IsBlockCipher(encrypt)
  {
    encrypt(Block((iv + n / 16) % COUNTERS))[n % 16]
  }

  /** What stands at offset n of the stream for the input from there on. */
  ghost function Encrypted(encrypt: Cipher, iv: nat, n: nat, input: seq<Byte>): (r: seq<Byte>)
    requires IsBlockCipher(encrypt)
    ensures |r| == |input|
  {
    seq(|input|, i requires 0 <= i < |input| => input[i] ^ KeyStream(encrypt, iv, n + i))
  }

  /** However the input is cut up, the bytes are the same. */
  lemma EncryptedInPieces(encrypt: Cipher, iv: nat, n: nat, a: seq<Byte>, b: seq<Byte>)
    requires IsBlockCipher(encrypt)
    ensures Encrypted(encrypt, iv, n, a + b) == Encrypted(encrypt, iv, n, a) + Encrypted(encrypt, iv, n + |a|, b)
  {
    var whole, front, back := Encrypted(encrypt, iv, n, a + b), Encrypted(encrypt, iv, n, a),
        Encrypted(encrypt, iv, n + |a|, b);
    forall i | 0 <= i < |a + b| ensures whole[i] == (front + back)[i] {
      if |a| <= i {
        assert n + i == n + |a| + (i - |a|);
      }
    }
  }

  /** Encrypting again with the same key and IV decrypts. */
  lemma EncryptedTwice(encrypt: Cipher, iv: nat, n: nat, input: seq<Byte>)
    requires IsBlockCipher(encrypt)
    ensures Encrypted(encrypt, iv, n, Encrypted(encrypt, iv, n, input)) == input
  {
    forall i | 0 <= i < |input| ensures Encrypted(encrypt, iv, n, Encrypted(encrypt, iv, n, input))[i] == input[i] {
      XorTwice(input[i], KeyStream(encrypt, iv, n + i));
    }
  }

  lemma XorTwice(x: Byte, y: Byte)
    ensures (x ^ y) ^ y == x
  {
  }

  class CounterCipher {
    const encrypt: Cipher
    var counter3: nat
    var counter2: nat
    var counter1: nat
    var counter0: nat
    /** ctr_buf.buf32: the counter words in big-endian bytes, the highest first. */
    var buf32: seq<seq<Byte>>
    var buf: seq<Byte>
    var pos: nat
    /** The IV as a number, and how many bytes have gone through. */
    ghost var iv: nat
    ghost var offset: nat

    /** The counter words, as they are and in the buffer, are iv + offset / 16. */
    ghost predicate Counting()
      reads `counter3, `counter2, `counter1, `counter0, `buf32, `iv, `offset
    {
      && counter3 < WORD && counter2 < WORD && counter1 < WORD && counter0 < WORD
      && Value(counter3, counter2, counter1, counter0) == (iv + offset / 16) % COUNTERS
      && buf32 == [StoreWord(counter3), StoreWord(counter2), StoreWord(counter1), StoreWord(counter0)]
    }

    /** ctr_buf.buf */
    function CtrBuf(): seq<Byte>
      requires |buf32| == 4
      reads `buf32
    {
      buf32[0] + buf32[1] + buf32[2] + buf32[3]
    }

    /** Byte c of the buffer is the next one of the key stream. */
    ghost predicate Ready(c: nat)
      reads `counter3, `counter2, `counter1, `counter0, `buf32, `iv, `offset, `buf
    {
      IsBlockCipher(encrypt) && Counting() && buf == encrypt(CtrBuf()) && c == offset % 16
    }

    ghost predicate Valid()
      reads this
    {
      Ready(pos)
    }

    /** aes_new_cipher: the counter starts at the 16 bytes of the IV. */
    constructor (encrypt: Cipher, ivBytes: seq<Byte>)
      requires IsBlockCipher(encrypt) && |ivBytes| == 16
      ensures Valid() && this.encrypt == encrypt && offset == 0 && iv == Number(ivBytes) && iv < COUNTERS
    {
      hide LoadWord, StoreWord, Block, Number;
      this.encrypt := encrypt;
      var w3, w2, w1, w0 := LoadWord(ivBytes[0..4]), LoadWord(ivBytes[4..8]), LoadWord(ivBytes[8..12]),
          LoadWord(ivBytes[12..16]);
      counter3, counter2, counter1, counter0 := w3, w2, w1, w0;
      buf32 := [ivBytes[0..4], ivBytes[4..8], ivBytes[8..12], ivBytes[12..16]];
      buf := encrypt(ivBytes);
      pos, offset := 0, 0;
      iv := Value(w3, w2, w1, w0);
      new;
      StoreLoad(ivBytes[0..4]);
      StoreLoad(ivBytes[4..8]);
      StoreLoad(ivBytes[8..12]);
      StoreLoad(ivBytes[12..16]);
      WordsOfBytes(ivBytes);
      BlockOfWords(w3, w2, w1, w0);
      assert ivBytes == ivBytes[0..4] + ivBytes[4..8] + ivBytes[8..12] + ivBytes[12..16];
    }

    lemma InBuffer(c: nat)
      requires Ready(c)
      ensures IsBlockCipher(encrypt) && c < |buf| == 16 && buf[c] == KeyStream(encrypt, iv, offset)
    {
      hide StoreWord;
      BlockOfWords(counter3, counter2, counter1, counter0);
    }

    /** aes.c:445-455: the carry goes as far as the words wrap around, and only the words that
        changed are written to the buffer. */
    method CountUp()
      requires counter3 < WORD && counter2 < WORD && counter1 < WORD && counter0 < WORD
      requires buf32 == [StoreWord(counter3), StoreWord(counter2), StoreWord(counter1), StoreWord(counter0)]
      modifies `counter3, `counter2, `counter1, `counter0, `buf32
      ensures counter3 < WORD && counter2 < WORD && counter1 < WORD && counter0 < WORD
      ensures Value(counter3, counter2, counter1, counter0) ==
                (old(Value(counter3, counter2, counter1, counter0)) + 1) % COUNTERS
      ensures buf32 == [StoreWord(counter3), StoreWord(counter2), StoreWord(counter1), StoreWord(counter0)]
    {
      hide StoreWord, Value;
      Carry(counter3, counter2, counter1, counter0);
      counter0 := (counter0 + 1) % WORD;
      if counter0 == 0 {
        counter1 := (counter1 + 1) % WORD;
        if counter1 == 0 {
          counter2 := (counter2 + 1) % WORD;
          if counter2 == 0 {
            counter3 := (counter3 + 1) % WORD;
            buf32 := buf32[0 := StoreWord(counter3)];
          }
          buf32 := buf32[1 := StoreWord(counter2)];
        }
        buf32 := buf32[2 := StoreWord(counter1)];
      }
      buf32 := buf32[3 := StoreWord(counter0)];
    }

    method NextBlock()
      requires IsBlockCipher(encrypt) && Counting() && offset % 16 == 15
      modifies this
      ensures Ready(0) && iv == old(iv) && offset == old(offset) + 1
    {
      hide StoreWord, Value, IsBlockCipher;
      NextCount(iv, offset);
      pos := 0;
      CountUp();
      buf := encrypt(CtrBuf());
      offset := offset + 1;
    }

    ghost method Advance(c: nat)
      requires Ready(c) && c < 15
      modifies `offset
      ensures Ready(c + 1) && offset == old(offset) + 1
    {
      hide StoreWord, Value, IsBlockCipher;
      SameCount(offset);
      offset := offset + 1;
    }

    lemma ReadyFacts(c: nat)
      requires Ready(c)
      ensures IsBlockCipher(encrypt) && Counting() && c == offset % 16
    {
    }

    /** One byte has been used; at the end of the block the next one is made. */
    method Step(c: nat) returns (c': nat)
      requires Ready(c)
      modifies this
      ensures Ready(c') && iv == old(iv) && offset == old(offset) + 1
    {
      hide *;
      ReadyFacts(c);
      c' := c + 1;
      if c' == 16 {
        NextBlock();
        c' := 0;
      } else {
        Advance(c);
      }
    }

    /** aes_crypt. */
    method Crypt(input: seq<Byte>, output: array<Byte>)
      requires Valid() && |input| <= output.Length
      modifies this, output
      ensures Valid() && iv == old(iv) && offset == old(offset) + |input|
      ensures IsBlockCipher(encrypt) && output[..|input|] == Encrypted(encrypt, old(iv), old(offset), input)
      ensures output[|input|..] == old(output[|input|..])
    {
      hide *;
      Settled();
      var c := pos;
      InBuffer(c);
      ghost var iv0, n := iv, offset;
      var i := 0;
      while i < |input|
        invariant 0 <= i <= |input| && Ready(c) && iv == iv0 && offset == n + i
        invariant forall k | 0 <= k < i :: output[k] == input[k] ^ KeyStream(encrypt, iv0, n + k)
        invariant output[|input|..] == old(output[|input|..])
      {
        InBuffer(c);
        output[i] := input[i] ^ buf[c];
        c := Step(c);
        i := i + 1;
      }
      pos := c;
      Streamed(encrypt, iv0, n, input, output[..|input|]);
      Settled();
    }

    /** aes_crypt_inplace. */
    method CryptInPlace(data: array<Byte>, len: nat)
      requires Valid() && len <= data.Length
      modifies this, data
      ensures Valid() && iv == old(iv) && offset == old(offset) + len
      ensures IsBlockCipher(encrypt) && data[..len] == Encrypted(encrypt, old(iv), old(offset), old(data[..len]))
      ensures data[len..] == old(data[len..])
    {
      hide *;
      Settled();
      var c := pos;
      InBuffer(c);
      ghost var iv0, n := iv, offset;
      var i := 0;
      while i < len
        invariant 0 <= i <= len && Ready(c) && iv == iv0 && offset == n + i
        invariant forall k | 0 <= k < i :: data[k] == old(data[k]) ^ KeyStream(encrypt, iv0, n + k)
        invariant data[i..] == old(data[i..])
      {
        InBuffer(c);
        assert data[i] == data[i..][0] == old(data[i..])[0];
        data[i] := data[i] ^ buf[c];
        c := Step(c);
        i := i + 1;
      }
      pos := c;
      Streamed(encrypt, iv0, n, old(data[..len]), data[..len]);
      Settled();
    }

    lemma Settled()
      ensures Valid() <==> Ready(pos)
    {
    }
  }

  lemma Streamed(encrypt: Cipher, iv: nat, n: nat, input: seq<Byte>, output: seq<Byte>)
    requires IsBlockCipher(encrypt) && |input| == |output|
    requires forall k | 0 <= k < |input| :: output[k] == input[k] ^ KeyStream(encrypt, iv, n + k)
    ensures output == Encrypted(encrypt, iv, n, input)
  {
  }

  lemma SameCount(offset: nat)
    requires offset % 16 != 15
    ensures (offset + 1) / 16 == offset / 16 && (offset + 1) % 16 == offset % 16 + 1
  {
  }

  /** The cascade over the four words is exactly one more modulo 2^128. */
  lemma Carry(c3: nat, c2: nat, c1: nat, c0: nat)
    requires c3 < WORD && c2 < WORD && c1 < WORD && c0 < WORD
    ensures var n0 := (c0 + 1) % WORD;
            var n1 := if n0 == 0 then (c1 + 1) % WORD else c1;
            var n2 := if n0 == 0 && n1 == 0 then (c2 + 1) % WORD else c2;
            var n3 := if n0 == 0 && n1 == 0 && n2 == 0 then (c3 + 1) % WORD else c3;
            Value(n3, n2, n1, n0) == (Value(c3, c2, c1, c0) + 1) % COUNTERS
  {
  }

  lemma NextCount(iv: nat, offset: nat)
    requires offset % 16 == 15
    ensures (offset + 1) / 16 == offset / 16 + 1 && (offset + 1) % 16 == 0
    ensures ((iv + offset / 16) % COUNTERS + 1) % COUNTERS == (iv + (offset + 1) / 16) % COUNTERS
  {
  }
}
