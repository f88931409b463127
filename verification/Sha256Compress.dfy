/** The compression function of src/common/sha256.c, in its loop form (LTC_SMALL_CODE) and in the
    unrolled form that renames the registers instead of moving them. */
module Sha256Compress {
  import opened Bytes

  type Word = bv32

  type Constants = k: seq<Word> | |k| == 64 witness seq(64, i => 0)

  const K: Constants :=
    [0x428a2f98, 0x71374491, 0xb5c0fbcf, 0xe9b5dba5, 0x3956c25b, 0x59f111f1, 0x923f82a4, 0xab1c5ed5]
    + [0xd807aa98, 0x12835b01, 0x243185be, 0x550c7dc3, 0x72be5d74, 0x80deb1fe, 0x9bdc06a7, 0xc19bf174]
    + [0xe49b69c1, 0xefbe4786, 0x0fc19dc6, 0x240ca1cc, 0x2de92c6f, 0x4a7484aa, 0x5cb0a9dc, 0x76f988da]
    + [0x983e5152, 0xa831c66d, 0xb00327c8, 0xbf597fc7, 0xc6e00bf3, 0xd5a79147, 0x06ca6351, 0x14292967]
    + [0x27b70a85, 0x2e1b2138, 0x4d2c6dfc, 0x53380d13, 0x650a7354, 0x766a0abb, 0x81c2c92e, 0x92722c85]
    + [0xa2bfe8a1, 0xa81a664b, 0xc24b8b70, 0xc76c51a3, 0xd192e819, 0xd6990624, 0xf40e3585, 0x106aa070]
    + [0x19a4c116, 0x1e376c08, 0x2748774c, 0x34b0bcb5, 0x391c0cb3, 0x4ed8aa4a, 0x5b9cca4f, 0x682e6ff3]
    + [0x748f82ee, 0x78a5636f, 0x84c87814, 0x8cc70208, 0x90befffa, 0xa4506ceb, 0xbef9a3f7, 0xc67178f2]

  /** A word as the number its bits spell. */
  function Unsigned(x: Word): nat {
    x as nat
  }

  function Ror(x: Word, n: Word): Word
    requires n < 32
  {
    (x >> n) | (x << (32 - n))
  }

  function Ch(x: Word, y: Word, z: Word): Word { z ^ (x & (y ^ z)) }
  function Maj(x: Word, y: Word, z: Word): Word { ((x | y) & z) | (x & y) }
  function Sigma0(x: Word): Word { Ror(x, 2) ^ Ror(x, 13) ^ Ror(x, 22) }
  function Sigma1(x: Word): Word { Ror(x, 6) ^ Ror(x, 11) ^ Ror(x, 25) }
  function Gamma0(x: Word): Word { Ror(x, 7) ^ Ror(x, 18) ^ (x >> 3) }
  function Gamma1(x: Word): Word { Ror(x, 17) ^ Ror(x, 19) ^ (x >> 10) }

  /** LOAD32H */
  function Load32(b: seq<Byte>): Word
    requires |b| == 4
  {
    ((b[0] as bv32) << 24) | ((b[1] as bv32) << 16) | ((b[2] as bv32) << 8) | (b[3] as bv32)
  }

  /** STORE32H */
  function Store32(x: Word): (b: seq<Byte>)
    ensures |b| == 4
  {
    [((x >> 24) & 0xff) as bv8, ((x >> 16) & 0xff) as bv8, ((x >> 8) & 0xff) as bv8, (x & 0xff) as bv8]
  }

  /** sha256.c:102, as in step 1 of section 6.2.2 of FIPS 180-4. */
  function Expand(w: seq<Word>, t: nat): Word
    requires 16 <= t <= |w|
  {
    Sum4(Gamma1(w[t - 2]), w[t - 7], Gamma0(w[t - 15]), w[t - 16])
  }

  function Sum2(p: Word, q: Word): Word { p + q }
  function Sum4(p: Word, q: Word, r: Word, s: Word): Word { p + q + r + s }
  function Sum5(p: Word, q: Word, r: Word, s: Word, t: Word): Word { p + q + r + s + t }

  /** Word t of the message schedule, from the words before it. */
  function NextWord(block: seq<Byte>, w: seq<Word>, t: nat): Word
    requires |block| == 64 && |w| == t
  {
    if t < 16 then Load32(block[4 * t..4 * t + 4]) else Expand(w, t)
  }

  /** The first n words of the message schedule. */
  function Schedule(block: seq<Byte>, n: nat): (w: seq<Word>)
    requires |block| == 64
    ensures |w| == n
  {
    if n == 0 then [] else Schedule(block, n - 1) + [NextWord(block, Schedule(block, n - 1), n - 1)]
  }

  /** RND on the eight registers a to h: the new d and h. */
  function Rnd(a: Word, b: Word, c: Word, d: Word, e: Word, f: Word, g: Word, h: Word, k: Word, w: Word): (Word, Word) {
    var t0 := Sum5(h, Sigma1(e), Ch(e, f, g), k, w);
    var t1 := Sum2(Sigma0(a), Maj(a, b, c));
    (Sum2(d, t0), Sum2(t0, t1))
  }

  type Regs = s: seq<Word> | |s| == 8 witness [0, 0, 0, 0, 0, 0, 0, 0]

  /** One round of the loop form: RND, then every register moves down by one. */
  function Round(s: Regs, k: Word, w: Word): Regs {
    var (d, h) := Rnd(s[0], s[1], s[2], s[3], s[4], s[5], s[6], s[7], k, w);
    [h, s[0], s[1], s[2], d, s[4], s[5], s[6]]
  }

  function Rounds(s: Regs, w: seq<Word>, n: nat): Regs
    requires n <= 64 == |w|
  {
    if n == 0 then s else Round(Rounds(s, w, n - 1), K[n - 1], w[n - 1])
  }

  function AddWords(s: Regs, t: Regs): Regs {
    seq(8, i requires 0 <= i < 8 => s[i] + t[i])
  }

  /** The compression function. */
  function Compress(state: Regs, block: seq<Byte>): Regs
    requires |block| == 64
  {
    AddWords(state, Rounds(state, Schedule(block, 64), 64))
  }

  // ---------------------------------------------------------------------------------------------
  // The same as section 6.2.2 of FIPS 180-4 has it.

  /** Equations 4.2 and 4.3. */
  function StandardCh(x: Word, y: Word, z: Word): Word { (x & y) ^ (!x & z) }
  function StandardMaj(x: Word, y: Word, z: Word): Word { (x & y) ^ (x & z) ^ (y & z) }

  /** Step 3 for one word; Ror and the four sigma functions are written as they are in sections
      3.2 and 4.1.2. */
  function StandardRound(s: Regs, k: Word, w: Word): Regs {
    var (a, b, c, d, e, f, g, h) := (s[0], s[1], s[2], s[3], s[4], s[5], s[6], s[7]);
    var t1 := Sum5(h, Sigma1(e), StandardCh(e, f, g), k, w);
    var t2 := Sum2(Sigma0(a), StandardMaj(a, b, c));
    [Sum2(t1, t2), a, b, c, Sum2(d, t1), e, f, g]
  }

  /** Step 1: the message schedule, word by word. */
  ghost predicate IsSchedule(block: seq<Byte>, w: seq<Word>)
    requires |block| == 64
  {
    && |w| == 64
    && (forall t: nat | t < 16 :: w[t] == Load32(block[4 * t..4 * t + 4]))
    && (forall t: nat | 16 <= t < 64 :: w[t] == Expand(w, t))
  }

  /** Registers before each of the rounds and behind the last. */
  ghost predicate IsTrace(state: Regs, w: seq<Word>, trace: seq<Regs>)
    requires |w| == 64
  {
    && |trace| == 65 && trace[0] == state
    && forall t: nat | t < 64 :: trace[t + 1] == StandardRound(trace[t], K[t], w[t])
  }

  /** Ch and Maj are the standard's, though written with fewer operations. */
  lemma ChoiceAndMajority(x: Word, y: Word, z: Word)
    ensures Ch(x, y, z) == StandardCh(x, y, z) && Maj(x, y, z) == StandardMaj(x, y, z)
  {
    assert Ch(x, y, z) == StandardCh(x, y, z) by {
      hide Ch;
      Choice(x, y, z);
    }
    assert Maj(x, y, z) == StandardMaj(x, y, z) by {
      hide Maj;
      Majority(x, y, z);
    }
    hide *;
  }

  lemma Choice(x: Word, y: Word, z: Word)
    ensures Ch(x, y, z) == (x & y) ^ (!x & z)
  {
  }

  lemma Majority(x: Word, y: Word, z: Word)
    ensures Maj(x, y, z) == (x & y) ^ (x & z) ^ (y & z)
  {
  }

  /** RND and the shuffle behind it are the standard's round. */
  lemma RoundIsStandard(s: Regs, k: Word, w: Word)
    ensures Round(s, k, w) == StandardRound(s, k, w)
  {
    hide Ch, Maj, StandardCh, StandardMaj, Sigma0, Sigma1, Sum2, Sum5;
    ChoiceAndMajority(s[4], s[5], s[6]);
    ChoiceAndMajority(s[0], s[1], s[2]);
  }

  lemma ExpandPrefix(w: seq<Word>, n: nat, t: nat)
    requires 16 <= t <= n <= |w|
    ensures Expand(w[..n], t) == Expand(w, t)
  {
    hide Gamma0, Gamma1, Sum4;
  }

  /** The standard's recurrence has exactly one solution, the schedule that the loop fills in. */
  lemma ScheduleIsUnique(block: seq<Byte>, w: seq<Word>)
    requires |block| == 64
    ensures IsSchedule(block, w) <==> w == Schedule(block, 64)
  {
    hide Load32, Expand, Schedule;
    var s := Schedule(block, 64);
    forall t: nat | t < 64 ensures s[t] == if t < 16 then Load32(block[4 * t..4 * t + 4]) else Expand(s, t) {
      ScheduleAt(block, t, 64);
      if 16 <= t {
        ExpandPrefix(s, t, t);
      }
    }
    if IsSchedule(block, w) {
      ScheduleFrom(block, w, 64);
      assert w[..64] == w;
    }
  }

  lemma {:induction false} ScheduleAt(block: seq<Byte>, t: nat, n: nat)
    requires |block| == 64 && t < n
    ensures Schedule(block, n)[..t] == Schedule(block, t)
    ensures Schedule(block, n)[t] == NextWord(block, Schedule(block, t), t)
  {
    hide NextWord;
    if t < n - 1 {
      ScheduleAt(block, t, n - 1);
      assert Schedule(block, n)[..t] == Schedule(block, n - 1)[..t];
    }
  }

  lemma {:induction false} ScheduleFrom(block: seq<Byte>, w: seq<Word>, n: nat)
    requires |block| == 64 && IsSchedule(block, w) && n <= 64
    ensures w[..n] == Schedule(block, n)
  {
    hide Load32, Expand;
    if n > 0 {
      ScheduleFrom(block, w, n - 1);
      if 16 <= n - 1 {
        ExpandPrefix(w, n - 1, n - 1);
      }
      assert w[..n] == w[..n - 1] + [w[n - 1]];
    }
  }

  /** Whatever schedule and registers meet the standard's equations, the compression function
      gives the intermediate hash value that the standard's step 4 computes from them. */
  lemma CompressIsStandard(state: Regs, block: seq<Byte>, w: seq<Word>, trace: seq<Regs>)
    requires |block| == 64 && IsSchedule(block, w) && IsTrace(state, w, trace)
    ensures Compress(state, block) == AddWords(state, trace[64])
  {
    hide Schedule, IsSchedule;
    ScheduleIsUnique(block, w);
    TraceIsRounds(state, w, trace, 64);
  }

  lemma {:induction false} TraceIsRounds(state: Regs, w: seq<Word>, trace: seq<Regs>, n: nat)
    requires |w| == 64 && IsTrace(state, w, trace) && n <= 64
    ensures trace[n] == Rounds(state, w, n)
  {
    hide Round, StandardRound;
    if n > 0 {
      TraceIsRounds(state, w, trace, n - 1);
      RoundIsStandard(trace[n - 1], K[n - 1], w[n - 1]);
    }
  }

  /** Where the register that line i of the unrolled form calls number j is kept. */
  function Place(i: nat, j: nat): (p: nat)
    requires j < 8
    ensures p < 8
  {
    if i % 8 <= j then j - i % 8 else j + 8 - i % 8
  }

  lemma PlaceMoves(i: nat, j: nat)
    requires j < 8
    ensures Place(i + 1, j) == Place(i, if j == 0 then 7 else j - 1)
    ensures forall k: nat | k < 8 && k != j :: Place(i, k) != Place(i, j)
  {
  }

  /** The registers s of the unrolled form before its line i are those of the loop form. */
  ghost predicate Renamed(s: Regs, i: nat, loop: Regs) {
    forall j: nat | j < 8 :: s[Place(i, j)] == loop[j]
  }

  /** Line i of the unrolled form writes two registers and moves none. */
  function Line(s: Regs, i: nat, k: Word, w: Word): Regs {
    var (d, h) := Rnd(s[Place(i, 0)], s[Place(i, 1)], s[Place(i, 2)], s[Place(i, 3)],
                      s[Place(i, 4)], s[Place(i, 5)], s[Place(i, 6)], s[Place(i, 7)], k, w);
    s[Place(i, 3) := d][Place(i, 7) := h]
  }

  lemma LineIsRound(s: Regs, i: nat, loop: Regs, k: Word, w: Word)
    requires Renamed(s, i, loop)
    ensures Renamed(Line(s, i, k, w), i + 1, Round(loop, k, w))
  {
    hide Rnd, Place;
    var t, r := Line(s, i, k, w), Round(loop, k, w);
    forall j: nat | j < 8 ensures t[Place(i + 1, j)] == r[j] {
      PlaceMoves(i, j);
      PlaceMoves(i, 3);
      PlaceMoves(i, 7);
      assert s[Place(i, if j == 0 then 7 else j - 1)] == loop[if j == 0 then 7 else j - 1];
    }
  }

  /** sha256.c:95-103. */
  method FillSchedule(buf: seq<Byte>) returns (w: seq<Word>)
    requires |buf| == 64
    ensures w == Schedule(buf, 64) && IsSchedule(buf, w)
  {
    hide *;
    w := [];
    ScheduleSteps(buf, 0);
    for i := 0 to 16
      invariant w == Schedule(buf, i)
    {
      ScheduleSteps(buf, i);
      w := w + [Load32(buf[4 * i..4 * i + 4])];
    }
    for i := 16 to 64
      invariant w == Schedule(buf, i)
    {
      ScheduleSteps(buf, i);
      w := w + [Expand(w, i)];
    }
    ScheduleIsUnique(buf, w);
  }

  lemma ScheduleSteps(block: seq<Byte>, n: nat)
    requires |block| == 64
    ensures Schedule(block, 0) == []
    ensures n < 16 ==> Schedule(block, n + 1) == Schedule(block, n) + [Load32(block[4 * n..4 * n + 4])]
    ensures 16 <= n ==> Schedule(block, n + 1) == Schedule(block, n) + [Expand(Schedule(block, n), n)]
  {
    hide Expand, Load32;
  }

  /** sha256_compress as LTC_SMALL_CODE has it. */
  method CompressLoop(state: Regs, buf: seq<Byte>) returns (r: Regs)
    requires |buf| == 64
    ensures r == Compress(state, buf)
  {
    hide Rnd, Schedule;
    var s := state;
    var w := FillSchedule(buf);
    for i := 0 to 64
      invariant s == Rounds(state, w, i)
    {
      var (d, h) := Rnd(s[0], s[1], s[2], s[3], s[4], s[5], s[6], s[7], K[i], w[i]);
      s := s[3 := d][7 := h];
      var t := s[7];
      s := [t, s[0], s[1], s[2], s[3], s[4], s[5], s[6]];
    }
    r := AddWords(state, s);
  }

  /** sha256_compress with its 64 unrolled lines. */
  method CompressUnrolled(state: Regs, buf: seq<Byte>) returns (r: Regs)
    requires |buf| == 64
    ensures r == Compress(state, buf)
  {
    hide Round, Schedule, Line;
    var s := state;
    var w := FillSchedule(buf);
    for i := 0 to 64
      invariant Renamed(s, i, Rounds(state, w, i))
    {
      LineIsRound(s, i, Rounds(state, w, i), K[i], w[i]);
      s := Line(s, i, K[i], w[i]);
    }
    assert s == Rounds(state, w, 64) by {
      assert forall j: nat | j < 8 :: Place(64, j) == j;
    }
    r := AddWords(state, s);
  }
}
