/** The bitmap of a page of chunks in src/common/OpenBSD_malloc_Linux.c.  A word of the bitmap is
    modelled as its 64 bits, so that the mask u of the source is the position k. */
module ChunkBits {
  const MALLOC_BITS: nat := 64

  type Word = w: seq<bool> | |w| == MALLOC_BITS witness seq(MALLOC_BITS, i => false)

  type Bitmap = seq<Word>

  predicate Bit(bits: Bitmap, b: nat)
    requires b < 64 * |bits|
  {
    bits[b / 64][b % 64]
  }

  /** How many of the first n bits are set. */
  function Count(bits: Bitmap, n: nat): (c: nat)
    requires n <= 64 * |bits|
    ensures c <= n
  {
    if n == 0 then 0 else Count(bits, n - 1) + if Bit(bits, n - 1) then 1 else 0
  }

  function With(bits: Bitmap, q: nat, k: nat, value: bool): (r: Bitmap)
    requires q < |bits| && k < 64
    ensures |r| == |bits|
  {
    bits[q := bits[q][k := value]]
  }

  lemma BitAt(bits: Bitmap, q: nat, k: nat)
    requires q < |bits| && k < 64
    ensures Bit(bits, 64 * q + k) == bits[q][k]
  {
  }

  lemma WithBit(bits: Bitmap, q: nat, k: nat, value: bool, b: nat)
    requires q < |bits| && k < 64 && b < 64 * |bits|
    ensures Bit(With(bits, q, k, value), b) == if b == 64 * q + k then value else Bit(bits, b)
  {
  }

  lemma {:induction false} CountMonotone(bits: Bitmap, m: nat, n: nat)
    requires m <= n <= 64 * |bits|
    ensures Count(bits, m) <= Count(bits, n)
    decreases n - m
  {
    hide Bit;
    if m < n {
      CountMonotone(bits, m, n - 1);
    }
  }

  /** No bit is set below n exactly when the count is 0. */
  lemma {:induction false} CountZero(bits: Bitmap, n: nat)
    requires n <= 64 * |bits|
    ensures Count(bits, n) == 0 <==> forall b | 0 <= b < n :: !Bit(bits, b)
  {
    hide Bit;
    if n > 0 {
      CountZero(bits, n - 1);
    }
  }

  /** All bits from m on are set and none before, exactly when the count is n - m; given that
      none before m is. */
  lemma {:induction false} CountFull(bits: Bitmap, m: nat, n: nat)
    requires m <= n <= 64 * |bits| && forall b | 0 <= b < m :: !Bit(bits, b)
    ensures Count(bits, n) <= n - m
    ensures Count(bits, n) == n - m <==> forall b | m <= b < n :: Bit(bits, b)
    decreases n - m
  {
    hide Bit;
    if m == n {
      CountZero(bits, n);
    } else {
      CountFull(bits, m, n - 1);
    }
  }

  lemma {:induction false} CountWith(bits: Bitmap, q: nat, k: nat, value: bool, n: nat)
    requires q < |bits| && k < 64 && n <= 64 * |bits|
    ensures Count(With(bits, q, k, value), n) ==
            Count(bits, n) + if 64 * q + k < n && value != bits[q][k] then if value then 1 else -1 else 0
  {
    hide Bit, With;
    if n > 0 {
      CountWith(bits, q, k, value, n - 1);
      WithBit(bits, q, k, value, n - 1);
      BitAt(bits, q, k);
    }
  }

  /** Chunk b is free chunk number r of the first n, counted from 0. */
  predicate IsFreeNumber(bits: Bitmap, n: nat, r: nat, b: nat) {
    b < n <= 64 * |bits| && Bit(bits, b) && Count(bits, b) == r
  }

  /** The search of malloc_bytes.  Bits from n on may hold anything; the walk stays inside the
      bitmap and never stops on one of them. */
  method FindFree(bits: Bitmap, n: nat, free: nat, guard: bool, random: nat) returns (q: nat, k: nat)
    requires n <= 64 * |bits| && free == Count(bits, n) && free > 0
    ensures q < |bits| && k < 64
    ensures IsFreeNumber(bits, n, if guard then random % free else 0, 64 * q + k)
  {
    hide Count, Bit, IsFreeNumber;
    q, k := FirstFree(bits, n);
    FirstCount(bits, q, k);
    if guard {
      var i := random % free;
      q, k := Walk(bits, n, q, k, i);
      Landed(bits, n, i, q, k);
    } else {
      Landed(bits, n, 0, q, k);
    }
  }

  lemma FirstCount(bits: Bitmap, q: nat, k: nat)
    requires q < |bits| && k < 64 && bits[q][k] && Count(bits, 64 * q + k) == 0
    ensures Count(bits, 64 * q + k + 1) == 1
  {
    BitAt(bits, q, k);
  }

  lemma Landed(bits: Bitmap, n: nat, r: nat, q: nat, k: nat)
    requires q < |bits| && k < 64 && bits[q][k] && n <= 64 * |bits|
    requires Count(bits, 64 * q + k + 1) == r + 1 <= Count(bits, n)
    ensures IsFreeNumber(bits, n, r, 64 * q + k)
  {
    hide Bit;
    BitAt(bits, q, k);
    Room(bits, n, 64 * q + k);
  }

  /** The walk to the free chunk that stands r further on. */
  method Walk(bits: Bitmap, n: nat, first: nat, at: nat, r: nat) returns (q: nat, k: nat)
    requires n <= 64 * |bits| && first < |bits| && at < 64 && bits[first][at]
    requires Count(bits, 64 * first + at + 1) == 1 && r < Count(bits, n)
    ensures q < |bits| && k < 64 && bits[q][k] && Count(bits, 64 * q + k + 1) == r + 1
  {
    hide Count, Bit;
    q, k := first, at;
    var i: nat := r;
    while i > 0
      invariant q < |bits| && k < 64 && i <= r
      invariant Count(bits, 64 * q + k + 1) + i == r + 1
      invariant i == 0 ==> bits[q][k]
      decreases 64 * |bits| - (64 * q + k)
    {
      Room(bits, n, 64 * q + k + 1);
      CountStep(bits, 64 * q + k + 1);
      k := k + 1;
      if k >= MALLOC_BITS {
        q, k := q + 1, 0;
      }
      BitAt(bits, q, k);
      if bits[q][k] {
        i := i - 1;
      }
    }
  }

  lemma CountStep(bits: Bitmap, b: nat)
    requires b <= 64 * |bits|
    ensures b < 64 * |bits| ==> Count(bits, b + 1) == Count(bits, b) + if Bit(bits, b) then 1 else 0
  {
  }

  /** As long as fewer than all free chunks have been passed, the end has not been reached. */
  lemma Room(bits: Bitmap, n: nat, b: nat)
    requires b <= 64 * |bits| && n <= 64 * |bits|
    ensures Count(bits, b) < Count(bits, n) ==> b < n
  {
    if n <= b {
      CountMonotone(bits, n, b);
    }
  }

  method FirstFree(bits: Bitmap, n: nat) returns (q: nat, k: nat)
    requires n <= 64 * |bits| && Count(bits, n) > 0
    ensures q < |bits| && k < 64 && bits[q][k]
    ensures Count(bits, 64 * q + k) == 0
  {
    hide Count, Bit;
    CountNone(bits);
    q := 0;
    Room(bits, n, 0);
    while forall i | 0 <= i < MALLOC_BITS :: !bits[q][i]
      invariant q < |bits| && Count(bits, 64 * q) == 0
      decreases |bits| - q
    {
      EmptyWord(bits, q);
      q := q + 1;
      Room(bits, n, 64 * q);
    }
    k := 0;
    while !bits[q][k]
      invariant k < 64 && Count(bits, 64 * q + k) == 0
      invariant forall i | 0 <= i < k :: !bits[q][i]
      decreases 64 - k
    {
      BitAt(bits, q, k);
      CountStep(bits, 64 * q + k);
      k := k + 1;
    }
  }

  lemma CountNone(bits: Bitmap)
    ensures Count(bits, 0) == 0
  {
  }

  lemma EmptyWord(bits: Bitmap, q: nat)
    requires q < |bits| && (forall i | 0 <= i < 64 :: !bits[q][i]) && Count(bits, 64 * q) == 0
    ensures Count(bits, 64 * q + 64) == 0
  {
    hide Count;
    CountZero(bits, 64 * q);
    CountZero(bits, 64 * q + 64);
    forall b | 0 <= b < 64 * q + 64 ensures !Bit(bits, b) {
      if 64 * q <= b {
        BitAt(bits, q, b - 64 * q);
      }
    }
  }
}
