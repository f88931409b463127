/** How mp_pool_new (src/common/mempool.c) chooses the size of its chunks, with the rounding of
    src/common/util.c, for a 64-bit size_t. */
module PoolSize {
  import opened Division
  import opened Limits
  import opened PowersOfTwo

  /** u0 shifted right by r is u. */
  ghost predicate Shifted(u0: nat, r: nat, u: nat) {
    u * Pow2(r) <= u0 < (u + 1) * Pow2(r)
  }

  lemma DivBounds(u: nat, p: nat)
    requires 0 < p
    ensures (u / p) * p <= u && u + 1 <= (u / p + 1) * p
  {
  }

  lemma ShiftCore(u0: nat, u: nat, q: nat, a: nat, p: nat)
    requires u * a <= u0 < (u + 1) * a && q * p <= u && u + 1 <= (q + 1) * p
    ensures q * (a * p) <= u0 < (q + 1) * (a * p)
  {
    MulMonotone(q * p, u, a);
    MulMonotone(u + 1, (q + 1) * p, a);
    Reassociate(q, p, a);
    Reassociate(q + 1, p, a);
  }

  lemma ShiftMore(u0: nat, r: nat, u: nat, k: nat, p: nat, q: nat)
    requires Shifted(u0, r, u) && p == Pow2(k)
    requires q * p <= u && u + 1 <= (q + 1) * p
    ensures Shifted(u0, r + k, q)
  {
    Pow2Adds(r, k);
    var a := Pow2(r);
    ShiftCore(u0, u, q, a, p);
    hide Pow2;
    assert Pow2(r + k) == a * p;
  }

  /** One step of tor_log2: shift by k bits if there are more than k left. */
  method ShiftBy(u: nat, r: nat, k: nat, p: nat, ghost u64: nat) returns (u': nat, r': nat)
    requires Shifted(u64, r, u) && p == Pow2(k) && 0 < p && u < p * p
    ensures Shifted(u64, r', u') && u' < p && r <= r' <= r + k && (0 < u ==> 0 < u') && (u == 0 ==> r' == r && u' == 0)
  {
    hide *;
    u', r' := u, r;
    if u >= p {
      DivBounds(u, p);
      ShiftMore(u64, r, u, k, p, u / p);
      u', r' := u / p, r + k;
    }
  }

  /** tor_log2. */
  method TorLog2(u64: nat) returns (r: nat)
    requires u64 < 0x1_0000_0000_0000_0000
    ensures r < 64
    ensures if u64 == 0 then r == 0 else Pow2(r) <= u64 < Pow2(r + 1)
  {
    Powers();
    hide Pow2;
    var u;
    u, r := ShiftBy(u64, 0, 32, 0x1_0000_0000, u64);
    u, r := ShiftBy(u, r, 16, 0x1_0000, u64);
    u, r := ShiftBy(u, r, 8, 0x100, u64);
    u, r := ShiftBy(u, r, 4, 0x10, u64);
    u, r := ShiftBy(u, r, 2, 4, u64);
    u, r := ShiftBy(u, r, 1, 2, u64);
    Pow2Adds(r, 1);
  }

  const SIZE_T: nat := 0x1_0000_0000_0000_0000
  const HALF: nat := 0x8000_0000_0000_0000

  /** 1 << k */
  method Shl(k: nat) returns (p: nat)
    ensures p == Pow2(k)
  {
    p := 1;
    for i := 0 to k
      invariant p == Pow2(i)
    {
      p := 2 * p;
    }
  }

  function Distance(a: int, b: int): nat {
    if a < b then b - a else a - b
  }

  /** p is the power of two nearest to u, the lower one of two equally near; 2 for zero. */
  ghost predicate NearestPower(u: nat, p: nat) {
    && (exists k: nat :: p == Pow2(k))
    && (u == 0 ==> p == 2)
    && (0 < u ==> forall j: nat {:trigger Pow2(j)} ::
            Distance(u, p) <= Distance(u, Pow2(j)) && (Distance(u, p) == Distance(u, Pow2(j)) ==> p <= Pow2(j)))
  }

  lemma NearestPowerIsUnique(u: nat, p: nat, q: nat)
    requires NearestPower(u, p) && NearestPower(u, q)
    ensures p == q
  {
    hide Pow2;
    var j: nat :| p == Pow2(j);
    var k: nat :| q == Pow2(k);
  }

  /** round_to_power_of_2, on the arguments for which its shifts are defined. */
  method RoundToPowerOf2(u64: nat) returns (p: nat, ghost k: nat)
    requires u64 < HALF
    ensures p == Pow2(k) && 1 <= p <= HALF && k < 64
    ensures NearestPower(u64, p)
    ensures 0 < u64 ==> p <= 2 * u64
  {
    var lg2 := TorLog2(u64);
    Pow2At63(u64, lg2);
    var low := Shl(lg2);
    var high := Shl(lg2 + 1);
    assert high == 2 * low;
    if high - u64 < (u64 - low) % SIZE_T {
      p, k := high, lg2 + 1;
    } else {
      p, k := low, lg2;
    }
    forall j: nat | 0 < u64
      ensures Distance(u64, p) <= Distance(u64, Pow2(j))
                && (Distance(u64, p) == Distance(u64, Pow2(j)) ==> p <= Pow2(j))
    {
      Nearest(u64, lg2, j);
    }
  }

  lemma Pow2At63(u: nat, r: nat)
    requires u < HALF && r < 64 && if u == 0 then r == 0 else Pow2(r) <= u
    ensures r < 63 && Pow2(r + 1) == 2 * Pow2(r) && 1 <= Pow2(r) && Pow2(r + 1) <= HALF
    ensures u == 0 ==> Pow2(r) == 1
  {
    Powers();
    Pow2Adds(63, 1);
    Pow2Grows(0, r);
    if r < 63 {
      Pow2Grows(r + 1, 63);
    }
  }

  lemma Nearest(u: nat, r: nat, j: nat)
    requires Pow2(r) <= u < Pow2(r + 1)
    ensures Pow2(j) <= Pow2(r) || Pow2(r + 1) <= Pow2(j)
  {
    if j <= r {
      Pow2Grows(j, r);
    } else {
      Pow2Grows(r + 1, j);
    }
  }

  const MAX_CHUNK: nat := 0x80_0000
  const MIN_CHUNK: nat := 4096
  const CHUNK_OVERHEAD: nat := 64
  const ALIGNMENT: nat := 8
  const INT_MAX: nat := 0x7fff_ffff

  /** Bytes for an item: the back pointer, at least a link behind it, rounded up to a pointer. */
  method AllocSize(itemSize: nat) returns (a: nat)
    requires itemSize < SIZE_T_CEILING
    ensures itemSize + 8 <= a < SIZE_T && 16 <= a && a % ALIGNMENT == 0
    ensures a == 16 || a < itemSize + 8 + ALIGNMENT
  {
    a := 8 + itemSize;
    if a < 16 {
      a := 16;
    }
    if a % ALIGNMENT != 0 {
      a := a + ALIGNMENT - a % ALIGNMENT;
    }
    if a < ALIGNMENT {
      a := ALIGNMENT;
    }
  }

  datatype Sizing = AssertFails | LoopsForever | Sized(itemAllocSize: nat, newChunkCapacity: nat)

  /** The largest item of which two fit into a chunk of half of the address space. */
  const TWO_FIT: nat := 0x4000_0000_0000_0000 - 40

  /** The largest item of which two and the overhead make up a sum that does not wrap around. */
  const SUM_FITS: nat := HALF - 48

  /** The arithmetic of mp_pool_new.  A chunk gets room for two items at least exactly when two
      items with the overhead fit below half of the address space; for larger items the doubling
      never ends, or the sum has wrapped around and the capacity is zero. */
  method NewPool(itemSize: nat, chunkCapacity: nat) returns (r: Sizing, ghost bytes: nat)
    requires 0 < itemSize && itemSize < SIZE_T && chunkCapacity < SIZE_T
    ensures r.AssertFails? <==> !Accepts(itemSize, chunkCapacity)
    ensures !r.AssertFails? ==> (r.Sized? && 2 <= r.newChunkCapacity <==> itemSize <= TWO_FIT)
    ensures !r.AssertFails? ==> (r.LoopsForever? <==> TWO_FIT < itemSize <= SUM_FITS)
    ensures r.Sized? && TWO_FIT < itemSize ==> r.newChunkCapacity == 0
    ensures r.Sized? ==>
              var (a, n) := (r.itemAllocSize, r.newChunkCapacity);
              && itemSize + 8 <= a && a % ALIGNMENT == 0 && (a == 16 || a < itemSize + 8 + ALIGNMENT)
              && n < INT_MAX && ChunkBytes(chunkCapacity, a, bytes)
              && a * n + CHUNK_OVERHEAD <= bytes < a * (n + 1) + CHUNK_OVERHEAD
  {
    bytes := 0;
    hide *;
    if !Accepts(itemSize, chunkCapacity) {
      return AssertFails, bytes;
    }
    Accepted(itemSize, chunkCapacity);
    var a := AllocSize(itemSize);
    SizeBounds(itemSize, a);
    WrappedSum(itemSize, chunkCapacity, a);
    var chunk := ChunkFor(chunkCapacity, a);
    if chunk == 0 {
      return LoopsForever, bytes;
    }
    bytes := chunk;
    var n := PerChunk(chunk, a);
    r := Sized(a, n);
  }

  /** mempool.c:387-395; zero stands for the loop that never ends. */
  method ChunkFor(chunkCapacity: nat, a: nat) returns (chunk: nat)
    requires 16 <= a && 2 * a + CHUNK_OVERHEAD < SIZE_T + 128 && chunkCapacity < SIZE_T_CEILING
    requires HALF < 2 * a + CHUNK_OVERHEAD ==> chunkCapacity <= 2
    ensures chunk == 0 <==> HALF < 2 * a + CHUNK_OVERHEAD < SIZE_T
    ensures chunk != 0 ==> ChunkBytes(chunkCapacity, a, chunk) && MIN_CHUNK <= chunk
    ensures chunk <= 0x200_0000 || chunk < 4 * a + 128
    ensures chunk != 0 ==> (2 * a + CHUNK_OVERHEAD <= chunk <==> 2 * a + CHUNK_OVERHEAD < SIZE_T)
  {
    hide Pow2, NearestPower, Doubled, ChunkBytes;
    var start, k := RoundToPowerOf2(if chunkCapacity > MAX_CHUNK then MAX_CHUNK else chunkCapacity);
    var need := TwoItems(a);
    var doubled := DoubleUpTo(start, k, need);
    if doubled == 0 {
      return 0;
    }
    DoubledAtLeast(start, need);
    chunk := if doubled < MIN_CHUNK then MIN_CHUNK else doubled;
    NeedIs(a, need);
    ChosenBytes(chunkCapacity, a, start, doubled, chunk);
  }

  lemma NeedIs(a: nat, need: nat)
    requires 2 * a + CHUNK_OVERHEAD < SIZE_T + 128
    requires need == if 2 * a + CHUNK_OVERHEAD < SIZE_T then 2 * a + CHUNK_OVERHEAD else 2 * a + CHUNK_OVERHEAD - SIZE_T
    ensures need == (2 * a + CHUNK_OVERHEAD) % SIZE_T
  {
  }

  lemma SizeBounds(itemSize: nat, a: nat)
    requires itemSize + 8 <= a && a % ALIGNMENT == 0 && (a == 16 || a < itemSize + 8 + ALIGNMENT)
    ensures 2 * a + CHUNK_OVERHEAD <= HALF <==> itemSize <= TWO_FIT
    ensures 2 * a + CHUNK_OVERHEAD < SIZE_T <==> itemSize <= SUM_FITS
  {
  }

  /** The assertions let items through for which the doubling never ends. */
  method NeverSized() returns (r: Sizing)
    ensures Accepts(TWO_FIT + 1, 0) && r.LoopsForever?
  {
    ghost var bytes;
    r, bytes := NewPool(TWO_FIT + 1, 0);
  }

  /** And others that get a chunk without room for one. */
  method SizedForNone() returns (r: Sizing)
    ensures Accepts(SUM_FITS + 1, 0) && r.Sized? && r.newChunkCapacity == 0
  {
    ghost var bytes;
    r, bytes := NewPool(SUM_FITS + 1, 0);
  }

  method TwoItems(a: nat) returns (need: nat)
    requires 2 * a + CHUNK_OVERHEAD < SIZE_T + 128
    ensures need == if 2 * a + CHUNK_OVERHEAD < SIZE_T then 2 * a + CHUNK_OVERHEAD else 2 * a + CHUNK_OVERHEAD - SIZE_T
  {
    need := (a * 2 + CHUNK_OVERHEAD) % SIZE_T;
  }

  method PerChunk(chunk: nat, a: nat) returns (n: nat)
    requires MIN_CHUNK <= chunk && 16 <= a
    ensures a * n + CHUNK_OVERHEAD <= chunk < a * (n + 1) + CHUNK_OVERHEAD
    ensures chunk <= 0x200_0000 || chunk < 4 * a + 128 ==> n < INT_MAX
    ensures 2 * a + CHUNK_OVERHEAD <= chunk <==> 2 <= n
  {
    ItemsPerChunk(chunk, a);
    n := (chunk - CHUNK_OVERHEAD) / a;
  }

  /** chunk is start, doubled until it is need at least and no further. */
  ghost predicate Doubled(start: nat, need: nat, chunk: nat) {
    need <= chunk && (chunk == start || chunk < 2 * need) && exists n: nat :: chunk == start * Pow2(n)
  }

  lemma DoubledIsUnique(start: nat, need: nat, c: nat, d: nat)
    requires 0 < start && Doubled(start, need, c) && Doubled(start, need, d)
    ensures c == d
  {
    var m: nat :| c == start * Pow2(m);
    var n: nat :| d == start * Pow2(n);
    DoubledOnce(start, need, c, d, m, n);
    DoubledOnce(start, need, d, c, n, m);
  }

  lemma DoubledOnce(start: nat, need: nat, c: nat, d: nat, m: nat, n: nat)
    requires 0 < start && c == start * Pow2(m) && d == start * Pow2(n)
    requires need <= c && (d == start || d < 2 * need)
    ensures n <= m
  {
    if m < n {
      Pow2Grows(m + 1, n);
      Pow2Adds(m, 1);
      Pow2Grows(0, m);
      Twice(start, Pow2(m), Pow2(n));
    }
  }

  lemma Twice(s: nat, p: nat, q: nat)
    requires 1 <= p && 2 * p <= q
    ensures 2 * (s * p) <= s * q && 2 * s <= s * q
  {
    MulMonotone(2 * p, q, s);
    MulMonotone(2, q, s);
  }

  /** The size of the chunks for a hint: the power of two nearest to it, capped at MAX_CHUNK; doubled
      until two items fit; MIN_CHUNK at least. */
  ghost predicate ChunkBytes(chunkCapacity: nat, a: nat, bytes: nat) {
    exists start: nat, chunk: nat :: Chosen(chunkCapacity, a, start, chunk, bytes)
  }

  ghost predicate Chosen(chunkCapacity: nat, a: nat, start: nat, chunk: nat, bytes: nat) {
    && NearestPower(if chunkCapacity > MAX_CHUNK then MAX_CHUNK else chunkCapacity, start)
    && Doubled(start, (2 * a + CHUNK_OVERHEAD) % SIZE_T, chunk)
    && bytes == if chunk < MIN_CHUNK then MIN_CHUNK else chunk
  }

  lemma ChosenBytes(chunkCapacity: nat, a: nat, start: nat, chunk: nat, bytes: nat)
    requires NearestPower(if chunkCapacity > MAX_CHUNK then MAX_CHUNK else chunkCapacity, start)
    requires Doubled(start, (2 * a + CHUNK_OVERHEAD) % SIZE_T, chunk)
    requires bytes == if chunk < MIN_CHUNK then MIN_CHUNK else chunk
    ensures ChunkBytes(chunkCapacity, a, bytes)
  {
    hide NearestPower, Doubled;
    assert Chosen(chunkCapacity, a, start, chunk, bytes);
  }

  lemma DoubledAtLeast(start: nat, need: nat)
    ensures forall chunk: nat | Doubled(start, need, chunk) :: need <= chunk && (chunk == start || chunk < 2 * need)
  {
  }

  /** That is one size. */
  lemma ChunkBytesUnique(chunkCapacity: nat, a: nat, b: nat, c: nat)
    requires ChunkBytes(chunkCapacity, a, b) && ChunkBytes(chunkCapacity, a, c)
    ensures b == c
  {
    hide NearestPower, Doubled;
    var s: nat, x: nat :| Chosen(chunkCapacity, a, s, x, b);
    var t: nat, y: nat :| Chosen(chunkCapacity, a, t, y, c);
    var cap := if chunkCapacity > MAX_CHUNK then MAX_CHUNK else chunkCapacity;
    NearestPowerIsUnique(cap, s, t);
    PowerIsPositive(cap, s);
    DoubledIsUnique(s, (2 * a + CHUNK_OVERHEAD) % SIZE_T, x, y);
  }

  lemma PowerIsPositive(u: nat, p: nat)
    requires NearestPower(u, p)
    ensures 0 < p
  {
  }

  /** Whole items of a bytes in one such chunk. */
  ghost predicate Fitted(chunkCapacity: nat, a: nat, n: nat) {
    exists bytes: nat :: ChunkBytes(chunkCapacity, a, bytes)
                           && a * n + CHUNK_OVERHEAD <= bytes < a * (n + 1) + CHUNK_OVERHEAD
  }

  /** The doubling loop of mp_pool_new (mempool.c:392-393); zero stands for its never ending. */
  method DoubleUpTo(start: nat, ghost k0: nat, need: nat) returns (chunk: nat)
    requires 0 < start == Pow2(k0) && k0 < 64 && need < SIZE_T
    ensures chunk == 0 <==> HALF < need && start < need
    ensures chunk != 0 ==> Doubled(start, need, chunk)
  {
    chunk := start;
    ghost var k := k0;
    Pow2AtMost(k);
    while chunk < need
      invariant k0 <= k < 64 && 0 < chunk == Pow2(k) <= HALF
      invariant chunk == start || chunk < 2 * need
      invariant start <= chunk
      decreases need - chunk
    {
      if chunk == HALF {
        return 0;
      }
      DoubleBelow(k);
      chunk, k := chunk * 2, k + 1;
    }
    Pow2Adds(k0, k - k0);
  }

  /** The assertions at the start of mp_pool_new. */
  predicate Accepts(itemSize: nat, chunkCapacity: nat)
    requires 0 < itemSize
  {
    itemSize < SIZE_T_CEILING && chunkCapacity < SIZE_T_CEILING && SIZE_T_CEILING / itemSize > chunkCapacity
  }

  lemma Accepted(itemSize: nat, chunkCapacity: nat)
    requires 0 < itemSize && Accepts(itemSize, chunkCapacity)
    ensures itemSize < SIZE_T_CEILING && chunkCapacity < SIZE_T_CEILING
              && (chunkCapacity + 1) * itemSize <= SIZE_T_CEILING
  {
    DivBounds(SIZE_T_CEILING, itemSize);
    MulMonotone(chunkCapacity + 1, SIZE_T_CEILING / itemSize, itemSize);
  }

  /** The sum in the loop condition wraps around only for a request without any capacity. */
  lemma WrappedSum(itemSize: nat, chunkCapacity: nat, a: nat)
    requires 0 < itemSize && Accepts(itemSize, chunkCapacity)
    requires a == 16 || a < itemSize + 8 + ALIGNMENT
    ensures 2 * a + CHUNK_OVERHEAD < SIZE_T + 128
    ensures HALF < 2 * a + CHUNK_OVERHEAD ==> chunkCapacity <= 2
    ensures SIZE_T <= 2 * a + CHUNK_OVERHEAD ==> chunkCapacity == 0
    ensures chunkCapacity < SIZE_T_CEILING
  {
    Accepted(itemSize, chunkCapacity);
    hide Accepts;
    if 0 < chunkCapacity {
      MulMonotone(2, chunkCapacity + 1, itemSize);
    }
    if 2 < chunkCapacity {
      MulMonotone(4, chunkCapacity + 1, itemSize);
    }
  }

  lemma ItemsPerChunk(chunk: nat, a: nat)
    requires MIN_CHUNK <= chunk && 16 <= a
    ensures var n := (chunk - CHUNK_OVERHEAD) / a;
            && a * n + CHUNK_OVERHEAD <= chunk < a * (n + 1) + CHUNK_OVERHEAD
            && (chunk <= 0x200_0000 || chunk < 4 * a + 128 ==> n < INT_MAX)
            && (2 * a + CHUNK_OVERHEAD <= chunk <==> 2 <= n)
  {
    var n := (chunk - CHUNK_OVERHEAD) / a;
    DivBounds(chunk - CHUNK_OVERHEAD, a);
    MulMonotone(16, a, n);
    if n < 2 {
      MulMonotone(n + 1, 2, a);
    } else {
      MulMonotone(2, n, a);
    }
    if chunk < 4 * a + 128 && INT_MAX <= n {
      MulMonotone(INT_MAX, n, a);
      assert false;
    }
  }

  lemma Pow2AtMost(k: nat)
    requires k < 64
    ensures Pow2(k) <= HALF
  {
    Powers();
    Pow2Adds(63, 1);
    Pow2Grows(k, 63);
  }

  lemma DoubleBelow(k: nat)
    requires k < 64 && Pow2(k) < HALF
    ensures k < 63 && 2 * Pow2(k) == Pow2(k + 1) <= HALF
  {
    Powers();
    Pow2Adds(63, 1);
    if k < 63 {
      Pow2Grows(k + 1, 63);
    }
  }
}
