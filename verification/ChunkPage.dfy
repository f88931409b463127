/** Pages of equal chunks in src/common/OpenBSD_malloc_Linux.c: malloc_make_chunks, malloc_bytes
    and free_bytes, for 4096-byte pages on a machine with 64-bit longs. */
module ChunkPage {
  import opened ChunkBits
  import opened Limits

  const MINSIZE: nat := 16

  /** 1 shifted left by j, for j up to malloc_pageshift. */
  function Power(j: nat): (p: nat)
    requires j <= 12
    ensures 0 < p
  {
    [1, 2, 4, 8, 16, 32, 64, 128, 256, 512, 1024, 2048, 4096][j]
  }

  /** The entries of page_dir that are used: 0 for malloc(0), else the log of the chunk size. */
  predicate IsBucket(j: nat) {
    j == 0 || 4 <= j <= 11
  }

  function Shift(j: nat): nat {
    if j == 0 then 4 else j
  }

  /** The distance between chunks. */
  function Unit(j: nat): nat
    requires IsBucket(j)
  {
    Power(Shift(j))
  }

  /** How many chunks there are room for on a page. */
  function Chunks(j: nat): nat
    requires IsBucket(j)
  {
    PAGE_SIZE / Unit(j)
  }

  /** The bitmap's length in words. */
  function WordsFor(j: nat): nat
    requires IsBucket(j)
  {
    (PAGE_SIZE / Power(j) + MALLOC_BITS - 1) / MALLOC_BITS
  }

  /** The length of a struct pginfo with that bitmap. */
  function AdminSize(j: nat): nat
    requires IsBucket(j)
  {
    32 - 8 + 8 * WordsFor(j)
  }

  /** Whether the struct pginfo lies on the page it describes. */
  predicate SelfHosted(j: nat)
    requires IsBucket(j)
  {
    j != 0 && Power(j) <= AdminSize(j) + AdminSize(j)
  }

  /** How many chunks the struct pginfo takes up. */
  function Stolen(j: nat): nat
    requires IsBucket(j)
  {
    if SelfHosted(j) then (AdminSize(j) + Unit(j) - 1) / Unit(j) else 0
  }

  function Total(j: nat): nat
    requires IsBucket(j)
  {
    if Stolen(j) <= Chunks(j) then Chunks(j) - Stolen(j) else 0
  }

  ghost predicate WellLaid(j: nat)
    requires IsBucket(j)
  {
    && Chunks(j) * Unit(j) == PAGE_SIZE && Chunks(j) <= 64 * WordsFor(j)
    && 2 <= Total(j) && Stolen(j) + Total(j) == Chunks(j)
    && (SelfHosted(j) ==> AdminSize(j) <= Stolen(j) * Unit(j))
    && 16 <= Unit(j)
  }

  lemma LaidNone()
    ensures WellLaid(0)
  {
    assert WordsFor(0) == 64;
  }

  lemma LaidTiny()
    ensures WellLaid(4)
  {
    assert AdminSize(4) == 56;
  }

  lemma LaidFive()
    ensures WellLaid(5)
  {
    assert WordsFor(5) == 2;
  }

  lemma LaidSix()
    ensures WellLaid(6)
  {
    assert WordsFor(6) == 1;
  }

  lemma LaidLarge(j: nat)
    requires 7 <= j <= 11
    ensures WellLaid(j)
  {
    assert AdminSize(j) == 32;
  }

  /** At least two chunks are left on every page, the struct pginfo lies within the stolen ones,
      and the bitmap has a bit for every chunk. */
  lemma Layout(j: nat)
    requires IsBucket(j)
    ensures Chunks(j) * Unit(j) == PAGE_SIZE && Chunks(j) <= 64 * WordsFor(j)
    ensures 2 <= Total(j) && Stolen(j) + Total(j) == Chunks(j)
    ensures SelfHosted(j) ==> AdminSize(j) <= Stolen(j) * Unit(j)
    ensures 16 <= Unit(j)
  {
    hide Chunks, Unit, WordsFor, Total, Stolen, SelfHosted, AdminSize;
    LaidNone();
    LaidTiny();
    LaidFive();
    LaidSix();
    if 7 <= j {
      LaidLarge(j);
    }
    assert WellLaid(j);
  }

  /** A chunk: the address of its page and its number there. */
  type ChunkId = (nat, nat)

  function Address(c: ChunkId, j: nat): nat
    requires IsBucket(j)
  {
    c.0 + c.1 * Unit(j)
  }

  /** What a page's counter and bitmap say when the chunks in `live` are handed out. */
  ghost predicate Tells(free: nat, bits: Bitmap, a: nat, j: nat, live: set<ChunkId>) {
    && IsBucket(j) && |bits| == WordsFor(j) && Chunks(j) <= 64 * |bits|
    && free == Count(bits, Chunks(j))
    && forall b | 0 <= b < Chunks(j) :: Bit(bits, b) <==> b >= Stolen(j) && (a, b) !in live
  }

  lemma TellsTake(free: nat, bits: Bitmap, a: nat, j: nat, live: set<ChunkId>, q: nat, k: nat)
    requires Tells(free, bits, a, j, live)
    requires q < |bits| && k < 64 && 64 * q + k < Chunks(j) && Bit(bits, 64 * q + k)
    ensures 1 <= free && Tells(free - 1, With(bits, q, k, false), a, j, live + {(a, 64 * q + k)})
    ensures Stolen(j) <= 64 * q + k && (a, 64 * q + k) !in live
  {
    hide Count, Bit, With, Chunks, Stolen, WordsFor, IsBucket;
    BitAt(bits, q, k);
    CountWith(bits, q, k, false, Chunks(j));
    forall b | 0 <= b < Chunks(j)
      ensures Bit(With(bits, q, k, false), b) <==> b >= Stolen(j) && (a, b) !in live + {(a, 64 * q + k)}
    {
      WithBit(bits, q, k, false, b);
    }
  }

  lemma TellsGive(free: nat, bits: Bitmap, a: nat, j: nat, live: set<ChunkId>, q: nat, k: nat)
    requires Tells(free, bits, a, j, live)
    requires q < |bits| && k < 64 && Stolen(j) <= 64 * q + k < Chunks(j) && !Bit(bits, 64 * q + k)
    ensures Tells(free + 1, With(bits, q, k, true), a, j, live - {(a, 64 * q + k)})
  {
    hide Count, Bit, With, Chunks, Stolen, WordsFor, IsBucket;
    BitAt(bits, q, k);
    CountWith(bits, q, k, true, Chunks(j));
    forall b | 0 <= b < Chunks(j)
      ensures Bit(With(bits, q, k, true), b) <==> b >= Stolen(j) && (a, b) !in live - {(a, 64 * q + k)}
    {
      WithBit(bits, q, k, true, b);
    }
  }

  lemma TellsOther(free: nat, bits: Bitmap, a: nat, j: nat, live: set<ChunkId>, c: ChunkId)
    requires Tells(free, bits, a, j, live) && c.0 != a
    ensures Tells(free, bits, a, j, live + {c}) && Tells(free, bits, a, j, live - {c})
  {
    hide Count, Bit, Chunks, Stolen, WordsFor, IsBucket;
  }

  /** All chunks are free exactly when none is handed out. */
  lemma AllFree(free: nat, bits: Bitmap, a: nat, j: nat, live: set<ChunkId>)
    requires Tells(free, bits, a, j, live)
    ensures free <= Total(j)
    ensures free == Total(j) <==> forall b | Stolen(j) <= b < Chunks(j) :: (a, b) !in live
  {
    Layout(j);
    hide Count, Bit, Chunks, Stolen, WordsFor, IsBucket, Total;
    CountFull(bits, Stolen(j), Chunks(j));
  }

  // ---------------------------------------------------------------------------------------------
  // The bitmap of a new page.

  /** Sets the first n bits; the words before hold whatever was in memory. */
  method SetBits(memory: Bitmap, n: nat) returns (bits: Bitmap)
    requires n <= 64 * |memory|
    ensures |bits| == |memory| && forall b | 0 <= b < n :: Bit(bits, b)
  {
    hide Bit, With;
    bits := memory;
    var i := 0;
    while n - i >= MALLOC_BITS
      invariant 0 <= i <= n && i % 64 == 0 && |bits| == |memory|
      invariant forall b | 0 <= b < i :: Bit(bits, b)
    {
      ghost var before := bits;
      bits := bits[i / 64 := seq(64, k => true)];
      WordSet(before, bits, i / 64);
      i := i + 64;
    }
    while i < n
      invariant 0 <= i <= n && |bits| == |memory|
      invariant forall b | 0 <= b < i :: Bit(bits, b)
    {
      ghost var before := bits;
      bits := With(bits, i / 64, i % 64, true);
      forall b | 0 <= b < i + 1 ensures Bit(bits, b) {
        WithBit(before, i / 64, i % 64, true, b);
      }
      i := i + 1;
    }
  }

  lemma WordSet(before: Bitmap, after: Bitmap, q: nat)
    requires q < |before| && |after| == |before| && after[q] == seq(64, k => true)
    requires forall i | 0 <= i < |before| && i != q :: after[i] == before[i]
    ensures forall b | 0 <= b < 64 * |before| :: Bit(after, b) == (64 * q <= b < 64 * q + 64 || Bit(before, b))
  {
  }

  /** Marks the chunks that hold the page's own struct pginfo. */
  method Steal(before: Bitmap, j: nat) returns (bits: Bitmap, stolen: nat)
    requires IsBucket(j) && |before| == WordsFor(j) && SelfHosted(j)
    requires forall b | 0 <= b < Chunks(j) && Chunks(j) <= 64 * |before| :: Bit(before, b)
    ensures stolen == Stolen(j) && |bits| == |before|
    ensures forall b | 0 <= b < Chunks(j) && Chunks(j) <= 64 * |bits| :: Bit(bits, b) <==> b >= stolen
  {
    Layout(j);
    StolenFits(j);
    hide Bit, With, Chunks, WordsFor, Stolen, IsBucket, AdminSize, Unit, SelfHosted, Total;
    bits, stolen := before, 0;
    var k: int := AdminSize(j);
    while k > 0
      invariant k == AdminSize(j) - stolen * Unit(j) && (k > 0 ==> stolen < Stolen(j)) && stolen <= Stolen(j)
      invariant |bits| == |before|
      invariant forall b | 0 <= b < Chunks(j) :: Bit(bits, b) <==> b >= stolen
      decreases k
    {
      ghost var was := bits;
      bits := With(bits, stolen / 64, stolen % 64, false);
      forall b | 0 <= b < Chunks(j) ensures Bit(bits, b) <==> b >= stolen + 1 {
        WithBit(was, stolen / 64, stolen % 64, false, b);
      }
      MoreStolen(j, stolen + 1);
      stolen := stolen + 1;
      k := k - Unit(j);
    }
    MoreStolen(j, stolen);
  }

  lemma StolenFits(j: nat)
    requires IsBucket(j) && SelfHosted(j)
    ensures 0 < Stolen(j) && 0 < AdminSize(j)
  {
    Layout(j);
  }

  /** Stolen is the number of units that cover the struct pginfo. */
  lemma MoreStolen(j: nat, m: nat)
    requires IsBucket(j) && SelfHosted(j)
    ensures m * Unit(j) < AdminSize(j) <==> m < Stolen(j)
  {
    Layout(j);
    hide Unit, AdminSize;
    Ceiling(AdminSize(j), Unit(j), m);
  }

  lemma Ceiling(n: nat, u: nat, m: nat)
    requires 0 < u
    ensures m * u < n <==> m < (n + u - 1) / u
  {
    var c := (n + u - 1) / u;
    CeilingBounds(n, u, c);
    if m < c {
      assert (m + 1) * u <= c * u;
    } else {
      assert c * u <= m * u;
    }
  }

  lemma CeilingBounds(n: nat, u: nat, c: nat)
    requires 0 < u && c == (n + u - 1) / u
    ensures n <= c * u < n + u
  {
    assert c * u <= n + u - 1 < (c + 1) * u;
  }
}
