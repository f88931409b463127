/** One entry of page_dir in src/common/OpenBSD_malloc_Linux.c: the pages that hold chunks of one
    size, and the list of those with room. */
module ChunkBucket {
  import opened ChunkBits
  import opened ChunkPage
  import opened Division
  import opened Limits
  import opened Sequences

  /** struct pginfo */
  class Page {
    const page: nat
    const size: nat
    const shift: nat
    var total: nat
    var free: nat
    var bits: Bitmap
    var next: Page?

    constructor (page: nat, size: nat, shift: nat, total: nat, bits: Bitmap, next: Page?)
      ensures this.page == page && this.size == size && this.shift == shift && this.next == next
      ensures this.total == this.free == total && this.bits == bits
    {
      this.page, this.size, this.shift := page, size, shift;
      this.total, this.free, this.bits, this.next := total, total, bits, next;
    }
  }

  // ---------------------------------------------------------------------------------------------
  // The list of pages with room.

  function NodeAt(list: seq<Page>, i: nat): Page? {
    if i < |list| then list[i] else null
  }

  ghost predicate Linked(list: seq<Page>, first: Page?)
    reads list`next
  {
    first == NodeAt(list, 0) && forall i: nat {:trigger list[i]} | i < |list| :: list[i].next == NodeAt(list, i + 1)
  }

  ghost function Inserted(list: seq<Page>, t: nat, p: Page): seq<Page>
    requires t <= |list|
  {
    list[..t] + [p] + list[t..]
  }

  lemma InsertedDistinct(list: seq<Page>, t: nat, p: Page)
    requires t <= |list| && Distinct(list) && p !in list
    ensures Distinct(Inserted(list, t, p))
    ensures forall q :: q in Inserted(list, t, p) <==> q in list || q == p
  {
    assert list == list[..t] + list[t..];
  }

  lemma RemovedDistinct(list: seq<Page>, t: nat)
    requires t < |list| && Distinct(list)
    ensures Distinct(Without(list, t))
    ensures forall q :: q in Without(list, t) <==> q in list && q != list[t]
  {
    assert list == list[..t] + [list[t]] + list[t + 1..];
  }

  /** Where a pointer to a list pointer points: at page_dir or at the next field of a page. */
  datatype Place = Head | After(p: Page)

  ghost predicate PlaceAt(list: seq<Page>, t: nat, mp: Place) {
    t <= |list| && mp == if t == 0 then Head else After(list[t - 1])
  }

  /** The links that Inserted asks for. */
  lemma InsertedLinks(list: seq<Page>, t: nat, info: Page, i: nat)
    requires t <= |list| && i <= |list|
    ensures var r := Inserted(list, t, info);
            && |r| == |list| + 1 && NodeAt(r, 0) == (if t == 0 then info else NodeAt(list, 0))
            && r[i] == (if i < t then list[i] else if i == t then info else list[i - 1])
            && NodeAt(r, i + 1) == if i + 1 < t then NodeAt(list, i + 1) else if i + 1 == t then info
               else NodeAt(list, i)
  {
  }

  /** `info->next = *mp; *mp = info` */
  method LinkIn(first: Page?, mp: Place, at: Page?, info: Page, ghost list: seq<Page>, ghost t: nat)
    returns (head: Page?)
    requires Linked(list, first) && Distinct(list) && info !in list && PlaceAt(list, t, mp) && at == NodeAt(list, t)
    modifies info`next, (set k | 0 <= k < |list| && k == t - 1 :: list[k])`next
    ensures Linked(Inserted(list, t, info), head)
  {
    hide Inserted, NodeAt;
    info.next := at;
    head := first;
    if mp.Head? {
      head := info;
    } else {
      mp.p.next := info;
    }
    ghost var r := Inserted(list, t, info);
    InsertedLinks(list, t, info, 0);
    forall i: nat | i < |r| ensures r[i].next == NodeAt(r, i + 1) {
      InsertedLinks(list, t, info, i);
    }
  }

  /** `*mp = info->next` */
  method LinkOut(first: Page?, mp: Place, info: Page, ghost list: seq<Page>, ghost t: nat) returns (head: Page?)
    requires Linked(list, first) && Distinct(list) && t < |list| && list[t] == info && PlaceAt(list, t, mp)
    modifies (set k | 0 <= k < |list| && k == t - 1 :: list[k])`next
    ensures Linked(Without(list, t), head)
  {
    head := first;
    if mp.Head? {
      head := info.next;
    } else {
      mp.p.next := info.next;
    }
    ghost var r := Without(list, t);
    forall i: nat | i < |r| ensures r[i].next == NodeAt(r, i + 1) {
      assert r[i] == list[if i < t then i else i + 1];
    }
  }

  /** The walk before an insertion, meant to stop in front of the first higher page. */
  method PlaceFor(first: Page?, info: Page, ghost list: seq<Page>) returns (mp: Place, at: Page?, ghost t: nat)
    requires Linked(list, first)
    ensures PlaceAt(list, t, mp) && at == NodeAt(list, t)
  {
    mp, at, t := Head, first, 0;
    while at != null && at.next != null && at.next.page < info.page
      invariant PlaceAt(list, t, mp) && at == NodeAt(list, t)
      decreases |list| - t
    {
      mp, at, t := After(at), at.next, t + 1;
    }
  }

  /** The walk to a page of the list. */
  method PlaceOf(first: Page?, info: Page, ghost list: seq<Page>) returns (mp: Place, ghost t: nat)
    requires Linked(list, first) && info in list
    ensures t < |list| && list[t] == info && PlaceAt(list, t, mp)
  {
    var at := first;
    mp, t := Head, 0;
    while at != info
      invariant PlaceAt(list, t, mp) && at == NodeAt(list, t) && info in list[t..]
      decreases |list| - t
    {
      mp, at, t := After(at), at.next, t + 1;
    }
  }

  /** free_bytes: puts a page into the list. */
  method InsertPage(first: Page?, info: Page, ghost list: seq<Page>) returns (head: Page?, ghost r: seq<Page>)
    requires Linked(list, first) && Distinct(list) && info !in list
    modifies info`next, list`next
    ensures Linked(r, head) && Distinct(r)
    ensures forall p :: p in r <==> p in list || p == info
  {
    hide Linked, Distinct, Inserted;
    var mp, at, t := PlaceFor(first, info, list);
    head := LinkIn(first, mp, at, info, list, t);
    InsertedDistinct(list, t, info);
    r := Inserted(list, t, info);
  }

  /** free_bytes: takes a page out of the list. */
  method RemovePage(first: Page?, info: Page, ghost list: seq<Page>) returns (head: Page?, ghost r: seq<Page>)
    requires Linked(list, first) && Distinct(list) && info in list
    modifies list`next
    ensures Linked(r, head) && Distinct(r)
    ensures forall p :: p in r <==> p in list && p != info
  {
    hide Linked, Distinct, Without;
    var mp, t := PlaceOf(first, info, list);
    head := LinkOut(first, mp, info, list, t);
    RemovedDistinct(list, t);
    r := Without(list, t);
  }

  // ---------------------------------------------------------------------------------------------
  // The books of a bucket: what its pages' fields say, as values.

  datatype State = State(free: nat, bits: Bitmap)

  /** The page directory and the fields of the pages in it. */
  ghost predicate Records(owner: map<nat, Page>, st: map<nat, State>, j: nat)
    reads owner.Values`total, owner.Values`free, owner.Values`bits
  {
    && st.Keys == owner.Keys && IsBucket(j)
    && forall a | a in owner ::
         && owner[a].page == a && a % PAGE_SIZE == 0
         && owner[a].shift == Shift(j) && owner[a].size == (if j == 0 then 0 else Unit(j)) && owner[a].total == Total(j)
         && owner[a].free == st[a].free && owner[a].bits == st[a].bits
  }

  /** Every bitmap agrees with the chunks handed out, and those lie behind the struct pginfo. */
  ghost predicate Agrees(st: map<nat, State>, live: set<ChunkId>, j: nat) {
    && IsBucket(j)
    && (forall a | a in st :: Tells(st[a].free, st[a].bits, a, j, live))
    && (forall c | c in live :: c.0 in st && Stolen(j) <= c.1 < Chunks(j))
  }

  /** The list holds exactly the pages with a free chunk. */
  ghost predicate Queued(list: seq<Page>, owner: map<nat, Page>, st: map<nat, State>) {
    && Distinct(list)
    && (forall p | p in list :: p.page in owner && owner[p.page] == p)
    && (forall a | a in owner && a in st :: owner[a].page == a && (st[a].free > 0 <==> owner[a] in list))
  }

  /** Every page, but for the excepted one, has a chunk in use. */
  ghost predicate InUse(st: map<nat, State>, j: nat, except: set<nat>)
    requires IsBucket(j)
  {
    forall a | a in st && a !in except :: st[a].free < Total(j)
  }

  ghost function Taken(s: State, q: nat, k: nat): State
    requires q < |s.bits| && k < 64 && 0 < s.free
  {
    State(s.free - 1, With(s.bits, q, k, false))
  }

  ghost function Given(s: State, q: nat, k: nat): State
    requires q < |s.bits| && k < 64
  {
    State(s.free + 1, With(s.bits, q, k, true))
  }

  lemma AgreesTake(st: map<nat, State>, live: set<ChunkId>, j: nat, a: nat, q: nat, k: nat)
    requires Agrees(st, live, j) && a in st && q < |st[a].bits| && k < 64
    requires 64 * q + k < Chunks(j) && Bit(st[a].bits, 64 * q + k)
    ensures 0 < st[a].free && (a, 64 * q + k) !in live
    ensures Agrees(st[a := Taken(st[a], q, k)], live + {(a, 64 * q + k)}, j)
  {
    hide Tells, Chunks, Stolen, IsBucket, With, Bit;
    var c := (a, 64 * q + k);
    TellsTake(st[a].free, st[a].bits, a, j, live, q, k);
    forall b | b in st && b != a ensures Tells(st[b].free, st[b].bits, b, j, live + {c}) {
      TellsOther(st[b].free, st[b].bits, b, j, live, c);
    }
  }

  lemma AgreesGive(st: map<nat, State>, live: set<ChunkId>, j: nat, a: nat, q: nat, k: nat)
    requires Agrees(st, live, j) && a in st && q < |st[a].bits| && k < 64
    requires Stolen(j) <= 64 * q + k < Chunks(j) && !Bit(st[a].bits, 64 * q + k)
    ensures Agrees(st[a := Given(st[a], q, k)], live - {(a, 64 * q + k)}, j)
  {
    hide Tells, Chunks, Stolen, IsBucket, With, Bit;
    var c := (a, 64 * q + k);
    TellsGive(st[a].free, st[a].bits, a, j, live, q, k);
    forall b | b in st && b != a ensures Tells(st[b].free, st[b].bits, b, j, live - {c}) {
      TellsOther(st[b].free, st[b].bits, b, j, live, c);
    }
  }

  /** `*lp ^= u; --bp->free` */
  method Take(bp: Page, q: nat, k: nat, ghost owner: map<nat, Page>, ghost st: map<nat, State>, ghost j: nat)
    requires Records(owner, st, j) && bp.page in owner && owner[bp.page] == bp
    requires q < |bp.bits| && k < 64 && 0 < bp.free
    modifies bp`bits, bp`free
    ensures Records(owner, st[bp.page := Taken(st[bp.page], q, k)], j)
  {
    hide With, Total, Unit, Shift;
    bp.bits := With(bp.bits, q, k, false);
    bp.free := bp.free - 1;
  }

  /** `info->bits[i / MALLOC_BITS] |= 1UL << (i % MALLOC_BITS); info->free++` */
  method Give(info: Page, q: nat, k: nat, ghost owner: map<nat, Page>, ghost st: map<nat, State>, ghost j: nat)
    requires Records(owner, st, j) && info.page in owner && owner[info.page] == info
    requires q < |info.bits| && k < 64
    modifies info`bits, info`free
    ensures Records(owner, st[info.page := Given(st[info.page], q, k)], j) && info.free == old(info.free) + 1
  {
    hide With, Total, Unit, Shift;
    info.bits := With(info.bits, q, k, true);
    info.free := info.free + 1;
  }

  /** `page_dir[j] = bp->next; bp->next = NULL`, if no chunk is left. */
  method DropIfFull(bp: Page, ghost list: seq<Page>, ghost owner: map<nat, Page>, ghost st: map<nat, State>,
                    ghost j: nat)
    returns (head: Page?)
    requires Linked(list, bp) && list != [] && Distinct(list) && Records(owner, st, j) && bp.page in owner
             && owner[bp.page] == bp
    modifies bp`next
    ensures Linked(if st[bp.page].free == 0 then list[1..] else list, head) && Records(owner, st, j)
  {
    head := bp;
    if bp.free == 0 {
      head := bp.next;
      bp.next := null;
      ghost var r := list[1..];
      forall i: nat | i < |r| ensures r[i].next == NodeAt(r, i + 1) {
        assert r[i] == list[i + 1] != list[0];
      }
    }
  }

  lemma StillQueued(list: seq<Page>, owner: map<nat, Page>, st: map<nat, State>, st': map<nat, State>, bp: Page)
    requires Queued(list, owner, st) && list != [] && list[0] == bp && st'.Keys == st.Keys && bp.page in st
    requires forall a | a in st && a != bp.page :: st'[a] == st[a]
    ensures Queued(if st'[bp.page].free == 0 then list[1..] else list, owner, st')
  {
    assert forall p | p in list :: p == bp || p in list[1..];
  }

  lemma StillInUse(st: map<nat, State>, st': map<nat, State>, j: nat, a: nat)
    requires IsBucket(j) && InUse(st, j, {a}) && st'.Keys == st.Keys && a in st && st'[a].free < st[a].free <= Total(j)
    requires forall b | b in st && b != a :: st'[b] == st[b]
    ensures InUse(st', j, {})
  {
  }

  /** The ghost side of a bucket: its list, its pages' fields, the chunks handed out. */
  datatype Books = Books(list: seq<Page>, st: map<nat, State>, live: set<ChunkId>)

  ghost predicate Consistent(first: Page?, owner: map<nat, Page>, g: Books, j: nat, except: set<nat>)
    reads owner.Values, g.list
  {
    && Linked(g.list, first) && Records(owner, g.st, j)
    && Queued(g.list, owner, g.st) && Agrees(g.st, g.live, j) && InUse(g.st, j, except)
  }

  lemma FirstFacts(bp: Page, owner: map<nat, Page>, g: Books, j: nat, except: set<nat>)
    requires Consistent(bp, owner, g, j, except)
    ensures g.list != [] && g.list[0] == bp && Distinct(g.list) && bp.page in owner && owner[bp.page] == bp
              && bp.page in g.st
    ensures 0 < bp.free == g.st[bp.page].free && g.st[bp.page].bits == bp.bits
    ensures Tells(bp.free, bp.bits, bp.page, j, g.live)
    ensures Chunks(j) <= 64 * |bp.bits| && bp.free == Count(bp.bits, Chunks(j))
  {
  }

  lemma FreeNumberFacts(bits: Bitmap, n: nat, r: nat, b: nat)
    requires IsFreeNumber(bits, n, r, b)
    ensures b < n <= 64 * |bits| && Bit(bits, b)
  {
  }

  ghost function Served(g: Books, a: nat, q: nat, k: nat): Books
    requires a in g.st && q < |g.st[a].bits| && k < 64 && 0 < g.st[a].free && g.list != []
  {
    var st := g.st[a := Taken(g.st[a], q, k)];
    Books(if st[a].free == 0 then g.list[1..] else g.list, st, g.live + {(a, 64 * q + k)})
  }

  /** malloc_bytes from the bitmap search on: hands out a chunk of the first page. */
  method TakeChunk(bp: Page, guard: bool, random: nat, j: nat, ghost owner: map<nat, Page>, ghost g: Books)
    returns (c: ChunkId, head: Page?, ghost g': Books)
    requires Consistent(bp, owner, g, j, {bp.page})
    modifies bp`bits, bp`free, bp`next
    ensures Consistent(head, owner, g', j, {})
    ensures c !in g.live && g'.live == g.live + {c} && c.0 == bp.page
    ensures old(bp.free) > 0 && IsFreeNumber(old(bp.bits), Chunks(j), if guard then random % old(bp.free) else 0, c.1)
  {
    hide Tells, Chunks, Stolen, IsBucket, With, Bit, Count, Total, IsFreeNumber, Unit, Shift, Linked, Distinct,
         Queued, Agrees, Records, InUse;
    ghost var a := bp.page;
    FirstFacts(bp, owner, g, j, {a});
    var q, k := FindFree(bp.bits, Chunks(j), bp.free, guard, random);
    c := (bp.page, 64 * q + k);
    FreeNumberFacts(bp.bits, Chunks(j), if guard then random % bp.free else 0, c.1);
    AgreesTake(g.st, g.live, j, a, q, k);
    AllFree(bp.free, bp.bits, a, j, g.live);
    g' := Served(g, a, q, k);
    StillQueued(g.list, owner, g.st, g'.st, bp);
    StillInUse(g.st, g'.st, j, a);
    Take(bp, q, k, owner, g.st, j);
    head := DropIfFull(bp, g.list, owner, g'.st, j);
  }

  // ---------------------------------------------------------------------------------------------
  // free_bytes.

  datatype FreeResult = Freed | ModifiedPointer | AlreadyFree

  /** Chunk number and alignment of a pointer. */
  function NumberOf(ptr: nat, j: nat): nat
    requires IsBucket(j)
  {
    ptr % PAGE_SIZE / Unit(j)
  }

  /** A pointer passes the alignment check exactly when it is the address of a chunk. */
  lemma PointerIsChunk(ptr: nat, j: nat)
    requires IsBucket(j)
    ensures NumberOf(ptr, j) < Chunks(j) && Power(Shift(j)) == Unit(j) > 0
    ensures ptr % Unit(j) == 0 <==> ptr == Address((ptr - ptr % PAGE_SIZE, NumberOf(ptr, j)), j)
  {
    hide Power;
    Layout(j);
    var u, n, r := Unit(j), Chunks(j), ptr % PAGE_SIZE;
    Aligned(ptr, ptr / PAGE_SIZE, r, u, n);
    assert ptr == ptr / PAGE_SIZE * PAGE_SIZE + r;
    InsidePage(r, u, n);
  }

  lemma InsidePage(r: nat, u: nat, n: nat)
    requires 0 < u && r < n * u
    ensures r / u < n
  {
    var q := r / u;
    assert q * u <= r;
    assert n <= q ==> n * u <= q * u;
  }

  lemma Aligned(ptr: nat, a: nat, r: nat, u: nat, n: nat)
    requires 0 < u && ptr == a * (n * u) + r
    ensures ptr % u == 0 <==> r == r / u * u
  {
    var q, m := r / u, r % u;
    assert r == q * u + m;
    assert a * (n * u) == (a * n) * u;
    assert ptr == (a * n + q) * u + m by {
      assert (a * n + q) * u == (a * n) * u + q * u;
    }
    QuotientIs(ptr, u, a * n + q, m);
  }

  lemma QueuedInsert(list: seq<Page>, r: seq<Page>, owner: map<nat, Page>, st: map<nat, State>, st': map<nat, State>,
                     info: Page)
    requires Queued(list, owner, st) && Distinct(r) && st'.Keys == st.Keys
    requires info.page in owner && owner[info.page] == info && info.page in st && st'[info.page].free > 0
    requires forall p :: p in r <==> p in list || p == info
    requires forall a | a in st && a != info.page :: st'[a] == st[a]
    ensures Queued(r, owner, st')
  {
  }

  lemma QueuedStay(list: seq<Page>, owner: map<nat, Page>, st: map<nat, State>, st': map<nat, State>, info: Page)
    requires Queued(list, owner, st) && st'.Keys == st.Keys
    requires info.page in owner && owner[info.page] == info && info.page in st && st[info.page].free > 0
             && st'[info.page].free > 0
    requires forall a | a in st && a != info.page :: st'[a] == st[a]
    ensures Queued(list, owner, st') && info in list
  {
  }

  lemma QueuedRemove(list: seq<Page>, r: seq<Page>, owner: map<nat, Page>, st: map<nat, State>, info: Page)
    requires Queued(list, owner, st) && Distinct(r) && info.page in owner && owner[info.page] == info
    requires forall p :: p in r <==> p in list && p != info
    ensures Queued(r, owner - {info.page}, st - {info.page})
  {
  }

  lemma AgreesRemove(st: map<nat, State>, live: set<ChunkId>, j: nat, a: nat)
    requires Agrees(st, live, j) && forall b | Stolen(j) <= b < Chunks(j) :: (a, b) !in live
    ensures Agrees(st - {a}, live, j)
  {
    hide Tells, Stolen, Chunks;
  }

  lemma RecordsRemove(owner: map<nat, Page>, st: map<nat, State>, j: nat, a: nat)
    requires Records(owner, st, j)
    ensures Records(owner - {a}, st - {a}, j)
  {
  }

  lemma InUseKeeps(st: map<nat, State>, st': map<nat, State>, j: nat, a: nat)
    requires IsBucket(j) && InUse(st, j, {}) && st'.Keys == st.Keys && a in st
    requires forall b | b in st && b != a :: st'[b] == st[b]
    ensures InUse(st', j, {a}) && InUse(st' - {a}, j, {})
    ensures st'[a].free < Total(j) ==> InUse(st', j, {})
  {
  }

  /** What free_bytes has to know about the page it is given. */
  lemma InfoFacts(first: Page?, owner: map<nat, Page>, g: Books, j: nat, a: nat)
    requires Consistent(first, owner, g, j, {}) && a in owner
    ensures owner[a].page == a && a in g.st && owner[a].bits == g.st[a].bits && owner[a].free == g.st[a].free
    ensures Tells(g.st[a].free, g.st[a].bits, a, j, g.live) && Chunks(j) <= 64 * |owner[a].bits|
    ensures owner[a].shift == Shift(j) && owner[a].total == Total(j) && Distinct(g.list)
    ensures g.st[a].free == 0 <==> owner[a] !in g.list
  {
  }

  lemma TellsBit(free: nat, bits: Bitmap, a: nat, j: nat, live: set<ChunkId>, b: nat)
    requires Tells(free, bits, a, j, live) && Stolen(j) <= b < Chunks(j)
    ensures b < 64 * |bits| && (Bit(bits, b) <==> (a, b) !in live)
  {
  }

  /** The chunk numbers of page a that are handed out. */
  ghost predicate PageIdle(live: set<ChunkId>, a: nat) {
    forall c | c in live :: c.0 != a
  }

  lemma IdleIffAllFree(st: map<nat, State>, live: set<ChunkId>, j: nat, a: nat)
    requires Agrees(st, live, j) && a in st
    ensures st[a].free <= Total(j) && (PageIdle(live, a) <==> st[a].free == Total(j))
    ensures PageIdle(live, a) ==> Agrees(st - {a}, live, j)
  {
    hide Tells, Stolen, Chunks, IsBucket, Total;
    AllFree(st[a].free, st[a].bits, a, j, live);
    if forall b | Stolen(j) <= b < Chunks(j) :: (a, b) !in live {
      AgreesRemove(st, live, j, a);
    }
  }

  /** The rest of free_bytes once the chunk's bit has been seen to be clear. */
  method GiveBack(first: Page?, info: Page, q: nat, k: nat, j: nat, ghost owner: map<nat, Page>, ghost g: Books)
    returns (head: Page?, released: bool, ghost g': Books)
    requires Consistent(first, owner, g, j, {}) && info.page in owner && owner[info.page] == info
    requires q < |info.bits| && k < 64 && Stolen(j) <= 64 * q + k < Chunks(j) && !Bit(info.bits, 64 * q + k)
    modifies info`bits, info`free, info`next, g.list`next
    ensures g'.live == g.live - {(info.page, 64 * q + k)} && (released <==> PageIdle(g'.live, info.page))
    ensures Consistent(head, if released then owner - {info.page} else owner, g', j, {})
  {
    hide Tells, Chunks, Stolen, With, Bit, Count, Unit, Shift, Linked, Distinct, Queued, Agrees, Records, InUse,
         Total, PageIdle;
    ghost var a := info.page;
    InfoFacts(first, owner, g, j, a);
    Layout(j);
    ghost var st' := g.st[a := Given(g.st[a], q, k)];
    ghost var live' := g.live - {(a, 64 * q + k)};
    AgreesGive(g.st, g.live, j, a, q, k);
    IdleIffAllFree(st', live', j, a);
    InUseKeeps(g.st, st', j, a);
    Give(info, q, k, owner, g.st, j);
    head, released := first, false;
    if info.free == 1 {
      ghost var r;
      head, r := InsertPage(first, info, g.list);
      QueuedInsert(g.list, r, owner, g.st, st', info);
      g' := Books(r, st', live');
      return;
    }
    QueuedStay(g.list, owner, g.st, st', info);
    if info.free != info.total {
      g' := Books(g.list, st', live');
      return;
    }
    ghost var r;
    head, r := RemovePage(first, info, g.list);
    QueuedRemove(g.list, r, owner, st', info);
    RecordsRemove(owner, st', j, a);
    released := true;
    g' := Books(r, st' - {a}, live');
  }

  /** free_bytes on a pointer into a page of the bucket, but not into its struct pginfo.  A page
      leaves the bucket exactly when no chunk of it is in use any more. */
  method FreeChunk(first: Page?, ptr: nat, info: Page, j: nat, ghost owner: map<nat, Page>, ghost g: Books)
    returns (result: FreeResult, head: Page?, released: bool, ghost g': Books)
    requires Consistent(first, owner, g, j, {})
    requires var a := ptr - ptr % PAGE_SIZE; a in owner && owner[a] == info
    requires Stolen(j) <= NumberOf(ptr, j)
    modifies info`bits, info`free, info`next, g.list`next
    ensures info.page == ptr - ptr % PAGE_SIZE
    ensures var c := (info.page, NumberOf(ptr, j));
            && (result == ModifiedPointer <==> ptr != Address(c, j))
            && (result == AlreadyFree <==> ptr == Address(c, j) && c !in g.live)
            && (result != Freed ==> head == first && !released && g' == g)
            && (result == Freed ==> g'.live == g.live - {c} && (released <==> PageIdle(g'.live, info.page)))
    ensures Consistent(head, if released then owner - {info.page} else owner, g', j, {})
  {
    hide Tells, Chunks, Stolen, Bit, Unit, Shift, Consistent, NumberOf, Address, PageIdle;
    ghost var a := ptr - ptr % PAGE_SIZE;
    InfoFacts(first, owner, g, j, a);
    PointerIsChunk(ptr, j);
    head, released, g' := first, false, g;
    ShiftRange(j);
    var i := ptr % PAGE_SIZE / Power(info.shift);
    NumberIs(ptr, j);
    if ptr % Power(info.shift) != 0 {
      return ModifiedPointer, head, released, g';
    }
    TellsBit(g.st[a].free, g.st[a].bits, a, j, g.live, i);
    if Bit(info.bits, i) {
      return AlreadyFree, head, released, g';
    }
    result := Freed;
    head, released, g' := GiveBack(first, info, i / 64, i % 64, j, owner, g);
  }

  lemma ShiftRange(j: nat)
    requires IsBucket(j)
    ensures Shift(j) <= 12 && Power(Shift(j)) == Unit(j)
  {
  }

  lemma NumberIs(ptr: nat, j: nat)
    requires IsBucket(j) && Unit(j) > 0
    ensures NumberOf(ptr, j) == ptr % PAGE_SIZE / Unit(j)
  {
  }

  // ---------------------------------------------------------------------------------------------
  // malloc_make_chunks, and the operations on an entry of page_dir.

  /** The bitmap of a new page; `memory` is what stood there before. */
  method NewBitmap(j: nat, memory: Bitmap) returns (bits: Bitmap, total: nat)
    requires IsBucket(j) && |memory| == WordsFor(j)
    ensures total == Total(j) && forall a, live | PageIdle(live, a) :: Tells(total, bits, a, j, live)
  {
    hide Bit, Chunks, WordsFor, Stolen, AdminSize, Unit, SelfHosted, Count, Total, Power;
    Layout(j);
    bits := SetBits(memory, Chunks(j));
    total := Chunks(j);
    if SelfHosted(j) {
      var stolen;
      bits, stolen := Steal(bits, j);
      total := total - stolen;
    } else {
      NothingStolen(j);
    }
    CountFull(bits, Stolen(j), Chunks(j));
  }

  lemma NothingStolen(j: nat)
    requires IsBucket(j) && !SelfHosted(j)
    ensures Stolen(j) == 0
  {
  }

  lemma LiveIdle(st: map<nat, State>, live: set<ChunkId>, j: nat, a: nat)
    requires Agrees(st, live, j) && a !in st
    ensures PageIdle(live, a)
  {
  }

  /** malloc_make_chunks once it has its memory: an entirely free page becomes the first. */
  method MakeChunks(a: nat, memory: Bitmap, j: nat, ghost owner: map<nat, Page>, ghost g: Books)
    returns (bp: Page, ghost g': Books)
    requires Consistent(null, owner, g, j, {}) && a !in owner && a % PAGE_SIZE == 0 && |memory| == WordsFor(j)
    ensures fresh(bp) && bp.page == a && g'.live == g.live
    ensures Consistent(bp, owner[a := bp], g', j, {a})
  {
    hide Bit, Chunks, WordsFor, Stolen, Count, Total, Power, Tells, PageIdle, Unit;
    var bits, total := NewBitmap(j, memory);
    LiveIdle(g.st, g.live, j, a);
    bp := new Page(a, if j == 0 then 0 else Unit(j), Shift(j), total, bits, null);
    ghost var st' := g.st[a := State(total, bits)];
    Layout(j);
    assert g.list == [];
    assert Agrees(st', g.live, j);
    g' := Books([bp], st', g.live);
  }

  /** An address that may be NULL. */
  datatype Pointer = Null | At(address: nat)

  class Bucket {
    const j: nat
    var first: Page?
    /** The entries of the page directory that point to pages of this bucket. */
    var owner: map<nat, Page>
    ghost var g: Books

    /** The list holds exactly the pages with a free chunk; every page has one in use; counters
        and bitmaps agree with the chunks handed out. */
    ghost predicate Valid()
      reads this, owner.Values, g.list
    {
      Consistent(first, owner, g, j, {})
    }

    constructor (j: nat)
      requires IsBucket(j)
      ensures Valid() && this.j == j && owner == map[] && g.live == {}
    {
      this.j := j;
      first, owner, g := null, map[], Books([], map[], {});
    }

    /** malloc_bytes.  A page from malloc_pages, memory for the struct pginfo and mprotect may
        fail. */
    method Malloc(page: Pointer, header: bool, protects: bool, memory: Bitmap, guard: bool, random: nat)
      returns (r: Pointer, ghost c: ChunkId)
      requires Valid() && |memory| == WordsFor(j)
      requires page.At? ==> page.address !in owner && page.address % PAGE_SIZE == 0
      modifies this, if first == null then {} else {first}
      ensures Valid()
      ensures r == Null <==>
                old(first) == null && (page == Null || (!SelfHosted(j) && !header) || (j == 0 && !protects))
      ensures r == Null ==> g == old(g) && owner == old(owner)
      ensures r != Null ==>
                && c !in old(g.live) && g.live == old(g.live) + {c} && r == At(Address(c, j))
                && c.0 in owner && c.0 % PAGE_SIZE == 0 && Stolen(j) <= c.1 < Chunks(j)
                && (if old(first) == null then c.0 == page.address && owner.Keys == old(owner.Keys) + {c.0}
                    else owner == old(owner))
      ensures fresh(owner.Values - old(owner.Values))
    {
      hide Consistent, SelfHosted, Stolen, Chunks, Address;
      IsABucket();
      var bp := first;
      ghost var books := g;
      if bp == null {
        if page == Null || (!SelfHosted(j) && !header) {
          return Null, (0, 0);
        }
        if j == 0 && !protects {
          return Null, (0, 0);
        }
        bp, books := MakeChunks(page.address, memory, j, owner, books);
        owner := owner[page.address := bp];
      } else {
        MoreExcept(first, owner, g, j, bp.page);
      }
      var head, chunk;
      chunk, head, books := TakeChunk(bp, guard, random, j, owner, books);
      first, g := head, books;
      c := chunk;
      LivePlaced(first, owner, g, j, c);
      r := At(Address(chunk, j));
    }

    /** What Valid() says about the pages. */
    lemma PageFacts()
      requires Valid()
      ensures IsBucket(j) && (forall a | a in owner :: owner[a].page == a && a % PAGE_SIZE == 0)
      ensures (forall p | p in g.list :: p in owner.Values) && (first != null ==> first in owner.Values)
      ensures forall c | c in g.live :: c.0 in owner && Stolen(j) <= c.1 < Chunks(j)
    {
      ListedOwned(first, owner, g, j);
      hide Tells, Stolen, Chunks, Total, Unit;
    }

    lemma IsABucket()
      requires Valid()
      ensures IsBucket(j)
    {
    }

    /** free_bytes by way of the page directory. */
    method Free(ptr: nat) returns (result: FreeResult, released: bool)
      requires Valid() && ptr - ptr % PAGE_SIZE in owner && Stolen(j) <= NumberOf(ptr, j)
      modifies this, owner.Values
      ensures Valid()
      ensures var c := (ptr - ptr % PAGE_SIZE, NumberOf(ptr, j));
              && (result == ModifiedPointer <==> ptr != Address(c, j))
              && (result == AlreadyFree <==> ptr == Address(c, j) && c !in old(g.live))
              && (result != Freed ==> !released && g == old(g))
              && (result == Freed ==> g.live == old(g.live) - {c} && (released <==> PageIdle(g.live, c.0)))
              && owner == if released then old(owner) - {c.0} else old(owner)
    {
      hide Consistent, Stolen, NumberOf, Address, PageIdle;
      var a := ptr - ptr % PAGE_SIZE;
      ListedOwned(first, owner, g, j);
      var head;
      ghost var books;
      result, head, released, books := FreeChunk(first, ptr, owner[a], j, owner, g);
      first, g := head, books;
      if released {
        owner := owner - {a};
      }
    }
  }

  lemma MoreExcept(first: Page?, owner: map<nat, Page>, g: Books, j: nat, a: nat)
    requires Consistent(first, owner, g, j, {})
    ensures Consistent(first, owner, g, j, {a})
  {
  }

  lemma LivePlaced(first: Page?, owner: map<nat, Page>, g: Books, j: nat, c: ChunkId)
    requires Consistent(first, owner, g, j, {}) && c in g.live
    ensures c.0 in owner && c.0 % PAGE_SIZE == 0 && Stolen(j) <= c.1 < Chunks(j)
  {
    hide Tells, Stolen, Chunks, Total, Unit;
  }

  lemma ListedOwned(first: Page?, owner: map<nat, Page>, g: Books, j: nat)
    requires Consistent(first, owner, g, j, {})
    ensures IsBucket(j) && forall p | p in g.list :: p in owner.Values
  {
    hide Tells, Stolen, Chunks, Total, Unit;
    forall p | p in g.list ensures p in owner.Values {
      assert owner[p.page] == p;
    }
  }

  /** A chunk lies inside its page, behind the struct pginfo if that is there. */
  lemma ChunkInside(c: ChunkId, j: nat)
    requires IsBucket(j) && Stolen(j) <= c.1 < Chunks(j)
    ensures Address(c, j) + Unit(j) <= c.0 + PAGE_SIZE
    ensures c.0 + (if SelfHosted(j) then AdminSize(j) else 0) <= Address(c, j)
  {
    Layout(j);
    hide Unit, Chunks, Stolen, AdminSize, SelfHosted;
    Scale(c.1 + 1, Chunks(j), Unit(j));
    Scale(Stolen(j), c.1, Unit(j));
  }

  lemma Scale(a: nat, b: nat, u: nat)
    requires a <= b
    ensures a * u <= b * u && (a + 1) * u == a * u + u
  {
  }

  /** Different chunks do not overlap. */
  lemma ChunksApart(c: ChunkId, d: ChunkId, j: nat)
    requires IsBucket(j) && Stolen(j) <= c.1 < Chunks(j) && Stolen(j) <= d.1 < Chunks(j)
    requires c.0 % PAGE_SIZE == 0 && d.0 % PAGE_SIZE == 0 && c != d
    ensures Address(c, j) + Unit(j) <= Address(d, j) || Address(d, j) + Unit(j) <= Address(c, j)
  {
    hide Chunks, Stolen, Unit, Address, SelfHosted, AdminSize, IsBucket;
    ChunkInside(c, j);
    ChunkInside(d, j);
    PagesApart(c.0, d.0);
    PagesApart(d.0, c.0);
    Earlier(c, d, j);
    Earlier(d, c, j);
  }

  lemma PagesApart(a: nat, b: nat)
    requires a % 4096 == 0 && b % 4096 == 0
    ensures a < b ==> a + 4096 <= b
  {
  }

  lemma Earlier(c: ChunkId, d: ChunkId, j: nat)
    requires IsBucket(j)
    ensures c.0 == d.0 && c.1 < d.1 ==> Address(c, j) + Unit(j) <= Address(d, j)
    ensures c.0 < d.0 ==> Address(d, j) >= d.0
  {
    hide Unit;
    if c.1 < d.1 {
      Scale(c.1 + 1, d.1, Unit(j));
      Scale(c.1, d.1, Unit(j));
    }
  }

  /** Bucket j has the smallest chunks that hold the request. */
  predicate Suits(request: nat, j: nat) {
    IsBucket(j) && (request == 0 <==> j == 0) && request <= Unit(j) && (j > 4 ==> Unit(j) < 2 * request)
  }

  lemma SuitsOne(request: nat, j: nat, k: nat)
    requires Suits(request, j) && Suits(request, k)
    ensures j == k
  {
    if 4 <= j < k {
      UnitsGrow(j, k);
    } else if 4 <= k < j {
      UnitsGrow(k, j);
    }
  }

  lemma UnitsGrow(j: nat, k: nat)
    requires 4 <= j < k <= 11
    ensures 2 * Unit(j) <= Unit(k)
    decreases k
  {
    Doubles(k - 1);
    if j < k - 1 {
      UnitsGrow(j, k - 1);
    }
    hide Power;
  }

  /** The bucket that malloc_bytes picks. */
  method BucketOf(request: nat) returns (j: nat)
    requires request <= 2048
    ensures Suits(request, j)
    ensures request > MINSIZE ==> Unit(j) < 2 * request
  {
    hide Power, Unit;
    Powers();
    var size := request;
    if size != 0 && size < MINSIZE {
      size := MINSIZE;
    }
    if size == 0 {
      j := 0;
    } else {
      j := 1;
      var ii: nat := (size - 1) / 2;
      while ii != 0
        invariant 1 <= j <= 11 && ii == (size - 1) / Power(j)
        invariant j > 1 ==> Power(j - 1) <= size - 1
        decreases ii
      {
        Halve(size - 1, j);
        ii := ii / 2;
        j := j + 1;
      }
      Fits(size - 1, j);
      LogRange(size, j);
    }
  }

  lemma Powers()
    ensures Power(1) == 2 && Unit(0) == 16
  {
  }

  /** One round of `ii >>= 1`. */
  lemma Halve(x: nat, j: nat)
    requires 1 <= j <= 11 && x < 2048 && x / Power(j) != 0
    ensures j < 11 && Power(j) <= x && x / Power(j) / 2 == x / Power(j + 1)
  {
    Doubles(j);
    hide Power;
    Quotients(x, Power(j));
    Fits(x, j);
  }

  lemma Doubles(j: nat)
    requires 1 <= j <= 11
    ensures Power(j + 1) == 2 * Power(j) && 0 < Power(j) && (j == 11 ==> Power(j) == 2048)
  {
  }

  lemma Quotients(x: nat, u: nat)
    requires 0 < u
    ensures x / u / 2 == x / (2 * u)
  {
    var q, r := x / u, x % u;
    assert x == q * u + r;
    var h, m := q / 2, q % 2;
    assert x == h * (2 * u) + (m * u + r) by {
      assert q * u == (2 * h + m) * u == h * (2 * u) + m * u;
    }
    assert m * u + r < 2 * u by {
      assert m == 0 || m == 1;
    }
    QuotientIs(x, 2 * u, h, m * u + r);
  }

  lemma Fits(x: nat, j: nat)
    requires 1 <= j <= 11
    ensures x / Power(j) == 0 <==> x < Power(j)
  {
    Doubles(j);
    hide Power;
    var u := Power(j);
    assert x == x / u * u + x % u;
  }

  lemma LogRange(size: nat, j: nat)
    requires 16 <= size && 1 <= j <= 11 && size - 1 < Power(j) && (j > 1 ==> Power(j - 1) <= size - 1)
    ensures 4 <= j && Unit(j) == Power(j) && size <= Unit(j) && (size > 16 ==> Unit(j) < 2 * size)
              && (j > 4 ==> size > 16)
  {
  }
}
