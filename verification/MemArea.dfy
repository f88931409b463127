/** The arena allocator of src/common/memarea.c, for 8-byte pointers. */
module MemArea {
  import opened Limits
  import opened Sequences

  const ALIGN: nat := 8
  const HEADER: nat := 24
  const SENTINEL_LEN: nat := 4
  const CHUNK_SIZE: nat := 4096
  const MAX_FREELIST_LEN: nat := 4

  /** realign_pointer */
  function Realign(x: nat): (r: nat)
    ensures x <= r < x + ALIGN && r % ALIGN == 0
  {
    (x + ALIGN - 1) / ALIGN * ALIGN
  }

  /** memarea_chunk_t; mem is the address of u.mem. */
  class Chunk {
    const mem: nat
    const memSize: nat
    var nextMem: nat
    var nextChunk: Chunk?

    constructor (mem: nat, memSize: nat)
      ensures this.mem == mem && this.memSize == memSize && nextMem == mem && nextChunk == null
    {
      this.mem, this.memSize, nextMem, nextChunk := mem, memSize, mem, null;
    }
  }

  // ---------------------------------------------------------------------------------------------
  // Lists of chunks.

  function NodeAt(s: seq<Chunk>, i: nat): Chunk? {
    if i < |s| then s[i] else null
  }

  ghost predicate Stack(first: Chunk?, s: seq<Chunk>)
    reads s`nextChunk
  {
    first == NodeAt(s, 0) && forall i: nat {:trigger s[i]} | i < |s| :: s[i].nextChunk == NodeAt(s, i + 1)
  }

  /** A chunk goes on top. */
  method PushTop(c: Chunk, first: Chunk?, ghost s: seq<Chunk>)
    requires Stack(first, s) && c !in s
    modifies c`nextChunk
    ensures Stack(c, [c] + s)
  {
    c.nextChunk := first;
    ghost var r := [c] + s;
    forall i: nat | i < |r| ensures r[i].nextChunk == NodeAt(r, i + 1) {
      assert i > 0 ==> r[i] == s[i - 1];
    }
  }

  /** A chunk goes behind the top one. */
  method PushSecond(c: Chunk, top: Chunk, ghost s: seq<Chunk>)
    requires Stack(top, s) && Distinct(s) && c !in s && s != []
    modifies c`nextChunk, top`nextChunk
    ensures Stack(top, [top, c] + s[1..])
  {
    c.nextChunk := top.nextChunk;
    top.nextChunk := c;
    ghost var r := [top, c] + s[1..];
    forall i: nat | i < |r| ensures r[i].nextChunk == NodeAt(r, i + 1) {
      assert i > 1 ==> r[i] == s[i - 1];
    }
  }

  // ---------------------------------------------------------------------------------------------
  // Memory.

  /** The memory of two chunks, with their headers and sentinels, does not overlap. */
  predicate Apart(c: Chunk, d: Chunk) {
    c.mem + c.memSize + SENTINEL_LEN + HEADER <= d.mem || d.mem + d.memSize + SENTINEL_LEN + HEADER <= c.mem
  }

  ghost predicate AllApart(s: set<Chunk>) {
    forall c, d | c in s && d in s && c != d :: Apart(c, d)
  }

  /** Memory of a chunk can serve every request that is not treated as too big. */
  predicate Big(c: Chunk) {
    c.mem % ALIGN == 0 && c.memSize >= CHUNK_SIZE - HEADER
  }

  /** The memory malloc gives for a new chunk overlaps no other chunk. */
  ghost predicate Unused(at: nat, size: nat, known: set<Chunk>) {
    && at % ALIGN == 0
    && forall d | d in known :: at + size <= d.mem - HEADER || d.mem + d.memSize + SENTINEL_LEN <= at
  }

  /** What memarea_alloc has returned: an address and a length. */
  datatype Block = Block(start: nat, len: nat)

  /** The block lies in the used part of the chunk's memory, in front of the sentinel. */
  predicate Inside(b: Block, c: Chunk, top: nat) {
    c.mem <= b.start && b.start + b.len <= c.mem + c.memSize && b.start + b.len <= top
  }

  predicate Disjoint(b: Block, d: Block) {
    b.start + b.len <= d.start || d.start + d.len <= b.start
  }

  /** The block and the bytes skipped behind it. */
  predicate Covers(b: Block, p: nat) {
    b.start <= p < Realign(b.start + b.len)
  }

  ghost predicate Reached(blocks: set<Block>, p: nat) {
    exists b :: b in blocks && Covers(b, p)
  }

  /** Tops are the next_mem fields of the chunks of an area; its blocks lie aligned and disjoint
      below them and leave out only what alignment skips. */
  ghost predicate Sound(chunks: seq<Chunk>, tops: map<Chunk, nat>, blocks: set<Block>) {
    && (forall c | c in chunks ::
          c in tops && Big(c) && c.mem <= tops[c] <= Realign(c.mem + c.memSize) && tops[c] % ALIGN == 0)
    && (forall b | b in blocks :: b.len > 0 && b.start % ALIGN == 0 && exists c :: c in chunks && Inside(b, c, tops[c]))
    && (forall b, d | b in blocks && d in blocks && b != d :: Disjoint(b, d))
    && (forall c, p | c in chunks && c.mem <= p < tops[c] :: Reached(blocks, p))
  }

  ghost predicate TopsAre(chunks: seq<Chunk>, tops: map<Chunk, nat>)
    reads chunks`nextMem
  {
    forall c | c in chunks :: c in tops && c.nextMem == tops[c]
  }

  // ---------------------------------------------------------------------------------------------
  // The global list of unused chunks.

  class Freelist {
    var freelist: Chunk?
    var freelistLen: int
    ghost var list: seq<Chunk>
    /** All chunks there are, in areas and in the list. */
    ghost var known: set<Chunk>

    ghost predicate Valid()
      reads this, list`nextChunk, list`nextMem
    {
      && Stack(freelist, list) && Distinct(list) && freelistLen == |list| <= MAX_FREELIST_LEN
      && (forall c | c in list :: c in known && Big(c) && c.nextMem == c.mem)
      && AllApart(known)
    }

    constructor ()
      ensures Valid() && known == {}
    {
      freelist, freelistLen, list, known := null, 0, [], {};
    }

    /** alloc_chunk: malloc puts a new chunk at `at` and rounds its size up by `extra`.  An
        assertion of alloc_chunk or tor_malloc fails exactly when there is no result. */
    method AllocChunk(sz: nat, freelistOk: bool, at: nat, extra: nat) returns (res: Chunk?)
      requires Valid() && (freelistOk ==> sz == CHUNK_SIZE) && (!freelistOk ==> sz >= CHUNK_SIZE)
      requires Unused(at, sz + SENTINEL_LEN + extra, known) && extra < CHUNK_SIZE
      modifies `freelist, `freelistLen, `list, `known, list`nextChunk
      ensures Valid() && (res == null <==> !freelistOk && sz + SENTINEL_LEN + extra >= SIZE_T_CEILING)
      ensures res == null ==> known == old(known) && list == old(list)
      ensures res != null ==>
                && res in known && Big(res) && res.nextMem == res.mem && res.nextChunk == null && res !in list
                && res.memSize >= sz - HEADER && known == old(known) + {res}
                && (res in old(list) || fresh(res))
      ensures forall c | c in list :: c in old(list)
    {
      if sz >= SIZE_T_CEILING {
        return null;
      }
      if freelist != null && freelistOk {
        res := freelist;
        freelist := res.nextChunk;
        res.nextChunk := null;
        freelistLen := freelistLen - 1;
        list := list[1..];
        assert forall c | c in list :: c in old(list);
        assert known == old(known) + {res};
      } else {
        var chunkSize := if freelistOk then CHUNK_SIZE else sz;
        chunkSize := chunkSize + SENTINEL_LEN + extra;
        if chunkSize >= SIZE_T_CEILING {
          return null;
        }
        res := new Chunk(at + HEADER, chunkSize - HEADER - SENTINEL_LEN);
        assert Realign(res.nextMem) == res.nextMem;
        known := known + {res};
      }
    }

    /** chunk_free_unchecked: the chunk is kept for later, or goes back to malloc. */
    method FreeChunk(c: Chunk)
      requires Valid() && c in known && Big(c) && c !in list
      modifies `freelist, `freelistLen, `list, `known, c
      ensures Valid() && known <= old(known)
      ensures list == if |old(list)| < MAX_FREELIST_LEN then [c] + old(list) else old(list)
      ensures old(known) - {c} <= known && (c in known <==> c in list)
    {
      if freelistLen < MAX_FREELIST_LEN {
        freelistLen := freelistLen + 1;
        c.nextChunk := freelist;
        freelist := c;
        c.nextMem := c.mem;
        list := [c] + list;
      } else {
        known := known - {c};
      }
    }

    /** memarea_clear_freelist */
    method Clear()
      requires Valid()
      modifies this
      ensures Valid() && list == [] && known == old(known) - (set c | c in old(list))
    {
      freelistLen := 0;
      freelist := null;
      known := known - (set c | c in list);
      list := [];
    }
  }

  // ---------------------------------------------------------------------------------------------
  // What the steps do to an area.

  lemma SoundCarve(chunks: seq<Chunk>, tops: map<Chunk, nat>, blocks: set<Block>, c: Chunk, sz: nat, known: set<Chunk>)
    requires Sound(chunks, tops, blocks) && c in chunks && sz > 0 && tops[c] + sz <= c.mem + c.memSize
    requires AllApart(known) && forall d | d in chunks :: d in known
    ensures Block(tops[c], sz) !in blocks
    ensures Sound(chunks, tops[c := Realign(tops[c] + sz)], blocks + {Block(tops[c], sz)})
  {
    hide Realign, Apart;
    var n := Block(tops[c], sz);
    var tops', blocks' := tops[c := Realign(tops[c] + sz)], blocks + {n};
    CarvedApart(chunks, tops, blocks, c, sz, known);
    CarvedInside(chunks, tops, blocks, c, sz);
    RealignMonotone(tops[c] + sz, c.mem + c.memSize);
    CarvedReached(chunks, tops, blocks, c, sz);
  }

  lemma RealignMonotone(x: nat, y: nat)
    requires x <= y
    ensures Realign(x) <= Realign(y)
  {
  }

  lemma CarvedInside(chunks: seq<Chunk>, tops: map<Chunk, nat>, blocks: set<Block>, c: Chunk, sz: nat)
    requires Sound(chunks, tops, blocks) && c in chunks && tops[c] + sz <= c.mem + c.memSize
    ensures var tops' := tops[c := Realign(tops[c] + sz)];
            && Inside(Block(tops[c], sz), c, tops'[c])
            && forall b | b in blocks :: exists d :: d in chunks && Inside(b, d, tops'[d])
  {
    hide Realign;
    var tops' := tops[c := Realign(tops[c] + sz)];
    forall b | b in blocks ensures exists d :: d in chunks && Inside(b, d, tops'[d]) {
      var d :| d in chunks && Inside(b, d, tops[d]);
      assert Inside(b, d, tops'[d]);
    }
  }

  lemma CarvedApart(chunks: seq<Chunk>, tops: map<Chunk, nat>, blocks: set<Block>, c: Chunk, sz: nat, known: set<Chunk>)
    requires Sound(chunks, tops, blocks) && c in chunks && sz > 0 && tops[c] + sz <= c.mem + c.memSize
    requires AllApart(known) && forall d | d in chunks :: d in known
    ensures var n := Block(tops[c], sz);
            n !in blocks && forall b | b in blocks :: Disjoint(b, n) && Disjoint(n, b)
  {
    hide Realign;
    forall b | b in blocks ensures Disjoint(b, Block(tops[c], sz)) {
      var d :| d in chunks && Inside(b, d, tops[d]);
      assert d != c ==> Apart(c, d);
    }
  }

  lemma CarvedReached(chunks: seq<Chunk>, tops: map<Chunk, nat>, blocks: set<Block>, c: Chunk, sz: nat)
    requires Sound(chunks, tops, blocks) && c in chunks
    ensures var tops', blocks' := tops[c := Realign(tops[c] + sz)], blocks + {Block(tops[c], sz)};
            forall d, p | d in chunks && d.mem <= p < tops'[d] :: Reached(blocks', p)
  {
    hide Realign;
    var tops', blocks' := tops[c := Realign(tops[c] + sz)], blocks + {Block(tops[c], sz)};
    forall d, p | d in chunks && d.mem <= p < tops'[d] ensures Reached(blocks', p) {
      if p < tops[d] {
        assert Reached(blocks, p);
        var b :| b in blocks && Covers(b, p);
        assert b in blocks';
      } else {
        assert Covers(Block(tops[c], sz), p);
      }
    }
  }

  /** A chunk of which nothing is used yet joins the area. */
  lemma SoundAdd(chunks: seq<Chunk>, tops: map<Chunk, nat>, blocks: set<Block>, c: Chunk, r: seq<Chunk>)
    requires Sound(chunks, tops, blocks) && c !in chunks && Big(c) && forall d :: d in r <==> d in chunks || d == c
    ensures Sound(r, tops[c := c.mem], blocks)
  {
    hide Realign;
    var tops' := tops[c := c.mem];
    forall b | b in blocks ensures exists d :: d in r && Inside(b, d, tops'[d]) {
      var d :| d in chunks && Inside(b, d, tops[d]);
      assert Inside(b, d, tops'[d]);
    }
  }

  ghost predicate Beside(chunks: seq<Chunk>, list: seq<Chunk>, known: set<Chunk>) {
    forall c | c in chunks :: c in known && c !in list
  }

  /** "This allocation is too big": a chunk of its own, second in the list. */
  method AddSpecial(fl: Freelist, top: Chunk, sz: nat, at: nat, extra: nat, ghost s: seq<Chunk>) returns (c: Chunk?)
    requires fl.Valid() && Stack(top, s) && Distinct(s) && s != [] && Beside(s, fl.list, fl.known)
    requires sz + HEADER >= CHUNK_SIZE && extra < CHUNK_SIZE && Unused(at, sz + HEADER + SENTINEL_LEN + extra, fl.known)
    modifies fl`freelist, fl`freelistLen, fl`list, fl`known, fl.list`nextChunk, top`nextChunk
    ensures fl.Valid() && (c == null <==> sz + HEADER + SENTINEL_LEN + extra >= SIZE_T_CEILING)
    ensures c == null ==> Stack(top, s) && Beside(s, fl.list, fl.known)
    ensures c != null ==>
              && Big(c) && sz <= c.memSize && c.nextMem == c.mem && c !in s && (c in old(fl.list) || fresh(c))
              && Stack(top, [top, c] + s[1..]) && Distinct([top, c] + s[1..])
                 && Beside([top, c] + s[1..], fl.list, fl.known)
    ensures (forall d | d in fl.list :: d in old(fl.list)) && old(fl.known) <= fl.known
  {
    hide Unused, AllApart;
    assert forall i | 0 <= i < |s| :: s[i] in fl.known && s[i] !in fl.list;
    c := fl.AllocChunk(sz + HEADER, false, at, extra);
    assert Stack(top, s);
    if c != null {
      assert c !in s;
      PushSecond(c, top, s);
    }
  }

  /** A chunk of the usual size or more, on top. */
  method AddOrdinary(fl: Freelist, top: Chunk, at: nat, extra: nat, ghost s: seq<Chunk>) returns (c: Chunk)
    requires fl.Valid() && Stack(top, s) && Distinct(s) && s != [] && Beside(s, fl.list, fl.known)
    requires extra < CHUNK_SIZE && Unused(at, CHUNK_SIZE + SENTINEL_LEN + extra, fl.known)
    modifies fl`freelist, fl`freelistLen, fl`list, fl`known, fl.list`nextChunk
    ensures fl.Valid()
    ensures Big(c) && c.nextMem == c.mem && c !in s && (c in old(fl.list) || fresh(c))
    ensures Stack(c, [c] + s) && Distinct([c] + s) && Beside([c] + s, fl.list, fl.known)
    ensures (forall d | d in fl.list :: d in old(fl.list)) && old(fl.known) <= fl.known
  {
    hide Unused, AllApart;
    assert forall i | 0 <= i < |s| :: s[i] in fl.known && s[i] !in fl.list;
    c := fl.AllocChunk(CHUNK_SIZE, true, at, extra);
    assert Stack(top, s);
    assert c !in s;
    PushTop(c, top, s);
  }

  // ---------------------------------------------------------------------------------------------
  // An area.

  /** The ghost side of an area: its chunks from the top, their next_mem fields, and what has been
      allocated since the last clear. */
  datatype Books = Books(chunks: seq<Chunk>, tops: map<Chunk, nat>, blocks: set<Block>)

  ghost predicate Holds(first: Chunk?, g: Books)
    reads g.chunks`nextChunk, g.chunks`nextMem
  {
    && g.chunks != [] && Stack(first, g.chunks) && Distinct(g.chunks)
    && TopsAre(g.chunks, g.tops) && Sound(g.chunks, g.tops, g.blocks)
  }

  function Request(size: nat): nat {
    if size == 0 then 1 else size
  }

  /** The bytes asked of malloc if a new chunk is needed. */
  function ChunkRequest(sz: nat): nat {
    (if sz + HEADER >= CHUNK_SIZE then sz + HEADER else CHUNK_SIZE) + SENTINEL_LEN
  }

  predicate Fits(c: Chunk, top: nat, sz: nat) {
    top + sz <= c.mem + c.memSize
  }

  /** A chunk for one big block goes second, any other one first. */
  ghost function WithChunk(chunks: seq<Chunk>, c: Chunk, sz: nat): seq<Chunk>
    requires chunks != []
  {
    if sz + HEADER >= CHUNK_SIZE then [chunks[0], c] + chunks[1..] else [c] + chunks
  }

  /** The slow path of memarea_alloc.  The source's assertion that the chunk is large enough holds
      whichever chunk it gets. */
  method AddChunk(fl: Freelist, first: Chunk, sz: nat, at: nat, extra: nat, ghost g: Books)
    returns (c: Chunk?, head: Chunk, ghost g': Books)
    requires fl.Valid() && Holds(first, g) && Beside(g.chunks, fl.list, fl.known)
    requires extra < CHUNK_SIZE && Unused(at, ChunkRequest(sz) + extra, fl.known)
    modifies fl`freelist, fl`freelistLen, fl`list, fl`known, fl.list`nextChunk, first`nextChunk
    ensures fl.Valid() && Holds(head, g') && Beside(g'.chunks, fl.list, fl.known) && g'.blocks == g.blocks
    ensures c == null <==> sz + HEADER >= CHUNK_SIZE && sz + HEADER + SENTINEL_LEN + extra >= SIZE_T_CEILING
    ensures c != null ==> c in g'.chunks && Fits(c, c.nextMem, sz) && c.nextMem == c.mem && c !in g.chunks
    ensures c != null ==> g.chunks != [] && g'.chunks == WithChunk(g.chunks, c, sz)
    ensures forall d | d in g'.chunks :: d in g.chunks || d in old(fl.list) || fresh(d)
    ensures (forall d | d in fl.list :: d in old(fl.list)) && old(fl.known) <= fl.known
  {
    hide Unused, AllApart, Sound, Stack, Beside, fl.Valid;
    ghost var s := g.chunks;
    head, g' := first, g;
    StackTop(first, s);
    if sz + HEADER >= CHUNK_SIZE {
      c := AddSpecial(fl, first, sz, at, extra, s);
      if c == null {
        return;
      }
      ghost var r := [first, c] + s[1..];
      SoundAdd(s, g.tops, g.blocks, c, r);
      g' := Books(r, g.tops[c := c.mem], g.blocks);
    } else {
      c := AddOrdinary(fl, first, at, extra, s);
      ghost var r := [c] + s;
      SoundAdd(s, g.tops, g.blocks, c, r);
      g' := Books(r, g.tops[c := c.mem], g.blocks);
      head := c;
    }
    assert c.memSize >= sz;
  }

  lemma StackTop(first: Chunk, s: seq<Chunk>)
    requires Stack(first, s)
    ensures s != [] && s[0] == first
    ensures forall d :: d in s <==> d == first || d in s[1..]
  {
  }

  /** `result = chunk->next_mem; chunk->next_mem += sz`, and the alignment. */
  method Carve(c: Chunk, first: Chunk?, sz: nat, ghost g: Books, ghost fl: Freelist)
    returns (result: nat, ghost g': Books)
    requires Holds(first, g) && c in g.chunks && Fits(c, c.nextMem, sz) && sz > 0
    requires fl.Valid() && Beside(g.chunks, fl.list, fl.known)
    modifies c`nextMem
    ensures fl.Valid()
    ensures g'.chunks == g.chunks && Holds(first, g')
    ensures Block(result, sz) !in g.blocks && g'.blocks == g.blocks + {Block(result, sz)}
    ensures result == old(c.nextMem)
  {
    hide Sound, AllApart, Stack, Distinct, Realign;
    SoundCarve(g.chunks, g.tops, g.blocks, c, sz, fl.known);
    result := c.nextMem;
    c.nextMem := Realign(c.nextMem + sz);
    g' := Books(g.chunks, g.tops[c := Realign(result + sz)], g.blocks + {Block(result, sz)});
  }

  /** The loop of memarea_drop_all and memarea_clear. */
  method FreeAll(fl: Freelist, from: Chunk?, ghost s: seq<Chunk>)
    requires fl.Valid() && Stack(from, s) && Distinct(s) && Beside(s, fl.list, fl.known)
    requires forall c | c in s :: Big(c)
    modifies fl`freelist, fl`freelistLen, fl`list, fl`known, s
    ensures fl.Valid()
    ensures forall c | c in fl.list :: c in old(fl.list) || c in s
    ensures forall c | c in old(fl.known) :: c in fl.known || c in s
    ensures fl.known <= old(fl.known) && forall c | c in s :: c in fl.known <==> c in fl.list
  {
    hide fl.Valid, AllApart, Big;
    var chunk := from;
    ghost var i: nat := 0;
    while chunk != null
      invariant i <= |s| && chunk == NodeAt(s, i) && fl.Valid()
      invariant forall k: nat {:trigger s[k]} | i <= k < |s| ::
                  s[k].nextChunk == NodeAt(s, k + 1) && s[k] !in fl.list && s[k] in fl.known
      invariant forall c | c in fl.list :: c in old(fl.list) || c in s
      invariant forall c | c in old(fl.known) :: c in fl.known || c in s
      invariant fl.known <= old(fl.known)
      invariant forall k: nat | k < i :: s[k] in fl.known <==> s[k] in fl.list
      decreases |s| - i
    {
      var next := chunk.nextChunk;
      assert s[i].nextChunk == NodeAt(s, i + 1);
      assert next == NodeAt(s, i + 1);
      assert forall k: nat | k < |s| && k != i :: s[k] != chunk;
      fl.FreeChunk(chunk);
      chunk := next;
      i := i + 1;
    }
  }

  lemma TailStack(first: Chunk, s: seq<Chunk>)
    requires Stack(first, s) && Distinct(s)
    ensures s != [] && s[0] == first && first !in s[1..]
    ensures Stack(first.nextChunk, s[1..]) && Distinct(s[1..])
  {
    assert forall i: nat | i < |s[1..]| :: s[1..][i] == s[i + 1];
  }

  lemma OneEmptyChunk(g: Books, c: Chunk)
    requires Sound(g.chunks, g.tops, g.blocks) && c in g.chunks
    ensures Sound([c], map[c := c.mem], {})
  {
    hide Realign;
  }

  lemma AreBig(g: Books)
    requires Sound(g.chunks, g.tops, g.blocks)
    ensures forall c | c in g.chunks :: Big(c)
  {
  }

  /** Where an allocation is, or the failed assertion that ends the program. */
  datatype Pointer = AssertionFails | At(address: nat)

  class Area {
    var first: Chunk?
    ghost var g: Books

    ghost predicate Valid()
      reads this, g.chunks`nextChunk, g.chunks`nextMem
    {
      Holds(first, g)
    }

    /** memarea_new */
    constructor (fl: Freelist, at: nat, extra: nat)
      requires fl.Valid() && extra < CHUNK_SIZE && Unused(at, CHUNK_SIZE + SENTINEL_LEN + extra, fl.known)
      modifies fl`freelist, fl`freelistLen, fl`list, fl`known, fl.list`nextChunk
      ensures Valid() && fl.Valid() && Beside(g.chunks, fl.list, fl.known) && g.blocks == {}
      ensures forall d | d in g.chunks :: d in old(fl.list) || fresh(d)
      ensures (forall d | d in fl.list :: d in old(fl.list)) && old(fl.known) <= fl.known
    {
      hide AllApart, Unused, Realign;
      var c := fl.AllocChunk(CHUNK_SIZE, true, at, extra);
      first, g := c, Books([c], map[c := c.mem], {});
    }

    /** memarea_alloc: an aligned block of at least `size` bytes that overlaps nothing allocated
        since the last clear. */
    method Alloc(fl: Freelist, size: nat, at: nat, extra: nat) returns (result: Pointer)
      requires Valid() && fl.Valid() && Beside(g.chunks, fl.list, fl.known)
      requires extra < CHUNK_SIZE && Unused(at, ChunkRequest(Request(size)) + extra, fl.known)
      modifies `first, `g, fl`freelist, fl`freelistLen, fl`list, fl`known
      modifies g.chunks`nextChunk, g.chunks`nextMem, fl.list`nextChunk, fl.list`nextMem
      ensures Valid() && fl.Valid() && Beside(g.chunks, fl.list, fl.known)
      ensures result == AssertionFails <==>
                || size >= SIZE_T_CEILING
                || (!Fits(old(first), old(first.nextMem), Request(size)) && Request(size) + HEADER >= CHUNK_SIZE
                    && Request(size) + HEADER + SENTINEL_LEN + extra >= SIZE_T_CEILING)
      ensures result == AssertionFails ==> g.blocks == old(g.blocks)
      ensures result.At? ==> Block(result.address, Request(size)) !in old(g.blocks)
                             && g.blocks == old(g.blocks) + {Block(result.address, Request(size))}
      ensures result.At? && Fits(old(first), old(first.nextMem), Request(size)) ==>
                result.address == old(first.nextMem) && first == old(first) && g.chunks == old(g.chunks)
      ensures result.At? && !Fits(old(first), old(first.nextMem), Request(size)) ==>
                exists c :: c !in old(g.chunks) && result.address == c.mem && old(g.chunks) != []
                            && g.chunks == WithChunk(old(g.chunks), c, Request(size))
      ensures forall d | d in g.chunks :: d in old(g.chunks) || d in old(fl.list) || fresh(d)
      ensures (forall d | d in fl.list :: d in old(fl.list)) && old(fl.known) <= fl.known
    {
      hide Unused, AllApart, Holds, Beside, fl.Valid;
      HasTop(first, g);
      var chunk := first;
      var sz := Request(size);
      var head: Chunk?, books := first, g;
      if size >= SIZE_T_CEILING {
        return AssertionFails;
      }
      if chunk.nextMem + sz > chunk.mem + chunk.memSize {
        var c;
        c, head, books := AddChunk(fl, chunk, sz, at, extra, books);
        if c == null {
          first, g := head, books;
          return AssertionFails;
        }
        chunk := c;
      }
      var address;
      address, books := Carve(chunk, head, sz, books, fl);
      first, g := head, books;
      return At(address);
    }

    /** memarea_clear: one empty chunk stays. */
    method Clear(fl: Freelist)
      requires Valid() && fl.Valid() && Beside(g.chunks, fl.list, fl.known)
      modifies `g, fl`freelist, fl`freelistLen, fl`list, fl`known, g.chunks
      ensures Valid() && fl.Valid() && Beside(g.chunks, fl.list, fl.known)
      ensures first == old(first) && g.blocks == {} && g.chunks == [first]
      ensures forall c | c in fl.list :: c in old(fl.list) || c in old(g.chunks)
      ensures forall c | c in old(fl.known) :: c in fl.known || c in old(g.chunks)
    {
      hide fl.Valid, Sound, AllApart, Big, Realign;
      ghost var s := g.chunks;
      OneEmptyChunk(g, s[0]);
      AreBig(g);
      if first.nextChunk != null {
        TailStack(first, s);
        FreeAll(fl, first.nextChunk, s[1..]);
        first.nextChunk := null;
      }
      first.nextMem := first.mem;
      g := Books([first], map[first := first.mem], {});
    }

    /** memarea_drop_all */
    method DropAll(fl: Freelist)
      requires Valid() && fl.Valid() && Beside(g.chunks, fl.list, fl.known)
      modifies `first, fl`freelist, fl`freelistLen, fl`list, fl`known, g.chunks
      ensures fl.Valid() && first == null
      ensures forall c | c in fl.list :: c in old(fl.list) || c in old(g.chunks)
      ensures forall c | c in old(fl.known) :: c in fl.known || c in old(g.chunks)
    {
      hide fl.Valid, Sound, AllApart, Big, Realign;
      AreBig(g);
      FreeAll(fl, first, g.chunks);
      first := null;
    }

    /** memarea_owns_ptr: true for the bytes of the blocks and those skipped behind them. */
    method OwnsPtr(ptr: nat) returns (owns: bool)
      requires Valid()
      ensures owns <==> exists b :: b in g.blocks && Covers(b, ptr)
    {
      hide Sound, Realign;
      OwnedIffReached(g, ptr);
      var chunk := first;
      ghost var i: nat := 0;
      while chunk != null
        invariant i <= |g.chunks| && chunk == NodeAt(g.chunks, i)
        invariant forall k | 0 <= k < i :: !(g.chunks[k].mem <= ptr < g.chunks[k].nextMem)
        decreases |g.chunks| - i
      {
        assert chunk == g.chunks[i];
        if ptr >= chunk.mem && ptr < chunk.nextMem {
          return true;
        }
        chunk := chunk.nextChunk;
        i := i + 1;
      }
      return false;
    }
  }

  lemma OwnedIffReached(g: Books, p: nat)
    requires Sound(g.chunks, g.tops, g.blocks)
    ensures Reached(g.blocks, p) <==> exists c :: c in g.chunks && c in g.tops && c.mem <= p < g.tops[c]
  {
    hide Apart, Big;
    if Reached(g.blocks, p) {
      var b :| b in g.blocks && Covers(b, p);
      var c :| c in g.chunks && Inside(b, c, g.tops[c]);
      AlignedTop(b.start + b.len, g.tops[c]);
    }
  }

  lemma AlignedTop(x: nat, top: nat)
    requires x <= top && top % ALIGN == 0
    ensures Realign(x) <= top
  {
  }

  /** A block allocated from an area: aligned, and all of it found by memarea_owns_ptr. */
  lemma BlockOwned(g: Books, b: Block, p: nat)
    requires Sound(g.chunks, g.tops, g.blocks) && b in g.blocks && b.start <= p < b.start + b.len
    ensures b.start % ALIGN == 0 && Covers(b, p)
    ensures exists c :: c in g.chunks && c.mem <= p < Top(g, c) && p < c.mem + c.memSize
  {
    hide Realign;
    RealignAbove(b.start + b.len);
    var c :| c in g.chunks && Inside(b, c, g.tops[c]);
    assert c.mem <= p < Top(g, c);
  }

  lemma RealignAbove(x: nat)
    ensures x <= Realign(x)
  {
  }

  function Top(g: Books, c: Chunk): nat {
    if c in g.tops then g.tops[c] else 0
  }

  lemma HasTop(first: Chunk?, g: Books)
    requires Holds(first, g)
    ensures first != null && first in g.chunks
  {
    hide Sound;
  }

  /** memarea_owns_ptr says more than its documentation: behind a block of one byte the next byte is
      owned, though it is in no block. */
  method SkippedByte(fl: Freelist, area: Area, at: nat, extra: nat) returns (block: Pointer, owns: bool)
    requires area.Valid() && fl.Valid() && Beside(area.g.chunks, fl.list, fl.known) && area.g.blocks == {}
    requires extra < CHUNK_SIZE && Unused(at, ChunkRequest(1) + extra, fl.known)
    modifies area, fl, area.g.chunks, fl.list
    ensures area.Valid() && block.At? && owns
    ensures area.g.blocks == {Block(block.address, 1)}
  {
    hide fl.Valid, Beside, Unused, Sound, Stack, Distinct, TopsAre;
    block := area.Alloc(fl, 1, at, extra);
    owns := area.OwnsPtr(block.address + 1);
    OneByte(area.g, block.address);
  }

  lemma OneByte(g: Books, a: nat)
    requires Sound(g.chunks, g.tops, g.blocks) && Block(a, 1) in g.blocks
    ensures Covers(Block(a, 1), a + 1)
  {
  }

  /** A size that passes the first assertion and fails the next. */
  method BelowCeiling(fl: Freelist, area: Area, at: nat, extra: nat) returns (block: Pointer)
    requires area.Valid() && fl.Valid() && Beside(area.g.chunks, fl.list, fl.known)
    requires area.first != null && area.first.memSize < SIZE_T_CEILING - 1
    requires extra < CHUNK_SIZE && Unused(at, ChunkRequest(SIZE_T_CEILING - 1) + extra, fl.known)
    modifies area, fl, area.g.chunks, fl.list
    ensures block == AssertionFails
  {
    hide fl.Valid, Beside, Unused, Stack, Distinct;
    HasTop(area.first, area.g);
    assert area.first.mem <= area.first.nextMem;
    block := area.Alloc(fl, SIZE_T_CEILING - 1, at, extra);
  }
}
