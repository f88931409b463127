/** The memory pools of src/common/mempool.c. */
module MemPool {
  import opened PoolChunk
  import opened Sequences
  import PoolSize

  /** For each chunk of a pool, the numbers of its items that callers hold. */
  type Holdings = map<Chunk, set<nat>>

  /** An item: the chunk its in_chunk field names, and its number in it. */
  type Item = (Chunk, nat)

  /** The chunks hold what `live` says and are well formed inside. */
  ghost predicate Contents(live: Holdings, capacity: nat)
    reads live.Keys
  {
    forall c | c in live :: c.Ok() && c.capacity == capacity && c.live == live[c]
  }

  /** The lists of a pool and what its chunks hold. */
  datatype Shape = Shape(
    E: seq<Chunk>,       // empty chunks
    U: seq<Chunk>,       // used chunks
    F: seq<Chunk>,       // full chunks
    live: Holdings,
    idle: set<Chunk>)    // chunks on the empty list ever since the last mp_pool_clean

  /** Every chunk is on exactly the list that its number of items in use asks for. */
  ghost predicate Sorted(g: Shape, capacity: nat) {
    && (forall c | c in g.E :: c in g.live && |g.live[c]| == 0)
    && (forall c | c in g.U :: c in g.live && 0 < |g.live[c]| < capacity)
    && (forall c | c in g.F :: c in g.live && |g.live[c]| == capacity)
    && (forall c | c in g.live :: c in g.E || c in g.U || c in g.F)
  }

  /** n_empty_chunks is exact, and the last min_empty_chunks entries of the empty list have
      not left it since the last clean. */
  ghost predicate Counters(E: seq<Chunk>, nEmpty: int, minEmpty: int, idle: set<Chunk>) {
    && nEmpty == |E| && 0 <= minEmpty <= nEmpty
    && forall i | |E| - minEmpty <= i < |E| :: E[i] in idle
  }

  lemma SortedApart(g: Shape, capacity: nat)
    requires Sorted(g, capacity) && 0 < capacity
    ensures NoneIn(g.E, g.U) && NoneIn(g.E, g.F) && NoneIn(g.U, g.F)
    ensures NoneIn(g.U, g.E) && NoneIn(g.F, g.E) && NoneIn(g.F, g.U)
    ensures forall c | c in g.E || c in g.U || c in g.F :: c in g.live
  {
  }

  /** Like Sorted, but the first used chunk has just been picked to serve from and may still
      be empty. */
  ghost predicate Picked(g: Shape, capacity: nat) {
    && g.U != [] && NoneIn(g.E, g.U) && NoneIn(g.E, g.F) && NoneIn(g.U, g.F)
    && (forall c | c in g.E :: c in g.live && |g.live[c]| == 0)
    && (forall c | c in g.U :: c in g.live && |g.live[c]| < capacity && (c == g.U[0] || 0 < |g.live[c]|))
    && (forall c | c in g.F :: c in g.live && |g.live[c]| == capacity)
    && (forall c | c in g.live :: c in g.E || c in g.U || c in g.F)
  }

  lemma PickedUsed(g: Shape, capacity: nat)
    requires Sorted(g, capacity) && 0 < capacity && g.U != []
    ensures Picked(g.(idle := g.idle - {g.U[0]}), capacity)
    ensures g.U[0] !in g.E
  {
  }

  lemma PickedEmpty(g: Shape, capacity: nat)
    requires Sorted(g, capacity) && 0 < capacity && g.U == [] && g.E != [] && Distinct(g.E)
    ensures Picked(Shape(g.E[1..], [g.E[0]], g.F, g.live, g.idle - {g.E[0]}), capacity)
  {
    assert forall c | c in g.E :: c == g.E[0] || c in g.E[1..];
  }

  lemma PickedNew(g: Shape, capacity: nat, c: Chunk)
    requires Sorted(g, capacity) && 0 < capacity && g.U == [] && g.E == [] && c !in g.live
    ensures Picked(Shape([], [c], g.F, g.live[c := {}], g.idle - {c}), capacity)
  {
  }

  lemma CountersPop(E: seq<Chunk>, nEmpty: int, minEmpty: int, idle: set<Chunk>)
    requires Counters(E, nEmpty, minEmpty, idle) && E != [] && Distinct(E)
    ensures Counters(E[1..], nEmpty - 1, if nEmpty - 1 < minEmpty then nEmpty - 1 else minEmpty, idle - {E[0]})
  {
  }

  lemma CountersKeep(E: seq<Chunk>, nEmpty: int, minEmpty: int, idle: set<Chunk>, c: Chunk)
    requires Counters(E, nEmpty, minEmpty, idle) && c !in E
    ensures Counters(E, nEmpty, minEmpty, idle - {c})
  {
  }

  /** The shape after item k of the picked chunk has been handed out. */
  ghost function Served(g: Shape, k: nat, capacity: nat): Shape
    requires g.U != [] && g.U[0] in g.live
  {
    var c := g.U[0];
    var live := g.live[c := g.live[c] + {k}];
    if |live[c]| == capacity then Shape(g.E, g.U[1..], [c] + g.F, live, g.idle) else g.(live := live)
  }

  lemma ServedSorted(g: Shape, k: nat, capacity: nat)
    requires Picked(g, capacity) && Distinct(g.U) && g.U[0] in g.live && k !in g.live[g.U[0]]
    ensures Sorted(Served(g, k, capacity), capacity)
  {
    var c := g.U[0];
    assert forall d | d in g.U :: d == c || d in g.U[1..];
    assert |g.live[c] + {k}| == |g.live[c]| + 1;
  }

  class Pool {
    const newChunkCapacity: nat
    const itemAllocSize: nat
    var emptyChunks: Chunk?
    var usedChunks: Chunk?
    var fullChunks: Chunk?
    var nEmptyChunks: int
    var minEmptyChunks: int
    ghost var g: Shape

    ghost predicate Valid()
      reads this, g.E, g.U, g.F, g.live.Keys
    {
      && 2 <= newChunkCapacity
      && Dlist(emptyChunks, g.E) && Dlist(usedChunks, g.U) && Dlist(fullChunks, g.F)
      && Contents(g.live, newChunkCapacity)
      && Sorted(g, newChunkCapacity)
      && Counters(g.E, nEmptyChunks, minEmptyChunks, g.idle)
    }

    constructor (capacity: nat, size: nat)
      ensures (Valid() <==> 2 <= capacity) && g.live == map[] && newChunkCapacity == capacity && itemAllocSize == size
    {
      newChunkCapacity, itemAllocSize := capacity, size;
      emptyChunks, usedChunks, fullChunks, nEmptyChunks, minEmptyChunks := null, null, null, 0, 0;
      g := Shape([], [], [], map[], {});
    }

    /** Store the new list heads and counters. */
    method Install(h1: Chunk?, h2: Chunk?, h3: Chunk?, n: int, m: int, ghost g': Shape)
      requires 2 <= newChunkCapacity && Dlist(h1, g'.E) && Dlist(h2, g'.U) && Dlist(h3, g'.F)
      requires Contents(g'.live, newChunkCapacity) && Sorted(g', newChunkCapacity) && Counters(g'.E, n, m, g'.idle)
      modifies this
      ensures Valid() && g == g' && nEmptyChunks == n && minEmptyChunks == m
    {
      hide Dlist, Contents, Sorted, Counters;
      emptyChunks, usedChunks, fullChunks, nEmptyChunks, minEmptyChunks := h1, h2, h3, n, m;
      g := g';
    }

    /** mempool.c:213-244: choose the chunk to serve from.  The pool's own fields are left to
        the caller to update. */
    method Pick() returns (chunk: Chunk, h1: Chunk?, h2: Chunk?, n: int, m: int, ghost g': Shape)
      requires Valid()
      modifies g.live.Keys`next, g.live.Keys`prev
      ensures Dlist(h1, g'.E) && Dlist(h2, g'.U) && Dlist(fullChunks, g'.F)
      ensures Contents(g'.live, newChunkCapacity) && Picked(g', newChunkCapacity)
      ensures Counters(g'.E, n, m, g'.idle)
      ensures g'.U[0] == chunk && g'.idle == g.idle - {chunk}
      ensures g'.live == g.live || (fresh(chunk) && g'.live == g.live[chunk := {}])
      ensures g'.E == if g.U == [] && g.E != [] then g.E[1..] else g.E
      ensures if g.U != [] then chunk == g.U[0] else if g.E != [] then chunk == g.E[0] else fresh(chunk)
    {
      hide Dlist, Contents, Sorted, Picked, Counters;
      h1, h2, n, m := emptyChunks, usedChunks, nEmptyChunks, minEmptyChunks;
      Head(h1, g.E);
      Head(h2, g.U);
      SortedApart(g, newChunkCapacity);
      if usedChunks != null {
        chunk := usedChunks;
        PickedUsed(g, newChunkCapacity);
        CountersKeep(g.E, n, m, g.idle, chunk);
        g' := g.(idle := g.idle - {chunk});
      } else if emptyChunks != null {
        chunk := emptyChunks;
        PickedEmpty(g, newChunkCapacity);
        CountersPop(g.E, n, m, g.idle);
        assert [chunk] + g.U == [chunk];
        h1, h2 := MoveFirst(chunk, h2, fullChunks, g.E, g.U, g.F, g.live, newChunkCapacity);
        n := n - 1;
        if n < m {
          m := n;
        }
        g' := Shape(g.E[1..], [chunk], g.F, g.live, g.idle - {chunk});
      } else {
        chunk := new Chunk(newChunkCapacity);
        PickedNew(g, newChunkCapacity, chunk);
        CountersKeep(g.E, n, m, g.idle, chunk);
        h2 := PushFront(h2, chunk, []);
        ContentsNew(g.live, newChunkCapacity, chunk);
        assert [chunk] + [] == [chunk];
        g' := Shape([], [chunk], g.F, g.live[chunk := {}], g.idle - {chunk});
      }
    }

    /** mp_pool_get: an item that nobody holds. */
    method Get() returns (item: Item)
      requires Valid()
      modifies this, g.live.Keys
      ensures Valid()
      ensures item.1 < newChunkCapacity && item.1 !in Held(old(g.live), item.0)
      ensures g.live == old(g.live)[item.0 := Held(old(g.live), item.0) + {item.1}]
      ensures if old(g.U) != [] then item.0 == old(g.U)[0]
              else if old(g.E) != [] then item.0 == old(g.E)[0] else fresh(item.0)
      ensures g.E == if old(g.U) == [] && old(g.E) != [] then old(g.E)[1..] else old(g.E)
      ensures item.0 in old(g.live) || fresh(item.0)
      ensures g.idle == old(g.idle) - {item.0}
    {
      hide Dlist, Contents, Sorted, Picked, Counters;
      var chunk, h1, h2, n, m;
      ghost var g';
      chunk, h1, h2, n, m, g' := Pick();
      PickedFacts(g', newChunkCapacity);
      Head(h2, g'.U);
      var h3 := fullChunks;
      var k := TakeItem(chunk, g'.live, newChunkCapacity, h1, h2, h3, g'.E, g'.U, g'.F);
      ServedSorted(g', k, newChunkCapacity);
      ghost var live := g'.live[chunk := g'.live[chunk] + {k}];
      if chunk.nAllocated == chunk.capacity {
        h2, h3 := MoveFirst(chunk, h3, h1, g'.U, g'.F, g'.E, live, newChunkCapacity);
      }
      Install(h1, h2, h3, n, m, Served(g', k, newChunkCapacity));
      item := (chunk, k);
    }

    /** mp_pool_release, for an item that the caller holds. */
    method Release(item: Item)
      requires Valid() && item.1 in Held(g.live, item.0)
      modifies this, g.live.Keys
      ensures Valid()
      ensures g.live == old(g.live)[item.0 := Held(old(g.live), item.0) - {item.1}]
      ensures var n := |Held(old(g.live), item.0)|;
              && g.E == (if n == 1 then [item.0] + old(g.E) else old(g.E))
              && (n == newChunkCapacity ==> g.U == [item.0] + old(g.U))
              && (1 < n < newChunkCapacity ==> g.U == old(g.U) && g.F == old(g.F))
      ensures g.idle == old(g.idle)
    {
      hide Dlist, Contents, Sorted, Counters, Without, NoneIn;
      var chunk, k := item.0, item.1;
      var h1, h2, h3, n := emptyChunks, usedChunks, fullChunks, nEmptyChunks;
      Head(h2, g.U);
      Head(h3, g.F);
      SortedApart(g, newChunkCapacity);
      ContentsAt(g.live, newChunkCapacity, chunk);
      ghost var live := g.live[chunk := g.live[chunk] - {k}];
      ghost var g';
      var before := chunk.nAllocated;
      GiveItem(chunk, k, g.live, newChunkCapacity, h1, h2, h3, g.E, g.U, g.F);
      if before == chunk.capacity {
        ghost var i := ReleasedFull(g, newChunkCapacity, chunk, k);
        h3, h2 := MoveAny(chunk, h3, h2, h1, i, g.F, g.U, g.E, live, newChunkCapacity);
        g' := Shape(g.E, [chunk] + g.U, Without(g.F, i), live, g.idle);
      } else if before == 1 {
        ghost var i := ReleasedLast(g, newChunkCapacity, chunk, k);
        h2, h1 := MoveAny(chunk, h2, h1, h3, i, g.U, g.E, g.F, live, newChunkCapacity);
        CountersPush(g.E, n, minEmptyChunks, g.idle, chunk);
        n := n + 1;
        g' := Shape([chunk] + g.E, Without(g.U, i), g.F, live, g.idle);
      } else {
        ReleasedUsed(g, newChunkCapacity, chunk, k);
        g' := g.(live := live);
      }
      Install(h1, h2, h3, n, minEmptyChunks, g');
    }

    /** mp_pool_sort_used_chunks. */
    method SortUsed() returns (h: Chunk?, ghost u: seq<Chunk>)
      requires Valid()
      modifies g.live.Keys`next, g.live.Keys`prev
      ensures Dlist(emptyChunks, g.E) && Dlist(h, u) && Dlist(fullChunks, g.F) && Contents(g.live, newChunkCapacity)
      ensures multiset(u) == multiset(g.U) && Ordered(u, g.live)
    {
      hide Dlist, Sorted, Counters, Descending, Ordered;
      SortedApart(g, newChunkCapacity);
      h, u := SortAlone(usedChunks, g.U, emptyChunks, g.E, fullChunks, g.F);
      SameMembers(u, g.U);
      OrderedBy(u, g.live, newChunkCapacity);
    }

    /** mempool.c:476-501: cut the empty list behind its first `keep` chunks. */
    method CutEmpty(keep: int, ghost h2: Chunk?, ghost u: seq<Chunk>) returns (h: Chunk?, n: nat)
      requires 0 <= keep && NoneIn(g.E, u) && NoneIn(g.E, g.F) && forall c | c in g.E :: c in g.live
      requires Dlist(emptyChunks, g.E) && Dlist(h2, u) && Dlist(fullChunks, g.F) && Contents(g.live, newChunkCapacity)
      modifies g.live.Keys`next
      ensures Dlist(h, Front(g.E, keep)) && Dlist(h2, u) && Dlist(fullChunks, g.F)
      ensures Contents(g.live, newChunkCapacity)
      ensures n == |Rest(g.E, keep)|
    {
      hide Dlist;
      h, n := CutAlone(emptyChunks, keep, g.E, h2, u, fullChunks, g.F);
    }

    /** mp_pool_clean: keeps the first chunks of the empty list, those that were emptied last. */
    method Clean(nToKeep: nat, keepRecentlyUsed: bool) returns (ghost freed: seq<Chunk>)
      requires Valid()
      modifies this, g.live.Keys
      ensures Valid()
      ensures var recent := old(nEmptyChunks - minEmptyChunks);
              var keep := if keepRecentlyUsed && nToKeep < recent then recent else nToKeep;
              g.E == Front(old(g.E), keep) && freed == Rest(old(g.E), keep)
      ensures multiset(g.U) == multiset(old(g.U)) && Ordered(g.U, g.live) && g.F == old(g.F)
      ensures g.live == old(g.live) - (set c | c in freed)
      ensures minEmptyChunks == nEmptyChunks && g.idle == set c | c in g.E
      ensures keepRecentlyUsed ==> forall c | c in freed :: c in old(g.idle)
    {
      hide Dlist, Contents, Sorted, Counters, NoneIn, Ordered, Front, Rest;
      SortedApart(g, newChunkCapacity);
      Head(emptyChunks, g.E);
      ghost var g0 := g;
      var h2;
      ghost var u;
      h2, u := SortUsed();
      SameMembers(u, g.U);
      SameApart(g.E, u, g.U);
      CountersFacts(g.E, nEmptyChunks, minEmptyChunks, g.idle);
      var keep: int := nToKeep;
      if keepRecentlyUsed {
        var nRecentlyUsed := nEmptyChunks - minEmptyChunks;
        if keep < nRecentlyUsed {
          keep := nRecentlyUsed;
        }
      }
      var h1, n := CutEmpty(keep, h2, u);
      freed := Rest(g.E, keep);
      ghost var kept := Front(g.E, keep);
      FrontRest(g.E, keep, minEmptyChunks, g.idle);
      Cleaned(g, newChunkCapacity, u, kept, freed);
      ContentsLess(g.live, newChunkCapacity, set c | c in freed);
      OrderedLess(u, g, newChunkCapacity, freed);
      Install(h1, h2, fullChunks, nEmptyChunks - n, nEmptyChunks - n,
              Shape(kept, u, g.F, g.live - (set c | c in freed), set c | c in kept));
    }
  }

  /** mp_pool_new: a pool comes back for every size for which the doubling ends, with the sizes
      chosen for it; it is in good order exactly for items of which two fit into a chunk, and has
      no room for any otherwise. */
  method Create(itemSize: nat, chunkCapacity: nat) returns (pool: Pool?, sizing: PoolSize.Sizing)
    requires 0 < itemSize < PoolSize.SIZE_T && chunkCapacity < PoolSize.SIZE_T
    ensures sizing.AssertFails? <==> !PoolSize.Accepts(itemSize, chunkCapacity)
    ensures pool != null <==>
              PoolSize.Accepts(itemSize, chunkCapacity)
                && (itemSize <= PoolSize.TWO_FIT || PoolSize.SUM_FITS < itemSize)
    ensures pool != null ==>
              && fresh(pool) && pool.g.live == map[]
                 && sizing == PoolSize.Sized(pool.itemAllocSize, pool.newChunkCapacity)
              && itemSize + 8 <= pool.itemAllocSize
              && PoolSize.Fitted(chunkCapacity, pool.itemAllocSize, pool.newChunkCapacity)
              && (if itemSize <= PoolSize.TWO_FIT then pool.Valid() else !pool.Valid() && pool.newChunkCapacity == 0)
  {
    ghost var bytes;
    sizing, bytes := PoolSize.NewPool(itemSize, chunkCapacity);
    pool := null;
    if sizing.Sized? {
      pool := new Pool(sizing.newChunkCapacity, sizing.itemAllocSize);
    }
  }

  /** Chunks with more items in use come first. */
  ghost predicate Ordered(u: seq<Chunk>, live: Holdings) {
    && (forall c | c in u :: c in live)
    && forall i, j | 0 <= i < j < |u| :: |live[u[i]]| >= |live[u[j]]|
  }

  lemma OrderedBy(u: seq<Chunk>, live: Holdings, capacity: nat)
    requires Descending(u) && Contents(live, capacity) && forall c | c in u :: c in live
    ensures Ordered(u, live)
  {
    assert forall i | 0 <= i < |u| :: u[i].Ok() && u[i].nAllocated == |live[u[i]]|;
  }

  lemma OrderedLess(u: seq<Chunk>, g: Shape, capacity: nat, freed: seq<Chunk>)
    requires Ordered(u, g.live) && forall c | c in freed :: c !in u
    ensures Ordered(u, g.live - (set c | c in freed))
  {
    assert forall i | 0 <= i < |u| :: u[i] in u;
  }

  lemma ContentsLess(live: Holdings, capacity: nat, gone: set<Chunk>)
    requires Contents(live, capacity)
    ensures Contents(live - gone, capacity)
  {
  }

  lemma SameMembers(u: seq<Chunk>, v: seq<Chunk>)
    requires multiset(u) == multiset(v)
    ensures forall c :: c in u <==> c in v
  {
    forall c ensures c in u <==> c in v {
      assert c in multiset(u) <==> c in multiset(v);
    }
  }

  lemma SameApart(e: seq<Chunk>, u: seq<Chunk>, v: seq<Chunk>)
    requires forall c :: c in u <==> c in v
    ensures NoneIn(e, v) ==> NoneIn(e, u)
  {
  }

  function Front(s: seq<Chunk>, keep: int): seq<Chunk>
    requires 0 <= keep
  {
    if keep < |s| then s[..keep] else s
  }

  function Rest(s: seq<Chunk>, keep: int): seq<Chunk>
    requires 0 <= keep
  {
    if keep < |s| then s[keep..] else []
  }

  lemma FrontRest(e: seq<Chunk>, keep: int, minEmpty: int, idle: set<Chunk>)
    requires 0 <= keep && 0 <= minEmpty <= |e| && forall i | |e| - minEmpty <= i < |e| :: e[i] in idle
    ensures Front(e, keep) + Rest(e, keep) == e
    ensures |e| - minEmpty <= keep ==> forall c | c in Rest(e, keep) :: c in idle
    ensures forall c | c in Rest(e, keep) :: c in e
  {
  }

  method CutAlone(head: Chunk?, keep: int, ghost s: seq<Chunk>, ghost h1: Chunk?, ghost t: seq<Chunk>,
                  ghost h2: Chunk?, ghost v: seq<Chunk>) returns (h: Chunk?, n: nat)
    requires Dlist(head, s) && Dlist(h1, t) && Dlist(h2, v) && NoneIn(s, t) && NoneIn(s, v) && 0 <= keep
    modifies (set c | c in s)`next
    ensures Dlist(h, Front(s, keep)) && Dlist(h1, t) && Dlist(h2, v) && n == |Rest(s, keep)|
  {
    h, n := CutList(head, keep, s);
    hide Distinct;
    assert Dlist(h1, t);
    assert Dlist(h2, v);
  }

  method SortAlone(head: Chunk?, ghost s: seq<Chunk>, ghost h1: Chunk?, ghost t: seq<Chunk>,
                   ghost h2: Chunk?, ghost v: seq<Chunk>)
    returns (h: Chunk?, ghost u: seq<Chunk>)
    requires Dlist(head, s) && Dlist(h1, t) && Dlist(h2, v) && NoneIn(t, s) && NoneIn(v, s)
    modifies (set c | c in s)`next, (set c | c in s)`prev
    ensures Dlist(h, u) && Dlist(h1, t) && Dlist(h2, v) && multiset(u) == multiset(s) && Descending(u)
  {
    hide Descending;
    h, u := SortList(head, s);
    hide Distinct;
    assert Dlist(h1, t);
    assert Dlist(h2, v);
  }

  lemma CountersFacts(E: seq<Chunk>, nEmpty: int, minEmpty: int, idle: set<Chunk>)
    requires Counters(E, nEmpty, minEmpty, idle)
    ensures nEmpty == |E| && 0 <= minEmpty <= nEmpty
    ensures forall i | |E| - minEmpty <= i < |E| :: E[i] in idle
  {
  }

  /** The books after mp_pool_clean. */
  lemma Cleaned(g: Shape, capacity: nat, u: seq<Chunk>, kept: seq<Chunk>, freed: seq<Chunk>)
    requires Sorted(g, capacity) && 0 < capacity && Distinct(g.E) && g.E == kept + freed
    requires multiset(u) == multiset(g.U)
    ensures Sorted(Shape(kept, u, g.F, g.live - (set c | c in freed), set c | c in kept), capacity)
    ensures Counters(kept, |kept|, |kept|, set c | c in kept)
  {
    forall c ensures c in u <==> c in g.U {
      assert c in multiset(u) <==> c in multiset(g.U);
    }
    forall i, j | 0 <= i < |kept| && 0 <= j < |freed| ensures kept[i] != freed[j] {
      assert g.E[i] != g.E[|kept| + j];
    }
    forall c | c in kept ensures c in g.E {
      var i :| 0 <= i < |kept| && kept[i] == c;
      assert g.E[i] == c;
    }
    forall c | c in freed ensures c in g.E {
      var i :| 0 <= i < |freed| && freed[i] == c;
      assert g.E[|kept| + i] == c;
    }
  }

  lemma ContentsAt(live: Holdings, capacity: nat, c: Chunk)
    requires Contents(live, capacity) && c in live
    ensures c.nAllocated == |live[c]| <= capacity && c.capacity == capacity
  {
    c.Room();
  }

  lemma CountersPush(E: seq<Chunk>, nEmpty: int, minEmpty: int, idle: set<Chunk>, c: Chunk)
    requires Counters(E, nEmpty, minEmpty, idle)
    ensures Counters([c] + E, nEmpty + 1, minEmpty, idle)
  {
  }

  /** A full chunk that gets an item back is a used one: it has room for at least two. */
  lemma ReleasedFull(g: Shape, capacity: nat, c: Chunk, k: nat) returns (i: nat)
    requires Sorted(g, capacity) && 2 <= capacity && Distinct(g.F)
    requires c in g.live && k in g.live[c] && |g.live[c]| == capacity
    ensures i < |g.F| && g.F[i] == c
    ensures Sorted(Shape(g.E, [c] + g.U, Without(g.F, i), g.live[c := g.live[c] - {k}], g.idle), capacity)
  {
    i :| 0 <= i < |g.F| && g.F[i] == c;
    hide Without;
    WithoutMembers(g.F, i);
    assert |g.live[c] - {k}| == |g.live[c]| - 1;
  }

  lemma ReleasedLast(g: Shape, capacity: nat, c: Chunk, k: nat) returns (i: nat)
    requires Sorted(g, capacity) && 2 <= capacity && Distinct(g.U)
    requires c in g.live && k in g.live[c] && |g.live[c]| == 1
    ensures i < |g.U| && g.U[i] == c && g.live[c] - {k} == {}
    ensures Sorted(Shape([c] + g.E, Without(g.U, i), g.F, g.live[c := g.live[c] - {k}], g.idle), capacity)
  {
    i :| 0 <= i < |g.U| && g.U[i] == c;
    hide Without;
    WithoutMembers(g.U, i);
    assert |g.live[c] - {k}| == |g.live[c]| - 1;
  }

  lemma ReleasedUsed(g: Shape, capacity: nat, c: Chunk, k: nat)
    requires Sorted(g, capacity)
    requires c in g.live && k in g.live[c] && 1 < |g.live[c]| < capacity
    ensures Sorted(g.(live := g.live[c := g.live[c] - {k}]), capacity)
  {
    assert |g.live[c] - {k}| == |g.live[c]| - 1;
  }

  lemma WithoutMembers(s: seq<Chunk>, i: nat)
    requires i < |s| && Distinct(s)
    ensures forall c :: c in Without(s, i) <==> c in s && c != s[i]
  {
    forall c | c in s && c != s[i] ensures c in Without(s, i) {
      var j :| 0 <= j < |s| && s[j] == c;
      assert Without(s, i)[if j < i then j else j - 1] == c;
    }
  }

  /** What callers hold of a chunk. */
  ghost function Held(live: Holdings, c: Chunk): set<nat> {
    if c in live then live[c] else {}
  }

  lemma PickedFacts(g: Shape, capacity: nat)
    requires Picked(g, capacity)
    ensures g.U != [] && g.U[0] in g.live && |g.live[g.U[0]]| < capacity
    ensures NoneIn(g.U, g.F) && NoneIn(g.U, g.E) && NoneIn(g.F, g.E)
    ensures forall d | d in g.U || d in g.F || d in g.E :: d in g.live
  {
  }

  lemma ContentsNew(live: Holdings, capacity: nat, c: Chunk)
    requires Contents(live, capacity) && c.Ok() && c.capacity == capacity && c.live == {}
    ensures Contents(live[c := {}], capacity)
  {
  }

  /** PopPush leaves the contents of the chunks alone. */
  method MoveFirst(c: Chunk, to: Chunk?, other: Chunk?, ghost s: seq<Chunk>, ghost t: seq<Chunk>, ghost u: seq<Chunk>,
                   ghost live: Holdings, ghost capacity: nat)
    returns (from': Chunk?, to': Chunk?)
    requires Dlist(c, s) && Dlist(to, t) && Dlist(other, u)
    requires s != [] && NoneIn(s, t) && NoneIn(s, u) && NoneIn(t, u)
    requires Contents(live, capacity) && forall d | d in s || d in t :: d in live
    modifies live.Keys`next, live.Keys`prev
    ensures Dlist(from', s[1..]) && Dlist(to', [c] + t) && Dlist(other, u) && Contents(live, capacity)
  {
    hide Dlist, NoneIn;
    from', to' := PopPush(c, to, other, s, t, u);
  }

  /** The chunk hands out an item; the lists are as before. */
  method TakeItem(c: Chunk, ghost live: Holdings, ghost capacity: nat, ghost h1: Chunk?, ghost h2: Chunk?,
                  ghost h3: Chunk?, ghost s: seq<Chunk>, ghost t: seq<Chunk>, ghost u: seq<Chunk>)
    returns (k: nat)
    requires Dlist(h1, s) && Dlist(h2, t) && Dlist(h3, u)
    requires Contents(live, capacity) && c in live && |live[c]| < capacity
    modifies c`firstFree, c`nextFree, c`nAllocated, c`carved, c`stack, c`live
    ensures Dlist(h1, s) && Dlist(h2, t) && Dlist(h3, u)
    ensures k < capacity && k !in live[c] && Contents(live[c := live[c] + {k}], capacity)
    ensures c.nAllocated == |live[c] + {k}| && c.capacity == capacity
  {
    hide Distinct;
    k := c.Take();
    assert Dlist(h1, s);
    assert Dlist(h2, t);
    assert Dlist(h3, u);
  }

  /** The chunk takes an item back, and forgets how it was carved if that was its last; the
      lists are as before. */
  method GiveItem(c: Chunk, k: nat, ghost live: Holdings, ghost capacity: nat, ghost h1: Chunk?, ghost h2: Chunk?,
                  ghost h3: Chunk?, ghost s: seq<Chunk>, ghost t: seq<Chunk>, ghost u: seq<Chunk>)
    requires Dlist(h1, s) && Dlist(h2, t) && Dlist(h3, u)
    requires Contents(live, capacity) && c in live && k in live[c]
    modifies c`firstFree, c`nextFree, c`nAllocated, c`carved, c`stack, c`live
    ensures Dlist(h1, s) && Dlist(h2, t) && Dlist(h3, u)
    ensures Contents(live[c := live[c] - {k}], capacity)
  {
    hide Distinct;
    c.Give(k);
    c.Room();
    if c.nAllocated == 0 {
      c.Reset();
    }
    assert Dlist(h1, s);
    assert Dlist(h2, t);
    assert Dlist(h3, u);
  }

  /** UnlinkPush leaves the contents of the chunks alone. */
  method MoveAny(c: Chunk, from: Chunk?, to: Chunk?, other: Chunk?, ghost i: nat, ghost s: seq<Chunk>,
                 ghost t: seq<Chunk>, ghost u: seq<Chunk>, ghost live: Holdings, ghost capacity: nat)
    returns (from': Chunk?, to': Chunk?)
    requires Dlist(from, s) && Dlist(to, t) && Dlist(other, u)
    requires i < |s| && s[i] == c && NoneIn(s, t) && NoneIn(s, u) && NoneIn(t, u)
    requires Contents(live, capacity) && forall d | d in s || d in t :: d in live
    modifies live.Keys`next, live.Keys`prev
    ensures Dlist(from', Without(s, i)) && Dlist(to', [c] + t) && Dlist(other, u) && Contents(live, capacity)
  {
    hide Dlist, NoneIn;
    from', to' := UnlinkPush(c, from, to, other, i, s, t, u);
  }
}
