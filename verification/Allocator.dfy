/** The whole of malloc and free in src/common/OpenBSD_malloc_Linux.c: pages, the buckets of
    chunks that are cut from pages, and the struct pginfo of a page that lies in another bucket. */
module Allocator {
  import opened ChunkBits
  import opened ChunkBucket
  import opened ChunkPage
  import opened Division
  import opened Limits
  import opened Wrappers
  import opened ChunkBooks
  import opened BucketTable
  import PageHeap
  import PageRuns

  /** The pages tagged as cut are those that a bucket has. */
  ghost predicate Matching(tag: PageHeap.Dir, owner: map<nat, nat>) {
    forall q: nat :: q in PageHeap.ChunkPages(tag) <==> q * PAGE_SIZE in owner
  }

  /** The pointers to the struct pginfo are the addresses of the chunks in which v has them. */
  ghost predicate Tied(header: map<nat, nat>, v: View) {
    && header.Keys == v.header.Keys
    && forall a | a in header && Guest(v, a) :: header[a] == Address(v.header[a], HeaderBucket(v.owner[a]))
  }

  lemma TiedOpened(header: map<nat, nat>, v: View, j: nat, c: ChunkId, hc: ChunkId)
    requires Joined(v) && Tied(header, v) && IsBucket(j) && c.0 !in v.owner
    ensures var w := Opened(v, j, c, hc);
            if SelfHosted(j) then Tied(header, w) else Tied(header[c.0 := Address(hc, HeaderBucket(j))], w)
  {
    hide SelfHosted, Address;
  }

  lemma TiedServed(header: map<nat, nat>, v: View, live: set<ChunkId>)
    requires Tied(header, v)
    ensures Tied(header, v.(live := live))
  {
    hide Address, SelfHosted;
    var w := v.(live := live);
    assert forall a | Guest(w, a) :: Guest(v, a);
  }

  lemma TiedClosed(header: map<nat, nat>, v: View, a: nat)
    requires Tied(header, v)
    ensures Tied(header - {a}, Closed(v, a))
    ensures header.Keys == v.header.Keys
    ensures Guest(v, a) && a in header ==> header[a] == Address(v.header[a], HeaderBucket(v.owner[a]))
  {
    hide Address, SelfHosted;
    var w := Closed(v, a);
    assert forall b | Guest(w, b) :: Guest(v, b);
  }

  /** The live runs of pages that are not cut. */
  ghost function RunsOf(live: map<nat, nat>, tag: PageHeap.Dir): map<nat, nat> {
    map q | q in live && q !in PageHeap.ChunkPages(tag) :: live[q]
  }

  lemma RunsChange(live: map<nat, nat>, tag: PageHeap.Dir, live': map<nat, nat>, tag': PageHeap.Dir)
    requires PageHeap.ChunkPages(tag) == PageHeap.ChunkPages(tag')
    ensures live' == live ==> RunsOf(live', tag') == RunsOf(live, tag)
    ensures RunsOf(live', tag') == RunsOf(live', tag)
  {
  }

  lemma MatchingStays(tag: PageHeap.Dir, tag': PageHeap.Dir, owner: map<nat, nat>)
    requires PageHeap.ChunkPages(tag) == PageHeap.ChunkPages(tag') && Matching(tag, owner)
    ensures Matching(tag', owner)
  {
    hide PageHeap.ChunkPages;
  }

  lemma RunsGrow(live: map<nat, nat>, tag: PageHeap.Dir, p: nat, n: nat)
    ensures p !in PageHeap.ChunkPages(tag) ==> RunsOf(live[p := n], tag) == RunsOf(live, tag)[p := n]
    ensures RunsOf(live - {p}, tag) == RunsOf(live, tag) - {p}
    ensures p in RunsOf(live, tag) <==> p in live && p !in PageHeap.ChunkPages(tag)
    ensures p in RunsOf(live, tag) ==> RunsOf(live, tag)[p] == live[p]
  {
  }

  /** The pages of a new run are what the system gave, or were there before. */
  ghost predicate Mapped(tag: PageHeap.Dir, tag': PageHeap.Dir, p: nat, n: nat, guard: nat, os: Option<nat>) {
    && (forall q | q in tag' :: q in tag || PageHeap.Holds(p, n, guard, q))
    && (Some(p) != os ==> forall q | PageHeap.Holds(p, n, guard, q) :: q in tag)
  }

  lemma IsMapped(tag: PageHeap.Dir, tag': PageHeap.Dir, p: nat, n: nat, guard: nat, os: Option<nat>)
    requires PageHeap.Marked(tag, p, n, guard, tag')
    requires Some(p) != os ==> forall q | PageHeap.Holds(p, n, guard, q) :: q in tag
    ensures Mapped(tag, tag', p, n, guard, os)
  {
  }

  /** What mmap answers if it is asked for a page: os[l] at level l, each a page nobody has. */
  ghost predicate Offers(tag: PageHeap.Dir, guard: nat, os: seq<Option<nat>>, l: nat) {
    && l < |os|
    && (forall i, q | 0 <= i <= l && os[i].Some? && PageHeap.Holds(os[i].value, 1, guard, q) :: q !in tag)
    && (forall i, k, q | 0 <= i < k <= l && os[i].Some? && os[k].Some? && PageHeap.Holds(os[i].value, 1, guard, q) ::
          !PageHeap.Holds(os[k].value, 1, guard, q))
  }

  lemma OffersLess(tag: PageHeap.Dir, tag': PageHeap.Dir, p: nat, guard: nat, os: seq<Option<nat>>, l: nat, m: nat)
    requires Offers(tag, guard, os, l) && Mapped(tag, tag', p, 1, guard, os[l]) && m < l
    ensures Offers(tag', guard, os, m)
  {
    hide PageHeap.Holds;
  }

  class Allocator {
    const heap: PageHeap.Heap
    const dir: PageDir
    /** The struct pginfo of each page that does not have it on itself. */
    var header: map<nat, nat>
    ghost var v: View
    ghost var nodes: set<Page>

    ghost predicate Valid()
      reads this, heap, dir.buckets.Values, nodes
    {
      heap.Valid() && dir.Valid(v.owner, v.live, nodes) && Joined(v) && Tied(header, v) && Matching(heap.tag, v.owner)
    }

    /** The page allocations that callers hold. */
    ghost function Runs(): map<nat, nat>
      reads heap
    {
      RunsOf(heap.live, heap.tag)
    }

    lemma Parts()
      ensures Valid() <==>
              && heap.Valid() && dir.Valid(v.owner, v.live, nodes)
              && Joined(v) && Tied(header, v) && Matching(heap.tag, v.owner)
      ensures Runs() == RunsOf(heap.live, heap.tag)
    {
    }

    /** malloc_init, with malloc_cache and malloc_guard in pages. */
    constructor (cache: nat, guard: nat)
      requires 0 < cache < PageHeap.ADDRESSABLE && guard <= 1
      ensures Valid() && Runs() == map[] && Held(v) == map[] && heap.guard == guard
    {
      hide PageHeap.Heap.Valid, PageDir.Valid;
      heap := new PageHeap.Heap(cache, guard);
      dir := new PageDir();
      header, v, nodes := map[], View(map[], {}, map[]), {};
    }

    /** malloc_pages for a large request. */
    method MallocPages(size: nat, os: Option<nat>) returns (p: Option<nat>)
      requires Valid() && 0 < size
      requires os.Some? ==> forall q | PageHeap.Holds(os.value, heap.PageCount(size), heap.guard, q) :: q !in heap.tag
      modifies heap
      ensures Valid()
      ensures p.Some? ==>
                && p.value !in old(Runs())
                && Mapped(old(heap.tag), heap.tag, p.value, heap.PageCount(size), heap.guard, os)
      ensures Runs() == if p.None? then old(Runs()) else old(Runs())[p.value := heap.PageCount(size)]
      ensures var need := heap.PageCount(size) + heap.guard;
              && heap.free == PageHeap.TakenFrom(old(heap.free), need)
              && (p.None? <==> PageHeap.NoPages(old(heap.free), need, os))
    {
      hide *;
      Parts();
      heap.CutAreLive();
      ghost var live, tag := heap.live, heap.tag;
      PageHeap.FirstFit(heap.free, heap.PageCount(size) + heap.guard, os);
      p := heap.MallocPages(size, false, os);
      RunsChange(live, tag, heap.live, heap.tag);
      if p.Some? {
        RunsGrow(live, tag, p.value, heap.PageCount(size));
        IsMapped(tag, heap.tag, p.value, heap.PageCount(size), heap.guard, os);
      }
      MatchingStays(tag, heap.tag, v.owner);
      Parts();
    }

    /** free_pages for a pointer into a page that is not cut.  Callers do not pass a guard page. */
    method FreePages(p: nat, offset: nat, munmapOk: bool) returns (r: PageHeap.FreeResult)
      requires Valid() && p !in PageHeap.ChunkPages(heap.tag)
      requires p in heap.tag && heap.tag[p] == PageHeap.First && offset == 0 ==> p in Runs()
      modifies heap
      ensures Valid() && (r == PageHeap.Done <==> p in old(Runs()) && offset == 0)
      ensures Runs() == if r == PageHeap.Done then old(Runs()) - {p} else old(Runs())
    {
      hide *;
      Parts();
      RunsGrow(heap.live, heap.tag, p, 0);
      heap.NotCut(p);
      ghost var live, tag, g, pf, cachesize := heap.live, heap.tag, [], 0, 0;
      r, g, pf, cachesize := heap.FreePages(p, offset, true, munmapOk);
      RunsChange(live, tag, heap.live, heap.tag);
      RunsChange(heap.live, tag, heap.live, heap.tag);
      MatchingStays(tag, heap.tag, v.owner);
      Parts();
    }

    /** ifree of a page that was just taken or has just become whole again. */
    method ReturnPage(p: nat, munmapOk: bool)
      requires Valid() && p in Runs()
      modifies heap
      ensures Valid() && Runs() == old(Runs()) - {p}
    {
      hide *;
      Parts();
      RunsGrow(heap.live, heap.tag, p, 0);
      var r := FreePages(p, 0, munmapOk);
    }

    /** malloc_bytes while the bucket has a page with room. */
    method Serve(j: nat, memory: Bitmap, random: nat) returns (r: Pointer, ghost c: ChunkId)
      requires Valid() && IsBucket(j) && dir.Room(j) && |memory| == WordsFor(j)
      modifies this`v, this`nodes, dir.buckets.Values, nodes
      ensures Valid() && fresh(nodes - old(nodes))
      ensures c !in old(Held(v)) && Held(v) == old(Held(v))[c := j] && r == At(Address(c, j))
      ensures forall k | k != j :: dir.Room(k) == old(dir.Room(k))
    {
      hide PageHeap.Heap.Valid, PageDir.Valid, PageHeap.ChunkPages, Joined, Held, Placed, PageDir.Room, Address, Tied;
      ghost var nodes';
      r, c, nodes' := dir.Malloc(j, Null, memory, heap.guard > 0, random, v.owner, v.live, nodes);
      Serves(v, c);
      TiedServed(header, v, v.live + {c});
      v, nodes := v.(live := v.live + {c}), nodes';
    }

    /** The rest of malloc_make_chunks once page p is there and, if it is needed, the chunk hc for
        its struct pginfo; the first chunk is handed out. */
    method CutPage(j: nat, p: nat, h: Pointer, ghost hc: ChunkId, memory: Bitmap, random: nat)
      returns (r: Pointer, ghost c: ChunkId)
      requires Valid() && IsBucket(j) && !dir.Room(j) && |memory| == WordsFor(j)
      requires p in Runs() && Runs()[p] == 1
      requires !SelfHosted(j) ==>
                 hc in Held(v) && Held(v)[hc] == HeaderBucket(j) && h == At(Address(hc, HeaderBucket(j)))
      modifies this, heap`tag, dir.buckets.Values, nodes
      ensures Valid() && fresh(nodes - old(nodes))
      ensures c !in old(Held(v)) && Held(v) == (if SelfHosted(j) then old(Held(v)) else old(Held(v)) - {hc})[c := j]
      ensures r == At(Address(c, j))
      ensures Runs() == old(Runs()) - {p}
      ensures forall k | k != j :: dir.Room(k) == old(dir.Room(k))
    {
      hide *;
      Parts();
      RunsGrow(heap.live, heap.tag, p, 0);
      heap.RunIsFirst(p);
      PageAddress(p);
      MatchingIs(heap.tag, v.owner, p);
      ghost var nodes', tag := nodes, heap.tag;
      r, c, nodes' := dir.Malloc(j, At(p * PAGE_SIZE), memory, heap.guard > 0, random, v.owner, v.live, nodes);
      heap.CutIntoChunks(p);
      Opens(v, j, c, hc);
      IsOpened(v, j, c, hc);
      TiedOpened(header, v, j, c, hc);
      MatchingCut(tag, p, v.owner, j);
      RunsCut(heap.live, tag, p);
      if !SelfHosted(j) {
        header := header[p * PAGE_SIZE := h.address];
      }
      v, nodes := Opened(v, j, c, hc), nodes';
      Parts();
    }

    /** What it takes to serve requests from bucket j: memory for a page at each level, and what
        the memory for the struct pginfo of each bucket holds at first. */
    ghost predicate Supplied(j: nat, os: seq<Option<nat>>, junk: nat -> Bitmap)
      reads heap`tag
    {
      IsBucket(j) && Offers(heap.tag, heap.guard, os, Level(j)) && forall k | IsBucket(k) :: |junk(k)| == WordsFor(k)
    }

    lemma SuppliedIs(j: nat, os: seq<Option<nat>>, junk: nat -> Bitmap)
      requires Supplied(j, os, junk)
      ensures IsBucket(j) && Level(j) < |os| && |junk(j)| == WordsFor(j)
      ensures os[Level(j)].Some? ==>
                forall q | PageHeap.Holds(os[Level(j)].value, heap.PageCount(PAGE_SIZE), heap.guard, q) ::
                    q !in heap.tag
      ensures heap.PageCount(PAGE_SIZE) == 1 && 0 < PAGE_SIZE
    {
    }

    lemma SuppliedLess(tag: PageHeap.Dir, j: nat, os: seq<Option<nat>>, junk: nat -> Bitmap, p: nat, k: nat)
      requires IsBucket(j) && Offers(tag, heap.guard, os, Level(j)) && IsBucket(k) && Level(k) < Level(j)
      requires Mapped(tag, heap.tag, p, 1, heap.guard, os[Level(j)])
      requires forall i | IsBucket(i) :: |junk(i)| == WordsFor(i)
      ensures Supplied(k, os, junk)
    {
      OffersLess(tag, heap.tag, p, heap.guard, os, Level(j), Level(k));
    }

    /** malloc_make_chunks asks for a page, which leaves the supplies for the levels below. */
    method NewPage(j: nat, os: seq<Option<nat>>, junk: nat -> Bitmap) returns (p: Option<nat>)
      requires Valid() && Supplied(j, os, junk)
      modifies heap
      ensures Valid() && (p.Some? ==> p.value !in old(Runs()))
      ensures Runs() == if p.None? then old(Runs()) else old(Runs())[p.value := 1]
      ensures p.Some? && !SelfHosted(j) ==> Supplied(HeaderBucket(j), os, junk)
      ensures Level(j) < |os| && heap.free == PageHeap.TakenFrom(old(heap.free), 1 + heap.guard)
      ensures p.None? <==> PageHeap.NoPages(old(heap.free), 1 + heap.guard, os[Level(j)])
    {
      hide PageHeap.TakenFrom, PageHeap.NoPages;
      hide Valid, Offers, Mapped, Level, SelfHosted, HeaderBucket, WordsFor, IsBucket, PageHeap.Heap.PageCount, Runs,
           PageHeap.Holds;
      SuppliedIs(j, os, junk);
      ghost var tag := heap.tag;
      p := MallocPages(PAGE_SIZE, os[Level(j)]);
      if p.Some? && !SelfHosted(j) {
        Levels(j);
        SuppliedLess(tag, j, os, junk, p.value, HeaderBucket(j));
      }
    }

    /** Bucket j cannot serve a request: it has no page with room, and there is none to be had, the
        bucket for its struct pginfo cannot serve a request either with what is left of the free
        list, or the page would have to be protected and cannot be. */
    ghost predicate Starved(free: seq<PageRuns.Run>, j: nat, os: seq<Option<nat>>, protects: bool)
      requires IsBucket(j) && Level(j) < |os|
      reads dir.buckets.Values
      decreases Level(j)
    {
      && !dir.Room(j)
      && (|| PageHeap.NoPages(free, 1 + heap.guard, os[Level(j)])
          || (assert !SelfHosted(j) ==> Level(HeaderBucket(j)) < Level(j) by { Levels(j); }
              !SelfHosted(j) && Starved(PageHeap.TakenFrom(free, 1 + heap.guard), HeaderBucket(j), os, protects))
          || (j == 0 && !protects))
    }

    /** malloc_bytes: a page is cut for bucket j if it has none with room, which may take a chunk
        from another bucket for its struct pginfo.  On failure what was taken is given back. */
    method MallocBytes(j: nat, os: seq<Option<nat>>, protects: bool, junk: nat -> Bitmap, random: nat, munmapOk: bool)
      returns (r: Pointer, ghost c: ChunkId)
      requires Valid() && Supplied(j, os, junk)
      modifies this, heap, dir.buckets.Values, nodes
      ensures Valid() && fresh(nodes - old(nodes)) && Runs() == old(Runs())
      ensures if r == Null then Held(v) == old(Held(v))
              else c !in old(Held(v)) && Held(v) == old(Held(v))[c := j] && r == At(Address(c, j))
      ensures Level(j) < |os| && (r == Null <==> old(Starved(heap.free, j, os, protects)))
      ensures forall k | IsBucket(k) && Level(k) > Level(j) :: dir.Room(k) == old(dir.Room(k))
      decreases Level(j)
    {
      hide *;
      SuppliedIs(j, os, junk);
      StarvedIs(heap.free, j, os, protects);
      if dir.Room(j) {
        r, c := Serve(j, junk(j), random);
        return;
      }
      var p := NewPage(j, os, junk);
      if p.None? {
        return Null, (0, 0);
      }
      ghost var hc := (0, 0);
      var h := Null;
      Undo(old(Runs()), p.value);
      if !SelfHosted(j) {
        Levels(j);
        h, hc := MallocBytes(HeaderBucket(j), os, protects, junk, random, munmapOk);
        if h == Null {
          ReturnPage(p.value, munmapOk);
          return Null, (0, 0);
        }
        GivenAway(old(Held(v)), hc, HeaderBucket(j));
      }
      if j == 0 && !protects {
        NoneHosted();
        CanFree(hc, HeaderBucket(j));
        ReturnPage(p.value, munmapOk);
        CanFree(hc, HeaderBucket(j));
        var again := FreeBytes(h.address, HeaderBucket(j), munmapOk);
        return Null, (0, 0);
      }
      r, c := CutPage(j, p.value, h, hc, junk(j), random);
    }

    lemma StarvedIs(free: seq<PageRuns.Run>, j: nat, os: seq<Option<nat>>, protects: bool)
      requires IsBucket(j) && Level(j) < |os|
      ensures !SelfHosted(j) ==> Level(HeaderBucket(j)) < Level(j)
      ensures Starved(free, j, os, protects) <==>
              && !dir.Room(j)
              && (|| PageHeap.NoPages(free, 1 + heap.guard, os[Level(j)])
                  || (!SelfHosted(j)
                     && Starved(PageHeap.TakenFrom(free, 1 + heap.guard), HeaderBucket(j), os, protects))
                  || (j == 0 && !protects))
    {
      Levels(j);
    }

    /** An idle page is no longer cut. */
    method GiveUp(p: nat, j: nat, ghost c: ChunkId) returns (h: Pointer, ghost hc: ChunkId)
      requires heap.Valid() && dir.Valid(v.owner - {c.0}, v.live - {c}, nodes)
      requires Joined(v) && Tied(header, v) && Matching(heap.tag, v.owner) && IsBucket(j)
      requires c in Held(v) && Held(v)[c] == j && (forall d: ChunkId | d in v.live - {c} :: d.0 != c.0)
      requires c.0 == p * PAGE_SIZE
      modifies this, heap`tag
      ensures Valid() && nodes == old(nodes)
      ensures Held(v) == if SelfHosted(j) then old(Held(v)) - {c} else (old(Held(v)) - {c})[hc := HeaderBucket(j)]
      ensures p !in old(Runs()) && Runs() == old(Runs())[p := 1]
      ensures !SelfHosted(j) ==>
                hc !in old(Held(v)) && h == At(Address(hc, HeaderBucket(j)))
    {
      hide *;
      Parts();
      h, hc := Null, (0, 0);
      HeadersLive(v);
      GivesUp(v, c);
      MatchingIs(heap.tag, v.owner, p);
      heap.CutAreLive();
      RunsGrow(heap.live, heap.tag, p, 0);
      RunsCut(heap.live, heap.tag, p);
      MatchingWhole(heap.tag, p, v.owner);
      TiedServed(header, v, v.live - {c});
      TiedClosed(header, v.(live := v.live - {c}), c.0);
      if !SelfHosted(j) {
        h, hc := At(header[p * PAGE_SIZE]), v.header[c.0];
      }
      heap.MakeWhole(p);
      header := header - {p * PAGE_SIZE};
      v := View(v.owner - {c.0}, v.live - {c}, v.header - {c.0});
      Parts();
    }

    /** free_bytes up to the point where it gives up an idle page: p is then a run of its own
        again, and h points at its struct pginfo if that lies elsewhere. */
    method TakeBack(ptr: nat, j: nat) returns (result: FreeResult, released: bool, h: Pointer, ghost hc: ChunkId)
      requires Valid() && IsBucket(j) && Frees(ptr, j)
      modifies this, heap`tag, dir.buckets.Values, nodes
      ensures Valid() && nodes == old(nodes)
      ensures var c := PointsAt(ptr, j);
              && (result == ModifiedPointer <==> ptr != Address(c, j))
              && (result == AlreadyFree <==> ptr == Address(c, j) && c !in old(Held(v)))
              && (released ==> result == Freed)
              && Held(v) == (var held := if result == Freed then old(Held(v)) - {c} else old(Held(v));
                             if released && !SelfHosted(j) then held[hc := HeaderBucket(j)] else held)
              && (if released then c.0 / PAGE_SIZE !in old(Runs()) && Runs() == old(Runs())[c.0 / PAGE_SIZE := 1]
                  else Runs() == old(Runs()))
              && (released && !SelfHosted(j) ==>
                    hc !in old(Held(v)) && h == At(Address(hc, HeaderBucket(j))))
      ensures forall k | k != j :: dir.Room(k) == old(dir.Room(k))
    {
      hide *;
      Parts();
      FreesIs(ptr, j);
      ghost var c, v0 := PointsAt(ptr, j), v;
      h, hc := Null, (0, 0);
      HeadersLive(v);
      PointsAtIs(ptr, j);
      PageOf(ptr);
      result, released := dir.Free(ptr, j, v.owner, v.live, nodes);
      if released {
        h, hc := GiveUp(ptr / PAGE_SIZE, j, c);
      } else if result == Freed {
        Gives(v0, c);
        TiedServed(header, v0, v.live - {c});
        v := v0.(live := v0.live - {c});
      }
      Parts();
    }

    /** free_bytes, which frees an idle page and the chunk of its struct pginfo as well. */
    method FreeBytes(ptr: nat, j: nat, munmapOk: bool) returns (result: FreeResult)
      requires Valid() && IsBucket(j) && Frees(ptr, j)
      modifies this, heap, dir.buckets.Values, nodes
      ensures Valid() && nodes == old(nodes) && Runs() == old(Runs())
      ensures var c := PointsAt(ptr, j);
              && (result == ModifiedPointer <==> ptr != Address(c, j))
              && (result == AlreadyFree <==> ptr == Address(c, j) && c !in old(Held(v)))
              && Held(v) == if result == Freed then old(Held(v)) - {c} else old(Held(v))
      ensures forall k | IsBucket(k) && Level(k) > Level(j) :: dir.Room(k) == old(dir.Room(k))
      decreases Level(j)
    {
      hide *;
      var released, h;
      ghost var hc;
      PointsAtIs(ptr, j);
      PageOf(ptr);
      ghost var c, p := PointsAt(ptr, j), ptr / PAGE_SIZE;
      result, released, h, hc := TakeBack(ptr, j);
      if released {
        Undo(old(Runs()), ptr / PAGE_SIZE);
        if !SelfHosted(j) {
          Levels(j);
          CanFree(hc, HeaderBucket(j));
          GivenAway(old(Held(v)) - {c}, hc, HeaderBucket(j));
          var again := FreeBytes(h.address, HeaderBucket(j), munmapOk);
        }
        ReturnPage(ptr / PAGE_SIZE, munmapOk);
      }
    }

    /** The address of a chunk that is held can be freed. */
    lemma CanFree(c: ChunkId, j: nat)
      requires Valid() && IsBucket(j) && c in Held(v) && Held(v)[c] == j
      ensures Frees(Address(c, j), j) && PointsAt(Address(c, j), j) == c
    {
      hide PageHeap.Heap.Valid, PageDir.Valid;
      AddressPoints(c, j);
    }

    /** The pointer is into a page of bucket j behind its struct pginfo, and not at a chunk that
        the allocator itself has taken. */
    ghost predicate Frees(ptr: nat, j: nat)
      requires IsBucket(j)
      reads this`v
    {
      var c := PointsAt(ptr, j);
      c.0 in v.owner && v.owner[c.0] == j && Stolen(j) <= c.1 && (c in v.live ==> c in Held(v))
    }

    lemma FreesIs(ptr: nat, j: nat)
      requires IsBucket(j)
      ensures Frees(ptr, j) <==>
              var c := PointsAt(ptr, j);
              c.0 in v.owner && v.owner[c.0] == j && Stolen(j) <= c.1 && (c in v.live ==> c in Held(v))
    {
    }

    // -------------------------------------------------------------------------------------------
    // Nothing overlaps.

    /** The memory that is in use, by callers and by the allocator for itself. */
    ghost predicate InUse(x: Block)
      reads this, heap
    {
      match x
      case Pages(p) => p in Runs()
      case Piece(c) => c in v.live && c.0 in v.owner
      case Info(a) => a in v.owner && IsBucket(v.owner[a]) && SelfHosted(v.owner[a])
    }

    ghost function Start(x: Block): nat
      requires Valid() && InUse(x)
      reads this, heap, dir.buckets.Values, nodes
    {
      match x
      case Pages(p) => p * PAGE_SIZE
      case Piece(c) => Address(c, v.owner[c.0])
      case Info(a) => a
    }

    ghost function Size(x: Block): nat
      requires Valid() && InUse(x)
      reads this, heap, dir.buckets.Values, nodes
    {
      match x
      case Pages(p) => Runs()[p] * PAGE_SIZE
      case Piece(c) => Unit(v.owner[c.0])
      case Info(a) => AdminSize(v.owner[a])
    }

    /** A block lies inside one live run of pages, which is cut unless the block is that run. */
    lemma Inside(x: Block)
      requires Valid() && InUse(x)
      ensures var q := Home(x);
              && q in heap.live && q * PAGE_SIZE <= Start(x) && Start(x) + Size(x) <= (q + heap.live[q]) * PAGE_SIZE
              && (x.Pages? <==> q !in PageHeap.ChunkPages(heap.tag)) && (!x.Pages? ==> q * PAGE_SIZE in v.owner)
    {
      hide PageHeap.Heap.Valid, PageDir.Valid, PageHeap.ChunkPages, Unit, SelfHosted, AdminSize, Stolen, Chunks;
      heap.CutAreLive();
      match x {
        case Pages(p) =>
        case Piece(c) =>
          assert Placed(c, v.owner[c.0]);
          ChunkInside(c, v.owner[c.0]);
          MatchingIs(heap.tag, v.owner, c.0 / PAGE_SIZE);
        case Info(a) =>
          InfoInside(v.owner[a]);
          MatchingIs(heap.tag, v.owner, a / PAGE_SIZE);
      }
    }

    /** No two blocks in use overlap. */
    lemma BlocksApart(x: Block, y: Block)
      requires Valid() && InUse(x) && InUse(y) && x != y
      ensures Start(x) + Size(x) <= Start(y) || Start(y) + Size(y) <= Start(x)
    {
      hide PageHeap.Heap.Valid, PageDir.Valid, PageHeap.ChunkPages, Unit, SelfHosted, AdminSize, Stolen, Chunks;
      Inside(x);
      Inside(y);
      var q, r := Home(x), Home(y);
      if q < r {
        heap.RunsApart(q, r);
      } else if r < q {
        heap.RunsApart(r, q);
      } else if x.Piece? && y.Piece? {
        ChunksApart(x.c, y.c, v.owner[x.c.0]);
      } else if x.Piece? {
        ChunkInside(x.c, v.owner[x.c.0]);
      } else if y.Piece? {
        ChunkInside(y.c, v.owner[y.c.0]);
      }
    }

    /** Each page that is tagged as cut is in exactly one bucket, and no other page is in any. */
    lemma CutByOne(q: nat)
      requires Valid()
      ensures q in PageHeap.ChunkPages(heap.tag) <==>
                exists j :: j in dir.buckets && q * PAGE_SIZE in dir.buckets[j].owner
      ensures forall j, k | j in dir.buckets && k in dir.buckets
                            && q * PAGE_SIZE in dir.buckets[j].owner && q * PAGE_SIZE in dir.buckets[k].owner :: j == k
    {
      hide PageHeap.Heap.Valid, PageDir.Valid, PageHeap.ChunkPages, Placed;
      MatchingIs(heap.tag, v.owner, q);
      dir.Parts(v.owner, v.live, nodes);
      forall j | j in dir.buckets
          ensures q * PAGE_SIZE in dir.buckets[j].owner <==> q * PAGE_SIZE in v.owner && v.owner[q * PAGE_SIZE] == j {
        dir.Home(j, v.owner, v.live, nodes);
      }
    }

    // -------------------------------------------------------------------------------------------
    // malloc and free.

    /** What callers hold is the block x more than before. */
    ghost predicate Gained(runs: map<nat, nat>, held: map<ChunkId, nat>, x: Block)
      reads this, heap
    {
      match x
      case Pages(p) => p !in runs && p in Runs() && Runs() == runs[p := Runs()[p]] && Held(v) == held
      case Piece(c) => c !in held && c in Held(v) && Held(v) == held[c := Held(v)[c]] && Runs() == runs
      case Info(_) => false
    }

    ghost predicate Lost(runs: map<nat, nat>, held: map<ChunkId, nat>, x: Block)
      reads this, heap
    {
      match x
      case Pages(p) => p in runs && Runs() == runs - {p} && Held(v) == held
      case Piece(c) => c in held && Held(v) == held - {c} && Runs() == runs
      case Info(_) => false
    }

    /** What makes a request fail: it is absurdly large, or its bucket cannot serve it, or no run of
        so many pages is to be had. */
    ghost predicate Refused(size: nat, big: Option<nat>, os: seq<Option<nat>>, protects: bool)
      requires 3 <= |os|
      reads heap, dir.buckets.Values
    {
      || size > SIZE_MAX - PAGE_SIZE
      || (size <= 2048
          && exists j | IsBucket(j) && Level(j) < |os| :: Suits(size, j) && Starved(heap.free, j, os, protects))
      || (size > 2048 && PageHeap.NoPages(heap.free, heap.PageCount(size) + heap.guard, big))
    }

    lemma RefusedIs(size: nat, big: Option<nat>, os: seq<Option<nat>>, protects: bool)
      requires 3 <= |os|
      ensures size > SIZE_MAX - PAGE_SIZE ==> Refused(size, big, os, protects)
      ensures forall j | Suits(size, j) && size <= 2048 ::
                IsBucket(j) && Level(j) < |os|
                  && (Refused(size, big, os, protects) <==> Starved(heap.free, j, os, protects))
      ensures 2048 < size <= SIZE_MAX - PAGE_SIZE ==>
                (Refused(size, big, os, protects) <==>
                  PageHeap.NoPages(heap.free, heap.PageCount(size) + heap.guard, big))
    {
      hide Starved, PageHeap.NoPages, Unit, SelfHosted;
      forall j | Suits(size, j) && size <= 2048
        ensures IsBucket(j) && Level(j) < |os|
                  && (Refused(size, big, os, protects) <==> Starved(heap.free, j, os, protects))
      {
        Levels(j);
        forall k | Suits(size, k) ensures k == j {
          SuitsOne(size, j, k);
        }
      }
    }

    /** imalloc: a new block that is large enough, or nothing and nothing has changed. */
    method Malloc(size: nat, big: Option<nat>, os: seq<Option<nat>>, protects: bool, junk: nat -> Bitmap, random: nat,
                  munmapOk: bool)
      returns (r: Pointer, ghost x: Block)
      requires Valid() && Supplied(0, os, junk)
      requires big.Some? ==> forall q | PageHeap.Holds(big.value, heap.PageCount(size), heap.guard, q) :: q !in heap.tag
      modifies this, heap, dir.buckets.Values, nodes
      ensures Valid() && fresh(nodes - old(nodes))
      ensures if r == Null then Runs() == old(Runs()) && Held(v) == old(Held(v))
              else Gained(old(Runs()), old(Held(v)), x) && InUse(x) && r == At(Start(x)) && size <= Size(x)
      ensures 3 <= |os| && (r == Null <==> old(Refused(size, big, os, protects)))
    {
      hide *;
      SuppliedIs(0, os, junk);
      Levels(0);
      LevelOfNone();
      RefusedIs(size, big, os, protects);
      x := Info(0);
      if size > SIZE_MAX - PAGE_SIZE {
        return Null, x;
      }
      if size <= 2048 {
        var j := BucketOf(size);
        SuitsIs(size, j);
        SuppliedAll(j, os, junk);
        ghost var c;
        r, c := MallocBytes(j, os, protects, junk, random, munmapOk);
        x := Piece(c);
        if r != Null {
          GainedPiece(old(Runs()), old(Held(v)), c, j);
        }
        return;
      }
      var p := MallocPages(size, big);
      if p.None? {
        return Null, x;
      }
      x := Pages(p.value);
      GainedPages(old(Runs()), p.value, size);
      r := At(p.value * PAGE_SIZE);
    }

    lemma SuitsIs(size: nat, j: nat)
      ensures Suits(size, j) ==> IsBucket(j) && size <= Unit(j)
    {
    }

    lemma SuppliedAll(j: nat, os: seq<Option<nat>>, junk: nat -> Bitmap)
      requires Supplied(0, os, junk) && IsBucket(j)
      ensures Supplied(j, os, junk)
    {
      Levels(j);
      NoneHosted();
    }

    lemma GainedPiece(runs: map<nat, nat>, held: map<ChunkId, nat>, c: ChunkId, j: nat)
      requires Valid() && IsBucket(j) && Runs() == runs && c !in held && Held(v) == held[c := j]
      ensures Gained(runs, held, Piece(c)) && InUse(Piece(c)) && Start(Piece(c)) == Address(c, j)
                && Size(Piece(c)) == Unit(j)
    {
      hide PageHeap.Heap.Valid, PageDir.Valid, Unit, Address, Placed;
      HeadersLive(v);
      hide Held;
    }

    lemma GainedPages(runs: map<nat, nat>, p: nat, size: nat)
      requires Valid() && p !in runs && Runs() == runs[p := heap.PageCount(size)]
      ensures Gained(runs, Held(v), Pages(p)) && InUse(Pages(p)) && Start(Pages(p)) == p * PAGE_SIZE
                && size <= Size(Pages(p))
    {
      hide PageHeap.Heap.Valid, PageDir.Valid, RunsOf;
    }

    /** A block that callers may free. */
    ghost predicate Freeable(x: Block)
      reads this, heap
    {
      match x
      case Pages(p) => p in Runs()
      case Piece(c) => c in Held(v)
      case Info(_) => false
    }

    /** Callers hold a block that starts at ptr. */
    ghost predicate StartsAt(x: Block, ptr: nat)
      reads this, heap, dir.buckets.Values, nodes
    {
      Valid() && Freeable(x) && InUse(x) && Start(x) == ptr
    }

    /** What is asked of a pointer that is freed: it is not the address of a guard page, and not in
        a struct pginfo. */
    ghost predicate Expected(ptr: nat)
      reads this, heap
    {
      var p, a := ptr / PAGE_SIZE, ptr - ptr % PAGE_SIZE;
      && (p in heap.tag && heap.tag[p] == PageHeap.First && ptr % PAGE_SIZE == 0 ==> p in Runs())
      && (a in v.owner && IsBucket(v.owner[a]) ==> Frees(ptr, v.owner[a]))
    }

    /** ifree: a block that starts there is given back, and exactly that one; if there is none the
        pointer is refused and nothing is lost. */
    method Free(ptr: nat, munmapOk: bool) returns (freed: bool, ghost x: Block)
      requires Valid() && Expected(ptr)
      modifies this, heap, dir.buckets.Values, nodes
      ensures Valid() && nodes == old(nodes)
      ensures freed <==> exists y: Block :: old(StartsAt(y, ptr))
      ensures if freed then old(StartsAt(x, ptr)) && Lost(old(Runs()), old(Held(v)), x)
              else Runs() == old(Runs()) && Held(v) == old(Held(v))
    {
      hide *;
      PageOf(ptr);
      Parts();
      ExpectedIs(ptr);
      var p := ptr / PAGE_SIZE;
      if p in heap.tag && heap.tag[p] == PageHeap.Chunk {
        ChunkAt(ptr, v.owner[ptr - ptr % PAGE_SIZE]);
        var j := dir.BucketAt(ptr - ptr % PAGE_SIZE, v.owner, v.live, nodes);
        ghost var c := PointsAt(ptr, j);
        var result := FreeBytes(ptr, j, munmapOk);
        freed, x := result == Freed, Piece(c);
        if freed {
          LostPiece(old(Runs()), old(Held(v)), c);
        }
      } else {
        RunAt(ptr);
        var result := FreePages(p, ptr % PAGE_SIZE, munmapOk);
        freed, x := result == PageHeap.Done, Pages(p);
        if freed {
          LostPages(old(Runs()), old(Held(v)), p);
        }
      }
    }

    lemma ExpectedIs(ptr: nat)
      requires Valid() && Expected(ptr)
      ensures var p, a := ptr / PAGE_SIZE, ptr - ptr % PAGE_SIZE;
              && (p in heap.tag && heap.tag[p] == PageHeap.First && ptr % PAGE_SIZE == 0 ==> p in Runs())
              && (p in heap.tag && heap.tag[p] == PageHeap.Chunk ==>
                    a in v.owner && IsBucket(v.owner[a]) && Frees(ptr, v.owner[a]))
              && (!(p in heap.tag && heap.tag[p] == PageHeap.Chunk) ==> p !in PageHeap.ChunkPages(heap.tag))
    {
      hide PageHeap.Heap.Valid, PageDir.Valid, Frees, Placed;
      MatchingIs(heap.tag, v.owner, ptr / PAGE_SIZE);
      PageOf(ptr);
    }

    /** On a page that is cut only the chunk that the pointer points at can start there. */
    lemma ChunkAt(ptr: nat, j: nat)
      requires Valid() && IsBucket(j) && Frees(ptr, j)
      requires var p := ptr / PAGE_SIZE; p in heap.tag && heap.tag[p] == PageHeap.Chunk
      ensures var c := PointsAt(ptr, j);
              (exists y: Block :: StartsAt(y, ptr)) <==> StartsAt(Piece(c), ptr)
      ensures var c := PointsAt(ptr, j);
              StartsAt(Piece(c), ptr) <==> c in Held(v) && ptr == Address(c, j)
    {
      hide PageHeap.Heap.Valid, PageDir.Valid, Address, Placed;
      HeadersLive(v);
      forall y: Block | StartsAt(y, ptr) ensures y == Piece(PointsAt(ptr, j)) {
        Dispatch(ptr, y);
      }
    }

    lemma RunAt(ptr: nat)
      requires Valid()
      requires var p := ptr / PAGE_SIZE; !(p in heap.tag && heap.tag[p] == PageHeap.Chunk)
      ensures (exists y: Block :: StartsAt(y, ptr)) <==> StartsAt(Pages(ptr / PAGE_SIZE), ptr)
      ensures StartsAt(Pages(ptr / PAGE_SIZE), ptr) <==> ptr / PAGE_SIZE in Runs() && ptr % PAGE_SIZE == 0
    {
      hide PageHeap.Heap.Valid, PageDir.Valid, Address, Placed, RunsOf;
      PageOf(ptr);
      forall y: Block | StartsAt(y, ptr) ensures y == Pages(ptr / PAGE_SIZE) {
        Dispatch(ptr, y);
      }
    }

    lemma Dispatch(ptr: nat, x: Block)
      requires StartsAt(x, ptr)
      ensures var p := ptr / PAGE_SIZE;
              if p in heap.tag && heap.tag[p] == PageHeap.Chunk then
                && x.Piece? && x.c in Held(v) && x.c.0 in v.owner && x.c.0 == ptr - ptr % PAGE_SIZE
                && IsBucket(v.owner[x.c.0]) && PointsAt(ptr, v.owner[x.c.0]) == x.c
              else x == Pages(p) && p in Runs() && ptr % PAGE_SIZE == 0
    {
      hide PageHeap.Heap.Valid, PageDir.Valid, Address, Placed;
      HeadersLive(v);
      heap.CutAreLive();
      match x {
        case Pages(p) => PageAddress(p);
        case Piece(c) =>
          AddressPoints(c, v.owner[c.0]);
          MatchingIs(heap.tag, v.owner, ptr / PAGE_SIZE);
          PageOf(ptr);
      }
    }

    lemma LostPiece(runs: map<nat, nat>, held: map<ChunkId, nat>, c: ChunkId)
      requires Runs() == runs && c in held && Held(v) == held - {c}
      ensures Lost(runs, held, Piece(c))
    {
    }

    lemma LostPages(runs: map<nat, nat>, held: map<ChunkId, nat>, p: nat)
      requires p in runs && Runs() == runs - {p} && Held(v) == held
      ensures Lost(runs, held, Pages(p))
    {
    }
  }

  const SIZE_MAX: nat := 0xffff_ffff_ffff_ffff

  lemma LevelOfNone()
    ensures IsBucket(0) && Level(0) == 2 && PAGE_SIZE == 4096 && SIZE_MAX > 2048 + PAGE_SIZE
  {
  }

  lemma NoneHosted()
    ensures !SelfHosted(0)
  {
  }

  /** A run of pages, a chunk, or the struct pginfo on its own page. */
  datatype Block = Pages(p: nat) | Piece(c: ChunkId) | Info(a: nat)

  function Home(x: Block): nat {
    match x
    case Pages(p) => p
    case Piece(c) => c.0 / PAGE_SIZE
    case Info(a) => a / PAGE_SIZE
  }

  lemma InfoInside(j: nat)
    requires IsBucket(j) && SelfHosted(j)
    ensures AdminSize(j) <= PAGE_SIZE
  {
    Layout(j);
    hide Unit, Chunks, Stolen, AdminSize;
    Scale(Stolen(j), Chunks(j), Unit(j));
  }

  lemma Undo(runs: map<nat, nat>, p: nat)
    requires p !in runs
    ensures p in runs[p := 1] && runs[p := 1][p] == 1 && runs[p := 1] - {p} == runs
  {
  }

  lemma GivenAway(held: map<ChunkId, nat>, hc: ChunkId, j: nat)
    requires hc !in held
    ensures held[hc := j] - {hc} == held
  {
  }

  /** A chunk is what its address points at. */
  lemma AddressPoints(c: ChunkId, j: nat)
    requires Placed(c, j) && c.0 % PAGE_SIZE == 0
    ensures PointsAt(Address(c, j), j) == c
  {
    ChunkInside(c, j);
    PointerIsChunk(c.0, j);
    hide Unit, Stolen, Chunks, SelfHosted, AdminSize, IsBucket;
    Offset(c.0, c.1, Unit(j));
  }

  lemma Offset(a: nat, k: nat, u: nat)
    requires 0 < u && a % PAGE_SIZE == 0 && a + k * u < a + PAGE_SIZE
    ensures (a + k * u) % PAGE_SIZE == k * u && k * u / u == k
  {
    var x := k * u;
    QuotientIs(x, u, k, 0);
    assert (a + x) % 4096 == x;
  }

  lemma PageOf(ptr: nat)
    ensures ptr - ptr % PAGE_SIZE == ptr / PAGE_SIZE * PAGE_SIZE
              && (ptr - ptr % PAGE_SIZE) / PAGE_SIZE == ptr / PAGE_SIZE
    ensures PAGE_SIZE == 4096
  {
  }

  /** The last chunk of a page comes back and the page is given up. */
  lemma GivesUp(v: View, c: ChunkId)
    requires Joined(v) && c in Held(v) && c.0 in v.owner && IsBucket(v.owner[c.0])
    requires forall d: ChunkId | d in v.live - {c} :: d.0 != c.0
    ensures var w := View(v.owner - {c.0}, v.live - {c}, v.header - {c.0});
            && Joined(w) && w == Closed(v.(live := v.live - {c}), c.0)
            && (c.0 in v.header <==> !SelfHosted(v.owner[c.0]))
               && (c.0 in v.header ==> Guest(v.(live := v.live - {c}), c.0))
            && Held(w) == (if SelfHosted(v.owner[c.0]) then Held(v) - {c}
                           else (Held(v) - {c})[v.header[c.0] := HeaderBucket(v.owner[c.0])])
            && (c.0 in v.header ==> v.header[c.0] !in Held(v))
  {
    hide SelfHosted, Stolen, Chunks;
    var u := v.(live := v.live - {c});
    Gives(v, c);
    Closes(u, c.0);
    if c.0 in v.header {
      assert v.header[c.0] in v.header.Values;
    }
  }

  lemma MatchingWhole(tag: PageHeap.Dir, p: nat, owner: map<nat, nat>)
    requires Matching(tag, owner)
    ensures Matching(tag[p := PageHeap.First], owner - {p * PAGE_SIZE})
  {
    assert PageHeap.ChunkPages(tag[p := PageHeap.First]) == PageHeap.ChunkPages(tag) - {p};
  }

  lemma PageAddress(p: nat)
    ensures p * PAGE_SIZE % PAGE_SIZE == 0 && p * PAGE_SIZE / PAGE_SIZE == p
  {
  }

  lemma IsOpened(v: View, j: nat, c: ChunkId, hc: ChunkId)
    requires IsBucket(j)
    ensures Opened(v, j, c, hc) ==
              View(v.owner[c.0 := j], v.live + {c}, if SelfHosted(j) then v.header else v.header[c.0 := hc])
  {
  }

  lemma MatchingIs(tag: PageHeap.Dir, owner: map<nat, nat>, p: nat)
    requires Matching(tag, owner)
    ensures p in PageHeap.ChunkPages(tag) <==> p * PAGE_SIZE in owner
  {
  }

  lemma MatchingCut(tag: PageHeap.Dir, p: nat, owner: map<nat, nat>, j: nat)
    requires Matching(tag, owner)
    ensures Matching(tag[p := PageHeap.Chunk], owner[p * PAGE_SIZE := j])
  {
    assert PageHeap.ChunkPages(tag[p := PageHeap.Chunk]) == PageHeap.ChunkPages(tag) + {p};
  }

  lemma RunsCut(live: map<nat, nat>, tag: PageHeap.Dir, p: nat)
    requires p in tag
    ensures RunsOf(live, tag[p := PageHeap.Chunk]) == RunsOf(live, tag) - {p}
    ensures p in live && tag[p] == PageHeap.Chunk ==>
              RunsOf(live, tag[p := PageHeap.First]) == RunsOf(live, tag)[p := live[p]]
  {
  }
}
