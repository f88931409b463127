/** Page allocation of src/common/OpenBSD_malloc_Linux.c: malloc_pages and free_pages, with the
    page directory as a map from page numbers to tags. */
module PageHeap {
  import opened Limits
  import opened PageRuns
  import opened Wrappers

  /** Directory entries; a page without one is MALLOC_NOT_MINE.  Chunk stands for the pginfo
      pointer of a page that is cut into chunks. */
  datatype Tag = Free | First | Follow | Chunk

  /** Pages in a 64-bit address space. */
  const ADDRESSABLE: nat := 0x10_0000_0000_0000

  type Dir = map<nat, Tag>

  /** Page q belongs to the allocation of n pages at s or to its guard. */
  predicate Holds(s: nat, n: nat, guard: nat, q: nat) {
    s <= q < s + n + guard
  }

  /** The tags of the allocation of n pages at s. */
  ghost predicate Tagged(tag: Dir, s: nat, n: nat, guard: nat) {
    && 0 < n && s in tag && (tag[s] == First || (tag[s] == Chunk && n == 1))
    && (forall q | s < q < s + n :: q in tag && tag[q] == Follow)
    && (forall q | s + n <= q < s + n + guard :: q in tag && tag[q] == First)
  }

  ghost predicate FreeTags(tag: Dir, free: seq<Run>) {
    Canonical(free) && forall q: nat :: q in tag && tag[q] == Free <==> In(free, q)
  }

  ghost predicate LiveTags(tag: Dir, live: map<nat, nat>, guard: nat) {
    forall s | s in live :: Tagged(tag, s, live[s], guard)
  }

  ghost predicate Separate(live: map<nat, nat>, guard: nat) {
    forall s, t | s in live && t in live && s < t :: s + live[s] + guard <= t
  }

  ghost predicate Owner(live: map<nat, nat>, guard: nat, q: nat) {
    exists s :: s in live && Holds(s, live[s], guard, q)
  }

  ghost predicate Covered(tag: Dir, live: map<nat, nat>, guard: nat) {
    forall q | q in tag && tag[q] != Free :: Owner(live, guard, q)
  }

  /** The directory, the free list and the live allocations agree: each mapped page is free and
      on the list, or else part of exactly one live allocation. */
  ghost predicate Book(tag: Dir, free: seq<Run>, live: map<nat, nat>, guard: nat) {
    && FreeTags(tag, free)
    && LiveTags(tag, live, guard)
    && Separate(live, guard)
    && Covered(tag, live, guard)
  }

  /** tag' is the directory after the allocation of n pages at s. */
  ghost predicate Marked(tag: Dir, s: nat, n: nat, guard: nat, tag': Dir) {
    forall q: nat ::
      && (q in tag' <==> q in tag || Holds(s, n, guard, q))
      && (q in tag' ==> tag'[q] == if Holds(s, n, guard, q) then (if s < q < s + n then Follow else First) else tag[q])
  }

  /** tag' is the directory after that allocation is given back. */
  ghost predicate Unmarked(tag: Dir, s: nat, n: nat, guard: nat, tag': Dir) {
    forall q: nat ::
      && (q in tag' <==> q in tag || Holds(s, n, guard, q))
      && (q in tag' ==> tag'[q] == if Holds(s, n, guard, q) then Free else tag[q])
  }

  /** The pages that are cut into chunks. */
  ghost function ChunkPages(tag: Dir): set<nat> {
    set q | q in tag && tag[q] == Chunk
  }

  /** Such a page is a live allocation of one page. */
  lemma ChunkPageIsLive(tag: Dir, free: seq<Run>, live: map<nat, nat>, guard: nat, q: nat)
    requires Book(tag, free, live, guard) && q in ChunkPages(tag)
    ensures q in live && live[q] == 1
  {
    assert Owner(live, guard, q);
    var s :| s in live && Holds(s, live[s], guard, q);
    assert Tagged(tag, s, live[s], guard);
  }

  lemma LiveUnmarked(tag: Dir, free: seq<Run>, live: map<nat, nat>, guard: nat, s: nat, tag': Dir)
    requires Book(tag, free, live, guard) && s in live && s in tag && tag[s] == First
             && Unmarked(tag, s, live[s], guard, tag')
    ensures ChunkPages(tag') == ChunkPages(tag)
  {
    hide LiveTags, ChunkPages;
    UnmarkedChunks(tag, live, guard, s, tag');
  }

  lemma MarkedChunks(tag: Dir, s: nat, n: nat, guard: nat, tag': Dir)
    requires Vacant(tag, s, n, guard) && Marked(tag, s, n, guard, tag')
    ensures ChunkPages(tag') == ChunkPages(tag)
  {
  }

  lemma UnmarkedChunks(tag: Dir, live: map<nat, nat>, guard: nat, s: nat, tag': Dir)
    requires LiveTags(tag, live, guard) && s in live && s in tag && tag[s] == First
             && Unmarked(tag, s, live[s], guard, tag')
    ensures ChunkPages(tag') == ChunkPages(tag)
  {
    assert Tagged(tag, s, live[s], guard);
  }

  /** No page of the allocation is used. */
  ghost predicate Vacant(tag: Dir, s: nat, n: nat, guard: nat) {
    forall q | Holds(s, n, guard, q) :: q !in tag || tag[q] == Free
  }

  lemma VacantApart(tag: Dir, s: nat, n: nat, guard: nat, t: nat, m: nat)
    requires Vacant(tag, s, n, guard) && 0 < n && Tagged(tag, t, m, guard)
    ensures t + m + guard <= s || s + n + guard <= t
  {
    if !(t + m + guard <= s || s + n + guard <= t) {
      var q := if s < t then t else s;
      assert Holds(s, n, guard, q);
    }
  }

  lemma SeparateAlloc(tag: Dir, live: map<nat, nat>, guard: nat, s: nat, n: nat)
    requires LiveTags(tag, live, guard) && Separate(live, guard) && Vacant(tag, s, n, guard) && 0 < n
    ensures s !in live && Separate(live[s := n], guard)
  {
    forall t | t in live ensures t != s && (t + live[t] + guard <= s || s + n + guard <= t) {
      VacantApart(tag, s, n, guard, t, live[t]);
    }
  }

  lemma LiveTagsAlloc(tag: Dir, live: map<nat, nat>, guard: nat, s: nat, n: nat, tag': Dir)
    requires LiveTags(tag, live, guard) && Vacant(tag, s, n, guard) && 0 < n && Marked(tag, s, n, guard, tag')
    ensures LiveTags(tag', live[s := n], guard)
  {
    assert Tagged(tag', s, n, guard) by {
      assert forall q | s <= q < s + n + guard :: Holds(s, n, guard, q);
    }
    forall t | t in live && t != s ensures Tagged(tag', t, live[t], guard) {
      assert Tagged(tag, t, live[t], guard);
      VacantApart(tag, s, n, guard, t, live[t]);
    }
  }

  lemma CoveredAlloc(tag: Dir, live: map<nat, nat>, guard: nat, s: nat, n: nat, tag': Dir)
    requires Covered(tag, live, guard) && s !in live && Marked(tag, s, n, guard, tag')
    ensures Covered(tag', live[s := n], guard)
  {
    var live' := live[s := n];
    forall q | q in tag' && tag'[q] != Free ensures Owner(live', guard, q) {
      if Holds(s, n, guard, q) {
        assert s in live' && Holds(s, live'[s], guard, q);
      } else {
        assert Owner(live, guard, q);
        var t :| t in live && Holds(t, live[t], guard, q);
        assert t in live' && Holds(t, live'[t], guard, q);
      }
    }
  }

  lemma BookAlloc(tag: Dir, free: seq<Run>, live: map<nat, nat>, guard: nat, s: nat, n: nat,
                  tag': Dir, free': seq<Run>)
    requires Book(tag, free, live, guard) && 0 < n && Vacant(tag, s, n, guard)
    requires Canonical(free') && forall q :: In(free', q) <==> In(free, q) && !Holds(s, n, guard, q)
    requires Marked(tag, s, n, guard, tag')
    ensures s !in live && Book(tag', free', live[s := n], guard)
  {
    hide LiveTags, Separate, Covered, Canonical, Vacant;
    SeparateAlloc(tag, live, guard, s, n);
    LiveTagsAlloc(tag, live, guard, s, n, tag');
    CoveredAlloc(tag, live, guard, s, n, tag');
  }

  lemma LiveTagsFree(tag: Dir, live: map<nat, nat>, guard: nat, s: nat, tag': Dir)
    requires LiveTags(tag, live, guard) && Separate(live, guard) && s in live && Unmarked(tag, s, live[s], guard, tag')
    ensures LiveTags(tag', live - {s}, guard)
  {
    forall t | t in live && t != s ensures Tagged(tag', t, live[t], guard) {
      assert Tagged(tag, t, live[t], guard);
    }
  }

  lemma CoveredFree(tag: Dir, live: map<nat, nat>, guard: nat, s: nat, tag': Dir)
    requires Covered(tag, live, guard) && s in live && Unmarked(tag, s, live[s], guard, tag')
    ensures Covered(tag', live - {s}, guard)
  {
    forall q | q in tag' && tag'[q] != Free ensures Owner(live - {s}, guard, q) {
      assert Owner(live, guard, q);
      var t :| t in live && Holds(t, live[t], guard, q);
      assert t in live - {s} && Holds(t, (live - {s})[t], guard, q);
    }
  }

  lemma BookFree(tag: Dir, free: seq<Run>, live: map<nat, nat>, guard: nat, s: nat, tag': Dir, free': seq<Run>)
    requires Book(tag, free, live, guard) && s in live && Unmarked(tag, s, live[s], guard, tag')
    requires Canonical(free') && forall q :: In(free', q) <==> In(free, q) || Holds(s, live[s], guard, q)
    ensures Book(tag', free', live - {s}, guard)
  {
    LiveTagsFree(tag, live, guard, s, tag');
    CoveredFree(tag, live, guard, s, tag');
    hide LiveTags, Covered, Canonical;
    assert Separate(live - {s}, guard);
    assert FreeTags(tag', free');
  }

  /** tag' is the directory after the pages of a run have gone back to the system. */
  ghost predicate Forgotten(tag: Dir, r: Run, tag': Dir) {
    forall q: nat :: (q in tag' <==> q in tag && !r.Has(q)) && (q in tag' ==> tag'[q] == tag[q])
  }

  lemma LiveTagsTrim(tag: Dir, live: map<nat, nat>, guard: nat, r: Run, tag': Dir)
    requires LiveTags(tag, live, guard) && Forgotten(tag, r, tag')
    requires forall q: nat | r.Has(q) :: q in tag && tag[q] == Free
    ensures LiveTags(tag', live, guard)
  {
    forall t | t in live ensures Tagged(tag', t, live[t], guard) {
      assert Tagged(tag, t, live[t], guard);
    }
  }

  /** Giving pages that are free back to the system keeps the books. */
  lemma BookTrim(tag: Dir, free: seq<Run>, live: map<nat, nat>, guard: nat, r: Run, tag': Dir, free': seq<Run>)
    requires Book(tag, free, live, guard) && Canonical(free') && Forgotten(tag, r, tag')
    requires forall q: nat | r.Has(q) :: In(free, q)
    requires forall q :: In(free', q) <==> In(free, q) && !r.Has(q)
    ensures Book(tag', free', live, guard)
  {
    hide In, Canonical;
    LiveTagsTrim(tag, live, guard, r, tag');
    hide LiveTags;
    assert Covered(tag', live, guard);
    hide Covered, Separate;
    assert FreeTags(tag', free');
  }

  /** The page behind a live allocation is not a FOLLOW page, so that the scan of free_pages
      and irealloc stops there and nowhere before. */
  lemma ScanStops(tag: Dir, live: map<nat, nat>, guard: nat, s: nat)
    requires LiveTags(tag, live, guard) && Separate(live, guard) && Covered(tag, live, guard) && s in live
    ensures s + live[s] in tag ==> tag[s + live[s]] != Follow
  {
    hide LiveTags, Covered, Tagged;
    if s + live[s] in tag && tag[s + live[s]] == Follow {
      var t := FollowOwner(tag, live, guard, s + live[s]);
    }
  }

  /** A FOLLOW page is inside a live allocation, not its first page. */
  lemma FollowOwner(tag: Dir, live: map<nat, nat>, guard: nat, q: nat) returns (t: nat)
    requires LiveTags(tag, live, guard) && Covered(tag, live, guard) && q in tag && tag[q] == Follow
    ensures t in live && t < q < t + live[t]
  {
    assert Owner(live, guard, q);
    t :| t in live && Holds(t, live[t], guard, q);
    assert Tagged(tag, t, live[t], guard);
    hide LiveTags;
    TagInside(tag, t, live[t], guard, q);
  }

  lemma TagInside(tag: Dir, t: nat, m: nat, guard: nat, q: nat)
    requires Tagged(tag, t, m, guard) && Holds(t, m, guard, q)
    ensures q in tag && (tag[q] == Follow <==> t < q < t + m)
  {
  }

  ghost function Span(s: nat, n: nat): (r: set<nat>)
    ensures |r| == n && forall q :: q in r <==> s <= q < s + n
  {
    if n == 0 then {} else Span(s, n - 1) + {s + n - 1}
  }

  lemma UnmarkFirst(tag0: Dir, s: nat)
    ensures Unmarked(tag0, s, 1, 0, tag0[s := Free])
  {
  }

  lemma UnmarkNext(tag0: Dir, s: nat, i: nat, tag: Dir)
    requires Unmarked(tag0, s, i, 0, tag)
    ensures Unmarked(tag0, s, i + 1, 0, tag[s + i := Free])
  {
  }

  lemma UnmarkEnd(tag0: Dir, s: nat, n: nat, guard: nat, tag: Dir)
    requires Unmarked(tag0, s, n, 0, tag) && guard <= 1
    ensures Unmarked(tag0, s, n, guard, if guard > 0 then tag[s + n := Free] else tag)
  {
  }

  lemma TaggedPositive(tag: Dir, s: nat, n: nat, guard: nat)
    requires Tagged(tag, s, n, guard)
    ensures 1 <= n && forall q | s <= q < s + n + guard :: q in tag && tag[q] != Free
  {
  }

  /** While the scan runs, the next page is a FOLLOW page just while it is in the allocation. */
  lemma ScanAt(tag0: Dir, s: nat, n: nat, guard: nat, i: nat, tag: Dir)
    requires Tagged(tag0, s, n, guard) && (s + n in tag0 ==> tag0[s + n] != Follow)
    requires 1 <= i <= n && Unmarked(tag0, s, i, 0, tag)
    ensures (s + i in tag && tag[s + i] == Follow) <==> i < n
  {
  }

  class Heap {
    /** malloc_cache and malloc_guard, in pages. */
    const cache: nat
    const guard: nat
    var free: seq<Run>
    var tag: Dir
    var used: int
    var guarded: int
    ghost var live: map<nat, nat>

    ghost predicate Valid()
      reads this
    {
      && 0 < cache < ADDRESSABLE && guard <= 1
      && Book(tag, free, live, guard)
      && |tag.Keys| == Sum(free) + used + guarded
    }

    constructor (cache: nat, guard: nat)
      requires 0 < cache < ADDRESSABLE && guard <= 1
      ensures Valid() && this.cache == cache && this.guard == guard
      ensures free == [] && tag == map[] && live == map[] && used == guarded == 0
    {
      this.cache, this.guard := cache, guard;
      free, tag, used, guarded, live := [], map[], 0, 0, map[];
    }

    /** The tag loop of malloc_pages (lines 983-1014). */
    method MarkPages(s: nat, n: nat)
      requires 0 < n && guard <= 1
      modifies `tag
      ensures Marked(old(tag), s, n, guard, tag)
    {
      tag := tag[s := First];
      for i := 1 to n
        invariant Marked(old(tag), s, i, 0, tag)
      {
        tag := tag[s + i := Follow];
      }
      if guard > 0 {
        tag := tag[s + n := First];
      }
    }

    lemma ScanFacts(s: nat)
      requires Valid() && s in live
      ensures guard <= 1 && 1 <= live[s] && Tagged(tag, s, live[s], guard)
      ensures s + live[s] in tag ==> tag[s + live[s]] != Follow
    {
      hide FreeTags, Separate, Covered, Tagged;
      ScanStops(tag, live, guard, s);
      TaggedPositive(tag, s, live[s], guard);
    }

    /** The scan of free_pages (lines 1453-1490): marks the run free and gives its length,
        the guard page included. */
    method UnmarkPages(s: nat) returns (l: nat)
      requires Valid() && s in live
      modifies `tag
      ensures l == live[s] + guard && Unmarked(old(tag), s, live[s], guard, tag)
    {
      hide *;
      ghost var n := live[s];
      ScanFacts(s);
      UnmarkFirst(tag, s);
      tag := tag[s := Free];
      var i := 1;
      ScanAt(old(tag), s, n, guard, i, tag);
      while s + i in tag && tag[s + i] == Follow
        invariant 1 <= i <= n && Unmarked(old(tag), s, i, 0, tag)
        invariant (s + i in tag && tag[s + i] == Follow) <==> i < n
        decreases n - i
      {
        UnmarkNext(old(tag), s, i, tag);
        tag := tag[s + i := Free];
        i := i + 1;
        ScanAt(old(tag), s, n, guard, i, tag);
      }
      l := i;
      UnmarkEnd(old(tag), s, i, guard, tag);
      if guard > 0 {
        tag := tag[s + i := Free];
        l := l + guard;
      }
    }

    /** pageround in pages. */
    function PageCount(size: nat): nat {
      (size + PAGE_SIZE - 1) / PAGE_SIZE
    }

    /** malloc_pages.  `os` is what mmap answers: pages nobody has, or nothing.  First fit from
        the front of the list; a larger run gives its first pages. */
    method MallocPages(size: nat, align: bool, os: Option<nat>) returns (p: Option<nat>)
      requires Valid() && 0 < size
      requires os.Some? ==> forall q | Holds(os.value, PageCount(size), guard, q) :: q !in tag
      modifies this
      ensures Valid()
      ensures var f, need := old(free), PageCount(size) + guard;
              var i := if align then |f| else Fit(f, need);
              if i < |f| then p == Some(f[i].page) && free == Shrink(f, i, Run(f[i].page + need, f[i].size - need))
              else p == os && free == f
      ensures live == if p.None? then old(live) else old(live)[p.value := PageCount(size)]
      ensures p.Some? ==> p.value !in old(live)
      ensures Sum(free) <= old(Sum(free))
      ensures if p.None? then tag == old(tag) else Marked(old(tag), p.value, PageCount(size), guard, tag)
      ensures p.Some? && p != os ==> forall q | Holds(p.value, PageCount(size), guard, q) :: q in old(tag)
      ensures ChunkPages(tag) == old(ChunkPages(tag))
    {
      hide Book, Marked, Sum, Shrink, Fit, Holds, PageCount, ChunkPages;
      var n := PageCount(size);
      PagesFit(size);
      var need := n + guard;
      p := None;
      ghost var free0 := free;
      var i := 0;
      if !align {
        while i < |free| && free[i].size < need
          invariant 0 <= i <= |free| && forall k | 0 <= k < i :: free[k].size < need
        {
          i := i + 1;
        }
        FitIs(free, need, i);
        if i < |free| {
          p := Some(free[i].page);
          free := Shrink(free, i, Run(free[i].page + need, free[i].size - need));
        }
      }
      var fromList := p.Some?;
      if !fromList {
        p := os;
      }
      if p.Some? {
        MarkPages(p.value, n);
        used := used + n;
        guarded := guarded + guard;
        if fromList {
          AllocFromList(old(tag), free0, live, guard, i, n, tag);
        } else {
          AllocFromOs(old(tag), free0, live, guard, p.value, n, tag);
        }
        live := live[p.value := n];
      }
    }

    /** The pages hold the request, and one page less would not. */
    lemma PagesFit(size: nat)
      ensures size <= PageCount(size) * PAGE_SIZE < size + PAGE_SIZE
      ensures 0 < size ==> 0 < PageCount(size)
    {
    }

    /** malloc_cache - cachesize, as an unsigned number of bytes, in pages. */
    function Room(cachesize: nat): nat {
      (cache - cachesize) % ADDRESSABLE
    }

    /** The free list once the joined entry pf of g is cut down to what the cache may keep. */
    ghost function Trimmed(g: seq<Run>, pf: nat, cachesize: nat, munmapOk: bool): seq<Run>
      requires pf < |g|
    {
      if munmapOk && g[pf].size > Room(cachesize) then Shrink(g, pf, Run(g[pf].page, Room(cachesize))) else g
    }

    /** free_pages, with whether there is a node for the list.  A guard page cannot be told from the
        first page of an allocation by its tag; callers pass only pages that malloc_pages
        returned. */
    method FreePages(p: nat, offset: nat, nodeOk: bool, munmapOk: bool)
      returns (r: FreeResult, ghost g: seq<Run>, ghost pf: nat, ghost cachesize: nat)
      requires Valid() && (p in tag ==> tag[p] != Chunk && (tag[p] == First && offset == 0 ==> p in live))
      modifies this
      ensures Valid() <==> r != Done || nodeOk
      ensures r == if p in old(tag) && old(tag)[p] == Free then AlreadyFree
                   else if p !in old(tag) || old(tag)[p] != First then WrongPage
                   else if offset != 0 then ModifiedPointer else Done
      ensures r != Done ==> free == old(free) && tag == old(tag) && live == old(live)
      ensures r == Done ==> p in old(live) && live == old(live) - {p}
      ensures r == Done && nodeOk ==> Result(old(free), Run(p, old(live)[p] + guard), g, pf, cachesize)
      ensures r == Done && nodeOk ==> pf < |g| && free == Trimmed(g, pf, cachesize, munmapOk)
      ensures r == Done && !nodeOk ==> free == old(free) && Unmarked(old(tag), p, old(live)[p], guard, tag)
      ensures munmapOk && old(Sum(free)) <= cache ==> Sum(free) <= cache
      ensures ChunkPages(tag) == old(ChunkPages(tag))
    {
      hide Book, Unmarked, Result, Sum, Trimmed, Shrink, ChunkPages;
      g, pf, cachesize := [], 0, 0;
      if p in tag && tag[p] == Free {
        return AlreadyFree, g, pf, cachesize;
      }
      if p !in tag || tag[p] != First {
        return WrongPage, g, pf, cachesize;
      }
      if offset != 0 {
        return ModifiedPointer, g, pf, cachesize;
      }
      ghost var tag0 := tag;
      FreeFacts(p);
      var l := UnmarkPages(p);
      LiveUnmarked(tag0, free, live, guard, p, tag);
      used := used - (l - guard);
      guarded := guarded - guard;
      if !nodeOk {
        PagesLost(tag0, free, live, guard, p, tag, live - {p});
        live := live - {p};
        return Done, g, pf, cachesize;
      }
      var placed := AddRun(free, p, l);
      g, pf, cachesize := placed.f, placed.pf, placed.cachesize;
      ResultFacts(free, Run(p, l), g, pf, cachesize);
      FreeToList(tag0, free, live, guard, p, tag, g);
      live := live - {p};
      free := placed.f;
      if munmapOk && Sum(old(free)) <= cache {
        CacheLimit(this, old(free), Run(p, l), g, pf, cachesize);
      }
      Trim(placed.pf, placed.cachesize, munmapOk);
      r := Done;
    }

    /** Without a node for the list the pages are tagged free but can never be found again. */
    lemma PagesLost(tag0: Dir, free: seq<Run>, live: map<nat, nat>, guard: nat, s: nat, tag: Dir, live': map<nat, nat>)
      requires Book(tag0, free, live, guard) && s in live && s in tag0 && tag0[s] == First
               && Unmarked(tag0, s, live[s], guard, tag)
      ensures !Book(tag, free, live', guard)
    {
      assert !In(free, s);
      assert Tagged(tag0, s, live[s], guard);
      assert Holds(s, live[s], guard, s);
    }

    lemma FreeFacts(s: nat)
      requires Valid() && s in live
      ensures 0 < live[s] && Canonical(free) && Disjoint(free, Run(s, live[s] + guard))
    {
      assert Tagged(tag, s, live[s], guard);
      hide LiveTags, Separate, Covered;
      LiveIsApart(tag, free, live, guard, s);
    }

    /** The tag of a live run that is not cut. */
    lemma RunIsFirst(p: nat)
      requires Valid() && p in live && p !in ChunkPages(tag)
      ensures p in tag && tag[p] == First
    {
      assert Tagged(tag, p, live[p], guard);
    }

    lemma NotCut(p: nat)
      requires Valid() && p !in ChunkPages(tag)
      ensures p in tag ==> tag[p] != Chunk
      ensures p in live ==> p in tag && tag[p] == First
    {
      if p in live {
        RunIsFirst(p);
      }
    }

    /** Live runs do not overlap. */
    lemma RunsApart(s: nat, t: nat)
      requires Valid() && s in live && t in live && s < t
      ensures s + live[s] + guard <= t
    {
    }

    lemma CutAreLive()
      requires Valid()
      ensures forall p | p in ChunkPages(tag) :: p in live && live[p] == 1 && p in tag && tag[p] == Chunk
    {
      forall p | p in ChunkPages(tag) ensures p in live && live[p] == 1 {
        ChunkPageIsLive(tag, free, live, guard, p);
      }
    }

    /** malloc_make_chunks (line 1135) enters the pginfo of a page it cuts into chunks. */
    method CutIntoChunks(p: nat)
      requires Valid() && p in live && live[p] == 1 && p in tag && tag[p] == First
      modifies `tag
      ensures Valid() && tag == old(tag)[p := Chunk]
    {
      hide Sum, Book;
      Retagged(tag, free, live, guard, p, Chunk);
      assert tag[p := Chunk].Keys == tag.Keys;
      tag := tag[p := Chunk];
    }

    /** free_bytes (line 1798) makes it a page of its own again before it frees it. */
    method MakeWhole(p: nat)
      requires Valid() && p in live && p in tag && tag[p] == Chunk
      modifies `tag
      ensures Valid() && tag == old(tag)[p := First]
    {
      hide Sum, Book;
      Retagged(tag, free, live, guard, p, First);
      assert tag[p := First].Keys == tag.Keys;
      tag := tag[p := First];
    }

    /** Lines 1580-1711: give back to the system what the cache may not keep. */
    method Trim(pf: nat, cachesize: nat, munmapOk: bool)
      requires Valid() && pf < |free|
      modifies `free, `tag
      ensures Valid() && free == Trimmed(old(free), pf, cachesize, munmapOk)
      ensures ChunkPages(tag) == old(ChunkPages(tag))
    {
      hide Book, Sum, Shrink, Forgotten, ChunkPages;
      var room := Room(cachesize);
      if free[pf].size > room {
        if !munmapOk {
          return;
        }
        ghost var tag0, free0 := tag, free;
        var index, end := free[pf].page + room, free[pf].page + free[pf].size;
        free := Shrink(free, pf, Run(free[pf].page, room));
        ForgetNone(tag, index);
        for q := index to end
          invariant Forgotten(tag0, Run(index, q - index), tag) && free == Shrink(free0, pf, Run(free0[pf].page, room))
        {
          ForgetNext(tag0, index, q, tag);
          tag := tag - {q};
        }
        TrimBooks(tag0, free0, live, guard, pf, room, tag);
      }
    }
  }

  lemma ResultFacts(f: seq<Run>, r: Run, g: seq<Run>, pf: nat, cachesize: nat)
    requires Result(f, r, g, pf, cachesize)
    ensures Added(f, r, g) && pf < |g|
  {
  }

  lemma Retagged(tag: Dir, free: seq<Run>, live: map<nat, nat>, guard: nat, p: nat, t: Tag)
    requires Book(tag, free, live, guard) && p in live && p in tag && tag[p] != Free && tag[p] != Follow
    requires t == First || (t == Chunk && live[p] == 1)
    ensures Book(tag[p := t], free, live, guard)
  {
    hide LiveTags, Separate, Canonical, In, Covered;
    RetaggedLive(tag, live, guard, p, t);
    RetaggedCovered(tag, live, guard, p, t);
    assert FreeTags(tag[p := t], free);
  }

  lemma RetaggedCovered(tag: Dir, live: map<nat, nat>, guard: nat, p: nat, t: Tag)
    requires Covered(tag, live, guard) && p in tag && tag[p] != Free
    ensures Covered(tag[p := t], live, guard)
  {
    hide Owner;
  }

  lemma RetaggedLive(tag: Dir, live: map<nat, nat>, guard: nat, p: nat, t: Tag)
    requires LiveTags(tag, live, guard) && Separate(live, guard) && p in live
    requires t == First || (t == Chunk && live[p] == 1)
    ensures LiveTags(tag[p := t], live, guard)
  {
    forall s | s in live ensures Tagged(tag[p := t], s, live[s], guard) {
      assert Tagged(tag, s, live[s], guard);
    }
  }

  lemma ForgetNone(tag: Dir, s: nat)
    ensures Forgotten(tag, Run(s, 0), tag)
  {
  }

  lemma ForgetNext(tag0: Dir, s: nat, q: nat, tag: Dir)
    requires s <= q && Forgotten(tag0, Run(s, q - s), tag)
    ensures Forgotten(tag0, Run(s, q + 1 - s), tag - {q})
  {
  }

  datatype FreeResult = Done | AlreadyFree | WrongPage | ModifiedPointer

  lemma TrimBooks(tag: Dir, free: seq<Run>, live: map<nat, nat>, guard: nat, pf: nat, k: nat, tag': Dir)
    requires Book(tag, free, live, guard) && pf < |free| && k < free[pf].size
    requires Forgotten(tag, Run(free[pf].page + k, free[pf].size - k), tag')
    ensures var free' := Shrink(free, pf, Run(free[pf].page, k));
            && Book(tag', free', live, guard)
            && |tag'.Keys| - Sum(free') == |tag.Keys| - Sum(free)
    ensures ChunkPages(tag') == ChunkPages(tag)
  {
    hide LiveTags, Separate, Covered, Canonical, In, Sum, Shrink;
    var r := Run(free[pf].page, k);
    ShrinkRun(free, pf, r);
    assert forall q: nat | free[pf].Has(q) :: q in tag;
    KeysAfter(tag', free[pf].page + k, free[pf].size - k, tag);
    BookTrim(tag, free, live, guard, Run(free[pf].page + k, free[pf].size - k), tag', Shrink(free, pf, r));
  }

  /** A live run is apart from the free list, and freeing it keeps the books. */
  lemma LiveIsApart(tag: Dir, free: seq<Run>, live: map<nat, nat>, guard: nat, s: nat)
    requires FreeTags(tag, free) && s in live && Tagged(tag, s, live[s], guard)
    ensures Canonical(free) && Disjoint(free, Run(s, live[s] + guard)) && 0 < live[s]
  {
    hide In, Canonical;
    TaggedPositive(tag, s, live[s], guard);
  }

  lemma LiveTagged(tag: Dir, live: map<nat, nat>, guard: nat, s: nat)
    requires LiveTags(tag, live, guard) && s in live
    ensures 1 <= live[s] && forall q | s <= q < s + live[s] + guard :: q in tag && tag[q] != Free
  {
    assert Tagged(tag, s, live[s], guard);
    hide LiveTags;
    TaggedPositive(tag, s, live[s], guard);
  }

  lemma FreeToList(tag: Dir, free: seq<Run>, live: map<nat, nat>, guard: nat, s: nat, tag': Dir, free': seq<Run>)
    requires Book(tag, free, live, guard) && s in live && Unmarked(tag, s, live[s], guard, tag')
    requires Added(free, Run(s, live[s] + guard), free')
    ensures Book(tag', free', live - {s}, guard)
    ensures |tag'.Keys| == |tag.Keys| && Sum(free') == Sum(free) + live[s] + guard
  {
    hide LiveTags, Separate, Covered, Canonical, In, Sum;
    LiveTagged(tag, live, guard, s);
    KeysAfter(tag, s, live[s] + guard, tag');
    BookFree(tag, free, live, guard, s, tag', free');
  }

  /** The first entry that is large enough. */
  ghost function Fit(f: seq<Run>, need: nat): (i: nat)
    ensures i <= |f| && (i < |f| ==> f[i].size >= need) && forall k | 0 <= k < i :: f[k].size < need
  {
    if |f| == 0 || f[0].size >= need then 0 else 1 + Fit(f[1..], need)
  }

  /** The free list after first fit for `need` pages; as it was if no entry is large enough. */
  ghost function TakenFrom(f: seq<Run>, need: nat): seq<Run> {
    var i := Fit(f, need);
    if i < |f| then Shrink(f, i, Run(f[i].page + need, f[i].size - need)) else f
  }

  /** Neither the list nor the system has that many pages. */
  ghost predicate NoPages(f: seq<Run>, need: nat, os: Option<nat>) {
    Fit(f, need) == |f| && os.None?
  }

  lemma FirstFit(f: seq<Run>, need: nat, os: Option<nat>)
    ensures TakenFrom(f, need) ==
            var i := Fit(f, need);
            if i < |f| then Shrink(f, i, Run(f[i].page + need, f[i].size - need)) else f
    ensures NoPages(f, need, os) <==> Fit(f, need) == |f| && os.None?
  {
  }

  lemma FitIs(f: seq<Run>, need: nat, i: nat)
    requires i <= |f| && (i < |f| ==> f[i].size >= need) && forall k | 0 <= k < i :: f[k].size < need
    ensures Fit(f, need) == i
  {
  }

  lemma KeysAfter(tag: Dir, s: nat, m: nat, tag': Dir)
    requires forall q: nat :: q in tag' <==> q in tag || s <= q < s + m
    ensures (forall q | s <= q < s + m :: q in tag) ==> |tag'.Keys| == |tag.Keys|
    ensures (forall q | s <= q < s + m :: q !in tag) ==> |tag'.Keys| == |tag.Keys| + m
  {
    var span := Span(s, m);
    assert tag'.Keys == tag.Keys + span;
    assert (forall q | s <= q < s + m :: q in tag) ==> tag.Keys + span == tag.Keys;
    assert (forall q | s <= q < s + m :: q !in tag) ==> tag.Keys !! span;
  }

  lemma AllocFromList(tag: Dir, free: seq<Run>, live: map<nat, nat>, guard: nat, i: nat, n: nat, tag': Dir)
    requires Book(tag, free, live, guard) && i < |free| && 0 < n && n + guard <= free[i].size
    requires Marked(tag, free[i].page, n, guard, tag')
    ensures var free' := Shrink(free, i, Run(free[i].page + n + guard, free[i].size - n - guard));
            && free[i].page !in live && Book(tag', free', live[free[i].page := n], guard)
            && |tag'.Keys| == |tag.Keys| && Sum(free') == Sum(free) - n - guard
    ensures ChunkPages(tag') == ChunkPages(tag) && forall q: nat | Holds(free[i].page, n, guard, q) :: q in tag
  {
    var s, r := free[i].page, Run(free[i].page + n + guard, free[i].size - n - guard);
    hide LiveTags, Separate, Covered, Canonical, In, Sum, Shrink;
    ShrinkRun(free, i, r);
    assert forall q: nat | Holds(s, n, guard, q) :: free[i].Has(q) && q in tag && tag[q] == Free;
    KeysAfter(tag, s, n + guard, tag');
    BookAlloc(tag, free, live, guard, s, n, tag', Shrink(free, i, r));
    MarkedChunks(tag, s, n, guard, tag');
  }

  lemma AllocFromOs(tag: Dir, free: seq<Run>, live: map<nat, nat>, guard: nat, s: nat, n: nat, tag': Dir)
    requires Book(tag, free, live, guard) && 0 < n && Marked(tag, s, n, guard, tag')
    requires forall q | Holds(s, n, guard, q) :: q !in tag
    ensures s !in live && Book(tag', free, live[s := n], guard) && |tag'.Keys| == |tag.Keys| + n + guard
    ensures ChunkPages(tag') == ChunkPages(tag)
  {
    hide LiveTags, Separate, Covered, Canonical, In;
    KeysAfter(tag, s, n + guard, tag');
    MarkedChunks(tag, s, n, guard, tag');
    assert forall q :: In(free, q) ==> !Holds(s, n, guard, q);
    BookAlloc(tag, free, live, guard, s, n, tag', free);
  }

  /** While munmap works, the cache limit holds after every free.  The right neighbour that a
      freed run is joined with counts twice, so that such a free keeps that much less. */
  lemma CacheLimit(h: Heap, free: seq<Run>, run: Run, g: seq<Run>, pf: nat, cachesize: nat)
    requires Result(free, run, g, pf, cachesize) && Sum(free) <= h.cache < ADDRESSABLE
    ensures Sum(h.Trimmed(g, pf, cachesize, true)) <= h.cache
    ensures var kept := Sum(h.Trimmed(g, pf, cachesize, true));
            && ((forall i: nat :: !Bridges(free, run, i)) ==> kept == Min(Sum(free) + run.size, h.cache))
            && (forall i: nat | Bridges(free, run, i) ::
                  i + 1 < |free| && kept == Min(Sum(free) + run.size, h.cache - free[i + 1].size))
  {
    hide Sum, Canonical, In, Bridges, Shrink;
    var room := h.Room(cachesize);
    ShrinkSum(g, pf, Run(g[pf].page, room));
    forall i: nat | Bridges(free, run, i) ensures i + 1 < |free| && free[i + 1].size <= Sum(free) {
      BridgedSize(free, run, i);
    }
  }

  /** Less than the limit is kept: a page freed between two free ones, where the cache is for two,
      leaves only one. */
  lemma BridgeKeepsLess(h: Heap)
    requires h.cache == 2
    ensures var free, run, g := [Run(0, 1), Run(2, 1)], Run(1, 1), [Run(0, 3)];
            && Canonical(free) && Disjoint(free, run) && Sum(free) == 2
            && Result(free, run, g, 0, 1) && Sum(h.Trimmed(g, 0, 1, true)) == 1
  {
    var free, run, g := [Run(0, 1), Run(2, 1)], Run(1, 1), [Run(0, 3)];
    assert free[1..] == [Run(2, 1)] && g[1..] == [];
    assert Bridges(free, run, 0);
    CacheLimit(h, free, run, g, 0, 1);
  }

  lemma BridgedSize(f: seq<Run>, r: Run, i: nat)
    requires Bridges(f, r, i)
    ensures i + 1 < |f| && f[i + 1].size <= Sum(f)
  {
    SumSplit(f, i + 1);
  }

  function Min(a: int, b: int): int {
    if a < b then a else b
  }
}
