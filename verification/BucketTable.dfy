/** All the buckets of src/common/OpenBSD_malloc_Linux.c: an operation on one does not disturb the
    others. */
module BucketTable {
  import opened ChunkBits
  import opened ChunkBucket
  import opened ChunkPage
  import opened Limits
  import opened ChunkBooks

  ghost function PagesOf(owner: map<nat, nat>, j: nat): set<nat> {
    set a | a in owner && owner[a] == j
  }

  ghost function ChunksOf(owner: map<nat, nat>, live: set<ChunkId>, j: nat): set<ChunkId> {
    set c: ChunkId | c in live && c.0 in owner && owner[c.0] == j
  }

  /** What a bucket has: its pages and the chunks handed out. */
  type Book = (set<nat>, set<ChunkId>)

  ghost function BookOf(owner: map<nat, nat>, live: set<ChunkId>, j: nat): Book {
    (PagesOf(owner, j), ChunksOf(owner, live, j))
  }

  lemma BookIs(owner: map<nat, nat>, live: set<ChunkId>, j: nat)
    ensures var b := BookOf(owner, live, j);
            && (forall a :: a in b.0 <==> a in owner && owner[a] == j)
            && (forall c: ChunkId :: c in b.1 <==> c in live && c.0 in owner && owner[c.0] == j)
  {
  }

  /** Chunks of one bucket come and go. */
  lemma BookServed(owner: map<nat, nat>, live: set<ChunkId>, c: ChunkId, k: nat)
    requires c.0 in owner
    ensures var b := BookOf(owner, live, k);
            && BookOf(owner, live + {c}, k) == (b.0, b.1 + if k == owner[c.0] then {c} else {})
            && BookOf(owner, live - {c}, k) == (b.0, b.1 - if k == owner[c.0] then {c} else {})
  {
    var b, x := BookOf(owner, live, k), if k == owner[c.0] then {c} else {};
    assert ChunksOf(owner, live + {c}, k) == b.1 + x && ChunksOf(owner, live - {c}, k) == b.1 - x;
  }

  /** A page is opened for bucket j. */
  lemma BookOpened(owner: map<nat, nat>, live: set<ChunkId>, j: nat, a: nat, k: nat)
    requires a !in owner && forall d: ChunkId | d in live :: d.0 in owner
    ensures var b := BookOf(owner, live, k);
            BookOf(owner[a := j], live, k) == (b.0 + (if k == j then {a} else {}), b.1)
  {
    var b := BookOf(owner, live, k);
    assert PagesOf(owner[a := j], k) == b.0 + if k == j then {a} else {};
    assert ChunksOf(owner[a := j], live, k) == b.1;
  }

  /** The books after bucket j has handed out chunk c, perhaps of a page just opened. */
  lemma BooksMore(keys: set<nat>, owner: map<nat, nat>, live: set<ChunkId>, j: nat, open: bool, c: ChunkId)
    requires j in keys && if open then c.0 !in owner else c.0 in owner && owner[c.0] == j
    requires forall d: ChunkId | d in live :: d.0 in owner
    ensures var b := BookOf(owner, live, j);
            BooksOf(keys, if open then owner[c.0 := j] else owner, live + {c}) ==
            BooksOf(keys, owner, live)[j := (b.0 + (if open then {c.0} else {}), b.1 + {c})]
  {
    var owner' := if open then owner[c.0 := j] else owner;
    forall k | k in keys ensures BookOf(owner', live + {c}, k) ==
        var b := BookOf(owner, live, k);
        if k == j then (b.0 + (if open then {c.0} else {}), b.1 + {c}) else b
    {
      var b := BookOf(owner, live, k);
      BookServed(owner', live, c, k);
      if open {
        BookOpened(owner, live, j, c.0, k);
      }
      assert b.0 + {} == b.0 && b.1 + {} == b.1;
    }
  }

  lemma BookClosed(owner: map<nat, nat>, live: set<ChunkId>, a: nat, k: nat)
    requires a in owner && forall d: ChunkId | d in live :: d.0 != a
    ensures var b := BookOf(owner, live, k);
            BookOf(owner - {a}, live, k) == (b.0 - (if k == owner[a] then {a} else {}), b.1)
  {
    var b := BookOf(owner, live, k);
    assert PagesOf(owner - {a}, k) == b.0 - if k == owner[a] then {a} else {};
    assert ChunksOf(owner - {a}, live, k) == b.1;
  }

  lemma NoBook(j: nat)
    ensures BookOf(map[], {}, j) == ({}, {})
  {
    assert PagesOf(map[], j) == {} && ChunksOf(map[], {}, j) == {};
  }

  /** The books after bucket j has taken back chunk c, and perhaps its page was given up. */
  lemma BooksLess(keys: set<nat>, owner: map<nat, nat>, live: set<ChunkId>, j: nat, close: bool, c: ChunkId)
    requires j in keys && c.0 in owner && owner[c.0] == j
    requires close ==> forall d: ChunkId | d in live - {c} :: d.0 != c.0
    ensures var b := BookOf(owner, live, j);
            BooksOf(keys, if close then owner - {c.0} else owner, live - {c}) ==
            BooksOf(keys, owner, live)[j := (b.0 - (if close then {c.0} else {}), b.1 - {c})]
  {
    var owner' := if close then owner - {c.0} else owner;
    forall k | k in keys ensures BookOf(owner', live - {c}, k) ==
        var b := BookOf(owner, live, k);
        if k == j then (b.0 - (if close then {c.0} else {}), b.1 - {c}) else b
    {
      var b := BookOf(owner, live, k);
      BookServed(owner, live, c, k);
      if close {
        BookClosed(owner, live - {c}, c.0, k);
      }
      assert b.0 - {} == b.0 && b.1 - {} == b.1;
    }
  }

  ghost function BooksOf(buckets: set<nat>, owner: map<nat, nat>, live: set<ChunkId>): map<nat, Book> {
    map j | j in buckets :: BookOf(owner, live, j)
  }

  lemma NothingLess(m: map<nat, Book>, j: nat)
    requires j in m
    ensures m[j].0 - {} == m[j].0 && m[j].1 - {} == m[j].1 && m[j := (m[j].0, m[j].1)] == m
  {
  }

  lemma OneChanged(m: map<nat, Book>, m': map<nat, Book>, j: nat, x: Book)
    requires j in m && m'.Keys == m.Keys && m'[j] == x && forall k | k in m && k != j :: m'[k] == m[k]
    ensures m' == m[j := x]
  {
  }

  /** page_dir with its buckets.  What they have in common is kept outside: which bucket has each
      page, the chunks handed out, and `nodes`, every struct pginfo that there has been. */
  class PageDir {
    const buckets: map<nat, Bucket>

    constructor ()
      ensures Valid(map[], {}, {}) && fresh(buckets.Values)
    {
      hide *;
      var m: map<nat, Bucket> := map[];
      AreBuckets();
      for j := 0 to 12
        invariant forall k: nat :: k in m <==> k < j && (k == 0 || 4 <= k <= 11)
        invariant forall k | k in m ::
                    fresh(m[k]) && m[k].Valid() && m[k].j == k && m[k].owner == map[] && m[k].g.live == {}
      {
        if j == 0 || 4 <= j <= 11 {
          var b := new Bucket(j);
          m := m[j := b];
        }
      }
      buckets := m;
      new;
      Start();
    }

    lemma Start()
      requires forall j: nat :: j in buckets <==> IsBucket(j)
      requires forall j | j in buckets ::
                 buckets[j].Valid() && buckets[j].j == j && buckets[j].owner == map[] && buckets[j].g.live == {}
      ensures Valid(map[], {}, {})
    {
      hide Bucket.Valid, IsBucket, BookOf;
      forall j | j in buckets ensures Sound(j, {}) && BookHere(j) == BookOf(map[], {}, j) {
        buckets[j].PageFacts();
        NoBook(j);
        assert buckets[j].owner.Keys == {};
      }
    }

    /** A bucket in good order, all of whose pages are known. */
    ghost predicate Sound(j: nat, nodes: set<Page>)
      requires j in buckets
      reads buckets[j], nodes
    {
      && buckets[j].j == j && buckets[j].owner.Values <= nodes && (forall p | p in buckets[j].g.list :: p in nodes)
      && buckets[j].Valid()
    }

    ghost predicate AllSound(nodes: set<Page>)
      reads buckets.Values, nodes
    {
      (forall j: nat :: j in buckets <==> IsBucket(j)) && forall j | j in buckets :: Sound(j, nodes)
    }

    ghost function BookHere(j: nat): Book
      requires j in buckets
      reads buckets[j]
    {
      (buckets[j].owner.Keys, buckets[j].g.live)
    }

    /** What all the buckets have. */
    ghost function Books(): map<nat, Book>
      reads buckets.Values
    {
      map j | j in buckets :: BookHere(j)
    }

    ghost predicate Valid(owner: map<nat, nat>, live: set<ChunkId>, nodes: set<Page>)
      reads buckets.Values, nodes
    {
      && AllSound(nodes) && Books() == BooksOf(buckets.Keys, owner, live)
      && (forall c: ChunkId | c in live :: c.0 in owner) && (forall a | a in owner :: owner[a] in buckets)
    }

    /** Bucket j has a page with room. */
    predicate Room(j: nat)
      reads if j in buckets then {buckets[j]} else {}
    {
      j in buckets && buckets[j].first != null
    }

    lemma Parts(owner: map<nat, nat>, live: set<ChunkId>, nodes: set<Page>)
      ensures Valid(owner, live, nodes) <==>
              && AllSound(nodes) && Books() == BooksOf(buckets.Keys, owner, live)
              && (forall c: ChunkId | c in live :: c.0 in owner) && (forall a | a in owner :: owner[a] in buckets)
      ensures Valid(owner, live, nodes) ==> forall j: nat :: j in buckets <==> IsBucket(j)
    {
    }

    lemma BooksAre()
      ensures Books().Keys == buckets.Keys
      ensures forall k | k in buckets :: Books()[k] == (buckets[k].owner.Keys, buckets[k].g.live)
    {
    }

    lemma BookIn(owner: map<nat, nat>, live: set<ChunkId>, j: nat)
      requires j in buckets && Books() == BooksOf(buckets.Keys, owner, live)
      ensures j in Books() && Books()[j] == BookHere(j) == BookOf(owner, live, j)
    {
      assert BooksOf(buckets.Keys, owner, live)[j] == BookOf(owner, live, j);
      assert Books()[j] == BookHere(j);
    }

    /** The pages of a bucket are its own. */
    lemma Home(j: nat, owner: map<nat, nat>, live: set<ChunkId>, nodes: set<Page>)
      requires Valid(owner, live, nodes) && j in buckets
      ensures IsBucket(j) && Sound(j, nodes) && buckets[j].j == j && buckets[j].Valid()
      ensures forall p | p in buckets[j].g.list :: p in buckets[j].owner.Values
      ensures forall p | p in buckets[j].owner.Values :: p.page in owner && owner[p.page] == j
      ensures forall a :: a in buckets[j].owner <==> a in owner && owner[a] == j
      ensures forall c: ChunkId :: c in buckets[j].g.live <==> c in live && c.0 in owner && owner[c.0] == j
      ensures forall c: ChunkId | c in buckets[j].g.live :: Placed(c, j)
    {
      hide Bucket.Valid, BookOf, Books, BooksOf;
      assert Sound(j, nodes);
      buckets[j].PageFacts();
      BookIn(owner, live, j);
      BookIs(owner, live, j);
      forall p | p in buckets[j].owner.Values ensures p.page in owner && owner[p.page] == j {
        assert p.page in BookHere(j).0;
      }
    }

    /** The buckets are in good order, and j shares nothing with the others. */
    ghost predicate Apart(j: nat, nodes: set<Page>)
      reads buckets.Values, nodes
    {
      && j in buckets && AllSound(nodes)
      && forall k | k in buckets && k != j ::
           && buckets[k] != buckets[j]
           && forall p | p in buckets[j].owner.Values :: p !in buckets[k].owner.Values && p !in buckets[k].g.list
    }

    lemma AreApart(j: nat, owner: map<nat, nat>, live: set<ChunkId>, nodes: set<Page>)
      requires Valid(owner, live, nodes) && j in buckets
      ensures Apart(j, nodes)
    {
      hide Valid, Placed, Sound, Bucket.Valid;
      Parts(owner, live, nodes);
      Home(j, owner, live, nodes);
      forall k | k in buckets && k != j ensures
          && buckets[k] != buckets[j]
          && forall p | p in buckets[j].owner.Values :: p !in buckets[k].owner.Values && p !in buckets[k].g.list
      {
        Home(k, owner, live, nodes);
      }
    }

    lemma ApartFacts(j: nat, nodes: set<Page>)
      requires Apart(j, nodes)
      ensures j in buckets && IsBucket(j) && buckets[j].j == j && buckets[j].Valid()
      ensures forall k | k in buckets && k != j ::
                && buckets[k] != buckets[j] && buckets[k].Valid() && buckets[k].j == k
                && buckets[k].owner.Values <= nodes && (forall p | p in buckets[k].g.list :: p in nodes)
                && forall p | p in buckets[j].owner.Values :: p !in buckets[k].owner.Values && p !in buckets[k].g.list
      ensures buckets[j].first != null ==> buckets[j].first in buckets[j].owner.Values
      ensures buckets[j].owner.Values <= nodes && forall k: nat :: k in buckets <==> IsBucket(k)
    {
      hide Bucket.Valid, IsBucket;
      assert Sound(j, nodes);
      buckets[j].PageFacts();
    }

    /** An operation on bucket j leaves the others in good order. */
    lemma Behind(j: nat, nodes: set<Page>)
      requires j in buckets && buckets[j].j == j && buckets[j].Valid() && buckets[j].owner.Values <= nodes
      requires forall k | k in buckets && k != j ::
                 && buckets[k].Valid() && buckets[k].j == k
                 && buckets[k].owner.Values <= nodes && (forall p | p in buckets[k].g.list :: p in nodes)
      requires forall k: nat :: k in buckets <==> IsBucket(k)
      ensures AllSound(nodes)
    {
      hide Bucket.Valid, IsBucket;
      buckets[j].PageFacts();
    }

    /** malloc_bytes in bucket j does not touch the others. */
    method BucketMalloc(j: nat, page: Pointer, memory: Bitmap, guard: bool, random: nat, ghost nodes: set<Page>)
      returns (r: Pointer, ghost c: ChunkId, ghost nodes': set<Page>)
      requires Apart(j, nodes) && IsBucket(j) && |memory| == WordsFor(j)
      requires if buckets[j].first != null then page == Null
               else page.At? && page.address !in buckets[j].owner && page.address % PAGE_SIZE == 0
      modifies buckets[j], buckets[j].owner.Values
      ensures AllSound(nodes') && fresh(nodes' - nodes)
      ensures forall k | k in buckets && k != j ::
                buckets[k].owner == old(buckets[k].owner) && buckets[k].g == old(buckets[k].g)
                  && buckets[k].first == old(buckets[k].first)
      ensures c !in old(buckets[j].g.live) && buckets[j].g.live == old(buckets[j].g.live) + {c}
      ensures r == At(Address(c, j)) && c.0 in buckets[j].owner
      ensures buckets[j].owner.Keys == old(buckets[j].owner.Keys) + if page.At? then {c.0} else {}
      ensures page.At? ==> c.0 == page.address
    {
      hide *;
      ApartFacts(j, nodes);
      r, c := buckets[j].Malloc(page, true, true, memory, guard, random);
      nodes' := nodes + buckets[j].owner.Values;
      Behind(j, nodes');
    }

    /** The same with all the books as one value. */
    method BookMalloc(j: nat, page: Pointer, memory: Bitmap, guard: bool, random: nat, ghost nodes: set<Page>)
      returns (r: Pointer, ghost c: ChunkId, ghost nodes': set<Page>)
      requires Apart(j, nodes) && IsBucket(j) && j in Books() && |memory| == WordsFor(j)
      requires if Room(j) then page == Null
               else page.At? && page.address !in Books()[j].0 && page.address % PAGE_SIZE == 0
      modifies buckets.Values, nodes
      ensures AllSound(nodes') && fresh(nodes' - nodes)
      ensures c !in old(Books())[j].1 && r == At(Address(c, j))
      ensures if page.At? then c.0 == page.address else c.0 in old(Books())[j].0
      ensures var b := old(Books())[j];
              Books() == old(Books())[j := (b.0 + (if page.At? then {c.0} else {}), b.1 + {c})]
      ensures forall k | k != j :: Room(k) == old(Room(k))
    {
      hide AllSound, Apart, Books, IsBucket, WordsFor, Address, Bucket.Valid;
      BooksAre();
      ApartFacts(j, nodes);
      ghost var books := Books();
      r, c, nodes' := BucketMalloc(j, page, memory, guard, random, nodes);
      BooksAre();
      OneChanged(books, Books(), j, Books()[j]);
    }

    /** malloc_bytes in bucket j, where a page is at hand if there is no room. */
    method Malloc(j: nat, page: Pointer, memory: Bitmap, guard: bool, random: nat,
                  ghost owner: map<nat, nat>, ghost live: set<ChunkId>, ghost nodes: set<Page>)
      returns (r: Pointer, ghost c: ChunkId, ghost nodes': set<Page>)
      requires Valid(owner, live, nodes) && IsBucket(j) && |memory| == WordsFor(j)
      requires if Room(j) then page == Null else page.At? && page.address !in owner && page.address % PAGE_SIZE == 0
      modifies buckets.Values, nodes
      ensures Valid(if page.At? then owner[c.0 := j] else owner, live + {c}, nodes')
      ensures c !in live && r == At(Address(c, j)) && Placed(c, j)
      ensures if page.At? then c.0 == page.address else c.0 in owner && owner[c.0] == j
      ensures (forall k | k != j :: Room(k) == old(Room(k))) && fresh(nodes' - nodes)
    {
      hide *;
      Parts(owner, live, nodes);
      AreApart(j, owner, live, nodes);
      BookIn(owner, live, j);
      BookIs(owner, live, j);
      r, c, nodes' := BookMalloc(j, page, memory, guard, random, nodes);
      BooksMore(buckets.Keys, owner, live, j, page.At?, c);
      Parts(if page.At? then owner[c.0 := j] else owner, live + {c}, nodes');
      Home(j, if page.At? then owner[c.0 := j] else owner, live + {c}, nodes');
    }

    /** The bucket of the page at a, which the source finds through the page directory. */
    method BucketAt(a: nat, ghost owner: map<nat, nat>, ghost live: set<ChunkId>, ghost nodes: set<Page>)
      returns (j: nat)
      requires Valid(owner, live, nodes) && a in owner
      ensures IsBucket(j) && owner[a] == j
    {
      hide *;
      Parts(owner, live, nodes);
      Home(owner[a], owner, live, nodes);
      AreBuckets();
      for i := 0 to 12
        invariant owner[a] >= i
      {
        if i in buckets {
          Home(i, owner, live, nodes);
          if a in buckets[i].owner {
            return i;
          }
        }
      }
      assert false;
    }

    /** free_bytes in bucket j does not touch the others. */
    method BucketFree(ptr: nat, j: nat, ghost nodes: set<Page>) returns (result: FreeResult, released: bool)
      requires Apart(j, nodes) && IsBucket(j) && PointsAt(ptr, j).0 in buckets[j].owner
               && Stolen(j) <= PointsAt(ptr, j).1
      modifies buckets[j], buckets[j].owner.Values
      ensures AllSound(nodes)
      ensures forall k | k in buckets && k != j ::
                buckets[k].owner == old(buckets[k].owner) && buckets[k].g == old(buckets[k].g)
                  && buckets[k].first == old(buckets[k].first)
      ensures var c := PointsAt(ptr, j);
              && (result == ModifiedPointer <==> ptr != Address(c, j))
              && (result == AlreadyFree <==> ptr == Address(c, j) && c !in old(buckets[j].g.live))
              && buckets[j].g.live == old(buckets[j].g.live) - (if result == Freed then {c} else {})
              && buckets[j].owner.Keys == old(buckets[j].owner.Keys) - (if released then {c.0} else {})
              && (released <==> result == Freed && PageIdle(buckets[j].g.live, c.0))
    {
      hide *;
      ApartFacts(j, nodes);
      PointsAtIs(ptr, j);
      result, released := buckets[j].Free(ptr);
      Behind(j, nodes);
    }

    method BookFree(ptr: nat, j: nat, ghost nodes: set<Page>) returns (result: FreeResult, released: bool)
      requires Apart(j, nodes) && IsBucket(j) && j in Books() && PointsAt(ptr, j).0 in Books()[j].0
               && Stolen(j) <= PointsAt(ptr, j).1
      modifies buckets.Values, nodes
      ensures AllSound(nodes)
      ensures var c, b := PointsAt(ptr, j), old(Books())[j];
              && (result == ModifiedPointer <==> ptr != Address(c, j))
              && (result == AlreadyFree <==> ptr == Address(c, j) && c !in b.1)
              && (released <==> result == Freed && PageIdle(b.1 - {c}, c.0))
              && Books() == old(Books())[j := (b.0 - (if released then {c.0} else {}),
                                               b.1 - (if result == Freed then {c} else {}))]
      ensures forall k | k != j :: Room(k) == old(Room(k))
    {
      hide AllSound, Apart, Books, IsBucket, Stolen, PointsAt, Address, Bucket.Valid, PageIdle;
      BooksAre();
      ApartFacts(j, nodes);
      ghost var books := Books();
      result, released := BucketFree(ptr, j, nodes);
      BooksAre();
      OneChanged(books, Books(), j, Books()[j]);
    }

    /** free_bytes for a page of bucket j. */
    method Free(ptr: nat, j: nat, ghost owner: map<nat, nat>, ghost live: set<ChunkId>, ghost nodes: set<Page>)
      returns (result: FreeResult, released: bool)
      requires Valid(owner, live, nodes) && IsBucket(j) && Stolen(j) <= PointsAt(ptr, j).1
      requires PointsAt(ptr, j).0 in owner && owner[PointsAt(ptr, j).0] == j
      modifies buckets.Values, nodes
      ensures var c := PointsAt(ptr, j);
              && (result == ModifiedPointer <==> ptr != Address(c, j))
              && (result == AlreadyFree <==> ptr == Address(c, j) && c !in live)
              && (released <==> result == Freed && forall d: ChunkId | d in live - {c} :: d.0 != c.0)
              && Valid(if released then owner - {c.0} else owner, if result == Freed then live - {c} else live, nodes)
      ensures forall k | k != j :: Room(k) == old(Room(k))
    {
      hide *;
      Parts(owner, live, nodes);
      AreApart(j, owner, live, nodes);
      BookIn(owner, live, j);
      BookIs(owner, live, j);
      ghost var c := PointsAt(ptr, j);
      NothingLess(Books(), j);
      result, released := BookFree(ptr, j, nodes);
      IdleIs(owner, live, j, c);
      if result == Freed {
        BooksLess(buckets.Keys, owner, live, j, released, c);
      }
      Parts(if released then owner - {c.0} else owner, if result == Freed then live - {c} else live, nodes);
    }
  }

  lemma PointsAtIs(ptr: nat, j: nat)
    requires IsBucket(j)
    ensures PointsAt(ptr, j) == (ptr - ptr % PAGE_SIZE, NumberOf(ptr, j))
  {
  }

  lemma IdleIs(owner: map<nat, nat>, live: set<ChunkId>, j: nat, c: ChunkId)
    requires c.0 in owner && owner[c.0] == j
    ensures PageIdle(BookOf(owner, live, j).1 - {c}, c.0) <==> forall d: ChunkId | d in live - {c} :: d.0 != c.0
  {
  }

  lemma AreBuckets()
    ensures forall k: nat :: IsBucket(k) <==> k == 0 || 4 <= k <= 11
  {
  }
}
