/** The books of all buckets of src/common/OpenBSD_malloc_Linux.c together: which bucket has each
    page that is cut into chunks, and which chunks hold the struct pginfo of other pages. */
module ChunkBooks {
  import opened ChunkBucket
  import opened ChunkPage
  import opened Limits

  /** The bucket that imalloc takes the struct pginfo from. */
  function HeaderBucket(j: nat): (k: nat)
    requires IsBucket(j) && !SelfHosted(j)
    ensures IsBucket(k)
  {
    if j == 0 then 10 else 5
  }

  /** How often that happens in turn. */
  function Level(j: nat): nat
    requires IsBucket(j)
  {
    if SelfHosted(j) then 0 else if j == 0 then 2 else 1
  }

  lemma Levels(j: nat)
    requires IsBucket(j)
    ensures Level(j) <= 2 && (!SelfHosted(j) ==> Level(HeaderBucket(j)) < Level(j))
  {
    HostsFive();
    HostsTen();
  }

  lemma HostsFive()
    ensures SelfHosted(5)
  {
    assert WordsFor(5) == 2;
  }

  lemma HostsTen()
    ensures !SelfHosted(10)
  {
    assert WordsFor(10) == 1;
  }

  /** It is the bucket for the size of a struct pginfo with the bitmap of bucket j. */
  lemma HeaderFits(j: nat)
    requires IsBucket(j) && !SelfHosted(j)
    ensures AdminSize(j) <= Unit(HeaderBucket(j)) < 2 * AdminSize(j)
  {
    if j >= 4 {
      HeaderOfLarge(j);
    } else {
      HeaderOfNone();
    }
  }

  lemma HeaderOfNone()
    ensures AdminSize(0) == 536 && Unit(10) == 1024
  {
    assert WordsFor(0) == 64;
  }

  lemma HeaderOfLarge(j: nat)
    requires 4 <= j <= 11 && !SelfHosted(j)
    ensures AdminSize(j) == 32 && Unit(5) == 32
  {
  }

  /** Which bucket each page that is cut into chunks belongs to, by address; the chunks that are
      handed out; and for a page whose struct pginfo lies elsewhere the chunk it lies in. */
  datatype View = View(owner: map<nat, nat>, live: set<ChunkId>, header: map<nat, ChunkId>)

  /** The chunk that a pointer is taken to point at. */
  function PointsAt(ptr: nat, j: nat): ChunkId
    requires IsBucket(j)
  {
    (ptr - ptr % PAGE_SIZE, NumberOf(ptr, j))
  }

  predicate Placed(c: ChunkId, j: nat) {
    IsBucket(j) && Stolen(j) <= c.1 < Chunks(j)
  }

  /** Each chunk lies where its page's bucket has chunks. */
  ghost predicate Sorted(v: View) {
    && (forall a | a in v.owner :: a % PAGE_SIZE == 0 && IsBucket(v.owner[a]))
    && (forall c: ChunkId | c in v.live :: c.0 in v.owner && Placed(c, v.owner[c.0]))
  }

  predicate Guest(v: View, a: nat) {
    a in v.owner && IsBucket(v.owner[a]) && !SelfHosted(v.owner[a])
  }

  /** A chunk of its own, in the right bucket, for every struct pginfo that needs one. */
  ghost predicate Headed(v: View) {
    && (forall a :: a in v.header <==> Guest(v, a))
    && (forall a | a in v.header && Guest(v, a) ::
          v.header[a] in v.live && v.header[a].0 in v.owner && v.owner[v.header[a].0] == HeaderBucket(v.owner[a]))
    && (forall a, b | a in v.header && b in v.header && v.header[a] == v.header[b] :: a == b)
  }

  ghost predicate Joined(v: View) {
    Sorted(v) && Headed(v)
  }

  /** The chunks that callers hold, with their buckets. */
  ghost function Held(v: View): map<ChunkId, nat> {
    map c: ChunkId | c in v.live && c !in v.header.Values && c.0 in v.owner :: v.owner[c.0]
  }

  lemma HeadersLive(v: View)
    requires Joined(v)
    ensures v.header.Values <= v.live && forall c: ChunkId :: c in Held(v) <==> c in v.live && c !in v.header.Values
    ensures forall c: ChunkId | c in Held(v) :: c.0 in v.owner && Held(v)[c] == v.owner[c.0] && Placed(c, Held(v)[c])
  {
    hide Placed, SelfHosted;
    forall c | c in v.header.Values ensures c in v.live {
      var a :| a in v.header && v.header[a] == c;
    }
  }

  /** A chunk is handed out. */
  lemma Serves(v: View, c: ChunkId)
    requires Joined(v) && c !in v.live && c.0 in v.owner && Placed(c, v.owner[c.0])
    ensures var w := v.(live := v.live + {c});
            Joined(w) && c !in Held(v) && Held(w) == Held(v)[c := v.owner[c.0]]
  {
    hide Placed, SelfHosted;
    HeadersLive(v);
  }

  /** A chunk comes back. */
  lemma Gives(v: View, c: ChunkId)
    requires Joined(v) && c in Held(v)
    ensures var w := v.(live := v.live - {c});
            Joined(w) && Held(w) == Held(v) - {c}
  {
    hide Placed, SelfHosted;
    HeadersLive(v);
    var w := v.(live := v.live - {c});
    forall a | a in v.header ensures v.header[a] != c {
    }
  }

  ghost function Opened(v: View, j: nat, c: ChunkId, hc: ChunkId): View
    requires IsBucket(j)
  {
    View(v.owner[c.0 := j], v.live + {c}, if SelfHosted(j) then v.header else v.header[c.0 := hc])
  }

  lemma ValuesWith(h: map<nat, ChunkId>, a: nat, x: ChunkId)
    requires a !in h
    ensures h[a := x].Values == h.Values + {x}
  {
    var w := h[a := x];
    forall y | y in h.Values + {x} ensures y in w.Values {
      if y != x {
        var b :| b in h && h[b] == y;
        assert b in w && w[b] == y;
      } else {
        assert w[a] == y;
      }
    }
  }

  lemma ValuesWithout(h: map<nat, ChunkId>, a: nat)
    requires forall b, c | b in h && c in h && h[b] == h[c] :: b == c
    ensures (h - {a}).Values == h.Values - if a in h then {h[a]} else {}
  {
    var w := h - {a};
    forall y | y in h.Values && (a in h ==> y != h[a]) ensures y in w.Values {
      var b :| b in h && h[b] == y;
      assert b in w && w[b] == y;
    }
  }

  /** A page is cut for bucket j and its first chunk handed out; hc is to hold the struct pginfo. */
  lemma Opens(v: View, j: nat, c: ChunkId, hc: ChunkId)
    requires Joined(v) && Placed(c, j) && c.0 % PAGE_SIZE == 0 && c.0 !in v.owner
    requires !SelfHosted(j) ==> hc in Held(v) && Held(v)[hc] == HeaderBucket(j)
    ensures var w := Opened(v, j, c, hc);
            && Joined(w) && c !in v.live && c !in Held(v) && (!SelfHosted(j) ==> c != hc)
            && Held(w) == (if SelfHosted(j) then Held(v) else Held(v) - {hc})[c := j]
  {
    hide SelfHosted, Stolen, Chunks, Headed;
    HeadersLive(v);
    NoGuest(v, c.0);
    ValuesWith(v.header, c.0, hc);
    HeadedOpened(v, j, c, hc);
  }

  lemma NoGuest(v: View, a: nat)
    requires Joined(v) && a !in v.owner
    ensures a !in v.header
  {
  }

  lemma HeadedOpened(v: View, j: nat, c: ChunkId, hc: ChunkId)
    requires Joined(v) && IsBucket(j) && c.0 !in v.owner
    requires !SelfHosted(j) ==> hc in Held(v) && Held(v)[hc] == HeaderBucket(j)
    ensures Headed(Opened(v, j, c, hc))
  {
    hide SelfHosted, Placed;
    var w := Opened(v, j, c, hc);
    forall a ensures a in w.header <==> Guest(w, a) {
      assert a in v.header <==> Guest(v, a);
    }
    forall a | a in v.header ensures v.header[a] in v.header.Values && w.header[a] == v.header[a] {
    }
  }

  ghost function Closed(v: View, a: nat): View {
    View(v.owner - {a}, v.live, v.header - {a})
  }

  /** A page without chunks in use is given up; its struct pginfo is a chunk to be freed. */
  lemma Closes(v: View, a: nat)
    requires Joined(v) && a in v.owner && IsBucket(v.owner[a]) && forall c: ChunkId | c in v.live :: c.0 != a
    ensures var w := Closed(v, a);
            && Joined(w) && (Guest(v, a) <==> a in v.header)
            && Held(w) == if a in v.header then Held(v)[v.header[a] := HeaderBucket(v.owner[a])] else Held(v)
  {
    hide SelfHosted, Placed;
    HeadersLive(v);
    ValuesWithout(v.header, a);
    HeadedClosed(v, a);
    if a in v.header {
      assert v.header[a] in v.header.Values;
    }
  }

  lemma HeadedClosed(v: View, a: nat)
    requires Joined(v) && forall c: ChunkId | c in v.live :: c.0 != a
    ensures Headed(Closed(v, a))
  {
    hide SelfHosted, Placed;
    var w := Closed(v, a);
    forall b ensures b in w.header <==> Guest(w, b) {
      assert b in v.header <==> Guest(v, b);
    }
  }
}
