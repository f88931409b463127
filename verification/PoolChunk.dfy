/** Chunks of the memory pools of src/common/mempool.c: the items of one chunk, and the doubly
    linked lists that hold the chunks of a pool. */
module PoolChunk {
  import opened Sequences

  /** The last entry of a list of slots, or the null link. */
  function LastSlot(stack: seq<nat>): int {
    if stack == [] then -1 else stack[|stack| - 1]
  }

  /** What the entry at position i links to. */
  function SlotUnder(stack: seq<nat>, i: nat): int
    requires i < |stack|
  {
    if i == 0 then -1 else stack[i - 1]
  }

  /** The items below `carved` are handed out or on the free list, none is both, and the free
      list runs through its items once each.  `stack` is that list, its first item last. */
  ghost predicate Slots(first: int, nextFree: seq<int>, carved: nat, stack: seq<nat>, live: set<nat>) {
    && carved <= |nextFree| && Distinct(stack)
    && (forall k: nat :: k < carved <==> k in live || k in stack)
    && (forall i | 0 <= i < |stack| :: stack[i] < carved && stack[i] !in live)
    && first == LastSlot(stack)
    && (forall i {:trigger nextFree[stack[i]]} | 0 <= i < |stack| :: nextFree[stack[i]] == SlotUnder(stack, i))
  }

  lemma SlotsTakeFree(first: int, nextFree: seq<int>, carved: nat, stack: seq<nat>, live: set<nat>)
    requires stack != [] && Slots(first, nextFree, carved, stack, live)
    ensures 0 <= first < carved && first !in live
    ensures Slots(nextFree[first], nextFree[first := -1], carved, stack[..|stack| - 1], live + {first})
  {
    var rest := stack[..|stack| - 1];
    assert stack == rest + [first];
  }

  lemma SlotsCarve(nextFree: seq<int>, carved: nat, live: set<nat>)
    requires carved < |nextFree| && Slots(-1, nextFree, carved, [], live)
    ensures carved !in live && Slots(-1, nextFree[carved := -1], carved + 1, [], live + {carved})
  {
  }

  lemma SlotsGive(first: int, nextFree: seq<int>, carved: nat, stack: seq<nat>, live: set<nat>, k: nat)
    requires Slots(first, nextFree, carved, stack, live) && k in live
    ensures k < carved && Slots(k, nextFree[k := first], carved, stack + [k], live - {k})
  {
  }

  /** How many items a chunk without a free list has handed out. */
  lemma SlotsCount(first: int, nextFree: seq<int>, carved: nat, stack: seq<nat>, live: set<nat>)
    requires Slots(first, nextFree, carved, stack, live)
    ensures |live| <= carved && (|live| == carved <==> stack == [])
  {
    var all := Below(carved);
    assert live <= all;
    Subset(live, all);
    if stack == [] {
      assert live == all;
    } else {
      assert stack[0] in all && stack[0] !in live;
      Subset(live + {stack[0]}, all);
    }
  }

  lemma {:induction false} Subset<T>(a: set<T>, b: set<T>)
    requires a <= b
    ensures |a| <= |b|
    ensures |a| == |b| ==> a == b
  {
    assert b == a + (b - a);
  }

  ghost function Below(n: nat): (r: set<nat>)
    ensures |r| == n && forall k: nat :: k in r <==> k < n
  {
    if n == 0 then {} else Below(n - 1) + {n - 1}
  }

  class Chunk {
    const capacity: nat
    var next: Chunk?
    var prev: Chunk?
    var firstFree: int
    var nextFree: seq<int>
    var nAllocated: int
    var carved: nat
    ghost var stack: seq<nat>
    ghost var live: set<nat>

    ghost predicate Ok()
      reads `firstFree, `nextFree, `nAllocated, `carved, `stack, `live
    {
      && |nextFree| == capacity && nAllocated == |live|
      && Slots(firstFree, nextFree, carved, stack, live)
    }

    /** mp_chunk_new. */
    constructor (capacity: nat)
      ensures Ok() && this.capacity == capacity && nAllocated == 0 && live == {} && next == null && prev == null
    {
      this.capacity := capacity;
      next, prev, firstFree, nAllocated, carved := null, null, -1, 0, 0;
      nextFree := seq(capacity, _ => -1);
      stack, live := [], {};
    }

    lemma Room()
      requires Ok()
      ensures nAllocated <= capacity
      ensures nAllocated < capacity && stack == [] ==> carved < capacity
      ensures nAllocated == 0 <==> live == {}
    {
      SlotsCount(firstFree, nextFree, carved, stack, live);
    }

    /** mempool.c:248-267: the item comes from the free list if there is one there, and else
        from the part that has not been carved, where there is room. */
    method Take() returns (k: nat)
      requires Ok() && nAllocated < capacity
      modifies `firstFree, `nextFree, `nAllocated, `carved, `stack, `live
      ensures Ok() && k < capacity && k !in old(live) && live == old(live) + {k}
      ensures nAllocated == old(nAllocated) + 1
    {
      Room();
      if firstFree != -1 {
        SlotsTakeFree(firstFree, nextFree, carved, stack, live);
        k := firstFree;
        firstFree := nextFree[k];
        nextFree := nextFree[k := -1];
        stack := stack[..|stack| - 1];
      } else {
        SlotsCarve(nextFree, carved, live);
        k := carved;
        carved := carved + 1;
        nextFree := nextFree[k := -1];
      }
      nAllocated := nAllocated + 1;
      live := live + {k};
    }

    /** mempool.c:303-304 and 349. */
    method Give(k: nat)
      requires Ok() && k in live
      modifies `firstFree, `nextFree, `nAllocated, `stack, `live
      ensures Ok() && live == old(live) - {k} && nAllocated == old(nAllocated) - 1
    {
      SlotsGive(firstFree, nextFree, carved, stack, live, k);
      nextFree := nextFree[k := firstFree];
      firstFree := k;
      nAllocated := nAllocated - 1;
      stack, live := stack + [k], live - {k};
    }

    /** mempool.c:344-345: an empty chunk forgets how it was carved. */
    method Reset()
      requires Ok() && live == {}
      modifies `firstFree, `carved, `stack
      ensures Ok() && carved == 0 && stack == []
    {
      firstFree, carved := -1, 0;
      stack := [];
    }
  }

  function NextIn(s: seq<Chunk>, i: nat): Chunk?
    requires i < |s|
  {
    if i + 1 < |s| then s[i + 1] else null
  }

  function PrevIn(s: seq<Chunk>, i: nat): Chunk?
    requires i < |s|
  {
    if i == 0 then null else s[i - 1]
  }

  /** The doubly linked list that starts at head is s. */
  ghost predicate Dlist(head: Chunk?, s: seq<Chunk>)
    reads s
  {
    && head == (if |s| == 0 then null else s[0]) && Distinct(s)
    && (forall i {:trigger s[i].next} | 0 <= i < |s| :: s[i].next == NextIn(s, i))
    && (forall i {:trigger s[i].prev} | 0 <= i < |s| :: s[i].prev == PrevIn(s, i))
  }

  /** mempool.c:226-228 and 278-280: the first chunk leaves its list; its own links stay. */
  method PopFront(c: Chunk, ghost s: seq<Chunk>) returns (head: Chunk?)
    requires Dlist(c, s) && s != []
    modifies (set k | 1 == k < |s| :: s[k])`prev
    ensures Dlist(head, s[1..]) && c.prev == null && c !in s[1..]
  {
    head := c.next;
    if head != null {
      head.prev := null;
    }
  }

  /** mempool.c:199-203 and 283-286: a chunk that has no predecessor goes to the front. */
  method PushFront(head: Chunk?, c: Chunk, ghost s: seq<Chunk>) returns (h: Chunk?)
    requires Dlist(head, s) && c !in s && c.prev == null
    modifies c`next, (set k | 0 == k < |s| :: s[k])`prev
    ensures h == c && Dlist(h, [c] + s)
  {
    c.next := head;
    if head != null {
      head.prev := c;
    }
    h := c;
  }

  /** mempool.c:310-315 and 328-333: a chunk leaves the list it is in. */
  method Unlink(head: Chunk?, c: Chunk, ghost s: seq<Chunk>, ghost i: nat) returns (h: Chunk?)
    requires Dlist(head, s) && i < |s| && s[i] == c
    modifies (set k | 0 <= k < |s| && k == i - 1 :: s[k])`next, (set k | 0 <= k < |s| && k == i + 1 :: s[k])`prev
    ensures Dlist(h, Without(s, i)) && c !in Without(s, i)
  {
    if c.prev != null {
      c.prev.next := c.next;
    }
    if c.next != null {
      c.next.prev := c.prev;
    }
    h := if c == head then c.next else head;
  }

  ghost predicate NoneIn(a: seq<Chunk>, b: seq<Chunk>) {
    forall c | c in a :: c !in b
  }

  /** The first chunk of a list goes to the front of another; a third list is not disturbed. */
  method PopPush(c: Chunk, to: Chunk?, other: Chunk?, ghost s: seq<Chunk>, ghost t: seq<Chunk>, ghost u: seq<Chunk>)
    returns (from': Chunk?, to': Chunk?)
    requires Dlist(c, s) && Dlist(to, t) && Dlist(other, u)
    requires s != [] && NoneIn(s, t) && NoneIn(s, u) && NoneIn(t, u)
    modifies (set d | d in s || d in t)`next, (set d | d in s || d in t)`prev
    ensures Dlist(from', s[1..]) && Dlist(to', [c] + t) && Dlist(other, u)
  {
    from' := PopFront(c, s);
    assert Dlist(to, t);
    to' := PushFront(to, c, t);
    assert Dlist(from', s[1..]);
    assert Dlist(other, u);
  }

  /** A chunk leaves the list it is in and goes to the front of another. */
  method UnlinkPush(c: Chunk, from: Chunk?, to: Chunk?, other: Chunk?, ghost i: nat,
                    ghost s: seq<Chunk>, ghost t: seq<Chunk>, ghost u: seq<Chunk>)
    returns (from': Chunk?, to': Chunk?)
    requires Dlist(from, s) && Dlist(to, t) && Dlist(other, u)
    requires i < |s| && s[i] == c && NoneIn(s, t) && NoneIn(s, u) && NoneIn(t, u)
    modifies (set d | d in s || d in t)`next, (set d | d in s || d in t)`prev
    ensures Dlist(from', Without(s, i)) && Dlist(to', [c] + t) && Dlist(other, u)
  {
    ghost var rest := Without(s, i);
    assert NoneIn(rest, t) && NoneIn(rest, u) && c !in t && c !in u by {
      assert forall k | 0 <= k < |rest| :: rest[k] in s;
    }
    from' := UnlinkAlone(from, c, s, i, to, t, other, u);
    hide Without;
    to' := PushAlone(to, c, t, from', rest, other, u);
  }

  method UnlinkAlone(head: Chunk?, c: Chunk, ghost s: seq<Chunk>, ghost i: nat,
                     ghost h1: Chunk?, ghost t: seq<Chunk>, ghost h2: Chunk?, ghost u: seq<Chunk>) returns (h: Chunk?)
    requires Dlist(head, s) && i < |s| && s[i] == c && Dlist(h1, t) && Dlist(h2, u) && NoneIn(s, t) && NoneIn(s, u)
    modifies (set d | d in s)`next, (set d | d in s)`prev
    ensures Dlist(h, Without(s, i)) && c !in Without(s, i) && c.prev == null && Dlist(h1, t) && Dlist(h2, u)
  {
    assert forall k | 0 <= k < |t| :: t[k] !in s;
    assert forall k | 0 <= k < |u| :: u[k] !in s;
    h := Unlink(head, c, s, i);
    hide Distinct, Without;
    assert Dlist(h1, t);
    assert Dlist(h2, u);
    ClearPrev(c, h, Without(s, i), h1, t, h2, u);
  }

  method ClearPrev(c: Chunk, ghost head: Chunk?, ghost s: seq<Chunk>, ghost h1: Chunk?, ghost t: seq<Chunk>,
                   ghost h2: Chunk?, ghost u: seq<Chunk>)
    requires Dlist(head, s) && Dlist(h1, t) && Dlist(h2, u) && c !in s && c !in t && c !in u
    modifies c`prev
    ensures Dlist(head, s) && Dlist(h1, t) && Dlist(h2, u) && c.prev == null
  {
    hide Distinct;
    c.prev := null;
  }

  method PushAlone(head: Chunk?, c: Chunk, ghost s: seq<Chunk>,
                   ghost h1: Chunk?, ghost t: seq<Chunk>, ghost h2: Chunk?, ghost u: seq<Chunk>) returns (h: Chunk?)
    requires Dlist(head, s) && c !in s && c.prev == null && Dlist(h1, t) && Dlist(h2, u)
    requires NoneIn(t, s) && NoneIn(s, u) && c !in t && c !in u
    modifies c`next, (set d | d in s)`prev
    ensures h == c && Dlist(h, [c] + s) && Dlist(h1, t) && Dlist(h2, u)
  {
    h := PushFront(head, c, s);
    assert forall k | 0 <= k < |t| :: t[k] !in s && t[k] != c;
    assert s == [] || s[0] !in u;
    assert forall k | 0 <= k < |u| :: u[k] != c && (s == [] || u[k] != s[0]);
    assert Dlist(h1, t);
    assert Dlist(h2, u);
  }

  lemma Head(head: Chunk?, s: seq<Chunk>)
    requires Dlist(head, s)
    ensures (if head == null then s == [] else s != [] && s[0] == head) && Distinct(s)
  {
  }

  /** Fuller chunks come first. */
  ghost predicate Descending(s: seq<Chunk>)
    reads s
  {
    forall i, j | 0 <= i < j < |s| :: s[i].nAllocated >= s[j].nAllocated
  }

  /** What qsort promises for the comparison of mempool.c:413-419. */
  method Qsort(s: seq<Chunk>) returns (r: seq<Chunk>)
    ensures multiset(r) == multiset(s) && Descending(r)
  {
    r := [];
    for n := 0 to |s|
      invariant multiset(r) == multiset(s[..n]) && Descending(r)
    {
      hide Descending;
      var i := 0;
      while i < |r| && r[i].nAllocated >= s[n].nAllocated
        invariant 0 <= i <= |r| && forall k | 0 <= k < i :: r[k].nAllocated >= s[n].nAllocated
      {
        i := i + 1;
      }
      InsertDescending(r, i, s[n]);
      InsertMultiset(r, i, s, n);
      r := r[..i] + [s[n]] + r[i..];
    }
    assert s[..|s|] == s;
  }

  lemma InsertMultiset<T>(r: seq<T>, i: nat, s: seq<T>, n: nat)
    requires i <= |r| && n < |s| && multiset(r) == multiset(s[..n])
    ensures multiset(r[..i] + [s[n]] + r[i..]) == multiset(s[..n + 1])
  {
    assert r == r[..i] + r[i..] && s[..n + 1] == s[..n] + [s[n]];
  }

  lemma InsertDescending(r: seq<Chunk>, i: nat, c: Chunk)
    requires Descending(r) && i <= |r| && forall k | 0 <= k < i :: r[k].nAllocated >= c.nAllocated
    requires i < |r| ==> r[i].nAllocated < c.nAllocated
    ensures Descending(r[..i] + [c] + r[i..])
  {
    var g := r[..i] + [c] + r[i..];
    forall a, b | 0 <= a < b < |g| ensures g[a].nAllocated >= g[b].nAllocated {
      assert a != i ==> g[a] == r[if a < i then a else a - 1];
      assert b != i ==> g[b] == r[if b < i then b else b - 1];
    }
  }

  lemma PermutedDistinct<T>(s: seq<T>, r: seq<T>)
    requires multiset(r) == multiset(s) && Distinct(s)
    ensures Distinct(r) && |r| == |s| && forall x :: x in r <==> x in s
  {
    assert |multiset(r)| == |multiset(s)|;
    forall x ensures x in r <==> x in s {
      assert x in multiset(r) <==> x in multiset(s);
    }
    forall i, j | 0 <= i < j < |r| ensures r[i] != r[j] {
      TwiceCounts(r, i, j);
      DistinctCount(s, r[i]);
    }
  }

  lemma TwiceCounts<T>(r: seq<T>, i: nat, j: nat)
    requires i < j < |r|
    ensures r[i] == r[j] ==> multiset(r)[r[i]] >= 2
  {
    assert r == r[..i] + [r[i]] + r[i + 1..j] + [r[j]] + r[j + 1..];
  }

  /** mp_pool_sort_used_chunks: puts fuller chunks first, keeping the list well formed. */
  method SortList(head: Chunk?, ghost s: seq<Chunk>) returns (h: Chunk?, ghost r: seq<Chunk>)
    requires Dlist(head, s)
    modifies (set c | c in s)`next, (set c | c in s)`prev
    ensures Dlist(h, r) && multiset(r) == multiset(s) && Descending(r)
    ensures Descending(s) ==> h == head && r == s && forall c | c in s :: c.next == old(c.next) && c.prev == old(c.prev)
  {
    var inverted, n := 0, 0;
    var chunk := head;
    while chunk != null
      invariant 0 <= n <= |s| && chunk == (if n < |s| then s[n] else null)
      invariant 0 < inverted ==> !Descending(s)
      invariant 0 <= inverted && (n == 0 ==> inverted == 0)
                && (inverted == 0 ==> forall i | 0 <= i < n && i + 1 < |s| :: Falls(s, i))
      decreases |s| - n
    {
      if chunk.next != null && chunk.next.nAllocated > chunk.nAllocated {
        inverted := inverted + 1;
      }
      n := n + 1;
      chunk := chunk.next;
    }
    if inverted == 0 {
      Falling(s);
      return head, s;
    }
    var chunks := CopyOut(head, s);
    var sorted := Qsort(chunks);
    PermutedDistinct(s, sorted);
    h := Relink(sorted);
    r := sorted;
  }

  ghost predicate Falls(s: seq<Chunk>, i: nat)
    requires i + 1 < |s|
    reads s
  {
    s[i].nAllocated >= s[i + 1].nAllocated
  }

  lemma Falling(s: seq<Chunk>)
    requires forall i: nat | i + 1 < |s| :: Falls(s, i)
    ensures Descending(s)
  {
    forall i, j | 0 <= i < j < |s| ensures s[i].nAllocated >= s[j].nAllocated {
      FallingTo(s, i, j);
    }
  }

  lemma {:induction false} FallingTo(s: seq<Chunk>, i: nat, j: nat)
    requires i <= j < |s| && forall i: nat | i + 1 < |s| :: Falls(s, i)
    ensures s[i].nAllocated >= s[j].nAllocated
    decreases j
  {
    if i < j {
      FallingTo(s, i, j - 1);
      assert Falls(s, j - 1);
    }
  }

  method CopyOut(head: Chunk?, ghost s: seq<Chunk>) returns (r: seq<Chunk>)
    requires Dlist(head, s)
    ensures r == s
  {
    r := [];
    var chunk := head;
    while chunk != null
      invariant r <= s && chunk == (if |r| < |s| then s[|r|] else null)
      decreases |s| - |r|
    {
      r := r + [chunk];
      chunk := chunk.next;
    }
  }

  /** mempool.c:444-450. */
  method Relink(s: seq<Chunk>) returns (h: Chunk?)
    requires Distinct(s) && s != []
    modifies (set c | c in s)`next, (set c | c in s)`prev
    ensures Dlist(h, s)
  {
    h := s[0];
    s[0].prev := null;
    for i := 1 to |s|
      invariant forall k {:trigger s[k].next} | 0 <= k < i - 1 :: s[k].next == NextIn(s, k)
      invariant forall k {:trigger s[k].prev} | 0 <= k < i :: s[k].prev == PrevIn(s, k)
    {
      s[i - 1].next := s[i];
      s[i].prev := s[i - 1];
    }
    s[|s| - 1].next := null;
  }

  /** mempool.c:476-501: walk past the chunks to keep, count and free the rest, and end the list
      there. */
  method CutList(head: Chunk?, keep: int, ghost s: seq<Chunk>) returns (h: Chunk?, n: nat)
    requires Dlist(head, s) && 0 <= keep
    modifies (set k | 0 <= k < |s| && k == keep - 1 :: s[k])`next
    ensures Dlist(h, if keep < |s| then s[..keep] else s)
    ensures n == if keep < |s| then |s| - keep else 0
  {
    var last: Chunk? := null;
    var chunk := head;
    var left := keep;
    while chunk != null && left > 0
      invariant 0 <= left <= keep && keep - left <= |s|
      invariant last == (if left == keep then null else s[keep - left - 1])
      invariant chunk == (if keep - left < |s| then s[keep - left] else null)
      decreases left
    {
      last := chunk;
      chunk := chunk.next;
      left := left - 1;
    }
    h, n := head, 0;
    if chunk == null {
      return;
    }
    var toFree: Chunk? := chunk;
    while toFree != null
      invariant keep + n <= |s| && toFree == (if keep + n < |s| then s[keep + n] else null)
      decreases |s| - n
    {
      toFree := toFree.next;
      n := n + 1;
    }
    if last == null {
      h := null;
    } else {
      last.next := null;
    }
  }
}
