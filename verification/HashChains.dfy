/** Bucket chains of the hash tables generated by src/common/ht.h: the pointer writes on
    them and the two branches of HT_GROW that move every entry to a larger table. */
module HashChains {
  import opened Sequences

  /** Intrusive entry: the HT_ENTRY fields together with the key that the macro
      parameters hashfn and eqfn look at. */
  type Key(==, !new)

  class Elm {
    const key: Key
    var next: Elm?
    var hash: nat

    constructor (key: Key)
      ensures this.key == key && next == null
    {
      this.key := key;
      next := null;
      hash := 0;
    }
  }

  type Chain = seq<Elm>

  /** An address of a pointer: a bucket of the table, or the next field of an entry. */
  datatype Link = Slot(b: nat) | After(e: Elm)

  function EntryOrNull(c: Chain, i: nat): Elm? {
    if i < |c| then c[i] else null
  }

  /** Following next pointers from e runs through c[i], c[i + 1], ... and then ends. */
  ghost predicate LinkedFrom(e: Elm?, c: Chain, i: nat)
    reads c
  {
    e == EntryOrNull(c, i) && forall k | i <= k < |c| :: c[k].next == EntryOrNull(c, k + 1)
  }

  ghost predicate Linked(head: Elm?, c: Chain)
    reads c
  {
    LinkedFrom(head, c, 0)
  }

  /** Table t holds the chains cs, all of whose entries belong to `nodes`. */
  ghost predicate LinkedAll(t: array<Elm?>, cs: seq<Chain>, nodes: set<Elm>)
    reads t, nodes
  {
    && |cs| == t.Length
    && (forall b, i | 0 <= b < |cs| && 0 <= i < |cs[b]| :: cs[b][i] in nodes)
    && (forall b | 0 <= b < |cs| :: Linked(t[b], cs[b]))
  }

  /** Every entry of `own` lies on exactly the chain that `own` names, once. */
  ghost predicate Owned(cs: seq<Chain>, own: map<Elm, nat>) {
    && (forall b, i | 0 <= b < |cs| && 0 <= i < |cs[b]| :: cs[b][i] in own && own[cs[b][i]] == b)
    && (forall e | e in own :: own[e] < |cs| && e in cs[own[e]])
    && (forall b | 0 <= b < |cs| :: Distinct(cs[b]))
  }

  /** Table t holds exactly the entries of `own`, on the chains cs. */
  ghost predicate Holds(t: array<Elm?>, cs: seq<Chain>, own: map<Elm, nat>)
    reads t, own.Keys
  {
    LinkedAll(t, cs, own.Keys) && Owned(cs, own)
  }

  /** Chains after the entry at position i of bucket b moves to the front of bucket b2. */
  function Moved(cs: seq<Chain>, b: nat, i: nat, b2: nat): (r: seq<Chain>)
    requires b < |cs| && b2 < |cs| && b != b2 && i < |cs[b]|
  {
    cs[b := Without(cs[b], i)][b2 := [cs[b][i]] + cs[b2]]
  }

  /** An entry is at one place only. */
  lemma NowhereElse(cs: seq<Chain>, own: map<Elm, nat>, b: nat, i: nat)
    requires Owned(cs, own) && b < |cs| && i < |cs[b]|
    ensures forall k | 0 <= k < |cs[b]| && k != i :: cs[b][k] != cs[b][i]
    ensures forall c | 0 <= c < |cs| && c != b :: cs[b][i] !in cs[c]
  {
    forall c | 0 <= c < |cs| && c != b ensures cs[b][i] !in cs[c] {
      if k :| 0 <= k < |cs[c]| && cs[c][k] == cs[b][i] {
        assert own[cs[c][k]] == c && own[cs[b][i]] == b;
      }
    }
  }

  lemma OwnedWithout(cs: seq<Chain>, own: map<Elm, nat>, b: nat, i: nat)
    requires Owned(cs, own) && b < |cs| && i < |cs[b]|
    ensures Owned(cs[b := Without(cs[b], i)], own - {cs[b][i]})
  {
    var e, cs', own' := cs[b][i], cs[b := Without(cs[b], i)], own - {cs[b][i]};
    forall x | x in own' ensures own'[x] < |cs'| && x in cs'[own'[x]] {
      var k :| 0 <= k < |cs[own[x]]| && cs[own[x]][k] == x;
      if own[x] == b {
        assert cs'[b][if k < i then k else k - 1] == x;
      }
    }
    forall c, j | 0 <= c < |cs'| && 0 <= j < |cs'[c]|
      ensures cs'[c][j] in own' && own'[cs'[c][j]] == c
    {
      if c == b {
        assert cs'[b][j] == cs[b][if j < i then j else j + 1];
      }
    }
  }

  lemma OwnedPush(cs: seq<Chain>, own: map<Elm, nat>, e: Elm, b: nat)
    requires Owned(cs, own) && b < |cs| && e !in own
    ensures Owned(cs[b := [e] + cs[b]], own[e := b])
  {
    var cs', own' := cs[b := [e] + cs[b]], own[e := b];
    assert cs'[b][0] == e;
    forall x | x in own' ensures own'[x] < |cs'| && x in cs'[own'[x]] {
      if x != e && own[x] == b {
        var k :| 0 <= k < |cs[b]| && cs[b][k] == x;
        assert cs'[b][k + 1] == x;
      }
    }
    forall c, j | 0 <= c < |cs'| && 0 <= j < |cs'[c]|
      ensures cs'[c][j] in own' && own'[cs'[c][j]] == c
    {
      if c == b && j > 0 {
        assert cs'[b][j] == cs[b][j - 1];
      }
    }
  }

  /** `*pE = e->hte_next`: take the entry at position i out of the chain of bucket b. */
  method Unlink(t: array<Elm?>, pE: Link, e: Elm, ghost c: Chain, ghost b: nat, ghost i: nat)
    requires b < t.Length && Linked(t[b], c) && Distinct(c)
    requires i < |c| && c[i] == e
    requires pE == if i == 0 then Slot(b) else After(c[i - 1])
    modifies t, (set k | k == i - 1 && 0 <= k :: c[k])`next
    ensures Linked(t[b], Without(c, i))
    ensures forall k | 0 <= k < t.Length && k != b :: t[k] == old(t[k])
  {
    match pE {
      case Slot(s) => t[s] := e.next;
      case After(f) => f.next := e.next;
    }
    ghost var c' := Without(c, i);
    forall k | 0 <= k < |c'| ensures c'[k].next == EntryOrNull(c', k + 1) {
      assert c'[k] == c[if k < i then k else k + 1];
    }
  }

  /** `e->hte_next = t[b]; t[b] = e`: put an entry that is on no chain in front of bucket b. */
  method Push(t: array<Elm?>, e: Elm, b: nat, ghost c: Chain)
    requires b < t.Length && Linked(t[b], c) && e !in c
    modifies t, e`next
    ensures Linked(t[b], [e] + c)
    ensures forall k | 0 <= k < t.Length && k != b :: t[k] == old(t[k])
  {
    e.next := t[b];
    t[b] := e;
  }

  /** `*p = elm` and what HT_REPLACE does after it (ht.h:581-586): elm takes the place of the
      entry at position i, or the place behind the last one. */
  method PutAt(t: array<Elm?>, p: Link, elm: Elm, ghost c: Chain, ghost b: nat, ghost i: nat) returns (r: Elm?)
    requires b < t.Length && Linked(t[b], c) && Distinct(c)
    requires i <= |c| && elm !in c && (i == |c| ==> elm.next == null)
    requires p == if i == 0 then Slot(b) else After(c[i - 1])
    modifies t, (set k | 0 <= k < |c| && (k == i - 1 || k == i) :: c[k])`next, elm`next
    ensures Linked(t[b], Put(c, i, elm))
    ensures r == (if i < |c| then c[i] else null) && (r != null ==> r.next == null)
    ensures forall k | 0 <= k < t.Length && k != b :: t[k] == old(t[k])
  {
    r := Deref(t, p);
    match p {
      case Slot(s) => t[s] := elm;
      case After(f) => f.next := elm;
    }
    if r != null {
      elm.next := r.next;
      r.next := null;
    }
    ghost var c' := Put(c, i, elm);
    assert forall k | 0 <= k < |c'| :: c'[k] == if k == i then elm else c[k];
  }

  /** Chain c with elm at position i, in place of what was there. */
  function Put(c: Chain, i: nat, elm: Elm): Chain
    requires i <= |c|
  {
    if i < |c| then c[i := elm] else c + [elm]
  }

  function PutOwn(own: map<Elm, nat>, c: Chain, b: nat, i: nat, elm: Elm): map<Elm, nat>
    requires i <= |c|
  {
    if i < |c| then (own - {c[i]})[elm := b] else own[elm := b]
  }

  lemma OwnedPut(cs: seq<Chain>, own: map<Elm, nat>, elm: Elm, b: nat, i: nat)
    requires Owned(cs, own) && b < |cs| && i <= |cs[b]| && elm !in own
    ensures Owned(cs[b := Put(cs[b], i, elm)], PutOwn(own, cs[b], b, i, elm))
  {
    var cs', own' := cs[b := Put(cs[b], i, elm)], PutOwn(own, cs[b], b, i, elm);
    assert cs'[b][i] == elm;
    forall x | x in own' ensures own'[x] < |cs'| && x in cs'[own'[x]] {
      if x != elm && own[x] == b {
        var k :| 0 <= k < |cs[b]| && cs[b][k] == x;
        assert cs'[b][k] == x;
      }
    }
  }

  method PutHolds(t: array<Elm?>, p: Link, elm: Elm, ghost cs: seq<Chain>, ghost own: map<Elm, nat>,
                  ghost b: nat, ghost i: nat) returns (r: Elm?)
    requires Holds(t, cs, own) && b < |cs| && i <= |cs[b]|
    requires elm !in own && (i == |cs[b]| ==> elm.next == null)
    requires p == if i == 0 then Slot(b) else After(cs[b][i - 1])
    modifies t, own.Keys`next, elm`next
    ensures Holds(t, cs[b := Put(cs[b], i, elm)], PutOwn(own, cs[b], b, i, elm))
    ensures r == (if i < |cs[b]| then cs[b][i] else null) && (r != null ==> r.next == null)
  {
    hide Linked, Distinct;
    ghost var cs' := cs[b := Put(cs[b], i, elm)];
    OwnedPut(cs, own, elm, b, i);
    r := PutAt(t, p, elm, cs[b], b, i);
    forall c | 0 <= c < |cs'| ensures Linked(t[c], cs'[c]) {
      if c != b {
        assert old(Linked(t[c], cs[c]));
      }
    }
  }

  method UnlinkHolds(t: array<Elm?>, pE: Link, e: Elm, ghost cs: seq<Chain>, ghost own: map<Elm, nat>,
                     ghost b: nat, ghost i: nat)
    requires Holds(t, cs, own) && b < |cs| && i < |cs[b]| && cs[b][i] == e
    requires pE == if i == 0 then Slot(b) else After(cs[b][i - 1])
    modifies t, (own.Keys - {e})`next
    ensures Holds(t, cs[b := Without(cs[b], i)], own - {e})
  {
    hide Linked, Without, Distinct;
    ghost var cs' := cs[b := Without(cs[b], i)];
    OwnedWithout(cs, own, b, i);
    NowhereElse(cs, own, b, i);
    Unlink(t, pE, e, cs[b], b, i);
    forall c | 0 <= c < |cs'| ensures Linked(t[c], cs'[c]) {
      if c != b {
        assert old(Linked(t[c], cs[c]));
      }
    }
    assert (own - {e}).Keys == own.Keys - {e};
  }

  method PushHolds(t: array<Elm?>, e: Elm, b: nat, ghost cs: seq<Chain>, ghost own: map<Elm, nat>)
    requires Holds(t, cs, own) && b < |cs| && e !in own
    modifies t, e`next
    ensures Holds(t, cs[b := [e] + cs[b]], own[e := b])
  {
    OwnedPush(cs, own, e, b);
    ghost var cs' := cs[b := [e] + cs[b]];
    Push(t, e, b, cs[b]);
    hide Linked;
    forall c | 0 <= c < |cs'| ensures Linked(t[c], cs'[c]) {
      if c != b {
        assert old(Linked(t[c], cs[c]));
      }
    }
  }

  /** The three pointer writes of the in-place rehash (ht.h:752-754): the entry behind
      `pE` leaves bucket b and becomes the first of bucket b2. */
  method MoveEntry(t: array<Elm?>, pE: Link, e: Elm, b2: nat,
                   ghost cs: seq<Chain>, ghost own: map<Elm, nat>, ghost b: nat, ghost i: nat)
    requires Holds(t, cs, own)
    requires b < |cs| && b2 < |cs| && b != b2 && i < |cs[b]| && cs[b][i] == e
    requires pE == if i == 0 then Slot(b) else After(cs[b][i - 1])
    modifies t, own.Keys`next
    ensures own[e := b2].Keys == own.Keys
    ensures Holds(t, Moved(cs, b, i, b2), own[e := b2])
  {
    hide Holds;
    HoldsAt(t, cs, own, b, i);
    UnlinkHolds(t, pE, e, cs, own, b, i);
    PushHolds(t, e, b2, cs[b := Without(cs[b], i)], own - {e});
    assert (own - {e})[e := b2] == own[e := b2];
  }

  lemma HoldsAt(t: array<Elm?>, cs: seq<Chain>, own: map<Elm, nat>, b: nat, i: nat)
    requires Holds(t, cs, own) && b < |cs| && i < |cs[b]|
    ensures |cs| == t.Length && cs[b][i] in own && own[cs[b][i]] == b
  {
  }

  function Deref(t: array<Elm?>, p: Link): Elm?
    requires p.Slot? ==> p.b < t.Length
    reads t, if p.After? then {p.e} else {}
  {
    match p
    case Slot(b) => t[b]
    case After(e) => e.next
  }

  /** The cached hash of every entry, as a value. */
  ghost predicate Hashes(h: map<Elm, nat>)
    reads h.Keys`hash
  {
    forall e | e in h :: e.hash == h[e]
  }

  /** Every entry of the chain hashes to bucket b of a table of length len. */
  ghost predicate Placed(c: Chain, h: map<Elm, nat>, b: nat, len: nat)
    requires 0 < len
  {
    forall e | e in c :: e in h && h[e] % len == b
  }

  /** Buckets below b, and the new ones from oldLen on, hold only entries that belong there. */
  ghost predicate PlacedExcept(cs: seq<Chain>, h: map<Elm, nat>, b: nat, oldLen: nat, len: nat)
    requires 0 < len
  {
    forall c | 0 <= c < |cs| && (c < b || oldLen <= c) :: Placed(cs[c], h, c, len)
  }

  ghost predicate PlacedAll(cs: seq<Chain>, h: map<Elm, nat>) {
    |cs| == 0 || PlacedExcept(cs, h, |cs|, |cs|, |cs|)
  }

  lemma PlacedAfterMove(cs: seq<Chain>, h: map<Elm, nat>, b: nat, i: nat, b2: nat, oldLen: nat, len: nat)
    requires 0 < len && b < |cs| && b2 < |cs| && b != b2 && i < |cs[b]|
    requires cs[b][i] in h && h[cs[b][i]] % len == b2
    requires PlacedExcept(cs, h, b, oldLen, len) && b < oldLen
    ensures var cs' := Moved(cs, b, i, b2);
            && |cs'| == |cs| && |cs'[b]| == |cs[b]| - 1 && cs'[b][..i] == cs[b][..i]
            && PlacedExcept(cs', h, b, oldLen, len)
  {
  }

  lemma PlacedNext(c: Chain, h: map<Elm, nat>, b: nat, i: nat, len: nat)
    requires 0 < len && i < |c| && Placed(c[..i], h, b, len) && c[i] in h && h[c[i]] % len == b
    ensures Placed(c[..i + 1], h, b, len)
  {
  }

  lemma PlacedEnds(h: map<Elm, nat>, b: nat, c: Chain, len: nat)
    requires 0 < len
    ensures c[..0] == [] && c[..|c|] == c && Placed([], h, b, len)
  {
  }

  lemma PlacedDone(cs: seq<Chain>, h: map<Elm, nat>, b: nat, oldLen: nat, len: nat)
    requires 0 < len && b < |cs| && PlacedExcept(cs, h, b, oldLen, len) && Placed(cs[b], h, b, len)
    ensures PlacedExcept(cs, h, b + 1, oldLen, len)
  {
  }

  /** What following a link of a chain gives. */
  lemma EntryAt(t: array<Elm?>, cs: seq<Chain>, own: map<Elm, nat>, h: map<Elm, nat>, b: nat, i: nat)
    requires Holds(t, cs, own) && Hashes(h) && h.Keys == own.Keys
    ensures |cs| == t.Length
    ensures b < |cs| && i < |cs[b]| ==>
              cs[b][i] in own && own[cs[b][i]] == b && cs[b][i] in h && h[cs[b][i]] == cs[b][i].hash
    ensures b < |cs| && i <= |cs[b]| ==>
              Deref(t, if i == 0 then Slot(b) else After(cs[b][i - 1])) == if i < |cs[b]| then cs[b][i] else null
  {
  }

  /** Every entry of own is in the bucket that its hash names in a table of length len. */
  ghost predicate Targets(own: map<Elm, nat>, h: map<Elm, nat>, len: nat) {
    0 < len && forall e | e in own :: e in h && own[e] == h[e] % len
  }

  /** The entries whose hashes name bucket b of a table of length len. */
  ghost function InBucket(h: map<Elm, nat>, b: nat, len: nat): set<Elm>
    requires 0 < len
  {
    set e | e in h && h[e] % len == b
  }

  /** Every bucket holds exactly the entries whose hashes name it, each once. */
  ghost predicate Spread(cs: seq<Chain>, h: map<Elm, nat>) {
    forall b | 0 <= b < |cs| :: multiset(cs[b]) == multiset(InBucket(h, b, |cs|))
  }

  lemma TargetsSpread(cs: seq<Chain>, own: map<Elm, nat>, h: map<Elm, nat>)
    requires Owned(cs, own) && own.Keys == h.Keys && Targets(own, h, |cs|)
    ensures Spread(cs, h)
  {
    forall b | 0 <= b < |cs| ensures multiset(cs[b]) == multiset(InBucket(h, b, |cs|)) {
      forall e: Elm ensures multiset(cs[b])[e] == multiset(InBucket(h, b, |cs|))[e] {
        DistinctCount(cs[b], e);
        assert e in cs[b] <==> e in own && own[e] == b;
      }
    }
  }

  lemma HoldsSpread(t: array<Elm?>, cs: seq<Chain>, own: map<Elm, nat>, h: map<Elm, nat>)
    requires Holds(t, cs, own) && own.Keys == h.Keys && Targets(own, h, t.Length)
    ensures |cs| == t.Length && Spread(cs, h)
  {
    TargetsSpread(cs, own, h);
  }

  /** The two branches of HT_GROW agree: chains whose entries are where the hashes say have the
      same entries in each bucket, whatever order the branch that linked them has left. */
  lemma SameBuckets(cs: seq<Chain>, own: map<Elm, nat>, ncs: seq<Chain>, nown: map<Elm, nat>, h: map<Elm, nat>, b: nat)
    requires Owned(cs, own) && Owned(ncs, nown) && own.Keys == nown.Keys && b < |cs| == |ncs|
    requires Targets(own, h, |cs|) && Targets(nown, h, |ncs|)
    ensures multiset(cs[b]) == multiset(ncs[b])
  {
    forall e: Elm ensures multiset(cs[b])[e] == multiset(ncs[b])[e] {
      DistinctCount(cs[b], e);
      DistinctCount(ncs[b], e);
      assert e in cs[b] <==> e in own && own[e] == b;
      assert e in ncs[b] <==> e in nown && nown[e] == b;
    }
  }

  /** No order is implied: chains that agree so far may have two entries either way around. */
  lemma TwoOrders(e: Elm, f: Elm)
    requires e != f
    ensures var cs, ncs, own, h := [[e, f]], [[f, e]], map[e := 0, f := 0], map[e := 7, f := 7];
            Owned(cs, own) && Owned(ncs, own) && Targets(own, h, 1) && cs != ncs
  {
    assert [[e, f]][0] != [[f, e]][0];
    assert e in [[e, f]][0] && f in [[e, f]][0] && e in [[f, e]][0] && f in [[f, e]][0];
  }

  /** The inner loop of the realloc branch (ht.h:746-756): bucket b keeps the entries that
      belong to it and gives the others away. */
  method RehashBucket(t: array<Elm?>, b: nat, oldLen: nat,
                      ghost cs0: seq<Chain>, ghost own0: map<Elm, nat>, ghost h: map<Elm, nat>)
    returns (ghost cs: seq<Chain>, ghost own: map<Elm, nat>)
    requires b < oldLen <= t.Length
    requires Holds(t, cs0, own0) && Hashes(h) && h.Keys == own0.Keys
    requires PlacedExcept(cs0, h, b, oldLen, t.Length)
    modifies t, own0.Keys`next
    ensures Holds(t, cs, own) && own.Keys == own0.Keys && |cs| == t.Length
    ensures PlacedExcept(cs, h, b + 1, oldLen, t.Length)
  {
    hide *;
    cs, own := cs0, own0;
    ghost var i := 0;
    var pE := Slot(b);
    EntryAt(t, cs, own, h, b, i);
    var e := Deref(t, pE);
    PlacedEnds(h, b, cs[b], t.Length);
    while e != null
      invariant Holds(t, cs, own) && own.Keys == own0.Keys && |cs| == t.Length
      invariant PlacedExcept(cs, h, b, oldLen, t.Length)
      invariant 0 <= i <= |cs[b]| && Placed(cs[b][..i], h, b, t.Length)
      invariant pE == if i == 0 then Slot(b) else After(cs[b][i - 1])
      invariant e == if i < |cs[b]| then cs[b][i] else null
      decreases |cs[b]| - i
    {
      EntryAt(t, cs, own, h, b, i);
      var b2 := e.hash % t.Length;
      if b2 == b {
        PlacedNext(cs[b], h, b, i, t.Length);
        pE := After(e);
        i := i + 1;
      } else {
        PlacedAfterMove(cs, h, b, i, b2, oldLen, t.Length);
        MoveEntry(t, pE, e, b2, cs, own, b, i);
        own := own[e := b2];
        cs := Moved(cs, b, i, b2);
      }
      EntryAt(t, cs, own, h, b, i);
      e := Deref(t, pE);
    }
    PlacedEnds(h, b, cs[b], t.Length);
    PlacedDone(cs, h, b, oldLen, t.Length);
  }

  /** The realloc branch of HT_GROW (ht.h:745-757), run on the enlarged table. */
  method RehashInPlace(t: array<Elm?>, oldLen: nat, ghost cs0: seq<Chain>, ghost own0: map<Elm, nat>,
                       ghost h: map<Elm, nat>)
    returns (ghost cs: seq<Chain>, ghost own: map<Elm, nat>)
    requires oldLen <= t.Length && 0 < t.Length
    requires Holds(t, cs0, own0) && Hashes(h) && h.Keys == own0.Keys
    requires forall b | oldLen <= b < |cs0| :: cs0[b] == []
    modifies t, own0.Keys`next
    ensures Holds(t, cs, own) && own.Keys == own0.Keys && Targets(own, h, t.Length)
    ensures |cs| == t.Length && Spread(cs, h)
  {
    hide *;
    cs, own := cs0, own0;
    EntryAt(t, cs, own, h, 0, 0);
    PlacedInitially(cs, h, oldLen, t.Length);
    for b := 0 to oldLen
      invariant Holds(t, cs, own) && own.Keys == own0.Keys && |cs| == t.Length
      invariant PlacedExcept(cs, h, b, oldLen, t.Length)
    {
      cs, own := RehashBucket(t, b, oldLen, cs, own, h);
    }
    PlacedFinal(cs, h, oldLen);
    PlacedTargets(t, cs, own, h);
    HoldsSpread(t, cs, own, h);
  }

  lemma PlacedTargets(t: array<Elm?>, cs: seq<Chain>, own: map<Elm, nat>, h: map<Elm, nat>)
    requires Holds(t, cs, own) && PlacedAll(cs, h) && 0 < t.Length
    ensures Targets(own, h, t.Length)
  {
  }

  lemma PlacedInitially(cs: seq<Chain>, h: map<Elm, nat>, oldLen: nat, len: nat)
    requires 0 < len && forall b | oldLen <= b < |cs| :: cs[b] == []
    ensures PlacedExcept(cs, h, 0, oldLen, len)
  {
  }

  lemma PlacedFinal(cs: seq<Chain>, h: map<Elm, nat>, oldLen: nat)
    requires 0 < |cs| && PlacedExcept(cs, h, oldLen, oldLen, |cs|)
    ensures PlacedAll(cs, h)
  {
  }

  /** The part of the old table that the malloc branch has not moved yet: the rest of
      bucket b, starting at e, and all later buckets.  `done` are the entries it has moved. */
  ghost predicate Pending(t: array<Elm?>, cs: seq<Chain>, own: map<Elm, nat>, done: set<Elm>, b: nat, i: nat, e: Elm?)
    reads t, own.Keys
  {
    && Owned(cs, own) && |cs| == t.Length && b < |cs| && i <= |cs[b]|
    && LinkedFrom(e, cs[b], i)
    && (forall c | b < c < |cs| :: Linked(t[c], cs[c]))
    && (forall x | x in own :: x in done <==> own[x] < b || (own[x] == b && x in cs[b][..i]))
    && done <= own.Keys
  }

  lemma PendingHead(t: array<Elm?>, cs: seq<Chain>, own: map<Elm, nat>, done: set<Elm>, b: nat, i: nat, e: Elm?)
    requires Pending(t, cs, own, done, b, i, e)
    ensures |cs| == t.Length && b < |cs| && i <= |cs[b]| && e == if i < |cs[b]| then cs[b][i] else null
    ensures e != null ==> e in own && e !in done
    ensures e != null ==> Pending(t, cs, own, done + {e}, b, i + 1, e.next)
  {
    if e != null {
      assert cs[b][..i + 1] == cs[b][..i] + [e];
    }
  }

  /** One step of the malloc branch (ht.h:729-732): e goes to the front of bucket b2 of u. */
  method MoveToFresh(t: array<Elm?>, u: array<Elm?>, e: Elm, b2: nat, ghost cs: seq<Chain>, ghost own: map<Elm, nat>,
                     ghost ncs: seq<Chain>, ghost nown: map<Elm, nat>, ghost b: nat, ghost i: nat)
    returns (next: Elm?)
    requires t != u && Pending(t, cs, own, nown.Keys, b, i, e)
    requires Holds(u, ncs, nown) && b2 < |ncs|
    modifies u, e`next
    ensures Pending(t, cs, own, nown.Keys + {e}, b, i + 1, next)
    ensures Holds(u, ncs[b2 := [e] + ncs[b2]], nown[e := b2])
  {
    hide Holds, Owned;
    PendingHead(t, cs, own, nown.Keys, b, i, e);
    next := e.next;
    NowhereElse(cs, own, b, i);
    PushHolds(u, e, b2, ncs, nown);
    forall c | b < c < |cs| ensures Linked(t[c], cs[c]) {
      assert old(Linked(t[c], cs[c])) && e !in cs[c];
    }
  }

  lemma PendingStart(t: array<Elm?>, cs: seq<Chain>, own: map<Elm, nat>)
    requires Holds(t, cs, own) && 0 < t.Length
    ensures |cs| == t.Length && Pending(t, cs, own, {}, 0, 0, t[0])
  {
  }

  lemma PendingNextBucket(t: array<Elm?>, cs: seq<Chain>, own: map<Elm, nat>, done: set<Elm>, b: nat, i: nat)
    requires Pending(t, cs, own, done, b, i, null)
    ensures b + 1 < |cs| ==> Pending(t, cs, own, done, b + 1, 0, t[b + 1])
    ensures b + 1 == |cs| ==> done == own.Keys
  {
    assert i == |cs[b]| && cs[b][..i] == cs[b];
  }

  lemma TargetsPush(own: map<Elm, nat>, h: map<Elm, nat>, len: nat, e: Elm)
    requires Targets(own, h, len) && e in h
    ensures Targets(own[e := h[e] % len], h, len)
    ensures own[e := h[e] % len].Keys == own.Keys + {e}
  {
  }

  /** One bucket of the malloc branch (ht.h:727-734). */
  method FreshBucket(t: array<Elm?>, u: array<Elm?>, b: nat, ghost cs: seq<Chain>, ghost own: map<Elm, nat>,
                     ghost ncs0: seq<Chain>, ghost nown0: map<Elm, nat>, ghost h: map<Elm, nat>)
    returns (ghost ncs: seq<Chain>, ghost nown: map<Elm, nat>, ghost i: nat)
    requires t != u && b < t.Length && Pending(t, cs, own, nown0.Keys, b, 0, t[b])
    requires Holds(u, ncs0, nown0) && Targets(nown0, h, u.Length) && |ncs0| == u.Length
    requires own.Keys == h.Keys && Hashes(h)
    modifies u, own.Keys`next
    ensures Pending(t, cs, own, nown.Keys, b, i, null)
    ensures Holds(u, ncs, nown) && Targets(nown, h, u.Length) && |ncs| == u.Length
  {
    hide Holds, Pending, Owned, Hashes;
    ncs, nown, i := ncs0, nown0, 0;
    var e := t[b];
    PendingHead(t, cs, own, nown.Keys, b, i, e);
    while e != null
      invariant Pending(t, cs, own, nown.Keys, b, i, e)
      invariant |cs| == t.Length && e == if i < |cs[b]| then cs[b][i] else null
      invariant Holds(u, ncs, nown) && Targets(nown, h, u.Length) && |ncs| == u.Length
      invariant Hashes(h)
      decreases |cs[b]| - i
    {
      PendingHead(t, cs, own, nown.Keys, b, i, e);
      HashAt(h, e);
      var b2 := e.hash % u.Length;
      TargetsPush(nown, h, u.Length, e);
      var next := MoveToFresh(t, u, e, b2, cs, own, ncs, nown, b, i);
      ncs, nown, i := ncs[b2 := [e] + ncs[b2]], nown[e := b2], i + 1;
      e := next;
      PendingHead(t, cs, own, nown.Keys, b, i, e);
    }
  }

  lemma HashAt(h: map<Elm, nat>, e: Elm)
    requires Hashes(h) && e in h
    ensures e.hash == h[e]
  {
  }

  lemma EmptyHolds(u: array<Elm?>, cs: seq<Chain>, h: map<Elm, nat>)
    requires |cs| == u.Length && forall i | 0 <= i < u.Length :: u[i] == null && cs[i] == []
    ensures Holds(u, cs, map[]) && (0 < u.Length ==> Targets(map[], h, u.Length))
  {
  }

  /** The malloc branch of HT_GROW (ht.h:721-735). */
  method RehashFresh(t: array<Elm?>, u: array<Elm?>, ghost cs: seq<Chain>, ghost own: map<Elm, nat>,
                     ghost h: map<Elm, nat>)
    returns (ghost ncs: seq<Chain>, ghost nown: map<Elm, nat>)
    requires t != u && 0 < t.Length && 0 < u.Length && forall i | 0 <= i < u.Length :: u[i] == null
    requires Holds(t, cs, own) && Hashes(h) && h.Keys == own.Keys
    modifies u, own.Keys`next
    ensures Holds(u, ncs, nown) && nown.Keys == own.Keys && Targets(nown, h, u.Length)
    ensures |ncs| == u.Length && Spread(ncs, h)
  {
    hide *;
    ncs, nown := seq(u.Length, _ => []), map[];
    PendingStart(t, cs, own);
    EmptyHolds(u, ncs, h);
    assert nown.Keys == {};
    for b := 0 to t.Length
      invariant |cs| == t.Length && |ncs| == u.Length
      invariant if b < t.Length then Pending(t, cs, own, nown.Keys, b, 0, t[b]) else nown.Keys == own.Keys
      invariant Holds(u, ncs, nown) && Targets(nown, h, u.Length) && Hashes(h)
    {
      ghost var i;
      ncs, nown, i := FreshBucket(t, u, b, cs, own, ncs, nown, h);
      PendingNextBucket(t, cs, own, nown.Keys, b, i);
    }
    HoldsSpread(u, ncs, nown, h);
  }
}
