/** Iteration over the hash tables of src/common/ht.h: HT_START, HT_NEXT, HT_NEXT_RMV and
    HT_FOREACH_FN, in the order of the buckets and, inside a bucket, of its chain. */
module HashIteration {
  import opened HashChains
  import opened HashTable
  import opened Sequences
  import opened Wrappers

  /** The entries in iteration order. */
  ghost function Flat(cs: seq<Chain>): seq<Elm> {
    if |cs| == 0 then [] else Flat(cs[..|cs| - 1]) + cs[|cs| - 1]
  }

  /** Where position i of bucket b is in that order. */
  ghost function Rank(cs: seq<Chain>, b: nat, i: nat): nat
    requires b <= |cs|
  {
    |Flat(cs[..b])| + i
  }

  lemma FlatTo(cs: seq<Chain>, b: nat)
    requires b < |cs|
    ensures Flat(cs[..b + 1]) == Flat(cs[..b]) + cs[b]
  {
    assert cs[..b + 1][..b] == cs[..b];
  }

  lemma {:induction false} FlatSplit(cs: seq<Chain>, b: nat)
    requires b < |cs|
    ensures Flat(cs) == Flat(cs[..b]) + cs[b] + Flat(cs[b + 1..])
  {
    var n := |cs| - 1;
    if b == n {
      assert cs[b + 1..] == [];
    } else {
      FlatSplit(cs[..n], b);
      assert cs[..n][..b] == cs[..b] && cs[..n][b + 1..] == cs[b + 1..][..n - b - 1];
      assert cs[b + 1..][|cs[b + 1..]| - 1] == cs[n];
    }
  }

  lemma {:induction false} FlatEmpty(cs: seq<Chain>)
    requires forall b | 0 <= b < |cs| :: cs[b] == []
    ensures Flat(cs) == []
  {
    if |cs| > 0 {
      FlatEmpty(cs[..|cs| - 1]);
    }
  }

  /** Position i of bucket b is its rank in the order. */
  lemma AtRank(cs: seq<Chain>, b: nat, i: nat)
    requires b < |cs| && i < |cs[b]|
    ensures Rank(cs, b, i) < |Flat(cs)| && Flat(cs)[Rank(cs, b, i)] == cs[b][i]
  {
    FlatSplit(cs, b);
  }

  /** Taking out position i of bucket b takes out its rank from the order. */
  lemma FlatWithout(cs: seq<Chain>, b: nat, i: nat)
    requires b < |cs| && i < |cs[b]|
    ensures var cs' := cs[b := Without(cs[b], i)];
            && Rank(cs', b, i) == Rank(cs, b, i) < |Flat(cs)|
            && Flat(cs') == Without(Flat(cs), Rank(cs, b, i))
  {
    hide Without;
    var cs' := cs[b := Without(cs[b], i)];
    FlatSplit(cs, b);
    FlatSplit(cs', b);
    assert cs'[..b] == cs[..b] && cs'[b + 1..] == cs[b + 1..];
    WithoutMiddle(Flat(cs[..b]), cs[b], Flat(cs[b + 1..]), i);
  }

  lemma WithoutMiddle<T>(front: seq<T>, c: seq<T>, back: seq<T>, i: nat)
    requires i < |c|
    ensures |front| + i < |front + c + back|
    ensures Without(front + c + back, |front| + i) == front + Without(c, i) + back
  {
  }

  /** Skipping buckets that are empty does not change the rank. */
  lemma RankSkips(cs: seq<Chain>, b: nat, b2: nat)
    requires b <= b2 <= |cs| && forall c | b <= c < b2 :: cs[c] == []
    ensures |Flat(cs[..b2])| == |Flat(cs[..b])|
    decreases b2
  {
    if b < b2 {
      FlatTo(cs, b2 - 1);
      RankSkips(cs, b, b2 - 1);
    }
  }

  /** Every stored entry comes exactly once in the order, so that there are as many as the
      table has entries. */
  lemma {:induction false} FlatOwned(cs: seq<Chain>, own: map<Elm, nat>)
    requires Owned(cs, own)
    ensures |Flat(cs)| == |own.Keys|
    ensures forall e :: e in Flat(cs) <==> e in own
    decreases |cs|
  {
    if |cs| == 0 {
      assert own.Keys == {};
    } else {
      hide Owned, Distinct;
      var n := |cs| - 1;
      var low := map e | e in own && own[e] < n :: own[e];
      LastBucket(cs, own);
      FlatOwned(cs[..n], low);
      DistinctSize(cs[n]);
      JoinSizes(own.Keys, low.Keys, cs[n]);
      assert Flat(cs) == Flat(cs[..n]) + cs[n];
    }
  }

  lemma JoinSizes(all: set<Elm>, low: set<Elm>, c: Chain)
    requires forall e :: e in all <==> e in low || e in c
    requires forall e | e in low :: e !in c
    ensures |all| == |low| + |set e | e in c|
  {
    var last := set e | e in c;
    assert all == low + last;
  }

  lemma LastBucket(cs: seq<Chain>, own: map<Elm, nat>)
    requires Owned(cs, own) && |cs| > 0
    ensures Owned(cs[..|cs| - 1], map e | e in own && own[e] < |cs| - 1 :: own[e])
    ensures forall e :: e in own && own[e] == |cs| - 1 <==> e in cs[|cs| - 1]
    ensures Distinct(cs[|cs| - 1]) && forall e | e in own :: own[e] <= |cs| - 1
  {
  }

  lemma {:induction false} DistinctSize<T>(c: seq<T>)
    requires Distinct(c)
    ensures |set e | e in c| == |c|
  {
    if |c| > 0 {
      var n := |c| - 1;
      DistinctSize(c[..n]);
      assert (set e | e in c) == (set e | e in c[..n]) + {c[n]};
    }
  }

  /** The iteration pointer p stands at position k of the order: entry i of bucket b, or the
      end when it is null. */
  ghost predicate Here(cs: seq<Chain>, p: Option<Link>, b: nat, i: nat, k: nat) {
    match p
    case None => k == |Flat(cs)|
    case Some(q) =>
      && b < |cs| && i < |cs[b]| && k == Rank(cs, b, i)
      && q == if i == 0 then Slot(b) else After(cs[b][i - 1])
  }

  /** The scan of HT_START, HT_NEXT and HT_NEXT_RMV for a bucket that is not empty. */
  method FirstFrom(h: Table, b0: nat) returns (p: Option<Link>, ghost b: nat)
    requires h.Linkage() && b0 <= h.tableLength
    ensures b0 <= |h.cs| && Here(h.cs, p, b, 0, |Flat(h.cs[..b0])|)
  {
    hide *;
    h.Parts();
    var c := b0;
    while c < h.tableLength
      invariant b0 <= c <= h.tableLength
      invariant forall d | b0 <= d < c :: d < |h.cs| && h.cs[d] == []
    {
      h.ChainFacts(c, 0);
      if Deref(h.table, Slot(c)) != null {
        p, b := Some(Slot(c)), c;
        HereAtBucket(h.cs, b0, c);
        return;
      }
      c := c + 1;
    }
    p, b := None, c;
    NoBuckets(h);
    HereAtEnd(h.cs, b0);
  }

  lemma NoBuckets(h: Table)
    requires h.Linkage()
    ensures |h.cs| == h.tableLength
  {
  }

  lemma HereAtBucket(cs: seq<Chain>, b0: nat, b: nat)
    requires b0 <= b < |cs| && cs[b] != [] && forall d | b0 <= d < b :: cs[d] == []
    ensures Here(cs, Some(Slot(b)), b, 0, |Flat(cs[..b0])|)
  {
    RankSkips(cs, b0, b);
  }

  lemma HereAtEnd(cs: seq<Chain>, b0: nat)
    requires b0 <= |cs| && forall d | b0 <= d < |cs| :: cs[d] == []
    ensures Here(cs, None, 0, 0, |Flat(cs[..b0])|)
    ensures forall b :: Here(cs, None, b, 0, |Flat(cs[..b0])|)
  {
    RankSkips(cs, b0, |cs|);
    assert cs[..|cs|] == cs;
  }

  /** HT_START. */
  method Start(h: Table) returns (p: Option<Link>, ghost b: nat)
    requires h.Linkage()
    ensures Here(h.cs, p, b, 0, 0)
  {
    assert |Flat(h.cs[..0])| == 0;
    hide *;
    p, b := FirstFrom(h, 0);
  }

  /** HT_NEXT. */
  method Next(h: Table, q: Link, ghost b: nat, ghost i: nat, ghost k: nat)
    returns (p: Option<Link>, ghost b': nat, ghost i': nat)
    requires h.Linkage() && Here(h.cs, Some(q), b, i, k)
    ensures Here(h.cs, p, b', i', k + 1)
  {
    hide *;
    HereFacts(h, q, b, i, k);
    var e := Deref(h.table, q);
    if e.next != null {
      NextInChain(h.cs, q, b, i, k);
      return Some(After(e)), b, i + 1;
    }
    NextBucketRank(h.cs, q, b, i, k);
    p, b' := FirstFrom(h, e.hash % h.tableLength + 1);
    i' := 0;
  }

  lemma HereFacts(h: Table, q: Link, b: nat, i: nat, k: nat)
    requires h.Linkage() && Here(h.cs, Some(q), b, i, k)
    ensures h.table != null && b < h.tableLength == h.table.Length == |h.cs| && i < |h.cs[b]|
    ensures q == if i == 0 then Slot(b) else After(h.cs[b][i - 1])
    ensures k == Rank(h.cs, b, i) < |Flat(h.cs)| && Flat(h.cs)[k] == h.cs[b][i] == Deref(h.table, q)
    ensures h.cs[b][i] in h.own && h.own[h.cs[b][i]] == b && h.cs[b][i].hash % h.tableLength == b
    ensures h.cs[b][i].next == if i + 1 < |h.cs[b]| then h.cs[b][i + 1] else null
  {
    hide h.Linkage;
    h.Parts();
    h.ChainFacts(b, i);
    h.ChainFacts(b, i + 1);
    AtRank(h.cs, b, i);
  }

  lemma NextInChain(cs: seq<Chain>, q: Link, b: nat, i: nat, k: nat)
    requires Here(cs, Some(q), b, i, k) && i + 1 < |cs[b]|
    ensures Here(cs, Some(After(cs[b][i])), b, i + 1, k + 1)
  {
  }

  lemma NextBucketRank(cs: seq<Chain>, q: Link, b: nat, i: nat, k: nat)
    requires Here(cs, Some(q), b, i, k)
    ensures i + 1 == |cs[b]| ==> |Flat(cs[..b + 1])| == k + 1
  {
    FlatTo(cs, b);
  }

  /** HT_NEXT_RMV. */
  method NextRmv(h: Table, q: Link, ghost b: nat, ghost i: nat, ghost k: nat)
    returns (p: Option<Link>, ghost b': nat, ghost i': nat)
    requires h.Linkage() && Here(h.cs, Some(q), b, i, k)
    modifies h.table, h.own.Keys`next, h`cs, h`own, h`nEntries
    ensures h.Linkage() && h.nEntries == old(h.nEntries) - 1
    ensures k < |old(Flat(h.cs))| && Flat(h.cs) == Without(old(Flat(h.cs)), k)
    ensures h.own == old(h.own) - {old(Flat(h.cs))[k]}
    ensures Here(h.cs, p, b', i', k)
    ensures old(h.Good()) ==> h.Good()
  {
    hide *;
    HereFacts(h, q, b, i, k);
    GoodIs(h);
    var e := Deref(h.table, q);
    ghost var cs0 := h.cs;
    RemoveHere(cs0, q, b, i, k);
    WithoutOne(Flat(cs0), k);
    h.UnlinkAt(q, e, b, i);
    h.nEntries := h.nEntries - 1;
    GoodIs(h);
    h.ChainFacts(b, i);
    if Deref(h.table, q) != null {
      return Some(q), b, i;
    }
    p, b' := FirstFrom(h, e.hash % h.tableLength + 1);
    i' := 0;
  }

  lemma WithoutOne<T>(s: seq<T>, k: nat)
    requires k < |s|
    ensures |Without(s, k)| == |s| - 1
  {
  }

  /** A table is in good order when it counts what the iteration visits. */
  lemma GoodIs(h: Table)
    requires h.Linkage()
    ensures h.Good() <==> h.nEntries == |Flat(h.cs)| && h.nEntries <= h.loadLimit
  {
    hide Flat, Holds, Entries, Lawful;
    NoBuckets(h);
    if h.table == null {
      FlatEmpty(h.cs);
    } else {
      ChainsPass(h);
      FlatOwned(h.cs, h.own);
    }
  }

  /** The order after the entry that q points at is gone; q now stands at the entry behind it,
      if there is one in the bucket. */
  lemma RemoveHere(cs: seq<Chain>, q: Link, b: nat, i: nat, k: nat)
    requires Here(cs, Some(q), b, i, k)
    ensures var cs' := cs[b := Without(cs[b], i)];
            && |cs'| == |cs| && |cs'[b]| == |cs[b]| - 1
            && (i < |cs'[b]| ==> Here(cs', Some(q), b, i, k))
            && (i == |cs'[b]| ==> |Flat(cs'[..b + 1])| == k)
            && (i > 0 ==> cs'[b][i - 1] == cs[b][i - 1])
            && k < |Flat(cs)| && Flat(cs') == Without(Flat(cs), k)
  {
    FlatWithout(cs, b, i);
    FlatTo(cs[b := Without(cs[b], i)], b);
    assert cs[b := Without(cs[b], i)][..b] == cs[..b];
  }

  /** What decides about an entry: it may depend on all the entries seen before. */
  type Judge = (seq<Elm>, Elm) -> bool

  /** What looks at the entries, and keeps a log of them: the function given to HT_FOREACH_FN with
      its data, or the body of a loop over HT_NEXT and HT_NEXT_RMV. */
  class Visitor {
    const judge: Judge
    const junk: Elm?
    var log: seq<Elm>

    constructor (judge: Judge, junk: Elm?)
      ensures this.judge == judge && log == []
    {
      this.judge, this.junk, log := judge, junk, [];
    }

    /** Is the entry to go? */
    method Look(e: Elm) returns (remove: bool)
      modifies `log
      ensures log == old(log) + [e] && remove == judge(old(log), e)
    {
      remove := judge(log, e);
      log := log + [e];
    }

    /** The entry is freed, after which its link may hold anything. */
    method Release(e: Elm)
      modifies e`next
    {
      e.next := junk;
    }

    /** The function for HT_FOREACH_FN: an entry that is to go is freed before it returns. */
    method Call(e: Elm) returns (remove: bool)
      modifies `log, e`next
      ensures log == old(log) + [e] && remove == judge(old(log), e)
      ensures !remove ==> e.next == old(e.next)
    {
      remove := Look(e);
      if remove {
        Release(e);
      }
    }
  }

  /** What stays of a list when those that are judged to go are taken out, with `log` the entries
      seen before. */
  ghost function Kept(s: seq<Elm>, judge: Judge, log: seq<Elm>): seq<Elm> {
    if |s| == 0 then []
    else
      var n := |s| - 1;
      Kept(s[..n], judge, log) + if judge(log + s[..n], s[n]) then [] else [s[n]]
  }

  /** The pass over `all` has reached its position n: what it has not reached is untouched and of
      the rest only the kept entries are left. */
  ghost predicate Sweeping(cs: seq<Chain>, all: seq<Elm>, n: nat, judge: Judge, log: seq<Elm>, p: Option<Link>,
                           b: nat, i: nat) {
    && n <= |all| && Flat(cs) == Kept(all[..n], judge, log) + all[n..]
    && Here(cs, p, b, i, |Kept(all[..n], judge, log)|)
  }

  /** The loop of every caller of HT_NEXT_RMV, such as client_history_clear in geoip.c: each
      stored entry is visited once, in order, and exactly those judged to go are taken out. */
  method Sweep(h: Table, v: Visitor)
    requires h.Linkage()
    modifies h.table, h.own.Keys`next, h`cs, h`own, h`nEntries, v`log
    ensures h.Linkage()
    ensures v.log == old(v.log) + old(Flat(h.cs))
    ensures Flat(h.cs) == Kept(old(Flat(h.cs)), v.judge, old(v.log))
    ensures h.nEntries - |Flat(h.cs)| == old(h.nEntries - |Flat(h.cs)|)
    ensures old(h.Good()) ==> h.Good()
  {
    hide *;
    GoodIs(h);
    KeptMembers(Flat(h.cs), v.judge, v.log);
    ghost var log, all, off := v.log, Flat(h.cs), h.nEntries - |Flat(h.cs)|;
    ghost var n: nat, b: nat, i: nat := 0, 0, 0;
    var p;
    p, b := Start(h);
    SweepStarts(h.cs, v.judge, log, p, b);
    while p.Some?
      invariant h.Linkage() && h.table == old(h.table) && h.own.Keys <= old(h.own.Keys)
      invariant n <= |all| && Sweeping(h.cs, all, n, v.judge, log, p, b, i)
      invariant v.log == log + all[..n]
      invariant h.nEntries - |Flat(h.cs)| == off
      decreases |all| - n
    {
      p, b, i := SweepStep(h, v, p.value, all, n, log, b, i);
      n := n + 1;
    }
    SweepEnds(h.cs, all, n, v.judge, log, b, i);
    GoodIs(h);
  }

  method SweepStep(h: Table, v: Visitor, q: Link, ghost all: seq<Elm>, ghost n: nat, ghost log: seq<Elm>,
                   ghost b: nat, ghost i: nat)
    returns (p: Option<Link>, ghost b': nat, ghost i': nat)
    requires h.Linkage() && n <= |all| && Sweeping(h.cs, all, n, v.judge, log, Some(q), b, i) && v.log == log + all[..n]
    modifies h.table, h.own.Keys`next, h`cs, h`own, h`nEntries, v`log
    ensures h.Linkage() && h.own.Keys <= old(h.own.Keys)
    ensures h.nEntries - |Flat(h.cs)| == old(h.nEntries - |Flat(h.cs)|)
    ensures n < |all| && Sweeping(h.cs, all, n + 1, v.judge, log, p, b', i') && v.log == log + all[..n + 1]
  {
    hide h.Linkage, Here, Flat, Kept, Without;
    ghost var k := |Kept(all[..n], v.judge, log)|;
    HereFacts(h, q, b, i, k);
    var e := Deref(h.table, q);
    KeptMore(all, n, v.judge, log);
    assert e == all[n];
    var remove := LookFrom(h, v, e);
    if remove {
      p, b', i' := NextRmv(h, q, b, i, k);
      ReleaseFrom(h, v, e);
    } else {
      p, b', i' := Next(h, q, b, i, k);
    }
  }

  method LookFrom(h: Table, v: Visitor, e: Elm) returns (remove: bool)
    requires h.Linkage()
    modifies v`log
    ensures h.Linkage() && v.log == old(v.log) + [e] && remove == v.judge(old(v.log), e)
  {
    hide Holds, Entries, Lawful;
    remove := v.Look(e);
  }

  /** An entry that has left the table is freed. */
  method ReleaseFrom(h: Table, v: Visitor, e: Elm)
    requires h.Linkage() && e !in h.own
    modifies e`next
    ensures h.Linkage()
  {
    hide Entries, Lawful;
    v.Release(e);
  }

  lemma SweepStarts(cs: seq<Chain>, judge: Judge, log: seq<Elm>, p: Option<Link>, b: nat)
    requires Here(cs, p, b, 0, 0)
    ensures Sweeping(cs, Flat(cs), 0, judge, log, p, b, 0)
  {
  }

  lemma SweepEnds(cs: seq<Chain>, all: seq<Elm>, n: nat, judge: Judge, log: seq<Elm>, b: nat, i: nat)
    requires Sweeping(cs, all, n, judge, log, None, b, i)
    ensures n == |all| && all[..n] == all && Flat(cs) == Kept(all, judge, log)
  {
  }

  lemma KeptMore(all: seq<Elm>, n: nat, judge: Judge, log: seq<Elm>)
    requires n < |all|
    ensures var s := Kept(all[..n], judge, log) + all[n..];
            var k := |Kept(all[..n], judge, log)|;
            && all[..n] + [all[n]] == all[..n + 1] && log + all[..n] + [all[n]] == log + all[..n + 1]
            && k < |s| && s[k] == all[n]
            && (if judge(log + all[..n], all[n])
                then Without(s, k) == Kept(all[..n + 1], judge, log) + all[n + 1..]
                  && |Kept(all[..n + 1], judge, log)| == k
                else s == Kept(all[..n + 1], judge, log) + all[n + 1..] && |Kept(all[..n + 1], judge, log)| == k + 1)
  {
    assert all[..n + 1][..n] == all[..n];
  }

  // ---------------------------------------------------------------------------------------------
  // HT_FOREACH_FN.

  /** ht.h:624-628: the link is read before the function is called, because the function may free
      the entry. */
  method CallOn(v: Visitor, t: array<Elm?>, p: Link, e: Elm, ghost c: Chain, ghost b: nat, ghost i: nat)
    returns (remove: bool)
    requires b < t.Length && Linked(t[b], c) && Distinct(c) && i < |c| && c[i] == e
    requires p == if i == 0 then Slot(b) else After(c[i - 1])
    modifies t, v`log, e`next, (set k | k == i - 1 && 0 <= k :: c[k])`next
    ensures v.log == old(v.log) + [e] && remove == v.judge(old(v.log), e)
    ensures Linked(t[b], if remove then Without(c, i) else c)
    ensures forall k | 0 <= k < t.Length && k != b :: t[k] == old(t[k])
  {
    var next := e.next;
    remove := v.Call(e);
    if remove {
      Bypass(t, p, next, c, b, i);
    }
  }

  /** Position i of the chain, whose link is no longer worth anything, is cut out. */
  method Bypass(t: array<Elm?>, p: Link, next: Elm?, ghost c: Chain, ghost b: nat, ghost i: nat)
    requires b < t.Length && Distinct(c) && i < |c| && t[b] == EntryOrNull(c, 0) && next == EntryOrNull(c, i + 1)
    requires forall k | 0 <= k < |c| && k != i :: c[k].next == EntryOrNull(c, k + 1)
    requires p == if i == 0 then Slot(b) else After(c[i - 1])
    modifies t, (set k | k == i - 1 && 0 <= k :: c[k])`next
    ensures Linked(t[b], Without(c, i))
    ensures forall k | 0 <= k < t.Length && k != b :: t[k] == old(t[k])
  {
    match p {
      case Slot(s) => t[s] := next;
      case After(f) => f.next := next;
    }
    ghost var c' := Without(c, i);
    forall k | 0 <= k < |c'| ensures c'[k].next == EntryOrNull(c', k + 1) {
      assert c'[k] == c[if k < i then k else k + 1];
    }
  }

  method CallHolds(v: Visitor, t: array<Elm?>, p: Link, e: Elm, ghost cs: seq<Chain>, ghost own: map<Elm, nat>,
                   ghost b: nat, ghost i: nat)
    returns (remove: bool)
    requires Holds(t, cs, own) && b < |cs| && i < |cs[b]| && cs[b][i] == e
    requires p == if i == 0 then Slot(b) else After(cs[b][i - 1])
    modifies t, v`log, own.Keys`next
    ensures v.log == old(v.log) + [e] && remove == v.judge(old(v.log), e)
    ensures if remove then Holds(t, cs[b := Without(cs[b], i)], own - {e}) else Holds(t, cs, own)
  {
    hide Linked, Without, Distinct;
    OwnedWithout(cs, own, b, i);
    NowhereElse(cs, own, b, i);
    remove := CallOn(v, t, p, e, cs[b], b, i);
    forall c | 0 <= c < |cs| && c != b ensures Linked(t[c], cs[c]) {
      assert old(Linked(t[c], cs[c]));
    }
    assert (own - {e}).Keys == own.Keys - {e};
  }

  /** The body of the loop of HT_FOREACH_FN. */
  method CallAt(h: Table, v: Visitor, p: Link, e: Elm, ghost b: nat, ghost i: nat) returns (remove: bool)
    requires h.Linkage() && h.table != null && b < h.tableLength && b < |h.cs| && i < |h.cs[b]| && e == h.cs[b][i]
    requires p == if i == 0 then Slot(b) else After(h.cs[b][i - 1])
    modifies h.table, h.own.Keys`next, h`cs, h`own, h`nEntries, v`log
    ensures h.Linkage() && v.log == old(v.log) + [e] && remove == v.judge(old(v.log), e)
    ensures h.own == (if remove then old(h.own) - {e} else old(h.own))
    ensures h.cs == if remove then old(h.cs)[b := Without(old(h.cs)[b], i)] else old(h.cs)
    ensures h.nEntries == old(h.nEntries) - if remove then 1 else 0
  {
    hide *;
    h.Parts();
    EntriesRemove(h.own, h.hashfn, h.eqfn, h.tableLength, e);
    remove := CallHolds(v, h.table, p, e, h.cs, h.own, b, i);
    if remove {
      h.nEntries := h.nEntries - 1;
      h.Relink(h.cs[b := Without(h.cs[b], i)], h.own - {e});
    } else {
      h.Relink(h.cs, h.own);
    }
  }

  /** HT_FOREACH_FN has reached position i of bucket b. */
  ghost predicate Passing(cs: seq<Chain>, all: seq<Elm>, n: nat, judge: Judge, log: seq<Elm>, b: nat, i: nat) {
    && n <= |all| && Flat(cs) == Kept(all[..n], judge, log) + all[n..]
    && b <= |cs| && (b < |cs| ==> i <= |cs[b]|) && Rank(cs, b, i) == |Kept(all[..n], judge, log)|
  }

  /** HT_FOREACH_FN: the function is called once on each element, in order, and exactly those for
      which it says so leave the table. */
  method ForeachFn(h: Table, v: Visitor)
    requires h.Linkage()
    modifies h.table, h.own.Keys`next, h`cs, h`own, h`nEntries, v`log
    ensures h.Linkage()
    ensures v.log == old(v.log) + old(Flat(h.cs))
    ensures Flat(h.cs) == Kept(old(Flat(h.cs)), v.judge, old(v.log))
    ensures h.nEntries - |Flat(h.cs)| == old(h.nEntries - |Flat(h.cs)|)
    ensures old(h.Good()) ==> h.Good()
  {
    hide *;
    GoodIs(h);
    KeptMembers(Flat(h.cs), v.judge, v.log);
    ghost var log, all, off := v.log, Flat(h.cs), h.nEntries - |Flat(h.cs)|;
    ghost var n: nat := 0;
    NoBuckets(h);
    h.Parts();
    PassingStarts(h.cs, v.judge, log);
    if h.table == null {
      PassingEnds(h.cs, all, n, v.judge, log);
      GoodIs(h);
      return;
    }
    for idx := 0 to h.tableLength
      invariant h.Linkage() && h.table == old(h.table) && h.own.Keys <= old(h.own.Keys)
      invariant |h.cs| == h.tableLength && n <= |all| && Passing(h.cs, all, n, v.judge, log, idx, 0)
      invariant v.log == log + all[..n]
      invariant h.nEntries - |Flat(h.cs)| == off
    {
      n := ForeachBucket(h, v, idx, all, n, log);
    }
    PassingEnds(h.cs, all, n, v.judge, log);
    GoodIs(h);
  }

  /** ht.h:622-632. */
  method ForeachBucket(h: Table, v: Visitor, b: nat, ghost all: seq<Elm>, ghost n0: nat, ghost log: seq<Elm>)
    returns (ghost n: nat)
    requires h.Linkage() && h.table != null && b < h.tableLength == |h.cs|
    requires n0 <= |all| && Passing(h.cs, all, n0, v.judge, log, b, 0) && v.log == log + all[..n0]
    modifies h.table, h.own.Keys`next, h`cs, h`own, h`nEntries, v`log
    ensures h.Linkage() && |h.cs| == h.tableLength && h.own.Keys <= old(h.own.Keys)
    ensures h.nEntries - |Flat(h.cs)| == old(h.nEntries - |Flat(h.cs)|)
    ensures n <= |all| && Passing(h.cs, all, n, v.judge, log, b + 1, 0) && v.log == log + all[..n]
  {
    hide *;
    n := n0;
    ghost var off := h.nEntries - |Flat(h.cs)|;
    var p := Slot(b);
    ghost var i: nat := 0;
    h.ChainFacts(b, i);
    while Deref(h.table, p) != null
      invariant h.Linkage() && |h.cs| == h.tableLength && h.own.Keys <= old(h.own.Keys)
      invariant i <= |h.cs[b]| && p == if i == 0 then Slot(b) else After(h.cs[b][i - 1])
      invariant Deref(h.table, p) == if i < |h.cs[b]| then h.cs[b][i] else null
      invariant n <= |all| && Passing(h.cs, all, n, v.judge, log, b, i) && v.log == log + all[..n]
      invariant h.nEntries - |Flat(h.cs)| == off
      decreases |all| - n
    {
      var e := Deref(h.table, p);
      PassingNext(h.cs, all, n, v.judge, log, b, i);
      RemoveRank(h.cs, b, i);
      var remove := CallAt(h, v, p, e, b, i);
      n := n + 1;
      if !remove {
        p, i := After(e), i + 1;
      }
      h.ChainFacts(b, i);
    }
    PassingBucketEnd(h.cs, all, n, v.judge, log, b, i);
  }

  lemma RemoveRank(cs: seq<Chain>, b: nat, i: nat)
    requires b < |cs| && i < |cs[b]|
    ensures |Flat(cs[b := Without(cs[b], i)])| == |Flat(cs)| - 1
    ensures var cs' := cs[b := Without(cs[b], i)];
            |cs'| == |cs| && i <= |cs'[b]| && (i > 0 ==> cs'[b][i - 1] == cs[b][i - 1])
  {
    FlatWithout(cs, b, i);
  }

  lemma PassingStarts(cs: seq<Chain>, judge: Judge, log: seq<Elm>)
    ensures Passing(cs, Flat(cs), 0, judge, log, 0, 0)
  {
  }

  lemma PassingNext(cs: seq<Chain>, all: seq<Elm>, n: nat, judge: Judge, log: seq<Elm>, b: nat, i: nat)
    requires n <= |all| && Passing(cs, all, n, judge, log, b, i) && b < |cs| && i < |cs[b]|
    ensures n < |all| && all[n] == cs[b][i] && log + all[..n] + [all[n]] == log + all[..n + 1]
    ensures if judge(log + all[..n], all[n]) then Passing(cs[b := Without(cs[b], i)], all, n + 1, judge, log, b, i)
            else Passing(cs, all, n + 1, judge, log, b, i + 1)
  {
    AtRank(cs, b, i);
    FlatWithout(cs, b, i);
    KeptMore(all, n, judge, log);
  }

  lemma PassingBucketEnd(cs: seq<Chain>, all: seq<Elm>, n: nat, judge: Judge, log: seq<Elm>, b: nat, i: nat)
    requires Passing(cs, all, n, judge, log, b, i) && b < |cs| && i == |cs[b]|
    ensures Passing(cs, all, n, judge, log, b + 1, 0)
  {
    FlatTo(cs, b);
  }

  lemma PassingEnds(cs: seq<Chain>, all: seq<Elm>, n: nat, judge: Judge, log: seq<Elm>)
    requires Passing(cs, all, n, judge, log, |cs|, 0)
    ensures n == |all| && all[..n] == all && Flat(cs) == Kept(all, judge, log)
  {
    assert cs[..|cs|] == cs;
  }

  /** The entries that stay are exactly those that were not judged to go, in the order of the
      whole: position i of the list stays if it is kept at its turn. */
  lemma {:induction false} KeptMembers(s: seq<Elm>, judge: Judge, log: seq<Elm>)
    ensures forall e :: e in Kept(s, judge, log) <==> exists i :: 0 <= i < |s| && s[i] == e && !judge(log + s[..i], e)
    ensures |Kept(s, judge, log)| <= |s|
  {
    if |s| > 0 {
      var n := |s| - 1;
      KeptMembers(s[..n], judge, log);
      assert forall i | 0 <= i < n :: s[..n][..i] == s[..i];
    }
  }

  /** The chains of h end, so that they can be walked at all. */
  ghost predicate Walkable(h: Table)
    reads h, h.table, h.own.Keys
  {
    && h.primeIdx <= LAST
    && (h.table != null ==> h.tableLength == h.table.Length && LinkedAll(h.table, h.cs, h.own.Keys))
  }

  /** The size fields pass the checks of HT_REP_IS_BAD_. */
  predicate FieldsGood(h: Table)
    reads h
    requires h.primeIdx <= LAST
  {
    if h.tableLength == 0 then h.table == null && h.nEntries == 0 && h.loadLimit == 0 && h.primeIdx == -1
    else h.table != null && 0 <= h.primeIdx && 0 < h.loadLimit && h.nEntries <= h.loadLimit
         && h.tableLength == PRIMES[h.primeIdx] && h.loadLimit == LoadLimit(h.tableLength)
  }

  /** Every entry of the chain has the right cached hash and is in the right bucket. */
  ghost predicate ChainGood(c: Chain, hashfn: Key -> nat, b: nat, len: nat)
    requires 0 < len
    reads c
  {
    forall i | 0 <= i < |c| :: c[i].hash == hashfn(c[i].key) && c[i].hash % len == b
  }

  /** The fields agree, the entries are cached and placed right, and the count is the number of
      entries. */
  ghost predicate CheckPasses(h: Table)
    requires Walkable(h)
    reads h, h.table, h.own.Keys
  {
    && FieldsGood(h)
    && (0 < h.tableLength ==>
          && |h.cs| == h.tableLength && h.nEntries == |Flat(h.cs)|
          && forall b | 0 <= b < |h.cs| :: ChainGood(h.cs[b], h.hashfn, b, h.tableLength))
  }

  /** HT_REP_IS_BAD_: zero exactly when there is nothing to find. */
  method RepIsBad(h: Table) returns (r: nat)
    requires Walkable(h)
    ensures r == 0 <==> CheckPasses(h)
  {
    if h.tableLength == 0 {
      return if h.table == null && h.nEntries == 0 && h.loadLimit == 0 && h.primeIdx == -1 then 0 else 1;
    }
    if h.table == null || h.primeIdx < 0 || h.loadLimit == 0 {
      return 2;
    }
    if h.nEntries > h.loadLimit {
      return 3;
    }
    if h.tableLength != PRIMES[h.primeIdx] {
      return 4;
    }
    if h.loadLimit != LoadLimit(h.tableLength) {
      return 5;
    }
    r := WalkEntries(h);
  }

  /** ht.h:798-808. */
  method WalkEntries(h: Table) returns (r: nat)
    requires Walkable(h) && h.table != null && 0 < h.tableLength
    ensures r == 0 <==>
            && |h.cs| == h.tableLength && h.nEntries == |Flat(h.cs)|
            && forall b | 0 <= b < |h.cs| :: ChainGood(h.cs[b], h.hashfn, b, h.tableLength)
  {
    hide Flat, ChainGood, Linked;
    var n := 0;
    NoneYet(h.cs);
    for i := 0 to h.tableLength
      invariant n == |Flat(h.cs[..i])|
      invariant forall b | 0 <= b < i :: ChainGood(h.cs[b], h.hashfn, b, h.tableLength)
    {
      var good, count := WalkBucket(h.table[i], h.hashfn, i, h.tableLength, h.cs[i]);
      if good != 0 {
        return good;
      }
      n := n + count;
      FlatTo(h.cs, i);
    }
    assert h.cs[..h.tableLength] == h.cs;
    r := if n != h.nEntries then 6 else 0;
  }

  method WalkBucket(head: Elm?, hashfn: Key -> nat, i: nat, len: nat, ghost c: Chain) returns (bad: nat, count: nat)
    requires Linked(head, c) && 0 < len
    ensures bad == 0 <==> ChainGood(c, hashfn, i, len)
    ensures bad == 0 ==> count == |c|
  {
    var elm := head;
    count := 0;
    while elm != null
      invariant LinkedFrom(elm, c, count) && count <= |c|
      invariant forall j | 0 <= j < count :: c[j].hash == hashfn(c[j].key) && c[j].hash % len == i
      decreases |c| - count
    {
      if elm.hash != hashfn(elm.key) {
        return 1000 + i, count;
      }
      if elm.hash % len != i {
        return 10000 + i, count;
      }
      count, elm := count + 1, elm.next;
    }
    bad := 0;
  }

  lemma NoneYet(cs: seq<Chain>)
    ensures |Flat(cs[..0])| == 0
  {
  }

  /** A table kept by the operations passes the check just when it is in good order: its count is
      right and it is not loaded beyond its limit. */
  lemma GoodPasses(h: Table)
    requires h.Linkage()
    ensures Walkable(h) && (CheckPasses(h) <==> h.Good())
  {
    hide Flat, FieldsGood, ChainGood, Entries, Holds;
    h.Parts();
    FieldsPass(h);
    if h.table != null {
      FlatOwned(h.cs, h.own);
      ChainsPass(h);
    }
  }

  lemma FieldsPass(h: Table)
    requires h.Linkage()
    ensures Walkable(h)
    ensures h.table != null ==> (FieldsGood(h) <==> h.nEntries <= h.loadLimit)
    ensures h.table == null ==>
              h.tableLength == 0 && h.own == map[] && (FieldsGood(h) <==> h.nEntries == 0) && h.loadLimit == 0
  {
  }

  lemma ChainsPass(h: Table)
    requires h.Linkage() && h.table != null
    ensures Owned(h.cs, h.own) && |h.cs| == h.tableLength > 0
    ensures forall b | 0 <= b < |h.cs| :: ChainGood(h.cs[b], h.hashfn, b, h.tableLength)
  {
  }
}
