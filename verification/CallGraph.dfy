/** The two fixpoints of contrib/mdd.py: how deep the calls of a function go, and for functions
    that reach a cycle, which such functions they reach. */
module CallGraph {
  import opened Wrappers

  type Name(==, !new)

  /** functionCalls: the names that each function mentions in a call. */
  type Calls = map<Name, set<Name>>

  const BIG: nat := 1000000

  /** The other known functions that f calls. */
  function Called(calls: Calls, f: Name): set<Name>
    requires f in calls
  {
    set c | c in calls[f] && c != f && c in calls
  }

  /** A chain of calls; no function calls itself in it. */
  ghost predicate IsChain(calls: Calls, p: seq<Name>) {
    && p != []
    && (forall i | 0 <= i < |p| :: p[i] in calls)
    && (forall i | 0 < i < |p| :: Links(calls, p, i))
  }

  ghost predicate Links(calls: Calls, p: seq<Name>, i: int)
    requires 0 < i < |p|
  {
    p[i - 1] in calls && p[i] in Called(calls, p[i - 1])
  }

  ghost predicate Repeats(p: seq<Name>) {
    exists i, j | 0 <= i < j < |p| :: p[i] == p[j]
  }

  /** A cycle can be reached from f. */
  ghost predicate ReachesCycle(calls: Calls, f: Name) {
    exists p :: IsChain(calls, p) && p[0] == f && Repeats(p)
  }

  // ---------------------------------------------------------------------------------------------
  // Depths.

  type Depths = map<Name, nat>

  /** Every depth is one more than the greatest depth among the functions called. */
  ghost predicate Consistent(calls: Calls, d: Depths) {
    && d.Keys <= calls.Keys
    && (forall f | f in d :: d[f] < |d|)
    && (forall f | f in d :: Deepest(calls, d, f))
  }

  ghost predicate Deepest(calls: Calls, d: Depths, f: Name)
    requires f in calls && f in d
  {
    && (forall c | c in Called(calls, f) :: c in d && d[c] < d[f])
    && (d[f] > 0 ==> exists c :: c in Called(calls, f) && c in d && d[c] + 1 == d[f])
  }

  /** functionDepth.get(c, BIG) */
  function DepthOf(d: Depths, c: Name): nat {
    if c in d then d[c] else BIG
  }

  /** max(calledDepths) */
  method MaxDepth(called: set<Name>, d: Depths) returns (m: nat)
    requires called != {}
    ensures exists c :: c in called && m == DepthOf(d, c)
    ensures forall c | c in called :: DepthOf(d, c) <= m
  {
    var c :| c in called;
    var todo := called - {c};
    m := DepthOf(d, c);
    while todo != {}
      invariant todo <= called && exists c :: c in called && m == DepthOf(d, c)
      invariant forall c | c in called - todo :: DepthOf(d, c) <= m
      decreases |todo|
    {
      c :| c in todo;
      todo := todo - {c};
      if DepthOf(d, c) > m {
        m := DepthOf(d, c);
      }
    }
  }

  lemma OneMore(d: Depths, f: Name, depth: nat)
    requires f !in d
    ensures |d[f := depth]| == |d| + 1
  {
    assert d[f := depth].Keys == d.Keys + {f};
    assert |d.Keys + {f}| == |d.Keys| + 1;
  }

  lemma DeepestKeeps(calls: Calls, d: Depths, f: Name, depth: nat, g: Name)
    requires f !in d && g in d && g in calls && Deepest(calls, d, g)
    ensures Deepest(calls, d[f := depth], g)
  {
    hide Called;
  }

  lemma AddDepth(calls: Calls, d: Depths, f: Name, depth: nat)
    requires Consistent(calls, d) && f in calls && f !in d && depth <= |d|
    requires forall c | c in Called(calls, f) :: c in d && d[c] < depth
    requires depth > 0 ==> exists c :: c in Called(calls, f) && c in d && d[c] + 1 == depth
    ensures Consistent(calls, d[f := depth]) && |d[f := depth]| == |d| + 1
  {
    hide Called, Deepest;
    var e := d[f := depth];
    OneMore(d, f, depth);
    forall g | g in e ensures Deepest(calls, e, g) {
      if g == f {
        DeepestNew(calls, d, f, depth);
      } else {
        DeepestKeeps(calls, d, f, depth, g);
      }
    }
  }

  lemma DeepestNew(calls: Calls, d: Depths, f: Name, depth: nat)
    requires f in calls && f !in d
    requires forall c | c in Called(calls, f) :: c in d && d[c] < depth
    requires depth > 0 ==> exists c :: c in Called(calls, f) && c in d && d[c] + 1 == depth
    ensures Deepest(calls, d[f := depth], f)
  {
    hide Called;
  }

  /** A function that calls one whose depth is not known. */
  ghost predicate Waits(calls: Calls, d: Depths, f: Name) {
    f in calls && exists c :: c in Called(calls, f) && c !in d
  }

  ghost predicate Settled(calls: Calls, d: Depths) {
    forall f | f in calls && f !in d :: Waits(calls, d, f)
  }

  /** One pass over the functions; `any` tells whether a depth was found. */
  method DepthPass(calls: Calls, names: seq<Name>, before: Depths) returns (d: Depths, any: bool)
    requires Consistent(calls, before) && (forall f :: f in names <==> f in calls) && |calls| <= BIG
    ensures Consistent(calls, d) && |before| <= |d|
    ensures any ==> |before| < |d|
    ensures !any ==> d == before && Settled(calls, d)
  {
    hide Called, Consistent, DepthOf, Waits;
    d, any := before, false;
    for i := 0 to |names|
      invariant Consistent(calls, d) && |before| <= |d|
      invariant any ==> |before| < |d|
      invariant !any ==> d == before && forall k | 0 <= k < i && names[k] !in d :: Waits(calls, d, names[k])
    {
      var f := names[i];
      if f in d {
        continue;
      }
      var depth := DepthFor(calls, d, f);
      if depth.Some? {
        d, any := d[f := depth.value], true;
      }
    }
  }

  /** The depth to record for f, if those of all functions it calls are known. */
  method DepthFor(calls: Calls, d: Depths, f: Name) returns (depth: Option<nat>)
    requires Consistent(calls, d) && f in calls && f !in d && |calls| <= BIG
    ensures depth.Some? ==> Consistent(calls, d[f := depth.value]) && |d[f := depth.value]| == |d| + 1
    ensures depth.None? ==> Waits(calls, d, f)
  {
    hide Called, Consistent, DepthOf;
    var called := Called(calls, f);
    Sizes(calls, d);
    if called == {} {
      AddDepth(calls, d, f, 0);
      return Some(0);
    }
    var m := MaxDepth(called, d);
    DepthsBelow(calls, d, called, m);
    if m < BIG {
      AddDepth(calls, d, f, m + 1);
      return Some(m + 1);
    }
    return None;
  }

  lemma {:induction false} SubsetSize<T>(a: set<T>, b: set<T>)
    requires a <= b
    ensures |a| <= |b|
  {
    if a != {} {
      var x :| x in a;
      SubsetSize(a - {x}, b - {x});
    }
  }

  /** Depths found never reach BIG, so that a maximum below BIG means that all are known. */
  lemma DepthsBelow(calls: Calls, d: Depths, called: set<Name>, m: nat)
    requires Consistent(calls, d) && |d| <= |calls| <= BIG
    requires exists c :: c in called && m == DepthOf(d, c)
    requires forall c | c in called :: DepthOf(d, c) <= m
    ensures m < BIG ==>
              && m + 1 <= |d| && (forall c | c in called :: c in d && d[c] < m + 1)
              && exists c :: c in called && c in d && d[c] == m
    ensures m >= BIG ==> exists c :: c in called && c !in d
  {
  }

  /** Depths fall along every chain. */
  lemma {:induction false} DepthsFall(calls: Calls, d: Depths, p: seq<Name>, i: nat)
    requires Consistent(calls, d) && IsChain(calls, p) && p[0] in d && i < |p|
    ensures p[i] in d && d[p[i]] + i <= d[p[0]]
    ensures forall k | 0 <= k < i :: p[k] in d && d[p[i]] < d[p[k]]
  {
    hide Consistent, Links;
    if i > 0 {
      DepthsFall(calls, d, p, i - 1);
      assert Links(calls, p, i);
      OneDown(calls, d, p, i);
    }
  }

  lemma OneDown(calls: Calls, d: Depths, p: seq<Name>, i: nat)
    requires Consistent(calls, d) && 0 < i < |p| && Links(calls, p, i) && p[i - 1] in d
    ensures p[i] in d && d[p[i]] < d[p[i - 1]]
  {
    hide Called;
    assert Deepest(calls, d, p[i - 1]);
  }

  /** There is a chain as long as the depth says. */
  lemma {:induction false} LongChain(calls: Calls, d: Depths, f: Name) returns (p: seq<Name>)
    requires Consistent(calls, d) && f in d
    ensures IsChain(calls, p) && p[0] == f && |p| == d[f] + 1
    decreases d[f]
  {
    hide Called;
    assert Deepest(calls, d, f);
    if d[f] == 0 {
      p := [f];
    } else {
      var c :| c in Called(calls, f) && c in d && d[c] + 1 == d[f];
      var q := LongChain(calls, d, c);
      p := [f] + q;
      ChainCons(calls, f, q);
    }
  }

  lemma ChainOne(calls: Calls, f: Name)
    requires f in calls
    ensures IsChain(calls, [f])
  {
  }

  lemma ChainCons(calls: Calls, f: Name, q: seq<Name>)
    requires f in calls && IsChain(calls, q) && q[0] in Called(calls, f)
    ensures IsChain(calls, [f] + q)
  {
    hide Called;
    var p := [f] + q;
    forall i | 0 < i < |p| ensures Links(calls, p, i) {
      if i > 1 {
        assert Links(calls, q, i - 1);
      }
    }
  }

  /** From a function without a depth, chains go on for ever. */
  lemma {:induction false} EndlessChain(calls: Calls, d: Depths, f: Name, n: nat) returns (p: seq<Name>)
    requires f in calls && f !in d && Settled(calls, d)
    ensures IsChain(calls, p) && p[0] == f && |p| == n + 1
    decreases n
  {
    hide IsChain;
    if n == 0 {
      p := [f];
      ChainOne(calls, f);
    } else {
      assert Waits(calls, d, f);
      var c :| c in Called(calls, f) && c !in d;
      var q := EndlessChain(calls, d, c, n - 1);
      p := [f] + q;
      ChainCons(calls, f, q);
    }
  }

  /** A long list of functions has one of them twice. */
  lemma {:induction false} Pigeonhole(p: seq<Name>, s: set<Name>)
    requires (forall i | 0 <= i < |p| :: p[i] in s) && |s| < |p|
    ensures Repeats(p)
    decreases |p|
  {
    var x, q := p[|p| - 1], p[..|p| - 1];
    if x in q {
      var i :| 0 <= i < |q| && q[i] == x;
      assert p[i] == p[|p| - 1];
    } else {
      Pigeonhole(q, s - {x});
      var i, j :| 0 <= i < j < |q| && q[i] == q[j];
      assert p[i] == p[j];
    }
  }

  /** What the first loop computes. */
  ghost predicate AreDepths(calls: Calls, d: Depths) {
    && d.Keys <= calls.Keys
    && (forall f | f in calls :: f in d <==> !ReachesCycle(calls, f))
    && (forall f | f in d :: LongestChain(calls, f, d[f]))
  }

  ghost predicate LongestChain(calls: Calls, f: Name, n: nat) {
    && (exists p :: IsChain(calls, p) && p[0] == f && |p| == n + 1)
    && (forall p | IsChain(calls, p) && p[0] == f :: |p| <= n + 1)
  }

  /** The depth loop ends, and gives exactly the functions from which no cycle can be reached the
      length of their longest chain of calls. */
  method FindDepths(calls: Calls, names: seq<Name>) returns (functionDepth: Depths)
    requires (forall f :: f in names <==> f in calls) && |calls| <= BIG
    ensures AreDepths(calls, functionDepth)
  {
    functionDepth := map[];
    while true
      invariant Consistent(calls, functionDepth)
      decreases |calls| - |functionDepth|
    {
      hide Consistent;
      ghost var before := functionDepth;
      var any;
      functionDepth, any := DepthPass(calls, names, functionDepth);
      Sizes(calls, functionDepth);
      if !any {
        break;
      }
    }
    Fixpoint(calls, functionDepth);
  }

  lemma Sizes(calls: Calls, d: Depths)
    requires Consistent(calls, d)
    ensures |d| <= |calls|
  {
    SubsetSize(d.Keys, calls.Keys);
  }

  lemma Fixpoint(calls: Calls, d: Depths)
    requires Consistent(calls, d) && Settled(calls, d)
    ensures AreDepths(calls, d)
  {
    hide LongestChain, ReachesCycle, Settled;
    forall f | f in calls ensures f in d <==> !ReachesCycle(calls, f) {
      if f in d {
        NoCycle(calls, d, f);
      } else {
        HasCycle(calls, d, f);
      }
    }
    forall f | f in d ensures LongestChain(calls, f, d[f]) {
      DepthIsLongest(calls, d, f);
    }
  }

  lemma HasCycle(calls: Calls, d: Depths, f: Name)
    requires Settled(calls, d) && f in calls && f !in d
    ensures ReachesCycle(calls, f)
  {
    hide Settled;
    var p := EndlessChain(calls, d, f, |calls.Keys|);
    Pigeonhole(p, calls.Keys);
  }

  lemma DepthIsLongest(calls: Calls, d: Depths, f: Name)
    requires Consistent(calls, d) && f in d
    ensures LongestChain(calls, f, d[f])
  {
    hide Consistent, Links;
    var q := LongChain(calls, d, f);
    forall p | IsChain(calls, p) && p[0] == f ensures |p| <= d[f] + 1 {
      DepthsFall(calls, d, p, |p| - 1);
    }
  }

  lemma NoCycle(calls: Calls, d: Depths, f: Name)
    requires Consistent(calls, d) && f in d
    ensures !ReachesCycle(calls, f)
  {
    forall p | IsChain(calls, p) && p[0] == f ensures !Repeats(p) {
      forall i, j | 0 <= i < j < |p| ensures p[i] != p[j] {
        DepthsFall(calls, d, p, j);
      }
    }
  }

  // ---------------------------------------------------------------------------------------------
  // The closure on the functions without a depth.

  type Graph = map<Name, set<Name>>

  /** cycCalls before the second loop. */
  function Edges(calls: Calls, d: Depths): Graph {
    map f | f in calls && f !in d :: set c | c in calls[f] && c != f && c in calls && c !in d
  }

  /** Steps along edges of the graph, at least one. */
  ghost predicate IsWalk(g: Graph, p: seq<Name>) {
    |p| >= 2 && forall i | 0 < i < |p| :: Steps(g, p, i)
  }

  ghost predicate Steps(g: Graph, p: seq<Name>, i: int)
    requires 0 < i < |p|
  {
    p[i - 1] in g && p[i] in g[p[i - 1]]
  }

  ghost predicate Reaches(g: Graph, f: Name, h: Name) {
    exists p :: IsWalk(g, p) && p[0] == f && p[|p| - 1] == h
  }

  lemma EdgeReaches(g: Graph, f: Name, h: Name)
    requires f in g && h in g[f]
    ensures Reaches(g, f, h)
  {
    var p := [f, h];
    assert Steps(g, p, 1);
    assert IsWalk(g, p);
  }

  lemma ReachesOn(g: Graph, f: Name, h: Name, k: Name)
    requires Reaches(g, f, h) && Reaches(g, h, k)
    ensures Reaches(g, f, k)
  {
    var p :| IsWalk(g, p) && p[0] == f && p[|p| - 1] == h;
    var q :| IsWalk(g, q) && q[0] == h && q[|q| - 1] == k;
    var r := p + q[1..];
    forall i | 0 < i < |r| ensures Steps(g, r, i) {
      if i < |p| {
        assert Steps(g, p, i);
      } else {
        assert Steps(g, q, i - |p| + 1);
      }
    }
    assert IsWalk(g, r);
  }

  /** The table lies between the edges and their closure. */
  ghost predicate Between(g: Graph, c: Graph) {
    && c.Keys == g.Keys
    && (forall f | f in g :: g[f] <= c[f] && c[f] <= g.Keys)
    && (forall f, h | f in c && h in c[f] :: Reaches(g, f, h))
  }

  ghost predicate IsClosure(g: Graph, c: Graph) {
    c.Keys == g.Keys && forall f, h | f in c :: h in c[f] <==> Reaches(g, f, h)
  }

  /** What a function reaches includes all that those reach. */
  ghost predicate Absorbed(c: Graph, f: Name) {
    f in c && forall h | h in c[f] && h in c :: c[h] <= c[f]
  }

  lemma {:induction false} WalkAbsorbed(g: Graph, c: Graph, p: seq<Name>, i: nat)
    requires Between(g, c) && (forall f | f in c :: Absorbed(c, f)) && IsWalk(g, p) && 1 <= i < |p|
    ensures p[0] in c && p[i] in c[p[0]]
  {
    hide Reaches;
    assert Steps(g, p, i);
    if i == 1 {
      assert Steps(g, p, 1);
    } else {
      WalkAbsorbed(g, c, p, i - 1);
      assert Absorbed(c, p[0]);
    }
  }

  lemma ClosedIsClosure(g: Graph, c: Graph)
    requires Between(g, c) && forall f | f in c :: Absorbed(c, f)
    ensures IsClosure(g, c)
  {
    forall f, h | f in c && Reaches(g, f, h) ensures h in c[f] {
      var p :| IsWalk(g, p) && p[0] == f && p[|p| - 1] == h;
      WalkAbsorbed(g, c, p, |p| - 1);
    }
  }

  /** The inner loop for one function, over the keys it had when the loop began. */
  method Absorb(g: Graph, c: Graph, f: Name) returns (s: set<Name>)
    requires Between(g, c) && f in c
    ensures c[f] <= s && Between(g, c[f := s])
    ensures s == c[f] ==> Absorbed(c, f)
  {
    s := c[f];
    var todo := c[f];
    while todo != {}
      invariant todo <= c[f] <= s <= g.Keys
      invariant forall h | h in s :: Reaches(g, f, h)
      invariant forall h | h in c[f] - todo && h != f :: c[h] <= s
      decreases |todo|
    {
      hide Reaches;
      var called :| called in todo;
      todo := todo - {called};
      if called != f {
        forall k | k in c[called] ensures Reaches(g, f, k) {
          ReachesOn(g, f, called, k);
        }
        s := s + c[called];
      }
    }
  }

  ghost function Pairs(c: Graph): set<(Name, Name)> {
    set f, h | f in c && h in c[f] :: (f, h)
  }

  lemma PairsGrow(c: Graph, f: Name, s: set<Name>)
    requires f in c && c[f] <= s
    ensures Pairs(c) <= Pairs(c[f := s])
    ensures c[f] != s ==> Pairs(c) != Pairs(c[f := s])
  {
    var e := c[f := s];
    forall x | x in Pairs(c) ensures x in Pairs(e) {
      assert x.0 in e && x.1 in e[x.0];
    }
    if c[f] != s {
      var h :| h in s && h !in c[f];
      assert (f, h) in Pairs(e) && (f, h) !in Pairs(c);
    }
  }

  lemma SameSize(a: set<Name>, b: set<Name>)
    requires a <= b && |a| == |b|
    ensures a == b
  {
    if x :| x in b && x !in a {
      SubsetSize(a, b - {x});
    }
  }

  /** One pass of the second loop, in place; `any` tells whether a set has grown. */
  method ClosurePass(g: Graph, names: seq<Name>, before: Graph) returns (c: Graph, any: bool)
    requires Between(g, before) && forall f :: f in names <==> f in g
    ensures Between(g, c) && Pairs(before) <= Pairs(c)
    ensures any ==> Pairs(before) != Pairs(c)
    ensures !any ==> c == before && forall f | f in c :: Absorbed(c, f)
  {
    c, any := before, false;
    for i := 0 to |names|
      invariant Between(g, c) && Pairs(before) <= Pairs(c)
      invariant any ==> Pairs(before) != Pairs(c)
      invariant !any ==> c == before && forall k | 0 <= k < i :: Absorbed(c, names[k])
    {
      hide Reaches, Absorbed, Pairs;
      var f := names[i];
      var size := |c[f]|;
      var s := Absorb(g, c, f);
      PairsGrow(c, f, s);
      if |s| == size {
        SameSize(c[f], s);
        assert c[f := s] == c;
      } else {
        any := true;
      }
      c := c[f := s];
    }
  }

  lemma PairsBounded(g: Graph, c: Graph)
    requires Between(g, c)
    ensures Pairs(c) <= All(g)
  {
    hide Reaches;
  }

  ghost function All(g: Graph): set<(Name, Name)> {
    set f, h | f in g && h in g :: (f, h)
  }

  /** The second loop ends with exactly the transitive closure, although it changes the sets it
      reads. */
  method FindClosure(g: Graph, names: seq<Name>) returns (cycCalls: Graph)
    requires (forall f :: f in names <==> f in g) && forall f | f in g :: g[f] <= g.Keys
    ensures IsClosure(g, cycCalls)
  {
    cycCalls := g;
    forall f, h | f in g && h in g[f] ensures Reaches(g, f, h) {
      EdgeReaches(g, f, h);
    }
    while true
      invariant Between(g, cycCalls)
      decreases All(g) - Pairs(cycCalls)
    {
      hide Between, Pairs, All, Absorbed;
      var any;
      ghost var before := cycCalls;
      cycCalls, any := ClosurePass(g, names, cycCalls);
      PairsBounded(g, cycCalls);
      if !any {
        break;
      }
      Shrinks(All(g), Pairs(before), Pairs(cycCalls));
    }
    ClosedIsClosure(g, cycCalls);
  }

  lemma Shrinks<T>(all: set<T>, a: set<T>, b: set<T>)
    requires a <= b <= all && a != b
    ensures all - b < all - a
  {
    var x :| x in b && x !in a;
    assert x in all - a && x !in all - b;
  }

  /** Both loops of the script: depths for the functions that reach no cycle, and for each other
      function which of the others it reaches. */
  method Analyse(calls: Calls, names: seq<Name>) returns (functionDepth: Depths, cycCalls: Graph)
    requires (forall f :: f in names <==> f in calls) && |calls| <= BIG
    ensures AreDepths(calls, functionDepth)
    ensures IsClosure(Edges(calls, functionDepth), cycCalls)
  {
    hide AreDepths, IsClosure;
    functionDepth := FindDepths(calls, names);
    var g := Edges(calls, functionDepth);
    var cycNames := [];
    for i := 0 to |names|
      invariant forall f :: f in cycNames <==> f in g && f in names[..i]
    {
      assert names[..i + 1] == names[..i] + [names[i]];
      if names[i] !in functionDepth {
        cycNames := cycNames + [names[i]];
      }
    }
    assert names[..|names|] == names;
    cycCalls := FindClosure(g, cycNames);
  }
}
