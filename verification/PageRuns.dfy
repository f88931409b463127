/** The free list of page runs of src/common/OpenBSD_malloc_Linux.c, as a list of values. */
module PageRuns {
  /** A run of free pages; addresses and sizes are counted in pages. */
  datatype Run = Run(page: nat, size: nat) {
    function End(): nat { page + size }

    predicate Has(q: nat) { page <= q < page + size }
  }

  /** Address-sorted, disjoint, no run empty and no two runs adjacent. */
  ghost predicate Canonical(f: seq<Run>) {
    && (forall i | 0 <= i < |f| :: f[i].size > 0)
    && (forall i, j | 0 <= i < j < |f| :: f[i].End() < f[j].page)
  }

  ghost predicate In(f: seq<Run>, q: nat) {
    exists i :: 0 <= i < |f| && f[i].Has(q)
  }

  ghost function Sum(f: seq<Run>): nat {
    if |f| == 0 then 0 else Sum(f[..|f| - 1]) + f[|f| - 1].size
  }

  lemma {:induction false} SumConcat(f: seq<Run>, g: seq<Run>)
    ensures Sum(f + g) == Sum(f) + Sum(g)
  {
    if |g| == 0 {
      assert f + g == f;
    } else {
      SumConcat(f, g[..|g| - 1]);
      assert (f + g)[..|f + g| - 1] == f + g[..|g| - 1];
    }
  }

  lemma SumSplit(f: seq<Run>, i: nat)
    requires i < |f|
    ensures Sum(f) == Sum(f[..i]) + f[i].size + Sum(f[i + 1..])
  {
    assert f == f[..i] + [f[i]] + f[i + 1..];
    SumConcat(f[..i] + [f[i]], f[i + 1..]);
    SumConcat(f[..i], [f[i]]);
    assert Sum([f[i]]) == f[i].size;
  }

  /** A canonical list is determined by the pages in it. */
  lemma {:induction false} CanonicalUnique(f: seq<Run>, g: seq<Run>)
    requires Canonical(f) && Canonical(g) && forall q :: In(f, q) <==> In(g, q)
    ensures f == g
  {
    FirstIn(f);
    FirstIn(g);
    if |f| > 0 && |g| > 0 {
      SameFirst(f, g);
      forall q ensures In(f[1..], q) <==> In(g[1..], q) {
        InTail(f, q);
        InTail(g, q);
      }
      CanonicalUnique(f[1..], g[1..]);
      assert f == [f[0]] + f[1..] && g == [g[0]] + g[1..];
    }
  }

  lemma FirstIn(f: seq<Run>)
    requires Canonical(f)
    ensures |f| > 0 ==> In(f, f[0].page)
    ensures |f| == 0 ==> forall q :: !In(f, q)
  {
    assert |f| > 0 ==> f[0].Has(f[0].page);
  }

  lemma InTail(f: seq<Run>, q: nat)
    requires Canonical(f) && |f| > 0
    ensures In(f[1..], q) <==> In(f, q) && !f[0].Has(q)
    ensures In(f, q) ==> f[0].page <= q
    ensures In(f[1..], q) ==> f[0].End() < q
  {
    if In(f, q) && !f[0].Has(q) {
      var i :| 0 <= i < |f| && f[i].Has(q);
      assert f[1..][i - 1].Has(q);
    }
  }

  lemma ShorterEnds(r: Run, s: Run)
    requires r.page == s.page
    ensures r.size < s.size <==> s.Has(r.End())
    ensures !r.Has(r.End())
  {
  }

  lemma SameFirst(f: seq<Run>, g: seq<Run>)
    requires Canonical(f) && Canonical(g) && |f| > 0 && |g| > 0 && forall q :: In(f, q) <==> In(g, q)
    ensures f[0] == g[0]
  {
    assert f[0].Has(f[0].page) && g[0].Has(g[0].page);
    InTail(f, f[0].page); InTail(g, f[0].page);
    InTail(f, g[0].page); InTail(g, g[0].page);
    assert f[0].page == g[0].page;
    InTail(f, f[0].End()); InTail(g, f[0].End());
    InTail(f, g[0].End()); InTail(g, g[0].End());
    ShorterEnds(f[0], g[0]);
    ShorterEnds(g[0], f[0]);
  }

  /** The list with the runs from lo up to hi replaced by r. */
  function Splice(f: seq<Run>, lo: nat, hi: nat, r: Run): seq<Run>
    requires lo <= hi <= |f|
  {
    f[..lo] + [r] + f[hi..]
  }

  lemma SpliceAt(f: seq<Run>, lo: nat, hi: nat, r: Run, i: nat)
    requires lo <= hi <= |f| && i < lo + 1 + |f| - hi
    ensures |Splice(f, lo, hi, r)| == lo + 1 + |f| - hi
    ensures Splice(f, lo, hi, r)[i] == if i < lo then f[i] else if i == lo then r else f[i - lo - 1 + hi]
  {
  }

  lemma SpliceCanonical(f: seq<Run>, lo: nat, hi: nat, r: Run)
    requires Canonical(f) && lo <= hi <= |f| && r.size > 0
    requires lo > 0 ==> f[lo - 1].End() < r.page
    requires hi < |f| ==> r.End() < f[hi].page
    ensures Canonical(Splice(f, lo, hi, r))
  {
    var n := lo + 1 + |f| - hi;
    forall i | 0 <= i < n ensures Splice(f, lo, hi, r)[i].size > 0 {
      hide Splice;
      SpliceAt(f, lo, hi, r, i);
    }
    forall i, j | 0 <= i < j < n ensures Splice(f, lo, hi, r)[i].End() < Splice(f, lo, hi, r)[j].page {
      hide Splice;
      SpliceAt(f, lo, hi, r, i);
      SpliceAt(f, lo, hi, r, j);
      Around(f, lo, hi, r, i, j - lo - 1 + hi);
    }
  }

  lemma Around(f: seq<Run>, lo: nat, hi: nat, r: Run, i: int, j: int)
    requires Canonical(f) && lo <= hi <= |f|
    requires lo > 0 ==> f[lo - 1].End() < r.page
    requires hi < |f| ==> r.End() < f[hi].page
    ensures 0 <= i < lo ==> f[i].End() < r.page
    ensures hi <= j < |f| ==> r.End() < f[j].page
  {
    assert 0 <= i < lo - 1 ==> f[i].End() < f[lo - 1].page;
    assert hi < j < |f| ==> f[hi].End() < f[j].page;
  }

  lemma SpliceIn(f: seq<Run>, lo: nat, hi: nat, r: Run, q: nat)
    requires lo <= hi <= |f|
    ensures In(Splice(f, lo, hi, r), q) <==> r.Has(q) || exists i :: 0 <= i < |f| && !(lo <= i < hi) && f[i].Has(q)
  {
    var g := Splice(f, lo, hi, r);
    if In(g, q) {
      var k :| 0 <= k < |g| && g[k].Has(q);
      if k != lo {
        assert f[if k < lo then k else k - 1 + hi - lo].Has(q);
      }
    }
    if r.Has(q) {
      assert g[lo].Has(q);
    }
    if i :| 0 <= i < |f| && !(lo <= i < hi) && f[i].Has(q) {
      assert g[if i < lo then i else i + 1 - (hi - lo)].Has(q);
    }
  }

  lemma SpliceSum(f: seq<Run>, lo: nat, hi: nat, r: Run)
    requires lo <= hi <= |f|
    ensures Sum(Splice(f, lo, hi, r)) == Sum(f) - Sum(f[lo..hi]) + r.size
  {
    hide Sum;
    SumConcat(f[..lo] + [r], f[hi..]);
    SumConcat(f[..lo], [r]);
    SumOne(r);
    SumConcat(f[..lo] + f[lo..hi], f[hi..]);
    SumConcat(f[..lo], f[lo..hi]);
    assert f == (f[..lo] + f[lo..hi]) + f[hi..];
  }

  lemma SumOne(r: Run)
    ensures Sum([r]) == r.size
  {
    assert Sum([r][..0]) == 0;
  }

  ghost predicate Disjoint(f: seq<Run>, r: Run) {
    forall q | r.Has(q) :: !In(f, q)
  }

  /** g is the canonical list of the pages of f and of the run r. */
  ghost predicate Added(f: seq<Run>, r: Run, g: seq<Run>) {
    && Canonical(g) && Sum(g) == Sum(f) + r.size
    && forall q :: In(g, q) <==> In(f, q) || r.Has(q)
  }

  /** Two runs that do not overlap are apart. */
  lemma Apart(f: seq<Run>, r: Run, i: nat)
    requires Disjoint(f, r) && i < |f| && f[i].size > 0 && r.size > 0
    ensures f[i].End() <= r.page || r.End() <= f[i].page
  {
    if f[i].page < r.End() && r.page < f[i].End() {
      var q := if f[i].page < r.page then r.page else f[i].page;
      assert f[i].Has(q) && r.Has(q);
    }
  }

  /** Replacing the runs lo..hi by their union with r adds just the pages of r. */
  lemma AddedBySplice(f: seq<Run>, r: Run, lo: nat, hi: nat, m: Run)
    requires Canonical(f) && r.size > 0 && lo <= hi <= |f| && m.size == r.size + Sum(f[lo..hi])
    requires lo > 0 ==> f[lo - 1].End() < m.page
    requires hi < |f| ==> m.End() < f[hi].page
    requires forall q :: m.Has(q) <==> r.Has(q) || exists i :: lo <= i < hi && f[i].Has(q)
    ensures Added(f, r, Splice(f, lo, hi, m))
    ensures lo < |Splice(f, lo, hi, m)| && Splice(f, lo, hi, m)[lo] == m
    ensures Sum(Splice(f, lo, hi, m)) == Sum(f) + r.size
  {
    hide Sum;
    SpliceCanonical(f, lo, hi, m);
    SpliceSum(f, lo, hi, m);
    forall q ensures In(Splice(f, lo, hi, m), q) <==> In(f, q) || r.Has(q) {
      SpliceIn(f, lo, hi, m, q);
    }
  }

  lemma FirstRun(run: Run)
    requires run.size > 0
    ensures Added([], run, [run]) && [run][0].End() == run.page + run.size && Sum([run]) == run.size && Sum([]) == 0
    ensures Result([], run, [run], 0, 0)
  {
    SumOne(run);
    assert [run][0].Has(run.page);
    forall q ensures In([run], q) <==> run.Has(q) {
      if run.Has(q) {
        assert [run][0].Has(q);
      }
    }
  }

  lemma EmptySum(f: seq<Run>)
    ensures Sum(f[..0]) == 0 && Sum([]) == 0
  {
  }

  lemma SumStep(f: seq<Run>, i: nat)
    requires i < |f|
    ensures Sum(f[..i + 1]) == Sum(f[..i]) + f[i].size
  {
    assert f[..i + 1][..i] == f[..i];
  }

  /** The run fills exactly the gap behind entry i. */
  ghost predicate Bridges(f: seq<Run>, r: Run, i: nat) {
    i + 1 < |f| && f[i].End() == r.page && r.End() == f[i + 1].page
  }

  /** Where the search for the place of a run stops: apart from its entry, behind the previous
      one, and no entry but the one it stops at can be bridged. */
  lemma Surroundings(f: seq<Run>, r: Run, i: nat)
    requires Canonical(f) && r.size > 0 && Disjoint(f, r) && i < |f|
    requires i > 0 ==> f[i - 1].page + f[i - 1].size < r.page
    requires r.page <= f[i].page + f[i].size || i + 1 == |f|
    ensures f[i].page + f[i].size <= r.page || r.page + r.size <= f[i].page
    ensures f[i].size <= Sum(f) == Sum(f[..|f|])
  {
    Apart(f, r, i);
    SumSplit(f, i);
    assert f[..|f|] == f;
  }

  /** What a case of AddRun gives: the new list, its entry at pf, and the pages outside it. */
  ghost predicate Result(f: seq<Run>, r: Run, g: seq<Run>, pf: nat, cachesize: nat) {
    && Added(f, r, g)
    && pf < |g| && g[pf].page <= r.page && r.page + r.size <= g[pf].page + g[pf].size
    && (forall i: nat :: Bridges(f, r, i) ==> i + 1 < |f| && cachesize == Sum(g) - g[pf].size + f[i + 1].size)
    && ((forall i: nat :: !Bridges(f, r, i)) ==> cachesize == Sum(g) - g[pf].size)
    && cachesize <= Sum(f)
  }

  lemma Neighbours(f: seq<Run>, i: nat)
    requires Canonical(f) && i < |f|
    ensures f[i].size > 0 && f[i].End() == f[i].page + f[i].size
    ensures i > 0 ==> f[i - 1].End() < f[i].page
    ensures i + 1 < |f| ==> f[i].End() < f[i + 1].page && f[i + 1].size > 0
    ensures i + 2 < |f| ==> f[i + 1].End() < f[i + 2].page
  {
  }

  /** The only entry that a run can bridge is the one that ends where the run begins. */
  lemma BridgeAt(f: seq<Run>, r: Run, pf: nat)
    requires Canonical(f) && r.size > 0 && pf <= |f|
    ensures pf < |f| && f[pf].page + f[pf].size == r.page ==> forall i: nat :: Bridges(f, r, i) ==> i == pf
    ensures (pf > 0 ==> f[pf - 1].page + f[pf - 1].size < r.page) && (pf < |f| ==> r.page + r.size <= f[pf].page)
            ==> forall i: nat :: !Bridges(f, r, i)
  {
  }

  lemma InsertBefore(f: seq<Run>, r: Run, pf: nat)
    requires Canonical(f) && r.size > 0 && pf <= |f|
    requires pf > 0 ==> f[pf - 1].page + f[pf - 1].size < r.page
    requires pf < |f| ==> r.page + r.size < f[pf].page
    ensures Result(f, r, Splice(f, pf, pf, r), pf, Sum(f))
  {
    hide Canonical, Sum, Added, Splice;
    assert f[pf..pf] == [] && Sum([]) == 0 by {
      EmptySum([]);
    }
    BridgeAt(f, r, pf);
    AddedBySplice(f, r, pf, pf, r);
  }

  lemma Append(f: seq<Run>, r: Run, pf: nat)
    requires Canonical(f) && r.size > 0 && Disjoint(f, r) && pf < |f|
    requires f[pf].page + f[pf].size == r.page
    requires pf + 1 < |f| ==> f[pf + 1].page != r.page + r.size
    ensures f[pf].size <= Sum(f)
    ensures Result(f, r, Splice(f, pf, pf + 1, Run(f[pf].page, f[pf].size + r.size)), pf, Sum(f) - f[pf].size)
  {
    hide Canonical, Sum, Added, Splice;
    Neighbours(f, pf);
    BridgeAt(f, r, pf);
    SumOne(f[pf]);
    SumSplit(f, pf);
    assert f[pf..pf + 1] == [f[pf]];
    if pf + 1 < |f| {
      Apart(f, r, pf + 1);
    }
    AddedBySplice(f, r, pf, pf + 1, Run(f[pf].page, f[pf].size + r.size));
  }

  lemma Collapse(f: seq<Run>, r: Run, pf: nat)
    requires Canonical(f) && r.size > 0 && pf + 1 < |f|
    requires f[pf].page + f[pf].size == r.page && f[pf + 1].page == r.page + r.size
    ensures f[pf].size <= Sum(f)
    ensures Result(f, r, Splice(f, pf, pf + 2, Run(f[pf].page, f[pf].size + r.size + f[pf + 1].size)), pf,
                   Sum(f) - f[pf].size)
  {
    hide Canonical, Sum, Added, Splice;
    Neighbours(f, pf);
    BridgeAt(f, r, pf);
    SumOne(f[pf]);
    SumSplit(f, pf);
    SumConcat([f[pf]], [f[pf + 1]]);
    SumOne(f[pf + 1]);
    assert f[pf..pf + 2] == [f[pf]] + [f[pf + 1]];
    assert Bridges(f, r, pf);
    AddedBySplice(f, r, pf, pf + 2, Run(f[pf].page, f[pf].size + r.size + f[pf + 1].size));
  }

  lemma Prepend(f: seq<Run>, r: Run, pf: nat)
    requires Canonical(f) && r.size > 0 && pf < |f|
    requires pf > 0 ==> f[pf - 1].page + f[pf - 1].size < r.page
    requires f[pf].page == r.page + r.size
    ensures f[pf].size <= Sum(f)
    ensures Result(f, r, Splice(f, pf, pf + 1, Run(r.page, f[pf].size + r.size)), pf, Sum(f) - f[pf].size)
  {
    hide Canonical, Sum, Added, Splice;
    Neighbours(f, pf);
    BridgeAt(f, r, pf);
    SumOne(f[pf]);
    SumSplit(f, pf);
    assert f[pf..pf + 1] == [f[pf]];
    AddedBySplice(f, r, pf, pf + 1, Run(r.page, f[pf].size + r.size));
  }

  datatype Placement = Placed(f: seq<Run>, pf: nat, cachesize: nat) | Destroyed

  /** The free-list part of free_pages (lines 1507-1573): the run goes to its place in the list
      and is joined with the neighbours it touches.  `cachesize` is what the source computes:
      the cached pages outside the entry pf, where a collapsed right neighbour, which is in pf
      now, is still counted. */
  method AddRun(f: seq<Run>, ptr: nat, l: nat) returns (r: Placement)
    requires Canonical(f) && l > 0 && Disjoint(f, Run(ptr, l))
    ensures r.Placed? && Result(f, Run(ptr, l), r.f, r.pf, r.cachesize)
  {
    hide *;
    var run := Run(ptr, l);
    var tail := ptr + l;
    if |f| == 0 {
      FirstRun(run);
      return Placed([run], 0, 0);
    }
    var pf, cachesize := 0, 0;
    EmptySum(f);
    while ptr > f[pf].page + f[pf].size && pf + 1 < |f|
      decreases |f| - pf
      invariant 0 <= pf < |f| && cachesize == Sum(f[..pf])
      invariant pf > 0 ==> f[pf - 1].page + f[pf - 1].size < ptr
    {
      SumStep(f, pf);
      cachesize := cachesize + f[pf].size;
      pf := pf + 1;
    }
    var pt := pf;
    while pt < |f|
      invariant pf <= pt <= |f| && cachesize == Sum(f[..pt])
    {
      SumStep(f, pt);
      cachesize := cachesize + f[pt].size;
      pt := pt + 1;
    }
    r := Place(f, ptr, l, pf, cachesize);
  }

  method Place(f: seq<Run>, ptr: nat, l: nat, pf: nat, total: nat) returns (r: Placement)
    requires Canonical(f) && l > 0 && Disjoint(f, Run(ptr, l))
    requires pf < |f| && total == Sum(f[..|f|])
    requires pf > 0 ==> f[pf - 1].page + f[pf - 1].size < ptr
    requires ptr <= f[pf].page + f[pf].size || pf + 1 == |f|
    ensures r.Placed? && Result(f, Run(ptr, l), r.f, r.pf, r.cachesize)
  {
    hide *;
    var run, tail := Run(ptr, l), ptr + l;
    Surroundings(f, run, pf);
    if f[pf].page > tail {
      InsertBefore(f, run, pf);
      r := Placed(Splice(f, pf, pf, run), pf, total);
    } else if f[pf].page + f[pf].size == ptr {
      var size := f[pf].size + l;
      if pf + 1 < |f| && f[pf + 1].page == f[pf].page + size {
        var m := Run(f[pf].page, size + f[pf + 1].size);
        Collapse(f, run, pf);
        r := Placed(Splice(f, pf, pf + 2, m), pf, total - f[pf].size);
      } else {
        var m := Run(f[pf].page, size);
        Append(f, run, pf);
        r := Placed(Splice(f, pf, pf + 1, m), pf, total - f[pf].size);
      }
    } else if f[pf].page == tail {
      var m := Run(ptr, f[pf].size + l);
      Prepend(f, run, pf);
      r := Placed(Splice(f, pf, pf + 1, m), pf, total - f[pf].size);
    } else if pf + 1 == |f| {
      InsertBefore(f, run, pf + 1);
      r := Placed(Splice(f, pf + 1, pf + 1, run), pf + 1, total);
    } else {
      assert false;
      r := Destroyed;
    }
  }

  /** The list with entry i shrunk to r, or taken out if nothing is left of it. */
  function Shrink(f: seq<Run>, i: nat, r: Run): seq<Run>
    requires i < |f|
  {
    if r.size == 0 then f[..i] + f[i + 1..] else f[i := r]
  }

  predicate Within(r: Run, s: Run) {
    s.page <= r.page && r.page + r.size <= s.page + s.size
  }

  lemma ShrinkRun(f: seq<Run>, i: nat, r: Run)
    requires Canonical(f) && i < |f| && Within(r, f[i])
    ensures Canonical(Shrink(f, i, r)) && Sum(Shrink(f, i, r)) == Sum(f) - f[i].size + r.size
    ensures forall q :: In(Shrink(f, i, r), q) <==> In(f, q) && (f[i].Has(q) ==> r.Has(q))
    ensures forall q: nat | f[i].Has(q) :: In(f, q)
  {
    assert Canonical(Shrink(f, i, r));
    hide Canonical, Sum, Shrink;
    ShrinkSum(f, i, r);
    forall q ensures In(Shrink(f, i, r), q) <==> In(f, q) && (f[i].Has(q) ==> r.Has(q)) {
      ShrinkIn(f, i, r, q);
    }
  }

  lemma ShrinkSum(f: seq<Run>, i: nat, r: Run)
    requires i < |f|
    ensures Sum(Shrink(f, i, r)) == Sum(f) - f[i].size + r.size
  {
    hide Sum;
    SumSplit(f, i);
    var g := Shrink(f, i, r);
    if r.size == 0 {
      SumConcat(f[..i], f[i + 1..]);
    } else {
      SumSplit(g, i);
      assert g[..i] == f[..i] && g[i + 1..] == f[i + 1..];
    }
  }

  lemma ShrinkIn(f: seq<Run>, i: nat, r: Run, q: nat)
    requires Canonical(f) && i < |f| && Within(r, f[i])
    ensures In(Shrink(f, i, r), q) <==> In(f, q) && (f[i].Has(q) ==> r.Has(q))
  {
    hide Canonical;
    var g := Shrink(f, i, r);
    if In(g, q) {
      var j :| 0 <= j < |g| && g[j].Has(q);
      var j' := if r.size > 0 || j < i then j else j + 1;
      assert f[j'].Has(q);
      OnlyOne(f, i, j', q);
    }
    if In(f, q) && (f[i].Has(q) ==> r.Has(q)) {
      var j :| 0 <= j < |f| && f[j].Has(q);
      assert g[if r.size > 0 || j < i then j else j - 1].Has(q);
    }
  }

  lemma OnlyOne(f: seq<Run>, i: nat, j: nat, q: nat)
    requires Canonical(f) && i < |f| && j < |f| && f[j].Has(q)
    ensures f[i].Has(q) ==> i == j
  {
  }
}
