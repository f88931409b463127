/** Whole runs of the operations of src/common/ht.h: the table behaves as a finite set keyed by
    eqfn, and its representation check passes after every call. */
module HashRuns {
  import opened HashChains
  import opened HashTable
  import HashIteration

  /** A call, with the allocator's answers where it may grow the table. */
  datatype Call =
    | Find(elm: Elm)
    | Insert(elm: Elm, mallocOk: bool, reallocOk: bool)
    | Replace(elm: Elm, mallocOk: bool, reallocOk: bool)
    | Remove(elm: Elm)
    | Grow(size: nat, mallocOk: bool, reallocOk: bool)

  /** The elements, and which prime gives the number of buckets. */
  datatype State = State(elms: set<Elm>, idx: int)

  ghost function StateOf(h: Table): State
    reads h
  {
    State(h.own.Keys, h.primeIdx)
  }

  /** What the callers of HT_INSERT and HT_REPLACE keep to, with memory to be had when the table
      has to grow. */
  ghost predicate Legal(h: Table, st: State, call: Call) {
    && -1 <= st.idx <= LAST
    && match call
       case Insert(elm, mallocOk, reallocOk) =>
         h.Matches(st.elms, elm) == {} && elm !in st.elms && Roomy(st, mallocOk || reallocOk)
       case Replace(elm, mallocOk, reallocOk) => elm !in st.elms && Roomy(st, mallocOk || reallocOk)
       case Grow(size, _, _) => size < LoadLimit(PRIMES[LAST])
       case _ => true
  }

  /** There is room for one more, or memory for a larger table. */
  ghost predicate Roomy(st: State, memory: bool)
    requires -1 <= st.idx <= LAST
  {
    |st.elms| < LoadLimit(PRIMES[LAST]) && (|st.elms| < Limit(st.idx) || memory)
  }

  /** The state after the call. */
  ghost function After(h: Table, st: State, call: Call): State
    requires -1 <= st.idx <= LAST
  {
    match call
    case Find(_) => st
    case Insert(elm, mallocOk, reallocOk) =>
      State(st.elms + {elm}, NextIdx(st.idx, |st.elms|, mallocOk || reallocOk))
    case Replace(elm, mallocOk, reallocOk) =>
      State(st.elms - h.Matches(st.elms, elm) + {elm}, NextIdx(st.idx, |st.elms|, mallocOk || reallocOk))
    case Remove(elm) => st.(elms := st.elms - h.Matches(st.elms, elm))
    case Grow(size, mallocOk, reallocOk) => st.(idx := if mallocOk || reallocOk then Fitting(st.idx, size) else st.idx)
  }

  /** What the call returns: the element of the set equal to the one given, if there is one. */
  ghost predicate Answers(h: Table, s: set<Elm>, call: Call, r: Elm?) {
    match call
    case Find(elm) => h.Matches(s, elm) == if r == null then {} else {r}
    case Insert(_, _, _) => r == null
    case Replace(elm, _, _) => h.Matches(s, elm) == if r == null then {} else {r}
    case Remove(elm) => h.Matches(s, elm) == if r == null then {} else {r}
    case Grow(_, _, _) => r == null
  }

  function Argument(call: Call): set<Elm> {
    if call.Grow? then {} else {call.elm}
  }

  /** Elements outside the table are linked to nothing. */
  ghost predicate Loose(s: set<Elm>)
    reads s`next
  {
    forall e | e in s :: e.next == null
  }

  /** There is room or will be when HT_GROW has been called. */
  ghost predicate Spacious(h: Table, mallocOk: bool, reallocOk: bool)
    reads h
  {
    h.RoomAhead(mallocOk, reallocOk) && h.CanInsert(mallocOk, reallocOk) && 0 <= h.nEntries
  }

  lemma RoomBelowLast(h: Table, u: set<Elm>, mallocOk: bool, reallocOk: bool)
    requires Ready(h, u) && -1 <= h.primeIdx <= LAST && Roomy(StateOf(h), mallocOk || reallocOk)
    ensures Spacious(h, mallocOk, reallocOk)
  {
    h.Parts();
    h.GoodCanInsert(mallocOk, reallocOk);
  }

  lemma SpaciousFacts(h: Table, mallocOk: bool, reallocOk: bool)
    requires Spacious(h, mallocOk, reallocOk)
    ensures h.RoomAhead(mallocOk, reallocOk) && h.CanInsert(mallocOk, reallocOk) && 0 <= h.nEntries
  {
  }

  lemma NoneMatch(h: Table, s: set<Elm>, elm: Elm)
    ensures h.Matches(s, elm) == {} <==> forall e | e in s :: !h.eqfn(e.key, elm.key)
    ensures h.Matches(s, elm) <= s
  {
    assert forall e | e in s && h.eqfn(e.key, elm.key) :: e in h.Matches(s, elm);
  }

  /** The table is in good order, and of the elements u those outside it are unlinked. */
  ghost predicate Ready(h: Table, u: set<Elm>)
    reads h, h.table, h.own.Keys, u`next
  {
    h.Good() && h.own.Keys <= u && Loose(u - h.own.Keys)
  }

  lemma Standing(h: Table, u: set<Elm>)
    ensures Ready(h, u) <==>
            && h.Linkage() && h.nEntries == |h.own.Keys| && h.nEntries <= h.loadLimit
            && h.own.Keys <= u && Loose(u - h.own.Keys)
  {
  }

  lemma LooseFacts(s: set<Elm>)
    ensures Loose(s) <==> forall e | e in s :: e.next == null
  {
  }

  method InsertStep(h: Table, elm: Elm, mallocOk: bool, reallocOk: bool, ghost u: set<Elm>)
    requires Ready(h, u) && elm in u && Spacious(h, mallocOk, reallocOk) && elm !in h.own
             && forall e | e in h.own :: !h.eqfn(e.key, elm.key)
    modifies h, h.table, u
    ensures Ready(h, u) && h.own.Keys == old(h.own.Keys) + {elm}
    ensures -1 <= old(h.primeIdx) <= LAST
              && h.primeIdx == NextIdx(old(h.primeIdx), |old(h.own.Keys)|, mallocOk || reallocOk)
    ensures h.table == old(h.table) || fresh(h.table)
  {
    hide *;
    Standing(h, u);
    SpaciousFacts(h, mallocOk, reallocOk);
    LooseFacts(u - h.own.Keys);
    h.Insert(elm, mallocOk, reallocOk);
    LooseFacts(u - h.own.Keys);
    Standing(h, u);
  }

  /** Which of u are outside the table after elm has taken the place of its match. */
  lemma ReplaceLeaves(u: set<Elm>, s: set<Elm>, matches: set<Elm>, elm: Elm, r: Elm?, after: set<Elm>)
    requires s <= u && elm in u && elm !in s && matches <= s
    requires after == s - matches + {elm} && matches - {elm} == if r == null then {} else {r}
    ensures after <= u && matches == if r == null then {} else {r}
    ensures forall e | e in u - after :: (e in u - s && e != elm) || e == r
    ensures r == null ==> |after| == |s| + 1
  {
    assert matches - {elm} == matches;
    assert r == null ==> after == s + {elm};
  }

  method ReplaceStep(h: Table, elm: Elm, mallocOk: bool, reallocOk: bool, ghost u: set<Elm>) returns (r: Elm?)
    requires Ready(h, u) && elm in u && elm !in h.own && Spacious(h, mallocOk, reallocOk)
    modifies h, h.table, u
    ensures Ready(h, u) && h.own.Keys == old(h.own.Keys) - old(h.Matches(h.own.Keys, elm)) + {elm}
    ensures old(h.Matches(h.own.Keys, elm)) == if r == null then {} else {r}
    ensures -1 <= old(h.primeIdx) <= LAST
              && h.primeIdx == NextIdx(old(h.primeIdx), |old(h.own.Keys)|, mallocOk || reallocOk)
    ensures h.table == old(h.table) || fresh(h.table)
  {
    hide *;
    Standing(h, u);
    SpaciousFacts(h, mallocOk, reallocOk);
    NoneMatch(h, h.own.Keys, elm);
    LooseFacts(u - h.own.Keys);
    ghost var s, matches := h.own.Keys, h.Matches(h.own.Keys, elm);
    r := h.Replace(elm, mallocOk, reallocOk);
    ReplaceLeaves(u, s, matches, elm, r, h.own.Keys);
    LooseFacts(u - h.own.Keys);
    Standing(h, u);
  }

  method RemoveStep(h: Table, elm: Elm, ghost u: set<Elm>) returns (r: Elm?)
    requires Ready(h, u) && elm in u
    modifies h, h.table, u
    ensures Ready(h, u) && h.own.Keys == old(h.own.Keys) - old(h.Matches(h.own.Keys, elm))
    ensures old(h.Matches(h.own.Keys, elm)) == if r == null then {} else {r}
    ensures h.table == old(h.table) && h.primeIdx == old(h.primeIdx)
  {
    hide *;
    Standing(h, u);
    NoneMatch(h, h.own.Keys, elm);
    LooseFacts(u - h.own.Keys);
    r := h.Remove(elm);
    LooseFacts(u - h.own.Keys);
    Standing(h, u);
  }

  method FindStep(h: Table, elm: Elm, ghost u: set<Elm>) returns (r: Elm?)
    requires Ready(h, u) && elm in u
    modifies u
    ensures Ready(h, u) && h.own.Keys == old(h.own.Keys)
    ensures h.Matches(h.own.Keys, elm) == if r == null then {} else {r}
  {
    hide *;
    Standing(h, u);
    LooseFacts(u - h.own.Keys);
    r := h.Find(elm);
    LooseFacts(u - h.own.Keys);
    h.MatchesAre(elm, r);
    Standing(h, u);
  }

  method GrowStep(h: Table, size: nat, mallocOk: bool, reallocOk: bool, ghost u: set<Elm>)
    requires Ready(h, u) && size < LoadLimit(PRIMES[LAST])
    modifies h, h.table, u
    ensures Ready(h, u) && h.own.Keys == old(h.own.Keys)
    ensures -1 <= old(h.primeIdx) <= LAST
    ensures h.primeIdx == if mallocOk || reallocOk then Fitting(old(h.primeIdx), size) else old(h.primeIdx)
    ensures h.table == old(h.table) || fresh(h.table)
  {
    hide h.Linkage, LoadLimit, Ready, Loose;
    Standing(h, u);
    LooseFacts(u - h.own.Keys);
    var grown := h.Grow(size, mallocOk, reallocOk);
    LooseFacts(u - h.own.Keys);
    Standing(h, u);
  }

  /** Any call that keeps to the rules leaves the table in good order, does to the set of its
      elements what the call is for, and returns the right element. */
  method Step(h: Table, call: Call, ghost u: set<Elm>) returns (r: Elm?)
    requires Ready(h, u) && Legal(h, StateOf(h), call) && Argument(call) <= u
    modifies h, h.table, u
    ensures Ready(h, u) && StateOf(h) == After(h, old(StateOf(h)), call)
    ensures Answers(h, old(h.own.Keys), call, r)
    ensures h.table == old(h.table) || fresh(h.table)
  {
    hide Ready, h.Matches;
    r := null;
    match call {
      case Find(elm) =>
        r := FindStep(h, elm, u);
      case Insert(elm, mallocOk, reallocOk) =>
        RoomBelowLast(h, u, mallocOk, reallocOk);
        NoneMatch(h, h.own.Keys, elm);
        InsertStep(h, elm, mallocOk, reallocOk, u);
      case Replace(elm, mallocOk, reallocOk) =>
        RoomBelowLast(h, u, mallocOk, reallocOk);
        r := ReplaceStep(h, elm, mallocOk, reallocOk, u);
      case Remove(elm) =>
        r := RemoveStep(h, elm, u);
      case Grow(size, mallocOk, reallocOk) =>
        GrowStep(h, size, mallocOk, reallocOk, u);
    }
  }

  lemma ReadyIsGood(h: Table, u: set<Elm>)
    requires Ready(h, u)
    ensures h.Linkage() && h.Good() && h.nEntries == |h.own.Keys|
  {
  }

  lemma AfterInRange(h: Table, st: State, call: Call)
    requires -1 <= st.idx <= LAST
    ensures -1 <= After(h, st, call).idx <= LAST
  {
  }

  /** The state after the first n calls. */
  ghost function StateAfter(h: Table, st: State, calls: seq<Call>, n: nat): (r: State)
    requires n <= |calls| && -1 <= st.idx <= LAST
    ensures -1 <= r.idx <= LAST
  {
    if n == 0 then st else
      var before := StateAfter(h, st, calls, n - 1);
      AfterInRange(h, before, calls[n - 1]);
      After(h, before, calls[n - 1])
  }

  /** Every call keeps to the rules when its turn comes. */
  ghost predicate LegalRun(h: Table, st: State, calls: seq<Call>) {
    -1 <= st.idx <= LAST && forall n: nat | n < |calls| :: Legal(h, StateAfter(h, st, calls, n), calls[n])
  }

  /** Every sequence of calls on a new table behaves as a finite set keyed by eqfn, its number of
      buckets is the one that the growth rule gives, and at the end, as after every call,
      HT_REP_IS_BAD_ finds nothing wrong. */
  method Run(h: Table, calls: seq<Call>, ghost u: set<Elm>) returns (results: seq<Elm?>, bad: nat)
    requires Ready(h, u) && LegalRun(h, StateOf(h), calls) && forall n: nat | n < |calls| :: Argument(calls[n]) <= u
    modifies h, h.table, u
    ensures Ready(h, u) && StateOf(h) == StateAfter(h, old(StateOf(h)), calls, |calls|)
    ensures |results| == |calls|
    ensures forall n: nat | n < |calls| ::
              Answers(h, StateAfter(h, old(StateOf(h)), calls, n).elms, calls[n], results[n])
    ensures h.nEntries == |h.own.Keys| && bad == 0
  {
    hide Ready, h.Matches, h.Linkage, h.Good, Legal, Answers, After, Argument, HashIteration.CheckPasses;
    results := [];
    ghost var st := StateOf(h);
    for n := 0 to |calls|
      invariant Ready(h, u) && StateOf(h) == StateAfter(h, st, calls, n)
      invariant |results| == n
      invariant forall k: nat | k < n :: Answers(h, StateAfter(h, st, calls, k).elms, calls[k], results[k])
      invariant h.table == old(h.table) || fresh(h.table)
    {
      var r := Step(h, calls[n], u);
      results := results + [r];
    }
    ReadyIsGood(h, u);
    HashIteration.GoodPasses(h);
    bad := HashIteration.RepIsBad(h);
  }

  /** The condition for an exact count can fail: an element that replaces itself is counted twice,
      and HT_REP_IS_BAD_ notices. */
  method CountedTwice(hashfn: Key -> nat, eqfn: (Key, Key) -> bool, key: Key) returns (h: Table, elm: Elm, bad: nat)
    requires Lawful(hashfn, eqfn)
    ensures h.own.Keys == {elm} && h.nEntries == 2 && bad != 0
  {
    hide HashIteration.CheckPasses, h.Linkage, Lawful;
    h := new Table(hashfn, eqfn);
    elm := new Elm(key);
    h.Insert(elm, true, true);
    h.EqualToSelf(elm);
    var r := h.Replace(elm, true, true);
    HashIteration.GoodPasses(h);
    bad := HashIteration.RepIsBad(h);
  }
}
