/** The hash table that HT_PROTOTYPE and HT_GENERATE (src/common/ht.h, second copy) expand to,
    as a finite set of entries keyed by eqfn. */
module HashTable {
  import opened HashChains
  import opened Sequences
  import opened Wrappers

  const PRIMES: seq<nat> := [
    53, 97, 193, 389,
    769, 1543, 3079, 6151,
    12289, 24593, 49157, 98317,
    196613, 393241, 786433, 1572869,
    3145739, 6291469, 12582917, 25165843,
    50331653, 100663319, 201326611, 402653189,
    805306457, 1610612741
  ]

  const LAST: nat := |PRIMES| - 1

  /** (unsigned)(load*len) for the load 0.6 that every table of the program uses. */
  function LoadLimit(len: nat): nat {
    len * 6 / 10
  }

  /** Six tenths of the length, rounded down. */
  lemma LoadLimitIs(len: nat, limit: nat)
    ensures limit == LoadLimit(len) <==> 10 * limit <= 6 * len < 10 * (limit + 1)
  {
  }

  /** The least prime above index idx whose load limit exceeds size; None when the loop would
      read past the end of the prime list. */
  method ChoosePrime(idx: int, size: nat) returns (r: Option<nat>)
    requires -1 <= idx < LAST
    ensures r.Some? ==> idx < r.value <= LAST < |PRIMES| && LoadLimit(PRIMES[r.value]) > size
    ensures r.Some? ==> forall j | idx < j < r.value :: LoadLimit(PRIMES[j]) <= size
    ensures r.Some? ==> PRIMES[r.value] > 0 && (0 <= idx ==> PRIMES[r.value] > PRIMES[idx])
    ensures r.None? <==> LoadLimit(PRIMES[LAST]) <= size
  {
    var primeIdx := idx + 1;
    while LoadLimit(PRIMES[primeIdx]) <= size
      invariant idx < primeIdx <= LAST
      invariant forall j | idx < j < primeIdx :: LoadLimit(PRIMES[j]) <= size
      decreases LAST - primeIdx
    {
      if primeIdx == LAST {
        return None;
      }
      primeIdx := primeIdx + 1;
    }
    r := Some(primeIdx);
    if 0 <= idx {
      LimitsGrow(idx, primeIdx);
    }
    if primeIdx < LAST {
      LimitsGrow(primeIdx, LAST);
    }
  }

  /** A size for which the loop runs off the prime list. */
  method RunOffPrimes() returns (r: Option<nat>)
    ensures r.None?
  {
    LastLimit();
    r := ChoosePrime(-1, 966_367_644);
  }

  lemma LastLimit()
    ensures LoadLimit(PRIMES[LAST]) == 966_367_644 < 0x1_0000_0000
  {
  }

  lemma LimitsGrow(i: nat, j: nat)
    requires i < j <= LAST
    ensures LoadLimit(PRIMES[i]) + 1 < LoadLimit(PRIMES[j])
    decreases j
  {
    if i + 1 < j {
      LimitsGrow(i, j - 1);
    }
  }

  /** The load limit that goes with a prime; zero before there is a table. */
  function Limit(idx: int): nat
    requires -1 <= idx <= LAST
  {
    if idx == -1 then 0 else LoadLimit(PRIMES[idx])
  }

  /** Where HT_GROW ends up from prime idx when it has memory: at the first prime with room for more
      than size, or the last one. */
  function Fitting(idx: int, size: nat): (j: int)
    requires -1 <= idx <= LAST
    ensures idx <= j <= LAST
    decreases LAST - idx
  {
    if idx == LAST || Limit(idx) > size then idx else Fitting(idx + 1, size)
  }

  lemma {:induction false} FittingIs(idx: int, size: nat, j: int)
    requires -1 <= idx <= j <= LAST && Limit(j) > size && forall i | idx <= i < j :: Limit(i) <= size
    ensures Fitting(idx, size) == j
    decreases j - idx
  {
    hide Limit;
    if idx < j {
      FittingIs(idx + 1, size, j);
    }
  }

  /** The prime after the growing prologue of HT_INSERT and HT_REPLACE. */
  function NextIdx(idx: int, nEntries: nat, memory: bool): int
    requires -1 <= idx <= LAST
  {
    if nEntries >= Limit(idx) && memory then Fitting(idx, nEntries + 1) else idx
  }

  /** hashfn of every entry. */
  ghost function KeyHash(s: set<Elm>, hashfn: Key -> nat): map<Elm, nat> {
    map e | e in s :: hashfn(e.key)
  }

  /** What HT_GENERATE's callers promise of hashfn and eqfn. */
  ghost predicate Lawful(hashfn: Key -> nat, eqfn: (Key, Key) -> bool) {
    && (forall x :: eqfn(x, x))
    && (forall x, y :: eqfn(x, y) ==> eqfn(y, x) && hashfn(x) == hashfn(y))
    && (forall x, y, z :: eqfn(x, y) && eqfn(y, z) ==> eqfn(x, z))
  }

  /** No two entries have equal keys. */
  ghost predicate Keyed(s: set<Elm>, eqfn: (Key, Key) -> bool) {
    forall e, f | e in s && f in s && eqfn(e.key, f.key) :: e == f
  }

  /** Distinct keys, right cached hashes, right buckets. */
  ghost predicate Entries(own: map<Elm, nat>, hashfn: Key -> nat, eqfn: (Key, Key) -> bool, len: nat)
    reads own.Keys`hash
  {
    && 0 < len && Keyed(own.Keys, eqfn)
    && forall e | e in own :: e.hash == hashfn(e.key) && own[e] == e.hash % len
  }

  lemma HashesEntries(own: map<Elm, nat>, hashfn: Key -> nat, eqfn: (Key, Key) -> bool, len: nat)
    requires Hashes(KeyHash(own.Keys, hashfn)) && Targets(own, KeyHash(own.Keys, hashfn), len)
    requires Keyed(own.Keys, eqfn)
    ensures Entries(own, hashfn, eqfn, len)
  {
    var h := KeyHash(own.Keys, hashfn);
    assert forall e | e in own :: e in h;
  }

  lemma EntriesAdd(own: map<Elm, nat>, hashfn: Key -> nat, eqfn: (Key, Key) -> bool, len: nat, elm: Elm)
    requires Entries(own, hashfn, eqfn, len) && Lawful(hashfn, eqfn)
    requires elm.hash == hashfn(elm.key) && forall e | e in own :: !eqfn(e.key, elm.key)
    ensures Entries(own[elm := elm.hash % len], hashfn, eqfn, len)
  {
  }

  lemma EntriesRemove(own: map<Elm, nat>, hashfn: Key -> nat, eqfn: (Key, Key) -> bool, len: nat, r: Elm)
    requires Entries(own, hashfn, eqfn, len)
    ensures Entries(own - {r}, hashfn, eqfn, len)
  {
  }

  datatype GrowResult = Ok | NoMemory | PastPrimes

  class Table {
    const hashfn: Key -> nat
    const eqfn: (Key, Key) -> bool
    var table: array?<Elm?>
    var tableLength: nat
    var nEntries: int
    var loadLimit: nat
    var primeIdx: int
    ghost var cs: seq<Chain>
    ghost var own: map<Elm, nat>

    /** The size fields agree with each other and with the macro parameters. */
    ghost predicate Sized()
      reads `table, `tableLength, `loadLimit, `primeIdx
    {
      && Lawful(hashfn, eqfn)
      && (if table == null then tableLength == 0 && loadLimit == 0 && primeIdx == -1
          else && 0 <= primeIdx <= LAST && tableLength == table.Length == PRIMES[primeIdx] > 0
               && loadLimit == LoadLimit(tableLength))
    }

    /** Everything but the entry count. */
    ghost predicate Linkage()
      reads `table, `tableLength, `loadLimit, `primeIdx, `cs, `own, table, own.Keys
    {
      && Sized()
      && (if table == null then cs == [] && own == map[]
          else Holds(table, cs, own) && Entries(own, hashfn, eqfn, tableLength))
    }

    /** A table that is large enough, or as large as can be, keeps its prime. */
    lemma Stays(idx: int, limit: nat, size: nat)
      requires -1 <= idx <= LAST && limit == Limit(idx)
      ensures idx == LAST || limit > size ==> Fitting(idx, size) == idx
    {
    }

    lemma Chosen(idx: int, limit: nat, size: nat, j: nat)
      requires -1 <= idx < j <= LAST && limit == Limit(idx) <= size && LoadLimit(PRIMES[j]) > size
      requires forall i | idx < i < j :: LoadLimit(PRIMES[i]) <= size
      ensures Fitting(idx, size) == j
    {
      hide Fitting, LoadLimit;
      FittingIs(idx, size, j);
    }

    lemma Parts()
      requires Linkage()
      ensures -1 <= primeIdx <= LAST && loadLimit == Limit(primeIdx) && (table == null <==> primeIdx == -1)
      ensures Sized() && Lawful(hashfn, eqfn) && -1 <= primeIdx <= LAST
      ensures tableLength == if primeIdx == -1 then 0 else PRIMES[primeIdx]
      ensures if table == null then own == map[] && cs == []
              else
                && tableLength == table.Length == |cs| > 0
                && Holds(table, cs, own) && Entries(own, hashfn, eqfn, tableLength)
    {
    }

    ghost method Relink(ncs: seq<Chain>, nown: map<Elm, nat>)
      requires table != null && Sized() && Holds(table, ncs, nown) && Entries(nown, hashfn, eqfn, tableLength)
      modifies this`cs, this`own
      ensures Linkage() && cs == ncs && own == nown
    {
      cs, own := ncs, nown;
    }

    /** The count is the number of elements. */
    ghost predicate Valid()
      reads this, table, own.Keys
    {
      Linkage() && nEntries == |own.Keys|
    }

    /** Nor is the table loaded beyond its limit. */
    ghost predicate Good()
      reads this, table, own.Keys
    {
      Valid() && nEntries <= loadLimit
    }

    constructor (hashfn: Key -> nat, eqfn: (Key, Key) -> bool)
      requires Lawful(hashfn, eqfn)
      ensures Good() && own == map[] && table == null
      ensures this.hashfn == hashfn && this.eqfn == eqfn
    {
      this.hashfn, this.eqfn := hashfn, eqfn;
      table, tableLength, nEntries, loadLimit, primeIdx := null, 0, 0, 0, -1;
      cs, own := [], map[];
    }

    /** HT_GROW: make room for more than `size` entries.  `mallocOk` and `reallocOk` are the
        answers of the allocator. */
    method Grow(size: nat, mallocOk: bool, reallocOk: bool) returns (r: GrowResult)
      requires Linkage()
      modifies this, table, own.Keys`next
      ensures Linkage() && own.Keys == old(own.Keys) && nEntries == old(nEntries) && old(loadLimit) <= loadLimit
      ensures var noop := old(primeIdx) == LAST || old(loadLimit) > size;
              && (r == PastPrimes <==> !noop && LoadLimit(PRIMES[LAST]) <= size)
              && (r == NoMemory <==> !noop && LoadLimit(PRIMES[LAST]) > size && !mallocOk && !reallocOk)
              && (r != Ok || noop ==>
                 table == old(table) && primeIdx == old(primeIdx) && loadLimit == old(loadLimit) && cs == old(cs))
              && (r == Ok && !noop ==> table != null && fresh(table) && loadLimit > size && old(primeIdx) < primeIdx)
      ensures -1 <= old(primeIdx) <= LAST && primeIdx == if r == Ok then Fitting(old(primeIdx), size) else old(primeIdx)
    {
      hide *;
      Parts();
      Stays(primeIdx, loadLimit, size);
      if primeIdx == LAST || loadLimit > size {
        return Ok;
      }
      var idx := ChoosePrime(primeIdx, size);
      if idx.None? {
        return PastPrimes;
      }
      if !mallocOk && !reallocOk {
        return NoMemory;
      }
      Chosen(primeIdx, loadLimit, size, idx.value);
      var u;
      ghost var ncs, nown;
      u, ncs, nown := Rehash(PRIMES[idx.value], mallocOk);
      Resize(u, idx.value);
      Relink(ncs, nown);
      r := Ok;
    }

    /** ht.h:758-762. */
    method Resize(u: array<Elm?>, idx: nat)
      requires Lawful(hashfn, eqfn) && idx <= LAST && u.Length == PRIMES[idx] > 0
      modifies this`table, this`tableLength, this`primeIdx, this`loadLimit
      ensures Sized() && table == u && primeIdx == idx && loadLimit == LoadLimit(PRIMES[idx])
    {
      table, tableLength, primeIdx, loadLimit := u, u.Length, idx, LoadLimit(u.Length);
    }

    /** A table of newLen buckets with the present entries (ht.h:721-759). */
    method Rehash(newLen: nat, mallocOk: bool)
      returns (u: array<Elm?>, ghost ncs: seq<Chain>, ghost nown: map<Elm, nat>)
      requires Linkage() && tableLength < newLen
      modifies own.Keys`next
      ensures fresh(u) && u.Length == newLen && nown.Keys == own.Keys
      ensures Lawful(hashfn, eqfn) && Holds(u, ncs, nown) && Entries(nown, hashfn, eqfn, newLen)
    {
      hide Holds, Hashes, Targets, Keyed, Lawful, PlacedAll, Entries, KeyHash;
      NoDuplicates();
      u := new Elm?[newLen](_ => null);
      ghost var h := KeyHash(own.Keys, hashfn);
      ncs, nown := seq(newLen, _ => []), map[];
      EmptyHolds(u, ncs, h);
      if table == null {
        NoHashes(h);
        assert nown.Keys == own.Keys;
      } else if mallocOk {
        ncs, nown := RehashFresh(table, u, cs, own, h);
      } else {
        forall b | 0 <= b < table.Length {
          u[b] := table[b];
        }
        WidenHolds(table, u, cs, own);
        ncs := cs + seq(newLen - tableLength, _ => []);
        ncs, nown := RehashInPlace(u, tableLength, ncs, own, h);
      }
      HashesEntries(nown, hashfn, eqfn, newLen);
    }

    lemma NoDuplicates()
      requires Linkage()
      ensures Keyed(own.Keys, eqfn) && KeyHash(own.Keys, hashfn).Keys == own.Keys
      ensures Hashes(KeyHash(own.Keys, hashfn))
    {
    }

    /** Which elements each bucket has follows from the set of elements and the number of buckets
        alone, and so does not depend on the branch that HT_GROW took. */
    lemma BucketsAre()
      requires Linkage() && table != null
      ensures |cs| == tableLength && Spread(cs, KeyHash(own.Keys, hashfn))
    {
      NoDuplicates();
      TargetsSpread(cs, own, KeyHash(own.Keys, hashfn));
    }

    /** HT_SET_HASH_: cache the hash of elm, which may or may not be in the table. */
    method SetHash(elm: Elm)
      requires Linkage()
      modifies elm`hash
      ensures Linkage() && elm.hash == hashfn(elm.key)
    {
      hide Holds, Keyed, Lawful;
      elm.hash := hashfn(elm.key);
    }

    /** Facts about the chains that Linkage() implies, for proofs that hide it. */
    lemma ChainFacts(b: nat, i: nat)
      requires Linkage() && table != null && b < tableLength
      ensures tableLength == table.Length == |cs| > 0
      ensures i < |cs[b]| ==> cs[b][i] in own && cs[b][i].hash == hashfn(cs[b][i].key)
      ensures i < |cs[b]| ==> own[cs[b][i]] == b == cs[b][i].hash % tableLength
      ensures i <= |cs[b]| ==>
                Deref(table, if i == 0 then Slot(b) else After(cs[b][i - 1])) == if i < |cs[b]| then cs[b][i] else null
    {
      NoDuplicates();
      EntryAt(table, cs, own, KeyHash(own.Keys, hashfn), b, i);
    }

    /** If nothing in its bucket matches a key, nothing in the table does. */
    lemma NoMatch(key: Key)
      requires Linkage() && table != null
      requires var b := hashfn(key) % tableLength;
               b < |cs| && forall k | 0 <= k < |cs[b]| :: !eqfn(cs[b][k].key, key)
      ensures forall e | e in own :: !eqfn(e.key, key)
    {
      forall e | e in own ensures !eqfn(e.key, key) {
        assert e in cs[own[e]];
      }
    }

    /** HT_FIND_P_: the pointer to the entry matching elm, or else the end of its bucket. */
    method FindP(elm: Elm) returns (p: Option<Link>, ghost b: nat, ghost i: nat)
      requires Linkage() && elm.hash == hashfn(elm.key)
      ensures p.None? <==> table == null
      ensures p.Some? ==>
                && b < tableLength == table.Length == |cs| && i <= |cs[b]|
                && p.value == (if i == 0 then Slot(b) else After(cs[b][i - 1])) && b == elm.hash % tableLength
                && (if i < |cs[b]| then eqfn(cs[b][i].key, elm.key) else forall e | e in own :: !eqfn(e.key, elm.key))
      ensures p.None? ==> own == map[]
    {
      hide *;
      b, i := 0, 0;
      Parts();
      if table == null {
        return None, b, i;
      }
      b := elm.hash % tableLength;
      var q := Slot(elm.hash % tableLength);
      ChainFacts(b, i);
      while Deref(table, q) != null
        invariant b < tableLength == table.Length == |cs| && i <= |cs[b]|
        invariant q == if i == 0 then Slot(b) else After(cs[b][i - 1])
        invariant Deref(table, q) == if i < |cs[b]| then cs[b][i] else null
        invariant forall k | 0 <= k < i :: !eqfn(cs[b][k].key, elm.key)
        decreases |cs[b]| - i
      {
        var e := Deref(table, q);
        if eqfn(e.key, elm.key) {
          return Some(q), b, i;
        }
        q, i := After(e), i + 1;
        ChainFacts(b, i);
      }
      NoMatch(elm.key);
      p := Some(q);
    }

    /** HT_FIND. */
    method Find(elm: Elm) returns (r: Elm?)
      requires Linkage()
      modifies elm`hash
      ensures Linkage()
      ensures r != null ==> r in own && eqfn(r.key, elm.key)
      ensures r == null <==> forall e | e in own :: !eqfn(e.key, elm.key)
    {
      hide Linkage, Deref;
      SetHash(elm);
      ghost var b, i;
      var p;
      p, b, i := FindP(elm);
      if p.None? {
        return null;
      }
      ChainFacts(b, i);
      r := Deref(table, p.value);
    }

    /** The caller of an inserting operation sees to it that the table can be indexed and that
        HT_GROW does not run off its prime list. */
    ghost predicate CanInsert(mallocOk: bool, reallocOk: bool)
      reads this
    {
      && (table != null || mallocOk || reallocOk)
      && (primeIdx == LAST || nEntries + 1 < LoadLimit(PRIMES[LAST]))
    }

    /** For a table in good order that means a table or memory for one: such a table never makes
        HT_GROW read past the prime list when it inserts. */
    lemma GoodCanInsert(mallocOk: bool, reallocOk: bool)
      requires Good()
      ensures CanInsert(mallocOk, reallocOk) <==> table != null || mallocOk || reallocOk
    {
      Parts();
      if 0 <= primeIdx < LAST {
        LimitsGrow(primeIdx, LAST);
      }
    }

    /** After the growing prologue there is room below the load limit: there was before, or a
        larger prime and memory for it are at hand. */
    ghost predicate RoomAhead(mallocOk: bool, reallocOk: bool)
      reads `nEntries, `loadLimit, `primeIdx
    {
      nEntries < loadLimit || ((mallocOk || reallocOk) && primeIdx < LAST)
    }

    /** The growing prologue of HT_INSERT and HT_REPLACE. */
    method EnsureRoom(mallocOk: bool, reallocOk: bool)
      requires Linkage() && 0 <= nEntries && CanInsert(mallocOk, reallocOk)
      modifies this, table, own.Keys`next
      ensures Linkage() && own.Keys == old(own.Keys) && nEntries == old(nEntries) && table != null
      ensures table == old(table) || fresh(table)
      ensures old(nEntries < loadLimit) ==> table == old(table)
      ensures nEntries < loadLimit <==> old(RoomAhead(mallocOk, reallocOk))
      ensures old(loadLimit) <= loadLimit && (nEntries >= loadLimit ==> loadLimit == old(loadLimit))
      ensures -1 <= old(primeIdx) <= LAST && primeIdx == NextIdx(old(primeIdx), nEntries, mallocOk || reallocOk)
    {
      hide Linkage, Sized, Holds, Entries, Lawful, Fitting, LoadLimit;
      Parts();
      Stays(primeIdx, loadLimit, nEntries + 1);
      var r := Ok;
      if table == null || nEntries >= loadLimit {
        r := Grow(nEntries + 1, mallocOk, reallocOk);
      }
    }

    /** HT_INSERT. */
    method Insert(elm: Elm, mallocOk: bool, reallocOk: bool)
      requires Linkage() && 0 <= nEntries && CanInsert(mallocOk, reallocOk)
      requires forall e | e in own :: !eqfn(e.key, elm.key)
      modifies this, table, own.Keys`next, elm
      ensures Linkage() && own.Keys == old(own.Keys) + {elm} && nEntries == old(nEntries) + 1
      ensures old(nEntries == |own.Keys|) ==> nEntries == |own.Keys|
      ensures nEntries <= loadLimit <==> old(RoomAhead(mallocOk, reallocOk))
      ensures table == old(table) || fresh(table)
      ensures old(nEntries < loadLimit) ==> table == old(table)
      ensures -1 <= old(primeIdx) <= LAST && primeIdx == NextIdx(old(primeIdx), old(nEntries), mallocOk || reallocOk)
    {
      hide *;
      EqualToSelf(elm);
      EnsureRoom(mallocOk, reallocOk);
      nEntries := nEntries + 1;
      LinkFirst(elm);
    }

    /** ht.h:565-568. */
    method LinkFirst(elm: Elm)
      requires Linkage() && table != null
      requires forall e | e in own :: !eqfn(e.key, elm.key)
      modifies table, elm, `cs, `own
      ensures Linkage() && own.Keys == old(own.Keys) + {elm}
    {
      hide *;
      EqualToSelf(elm);
      SetHash(elm);
      Parts();
      var b := elm.hash % tableLength;
      EntriesAdd(own, hashfn, eqfn, tableLength, elm);
      PushHolds(table, elm, b, cs, own);
      Relink(cs[b := [elm] + cs[b]], own[elm := b]);
    }

    lemma EqualToSelf(elm: Elm)
      requires Linkage()
      ensures eqfn(elm.key, elm.key) && (elm in own ==> elm in Matches(own.Keys, elm))
                && Matches(own.Keys, elm) <= own.Keys
    {
    }

    /** `*p = r->hte_next` for the entry r that p points at. */
    method UnlinkAt(p: Link, r: Elm, ghost b: nat, ghost i: nat)
      requires Linkage() && table != null && b < tableLength && b < |cs| && i < |cs[b]| && r == cs[b][i]
      requires p == if i == 0 then Slot(b) else After(cs[b][i - 1])
      modifies table, own.Keys`next, `cs, `own
      ensures Linkage() && r.next == old(r.next)
      ensures own == old(own) - {r} && cs == old(cs)[b := Without(old(cs)[b], i)]
    {
      hide *;
      Parts();
      EntriesRemove(own, hashfn, eqfn, tableLength, r);
      UnlinkHolds(table, p, r, cs, own, b, i);
      Relink(cs[b := Without(cs[b], i)], own - {r});
    }

    /** The entries that HT_FIND would find for elm: at most one, since keys are distinct. */
    ghost function Matches(entries: set<Elm>, elm: Elm): set<Elm> {
      set e | e in entries && eqfn(e.key, elm.key)
    }

    lemma MatchesAre(elm: Elm, r: Elm?)
      requires Linkage()
      requires if r == null then forall e | e in own :: !eqfn(e.key, elm.key) else r in own && eqfn(r.key, elm.key)
      ensures Matches(own.Keys, elm) == if r == null then {} else {r}
      ensures elm in own ==> r == elm
    {
      if r != null {
        assert forall e | e in Matches(own.Keys, elm) :: eqfn(e.key, r.key);
      }
    }

    /** HT_REMOVE. */
    method Remove(elm: Elm) returns (r: Elm?)
      requires Linkage()
      modifies table, own.Keys`next, elm`hash, `cs, `own, `nEntries
      ensures Linkage()
      ensures old(Matches(own.Keys, elm)) == (if r == null then {} else {r})
      ensures own.Keys == old(own.Keys) - old(Matches(own.Keys, elm))
      ensures nEntries == old(nEntries) - |old(Matches(own.Keys, elm))|
      ensures old(nEntries == |own.Keys|) ==> nEntries == |own.Keys|
      ensures r != null ==> r.next == null
    {
      hide *;
      SetHash(elm);
      ghost var b, i;
      var p;
      p, b, i := FindP(elm);
      if p.None? {
        MatchesAre(elm, null);
        return null;
      }
      ChainFacts(b, i);
      r := Deref(table, p.value);
      MatchesAre(elm, r);
      if r != null {
        UnlinkAt(p.value, r, b, i);
        ClearNext(r);
        nEntries := nEntries - 1;
      }
    }

    /** An entry that has left the table may change its link. */
    method ClearNext(r: Elm)
      requires Linkage() && r !in own
      modifies r`next
      ensures Linkage() && r.next == null
    {
      hide Entries, Lawful;
      r.next := null;
    }

    /** HT_REPLACE.  Its else branch also counts an entry that replaces itself: the count stays
        exact just when the element was not in the table before. */
    method Replace(elm: Elm, mallocOk: bool, reallocOk: bool) returns (r: Elm?)
      requires Linkage() && 0 <= nEntries && CanInsert(mallocOk, reallocOk)
      requires elm.next == null || Matches(own.Keys, elm) != {}
      modifies this, table, own.Keys, elm
      ensures Linkage()
      ensures own.Keys == old(own.Keys) - old(Matches(own.Keys, elm)) + {elm}
      ensures old(Matches(own.Keys, elm)) - {elm} == if r == null then {} else {r}
      ensures nEntries == old(nEntries) + if r == null then 1 else 0
      ensures old(nEntries == |own.Keys|) ==> (nEntries == |own.Keys| <==> elm !in old(own.Keys))
      ensures nEntries <= loadLimit <==>
                old(RoomAhead(mallocOk, reallocOk)) || (r != null && old(nEntries <= loadLimit))
      ensures r != null ==> r.next == null
      ensures table == old(table) || fresh(table)
      ensures old(nEntries < loadLimit) ==> table == old(table)
      ensures -1 <= old(primeIdx) <= LAST && primeIdx == NextIdx(old(primeIdx), old(nEntries), mallocOk || reallocOk)
    {
      hide *;
      EqualToSelf(elm);
      ghost var before, matches := own.Keys, Matches(own.Keys, elm);
      EnsureRoom(mallocOk, reallocOk);
      r := LinkInPlace(elm);
      Swapped(before, matches, r, elm, own.Keys);
      if r == null {
        nEntries := nEntries + 1;
      }
    }

    /** ht.h:579-586, with the old entry as result only if it is not elm itself. */
    method LinkInPlace(elm: Elm) returns (r: Elm?)
      requires Linkage() && table != null
      requires elm.next == null || Matches(own.Keys, elm) != {}
      modifies table, own.Keys, elm, `cs, `own
      ensures Linkage()
      ensures own.Keys == old(own.Keys) - old(Matches(own.Keys, elm)) + {elm}
      ensures old(Matches(own.Keys, elm)) - {elm} == if r == null then {} else {r}
      ensures elm in old(own.Keys) ==> r == null
      ensures r != null ==> r.next == null
    {
      hide *;
      SetHash(elm);
      ghost var b, i;
      var p;
      p, b, i := FindP(elm);
      ChainFacts(b, i);
      r := Deref(table, p.value);
      MatchesAre(elm, r);
      if r == elm {
        return null;
      }
      r := PutIn(p.value, elm, b, i);
    }

    method PutIn(p: Link, elm: Elm, ghost b: nat, ghost i: nat) returns (r: Elm?)
      requires Linkage() && table != null && b < tableLength && b < |cs| && i <= |cs[b]|
      requires p == if i == 0 then Slot(b) else After(cs[b][i - 1])
      requires elm !in own && elm.hash == hashfn(elm.key) && elm.hash % tableLength == b
      requires Matches(own.Keys, elm) == if i < |cs[b]| then {cs[b][i]} else {}
      requires i == |cs[b]| ==> elm.next == null
      modifies table, own.Keys`next, elm`next, `cs, `own
      ensures Linkage() && own.Keys == old(own.Keys) - old(Matches(own.Keys, elm)) + {elm}
      ensures r == if i < |old(cs)[b]| then old(cs)[b][i] else null
      ensures r != null ==> r.next == null
    {
      hide Holds, Entries, Lawful, Linkage, Put, Sized;
      Parts();
      if i < |cs[b]| {
        EntriesRemove(own, hashfn, eqfn, tableLength, cs[b][i]);
        EntriesAdd(own - {cs[b][i]}, hashfn, eqfn, tableLength, elm);
      } else {
        assert forall e | e in own :: e !in Matches(own.Keys, elm);
        EntriesAdd(own, hashfn, eqfn, tableLength, elm);
      }
      r := PutHolds(table, p, elm, cs, own, b, i);
      Relink(cs[b := Put(cs[b], i, elm)], PutOwn(own, cs[b], b, i, elm));
    }
  }

  /** How many entries there are after elm has taken the place of its match, if it has one. */
  lemma Swapped(before: set<Elm>, matches: set<Elm>, r: Elm?, elm: Elm, after: set<Elm>)
    requires matches <= before && after == before - matches + {elm}
    requires matches - {elm} == if r == null then {} else {r}
    requires elm in before ==> r == null && elm in matches
    ensures |after| == |before| + if r == null && elm !in before then 1 else 0
  {
    if r != null {
      assert matches == {r} && |before - {r}| == |before| - 1;
    } else {
      assert after == before + {elm};
    }
  }

  lemma NoHashes(h: map<Elm, nat>)
    requires h.Keys == {}
    ensures Hashes(h)
  {
  }

  /** The larger array that realloc gives back, its new part zeroed, holds the same chains. */
  lemma WidenHolds(t: array<Elm?>, u: array<Elm?>, cs: seq<Chain>, own: map<Elm, nat>)
    requires Holds(t, cs, own) && t.Length <= u.Length
    requires forall b | 0 <= b < u.Length :: u[b] == if b < t.Length then t[b] else null
    ensures |cs| == t.Length && Holds(u, cs + seq(u.Length - t.Length, _ => []), own)
  {
    var ncs := cs + seq(u.Length - t.Length, _ => []);
    forall b | 0 <= b < |ncs| ensures Linked(u[b], ncs[b]) {
      if b < |cs| {
        assert Linked(t[b], cs[b]);
      }
    }
  }
}
