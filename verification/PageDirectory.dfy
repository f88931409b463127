/** pdir_lookup of src/common/OpenBSD_malloc_Linux.c: the search in the list of directory pages
    that starts from one of two remembered positions. */
module PageDirectory {

  const WORD: nat := 0x1_0000_0000_0000_0000

  /** struct pdinfo; index stands for PD_IDX(dirnum). */
  class Dir {
    const index: nat
    var prev: Dir?
    var next: Dir?

    constructor (index: nat)
      ensures this.index == index && prev == null && next == null
    {
      this.index, prev, next := index, null, null;
    }
  }

  function NodeAt(s: seq<Dir>, i: int): Dir? {
    if 0 <= i < |s| then s[i] else null
  }

  /** The doubly linked list, in strictly ascending order. */
  ghost predicate Listed(s: seq<Dir>)
    reads s
  {
    && s != []
    && (forall i: nat {:trigger s[i].next} | i < |s| :: s[i].next == NodeAt(s, i + 1))
    && (forall i: nat {:trigger s[i].prev} | i < |s| :: s[i].prev == NodeAt(s, i - 1))
    && (forall i: nat, k: nat | i < k < |s| :: s[i].index < s[k].index)
  }

  /** What every lookup should find: the last page that is not above the target, or the first
      page if all are. */
  ghost predicate Finds(s: seq<Dir>, target: nat, k: nat) {
    && k < |s|
    && (forall i | k < i < |s| :: target < s[i].index)
    && (k > 0 ==> s[k].index <= target)
  }

  lemma FindsOne(s: seq<Dir>, target: nat, k: nat, m: nat)
    requires Listed(s) && Finds(s, target, k) && Finds(s, target, m)
    ensures k == m
  {
  }

  /** The comparison of the distances to last_dir and prev_dir.  The conditional operator binds
      weaker than the comparison, so that what is compared is not the two distances. */
  function Nearer(last: nat, prev: nat, target: nat): nat {
    if last > target then last - target
    else if target - last < (if prev > target then 1 else 0) then prev - target
    else (WORD + target - prev) % WORD
  }

  /** Where it is evaluated, the test always favours last_dir: it never compares distances. */
  lemma NearerAlwaysLast(last: nat, prev: nat, target: nat)
    requires last < WORD && prev < WORD && target < WORD && last != target && prev != target
    ensures Nearer(last, prev, target) != 0
  {
  }

  /** -1, 0 or 1, as the page found lies before, at or after the target. */
  function Sign(index: nat, target: nat): int {
    if index == target then 0 else if index > target then 1 else -1
  }

  /** From a page above the target, back to the last one that is not above it. */
  method Back(start: Dir, target: nat, ghost s: seq<Dir>, ghost k: nat) returns (pdi: Dir, ghost m: nat)
    requires Listed(s) && k < |s| && s[k] == start && start.index > target
    ensures Finds(s, target, m) && s[m] == pdi
  {
    pdi, m := start, k;
    var spi := pdi.prev;
    while spi != null && spi.index > target
      invariant m < |s| && pdi == s[m] && spi == NodeAt(s, m - 1) && pdi.index > target
      decreases m
    {
      pdi, m := spi, m - 1;
      spi := spi.prev;
    }
    if spi != null {
      pdi, m := spi, m - 1;
    }
  }

  /** From a page that is not above the target, or from the first one, forward. */
  method Forward(start: Dir, first: Dir?, target: nat, ghost s: seq<Dir>, ghost k: nat) returns (pdi: Dir, ghost m: nat)
    requires Listed(s) && k < |s| && s[k] == start
    requires first == start.next && (k == 0 || start.index <= target)
    ensures Finds(s, target, m) && s[m] == pdi
  {
    pdi, m := start, k;
    var spi := first;
    while spi != null && spi.index <= target
      invariant m < |s| && pdi == s[m] && spi == NodeAt(s, m + 1) && (m == 0 || pdi.index <= target)
      decreases |s| - m
    {
      pdi, m := spi, m + 1;
      spi := spi.next;
    }
  }

  /** pdir_lookup.  Whatever pages of the list last_dir and prev_dir remember, the answer is the
      one of a scan from the first page. */
  method Lookup(head: Dir, lastDir: Dir?, prevDir: Dir?, target: nat, ghost s: seq<Dir>)
    returns (pdi: Dir, sign: int, ghost k: nat)
    requires Listed(s) && s[0] == head
    requires lastDir != null ==> lastDir in s
    requires prevDir != null ==> prevDir in s
    requires target < WORD && forall d | d in s :: d.index < WORD
    ensures Finds(s, target, k) && pdi == s[k]
    ensures sign == Sign(pdi.index, target)
    ensures sign == 0 <==> exists d :: d in s && d.index == target
    ensures sign == 1 <==> forall d | d in s :: d.index > target
  {
    if lastDir != null && lastDir.index == target {
      pdi := lastDir;
      k :| 0 <= k < |s| && s[k] == pdi;
    } else if prevDir != null && prevDir.index == target {
      pdi := prevDir;
      k :| 0 <= k < |s| && s[k] == pdi;
    } else if lastDir != null && prevDir != null {
      if Nearer(lastDir.index, prevDir.index, target) != 0 {
        pdi := lastDir;
      } else {
        pdi := prevDir;
      }
      k :| 0 <= k < |s| && s[k] == pdi;
      if pdi.index > target {
        pdi, k := Back(pdi, target, s, k);
      } else {
        pdi, k := Forward(pdi, pdi.next, target, s, k);
      }
    } else {
      pdi, k := ForwardFromHead(head, target, s);
    }
    sign := Sign(pdi.index, target);
  }

  /** The last branch, whose loop starts at the first page itself. */
  method ForwardFromHead(head: Dir, target: nat, ghost s: seq<Dir>) returns (pdi: Dir, ghost m: nat)
    requires Listed(s) && s[0] == head
    ensures Finds(s, target, m) && s[m] == pdi
  {
    pdi, m := head, 0;
    var spi: Dir? := pdi;
    ghost var n: nat := 0;
    while spi != null && spi.index <= target
      invariant n <= |s| && m == (if n == 0 then 0 else n - 1) && m < |s| && pdi == s[m] && spi == NodeAt(s, n)
      invariant n > 0 ==> pdi.index <= target
      decreases |s| - n
    {
      pdi, m := spi, n;
      spi, n := spi.next, n + 1;
    }
  }
}
