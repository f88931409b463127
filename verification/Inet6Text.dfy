/** The printer of IPv6 addresses: tor_inet_ntop in src/common/compat.c. */
module Inet6Text {
  import opened Limits
  import opened Numerals
  import opened Inet4
  import opened Wrappers

  type Word = n: nat | n < 65536

  datatype Family = Inet | Inet6 | OtherFamily

  /** The address as eight 16-bit words in host order. */
  function Words(a: seq<Octet>): (w: seq<Word>)
    requires |a| == 16
    ensures |w| == 8
  {
    seq(8, i requires 0 <= i < 8 => Pair(a[2 * i], a[2 * i + 1]))
  }

  function Pair(high: Octet, low: Octet): Word {
    high * 256 + low
  }

  /** How many words from i on are zero. */
  function RunLength(w: seq<Word>, i: nat): (n: nat)
    requires i <= |w|
    ensures i + n <= |w| && (i + n < |w| ==> w[i + n] != 0)
    ensures forall j | i <= j < i + n :: w[j] == 0
    decreases |w| - i
  {
    if i < |w| && w[i] == 0 then 1 + RunLength(w, i + 1) else 0
  }

  lemma {:induction false} RunInside(w: seq<Word>, c: nat, j: nat)
    requires c <= j <= |w| && j <= c + RunLength(w, c)
    ensures RunLength(w, j) == c + RunLength(w, c) - j
    decreases j - c
  {
    if c < j {
      RunInside(w, c + 1, j);
    }
  }

  /** gap is the first of the longest runs of zeros, or -1 when none is longer than one. */
  ghost predicate IsGap(w: seq<Word>, gap: int)
    requires |w| == 8
  {
    && -1 <= gap < 8
    && (gap == -1 ==> forall i | 0 <= i < 8 :: RunLength(w, i) <= 1)
    && (gap >= 0 ==> RunLength(w, gap) > 1 && Best(w, 8, gap, RunLength(w, gap)))
  }

  /** No run that starts before i beats the one of length n at p. */
  ghost predicate Best(w: seq<Word>, i: nat, p: int, n: int)
    requires i <= |w|
  {
    forall j | 0 <= j < i :: RunLength(w, j) <= n && (j < p ==> RunLength(w, j) < n)
  }

  lemma GapIsUnique(w: seq<Word>, gap: int, other: int)
    requires |w| == 8 && IsGap(w, gap) && IsGap(w, other)
    ensures gap == other
  {
    assert gap >= 0 ==> RunLength(w, gap) > 1;
    assert other >= 0 ==> RunLength(w, other) > 1;
  }

  /** Addresses printed with a dotted tail. */
  predicate HasDottedTail(w: seq<Word>)
    requires |w| == 8
  {
    && w[0] == 0 && w[1] == 0 && w[2] == 0 && w[3] == 0 && w[4] == 0
    && ((w[5] == 0 && w[6] != 0 && w[7] != 0) || w[5] == 0xffff)
  }

  /** What stands for the word at i, or for the run at gap. */
  function Piece(w: seq<Word>, gap: int, i: nat): string
    requires |w| == 8 && i < 8
  {
    if i == gap then if i == 0 then "::" else ":"
    else if i == 7 then Numeral(w[i], 16)
    else Numeral(w[i], 16) + ":"
  }

  function Next(w: seq<Word>, gap: int, i: nat): (n: nat)
    requires |w| == 8 && i < 8 && (gap >= 0 ==> gap < 8 && RunLength(w, gap) > 1)
    ensures i < n <= 8
  {
    if i == gap then i + RunLength(w, i) else i + 1
  }

  /** The words from i on in text, with a double colon for the run at gap. */
  function Printed(w: seq<Word>, gap: int, i: nat): string
    requires |w| == 8 && i <= 8 && -1 <= gap < 8 && (gap >= 0 ==> RunLength(w, gap) > 1)
    decreases 8 - i
  {
    if i == 8 then ""
    else Piece(w, gap, i) + Printed(w, gap, Next(w, gap, i))
  }

  /** The text of an address whose gap is known. */
  function Text(a: seq<Octet>, gap: int): string
    requires |a| == 16 && -1 <= gap < 8 && (gap >= 0 ==> RunLength(Words(a), gap) > 1)
  {
    var w := Words(a);
    if HasDottedTail(w) then
      (if w[5] == 0 then "::" else "::" + Numeral(w[5], 16) + ":") + DottedText(a[12..])
    else
      Printed(w, gap, 0)
  }

  /** The first loop of tor_inet_ntop. */
  method FindGap(w: seq<Word>) returns (longestGapPos: int)
    requires |w| == 8
    ensures IsGap(w, longestGapPos)
  {
    hide RunLength, Best, IsGap;
    var longestGapLen, i := 0, 0;
    longestGapPos := -1;
    BestNone(w);
    while i < 8
      invariant 0 <= i <= 8 && Best(w, i, longestGapPos, longestGapLen)
      invariant if longestGapLen == 0 then longestGapPos == -1
                else 0 <= longestGapPos < i && RunLength(w, longestGapPos) == longestGapLen
    {
      if w[i] == 0 {
        var curGapPos, curGapLen := i, 1;
        RunStep(w, i);
        i := i + 1;
        while i < 8 && w[i] == 0
          invariant curGapPos < i <= 8 && curGapLen == i - curGapPos
          invariant RunLength(w, curGapPos) == curGapLen + RunLength(w, i)
        {
          RunStep(w, i);
          i, curGapLen := i + 1, curGapLen + 1;
        }
        RunStep(w, i);
        BestRun(w, curGapPos, longestGapPos, longestGapLen);
        if curGapLen > longestGapLen {
          longestGapPos, longestGapLen := curGapPos, curGapLen;
        }
      } else {
        BestWord(w, i, longestGapPos, longestGapLen);
        i := i + 1;
      }
    }
    BestIsGap(w, longestGapPos, longestGapLen);
    if longestGapLen <= 1 {
      longestGapPos := -1;
    }
  }

  lemma RunStep(w: seq<Word>, i: nat)
    requires i <= |w|
    ensures RunLength(w, i) == if i < |w| && w[i] == 0 then 1 + RunLength(w, i + 1) else 0
  {
  }

  lemma BestNone(w: seq<Word>)
    ensures Best(w, 0, -1, 0)
  {
  }

  lemma BestWord(w: seq<Word>, i: nat, p: int, n: int)
    requires i < |w| && w[i] != 0 && Best(w, i, p, n)
    requires if n == 0 then p == -1 else 0 <= p < i && 0 < n
    ensures Best(w, i + 1, p, n)
  {
  }

  lemma BestRun(w: seq<Word>, c: nat, p: int, n: int)
    requires c < |w| && Best(w, c, p, n) && RunLength(w, c) > 0
    requires if n == 0 then p == -1 else 0 <= p < c && 0 < n
    ensures var e, m := c + RunLength(w, c), RunLength(w, c);
            if m > n then Best(w, e, c, m) else Best(w, e, p, n)
  {
    forall j | c <= j < c + RunLength(w, c) ensures RunLength(w, j) <= RunLength(w, c) {
      RunInside(w, c, j);
    }
  }

  lemma BestIsGap(w: seq<Word>, p: int, n: int)
    requires |w| == 8 && Best(w, 8, p, n)
    requires if n == 0 then p == -1 else 0 <= p < 8 && RunLength(w, p) == n
    ensures IsGap(w, if n <= 1 then -1 else p)
  {
  }

  const BUFFER: nat := 64

  /** tor_snprintf(cp, sizeof(buf)-(cp-buf), ...) followed by cp += strlen(cp). */
  method Put(buf: array<char>, cp: nat, text: string) returns (next: nat)
    requires cp + |text| < buf.Length
    modifies buf
    ensures next == cp + |text| && buf[..next] == old(buf[..cp]) + text
  {
    forall i | 0 <= i < |text| {
      buf[cp + i] := text[i];
    }
    buf[cp + |text|] := '\0';
    next := cp + |text|;
  }

  /** tor_inet_ntop: the text, or None where the source returns NULL.  The writes to buf never
      leave its 64 bytes. */
  method Ntop(af: Family, src: seq<Octet>, len: nat) returns (dst: Option<string>)
    requires af.Inet? ==> |src| == 4
    requires af.Inet6? ==> |src| == 16
    ensures af.Inet? ==> dst == if |DottedText(src)| < len <= SIZE_T_CEILING then Some(DottedText(src)) else None
    ensures af.Inet6? ==> exists gap ::
              && IsGap(Words(src), gap)
              && dst == if |Text(src, gap)| < len then Some(Text(src, gap)) else None
    ensures af.OtherFamily? ==> dst == None
  {
    hide Words, DottedText, Numeral, RunLength, Best, Printed;
    if af.Inet? {
      var text := DottedText(src);
      return if |text| < len <= SIZE_T_CEILING then Some(text) else None;
    } else if af.Inet6? {
      var buf := new char[BUFFER];
      var cp: nat;
      var w := Words(src);
      var longestGapPos := FindGap(w);
      if w[0] == 0 && w[1] == 0 && w[2] == 0 && w[3] == 0 && w[4] == 0
         && ((w[5] == 0 && w[6] != 0 && w[7] != 0) || w[5] == 0xffff) {
        QuadRoundTrip(src[12..]);
        WordNumeral(w[5]);
        if w[5] == 0 {
          cp := Put(buf, 0, "::" + DottedText(src[12..]));
        } else {
          cp := Put(buf, 0, "::" + Numeral(w[5], 16) + ":" + DottedText(src[12..]));
        }
      } else {
        cp := PrintWords(w, longestGapPos, buf);
      }
      assert buf[..cp] == Text(src, longestGapPos);
      return if cp + 1 > len then None else Some(buf[..cp]);
    } else {
      return None;
    }
  }

  lemma WordNumeral(n: Word)
    ensures 1 <= |Numeral(n, 16)| <= 4
  {
    Powers();
    NumeralLength(n, 16, 4);
  }

  /** The second loop of tor_inet_ntop. */
  method PrintWords(w: seq<Word>, gap: int, buf: array<char>) returns (cp: nat)
    requires |w| == 8 && IsGap(w, gap) && buf.Length == BUFFER
    modifies buf
    ensures cp < BUFFER && buf[..cp] == Printed(w, gap, 0)
  {
    hide Numeral, RunLength, Printed, IsGap, Best, Piece;
    GapFacts(w, gap);
    var i := 0;
    cp := 0;
    while i < 8
      invariant 0 <= i <= 8 && cp <= 5 * i
      invariant gap >= 0 ==> i <= gap || gap + RunLength(w, gap) <= i
      invariant buf[..cp] + Printed(w, gap, i) == Printed(w, gap, 0)
    {
      PrintedStep(w, gap, i);
      ghost var start, done := i, buf[..cp];
      if w[i] == 0 && gap == i {
        cp := PutGap(w, gap, i, buf, cp);
        while i < 8 && w[i] == 0
          invariant start <= i <= 8 && start + RunLength(w, start) == i + RunLength(w, i)
          invariant buf[..cp] == done + Piece(w, gap, start)
        {
          RunStep(w, i);
          i := i + 1;
        }
        RunStep(w, i);
        i := i - 1;
      } else {
        cp := PutWord(w, gap, i, buf, cp);
      }
      i := i + 1;
      assert i == Next(w, gap, start);
      assert done + Printed(w, gap, start) == Printed(w, gap, 0);
      Follows(done, Piece(w, gap, start), Printed(w, gap, i));
    }
    PrintedStep(w, gap, i);
    assert buf[..cp] + "" == buf[..cp];
    buf[cp] := '\0';
  }

  method PutGap(w: seq<Word>, gap: int, i: nat, buf: array<char>, cp: nat) returns (next: nat)
    requires |w| == 8 && gap == i < 8 && cp + 3 <= buf.Length
    modifies buf
    ensures next <= cp + 2 && next < buf.Length && buf[..next] == old(buf[..cp]) + Piece(w, gap, i)
  {
    hide Numeral;
    next := cp;
    if i == 0 {
      next := Put(buf, next, ":");
    }
    next := Put(buf, next, ":");
    assert buf[..next] == old(buf[..cp]) + if i == 0 then "::" else ":";
  }

  method PutWord(w: seq<Word>, gap: int, i: nat, buf: array<char>, cp: nat) returns (next: nat)
    requires |w| == 8 && gap != i < 8 && cp + 6 <= buf.Length
    modifies buf
    ensures next <= cp + 5 && next < buf.Length && buf[..next] == old(buf[..cp]) + Piece(w, gap, i)
  {
    hide Numeral;
    WordNumeral(w[i]);
    next := Put(buf, cp, Numeral(w[i], 16));
    if i != 7 {
      next := Put(buf, next, ":");
      Follows(old(buf[..cp]), Numeral(w[i], 16), ":");
    }
  }

  lemma GapFacts(w: seq<Word>, gap: int)
    requires |w| == 8 && IsGap(w, gap)
    ensures -1 <= gap < 8 && (gap >= 0 ==> RunLength(w, gap) > 1)
  {
  }

  lemma PrintedStep(w: seq<Word>, gap: int, i: nat)
    requires |w| == 8 && i <= 8 && -1 <= gap < 8 && (gap >= 0 ==> RunLength(w, gap) > 1)
    ensures i == 8 ==> Printed(w, gap, i) == ""
    ensures i < 8 ==> Printed(w, gap, i) == Piece(w, gap, i) + Printed(w, gap, Next(w, gap, i))
    ensures i == gap ==> w[i] == 0
  {
  }

  lemma Follows(done: string, piece: string, rest: string)
    ensures done + piece + rest == done + (piece + rest)
  {
  }
}
