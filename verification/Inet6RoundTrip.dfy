/** tor_inet_pton reads back what tor_inet_ntop writes (src/common/compat.c), in each of the
    text forms of section 2.2 of RFC 4291. */
module Inet6RoundTrip {
  import opened CStrings
  import opened Numerals
  import opened Inet4
  import opened Inet6Grammar
  import opened Inet6Text
  import opened Inet6Parse
  import opened Wrappers

  /** What the word loop has collected once the words before i have been read. */
  ghost function Collected(w: seq<Word>, gap: int, i: nat): (g: Groups)
    requires |w| == 8 && i <= 8 && GapOk(w, gap) && Reached(w, gap, i)
    ensures Sound(g)
  {
    if gap == -1 || i <= gap then Groups(w[..i], -1)
    else Groups(w[..gap] + w[gap + RunLength(w, gap)..i], gap)
  }

  predicate GapOk(w: seq<Word>, gap: int)
    requires |w| == 8
  {
    -1 <= gap < 8 && (gap >= 0 ==> RunLength(w, gap) > 1)
  }

  predicate Reached(w: seq<Word>, gap: int, i: nat)
    requires |w| == 8 && GapOk(w, gap)
  {
    gap >= 0 ==> i <= gap || gap + RunLength(w, gap) <= i
  }

  /** A printed word is read back by one round of the loop, with the colon after it. */
  lemma WordRead(s: CString, eow: nat, k: nat, n: Word, g: Groups)
    requires eow <= |s| && Sound(g) && |g.words| <= 7
    requires var e := k + |Numeral(n, 16)|;
             e <= eow && s[k..e] == Numeral(n, 16) && (At(s, e) == ':' || e == eow == |s|)
    ensures ParseGroups(s, eow, k, g) == ParseGroups(s, eow, k + |Numeral(n, 16)| + 1, Groups(g.words + [n], g.gap))
  {
    hide Numeral, ParseGroups, Strtol;
    StrtolReads(s, k, n);
    GroupStep(s, eow, k, g);
  }

  lemma StrtolReads(s: CString, k: nat, n: Word)
    requires var e := k + |Numeral(n, 16)|; e <= |s| && s[k..e] == Numeral(n, 16) && At(s, e) in {':', '\0'}
    ensures var h := Numeral(n, 16);
            && IsDigit(s[k], 16) && |h| <= 4 && Strtol(s, k) == (n, k + |h|)
            && (|h| > 1 ==> IsDigit(s[k + 1], 16))
  {
    hide Numeral, Value;
    var h := Numeral(n, 16);
    var e := k + |h|;
    NumeralReads(n, 16);
    WordNumeral(n);
    assert s[k] == h[0] && (|h| > 1 ==> s[k + 1] == h[1]);
    RunEndIs(s, k, e, 16);
    ZeroNumeral();
    assert k + 1 < |s| ==> s[k] != '0' || s[k + 1] !in {'x', 'X'};
  }

  lemma ZeroNumeral()
    ensures Numeral(0, 16) == "0"
  {
  }

  /** The word loop recovers the words from the printed text, at whatever word it stands. */
  lemma {:induction false} PrintedParses(w: seq<Word>, gap: int, i: nat, s: CString, k: nat)
    requires |w| == 8 && i <= 8 && GapOk(w, gap) && Reached(w, gap, i)
    requires if i == 8 then k >= |s| else k < |s| && s[k..] == Printed(w, gap, i)
    ensures ParseGroups(s, |s|, k, Collected(w, gap, i)) == Some(Collected(w, gap, 8))
    decreases 8 - i
  {
    hide Numeral, RunLength, Printed, ParseGroups, Piece;
    if i == 8 {
      GroupStep(s, |s|, k, Collected(w, gap, i));
    } else {
      var p, j := Piece(w, gap, i), Next(w, gap, i);
      PrintedStep(w, gap, i);
      assert s[k..k + |p|] == p by {
        assert s[k..][..|p|] == p;
      }
      PrintedNonEmpty(w, gap, j);
      if i == gap {
        GapRead(w, gap, s, k);
      } else {
        PieceIs(w, gap, i);
        CollectedNext(w, gap, i);
        var e := k + |Numeral(w[i], 16)|;
        assert s[k..e] == p[..e - k];
        assert i < 7 ==> s[e] == p[e - k];
        WordRead(s, |s|, k, w[i], Collected(w, gap, i));
        if i < 7 {
          assert s[k + |p|..] == s[k..][|p|..];
        }
      }
      if i == gap {
        assert s[k + |p|..] == s[k..][|p|..];
        PrintedParses(w, gap, j, s, k + |p|);
      } else {
        PrintedParses(w, gap, j, s, k + |Numeral(w[i], 16)| + 1);
      }
    }
  }

  lemma PrintedNonEmpty(w: seq<Word>, gap: int, i: nat)
    requires |w| == 8 && i <= 8 && GapOk(w, gap)
    ensures (Printed(w, gap, i) == "") == (i == 8)
  {
  }

  lemma PieceIs(w: seq<Word>, gap: int, i: nat)
    requires |w| == 8 && i < 8 && GapOk(w, gap) && i != gap
    ensures Piece(w, gap, i) == if i == 7 then Numeral(w[i], 16) else Numeral(w[i], 16) + ":"
  {
    hide Numeral;
  }

  lemma CollectedNext(w: seq<Word>, gap: int, i: nat)
    requires |w| == 8 && i < 8 && GapOk(w, gap) && i != gap && Reached(w, gap, i)
    ensures Reached(w, gap, i + 1)
    ensures var g := Collected(w, gap, i);
            |g.words| <= 7 && Collected(w, gap, i + 1) == Groups(g.words + [w[i]], g.gap)
  {
    hide RunLength;
    if gap >= 0 && gap < i {
      var e := gap + RunLength(w, gap);
      assert w[..gap] + w[e..i] + [w[i]] == w[..gap] + w[e..i + 1];
    }
  }

  /** The double colon of the gap. */
  lemma GapRead(w: seq<Word>, gap: nat, s: CString, k: nat)
    requires |w| == 8 && gap < 8 && GapOk(w, gap)
    requires var p := Piece(w, gap, gap); k + |p| <= |s| && s[k..k + |p|] == p
    ensures var j := Next(w, gap, gap);
            ParseGroups(s, |s|, k, Collected(w, gap, gap)) ==
              ParseGroups(s, |s|, k + |Piece(w, gap, gap)|, Collected(w, gap, j))
  {
    hide RunLength, ParseGroups;
    var p := Piece(w, gap, gap);
    assert s[k] == p[0] == ':';
    if gap == 0 {
      assert s[k + 1] == p[1] == ':';
    }
    GroupStep(s, |s|, k, Collected(w, gap, gap));
    assert w[..gap] + w[Next(w, gap, gap)..Next(w, gap, gap)] == w[..gap];
  }

  lemma ExpandCollected(w: seq<Word>, gap: int)
    requires |w| == 8 && GapOk(w, gap)
    ensures Reached(w, gap, 8) && Expand(Collected(w, gap, 8), []) == Some(w)
  {
    if gap >= 0 {
      var e := gap + RunLength(w, gap);
      var g := Collected(w, gap, 8);
      assert w[..gap] + Zeros(e - gap) + w[e..8] + [] == w;
      assert g.words[..gap] == w[..gap] && g.words[gap..] == w[e..8];
    } else {
      assert w[..8] + [] == w;
    }
  }

  predicate PlainChars(s: string) {
    forall i | 0 <= i < |s| :: s[i] == ':' || IsDigit(s[i], 16)
  }

  /** The printed form has no dot and no NUL in it. */
  lemma {:induction false} PrintedChars(w: seq<Word>, gap: int, i: nat)
    requires |w| == 8 && i <= 8 && GapOk(w, gap)
    ensures PlainChars(Printed(w, gap, i))
    decreases 8 - i
  {
    hide Numeral, IsDigit, RunLength, Printed, Piece;
    PrintedStep(w, gap, i);
    if i < 8 {
      PieceChars(w, gap, i);
      PrintedChars(w, gap, Next(w, gap, i));
    }
  }

  lemma PieceChars(w: seq<Word>, gap: int, i: nat)
    requires |w| == 8 && i < 8
    ensures PlainChars(Piece(w, gap, i))
  {
    hide Numeral, IsDigit;
    NumeralReads(w[i], 16);
  }

  lemma NoDot(s: string)
    requires PlainChars(s)
    ensures '\0' !in s && FirstDot(s, 0) == |s|
  {
    assert forall i | 0 <= i < |s| :: s[i] != '.' && s[i] != '\0';
  }

  lemma PlainRoundTrip(w: seq<Word>, gap: int)
    requires |w| == 8 && GapOk(w, gap)
    ensures '\0' !in Printed(w, gap, 0) && Parsed(Printed(w, gap, 0)) == Some(w)
  {
    hide Printed, ParseGroups, Expand, RunLength, IsDigit, Quad;
    var s := Printed(w, gap, 0);
    PrintedChars(w, gap, 0);
    NoDot(s);
    PrintedNonEmpty(w, gap, 0);
    assert s[0..] == s;
    PrintedParses(w, gap, 0, s, 0);
    ExpandCollected(w, gap);
  }

  /** "::" and perhaps one word before a dotted tail. */
  lemma DottedRoundTrip(w: seq<Word>, head: string, quad: seq<Octet>)
    requires |w| == 8 && |quad| == 4 && w[..5] == Zeros(5) && w[6..] == Tail(quad)
    requires head == if w[5] == 0 then "::" else "::" + Numeral(w[5], 16) + ":"
    ensures '\0' !in head + DottedText(quad) && Parsed(head + DottedText(quad)) == Some(w)
  {
    hide Numeral, ParseGroups, RunStart, Quad, FirstDot, RunLength, IsDigit, Expand, DottedText, Zeros, Tail;
    var s := head + DottedText(quad);
    NoNul(w[5], head, quad);
    HeadHasNoDot(w[5], head);
    DotAt(head, quad);
    assert s[|head|..] == DottedText(quad) && s[..|head|] == head;
    QuadRoundTrip(quad);
    HeadParses(s, |head|, w[5]);
    ExpandHead(w, quad);
  }

  lemma NoNul(n: Word, head: string, quad: seq<Octet>)
    requires |quad| == 4 && head == if n == 0 then "::" else "::" + Numeral(n, 16) + ":"
    ensures '\0' !in head + DottedText(quad)
  {
    hide Numeral, IsDigit, DottedText;
    DottedChars(quad);
    NumeralReads(n, 16);
    NoZeroDigit();
  }

  lemma ExpandHead(w: seq<Word>, quad: seq<Octet>)
    requires |w| == 8 && |quad| == 4 && w[..5] == Zeros(5) && w[6..] == Tail(quad)
    ensures Expand(Groups(if w[5] == 0 then [] else [w[5]], 0), Tail(quad)) == Some(w)
  {
    var g := if w[5] == 0 then [] else [w[5]];
    assert g[..0] + Zeros(6 - |g|) + g[0..] + Tail(quad) == w by {
      assert w == w[..5] + [w[5]] + w[6..];
      assert Zeros(6) == Zeros(5) + [0];
    }
  }

  lemma NoZeroDigit()
    ensures !IsDigit('\0', 16) && !IsDigit('.', 16) && !IsDigit(':', 10)
    ensures forall c | IsDigit(c, 10) :: IsDigit(c, 16)
  {
  }

  lemma DottedChars(quad: seq<Octet>)
    requires |quad| == 4
    ensures '\0' !in DottedText(quad)
    ensures AllDigits(Numeral(quad[0], 10), 10)
  {
    hide Numeral, IsDigit;
    NoZeroDigit();
    NumeralReads(quad[0], 10);
    NumeralReads(quad[1], 10);
    NumeralReads(quad[2], 10);
    NumeralReads(quad[3], 10);
  }

  lemma HeadHasNoDot(n: Word, head: string)
    requires head == if n == 0 then "::" else "::" + Numeral(n, 16) + ":"
    ensures '.' !in head && head[|head| - 1] == ':'
  {
    hide Numeral, IsDigit;
    NoZeroDigit();
    NumeralReads(n, 16);
  }

  /** Where the dot and the end of the words are. */
  lemma DotAt(head: string, quad: seq<Octet>)
    requires |quad| == 4 && head != [] && '.' !in head && head[|head| - 1] == ':'
    ensures var s, dot := head + DottedText(quad), |head| + |Numeral(quad[0], 10)|;
            FirstDot(s, 0) == dot < |s| && RunStart(s, dot) == |head|
  {
    hide Numeral, IsDigit;
    NoZeroDigit();
    NumeralReads(quad[0], 10);
    var n := Numeral(quad[0], 10);
    var s, dot := head + DottedText(quad), |head| + |n|;
    assert s[..dot] == head + n;
    assert s[dot] == '.';
    forall i | 0 <= i < dot ensures s[i] != '.' {
      assert s[i] == (head + n)[i];
    }
    FirstDotAt(s, 0, dot);
    assert s[|head|..dot] == n;
    assert s[|head| - 1] == ':';
    RunStartIs(s, |head|, dot);
  }

  lemma HeadParses(s: CString, eow: nat, n: Word)
    requires eow <= |s| && s[..eow] == if n == 0 then "::" else "::" + Numeral(n, 16) + ":"
    ensures ParseGroups(s, eow, 0, NO_GROUPS) == Some(Groups(if n == 0 then [] else [n], 0))
  {
    hide Numeral, ParseGroups, IsDigit, Strtol;
    var head := s[..eow];
    NotHex();
    assert s[0] == head[0] == ':' && s[1] == head[1] == ':';
    GroupStep(s, eow, 0, NO_GROUPS);
    if n == 0 {
      GroupStep(s, eow, 2, Groups([], 0));
    } else {
      var e := 2 + |Numeral(n, 16)|;
      assert s[2..eow] == head[2..] == Numeral(n, 16) + ":" + "";
      RowSlices(s, 2, s[2..eow], Numeral(n, 16), "");
      WordRead(s, eow, 2, n, Groups([], 0));
      assert [] + [n] == [n];
      GroupStep(s, eow, e + 1, Groups([n], 0));
    }
  }

  lemma NotHex()
    ensures !IsDigit(':', 16)
  {
  }

  /** For every address and every way to print it, tor_inet_pton gives the same bytes back. */
  lemma RoundTrip(a: seq<Octet>, gap: int)
    requires |a| == 16 && IsGap(Words(a), gap)
    ensures '\0' !in Text(a, gap) && Parsed(Text(a, gap)).Some? && Octets(Parsed(Text(a, gap)).value) == a
  {
    hide Printed, Parsed, DottedText, Numeral, RunLength, Octets;
    var w := Words(a);
    OctetsOfWords(a);
    if HasDottedTail(w) {
      var quad := a[12..];
      assert w[6..] == Tail(quad);
      assert w[..5] == Zeros(5);
      DottedRoundTrip(w, if w[5] == 0 then "::" else "::" + Numeral(w[5], 16) + ":", quad);
    } else {
      PlainRoundTrip(w, gap);
    }
  }

  /** At most 39 characters, so TOR_ADDR_BUF_LEN always suffices. */
  lemma TextLength(a: seq<Octet>, gap: int)
    requires |a| == 16 && IsGap(Words(a), gap)
    ensures 2 <= |Text(a, gap)| <= 39
  {
    hide Printed, DottedText, Numeral, RunLength;
    var w := Words(a);
    if HasDottedTail(w) {
      WordNumeral(w[5]);
      QuadRoundTrip(a[12..]);
    } else {
      PrintedLength(w, gap, 0);
    }
  }

  lemma {:induction false} PrintedLength(w: seq<Word>, gap: int, i: nat)
    requires |w| == 8 && i <= 8 && GapOk(w, gap)
    ensures |Printed(w, gap, i)| <= if i == 8 then 0 else 39 - 5 * i
    ensures i == 0 ==> 2 <= |Printed(w, gap, i)|
    decreases 8 - i
  {
    hide Numeral, RunLength;
    if i < 8 {
      WordNumeral(w[i]);
      PrintedLength(w, gap, Next(w, gap, i));
    }
  }

  /** Both together: with room for the text, the address comes back. */
  method PrintAndParse(a: seq<Octet>, len: nat) returns (ok: bool, back: seq<Octet>)
    requires |a| == 16
    ensures len >= 40 ==> ok
    ensures ok ==> back == a
  {
    hide RunLength, Best, Text, DottedText, Words, Octets, Parsed;
    var dst := Ntop(Inet6, a, len);
    ghost var gap :| IsGap(Words(a), gap) && dst == if |Text(a, gap)| < len then Some(Text(a, gap)) else None;
    TextLength(a, gap);
    if dst.None? {
      return false, [];
    }
    RoundTrip(a, gap);
    var result, bytes := Pton(Inet6, dst.value);
    return result == 1, bytes;
  }
}
