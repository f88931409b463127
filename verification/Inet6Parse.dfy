/** The parser of IPv6 addresses: tor_inet_pton in src/common/compat.c. */
module Inet6Parse {
  import opened CStrings
  import opened Numerals
  import opened Inet4
  import opened Inet6Text
  import opened Wrappers

  const LONG_MAX: nat := 0x7fff_ffff_ffff_ffff

  /** strtol(src, &next, 16) on text that starts with a hexadecimal digit: the value and where
      next ends up.  A "0x" is skipped when a digit follows it. */
  function Strtol(s: CString, k: nat): (r: (nat, nat))
    requires k < |s| && IsDigit(s[k], 16)
    ensures k < r.1 <= |s| && r.0 <= LONG_MAX
  {
    var start := if k + 2 < |s| && s[k] == '0' && s[k + 1] in {'x', 'X'} && IsDigit(s[k + 2], 16) then k + 2 else k;
    var next := RunEnd(s, start, 16);
    assert RunEnd(s, k, 16) == RunEnd(s, k + 1, 16);
    var v := Value(s[start..next], 16);
    (if v <= LONG_MAX then v else LONG_MAX, next)
  }

  /** The source's assertion on r, once len has been seen to be at most four. */
  lemma ShortStrtol(s: CString, k: nat)
    requires k < |s| && IsDigit(s[k], 16) && Strtol(s, k).1 - k <= 4
    ensures Strtol(s, k).0 < 65536
  {
    hide Value, IsDigit;
    var next := Strtol(s, k).1;
    HexBound(s[k..next]);
    if k + 2 <= next {
      HexBound(s[k + 2..next]);
    }
  }

  lemma HexBound(t: string)
    requires |t| <= 4
    ensures AllDigits(t, 16) ==> Value(t, 16) < 65536
  {
    if AllDigits(t, 16) {
      ValueBound(t, 16);
      Powers();
      assert Pow(16, 0) == 1;
    }
  }

  /** The words read so far and gapPos. */
  datatype Groups = Groups(words: seq<Word>, gap: int)

  predicate Sound(g: Groups) {
    |g.words| <= 8 && -1 <= g.gap <= |g.words|
  }

  /** What the word loop makes of the text from k up to eow, or None where it returns 0. */
  function ParseGroups(s: CString, eow: nat, k: nat, g: Groups): (r: Option<Groups>)
    requires eow <= |s| && Sound(g)
    ensures r.Some? ==> Sound(r.value)
    decreases |s| + 1 - k
  {
    if k >= eow then Some(g)
    else if |g.words| > 7 then None
    else if IsDigit(s[k], 16) then
      var (r, next) := Strtol(s, k);
      if next - k > 4 then None
      else if next - k > 1 && !IsDigit(s[k + 1], 16) then None
      else if At(s, next) != ':' && next != eow then None
      else
        ShortStrtol(s, k);
        ParseGroups(s, eow, next + 1, Groups(g.words + [r], g.gap))
    else if s[k] == ':' && |g.words| > 0 && g.gap == -1 then
      ParseGroups(s, eow, k + 1, g.(gap := |g.words|))
    else if s[k] == ':' && |g.words| == 0 && k + 1 < eow && s[k + 1] == ':' && g.gap == -1 then
      ParseGroups(s, eow, k + 2, g.(gap := 0))
    else None
  }

  const NO_GROUPS := Groups([], -1)

  function Zeros(n: nat): (w: seq<Word>)
    ensures |w| == n
  {
    seq(n, i => 0)
  }

  /** The eight words: those before the gap, zeros, those after it and the dotted tail. */
  function Expand(g: Groups, tail: seq<Word>): (w: Option<seq<Word>>)
    requires Sound(g)
    ensures w.Some? ==> |w.value| == 8
  {
    var n := |g.words| + |tail|;
    if n > 8 || (n == 8 && g.gap != -1) || (n < 8 && g.gap == -1) then None
    else if g.gap == -1 then Some(g.words + tail)
    else Some(g.words[..g.gap] + Zeros(8 - n) + g.words[g.gap..] + tail)
  }

  /** strchr(src, '.'), or the length. */
  function FirstDot(s: string, k: nat): (d: nat)
    requires k <= |s|
    ensures k <= d <= |s| && (d < |s| ==> s[d] == '.') && (forall i | k <= i < d :: s[i] != '.')
    decreases |s| - k
  {
    if k < |s| && s[k] != '.' then FirstDot(s, k + 1) else k
  }

  /** The eight words that tor_inet_pton reads from a text, if it accepts it. */
  function Parsed(s: CString): (w: Option<seq<Word>>)
    ensures w.Some? ==> |w.value| == 8
  {
    var dot := FirstDot(s, 0);
    if dot == |s| then
      var g := ParseGroups(s, |s|, 0, NO_GROUPS);
      if g.None? then None else Expand(g.value, [])
    else if dot == 0 then None
    else
      var eow := RunStart(s, dot);
      var quad := Quad(s[eow..]);
      var g := ParseGroups(s, eow, 0, NO_GROUPS);
      if quad.None? || g.None? then None else Expand(g.value, Tail(quad.value))
  }

  function Tail(quad: seq<Octet>): seq<Word>
    requires |quad| == 4
  {
    [Pair(quad[0], quad[1]), Pair(quad[2], quad[3])]
  }

  /** The bytes of the words, high byte first. */
  function Octets(w: seq<Word>): (a: seq<Octet>)
    requires |w| == 8
    ensures |a| == 16
  {
    seq(16, k requires 0 <= k < 16 => OctetOf(w[k / 2], k % 2))
  }

  function OctetOf(w: Word, k: nat): Octet {
    if k == 0 then w / 256 else w % 256
  }

  lemma OctetsOfWords(a: seq<Octet>)
    requires |a| == 16
    ensures Octets(Words(a)) == a
  {
    forall k | 0 <= k < 16 ensures Octets(Words(a))[k] == a[k] {
      SplitPair(a[k / 2 * 2], a[k / 2 * 2 + 1]);
    }
  }

  lemma SplitPair(high: Octet, low: Octet)
    ensures OctetOf(Pair(high, low), 0) == high && OctetOf(Pair(high, low), 1) == low
  {
  }

  // ---------------------------------------------------------------------------------------------
  // The parser itself.

  /** The end of the word loop never passes the first dot. */
  lemma NextBeforeDot(s: CString, k: nat, dot: nat)
    requires k < dot <= |s| && IsDigit(s[k], 16) && (dot < |s| ==> s[dot] == '.')
    ensures Strtol(s, k).1 <= dot
  {
    hide Value, RunEnd, IsDigit;
    DotIsNoDigit();
    RunEndBefore(s, k, dot, 16);
    if k + 2 <= dot {
      RunEndBefore(s, k + 2, dot, 16);
    }
  }

  lemma DotIsNoDigit()
    ensures !IsDigit('.', 16)
  {
  }

  /** The word loop: fills words from the front.  Its assertions on r hold on every text. */
  method ReadWords(s: CString, dot: nat, eow: nat, words: array<Word>, tail: nat)
    returns (ok: bool, i: nat, gapPos: int)
    requires eow <= dot <= |s| && (dot < |s| ==> s[dot] == '.') && (dot == |s| ==> eow == |s|)
    requires words.Length == 8 && tail in {0, 2}
    modifies words
    ensures i <= 8 && -1 <= gapPos <= i
    ensures i + tail <= 8 ==> words[8 - tail..] == old(words[8 - tail..])
    ensures ok == ParseGroups(s, eow, 0, NO_GROUPS).Some?
    ensures ok ==> ParseGroups(s, eow, 0, NO_GROUPS).value == Groups(words[..i], gapPos)
  {
    hide Strtol, IsDigit, ParseGroups;
    i, gapPos := 0, -1;
    var src: nat := 0;
    while src < eow
      invariant i <= 8 && -1 <= gapPos <= i
      invariant i + tail <= 8 ==> words[8 - tail..] == old(words[8 - tail..])
      invariant ParseGroups(s, eow, src, Groups(words[..i], gapPos)) == ParseGroups(s, eow, 0, NO_GROUPS)
      decreases |s| + 1 - src
    {
      GroupStep(s, eow, src, Groups(words[..i], gapPos));
      if i > 7 {
        return false, i, gapPos;
      }
      if IsDigit(s[src], 16) {
        var (r, next) := Strtol(s, src);
        NextBeforeDot(s, src, dot);
        var len := if At(s, next) == '\0' then eow - src else next - src;
        assert len == next - src;
        if len > 4 {
          return false, i, gapPos;
        }
        if len > 1 && !IsDigit(s[src + 1], 16) {
          return false, i, gapPos;
        }
        ShortStrtol(s, src);
        assert 0 <= r < 65536;
        ghost var before := words[..i];
        words[i] := r;
        assert words[..i + 1] == before + [r];
        i := i + 1;
        src := next;
        if At(s, src) != ':' && src != eow {
          return false, i, gapPos;
        }
        src := src + 1;
      } else if s[src] == ':' && i > 0 && gapPos == -1 {
        gapPos := i;
        src := src + 1;
      } else if s[src] == ':' && i == 0 && src + 1 < eow && s[src + 1] == ':' && gapPos == -1 {
        gapPos := i;
        src := src + 2;
      } else {
        return false, i, gapPos;
      }
    }
    GroupStep(s, eow, src, Groups(words[..i], gapPos));
    return true, i, gapPos;
  }

  /** How ParseGroups goes on at k. */
  lemma GroupStep(s: CString, eow: nat, k: nat, g: Groups)
    requires eow <= |s| && Sound(g)
    ensures var r := ParseGroups(s, eow, k, g);
            if k >= eow then r == Some(g)
            else if |g.words| > 7 then r == None
            else if IsDigit(s[k], 16) then
              var (v, next) := Strtol(s, k);
              if next - k > 4 || (next - k > 1 && !IsDigit(s[k + 1], 16))
                || (At(s, next) != ':' && next != eow) then r == None
              else v < 65536 && r == ParseGroups(s, eow, next + 1, Groups(g.words + [v], g.gap))
            else if s[k] == ':' && |g.words| > 0 && g.gap == -1 then
              r == ParseGroups(s, eow, k + 1, g.(gap := |g.words|))
            else if s[k] == ':' && |g.words| == 0 && k + 1 < eow && s[k + 1] == ':' && g.gap == -1 then
              r == ParseGroups(s, eow, k + 2, g.(gap := 0))
            else r == None
  {
    hide Strtol, IsDigit;
    if k < eow && IsDigit(s[k], 16) && Strtol(s, k).1 - k <= 4 {
      ShortStrtol(s, k);
    }
  }

  /** memmove on the words. */
  method MoveWords(words: array<Word>, to: nat, from: nat, n: nat)
    requires to + n <= words.Length && from + n <= words.Length
    modifies words
    ensures words[to..to + n] == old(words[from..from + n])
    ensures words[..to] == old(words[..to]) && words[to + n..] == old(words[to + n..])
  {
    forall i | 0 <= i < n {
      words[to + i] := words[from + i];
    }
  }

  /** memset of some words to zero. */
  method ClearWords(words: array<Word>, from: nat, n: nat)
    requires from + n <= words.Length
    modifies words
    ensures words[from..from + n] == Zeros(n)
    ensures words[..from] == old(words[..from]) && words[from + n..] == old(words[from + n..])
  {
    forall i | 0 <= i < n {
      words[from + i] := 0;
    }
  }

  lemma Pieces(before: seq<Word>, moved: seq<Word>, after: seq<Word>, p: nat, gap: nat, n: nat)
    requires |before| == |moved| == |after| && p + gap + n <= |before|
    requires moved[p + gap..p + gap + n] == before[p..p + n]
    requires moved[..p + gap] == before[..p + gap] && moved[p + gap + n..] == before[p + gap + n..]
    requires after[p..p + gap] == Zeros(gap) && after[..p] == moved[..p] && after[p + gap..] == moved[p + gap..]
    ensures after == before[..p] + Zeros(gap) + before[p..p + n] + before[p + gap + n..]
  {
    assert after[..p] == before[..p] by {
      assert moved[..p] == moved[..p + gap][..p];
    }
    assert after[p + gap..] == moved[p + gap..p + gap + n] + moved[p + gap + n..];
    assert after == after[..p] + after[p..p + gap] + after[p + gap..];
  }

  /** The checks after the word loop and the expansion of the gap. */
  method Fill(words: array<Word>, i: nat, gapPos: int, tail: nat) returns (ok: bool)
    requires words.Length == 8 && i <= 8 && -1 <= gapPos <= i && tail in {0, 2}
    modifies words
    ensures i + tail <= 8 ==>
              var w := Expand(Groups(old(words[..i]), gapPos), old(words[8 - tail..]));
              if ok then w == Some(words[..]) else w == None
    ensures i + tail > 8 ==> !ok
  {
    var setWords := i + tail;
    if setWords > 8 || (setWords == 8 && gapPos != -1) || (setWords < 8 && gapPos == -1) {
      return false;
    }
    if gapPos >= 0 {
      var nToMove := setWords - tail - gapPos;
      var gapLen := 8 - setWords;
      assert nToMove >= 0;
      ghost var before := words[..];
      MoveWords(words, gapPos + gapLen, gapPos, nToMove);
      ghost var moved := words[..];
      ClearWords(words, gapPos, gapLen);
      Pieces(before, moved, words[..], gapPos, gapLen, nToMove);
      assert before[..i][..gapPos] == before[..gapPos] && before[..i][gapPos..] == before[gapPos..i];
    } else {
      assert words[..] == words[..i] + words[8 - tail..];
    }
    return true;
  }

  /** tor_inet_pton: the result and, when it is 1, the bytes stored at dst.  Whatever the text,
      words is not indexed outside its bounds and no word is used before it is set. */
  method Pton(af: Family, src: CString) returns (result: int, dst: seq<Octet>)
    ensures af.Inet? ==> if Quad(src).Some? then result == 1 && dst == Quad(src).value else result == 0
    ensures af.Inet6? ==> if Parsed(src).Some? then result == 1 && dst == Octets(Parsed(src).value) else result == 0
    ensures af.OtherFamily? ==> result == -1
  {
    hide ParseGroups, Expand, Quad, Octets, RunStart, FirstDot;
    if af.Inet? {
      var quad := Aton(src);
      if quad.None? {
        return 0, [];
      }
      return 1, quad.value;
    } else if af.Inet6? {
      var words := new Word[8];
      var dot, eow, tail := FirstDot(src, 0), |src|, 0;
      if dot == 0 && dot < |src| {
        return 0, [];
      } else if dot < |src| {
        eow := EndOfWords(src, dot);
        var quad := Aton(src[eow..]);
        if quad.None? {
          return 0, [];
        }
        words[6], words[7] := Pair(quad.value[0], quad.value[1]), Pair(quad.value[2], quad.value[3]);
        tail := 2;
        assert words[6..] == Tail(quad.value);
      }
      ghost var last := words[8 - tail..];
      var read, i, gapPos := ReadWords(src, dot, eow, words, tail);
      if !read {
        return 0, [];
      }
      ghost var g := Groups(words[..i], gapPos);
      var ok := Fill(words, i, gapPos, tail);
      ExpandTooMany(g, last);
      if !ok {
        return 0, [];
      }
      dst := OctetsOf(words[..]);
      return 1, dst;
    } else {
      return -1, [];
    }
  }

  lemma ExpandTooMany(g: Groups, tail: seq<Word>)
    requires Sound(g)
    ensures |g.words| + |tail| > 8 ==> Expand(g, tail) == None
  {
  }

  /** The loop that walks back from the dot over digits. */
  method EndOfWords(s: CString, dot: nat) returns (eow: nat)
    requires dot <= |s|
    ensures eow == RunStart(s, dot)
  {
    eow := dot;
    while eow >= 1 && IsDigit(s[eow - 1], 10)
      invariant eow <= dot && RunStart(s, eow) == RunStart(s, dot)
    {
      eow := eow - 1;
    }
  }

  /** The last loop: words into bytes. */
  method OctetsOf(words: seq<Word>) returns (dst: seq<Octet>)
    requires |words| == 8
    ensures dst == Octets(words)
  {
    var out := new Octet[16];
    var i := 0;
    while i < 8
      invariant 0 <= i <= 8
      invariant forall k | 0 <= k < 2 * i :: out[k] == Octets(words)[k]
    {
      out[2 * i] := words[i] / 256;
      out[2 * i + 1] := words[i] % 256;
      i := i + 1;
    }
    return out[..];
  }
}
