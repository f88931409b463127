/** Which texts tor_inet_pton (src/common/compat.c) takes for IPv6 addresses, and what each of
    them means. */
module Inet6Grammar {
  import opened CStrings
  import opened Numerals
  import opened Inet4
  import opened Inet6Text
  import opened Inet6Parse
  import opened Wrappers

  /** One to four hexadecimal digits. */
  predicate HexText(t: string) {
    1 <= |t| <= 4 && AllDigits(t, 16)
  }

  predicate HexTexts(p: seq<string>) {
    forall i | 0 <= i < |p| :: HexText(p[i])
  }

  function WordOf(t: string): Word
    requires HexText(t)
  {
    HexBound(t);
    Value(t, 16)
  }

  function WordsOf(p: seq<string>): (w: seq<Word>)
    requires HexTexts(p)
    ensures |w| == |p|
  {
    seq(|p|, i requires 0 <= i < |p| => WordOf(p[i]))
  }

  /** Words with a colon behind each; `bare` leaves out the one behind the last. */
  function Colons(p: seq<string>, bare: bool): string {
    if p == [] then ""
    else if |p| == 1 && bare then p[0]
    else p[0] + ":" + Colons(p[1..], bare)
  }

  /** The texts of the words before and after the double colon, if there is one. */
  datatype Form = Plain(words: seq<string>, bare: bool) | Gapped(front: seq<string>, back: seq<string>, bare: bool)

  predicate Proper(f: Form) {
    match f
    case Plain(words, _) => HexTexts(words) && |words| <= 8
    case Gapped(front, back, _) => HexTexts(front) && HexTexts(back) && |front| + |back| <= 8 && |front| <= 7
  }

  function Written(f: Form): string {
    match f
    case Plain(words, bare) => Colons(words, bare)
    case Gapped(front, back, bare) => Colons(front, false) + (if front == [] then "::" else ":") + Colons(back, bare)
  }

  function Meaning(f: Form): (g: Groups)
    requires Proper(f)
    ensures Sound(g)
  {
    match f
    case Plain(words, _) => Groups(WordsOf(words), -1)
    case Gapped(front, back, _) => Groups(WordsOf(front) + WordsOf(back), |front|)
  }

  /** A word without a colon behind it stands at the very end. */
  predicate EndsBare(f: Form) {
    match f
    case Plain(words, bare) => bare && words != []
    case Gapped(_, back, bare) => bare && back != []
  }

  // ---------------------------------------------------------------------------------------------
  // Every such text is accepted.

  lemma WordTaken(s: CString, eow: nat, k: nat, t: string, g: Groups)
    requires eow <= |s| && Sound(g) && |g.words| <= 7 && HexText(t)
    requires var e := k + |t|; e <= eow && s[k..e] == t && (At(s, e) == ':' || e == eow == |s|)
    ensures ParseGroups(s, eow, k, g) == ParseGroups(s, eow, k + |t| + 1, Groups(g.words + [WordOf(t)], g.gap))
  {
    hide ParseGroups, Strtol, Value;
    StrtolTakes(s, k, t);
    GroupStep(s, eow, k, g);
  }

  lemma StrtolTakes(s: CString, k: nat, t: string)
    requires HexText(t) && k + |t| <= |s| && s[k..k + |t|] == t && At(s, k + |t|) in {':', '\0'}
    ensures IsDigit(s[k], 16) && Strtol(s, k) == (WordOf(t), k + |t|)
    ensures |t| > 1 ==> IsDigit(s[k + 1], 16)
  {
    hide Value;
    var e := k + |t|;
    HexBound(t);
    assert s[k] == t[0] && (|t| > 1 ==> s[k + 1] == t[1]);
    RunEndIs(s, k, e, 16);
  }

  /** A row of words is taken word by word. */
  lemma {:induction false} ColonsTaken(s: CString, eow: nat, k: nat, p: seq<string>, bare: bool, g: Groups)
    requires eow <= |s| && Sound(g) && HexTexts(p) && |g.words| + |p| <= 8
    requires k + |Colons(p, bare)| <= eow && s[k..k + |Colons(p, bare)|] == Colons(p, bare)
    requires bare && p != [] ==> k + |Colons(p, bare)| == eow == |s|
    ensures ParseGroups(s, eow, k, g) ==
            ParseGroups(s, eow, k + |Colons(p, bare)| + (if bare && p != [] then 1 else 0),
              Groups(g.words + WordsOf(p), g.gap))
    decreases |p|
  {
    hide ParseGroups, Strtol, Value, IsDigit;
    if p == [] {
      assert g.words + WordsOf(p) == g.words;
    } else {
      hide Colons, WordOf, WordsOf;
      var c := Colons(p, bare);
      var e := k + |p[0]|;
      ColonsHead(p, bare);
      assert HexText(p[0]);
      WordsOfCons(g.words, p[0], p[1..]);
      assert [p[0]] + p[1..] == p;
      if |p| == 1 && bare {
        WordTaken(s, eow, k, p[0], g);
        NoWords(p[1..]);
        assert g.words + [WordOf(p[0])] + [] == g.words + [WordOf(p[0])];
      } else {
        var r := Colons(p[1..], bare);
        RowSlices(s, k, c, p[0], r);
        WordTaken(s, eow, k, p[0], g);
        ColonsTaken(s, eow, e + 1, p[1..], bare, Groups(g.words + [WordOf(p[0])], g.gap));
      }
    }
  }

  lemma RowSlices(s: string, k: nat, c: string, x: string, r: string)
    requires k + |c| <= |s| && s[k..k + |c|] == c == x + ":" + r
    ensures k + |x| + 1 + |r| == k + |c|
    ensures s[k..k + |x|] == x && s[k + |x|] == ':' && s[k + |x| + 1..k + |c|] == r
  {
    forall i | 0 <= i < |r| ensures s[k + |x| + 1..k + |c|][i] == r[i] {
      assert s[k + (|x| + 1 + i)] == s[k..k + |c|][|x| + 1 + i] == c[|x| + 1 + i];
    }
    forall i | 0 <= i < |x| ensures s[k..k + |x|][i] == x[i] {
      assert s[k + i] == s[k..k + |c|][i] == c[i];
    }
    assert s[k + |x|] == s[k..k + |c|][|x|] == c[|x|];
  }

  lemma ColonsHead(p: seq<string>, bare: bool)
    requires p != []
    ensures |p| == 1 && bare ==> Colons(p, bare) == p[0]
    ensures !(|p| == 1 && bare) ==> Colons(p, bare) == p[0] + ":" + Colons(p[1..], bare) && (bare ==> p[1..] != [])
    ensures |Colons(p, bare)| >= |p[0]| && Colons(p, bare)[..|p[0]|] == p[0]
  {
  }

  /** The double colon, or its second half after a word. */
  lemma GapTaken(s: CString, eow: nat, k: nat, g: Groups)
    requires eow <= |s| && Sound(g) && g.gap == -1 && |g.words| <= 7
    requires var d := if g.words == [] then "::" else ":"; k + |d| <= eow && s[k..k + |d|] == d
    ensures var d := if g.words == [] then "::" else ":";
            ParseGroups(s, eow, k, g) == ParseGroups(s, eow, k + |d|, g.(gap := |g.words|))
  {
    hide ParseGroups;
    ColonIsNoDigit();
    var d := if g.words == [] then "::" else ":";
    assert s[k] == s[k..k + |d|][0];
    assert |d| == 2 ==> s[k + 1] == s[k..k + |d|][1];
    GroupStep(s, eow, k, g);
  }

  lemma ColonIsNoDigit()
    ensures !IsDigit(':', 16)
  {
  }

  lemma Slices(s: string, eow: nat, a: string, d: string, b: string)
    requires eow <= |s| && s[..eow] == a + d + b
    ensures |a| + |d| + |b| == eow
    ensures s[0..|a|] == a && s[|a|..|a| + |d|] == d && s[|a| + |d|..eow] == b
  {
    var t := a + d + b;
    assert |t| == eow;
    assert forall i | 0 <= i < eow :: s[i] == s[..eow][i];
  }

  lemma GappedTaken(s: CString, eow: nat, front: seq<string>, back: seq<string>, bare: bool)
    requires eow <= |s| && Proper(Gapped(front, back, bare)) && s[..eow] == Written(Gapped(front, back, bare))
    requires bare && back != [] ==> eow == |s|
    ensures ParseGroups(s, eow, 0, NO_GROUPS) == Some(Meaning(Gapped(front, back, bare)))
  {
    hide ParseGroups, Colons, Value, WordOf, WordsOf, HexTexts;
    var a, d, b := Colons(front, false), if front == [] then "::" else ":", Colons(back, bare);
    Slices(s, eow, a, d, b);
    ColonsTaken(s, eow, 0, front, false, NO_GROUPS);
    assert [] + WordsOf(front) == WordsOf(front);
    GapTaken(s, eow, |a|, Groups(WordsOf(front), -1));
    ColonsTaken(s, eow, |a| + |d|, back, bare, Groups(WordsOf(front), |front|));
    GroupStep(s, eow, eow + (if bare && back != [] then 1 else 0), Meaning(Gapped(front, back, bare)));
  }

  lemma FormTaken(s: CString, eow: nat, f: Form)
    requires eow <= |s| && Proper(f) && s[..eow] == Written(f) && (EndsBare(f) ==> eow == |s|)
    ensures ParseGroups(s, eow, 0, NO_GROUPS) == Some(Meaning(f))
  {
    hide ParseGroups, Colons, Value, WordOf;
    match f {
      case Plain(words, bare) =>
        assert s[0..eow] == s[..eow];
        ColonsTaken(s, eow, 0, words, bare, NO_GROUPS);
        assert [] + WordsOf(words) == WordsOf(words);
        GroupStep(s, eow, eow + (if bare && words != [] then 1 else 0), Groups(WordsOf(words), -1));
      case Gapped(front, back, bare) =>
        GappedTaken(s, eow, front, back, bare);
    }
  }

  // ---------------------------------------------------------------------------------------------
  // Nothing else is accepted.

  /** The words end at eow: at the end of the text, or at the digits before its first dot. */
  ghost predicate Ended(s: CString, eow: nat, dot: nat) {
    && eow <= dot <= |s| && (dot == |s| ==> eow == dot)
    && (dot < |s| ==> eow < dot && s[dot] == '.' && AllDigits(s[eow..dot], 10))
  }

  lemma NextCases(s: CString, k: nat, eow: nat, dot: nat)
    requires Ended(s, eow, dot) && k < eow && IsDigit(s[k], 16)
    ensures var next := Strtol(s, k).1; next < eow || next == dot
  {
    hide Value;
    NextBeforeDot(s, k, dot);
    var next := Strtol(s, k).1;
    assert next < |s| ==> !IsDigit(s[next], 16);
    EndedDigits(s, eow, dot);
  }

  lemma EndedDigits(s: CString, eow: nat, dot: nat)
    requires Ended(s, eow, dot)
    ensures forall i | eow <= i < dot :: IsDigit(s[i], 16)
  {
    forall i | eow <= i < dot ensures IsDigit(s[i], 16) {
      assert s[i] == s[eow..dot][i - eow];
    }
  }

  /** A word that is taken is the text of one to four digits. */
  lemma WordFound(s: CString, k: nat)
    requires k < |s| && IsDigit(s[k], 16)
    ensures var (v, next) := Strtol(s, k);
            next - k <= 4 && (next - k > 1 ==> IsDigit(s[k + 1], 16)) ==> HexText(s[k..next]) && v == WordOf(s[k..next])
  {
    hide Value;
    var next := Strtol(s, k).1;
    if next - k <= 4 {
      HexBound(s[k..next]);
    }
  }

  lemma {:induction false} TailFound(s: CString, eow: nat, dot: nat, k: nat, g: Groups)
    returns (p: seq<string>, bare: bool)
    requires Ended(s, eow, dot) && Sound(g) && k <= eow && g.gap != -1
    ensures ParseGroups(s, eow, k, g).Some? ==>
              && HexTexts(p) && |g.words| + |p| <= 8 && s[k..eow] == Colons(p, bare)
              && ParseGroups(s, eow, k, g).value == Groups(g.words + WordsOf(p), g.gap)
              && (bare ==> p != [] && eow == |s|)
    decreases eow - k
  {
    hide ParseGroups, Strtol, Value, IsDigit, Ended, WordOf;
    p, bare := [], false;
    EndedFacts(s, eow, dot);
    GroupStep(s, eow, k, g);
    if k == eow {
      assert g.words + WordsOf([]) == g.words;
    } else if IsDigit(s[k], 16) && ParseGroups(s, eow, k, g).Some? {
      var (v, next) := Strtol(s, k);
      WordFound(s, k);
      NextCases(s, k, eow, dot);
      EndedFacts(s, eow, dot);
      var t := s[k..next];
      var h := Groups(g.words + [v], g.gap);
      if next < eow {
        var q;
        q, bare := TailFound(s, eow, dot, next + 1, h);
        p := [t] + q;
        WordsOfCons(g.words, t, q);
        assert s[k..eow] == t + ":" + s[next + 1..eow];
      } else {
        GroupStep(s, eow, next + 1, h);
        p, bare := [t], true;
        WordsOfCons(g.words, t, []);
      }
    }
  }

  lemma EndedFacts(s: CString, eow: nat, dot: nat)
    requires Ended(s, eow, dot)
    ensures eow <= dot <= |s| && (dot == |s| ==> eow == dot) && (dot < |s| ==> eow < dot && s[dot] == '.')
  {
  }

  lemma WordsOfCons(w: seq<Word>, t: string, q: seq<string>)
    requires HexText(t) && HexTexts(q)
    ensures HexTexts([t] + q) && w + WordsOf([t] + q) == w + [WordOf(t)] + WordsOf(q)
  {
    hide WordOf;
    assert WordsOf([t] + q) == [WordOf(t)] + WordsOf(q);
  }

  /** The same text and meaning for a form that stands behind the words w. */
  function WrittenBehind(f: Form, w: seq<Word>): string {
    match f
    case Plain(words, bare) => Colons(words, bare)
    case Gapped(front, back, bare) =>
      Colons(front, false) + (if w == [] && front == [] then "::" else ":") + Colons(back, bare)
  }

  predicate ProperBehind(f: Form, w: seq<Word>) {
    match f
    case Plain(words, _) => HexTexts(words) && |w| + |words| <= 8
    case Gapped(front, back, _) =>
      HexTexts(front) && HexTexts(back) && |w| + |front| + |back| <= 8 && |w| + |front| <= 7
  }

  function MeaningBehind(f: Form, w: seq<Word>): Groups
    requires ProperBehind(f, w)
  {
    match f
    case Plain(words, _) => Groups(w + WordsOf(words), -1)
    case Gapped(front, back, _) => Groups(w + WordsOf(front) + WordsOf(back), |w| + |front|)
  }

  function Cons(t: string, f: Form): Form {
    match f
    case Plain(words, bare) => Plain([t] + words, bare)
    case Gapped(front, back, bare) => Gapped([t] + front, back, bare)
  }

  lemma ConsFacts(t: string, f: Form, w: seq<Word>)
    requires HexText(t) && ProperBehind(f, w + [WordOf(t)]) && (f.Plain? && f.words == [] ==> !f.bare)
    ensures ProperBehind(Cons(t, f), w) && MeaningBehind(Cons(t, f), w) == MeaningBehind(f, w + [WordOf(t)])
    ensures WrittenBehind(Cons(t, f), w) == t + ":" + WrittenBehind(f, w + [WordOf(t)])
    ensures EndsBare(Cons(t, f)) == EndsBare(f)
  {
    hide WordOf, WordsOf, Colons, HexTexts;
    match f {
      case Plain(words, bare) =>
        RowCons(t, words, bare, w);
      case Gapped(front, back, bare) =>
        RowCons(t, front, false, w);
        var d, b := if w == [] && [t] + front == [] then "::" else ":", Colons(back, bare);
        assert t + ":" + Colons(front, false) + d + b == t + ":" + (Colons(front, false) + d + b);
    }
  }

  lemma RowCons(t: string, p: seq<string>, bare: bool, w: seq<Word>)
    requires HexText(t) && HexTexts(p) && (p == [] ==> !bare)
    ensures HexTexts([t] + p) && w + WordsOf([t] + p) == w + [WordOf(t)] + WordsOf(p)
    ensures Colons([t] + p, bare) == t + ":" + Colons(p, bare)
  {
    hide WordOf, WordsOf;
    WordsOfCons(w, t, p);
    assert ([t] + p)[1..] == p;
  }

  lemma {:induction false} FormFound(s: CString, eow: nat, dot: nat, k: nat, w: seq<Word>) returns (f: Form)
    requires Ended(s, eow, dot) && |w| <= 8 && k <= eow
    ensures ParseGroups(s, eow, k, Groups(w, -1)).Some? ==>
              && ProperBehind(f, w) && s[k..eow] == WrittenBehind(f, w)
              && ParseGroups(s, eow, k, Groups(w, -1)).value == MeaningBehind(f, w)
              && (EndsBare(f) ==> eow == |s|) && (f.Plain? && f.words == [] ==> !f.bare)
    decreases eow - k
  {
    hide ParseGroups, Strtol, Value, IsDigit, Ended, WordOf, Colons;
    var g := Groups(w, -1);
    f := Plain([], false);
    NoColons();
    EndedFacts(s, eow, dot);
    GroupStep(s, eow, k, g);
    if k == eow {
      assert w + WordsOf([]) == w;
    } else if ParseGroups(s, eow, k, g).Some? {
      if IsDigit(s[k], 16) {
        f := WordForm(s, eow, dot, k, w);
      } else {
        f := GapForm(s, eow, dot, k, w);
      }
    }
  }

  lemma NoColons()
    ensures Colons([], false) == "" && Colons([], true) == ""
  {
  }

  lemma WordForm(s: CString, eow: nat, dot: nat, k: nat, w: seq<Word>) returns (f: Form)
    requires Ended(s, eow, dot) && |w| <= 8 && k < eow && IsDigit(s[k], 16)
             && ParseGroups(s, eow, k, Groups(w, -1)).Some?
    ensures ProperBehind(f, w) && s[k..eow] == WrittenBehind(f, w)
    ensures ParseGroups(s, eow, k, Groups(w, -1)).value == MeaningBehind(f, w)
    ensures (EndsBare(f) ==> eow == |s|) && (f.Plain? && f.words == [] ==> !f.bare)
    decreases eow - k, 0
  {
    hide ParseGroups, Strtol, Value, IsDigit, Ended, WordOf, Colons, WrittenBehind, MeaningBehind, EndsBare;
    EndedFacts(s, eow, dot);
    GroupStep(s, eow, k, Groups(w, -1));
    var (v, next) := Strtol(s, k);
    WordFound(s, k);
    NextCases(s, k, eow, dot);
    var t := s[k..next];
    if next < eow {
      var h := FormFound(s, eow, dot, next + 1, w + [v]);
      f := Cons(t, h);
      ConsFacts(t, h, w);
      assert s[k..eow] == t + ":" + s[next + 1..eow];
    } else {
      f := Plain([t], true);
      BareForm(s, eow, next, w, t);
    }
  }

  lemma BareForm(s: CString, eow: nat, k: nat, w: seq<Word>, t: string)
    requires eow <= |s| && eow <= k && HexText(t) && |w| <= 7
    ensures var f, g := Plain([t], true), Groups(w + [WordOf(t)], -1);
            ProperBehind(f, w) && WrittenBehind(f, w) == t && ParseGroups(s, eow, k + 1, g) == Some(g)
              && MeaningBehind(f, w) == g
  {
    hide WordOf, ParseGroups;
    GroupStep(s, eow, k + 1, Groups(w + [WordOf(t)], -1));
    assert w + WordsOf([t]) == w + [WordOf(t)];
  }

  lemma GapForm(s: CString, eow: nat, dot: nat, k: nat, w: seq<Word>) returns (f: Form)
    requires Ended(s, eow, dot) && |w| <= 8 && k < eow && !IsDigit(s[k], 16)
             && ParseGroups(s, eow, k, Groups(w, -1)).Some?
    ensures ProperBehind(f, w) && s[k..eow] == WrittenBehind(f, w)
    ensures ParseGroups(s, eow, k, Groups(w, -1)).value == MeaningBehind(f, w)
    ensures (EndsBare(f) ==> eow == |s|) && (f.Plain? && f.words == [] ==> !f.bare)
  {
    hide ParseGroups, Strtol, Value, IsDigit, Ended, WordOf, Colons, WrittenBehind, MeaningBehind, ProperBehind,
         WordsOf, HexTexts;
    EndedFacts(s, eow, dot);
    var d := GapHere(s, eow, k, w);
    var p, bare := TailFound(s, eow, dot, k + |d|, Groups(w, |w|));
    f := Gapped([], p, bare);
    NothingInFront(w, p, bare);
    assert s[k..eow] == s[k..k + |d|] + s[k + |d|..eow];
  }

  lemma GapHere(s: CString, eow: nat, k: nat, w: seq<Word>) returns (d: string)
    requires eow <= |s| && |w| <= 8 && k < eow && !IsDigit(s[k], 16) && ParseGroups(s, eow, k, Groups(w, -1)).Some?
    ensures d == (if w == [] then "::" else ":") && k + |d| <= eow && s[k..k + |d|] == d && |w| <= 7
    ensures ParseGroups(s, eow, k, Groups(w, -1)) == ParseGroups(s, eow, k + |d|, Groups(w, |w|))
  {
    hide ParseGroups, Strtol, IsDigit;
    d := if w == [] then "::" else ":";
    GroupStep(s, eow, k, Groups(w, -1));
  }

  lemma NothingInFront(w: seq<Word>, p: seq<string>, bare: bool)
    requires HexTexts(p) && |w| + |p| <= 8 && |w| <= 7
    ensures var f := Gapped([], p, bare);
            && ProperBehind(f, w) && WrittenBehind(f, w) == (if w == [] then "::" else ":") + Colons(p, bare)
            && MeaningBehind(f, w) == Groups(w + WordsOf(p), |w|)
  {
    hide WordOf;
    NoColons();
    assert w + WordsOf([]) == w;
  }

  // ---------------------------------------------------------------------------------------------
  // Both directions together.

  /** The text is that form, with a dotted quad behind it if there is one, and it stands for the
      words w. */
  predicate Denotes(s: CString, f: Form, quad: Option<seq<Octet>>, w: seq<Word>) {
    && Proper(f) && |Written(f)| <= |s| && s[..|Written(f)|] == Written(f)
    && match quad
       case None => |s| == |Written(f)| && Expand(Meaning(f), []) == Some(w)
       case Some(q) =>
         && |q| == 4 && !EndsBare(f) && Quad(s[|Written(f)|..]) == Some(q)
         && Expand(Meaning(f), Tail(q)) == Some(w)
  }

  predicate WordChars(t: string) {
    forall i | 0 <= i < |t| :: t[i] == ':' || IsDigit(t[i], 16)
  }

  lemma {:induction false} ColonsChars(p: seq<string>, bare: bool)
    requires HexTexts(p)
    ensures WordChars(Colons(p, bare))
    ensures !bare && p != [] ==> Colons(p, bare) != [] && Colons(p, bare)[|Colons(p, bare)| - 1] == ':'
    decreases |p|
  {
    hide IsDigit;
    if p != [] {
      assert HexText(p[0]);
      ColonsChars(p[1..], bare);
    }
  }

  lemma WrittenChars(f: Form)
    requires Proper(f)
    ensures WordChars(Written(f))
    ensures !EndsBare(f) && Written(f) != [] ==> Written(f)[|Written(f)| - 1] == ':'
  {
    hide IsDigit, Colons;
    NoColons();
    match f {
      case Plain(words, bare) =>
        ColonsChars(words, bare);
      case Gapped(front, back, bare) =>
        ColonsChars(front, false);
        ColonsChars(back, bare);
    }
  }

  lemma NoDotInWords(t: string)
    requires WordChars(t)
    ensures '.' !in t
  {
    assert !IsDigit('.', 16);
  }

  /** A dotted quad starts with a run of digits and a dot. */
  lemma QuadHead(t: string) returns (n: nat)
    requires Quad(t).Some?
    ensures 0 < n < |t| && t[n] == '.' && AllDigits(t[..n], 10)
  {
    hide Quad, Value, IsDigit;
    QuadSpells(t, Quad(t).value);
    var p :| Spells(t, p, Quad(t).value);
    JoinedFour(p);
    n := |p[0]|;
    assert ShortNumeral(p[0]) && t[..n] == p[0];
  }

  lemma DotBehind(s: CString, head: string, n: nat)
    requires |head| <= |s| && s[..|head|] == head && WordChars(head) && (head != [] ==> head[|head| - 1] == ':')
    requires 0 < n < |s| - |head| && s[|head| + n] == '.' && AllDigits(s[|head|..][..n], 10)
    ensures FirstDot(s, 0) == |head| + n && RunStart(s, |head| + n) == |head|
  {
    NoDotInWords(head);
    var dot := |head| + n;
    forall i | 0 <= i < dot ensures s[i] != '.' {
      if i < |head| {
        assert s[i] == s[..|head|][i];
      } else {
        assert s[i] == s[|head|..][..n][i - |head|];
      }
    }
    FirstDotAt(s, 0, dot);
    assert s[|head|..dot] == s[|head|..][..n];
    assert head != [] ==> s[|head| - 1] == s[..|head|][|head| - 1];
    RunStartIs(s, |head|, dot);
  }

  lemma {:induction false} FirstDotAt(s: string, k: nat, dot: nat)
    requires k <= dot <= |s| && (dot < |s| ==> s[dot] == '.') && forall i | k <= i < dot :: s[i] != '.'
    ensures FirstDot(s, k) == dot
    decreases dot - k
  {
    if k < dot {
      FirstDotAt(s, k + 1, dot);
    }
  }

  lemma DenotedIsParsed(s: CString, f: Form, quad: Option<seq<Octet>>, w: seq<Word>)
    requires Denotes(s, f, quad, w)
    ensures Parsed(s) == Some(w)
  {
    hide ParseGroups, Written, Meaning, WordChars, Quad, Expand, FirstDot, RunStart, Proper;
    var head := Written(f);
    WrittenChars(f);
    FormTaken(s, |head|, f);
    if quad.None? {
      NoDotInWords(head);
      assert s == head;
      FirstDotAt(s, 0, |s|);
    } else {
      var n := QuadHead(s[|head|..]);
      NotEmpty(f, quad.value);
      DotBehind(s, head, n);
    }
  }

  /** Four bytes alone do not make an address. */
  lemma NotEmpty(f: Form, q: seq<Octet>)
    requires Proper(f) && |q| == 4 && Expand(Meaning(f), Tail(q)).Some?
    ensures Written(f) != []
  {
    hide Colons, WordsOf;
    if f.Plain? {
      hide HexTexts, Tail;
      ColonsEmpty(f.words, f.bare);
      NoWords(f.words);
    }
  }

  lemma NoWords(p: seq<string>)
    requires HexTexts(p)
    ensures p == [] ==> WordsOf(p) == []
  {
  }

  lemma ColonsEmpty(p: seq<string>, bare: bool)
    requires HexTexts(p)
    ensures Colons(p, bare) == [] ==> p == []
  {
  }

  lemma BehindNothing(f: Form)
    requires ProperBehind(f, [])
    ensures Proper(f) && WrittenBehind(f, []) == Written(f) && MeaningBehind(f, []) == Meaning(f)
  {
    hide WordOf;
    var p := if f.Plain? then f.words else f.front;
    assert [] + WordsOf(p) == WordsOf(p);
  }

  lemma ParsedIsDenoted(s: CString) returns (f: Form, quad: Option<seq<Octet>>)
    ensures Parsed(s).Some? ==> Denotes(s, f, quad, Parsed(s).value)
  {
    hide ParseGroups, Written, Meaning, Quad, Expand, FirstDot, RunStart, Proper, ProperBehind, WrittenBehind,
         MeaningBehind, EndsBare, AllDigits;
    f, quad := Plain([], false), None;
    var dot := FirstDot(s, 0);
    if Parsed(s).Some? {
      if dot == |s| {
        EndedAtEnd(s);
        f := FormFound(s, |s|, |s|, 0, []);
        assert s[0..|s|] == s;
      } else {
        var eow := RunStart(s, dot);
        EndedAtQuad(s, dot);
        f := FormFound(s, eow, dot, 0, []);
        quad := Quad(s[eow..]);
        assert s[0..eow] == s[..eow];
      }
      BehindNothing(f);
    }
  }

  lemma EndedAtEnd(s: CString)
    ensures Ended(s, |s|, |s|)
  {
  }

  lemma EndedAtQuad(s: CString, dot: nat)
    requires dot == FirstDot(s, 0) < |s| && Quad(s[RunStart(s, dot)..]).Some?
    ensures Ended(s, RunStart(s, dot), dot)
  {
    hide Quad;
    var eow := RunStart(s, dot);
    var n := QuadHead(s[eow..]);
    assert s[eow] == s[eow..][..n][0];
    assert !IsDigit('.', 10);
  }

  /** tor_inet_pton accepts a text exactly when it denotes an address, and stores that address. */
  lemma ParsedIffDenoted(s: CString, w: seq<Word>)
    ensures Parsed(s) == Some(w) <==> exists f, quad :: Denotes(s, f, quad, w)
  {
    hide Parsed, Denotes;
    var f, quad := ParsedIsDenoted(s);
    assert Parsed(s) == Some(w) ==> Denotes(s, f, quad, w);
    forall f, quad | Denotes(s, f, quad, w) ensures Parsed(s) == Some(w) {
      DenotedIsParsed(s, f, quad, w);
    }
  }

  /** A colon too many behind the last word changes nothing: such texts are accepted too. */
  lemma TrailingColon(f: Form, w: seq<Word>)
    requires Proper(f) && EndsBare(f) && Expand(Meaning(f), []) == Some(w)
    ensures IsCString(Written(f)) && Parsed(Written(f)) == Some(w)
    ensures var g := f.(bare := false);
            IsCString(Written(g)) && Written(g) == Written(f) + ":" && Parsed(Written(g)) == Some(w)
  {
    hide Colons, Parsed, WordsOf, Expand, WordChars;
    var g := f.(bare := false);
    WrittenChars(f);
    WrittenChars(g);
    CharsAreText(Written(f));
    CharsAreText(Written(g));
    ColonMore(if f.Plain? then f.words else f.back);
    DenotedIsParsed(Written(f), f, None, w);
    DenotedIsParsed(Written(g), g, None, w);
  }

  predicate IsCString(t: string) {
    '\0' !in t
  }

  lemma CharsAreText(t: string)
    requires WordChars(t)
    ensures IsCString(t)
  {
    assert !IsDigit('\0', 16);
  }

  lemma {:induction false} ColonMore(p: seq<string>)
    requires p != []
    ensures Colons(p, false) == Colons(p, true) + ":"
    decreases |p|
  {
    if |p| == 1 {
      assert Colons(p[1..], false) == "";
    } else {
      ColonMore(p[1..]);
    }
  }
}
