/** esc_for_log and unescape_string of src/common/util.c. */
module Escape {
  import opened CStrings
  import opened Wrappers

  /** A C string whose characters are bytes. */
  type ByteString = s: CString | forall i | 0 <= i < |s| :: 0 < s[i] as int < 256

  // ---------------------------------------------------------------------------------------------
  // Escaping.

  /** TOR_ISPRINT, and below 127 */
  predicate Printable(c: char) {
    32 <= c as int < 127
  }

  function OctalDigit(d: nat): char
    requires d < 8
  {
    (d + '0' as int) as char
  }

  /** "\\%03o" */
  function Octal(c: char): string
    requires c as int < 256
  {
    var n := c as int;
    ['\\', OctalDigit(n / 64), OctalDigit(n / 8 % 8), OctalDigit(n % 8)]
  }

  /** What is written for one character. */
  function Piece(c: char): (p: string)
    requires c as int < 256
    ensures 1 <= |p| <= 4
  {
    if c in {'\\', '\"', '\''} then ['\\', c]
    else if c == '\n' then ['\\', 'n']
    else if c == '\t' then ['\\', 't']
    else if c == '\r' then ['\\', 'r']
    else if Printable(c) then [c]
    else Octal(c)
  }

  /** What is written for the characters from k on. */
  function Pieces(s: ByteString, k: nat): string
    requires k <= |s|
    decreases |s| - k
  {
    if k == |s| then "" else Piece(s[k]) + Pieces(s, k + 1)
  }

  function Escaped(s: ByteString): string {
    "\"" + Pieces(s, 0) + "\""
  }

  method Put(buf: array<char>, outp: nat, text: string) returns (next: nat)
    requires outp + |text| <= buf.Length
    modifies buf
    ensures next == outp + |text| && buf[..next] == old(buf[..outp]) + text
  {
    forall i | 0 <= i < |text| {
      buf[outp + i] := text[i];
    }
    next := outp + |text|;
  }

  /** The counting pass of esc_for_log. */
  method EscapedLength(s: ByteString) returns (len: nat)
    ensures len == |Escaped(s)| + 1
  {
    len := 3;
    var cp := 0;
    while cp < |s|
      invariant 0 <= cp <= |s| && len + |Pieces(s, cp)| == |Escaped(s)| + 1
    {
      var c := s[cp];
      if c in {'\\', '\"', '\'', '\r', '\n', '\t'} {
        len := len + 2;
      } else if Printable(c) {
        len := len + 1;
      } else {
        len := len + 4;
      }
      cp := cp + 1;
    }
  }

  lemma PiecesStep(s: ByteString, k: nat)
    requires k < |s|
    ensures Pieces(s, k) == Piece(s[k]) + Pieces(s, k + 1)
  {
  }

  /** The switch of the writing pass. */
  method WritePiece(result: array<char>, outp: nat, c: char) returns (next: nat)
    requires c as int < 256 && outp + |Piece(c)| <= result.Length
    modifies result
    ensures next == outp + |Piece(c)| && result[..next] == old(result[..outp]) + Piece(c)
  {
    if c in {'\\', '\"', '\''} {
      next := Put(result, outp, ['\\', c]);
    } else if c == '\n' {
      next := Put(result, outp, ['\\', 'n']);
    } else if c == '\t' {
      next := Put(result, outp, ['\\', 't']);
    } else if c == '\r' {
      next := Put(result, outp, ['\\', 'r']);
    } else if Printable(c) {
      next := Put(result, outp, [c]);
    } else {
      next := Put(result, outp, Octal(c));
    }
  }

  /** esc_for_log: the bytes it counts are exactly those it writes, NUL included. */
  method EscForLog(s: ByteString) returns (result: array<char>)
    ensures fresh(result) && result[..] == Escaped(s) + ['\0']
  {
    hide Escaped, Octal, Pieces, Piece;
    var len := EscapedLength(s);
    EscapedIs(s);
    result := new char[len];
    var outp: nat := Put(result, 0, "\"");
    var cp := 0;
    while cp < |s|
      invariant 0 <= cp <= |s| && outp + |Pieces(s, cp)| + 2 == len
      invariant result[..outp] + Pieces(s, cp) + "\"" == Escaped(s)
    {
      ghost var done := result[..outp];
      PiecesStep(s, cp);
      outp := WritePiece(result, outp, s[cp]);
      assert done + Piece(s[cp]) + Pieces(s, cp + 1) == done + (Piece(s[cp]) + Pieces(s, cp + 1));
      cp := cp + 1;
    }
    PiecesEnd(s);
    assert result[..outp] + "" == result[..outp];
    outp := Put(result, outp, "\"");
    outp := Put(result, outp, ['\0']);
    assert result[..] == result[..outp];
  }

  lemma EscapedIs(s: ByteString)
    ensures Escaped(s) == "\"" + Pieces(s, 0) + "\""
  {
  }

  lemma PiecesEnd(s: ByteString)
    ensures Pieces(s, |s|) == ""
  {
  }

  // ---------------------------------------------------------------------------------------------
  // Unescaping.

  predicate IsOctal(c: char) {
    '0' <= c <= '7'
  }

  function HexDigit(c: char): int {
    if '0' <= c <= '9' then c as int - '0' as int
    else if 'a' <= c <= 'f' then c as int - 'a' as int + 10
    else if 'A' <= c <= 'F' then c as int - 'A' as int + 10
    else -1
  }

  /** Where the octal escape at k ends. */
  function OctalEnd(s: ByteString, k: nat): (e: nat)
    requires k + 1 < |s| && IsOctal(s[k + 1])
    ensures k + 2 <= e <= k + 4 && e <= |s|
  {
    if IsOctal(At(s, k + 2)) then if IsOctal(At(s, k + 3)) then k + 4 else k + 3 else k + 2
  }

  function OctalValue(s: ByteString, k: nat): nat
    requires k + 1 < |s| && IsOctal(s[k + 1])
  {
    var n := s[k + 1] as int - '0' as int;
    if IsOctal(At(s, k + 2)) then
      var m := n * 8 + (s[k + 2] as int - '0' as int);
      if IsOctal(At(s, k + 3)) then m * 8 + (s[k + 3] as int - '0' as int) else m
    else n
  }

  /** The first pass: where the closing quote is, if the string up to there is well formed. */
  function Close(s: ByteString, k: nat): (e: Option<nat>)
    requires k <= |s|
    ensures e.Some? ==> k <= e.value < |s| && s[e.value] == '\"'
    decreases |s| - k
  {
    if k == |s| || s[k] == '\n' then None
    else if s[k] == '\"' then Some(k)
    else if s[k] == '\\' then
      if At(s, k + 1) in {'x', 'X'} then
        if HexDigit(At(s, k + 2)) >= 0 && HexDigit(At(s, k + 3)) >= 0 then Close(s, k + 4) else None
      else if IsOctal(At(s, k + 1)) then Close(s, OctalEnd(s, k))
      else if At(s, k + 1) in {'n', 'r', 't', '\"', '\\', '\''} then Close(s, k + 2)
      else None
    else Close(s, k + 1)
  }

  /** What the text between k and the closing quote e stands for, with None for an octal escape
      above 255. */
  function Decoded(s: ByteString, k: nat, e: nat): (t: Option<string>)
    requires k <= e < |s| && Close(s, k) == Some(e)
    ensures t.Some? ==> |t.value| <= e - k
    decreases e - k
  {
    if k == e then Some("")
    else if s[k] == '\\' then
      if s[k + 1] in {'x', 'X'} then
        Prepend((HexDigit(s[k + 2]) * 16 + HexDigit(s[k + 3])) as char, Decoded(s, k + 4, e))
      else if IsOctal(s[k + 1]) then
        if OctalValue(s, k) > 255 then None else Prepend(OctalValue(s, k) as char, Decoded(s, OctalEnd(s, k), e))
      else Prepend(Named(s[k + 1]), Decoded(s, k + 2, e))
    else Prepend(s[k], Decoded(s, k + 1, e))
  }

  function Named(c: char): char {
    if c == 'n' then '\n' else if c == 'r' then '\r' else if c == 't' then '\t' else c
  }

  function Prepend(c: char, t: Option<string>): Option<string> {
    if t.None? then None else Some([c] + t.value)
  }

  /** What unescape_string yields: the decoded text, and the position behind the closing quote. */
  function Unescaped(s: ByteString): (r: Option<(string, nat)>) {
    if s == [] || s[0] != '\"' then None
    else
      var e := Close(s, 1);
      if e.None? then None
      else
        var t := Decoded(s, 1, e.value);
        if t.None? then None else Some((t.value, e.value + 1))
  }

  function Joined(done: string, t: Option<string>): Option<string> {
    if t.None? then None else Some(done + t.value)
  }

  lemma JoinedPrepend(done: string, c: char, t: Option<string>)
    ensures Joined(done, Prepend(c, t)) == Joined(done + [c], t)
  {
    assert t.Some? ==> done + ([c] + t.value) == done + [c] + t.value;
  }

  lemma JoinedNothing(done: string, t: Option<string>)
    requires done == ""
    ensures Joined(done, t) == t
  {
    assert t.Some? ==> "" + t.value == t.value;
  }

  /** The first pass. */
  method FindClose(s: ByteString) returns (e: Option<nat>)
    requires s != []
    ensures e == Close(s, 1)
  {
    var cp: nat := 1;
    while true
      invariant cp <= |s| && Close(s, cp) == Close(s, 1)
      decreases |s| - cp
    {
      hide HexDigit;
      var c := At(s, cp);
      if c == '\0' || c == '\n' {
        return None;
      } else if c == '\"' {
        return Some(cp);
      } else if c == '\\' {
        var d := At(s, cp + 1);
        if d == 'x' || d == 'X' {
          if !(HexDigit(At(s, cp + 2)) >= 0 && HexDigit(At(s, cp + 3)) >= 0) {
            return None;
          }
          cp := cp + 4;
        } else if IsOctal(d) {
          ghost var k := cp;
          cp := cp + 2;
          if IsOctal(At(s, cp)) { cp := cp + 1; }
          if IsOctal(At(s, cp)) { cp := cp + 1; }
          assert cp == OctalEnd(s, k);
        } else if d == 'n' || d == 'r' || d == 't' || d == '\"' || d == '\\' || d == '\'' {
          cp := cp + 2;
        } else {
          return None;
        }
      } else {
        cp := cp + 1;
      }
    }
  }

  /** What the second pass does with the escape or character at cp: the character written. */
  method DecodeOne(s: ByteString, cp: nat, ghost e: nat) returns (ok: bool, c: char, next: nat)
    requires cp < e < |s| && Close(s, cp) == Some(e)
    ensures ok ==> cp < next <= e && Close(s, next) == Some(e) && Decoded(s, cp, e) == Prepend(c, Decoded(s, next, e))
    ensures !ok ==> Decoded(s, cp, e) == None && s[cp] == '\\' && IsOctal(s[cp + 1]) && OctalValue(s, cp) > 255
  {
    ok, c, next := true, s[cp], cp + 1;
    if s[cp] == '\0' {
      assert false;
    } else if s[cp] == '\\' {
      var d := s[cp + 1];
      next := cp + 2;
      if d == 'n' {
        c := '\n';
      } else if d == 'r' {
        c := '\r';
      } else if d == 't' {
        c := '\t';
      } else if d == 'x' || d == 'X' {
        var x1, x2 := HexDigit(s[cp + 2]), HexDigit(s[cp + 3]);
        if x1 == -1 || x2 == -1 {
          assert false;
        }
        c := (x1 * 16 + x2) as char;
        next := cp + 4;
      } else if IsOctal(d) {
        var n := d as int - '0' as int;
        if IsOctal(At(s, next)) {
          n := n * 8 + (s[next] as int - '0' as int);
          next := next + 1;
        }
        if IsOctal(At(s, next)) {
          n := n * 8 + (s[next] as int - '0' as int);
          next := next + 1;
        }
        assert n == OctalValue(s, cp) && next == OctalEnd(s, cp);
        if n > 255 {
          return false, c, next;
        }
        c := n as char;
      } else if d == '\'' || d == '\"' || d == '\\' || d == '?' {
        c := d;
      } else {
        assert false;
      }
    }
  }

  /** unescape_string: nothing is written beyond the buffer that the first pass measured. */
  method Unescape(s: ByteString) returns (r: Option<(string, nat)>)
    ensures r == Unescaped(s)
  {
    hide Close, Decoded;
    if At(s, 0) != '\"' {
      return None;
    }
    var close := FindClose(s);
    if close.None? {
      return None;
    }
    ghost var e := close.value;
    var result := new char[close.value + 1];
    var out: nat, cp: nat := 0, 1;
    JoinedNothing(result[..0], Decoded(s, 1, e));
    while s[cp] != '\"'
      invariant cp <= e < |s| && out < cp && Close(s, cp) == Some(e)
      invariant Joined(result[..out], Decoded(s, cp, e)) == Decoded(s, 1, e)
      decreases e - cp
    {
      NotYet(s, cp, e);
      var ok, c, next := DecodeOne(s, cp, e);
      if !ok {
        return None;
      }
      JoinedPrepend(result[..out], c, Decoded(s, next, e));
      result[out] := c;
      assert result[..out + 1] == result[..out] + [c];
      out, cp := out + 1, next;
    }
    NotYet(s, cp, e);
    assert result[..out] + "" == result[..out];
    result[out] := '\0';
    return Some((result[..out], cp + 1));
  }

  lemma NotYet(s: ByteString, k: nat, e: nat)
    requires k <= e < |s| && Close(s, k) == Some(e)
    ensures s[k] == '\"' <==> k == e
    ensures k == e ==> Decoded(s, k, e) == Some("")
  {
  }

  // ---------------------------------------------------------------------------------------------
  // When unescaping fails.

  /** Where the character or escape at k ends, if the first pass accepts it. */
  function Next(s: ByteString, k: nat, e: nat): (n: nat)
    requires k < e < |s| && Close(s, k) == Some(e)
    ensures k < n <= e && Close(s, n) == Some(e)
  {
    if s[k] != '\\' then k + 1
    else if s[k + 1] in {'x', 'X'} then k + 4
    else if IsOctal(s[k + 1]) then OctalEnd(s, k)
    else k + 2
  }

  /** A character or escape of the text from k on begins at p. */
  ghost predicate Begins(s: ByteString, k: nat, e: nat, p: nat)
    requires k <= e < |s| && Close(s, k) == Some(e)
    decreases e - k
  {
    k < e && (p == k || Begins(s, Next(s, k, e), e, p))
  }

  /** It is an octal escape for a number above 255. */
  predicate BigOctal(s: ByteString, p: nat) {
    p + 1 < |s| && s[p] == '\\' && IsOctal(s[p + 1]) && OctalValue(s, p) > 255
  }

  lemma {:induction false} DecodedUnlessBig(s: ByteString, k: nat, e: nat)
    requires k <= e < |s| && Close(s, k) == Some(e)
    ensures Decoded(s, k, e) == None <==> exists p :: Begins(s, k, e, p) && BigOctal(s, p)
    decreases e - k
  {
    hide Close, OctalValue;
    if k == e {
      NotYet(s, k, e);
    } else {
      var n := Next(s, k, e);
      DecodedUnlessBig(s, n, e);
      DecodedNext(s, k, e);
      assert forall p :: Begins(s, k, e, p) <==> p == k || Begins(s, n, e, p);
    }
  }

  lemma DecodedNext(s: ByteString, k: nat, e: nat)
    requires k < e < |s| && Close(s, k) == Some(e)
    ensures Decoded(s, k, e) == None <==> BigOctal(s, k) || Decoded(s, Next(s, k, e), e) == None
  {
    hide OctalValue;
  }

  /** unescape_string fails exactly when the first pass does, or on an octal escape above 255. */
  lemma FailsOnlyOnBigOctals(s: ByteString)
    ensures Unescaped(s) == None <==>
              || s == [] || s[0] != '\"' || Close(s, 1) == None
              || exists p :: Begins(s, 1, Close(s, 1).value, p) && BigOctal(s, p)
  {
    hide Close, Decoded, Begins, BigOctal;
    if s != [] && s[0] == '\"' && Close(s, 1).Some? {
      DecodedUnlessBig(s, 1, Close(s, 1).value);
    }
  }

  // ---------------------------------------------------------------------------------------------
  // The round trip.

  /** A piece is read as the character it was written for, whatever follows it. */
  lemma PieceReads(t: ByteString, p: nat, c: char, e: nat)
    requires 0 < c as int < 256 && p + |Piece(c)| <= |t| && t[p..p + |Piece(c)|] == Piece(c)
    requires p + |Piece(c)| <= e < |t| && Close(t, p + |Piece(c)|) == Some(e)
    ensures Close(t, p) == Some(e) && Decoded(t, p, e) == Prepend(c, Decoded(t, p + |Piece(c)|, e))
  {
    var q := Piece(c);
    assert t[p] == q[0] && (|q| > 1 ==> t[p + 1] == q[1]) && (|q| > 2 ==> t[p + 2] == q[2])
        && (|q| > 3 ==> t[p + 3] == q[3]);
    if |q| == 4 {
      OctalReads(c);
    }
  }

  lemma OctalReads(c: char)
    requires c as int < 256
    ensures var n, q := c as int, Octal(c);
            && IsOctal(q[1]) && IsOctal(q[2]) && IsOctal(q[3])
            && ((q[1] as int - 48) * 8 + (q[2] as int - 48)) * 8 + (q[3] as int - 48) == n
  {
  }

  lemma AtClose(t: ByteString, e: nat)
    requires e < |t| && t[e] == '\"'
    ensures Close(t, e) == Some(e) && Decoded(t, e, e) == Some("")
  {
  }

  lemma {:induction false} PiecesRead(s: ByteString, k: nat, t: ByteString, p: nat, e: nat)
    requires k <= |s| && p <= e < |t| && t[p..e] == Pieces(s, k) && t[e] == '\"'
    ensures Close(t, p) == Some(e) && Decoded(t, p, e) == Some(s[k..])
    decreases |s| - k
  {
    hide Piece, Close, Decoded;
    if k == |s| {
      AtClose(t, e);
      assert s[k..] == "" && p == e;
    } else {
      var q := Piece(s[k]);
      var n := p + |q|;
      assert t[p..e][..|q|] == t[p..n] && t[p..e][|q|..] == t[n..e];
      PiecesRead(s, k + 1, t, n, e);
      PieceReads(t, p, s[k], e);
      assert s[k..] == [s[k]] + s[k + 1..];
    }
  }

  lemma {:induction false} PiecesAreText(s: ByteString, k: nat)
    requires k <= |s|
    ensures forall i | 0 <= i < |Pieces(s, k)| :: 0 < Pieces(s, k)[i] as int < 256
    decreases |s| - k
  {
    if k < |s| {
      PiecesAreText(s, k + 1);
    }
  }

  /** unescape_string gives back what esc_for_log was given, and stops right behind its text,
      whatever stands there. */
  lemma RoundTrip(s: ByteString, rest: ByteString)
    ensures var t := Escaped(s) + rest;
            && (forall i | 0 <= i < |t| :: 0 < t[i] as int < 256)
            && Unescaped(t) == Some((s, |Escaped(s)|))
  {
    hide Pieces, Close, Decoded;
    PiecesAreText(s, 0);
    var e := 1 + |Pieces(s, 0)|;
    var t: ByteString := Escaped(s) + rest;
    assert t[1..e] == Pieces(s, 0) && t[e] == '\"';
    PiecesRead(s, 0, t, 1, e);
    assert s[0..] == s;
  }

  // ---------------------------------------------------------------------------------------------
  // What the texts look like.

  /** Whatever the string, its escaped text can be printed. */
  lemma EscapedIsPrintable(s: ByteString)
    ensures forall i | 0 <= i < |Escaped(s)| :: Printable(Escaped(s)[i])
  {
    PiecesArePrintable(s, 0);
  }

  lemma {:induction false} PiecesArePrintable(s: ByteString, k: nat)
    requires k <= |s|
    ensures forall i | 0 <= i < |Pieces(s, k)| :: Printable(Pieces(s, k)[i])
    decreases |s| - k
  {
    hide Piece;
    if k < |s| {
      PieceIsPrintable(s[k]);
      PiecesArePrintable(s, k + 1);
    }
  }

  lemma PieceIsPrintable(c: char)
    requires c as int < 256
    ensures forall i | 0 <= i < |Piece(c)| :: Printable(Piece(c)[i])
  {
  }

  /** A character that needs no escape stands for itself, and only such a one. */
  lemma WrittenAsIs(c: char)
    requires 0 < c as int < 256
    ensures Piece(c) == [c] <==> 32 <= c as int < 127 && c !in {'\\', '\"', '\''}
  {
  }

  /** c is a digit for d in lower or upper case. */
  predicate SpellsDigit(c: char, d: nat) {
    d < 16 && (c == "0123456789abcdef"[d] || c == "0123456789ABCDEF"[d])
  }

  lemma HexDigitIs(c: char, d: nat)
    requires d < 16
    ensures HexDigit(c) == d <==> SpellsDigit(c, d)
    ensures -1 <= HexDigit(c) < 16
  {
  }

  /** A hexadecimal escape is the character with that number. */
  lemma HexReads(s: ByteString, k: nat, e: nat, high: nat, low: nat)
    requires k + 4 <= e < |s| && Close(s, k + 4) == Some(e)
    requires s[k] == '\\' && s[k + 1] in {'x', 'X'} && SpellsDigit(s[k + 2], high) && SpellsDigit(s[k + 3], low)
    ensures Close(s, k) == Some(e)
    ensures Decoded(s, k, e) == Prepend((16 * high + low) as char, Decoded(s, k + 4, e))
  {
    hide HexDigit;
    HexDigitIs(s[k + 2], high);
    HexDigitIs(s[k + 3], low);
  }

  /** So every byte can be written in hexadecimal. */
  lemma HexByte(high: nat, low: nat, s: ByteString)
    requires |s| == 6 && s[0] == '\"' && s[1] == '\\' && s[2] in {'x', 'X'} && s[5] == '\"'
    requires SpellsDigit(s[3], high) && SpellsDigit(s[4], low)
    ensures Unescaped(s) == Some(([(16 * high + low) as char], 6))
  {
    hide Close, Decoded;
    AtClose(s, 5);
    HexReads(s, 1, 5, high, low);
    var c := (16 * high + low) as char;
    assert [c] + "" == [c];
  }

  /** The escapes with a letter of their own. */
  lemma LettersRead()
    ensures Unescaped("\"\\n\\t\\r\"") == Some(("\n\t\r", 8))
    ensures Escaped("\n\t\r") == "\"\\n\\t\\r\""
  {
    LettersEscaped();
    LettersUnescaped("\"\\n\\t\\r\"");
  }

  lemma LettersEscaped()
    ensures Escaped("\n\t\r") == "\"\\n\\t\\r\""
  {
    var t := "\n\t\r";
    PieceOfLetters();
    hide Piece, Pieces;
    PiecesEnd(t);
    PiecesStep(t, 2);
    PiecesStep(t, 1);
    PiecesStep(t, 0);
    assert Pieces(t, 2) == "\\r";
    assert Pieces(t, 1) == "\\t\\r";
    assert Pieces(t, 0) == "\\n\\t\\r";
  }

  lemma LettersUnescaped(s: ByteString)
    requires s == "\"\\n\\t\\r\""
    ensures Unescaped(s) == Some(("\n\t\r", 8))
  {
    hide Close, Decoded;
    AtClose(s, 7);
    LetterReads(s, 5, 7);
    LetterReads(s, 3, 7);
    LetterReads(s, 1, 7);
    assert ['\r'] + "" == "\r";
    assert ['\t'] + "\r" == "\t\r";
    assert ['\n'] + "\t\r" == "\n\t\r";
  }

  lemma LetterReads(s: ByteString, k: nat, e: nat)
    requires k + 2 <= e < |s| && Close(s, k + 2) == Some(e) && s[k] == '\\' && s[k + 1] in {'n', 'r', 't'}
    ensures Close(s, k) == Some(e)
    ensures Decoded(s, k, e) ==
            Prepend(if s[k + 1] == 'n' then '\n' else if s[k + 1] == 'r' then '\r' else '\t', Decoded(s, k + 2, e))
  {
  }

  lemma PieceOfLetters()
    ensures Piece('\n') == "\\n" && Piece('\t') == "\\t" && Piece('\r') == "\\r"
  {
  }
}
