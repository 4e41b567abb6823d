/** JSON strings against the grammar of RFC 8259 section 7: what the decoder takes as a string
    is exactly a sequence of the pieces of that grammar, and what the encoder writes for a
    character is settled by it. Bytes are chars. */
module StringTexts {
  import opened Characters
  import opened NumberText
  import opened JsonGrammar
  import opened JsonStrings

  // ---------- the grammar ----------

  /** A character, an escaped character, an escaped code unit, an escaped surrogate pair. */
  datatype Piece =
    | Plain(c: char)
    | Pair(e: char)
    | Unit(digits: string)
    | Units(high: string, low: string)

  const SHORT := {'"', '\\', '/', 'b', 'f', 'n', 'r', 't'}

  /** The code points that section 7 lists for the two-character escapes. */
  function Meant(e: char): char
    requires e in SHORT
  {
    match e
    case 'b' => 0x08 as char
    case 'f' => 0x0C as char
    case 'n' => 0x0A as char
    case 'r' => 0x0D as char
    case 't' => 0x09 as char
    case _ => e
  }

  /** A hexadecimal digit of either case. */
  function DigitValue(c: char): Option<nat>
  {
    if '0' <= c <= '9' then Some(c as nat - '0' as nat)
    else if 'a' <= c <= 'f' then Some(10 + (c as nat - 'a' as nat))
    else if 'A' <= c <= 'F' then Some(10 + (c as nat - 'A' as nat))
    else None
  }

  predicate FourDigits(s: string)
  {
    |s| == 4 && forall i :: 0 <= i < 4 ==> DigitValue(s[i]).Some?
  }

  function FourValue(s: string): nat
    requires FourDigits(s)
  {
    DigitValue(s[0]).value * 0x1000 + DigitValue(s[1]).value * 0x100 + DigitValue(s[2]).value * 0x10
      + DigitValue(s[3]).value
  }

  /** Which pieces a string can hold: the code takes control characters as they are, the NUL
      apart, where the RFC wants them escaped. */
  predicate Legal(p: Piece)
  {
    match p
    case Plain(c) => c != '"' && c != '\\' && c != '\0'
    case Pair(e) => e in SHORT
    case Unit(digits) => FourDigits(digits) && !High(FourValue(digits)) && !Low(FourValue(digits))
    case Units(high, low) => FourDigits(high) && FourDigits(low) && High(FourValue(high)) && Low(FourValue(low))
  }

  function Written(p: Piece): string
  {
    match p
    case Plain(c) => [c]
    case Pair(e) => ['\\', e]
    case Unit(digits) => "\\u" + digits
    case Units(high, low) => "\\u" + high + "\\u" + low
  }

  /** The bytes it stands for: of code units the UTF-8 form. */
  function Bytes(p: Piece): string
    requires Legal(p)
  {
    match p
    case Plain(c) => [c]
    case Pair(e) => [Meant(e)]
    case Unit(digits) => UnitBytes(FourValue(digits))
    case Units(high, low) =>
      UnitBytes(0x10000 + (FourValue(high) - 0xD800) * 0x400 + (FourValue(low) - 0xDC00))
  }

  function UnitBytes(cp: nat): string
  {
    if cp <= 0x10FFFF then Utf8(cp) else ""
  }

  predicate AllLegal(ps: seq<Piece>)
  {
    ps == [] || (Legal(ps[0]) && AllLegal(ps[1..]))
  }

  function WrittenAll(ps: seq<Piece>): string
  {
    if ps == [] then "" else Written(ps[0]) + WrittenAll(ps[1..])
  }

  function BytesAll(ps: seq<Piece>): string
    requires AllLegal(ps)
  {
    if ps == [] then "" else Bytes(ps[0]) + BytesAll(ps[1..])
  }

  // ---------- hexadecimal digits ----------

  lemma DigitsAgree(c: char)
    ensures HexDigit(c) == match DigitValue(c) case Some(v) => v as int case None => -1
  {
  }

  lemma FourRead(t: string, p: nat)
    ensures Hex4(t, p) >= 0 <==> p + 4 <= |t| && FourDigits(t[p..p + 4])
    ensures Hex4(t, p) >= 0 ==> FourValue(t[p..p + 4]) == Hex4(t, p)
  {
    assert HexDigit('\0') == -1;
    hide HexDigit, DigitValue;
    DigitsAgree(At(t, p));
    DigitsAgree(At(t, p + 1));
    DigitsAgree(At(t, p + 2));
    DigitsAgree(At(t, p + 3));
    if p + 4 <= |t| {
      var u := t[p..p + 4];
      assert u[0] == At(t, p) && u[1] == At(t, p + 1) && u[2] == At(t, p + 2) && u[3] == At(t, p + 3);
    }
  }

  lemma FourAt(t: string, p: nat, digits: string)
    requires TextAt(t, p, digits) && FourDigits(digits)
    ensures Hex4(t, p) == FourValue(digits)
  {
    FourRead(t, p);
  }

  // ---------- one piece ----------

  lemma ShortRead(e: char)
    ensures e in SHORT ==> Unescape(e) == Meant(e) && Unescape(e) != 'u' && Unescape(e) != '\0'
    ensures e !in SHORT ==> Unescape(e) == if e == 'u' then 'u' else '\0'
  {
  }

  lemma SurrogateValue(u: nat, low: nat)
    requires High(u) && Low(low)
    ensures u % 0x400 * 0x400 + low % 0x400 + 0x10000 == 0x10000 + (u - 0xD800) * 0x400 + (low - 0xDC00) <= 0x10FFFF
    ensures u / 0x800 * 0x800 == 0xD800 && u / 0x400 % 2 == 0 && low / 0x400 * 0x400 == 0xDC00
  {
    SurrogateBits(u);
    SurrogateBits(low);
  }

  lemma UnitRead(t: string, p: nat, digits: string)
    requires Legal(Unit(digits)) && TextAt(t, p, "\\u" + digits)
    ensures CodePoint(t, p) == Escape(FourValue(digits), 6) && FourValue(digits) < 0x10000
  {
    hide Utf8, FourValue, FourDigits, Hex4;
    TextSplit(t, p, "\\u", digits);
    FourAt(t, p + 2, digits);
    SurrogateBits(Hex4(t, p + 2));
  }

  lemma UnitsRead(t: string, p: nat, high: string, low: string)
    requires Legal(Units(high, low)) && TextAt(t, p, "\\u" + high + "\\u" + low)
    ensures CodePoint(t, p) == Escape(0x10000 + (FourValue(high) - 0xD800) * 0x400 + (FourValue(low) - 0xDC00), 12)
  {
    hide Utf8, FourValue, FourDigits, Hex4;
    assert |high| == 4 && |low| == 4 by { assert FourDigits(high) && FourDigits(low); Lengths(high); Lengths(low); }
    assert "\\u" + high + "\\u" + low == "\\u" + (high + ("\\u" + low));
    TextSplit(t, p, "\\u", high + ("\\u" + low));
    TextSplit(t, p + 2, high, "\\u" + low);
    TextSplit(t, p + 6, "\\u", low);
    FourAt(t, p + 2, high);
    FourAt(t, p + 8, low);
    CharAt(t, p + 6, "\\u", 0);
    CharAt(t, p + 6, "\\u", 1);
    SurrogateValue(FourValue(high), FourValue(low));
  }

  lemma Lengths(s: string)
    requires FourDigits(s)
    ensures |s| == 4
  {
  }

  /** A piece is read as its bytes. */
  lemma PieceRead(t: string, p: nat, piece: Piece)
    requires p <= |t| && Legal(piece) && TextAt(t, p, Written(piece))
    ensures StringFrom(t, p) == Prefixed(Bytes(piece), StringFrom(t, p + |Written(piece)|))
  {
    hide CodePoint, Utf8, Unescape, FourValue, FourDigits, Hex4, Meant;
    var w := Written(piece);
    CharAt(t, p, w, 0);
    match piece
    case Plain(_) =>
    case Pair(e) =>
      CharAt(t, p, w, 1);
      ShortRead(e);
    case Unit(digits) =>
      CharAt(t, p, w, 1);
      ShortRead('u');
      Lengths(digits);
      UnitRead(t, p, digits);
    case Units(high, low) =>
      CharAt(t, p, w, 1);
      ShortRead('u');
      Lengths(high);
      Lengths(low);
      UnitsRead(t, p, high, low);
      SurrogateValue(FourValue(high), FourValue(low));
  }

  /** Where a string goes on, a piece stands. */
  lemma PieceAt(t: string, p: nat) returns (piece: Piece)
    requires p <= |t| && StringFrom(t, p).Quoted? && At(t, p) != '"'
    ensures Legal(piece) && TextAt(t, p, Written(piece))
  {
    hide Utf8, Unescape, FourValue, FourDigits, Hex4, Meant;
    var c := At(t, p);
    if c != '\\' {
      piece := Plain(c);
      assert t[p..p + 1] == [c];
    } else {
      var e := At(t, p + 1);
      ShortRead(e);
      if e == 'u' {
        piece := EscapeAt(t, p);
      } else {
        piece := Pair(e);
        assert t[p..p + 2] == ['\\', e];
      }
    }
  }

  lemma EscapeAt(t: string, p: nat) returns (piece: Piece)
    requires At(t, p) == '\\' && At(t, p + 1) == 'u' && CodePoint(t, p).Escape?
    ensures Legal(piece) && TextAt(t, p, Written(piece))
  {
    hide Utf8, Hex4;
    EscapeMeaning(t, p);
    FourRead(t, p + 2);
    var high := t[p + 2..p + 6];
    assert t[p..p + 6] == "\\u" + high;
    if CodePoint(t, p).len == 6 {
      piece := Unit(high);
    } else {
      FourRead(t, p + 8);
      var low := t[p + 8..p + 12];
      assert t[p + 6..p + 12] == "\\u" + low;
      piece := Units(high, low);
      assert t[p..p + 12] == t[p..p + 6] + t[p + 6..p + 12] == Written(piece);
    }
  }

  // ---------- whole strings ----------

  lemma {:induction false} PiecesRead(t: string, p: nat, ps: seq<Piece>)
    requires p <= |t| && AllLegal(ps) && TextAt(t, p, WrittenAll(ps) + "\"")
    ensures StringFrom(t, p) == Quoted(BytesAll(ps), p + |WrittenAll(ps)| + 1)
    decreases ps
  {
    hide Written, Bytes, Legal;
    if ps == [] {
      CharAt(t, p, "\"", 0);
    } else {
      var w, more := Written(ps[0]), WrittenAll(ps[1..]);
      assert WrittenAll(ps) + "\"" == w + (more + "\"");
      TextSplit(t, p, w, more + "\"");
      PieceRead(t, p, ps[0]);
      PiecesRead(t, p + |w|, ps[1..]);
    }
  }

  lemma Regroup(a: string, b: string, c: string)
    ensures a + (b + c) == (a + b) + c
  {
  }

  lemma TextJoin(t: string, p: nat, u: string, v: string)
    requires TextAt(t, p, u) && TextAt(t, p + |u|, v)
    ensures TextAt(t, p, u + v)
  {
    var q := p + |u|;
    assert t[p..q + |v|] == t[p..q] + t[q..q + |v|];
  }

  lemma SomeWritten(p: Piece)
    ensures Written(p) != ""
  {
  }

  lemma {:induction false} PiecesOf(t: string, p: nat) returns (ps: seq<Piece>)
    requires p <= |t| && StringFrom(t, p).Quoted?
    ensures AllLegal(ps) && TextAt(t, p, WrittenAll(ps) + "\"")
    decreases |t| - p
  {
    hide Bytes, Legal, Written, StringFrom;
    if At(t, p) == '"' {
      ps := [];
      assert t[p..p + 1] == "\"";
    } else {
      var piece := PieceAt(t, p);
      PieceRead(t, p, piece);
      SomeWritten(piece);
      var q := p + |Written(piece)|;
      var more := PiecesOf(t, q);
      ps := [piece] + more;
      TextJoin(t, p, Written(piece), WrittenAll(more) + "\"");
      Regroup(Written(piece), WrittenAll(more), "\"");
    }
  }

  ghost predicate Stands(ps: seq<Piece>, t: string, p: nat, s: string, end: nat)
  {
    AllLegal(ps) && TextAt(t, p, WrittenAll(ps) + "\"") && s == BytesAll(ps) && end == p + |WrittenAll(ps)| + 1
  }

  /** A string is taken off exactly when pieces and a quote stand there, and it is their bytes. */
  lemma StringsExactly(t: string, p: nat, s: string, end: nat)
    requires p <= |t|
    ensures StringFrom(t, p) == Quoted(s, end) <==> exists ps :: Stands(ps, t, p, s, end)
  {
    hide StringFrom, AllLegal, WrittenAll, BytesAll;
    if StringFrom(t, p) == Quoted(s, end) {
      var ps := PiecesOf(t, p);
      PiecesRead(t, p, ps);
      assert Stands(ps, t, p, s, end);
    }
    if ps :| Stands(ps, t, p, s, end) {
      PiecesRead(t, p, ps);
    }
  }

  // ---------- what the encoder writes ----------

  predicate Copied(c: char)
  {
    c >= 32 as char && c != 127 as char && c != '"' && c != '\\' && c != '/'
  }

  /** A character that needs no escape as it is, one that has a two-character escape as that, and
      any other as its code in lower-case digits. */
  predicate WrittenFor(c: char, p: Piece)
  {
    match p
    case Plain(d) => Copied(c) && d == c
    case Pair(e) => !Copied(c) && e in SHORT && Meant(e) == c
    case Unit(digits) =>
      && !Copied(c) && (forall e :: e in SHORT ==> Meant(e) != c)
      && FourDigits(digits) && FourValue(digits) == c as nat && forall i :: 0 <= i < 4 ==> !('A' <= digits[i] <= 'F')
    case Units(_, _) => false
  }

  ghost predicate WrittenForAll(s: string, ps: seq<Piece>)
  {
    |ps| == |s| && forall i :: 0 <= i < |s| ==> WrittenFor(s[i], ps[i])
  }

  lemma EscapeDigits(c: char) returns (digits: string)
    requires c < 128 as char
    ensures digits == "00" + [HexChar(c as nat / 16), HexChar(c as nat % 16)]
    ensures FourDigits(digits) && FourValue(digits) == c as nat && forall i :: 0 <= i < 4 ==> !('A' <= digits[i] <= 'F')
  {
    digits := "00" + [HexChar(c as nat / 16), HexChar(c as nat % 16)];
  }

  lemma EscapedPiece(c: char) returns (p: Piece)
    ensures WrittenFor(c, p) && Legal(p) && EscapeChar(c) == Written(p) && Bytes(p) == [c]
  {
    hide FourValue, FourDigits;
    if Char2Escape(c) == "" {
      p := Plain(c);
    } else if |Char2Escape(c)| == 2 {
      p := Pair(Char2Escape(c)[1]);
    } else {
      var digits := EscapeDigits(c);
      p := Unit(digits);
      assert Char2Escape(c) == "\\u" + digits;
      assert Utf8(c as nat) == [c];
    }
  }

  /** Each character has one such piece. */
  lemma OnePiece(c: char, p: Piece, q: Piece)
    requires WrittenFor(c, p) && WrittenFor(c, q)
    ensures p == q
  {
    if p.Unit? && q.Unit? {
      SameDigits(p.digits, q.digits);
    }
  }

  lemma SameDigits(a: string, b: string)
    requires FourDigits(a) && FourDigits(b) && FourValue(a) == FourValue(b)
    requires forall i :: 0 <= i < 4 ==> !('A' <= a[i] <= 'F') && !('A' <= b[i] <= 'F')
    ensures a == b
  {
    ValuesBelow(a);
    ValuesBelow(b);
    hide DigitValue;
    var v, w := DigitValue(a[0]).value, DigitValue(b[0]).value;
    SameNumber(v, DigitValue(a[1]).value, DigitValue(a[2]).value, DigitValue(a[3]).value,
               w, DigitValue(b[1]).value, DigitValue(b[2]).value, DigitValue(b[3]).value);
    SameDigit(a[0], b[0]);
    SameDigit(a[1], b[1]);
    SameDigit(a[2], b[2]);
    SameDigit(a[3], b[3]);
  }

  lemma ValuesBelow(a: string)
    requires FourDigits(a)
    ensures forall i :: 0 <= i < 4 ==> DigitValue(a[i]).value < 16
  {
  }

  lemma SameNumber(a: nat, b: nat, c: nat, d: nat, a': nat, b': nat, c': nat, d': nat)
    requires a < 16 && b < 16 && c < 16 && d < 16 && a' < 16 && b' < 16 && c' < 16 && d' < 16
    requires a * 0x1000 + b * 0x100 + c * 0x10 + d == a' * 0x1000 + b' * 0x100 + c' * 0x10 + d'
    ensures a == a' && b == b' && c == c' && d == d'
  {
  }

  lemma SameDigit(a: char, b: char)
    requires DigitValue(a).Some? && DigitValue(a) == DigitValue(b) && !('A' <= a <= 'F') && !('A' <= b <= 'F')
    ensures a == b
  {
  }

  lemma OneLegal(p: Piece)
    requires Legal(p)
    ensures AllLegal([p]) && WrittenAll([p]) == Written(p) && BytesAll([p]) == Bytes(p)
  {
    hide Legal, Written, Bytes;
    assert [p][1..] == [];
  }

  lemma {:induction false} PiecesSnoc(ps: seq<Piece>, p: Piece)
    requires AllLegal(ps) && Legal(p)
    ensures AllLegal(ps + [p]) && WrittenAll(ps + [p]) == WrittenAll(ps) + Written(p)
    ensures BytesAll(ps + [p]) == BytesAll(ps) + Bytes(p)
  {
    hide Legal, Written, Bytes;
    if ps == [] {
      assert ps + [p] == [p];
      OneLegal(p);
    } else {
      var x, more := ps[0], ps[1..];
      assert (ps + [p])[0] == x && (ps + [p])[1..] == more + [p];
      PiecesSnoc(more, p);
      Regroup(Written(x), WrittenAll(more), Written(p));
      Regroup(Bytes(x), BytesAll(more), Bytes(p));
    }
  }

  /** The text written for a string is that of the one piece for each of its characters. */
  lemma {:induction false} EscapedPieces(s: string) returns (ps: seq<Piece>)
    ensures WrittenForAll(s, ps) && AllLegal(ps) && EscapeAll(s) == WrittenAll(ps) && BytesAll(ps) == s
  {
    hide WrittenFor, Legal, Written, Bytes, EscapeChar;
    if s == [] {
      ps := [];
    } else {
      var n := |s| - 1;
      var front := EscapedPieces(s[..n]);
      var p := EscapedPiece(s[n]);
      ps := front + [p];
      PiecesSnoc(front, p);
      assert s == s[..n] + [s[n]];
    }
  }

  lemma NoControl(c: char)
    ensures forall d :: d in EscapeChar(c) ==> 32 as char <= d != 127 as char
  {
  }

  /** No control character is written, 127 included. */
  lemma {:induction false} NoControls(s: string)
    ensures forall c :: c in EscapeAll(s) ==> 32 as char <= c != 127 as char
  {
    hide EscapeChar;
    if s != [] {
      NoControls(s[..|s| - 1]);
      NoControl(s[|s| - 1]);
    }
  }
}
