/** json_next_token, and the token sequence of a text. */
module JsonTokens {
  import opened Characters
  import opened SpecialNumbers
  import opened NumberScan
  import opened NumberText
  import opened StringBuffers
  import opened JsonGrammar
  import opened JsonStrings

  /** What ch2token holds; Unknown stands for the characters that need a closer look. */
  datatype Class = Blank | Stop | Bad | Single(tok: Token) | Unknown

  function ClassOf(c: char): Class
  {
    match c
    case '{' => Single(ObjBegin)
    case '}' => Single(ObjEnd)
    case '[' => Single(ArrBegin)
    case ']' => Single(ArrEnd)
    case ',' => Single(Comma)
    case ':' => Single(Colon)
    case '\0' => Stop
    case ' ' => Blank
    case '\t' => Blank
    case '\n' => Blank
    case '\r' => Blank
    case _ => if IsDigit(c) || c in {'f', 'i', 'I', 'n', 'N', 't', '"', '+', '-'} then Unknown else Bad
  }

  /** strncasecmp against three lower-case letters. */
  predicate BeginsAnyCase(t: string, p: nat, word: string)
  {
    p + |word| <= |t| && forall i :: 0 <= i < |word| ==> Lower(t[p + i]) == word[i]
  }

  /** json_is_invalid_number */
  predicate InvalidNumber(t: string, p: nat)
    requires p <= |t|
  {
    if Peek(t, p) == '+' then true
    else
      var q := if Peek(t, p) == '-' then p + 1 else p;
      if Peek(t, q) == '0' then
        var d := Peek(t, q + 1);
        d == 'x' || d == 'X' || IsDigit(d)
      else if Peek(t, q) <= '9' then false
      else BeginsAnyCase(t, q, "inf") || BeginsAnyCase(t, q, "nan")
  }

  /** The end of the number that fpconv_strtod takes off at p: of a decimal or a
      hexadecimal number or of the name of infinity or of not-a-number. */
  function NumberEnd(t: string, p: nat): (e: Option<nat>)
    requires p <= |t|
    ensures e.Some? ==> p < e.value <= |t|
  {
    var r := ScanFrom(t, p);
    if r.NoNumber? then None else NumberInside(t, p); Some(r.end)
  }

  /** A number takes at least one character and none behind the end. */
  lemma NumberInside(t: string, p: nat)
    requires p <= |t| && !ScanFrom(t, p).NoNumber?
    ensures p < ScanFrom(t, p).end <= |t|
  {
    hide Mantissa, SpanBlank;
    BlanksInside(t, p);
    var a := SpanBlank(t, p);
    MantissaInside(t, if At(t, a) == '-' || At(t, a) == '+' then a + 1 else a, At(t, a) == '-');
  }

  lemma MantissaInside(t: string, b: nat, neg: bool)
    requires b <= |t|
    ensures !Mantissa(t, b, neg).NoNumber? ==> b < Mantissa(t, b, neg).end <= |t|
  {
    hide NameEnd, Exponent, SpanDigits, SpanZeros;
    var d := SpanDigits(t, SpanZeros(t, b));
    NameInside(t, d);
    assert FractionEnd(t, d) <= |t|;
  }

  lemma {:induction false} BlanksInside(t: string, p: nat)
    requires p <= |t|
    ensures SpanBlank(t, p) <= |t|
    decreases |t| - p
  {
    if p < |t| {
      BlanksInside(t, p + 1);
    }
  }

  /** A token and where reading goes on; errors leave the pointer at their place. */
  datatype Lexed = Lexed(tok: Token, end: nat)

  function NumberFrom(t: string, p: nat): (r: Lexed)
    requires p <= |t|
    ensures p <= r.end <= |t| && (r.tok != Error ==> p < r.end) && r.tok != End
  {
    match NumberEnd(t, p)
    case None => Lexed(Error, p)
    case Some(e) => Lexed(NumToken(t[p..e]), e)
  }

  function StringTokenAt(t: string, p: nat): (r: Lexed)
    requires p < |t| && t[p] == '"'
    ensures p <= r.end <= |t| && (r.tok != Error ==> p < r.end) && r.tok != End
  {
    match StringFrom(t, p + 1)
    case Broken(at) => Lexed(Error, at)
    case Quoted(s, end) => Lexed(StrToken(s), end)
  }

  function SkipBlanks(t: string, p: nat): (q: nat)
    requires p <= |t|
    ensures p <= q <= |t| && ClassOf(At(t, q)) != Blank
    decreases |t| - p
  {
    if ClassOf(At(t, p)) == Blank then SkipBlanks(t, p + 1) else p
  }

  /** The token that starts at p. With `invalid` numbers
      allowed, forms JSON does not have are given to the number scan too. */
  function TokenAt(t: string, p: nat, invalid: bool): (r: Lexed)
    requires p <= |t|
    ensures p <= r.end <= |t| && (r.tok !in {End, Error} ==> p < r.end)
  {
    var c := At(t, p);
    match ClassOf(c)
    case Bad => Lexed(Error, p)
    case Stop => Lexed(End, p)
    case Single(tok) => Lexed(tok, p + 1)
    case _ =>
      if c == '"' then
        StringTokenAt(t, p)
      else if c == '-' || IsDigit(c) then
        if !invalid && InvalidNumber(t, p) then Lexed(Error, p) else NumberFrom(t, p)
      else if TextAt(t, p, "true") then Lexed(BoolToken(true), p + 4)
      else if TextAt(t, p, "false") then Lexed(BoolToken(false), p + 5)
      else if TextAt(t, p, "null") then Lexed(NullToken, p + 4)
      else if invalid && InvalidNumber(t, p) then NumberFrom(t, p)
      else Lexed(Error, p)
  }

  function NextToken(t: string, p: nat, invalid: bool): (r: Lexed)
    requires p <= |t|
    ensures p <= r.end <= |t| && (r.tok !in {End, Error} ==> p < r.end)
  {
    TokenAt(t, SkipBlanks(t, p), invalid)
  }

  /** The tokens from p on, up to the end or the first error. */
  function Tokens(t: string, p: nat, invalid: bool): (ts: seq<Token>)
    requires p <= |t|
    ensures ts != []
    decreases |t| - p
  {
    var n := NextToken(t, p, invalid);
    if n.tok in {End, Error} then [n.tok] else [n.tok] + Tokens(t, n.end, invalid)
  }

  /** The end and errors come last. */
  lemma {:induction false} LastToken(t: string, p: nat, invalid: bool)
    requires p <= |t|
    ensures var ts := Tokens(t, p, invalid);
      && ts[|ts| - 1] in {End, Error}
      && forall i :: 0 <= i < |ts| - 1 ==> ts[i] !in {End, Error}
    decreases |t| - p
  {
    hide NextToken;
    var n := NextToken(t, p, invalid);
    if n.tok !in {End, Error} {
      LastToken(t, n.end, invalid);
    }
  }

  /** json_next_token */
  method ReadToken(t: string, start: nat, invalid: bool, tmp: Strbuf) returns (tok: Token, ptr: nat)
    requires start <= |t| && tmp.Valid() && tmp.size >= |t| + 1
    modifies tmp`length, tmp.buf
    ensures tmp.Valid()
    ensures Lexed(tok, ptr) == NextToken(t, start, invalid)
    ensures tok.StrToken? ==> tmp.Contents() == tok.s
  {
    hide StringFrom, InvalidNumber, NumberEnd;
    ptr := start;
    while ClassOf(Peek(t, ptr)) == Blank
      invariant start <= ptr <= |t| && SkipBlanks(t, ptr) == SkipBlanks(t, start)
      decreases |t| - ptr
    {
      ptr := ptr + 1;
    }
    var c := Peek(t, ptr);
    var kind := ClassOf(c);
    if kind == Bad {
      return Error, ptr;
    }
    if kind == Stop {
      return End, ptr;
    }
    if kind != Unknown {
      return kind.tok, ptr + 1;
    }
    if c == '"' {
      var ok, end := NextString(t, ptr, tmp);
      if ok {
        tok := StrToken(tmp.Contents());
      } else {
        tok := Error;
      }
      ptr := end;
    } else if c == '-' || IsDigit(c) {
      if !invalid && InvalidNumber(t, ptr) {
        return Error, ptr;
      }
      tok, ptr := ReadNumber(t, ptr);
    } else if TextAt(t, ptr, "true") {
      tok, ptr := BoolToken(true), ptr + 4;
    } else if TextAt(t, ptr, "false") {
      tok, ptr := BoolToken(false), ptr + 5;
    } else if TextAt(t, ptr, "null") {
      tok, ptr := NullToken, ptr + 4;
    } else if invalid && InvalidNumber(t, ptr) {
      tok, ptr := ReadNumber(t, ptr);
    } else {
      tok := Error;
    }
  }

  /** json_next_number_token */
  method ReadNumber(t: string, start: nat) returns (tok: Token, ptr: nat)
    requires start <= |t|
    ensures Lexed(tok, ptr) == NumberFrom(t, start)
  {
    var r := Scan(t, start);
    if !r.NoNumber? {
      NumberInside(t, start);
      tok, ptr := NumToken(t[start..r.end]), r.end;
    } else {
      tok, ptr := Error, start;
    }
  }
}
