/** JSON texts: what json_decode takes, character by character. A text decodes exactly when it is
    tokens of the grammar of RFC 8259 with blanks around them, in the order of one value. */
module JsonTexts {
  import opened Characters
  import opened SpecialNumbers
  import opened NumberScan
  import opened NumberText
  import opened JsonGrammar
  import opened JsonStrings
  import opened JsonTokens
  import opened JsonValues
  import opened JsonDecode
  import opened JsonEncode
  import Strings = StringTexts
  import Numbers = NumberTexts
  import Loose = LooseNumbers

  // ---------- the grammar ----------

  /** Section 2 of RFC 8259. */
  predicate Ws(c: char)
  {
    c in {' ', '\t', '\n', '\r'}
  }

  predicate Blanks(g: string)
  {
    forall i :: 0 <= i < |g| ==> Ws(g[i])
  }

  ghost predicate Quotes(u: string, s: string, ps: seq<Strings.Piece>)
  {
    Strings.AllLegal(ps) && u == "\"" + (Strings.WrittenAll(ps) + "\"") && s == Strings.BytesAll(ps)
  }

  ghost predicate Numbered(u: string, f: Numbers.Form)
  {
    Numbers.Legal(f) && u == Numbers.Spelling(f)
  }

  ghost predicate LooselyNumbered(u: string, n: Loose.Loose)
  {
    Loose.LegalLoose(n) && u == Loose.LooseText(n)
  }

  /** The spellings of a token; numbers as the setting for invalid ones has it. */
  ghost predicate Spells(u: string, tok: Token, invalid: bool)
  {
    match tok
    case ObjBegin => u == "{"
    case ObjEnd => u == "}"
    case ArrBegin => u == "["
    case ArrEnd => u == "]"
    case Colon => u == ":"
    case Comma => u == ","
    case StrToken(s) => exists ps :: Quotes(u, s, ps)
    case NumToken(text) =>
      u == text && if invalid then exists n :: LooselyNumbered(u, n) else exists f :: Numbered(u, f)
    case BoolToken(b) => u == if b then "true" else "false"
    case NullToken => u == "null"
    case End => false
    case Error => false
  }

  /** A token, how it is spelt, and the blanks before it. */
  datatype Lexeme = Lexeme(gap: string, text: string, tok: Token)

  ghost predicate Lexemes(ls: seq<Lexeme>, invalid: bool)
  {
    ls == [] || (Blanks(ls[0].gap) && Spells(ls[0].text, ls[0].tok, invalid) && Lexemes(ls[1..], invalid))
  }

  function Joined(ls: seq<Lexeme>, tail: string): string
  {
    if ls == [] then tail else ls[0].gap + (ls[0].text + Joined(ls[1..], tail))
  }

  function Toks(ls: seq<Lexeme>): seq<Token>
  {
    if ls == [] then [] else [ls[0].tok] + Toks(ls[1..])
  }

  ghost predicate Reads(t: string, ls: seq<Lexeme>, tail: string, ts: seq<Token>, invalid: bool)
  {
    Lexemes(ls, invalid) && Blanks(tail) && t == Joined(ls, tail) && Toks(ls) == ts
  }

  /** t is a text of the syntax tree s. */
  ghost predicate TextOf(t: string, s: Syntax, invalid: bool)
  {
    exists ls, tail :: Reads(t, ls, tail, Flatten(s), invalid)
  }

  // ---------- blanks ----------

  lemma BlankClass(c: char)
    ensures ClassOf(c) == Blank <==> Ws(c)
  {
  }

  /** A blank before a token makes no difference. */
  lemma BlankSkipped(t: string, p: nat, invalid: bool)
    requires p < |t| && Ws(t[p])
    ensures Tokens(t, p, invalid) == Tokens(t, p + 1, invalid)
  {
    hide TokenAt;
  }

  /** Any other character is an error where a token should start, unless it is one that a token
      starts with. */
  lemma StrayCharacter(t: string, p: nat, invalid: bool)
    requires p < |t| && !Ws(t[p]) && t[p] !in "\0{}[]:,\"-0123456789tfn"
    requires !invalid || t[p] !in "+iIN"
    ensures Tokens(t, p, invalid) == [Error]
  {
    hide StringTokenAt, NumberFrom;
    OtherWord(t, p, "true");
    OtherWord(t, p, "false");
    OtherWord(t, p, "null");
  }

  lemma {:induction false} SkipRun(t: string, p: nat, g: string)
    requires TextAt(t, p, g) && Blanks(g) && ClassOf(At(t, p + |g|)) != Blank
    ensures SkipBlanks(t, p) == p + |g|
    decreases |g|
  {
    hide ClassOf;
    if g != "" {
      CharAt(t, p, g, 0);
      BlankClass(g[0]);
      assert g == [g[0]] + g[1..];
      TextSplit(t, p, [g[0]], g[1..]);
      SkipRun(t, p + 1, g[1..]);
    }
  }

  lemma {:induction false} SkipShape(t: string, p: nat)
    requires p <= |t|
    ensures Blanks(t[p..SkipBlanks(t, p)])
    decreases |t| - p
  {
    hide ClassOf;
    BlankClass(At(t, p));
    if ClassOf(At(t, p)) == Blank {
      SkipShape(t, p + 1);
      var q := SkipBlanks(t, p);
      assert t[p..q] == [t[p]] + t[p + 1..q];
    }
  }

  // ---------- one token ----------

  lemma SpeltString(t: string, p: nat, u: string, s: string, invalid: bool)
    requires p <= |t| && Spells(u, StrToken(s), invalid) && TextAt(t, p, u)
    ensures TokenAt(t, p, invalid) == Lexed(StrToken(s), p + |u|) && At(t, p) == '"'
  {
    hide StringFrom, Strings.WrittenAll, Strings.BytesAll, Strings.AllLegal;
    var ps :| Quotes(u, s, ps);
    TextSplit(t, p, "\"", Strings.WrittenAll(ps) + "\"");
    CharAt(t, p, "\"", 0);
    Strings.PiecesRead(t, p + 1, ps);
  }

  lemma SpeltNumber(t: string, p: nat, u: string, invalid: bool)
    requires p <= |t| && Spells(u, NumToken(u), invalid) && TextAt(t, p, u) && Loose.Ending(At(t, p + |u|))
    ensures TokenAt(t, p, invalid) == Lexed(NumToken(u), p + |u|) && !Ws(At(t, p))
  {
    hide NumberEnd, InvalidNumber, Numbers.Legal, Numbers.Spelling, Loose.LegalLoose, Loose.LooseText;
    if invalid {
      var n :| LooselyNumbered(u, n);
      Loose.LooseTaken(t, p, n);
      TriedToken(t, p);
    } else {
      var f :| Numbered(u, f);
      Numbers.NumberTaken(t, p, f);
    }
  }

  /** Where the tolerant decoder tries for a number, no word stands. */
  lemma TriedToken(t: string, p: nat)
    requires p <= |t| && Loose.Tried(t, p)
    ensures TokenAt(t, p, true) == NumberFrom(t, p) && !Ws(At(t, p))
  {
    hide NumberFrom, StringTokenAt;
    OtherWord(t, p, "true");
    OtherWord(t, p, "false");
    if At(t, p) == 'n' {
      NanNotNull(t, p);
    } else {
      OtherWord(t, p, "null");
    }
    hide InvalidNumber, TextAt;
  }

  lemma NanNotNull(t: string, p: nat)
    requires p <= |t| && At(t, p) == 'n' && InvalidNumber(t, p)
    ensures !TextAt(t, p, "null")
  {
    FirstLetter(t, p, "inf");
    assert Lower(t[p + 1]) == "nan"[1] == 'a';
    if p + 4 <= |t| {
      assert t[p..p + 4][1] == t[p + 1] && "null"[1] == 'u';
    }
  }

  lemma SpeltWord(t: string, p: nat, u: string, tok: Token, invalid: bool)
    requires Spells(u, tok, invalid) && (tok.BoolToken? || tok.NullToken?) && TextAt(t, p, u)
    ensures TokenAt(t, p, invalid) == Lexed(tok, p + |u|) && At(t, p) in "tfn"
  {
    hide StringTokenAt, NumberFrom, InvalidNumber, TextAt;
    CharAt(t, p, u, 0);
    OtherWord(t, p, if u[0] == 't' then "false" else "true");
    OtherWord(t, p, if u[0] == 'n' then "false" else "null");
  }

  /** A spelling is taken as its token, a number in front of what cannot carry it on. */
  lemma SpeltHere(t: string, p: nat, u: string, tok: Token, invalid: bool)
    requires p <= |t| && Spells(u, tok, invalid) && TextAt(t, p, u)
    requires tok.NumToken? ==> Loose.Ending(At(t, p + |u|))
    ensures TokenAt(t, p, invalid) == Lexed(tok, p + |u|) && tok !in {End, Error}
    ensures ClassOf(At(t, p)) != Blank
  {
    hide TokenAt, TextAt, ClassOf;
    BlankClass(At(t, p));
    match tok
    case StrToken(s) => SpeltString(t, p, u, s, invalid);
    case NumToken(_) => SpeltNumber(t, p, u, invalid);
    case BoolToken(_) => SpeltWord(t, p, u, tok, invalid);
    case NullToken => SpeltWord(t, p, u, tok, invalid);
    case _ => SpeltSingle(t, p, u, tok, invalid);
  }

  lemma SpeltSingle(t: string, p: nat, u: string, tok: Token, invalid: bool)
    requires Spells(u, tok, invalid) && tok in {ObjBegin, ObjEnd, ArrBegin, ArrEnd, Colon, Comma} && TextAt(t, p, u)
    ensures TokenAt(t, p, invalid) == Lexed(tok, p + 1) && |u| == 1 && ClassOf(At(t, p)) == Single(tok)
  {
    hide StringTokenAt, NumberFrom, InvalidNumber, TextAt;
    CharAt(t, p, u, 0);
  }

  /** What is taken as a token is a spelling of it. */
  lemma SpellingHere(t: string, p: nat, invalid: bool)
    requires p <= |t| && ClassOf(At(t, p)) != Blank && TokenAt(t, p, invalid).tok !in {End, Error}
    ensures var n := TokenAt(t, p, invalid); p < n.end <= |t| && Spells(t[p..n.end], n.tok, invalid)
  {
    hide StringTokenAt, NumberFrom, InvalidNumber, Spells;
    var c, n := At(t, p), TokenAt(t, p, invalid);
    if c == '"' {
      StringHere(t, p, invalid);
    } else if ClassOf(c).Single? {
      SingleHere(t, p, c, invalid);
    } else if n.tok.BoolToken? || n.tok.NullToken? {
      WordHere(t, p, invalid);
    } else {
      NumberPlace(t, p, invalid);
      NumberHere(t, p, invalid);
    }
  }

  lemma WordHere(t: string, p: nat, invalid: bool)
    requires p <= |t| && (TokenAt(t, p, invalid).tok.BoolToken? || TokenAt(t, p, invalid).tok.NullToken?)
    ensures var n := TokenAt(t, p, invalid); p < n.end <= |t| && Spells(t[p..n.end], n.tok, invalid)
  {
    hide StringTokenAt, NumberFrom, InvalidNumber;
    assert NumberFrom(t, p).tok.NumToken? || NumberFrom(t, p).tok == Error by { NumberOnly(t, p); }
    assert At(t, p) == '"' && p < |t| ==> StringTokenAt(t, p).tok.StrToken? || StringTokenAt(t, p).tok == Error by {
      StringOnly(t, p);
    }
  }

  /** Where a number was looked for. */
  lemma NumberPlace(t: string, p: nat, invalid: bool)
    requires p <= |t| && ClassOf(At(t, p)).Unknown? && At(t, p) != '"'
    requires TokenAt(t, p, invalid).tok !in {Error, NullToken, BoolToken(true), BoolToken(false)}
    ensures TokenAt(t, p, invalid) == NumberFrom(t, p)
    ensures if invalid then Loose.Tried(t, p) else (At(t, p) == '-' || IsDigit(At(t, p))) && !InvalidNumber(t, p)
  {
    hide NumberFrom, InvalidNumber, TextAt;
    if invalid && InvalidNumber(t, p) {
      InvalidPlace(t, p);
    }
  }

  lemma InvalidPlace(t: string, p: nat)
    requires p <= |t| && InvalidNumber(t, p) && ClassOf(At(t, p)).Unknown?
    ensures At(t, p) in {'-', '+'} || IsDigit(At(t, p)) || Lower(At(t, p)) == 'i' || Lower(At(t, p)) == 'n'
  {
    FirstLetter(t, p, "inf");
    FirstLetter(t, p, "nan");
  }

  lemma FirstLetter(t: string, p: nat, word: string)
    requires word != ""
    ensures BeginsAnyCase(t, p, word) ==> Lower(At(t, p)) == word[0]
  {
    assert BeginsAnyCase(t, p, word) ==> Lower(t[p + 0]) == word[0];
  }

  lemma NumberOnly(t: string, p: nat)
    requires p <= |t|
    ensures NumberFrom(t, p).tok.NumToken? || NumberFrom(t, p).tok == Error
  {
    hide NumberEnd;
  }

  lemma StringOnly(t: string, p: nat)
    ensures p < |t| && t[p] == '"' ==> StringTokenAt(t, p).tok.StrToken? || StringTokenAt(t, p).tok == Error
  {
    hide StringFrom;
  }

  lemma SingleHere(t: string, p: nat, c: char, invalid: bool)
    requires p < |t| && t[p] == c && ClassOf(c).Single?
    ensures Spells(t[p..p + 1], ClassOf(c).tok, invalid)
  {
    assert t[p..p + 1] == [c];
  }

  lemma StringHere(t: string, p: nat, invalid: bool)
    requires p < |t| && t[p] == '"' && StringTokenAt(t, p).tok != Error
    ensures var n := StringTokenAt(t, p); Spells(t[p..n.end], n.tok, invalid)
  {
    hide StringFrom, Strings.WrittenAll, Strings.BytesAll, Strings.AllLegal;
    var n := StringTokenAt(t, p);
    var ps := Strings.PiecesOf(t, p + 1);
    Strings.PiecesRead(t, p + 1, ps);
    var w := Strings.WrittenAll(ps) + "\"";
    assert t[p..n.end] == [t[p]] + t[p + 1..n.end];
    assert Quotes(t[p..n.end], n.tok.s, ps);
  }

  lemma NumberHere(t: string, p: nat, invalid: bool)
    requires p <= |t| && NumberFrom(t, p).tok != Error
    requires if invalid then Loose.Tried(t, p) else (At(t, p) == '-' || IsDigit(At(t, p))) && !InvalidNumber(t, p)
    ensures var n := NumberFrom(t, p); Spells(t[p..n.end], n.tok, invalid)
  {
    hide NumberEnd, InvalidNumber, Numbers.Legal, Numbers.Spelling, Loose.LegalLoose, Loose.LooseText, Loose.Tried;
    var n := NumberFrom(t, p);
    if invalid {
      var u := Loose.LooseShape(t, p, n.end);
      assert LooselyNumbered(t[p..n.end], u);
    } else {
      var f := Numbers.NumberShape(t, p, n.end);
      assert Numbered(t[p..n.end], f);
    }
  }

  // ---------- all tokens ----------

  /** Behind a number of a value comes nothing, or one of these. */
  predicate Closes(tok: Token)
  {
    tok in {Comma, ArrEnd, ObjEnd}
  }

  predicate Apart(ts: seq<Token>)
  {
    forall i :: 0 <= i < |ts| - 1 && ts[i].NumToken? ==> Closes(ts[i + 1])
  }

  lemma ApartConcat(a: seq<Token>, b: seq<Token>)
    requires Apart(a) && Apart(b)
    requires a != [] && b != [] && a[|a| - 1].NumToken? ==> Closes(b[0])
    ensures Apart(a + b)
  {
  }

  lemma {:induction false} FlattenApart(s: Syntax)
    ensures Flatten(s) != [] && Apart(Flatten(s))
  {
    hide Apart, FlattenItems, FlattenMembers;
    match s
    case SArr(items) =>
      ItemsApart(items);
      Enclosed([ArrBegin], FlattenItems(items), [ArrEnd]);
    case SObj(members) =>
      MembersApart(members);
      Enclosed([ObjBegin], FlattenMembers(members), [ObjEnd]);
    case _ => Short(Flatten(s));
  }

  lemma Short(ts: seq<Token>)
    requires |ts| == 1
    ensures Apart(ts)
  {
  }

  lemma Enclosed(a: seq<Token>, b: seq<Token>, c: seq<Token>)
    requires |a| == 1 && !a[0].NumToken? && Apart(b) && |c| == 1 && Closes(c[0])
    ensures Apart(a + b + c)
  {
    ApartConcat(a, b);
    ApartConcat(a + b, c);
  }

  lemma {:induction false} ItemsApart(items: seq<Syntax>)
    ensures Apart(FlattenItems(items)) && Apart(MoreItems(items)) && (items != [] ==> MoreItems(items)[0] == Comma)
  {
    hide Flatten;
    if items != [] {
      FlattenApart(items[0]);
      ItemsApart(items[1..]);
      var x, more := Flatten(items[0]), MoreItems(items[1..]);
      ApartConcat(x, more);
      ApartConcat([Comma], x);
      ApartConcat([Comma] + x, more);
    }
  }

  lemma MemberApart(m: Member)
    requires Apart(Flatten(m.value))
    ensures FlattenMember(m) != [] && Apart(FlattenMember(m))
  {
    hide Flatten;
    ApartConcat([StrToken(m.key), Colon], Flatten(m.value));
  }

  lemma {:induction false} MembersApart(ms: seq<Member>)
    ensures Apart(FlattenMembers(ms)) && Apart(MoreMembers(ms)) && (ms != [] ==> MoreMembers(ms)[0] == Comma)
  {
    hide Flatten, FlattenMember;
    if ms != [] {
      FlattenApart(ms[0].value);
      MemberApart(ms[0]);
      MembersApart(ms[1..]);
      var x, more := FlattenMember(ms[0]), MoreMembers(ms[1..]);
      ApartConcat(x, more);
      ApartConcat([Comma], x);
      ApartConcat([Comma] + x, more);
    }
  }

  /** What follows a number does not carry it on. */
  lemma NextStops(ls: seq<Lexeme>, tail: string, invalid: bool)
    requires Lexemes(ls, invalid) && Blanks(tail) && (ls != [] ==> Closes(ls[0].tok))
    ensures Loose.Ending(At(Joined(ls, tail), 0))
  {
    if ls != [] && ls[0].gap == "" {
      assert Joined(ls, tail)[0] == ls[0].text[0];
    } else if ls != [] {
      assert Joined(ls, tail)[0] == ls[0].gap[0];
    }
  }

  lemma PartsAt(t: string, p: nat, a: string, b: string, c: string)
    requires p <= |t| && t[p..] == a + (b + c)
    ensures TextAt(t, p, a) && TextAt(t, p + |a|, b) && t[p + |a| + |b|..] == c
  {
    var u := t[p..];
    assert u[..|a|] == a && u[|a|..|a| + |b|] == b && u[|a| + |b|..] == c;
    assert t[p..p + |a|] == u[..|a|] && t[p + |a|..p + |a| + |b|] == u[|a|..|a| + |b|];
  }

  lemma NextAt(t: string, p: nat)
    requires p <= |t|
    ensures At(t[p..], 0) == At(t, p)
  {
  }

  /** The first token of a text. */
  lemma HeadRead(t: string, p: nat, x: Lexeme, more: seq<Lexeme>, tail: string, invalid: bool)
    requires p <= |t| && t[p..] == x.gap + (x.text + Joined(more, tail))
    requires Blanks(x.gap) && Spells(x.text, x.tok, invalid) && Lexemes(more, invalid) && Blanks(tail)
    requires x.tok.NumToken? && more != [] ==> Closes(more[0].tok)
    ensures var r := p + |x.gap| + |x.text|;
      r <= |t| && t[r..] == Joined(more, tail) && Tokens(t, p, invalid) == [x.tok] + Tokens(t, r, invalid)
  {
    hide TokenAt, SkipBlanks, ClassOf, Blanks, Spells, TextAt, Loose.Ending, Joined, Lexemes;
    var q := p + |x.gap|;
    var r := q + |x.text|;
    PartsAt(t, p, x.gap, x.text, Joined(more, tail));
    InText(t, q, x.text);
    if x.tok.NumToken? {
      NextStops(more, tail, invalid);
      NextAt(t, r);
    }
    SpeltHere(t, q, x.text, x.tok, invalid);
    SkipRun(t, p, x.gap);
  }

  lemma InText(t: string, q: nat, u: string)
    requires TextAt(t, q, u)
    ensures q + |u| <= |t|
  {
  }

  lemma {:induction false} ReadsJoined(t: string, p: nat, ls: seq<Lexeme>, tail: string, invalid: bool)
    requires p <= |t| && t[p..] == Joined(ls, tail) && Lexemes(ls, invalid) && Blanks(tail) && Apart(Toks(ls))
    ensures Tokens(t, p, invalid) == Toks(ls) + [End]
    decreases |ls|
  {
    hide Tokens, Blanks, Spells, Apart;
    if ls == [] {
      TailRead(t, p, tail, invalid);
    } else {
      ApartTail(ls);
      HeadRead(t, p, ls[0], ls[1..], tail, invalid);
      ReadsJoined(t, p + |ls[0].gap| + |ls[0].text|, ls[1..], tail, invalid);
    }
  }

  lemma {:induction false} ApartTail(ls: seq<Lexeme>)
    requires ls != [] && Apart(Toks(ls))
    ensures Apart(Toks(ls[1..])) && (ls[0].tok.NumToken? && |ls| > 1 ==> Closes(ls[1].tok))
  {
    var ts, us := Toks(ls), Toks(ls[1..]);
    assert ts == [ls[0].tok] + us;
    assert forall i :: 0 <= i < |us| ==> us[i] == ts[i + 1];
    if |ls| > 1 {
      assert ts[0] == ls[0].tok && ts[1] == us[0] == ls[1].tok;
    }
  }

  lemma TailRead(t: string, p: nat, tail: string, invalid: bool)
    requires p <= |t| && t[p..] == tail && Blanks(tail)
    ensures Tokens(t, p, invalid) == [End]
  {
    assert TextAt(t, p, tail);
    assert At(t, p + |tail|) == '\0';
    SkipRun(t, p, tail);
  }

  lemma LastOnly(ts: seq<Token>, tok: Token)
    requires [tok] == ts + [End]
    ensures ts == [] && tok == End
  {
    assert |ts + [End]| == 1 && (ts + [End])[|ts|] == End;
  }

  lemma Peeled(ts: seq<Token>, tok: Token, us: seq<Token>)
    requires us != [] && [tok] + us == ts + [End]
    ensures ts != [] && ts[0] == tok && us == ts[1..] + [End]
  {
    var vs := ts + [End];
    assert vs[0] == tok && vs[1..] == us && |vs| > 1;
  }

  /** A text that is all tokens splits into their spellings. */
  lemma {:induction false} JoinedShape(t: string, p: nat, ts: seq<Token>, invalid: bool)
    returns (ls: seq<Lexeme>, tail: string)
    requires '\0' !in t && p <= |t| && Tokens(t, p, invalid) == ts + [End]
    ensures Lexemes(ls, invalid) && Blanks(tail) && t[p..] == Joined(ls, tail) && Toks(ls) == ts
    decreases |t| - p
  {
    hide TokenAt, SkipBlanks, ClassOf, Blanks, Spells;
    var q, n := SkipBlanks(t, p), NextToken(t, p, invalid);
    SkipShape(t, p);
    if n.tok in {End, Error} {
      LastOnly(ts, n.tok);
      AtEnd(t, q, invalid);
      assert t[p..q] == t[p..];
      ls, tail := [], t[p..];
    } else {
      SpellingHere(t, q, invalid);
      Peeled(ts, n.tok, Tokens(t, n.end, invalid));
      var more;
      more, tail := JoinedShape(t, n.end, ts[1..], invalid);
      var x := Lexeme(t[p..q], t[q..n.end], n.tok);
      ls := [x] + more;
      assert t[p..] == x.gap + (x.text + t[n.end..]);
    }
  }

  lemma AtEnd(t: string, q: nat, invalid: bool)
    requires '\0' !in t && q <= |t| && ClassOf(At(t, q)) != Blank
    requires TokenAt(t, q, invalid).tok == End
    ensures q == |t|
  {
    hide StringTokenAt, NumberFrom, InvalidNumber;
  }

  // ---------- texts ----------

  lemma {:induction false} NoNulWritten(ps: seq<Strings.Piece>)
    requires Strings.AllLegal(ps)
    ensures '\0' !in Strings.WrittenAll(ps)
  {
    if ps != [] {
      NoNulPiece(ps[0]);
      NoNulWritten(ps[1..]);
    }
  }

  lemma NoNulDigits(u: string)
    requires Strings.FourDigits(u)
    ensures '\0' !in u
  {
    assert Strings.DigitValue('\0').None?;
  }

  lemma NoNulPiece(p: Strings.Piece)
    requires Strings.Legal(p)
    ensures '\0' !in Strings.Written(p)
  {
    hide Strings.FourDigits, Strings.FourValue;
    match p
    case Unit(digits) => NoNulDigits(digits);
    case Units(high, low) =>
      NoNulDigits(high);
      NoNulDigits(low);
    case _ =>
  }

  lemma NoNulExponent(u: string)
    requires Numbers.ExponentForm(u)
    ensures '\0' !in u
  {
    if u != "" {
      var k := Numbers.DigitsAfter(u);
      assert u == u[..k] + u[k..];
    }
  }

  lemma NoNulMagnitude(f: Numbers.Form)
    requires Numbers.Digits(f.whole) && Numbers.Digits(f.fraction) && Numbers.ExponentForm(f.exponent)
    ensures '\0' !in Numbers.Magnitude(f)
  {
    hide Numbers.ExponentForm;
    NoNulExponent(f.exponent);
    assert '\0' !in f.whole && '\0' !in f.fraction;
  }

  lemma NoNulHex(h: Numbers.HexForm)
    requires Numbers.LegalHex(h)
    ensures '\0' !in Numbers.HexText(h)
  {
    if h.exponent != "" {
      var k := Numbers.DigitsAfter(h.exponent);
      assert h.exponent == h.exponent[..k] + h.exponent[k..];
    }
    assert '\0' !in h.whole && '\0' !in h.fraction && '\0' !in h.exponent;
  }

  lemma NoNulName(u: string)
    requires Loose.NameForm(u)
    ensures '\0' !in u
  {
    if |u| >= 5 && Loose.SameLetters(u[..3], "nan") && u[3] == '(' && u[|u| - 1] == ')' {
      assert u == u[..3] + [u[3]] + u[4..|u| - 1] + [u[|u| - 1]];
      NoNulLetters(u[..3], "nan");
    } else if Loose.SameLetters(u, "inf") {
      NoNulLetters(u, "inf");
    } else if Loose.SameLetters(u, "infinity") {
      NoNulLetters(u, "infinity");
    } else {
      NoNulLetters(u, "nan");
    }
  }

  lemma NoNulLetters(u: string, word: string)
    requires Loose.SameLetters(u, word) && '\0' !in word
    ensures '\0' !in u
  {
    assert Lower('\0') == '\0';
    assert forall i :: 0 <= i < |u| ==> word[i] in word;
  }

  lemma NoNulLoose(n: Loose.Loose)
    requires Loose.LegalLoose(n)
    ensures '\0' !in Loose.LooseText(n)
  {
    hide Numbers.Magnitude, Numbers.HexText, Loose.NameForm, Numbers.LegalHex, Numbers.ExponentForm;
    match n.number
    case Decimal(f) => NoNulMagnitude(f);
    case Hexadecimal(_, h) => NoNulHex(h);
    case Named(name) => NoNulName(name);
  }

  lemma NoNulSpelling(u: string, tok: Token, invalid: bool)
    requires Spells(u, tok, invalid)
    ensures '\0' !in u
  {
    hide Numbers.Magnitude, Strings.AllLegal, Strings.WrittenAll, Strings.BytesAll, Loose.LegalLoose, Loose.LooseText;
    if tok.StrToken? {
      var ps :| Quotes(u, tok.s, ps);
      NoNulWritten(ps);
    } else if tok.NumToken? && invalid {
      var n :| LooselyNumbered(u, n);
      NoNulLoose(n);
    } else if tok.NumToken? {
      var f :| Numbered(u, f);
      NoNulMagnitude(f);
    }
  }

  lemma {:induction false} NoNulJoined(ls: seq<Lexeme>, tail: string, invalid: bool)
    requires Lexemes(ls, invalid) && Blanks(tail)
    ensures '\0' !in Joined(ls, tail)
  {
    hide Spells;
    if ls != [] {
      NoNulSpelling(ls[0].text, ls[0].tok, invalid);
      NoNulJoined(ls[1..], tail, invalid);
    }
  }

  /** The tokens of a text of s are those of s. */
  lemma TextRead(t: string, s: Syntax, invalid: bool)
    requires TextOf(t, s, invalid)
    ensures '\0' !in t && Tokens(t, 0, invalid) == Flatten(s) + [End]
  {
    hide Flatten, Tokens, Apart, Joined, Lexemes, Blanks;
    var ls, tail :| Reads(t, ls, tail, Flatten(s), invalid);
    assert t[0..] == t;
    FlattenApart(s);
    NoNulJoined(ls, tail, invalid);
    ReadsJoined(t, 0, ls, tail, invalid);
  }

  /** And no other text has these tokens. */
  lemma TokensExactly(t: string, s: Syntax, invalid: bool)
    requires '\0' !in t
    ensures Tokens(t, 0, invalid) == Flatten(s) + [End] <==> TextOf(t, s, invalid)
  {
    hide Flatten, Tokens;
    if TextOf(t, s, invalid) {
      TextRead(t, s, invalid);
    }
    if Tokens(t, 0, invalid) == Flatten(s) + [End] {
      var ls, tail := JoinedShape(t, 0, Flatten(s), invalid);
      assert t[0..] == t;
      assert Reads(t, ls, tail, Flatten(s), invalid);
    }
  }

  /** Exactly the texts of the syntax trees within the depth limit are decoded, each to the value
      of its tree. */
  lemma DecodesTexts(t: string, cfg: Config, v: Value)
    requires '\0' !in t
    ensures Decoded(t, cfg) == Some(v) <==>
      exists s :: TextOf(t, s, cfg.invalid) && Depth(s) <= cfg.maxDepth && Build(s) == v
  {
    hide Tokens, Flatten, Depth, Build, Decoded, TextOf;
    assert !WideEncoding(t);
    DecodesGrammar(t, cfg, v);
    forall s
      ensures Tokens(t, 0, cfg.invalid) == Flatten(s) + [End] <==> TextOf(t, s, cfg.invalid)
    {
      TokensExactly(t, s, cfg.invalid);
    }
  }

  /** A text of a syntax tree within the depth limit decodes to its value. */
  lemma SpacedDecodes(t: string, s: Syntax, cfg: Config)
    requires TextOf(t, s, cfg.invalid)
    ensures Decoded(t, cfg) == if Depth(s) <= cfg.maxDepth then Some(Build(s)) else None
  {
    hide Tokens, Flatten, Depth, Build, TextOf, ParseValue;
    TextRead(t, s, cfg.invalid);
    assert !WideEncoding(t);
    ParseFlatten(s, [End], 0, cfg.maxDepth);
  }

  /** However a value is spelt and spaced, it decodes to the value, and is refused when it is
      nested too deeply. */
  lemma SpacedRoundTrip(t: string, v: Value, cfg: Config)
    requires Plain(v) && TextOf(t, ToSyntax(v), cfg.invalid)
    ensures Decoded(t, cfg) == if Nesting(v) <= cfg.maxDepth then Some(v) else None
  {
    hide Depth, Build, TextOf, Plain, ToSyntax, Nesting, Decoded;
    SpacedDecodes(t, ToSyntax(v), cfg);
    SyntaxDepth(v);
    BuildsBack(v);
  }

  // ---------- the tolerant decoder takes more ----------

  lemma SpellsMore(u: string, tok: Token)
    requires Spells(u, tok, false)
    ensures Spells(u, tok, true)
  {
    if tok.NumToken? {
      var f :| Numbered(u, f);
      var n := Loose.Loose(if f.neg then "-" else "", Loose.Decimal(f.(neg := false)));
      assert LooselyNumbered(u, n);
    }
  }

  lemma {:induction false} LexemesMore(ls: seq<Lexeme>)
    requires Lexemes(ls, false)
    ensures Lexemes(ls, true)
  {
    hide Spells;
    if ls != [] {
      SpellsMore(ls[0].text, ls[0].tok);
      LexemesMore(ls[1..]);
    }
  }

  /** Every text for the strict decoder is one for the tolerant decoder, of the same tree. */
  lemma TextMore(t: string, s: Syntax)
    requires TextOf(t, s, false)
    ensures TextOf(t, s, true)
  {
    hide Lexemes, Joined, Flatten;
    var ls, tail :| Reads(t, ls, tail, Flatten(s), false);
    LexemesMore(ls);
    assert Reads(t, ls, tail, Flatten(s), true);
  }

  lemma OneMore(x: Lexeme, t: string, ls: seq<Lexeme>, tail: string, ts: seq<Token>)
    requires Blanks(x.gap) && Spells(x.text, x.tok, false) && Reads(t, ls, tail, ts, false)
    ensures Reads(x.gap + (x.text + t), [x] + ls, tail, [x.tok] + ts, false)
  {
    hide Spells;
    assert ([x] + ls)[1..] == ls;
  }

  lemma ExampleTexts()
    ensures "" + ("]" + "") == "]" && " " + ("2" + "]") == " 2]" && "" + ("," + " 2]") == ", 2]"
    ensures "" + ("1" + ", 2]") == "1, 2]" && "" + ("[" + "1, 2]") == "[1, 2]"
  {
  }

  lemma ExampleSpellings()
    ensures Blanks("") && Blanks(" ") && Reads("", [], "", [], false)
    ensures Spells("[", ArrBegin, false) && Spells(",", Comma, false) && Spells("]", ArrEnd, false)
  {
  }

  lemma ExampleTokens(one: Token, two: Token)
    ensures [ArrBegin] + ([one] + ([Comma] + ([two] + ([ArrEnd] + [])))) == [ArrBegin, one, Comma, two, ArrEnd]
  {
  }

  lemma ExampleReads() returns (ls: seq<Lexeme>)
    requires Spells("1", NumToken("1"), false) && Spells("2", NumToken("2"), false)
    ensures Reads("[1, 2]", ls, "", [ArrBegin, NumToken("1"), Comma, NumToken("2"), ArrEnd], false)
  {
    hide *;
    var one, two := NumToken("1"), NumToken("2");
    ExampleSpellings();
    ExampleTexts();
    OneMore(Lexeme("", "]", ArrEnd), "", [], "", []);
    ls := [Lexeme("", "]", ArrEnd)] + [];
    OneMore(Lexeme(" ", "2", two), "]", ls, "", [ArrEnd] + []);
    ls := [Lexeme(" ", "2", two)] + ls;
    OneMore(Lexeme("", ",", Comma), " 2]", ls, "", [two] + ([ArrEnd] + []));
    ls := [Lexeme("", ",", Comma)] + ls;
    OneMore(Lexeme("", "1", one), ", 2]", ls, "", [Comma] + ([two] + ([ArrEnd] + [])));
    ls := [Lexeme("", "1", one)] + ls;
    OneMore(Lexeme("", "[", ArrBegin), "1, 2]", ls, "", [one] + ([Comma] + ([two] + ([ArrEnd] + []))));
    ls := [Lexeme("", "[", ArrBegin)] + ls;
    ExampleTokens(one, two);
  }

  lemma ExampleValue(s: Syntax)
    requires s == SArr([SNum("1"), SNum("2")])
    ensures Flatten(s) == [ArrBegin, NumToken("1"), Comma, NumToken("2"), ArrEnd] && Depth(s) == 1
    ensures Build(s) == Arr([Num("1"), Num("2")])
  {
  }

  /** A text with blanks that is one. */
  lemma SpacedExample(cfg: Config)
    requires cfg.maxDepth >= 1
    ensures Decoded("[1, 2]", cfg) == Some(Arr([Num("1"), Num("2")]))
  {
    var one, two := Numbers.Form(false, "1", false, "", ""), Numbers.Form(false, "2", false, "", "");
    assert Numbered("1", one) && Numbered("2", two);
    var s := SArr([SNum("1"), SNum("2")]);
    ExampleValue(s);
    var ls := ExampleReads();
    hide *;
    assert TextOf("[1, 2]", s, false) by { ReadsText("[1, 2]", ls, "", s); }
    if cfg.invalid {
      TextMore("[1, 2]", s);
    }
    SpacedDecodes("[1, 2]", s, cfg);
  }

  lemma ReadsText(t: string, ls: seq<Lexeme>, tail: string, s: Syntax)
    requires Reads(t, ls, tail, Flatten(s), false)
    ensures TextOf(t, s, false)
  {
  }

  // ---------- what the encoder writes ----------

  ghost predicate NoGaps(ls: seq<Lexeme>)
  {
    ls == [] || (ls[0].gap == "" && NoGaps(ls[1..]))
  }

  ghost predicate Writes(ls: seq<Lexeme>, t: string, ts: seq<Token>)
  {
    Lexemes(ls, false) && NoGaps(ls) && Joined(ls, "") == t && Toks(ls) == ts
  }

  /** t is spellings of the tokens ts with nothing between them. */
  ghost predicate Compact(t: string, ts: seq<Token>)
  {
    exists ls :: Writes(ls, t, ts)
  }

  lemma CompactNone()
    ensures Compact("", [])
  {
    assert Writes([], "", []);
  }

  lemma CompactOne(u: string, tok: Token)
    requires Spells(u, tok, false)
    ensures Compact(u, [tok])
  {
    hide Spells;
    var ls := [Lexeme("", u, tok)];
    assert ls[1..] == [];
    assert "" + (u + "") == u;
    assert Lexemes([], false) && NoGaps([]) && Joined([], "") == "" && Toks([]) == [];
    assert Lexemes(ls, false) && NoGaps(ls);
    assert Joined(ls, "") == u && Toks(ls) == [tok];
    assert Writes(ls, u, [tok]);
  }

  lemma {:induction false} WritesConcat(a: seq<Lexeme>, b: seq<Lexeme>, t: string, u: string, ts: seq<Token>,
                                        us: seq<Token>)
    requires Writes(a, t, ts) && Writes(b, u, us)
    ensures Writes(a + b, t + u, ts + us)
    decreases |a|
  {
    hide Spells;
    if a == [] {
      assert a + b == b && t + u == u && ts + us == us;
    } else {
      var x, more := a[0], a[1..];
      assert (a + b)[0] == x && (a + b)[1..] == more + b;
      WritesConcat(more, b, Joined(more, ""), u, Toks(more), us);
      Strings.Regroup(x.text, Joined(more, ""), u);
      assert ts + us == [x.tok] + (Toks(more) + us);
    }
  }

  lemma CompactConcat(t: string, ts: seq<Token>, u: string, us: seq<Token>)
    requires Compact(t, ts) && Compact(u, us)
    ensures Compact(t + u, ts + us)
  {
    hide Writes;
    var a, b :| Writes(a, t, ts) && Writes(b, u, us);
    WritesConcat(a, b, t, u, ts, us);
  }

  /** Something between two single tokens. */
  lemma CompactBetween(open: string, a: Token, t: string, ts: seq<Token>, close: string, b: Token)
    requires Spells(open, a, false) && Compact(t, ts) && Spells(close, b, false)
    ensures Compact(open + t + close, [a] + ts + [b])
  {
    hide Spells, Compact;
    CompactOne(open, a);
    CompactOne(close, b);
    CompactConcat(open, [a], t, ts);
    CompactConcat(open + t, [a] + ts, close, [b]);
  }

  lemma NumeralAlone(text: string)
    requires Numeral(text)
    ensures NumberEnd(text, 0) == Some(|text|) && !InvalidNumber(text, 0)
    ensures At(text, 0) == '-' || IsDigit(At(text, 0))
  {
    hide NumberEnd, InvalidNumber;
    assert text[0..0 + |text|] == text;
    assert TextAt(text, 0, text) && Stops(At(text, 0 + |text|));
  }

  lemma NumeralSpells(text: string)
    requires Numeral(text)
    ensures Spells(text, NumToken(text), false)
  {
    NumeralAlone(text);
    hide *;
    var f := Numbers.NumberShape(text, 0, |text|);
    assert text[0..|text|] == text;
    FormSpells(text, f);
  }

  lemma FormSpells(u: string, f: Numbers.Form)
    requires Numbers.Legal(f) && u == Numbers.Spelling(f)
    ensures Spells(u, NumToken(u), false)
  {
    hide Numbers.Legal, Numbers.Spelling;
    assert Numbered(u, f);
  }

  lemma StringSpells(s: string)
    ensures Spells(QuoteText(s), StrToken(s), false)
  {
    hide EscapeAll, Strings.AllLegal, Strings.WrittenAll, Strings.BytesAll;
    var ps := Strings.EscapedPieces(s);
    Strings.Regroup("\"", EscapeAll(s), "\"");
    assert Quotes(QuoteText(s), s, ps);
  }

  lemma {:induction false} PlainPieces(s: string) returns (ps: seq<Strings.Piece>)
    requires NumberChars(s)
    ensures Strings.AllLegal(ps) && Strings.WrittenAll(ps) == s && Strings.BytesAll(ps) == s
  {
    if s == "" {
      ps := [];
    } else {
      var more := PlainPieces(s[1..]);
      ps := [Strings.Plain(s[0])] + more;
      assert ps[1..] == more && s == [s[0]] + s[1..];
    }
  }

  lemma KeySpells(f: Field)
    requires f.numeric ==> Numeral(f.key)
    ensures Spells(KeyText(f), StrToken(f.key), false)
  {
    hide QuoteText, NumberChars, Strings.AllLegal, Strings.WrittenAll, Strings.BytesAll;
    if f.numeric {
      var ps := PlainPieces(f.key);
      Strings.Regroup("\"", f.key, "\"");
      assert Quotes(KeyText(f), f.key, ps);
    } else {
      StringSpells(f.key);
    }
  }

  /** The text written for a value is spellings of its tokens, with no blank between them. */
  lemma {:induction false} CompactText(v: Value)
    requires Writable(v)
    ensures Compact(Text(v), Flatten(ToSyntax(v)))
    decreases v
  {
    hide Compact, Numeral, WritableItems, WritableFields, QuoteText, ItemsText, FieldsText, FlattenItems,
         FlattenMembers;
    match v
    case Null => CompactOne("null", NullToken);
    case Bool(b) => CompactOne(if b then "true" else "false", BoolToken(b));
    case Num(text) =>
      NumeralSpells(text);
      CompactOne(text, NumToken(text));
    case Str(s) =>
      StringSpells(s);
      CompactOne(QuoteText(s), StrToken(s));
    case Arr(items) =>
      CompactItems(items);
      CompactBetween("[", ArrBegin, ItemsText(items), FlattenItems(ItemSyntax(items)), "]", ArrEnd);
    case Obj(fields) =>
      CompactFields(fields);
      CompactBetween("{", ObjBegin, FieldsText(fields), FlattenMembers(FieldSyntax(fields)), "}", ObjEnd);
  }

  lemma {:induction false} CompactItems(items: seq<Value>)
    requires WritableItems(items)
    ensures Compact(ItemsText(items), FlattenItems(ItemSyntax(items)))
    ensures Compact(MoreItemsText(items), MoreItems(ItemSyntax(items)))
    decreases items
  {
    hide Compact, Spells, Writable, Text, Flatten, ToSyntax;
    CompactNone();
    if items != [] {
      var x, more := items[0], items[1..];
      CompactText(x);
      CompactItems(more);
      ItemSyntaxFront(items);
      CompactConcat(Text(x), Flatten(ToSyntax(x)), MoreItemsText(more), MoreItems(ItemSyntax(more)));
      CommaSpells();
      CompactOne(",", Comma);
      CompactConcat(",", [Comma], Text(x), Flatten(ToSyntax(x)));
      CompactConcat("," + Text(x), [Comma] + Flatten(ToSyntax(x)), MoreItemsText(more), MoreItems(ItemSyntax(more)));
    }
  }

  lemma CommaSpells()
    ensures Spells(",", Comma, false) && Spells(":", Colon, false)
  {
  }

  lemma CompactField(f: Field)
    requires Compact(Text(f.value), Flatten(ToSyntax(f.value))) && (f.numeric ==> Numeral(f.key))
    ensures Compact(FieldText(f), FlattenMember(Member(f.key, ToSyntax(f.value))))
  {
    hide Compact, Spells, Text, Flatten, ToSyntax, KeyText, Numeral;
    KeySpells(f);
    CompactOne(KeyText(f), StrToken(f.key));
    CommaSpells();
    CompactOne(":", Colon);
    CompactConcat(KeyText(f), [StrToken(f.key)], ":", [Colon]);
    CompactConcat(KeyText(f) + ":", [StrToken(f.key)] + [Colon], Text(f.value), Flatten(ToSyntax(f.value)));
    Strings.Regroup(KeyText(f), ":", Text(f.value));
    assert [StrToken(f.key)] + [Colon] == [StrToken(f.key), Colon];
  }

  lemma {:induction false} CompactFields(fields: seq<Field>)
    requires WritableFields(fields)
    ensures Compact(FieldsText(fields), FlattenMembers(FieldSyntax(fields)))
    ensures Compact(MoreFieldsText(fields), MoreMembers(FieldSyntax(fields)))
    decreases fields
  {
    hide Compact, Spells, Writable, FieldText, FlattenMember, ToSyntax, Numeral;
    CompactNone();
    if fields != [] {
      var f, more := fields[0], fields[1..];
      var m := Member(f.key, ToSyntax(f.value));
      CompactText(f.value);
      CompactField(f);
      CompactFields(more);
      FieldSyntaxFront(fields);
      CompactConcat(FieldText(f), FlattenMember(m), MoreFieldsText(more), MoreMembers(FieldSyntax(more)));
      CommaSpells();
      CompactOne(",", Comma);
      CompactConcat(",", [Comma], FieldText(f), FlattenMember(m));
      CompactConcat("," + FieldText(f), [Comma] + FlattenMember(m), MoreFieldsText(more),
        MoreMembers(FieldSyntax(more)));
    }
  }

  // ---------- numbers that JSON does not have ----------

  /** The names the encoder writes for infinities and for not-a-number are read back by the
      tolerant decoder, each whole; the sign and the first letter tell which it is. */
  lemma NamesRead(n: Numeric, t: string, p: nat, u: string)
    requires !n.Finite? && NumericText(n, Names) == Some(u) && TextAt(t, p, u)
    requires n.NotANumber? ==> At(t, p + |u|) != '('
    ensures Tokens(t, p, true) == [NumToken(u)] + Tokens(t, p + |u|, true)
    ensures ScanFrom(t, p) == Name(p + |u|)
    ensures u[0] == '-' <==> n == Infinity(true)
    ensures Lower(u[if u[0] == '-' then 1 else 0]) == if n.Infinity? then 'i' else 'n'
  {
    hide *;
    var w := if n.Infinity? then "Infinity" else "NaN";
    var b := if n == Infinity(true) then p + 1 else p;
    NameParts(n, u, w);
    if n == Infinity(true) {
      TextSplit(t, p, "-", w);
      CharAt(t, p, "-", 0);
    }
    LettersMatch(n, t, b, w);
    NameTaken(t, p, b, p + |u|);
    NameToken(t, p, u);
    NameLetters(n, u);
  }

  lemma NameParts(n: Numeric, u: string, w: string)
    requires !n.Finite? && NumericText(n, Names) == Some(u) && w == if n.Infinity? then "Infinity" else "NaN"
    ensures u == (if n == Infinity(true) then "-" + w else w) && |u| > 1
  {
  }

  lemma NameLetters(n: Numeric, u: string)
    requires !n.Finite? && NumericText(n, Names) == Some(u)
    ensures u[0] == '-' <==> n == Infinity(true)
    ensures Lower(u[if u[0] == '-' then 1 else 0]) == if n.Infinity? then 'i' else 'n'
  {
  }

  lemma NameToken(t: string, p: nat, u: string)
    requires TextAt(t, p, u) && u != "" && ScanFrom(t, p) == Name(p + |u|)
    requires At(t, p) == '-' || ((At(t, p) == 'I' || At(t, p) == 'N') && InvalidNumber(t, p))
    ensures Tokens(t, p, true) == [NumToken(u)] + Tokens(t, p + |u|, true)
  {
    hide ScanFrom, InvalidNumber, Tokens, TextAt;
    WholeText(t, p, u);
    OtherWord(t, p, "true");
    OtherWord(t, p, "false");
    OtherWord(t, p, "null");
    NameFrom(t, p, u);
    hide NumberFrom;
    OneToken(t, p, NumToken(u), p + |u|, true);
  }

  lemma NameFrom(t: string, p: nat, u: string)
    requires p + |u| <= |t| && t[p..p + |u|] == u && ScanFrom(t, p) == Name(p + |u|)
    ensures NumberFrom(t, p) == Lexed(NumToken(u), p + |u|)
  {
    hide ScanFrom;
  }

  lemma WholeText(t: string, p: nat, u: string)
    requires TextAt(t, p, u)
    ensures p + |u| <= |t| && t[p..p + |u|] == u
  {
  }

  /** A name behind at most a minus sign. */
  lemma NameTaken(t: string, p: nat, b: nat, end: nat)
    requires b < end && NameEnd(t, b) == end && (At(t, b) == 'I' || At(t, b) == 'N')
    requires b == p || (b == p + 1 && At(t, p) == '-')
    requires BeginsAnyCase(t, b, "inf") || BeginsAnyCase(t, b, "nan")
    ensures ScanFrom(t, p) == Name(end) && (b == p ==> p <= |t| && InvalidNumber(t, p))
  {
    hide NameEnd, BeginsAnyCase;
    assert SpanBlank(t, p) == p && SpanZeros(t, b) == b && SpanDigits(t, b) == b;
  }

  lemma LettersMatch(n: Numeric, t: string, b: nat, w: string)
    requires !n.Finite? && w == (if n.Infinity? then "Infinity" else "NaN") && TextAt(t, b, w)
    requires n.NotANumber? ==> At(t, b + |w|) != '('
    ensures NameEnd(t, b) == b + |w| && BeginsAnyCase(t, b, if n.Infinity? then "inf" else "nan")
    ensures At(t, b) == w[0] && (At(t, b) == 'I' || At(t, b) == 'N')
  {
    hide *;
    if n.Infinity? {
      InfinityMatches(t, b);
    } else {
      NanMatches(t, b);
    }
  }

  lemma InfinityMatches(t: string, b: nat)
    requires TextAt(t, b, "Infinity")
    ensures NameEnd(t, b) == b + 8 && BeginsAnyCase(t, b, "inf") && At(t, b) == 'I'
  {
    TextSplit(t, b, "Inf", "inity");
    CharAt(t, b, "Inf", 0);
    CharAt(t, b, "Inf", 1);
    CharAt(t, b, "Inf", 2);
    CharAt(t, b + 3, "inity", 0);
    CharAt(t, b + 3, "inity", 1);
    CharAt(t, b + 3, "inity", 2);
    CharAt(t, b + 3, "inity", 3);
    CharAt(t, b + 3, "inity", 4);
    hide TextAt;
    MatchTwo(t, b, "nf");
    MatchFive(t, b + 2);
  }

  lemma NanMatches(t: string, b: nat)
    requires TextAt(t, b, "NaN") && At(t, b + 3) != '('
    ensures NameEnd(t, b) == b + 3 && BeginsAnyCase(t, b, "nan") && At(t, b) == 'N'
  {
    CharAt(t, b, "NaN", 0);
    CharAt(t, b, "NaN", 1);
    CharAt(t, b, "NaN", 2);
    hide TextAt;
    MatchTwo(t, b, "an");
  }

  lemma MatchTwo(t: string, b: nat, w: string)
    requires |w| == 2 && Lower(At(t, b + 1)) == w[0] && Lower(At(t, b + 2)) == w[1]
    ensures Matches(t, b, w)
  {
    assert w[1..][0] == w[1] && w[1..][1..] == "";
    assert Matches(t, b + 2, "");
    assert Matches(t, b + 1, w[1..]);
  }

  lemma MatchFive(t: string, b: nat)
    requires Lower(At(t, b + 1)) == 'i' && Lower(At(t, b + 2)) == 'n' && Lower(At(t, b + 3)) == 'i'
    requires Lower(At(t, b + 4)) == 't' && Lower(At(t, b + 5)) == 'y'
    ensures Matches(t, b, "inity")
  {
    MatchTwo(t, b + 3, "ty");
    assert "ity"[1..] == "ty" && "nity"[1..] == "ity" && "inity"[1..] == "nity";
    assert Matches(t, b + 2, "ity");
    assert Matches(t, b + 1, "nity");
  }
}
