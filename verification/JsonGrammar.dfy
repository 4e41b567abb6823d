/** JSON at the level of tokens: the grammar of RFC 8259 sections 2 to 5 as a
    flattening of syntax trees, and the recursive descent of json.c that undoes
    it within a nesting limit. */
module JsonGrammar {

  datatype Option<T> = None | Some(value: T)

  /** What json_next_token hands out. */
  datatype Token =
    | ObjBegin | ObjEnd | ArrBegin | ArrEnd | Colon | Comma
    | StrToken(s: string)
    | NumToken(text: string)
    | BoolToken(b: bool)
    | NullToken
    | End
    | Error

  datatype Syntax =
    | SNull
    | SBool(b: bool)
    | SNum(text: string)
    | SStr(s: string)
    | SArr(items: seq<Syntax>)
    | SObj(members: seq<Member>)

  datatype Member = Member(key: string, value: Syntax)

  // ---------- the grammar ----------

  /** The token sequence of a value. */
  function Flatten(v: Syntax): seq<Token>
  {
    match v
    case SNull => [NullToken]
    case SBool(b) => [BoolToken(b)]
    case SNum(text) => [NumToken(text)]
    case SStr(s) => [StrToken(s)]
    case SArr(items) => [ArrBegin] + FlattenItems(items) + [ArrEnd]
    case SObj(members) => [ObjBegin] + FlattenMembers(members) + [ObjEnd]
  }

  function FlattenItems(items: seq<Syntax>): seq<Token>
  {
    if items == [] then [] else Flatten(items[0]) + MoreItems(items[1..])
  }

  /** Each further item after its comma. */
  function MoreItems(items: seq<Syntax>): seq<Token>
  {
    if items == [] then [] else [Comma] + Flatten(items[0]) + MoreItems(items[1..])
  }

  function FlattenMember(m: Member): seq<Token>
  {
    [StrToken(m.key), Colon] + Flatten(m.value)
  }

  function FlattenMembers(ms: seq<Member>): seq<Token>
  {
    if ms == [] then [] else FlattenMember(ms[0]) + MoreMembers(ms[1..])
  }

  function MoreMembers(ms: seq<Member>): seq<Token>
  {
    if ms == [] then [] else [Comma] + FlattenMember(ms[0]) + MoreMembers(ms[1..])
  }

  function Max(a: nat, b: nat): nat
  {
    if a >= b then a else b
  }

  /** How deep arrays and objects are nested. */
  function Depth(v: Syntax): nat
  {
    match v
    case SArr(items) => 1 + DepthItems(items)
    case SObj(members) => 1 + DepthMembers(members)
    case _ => 0
  }

  function DepthItems(items: seq<Syntax>): nat
  {
    if items == [] then 0 else Max(Depth(items[0]), DepthItems(items[1..]))
  }

  function DepthMembers(ms: seq<Member>): nat
  {
    if ms == [] then 0 else Max(Depth(ms[0].value), DepthMembers(ms[1..]))
  }

  // ---------- the depth, by counting brackets ----------

  function Opening(tok: Token): int
  {
    match tok
    case ArrBegin => 1
    case ObjBegin => 1
    case ArrEnd => -1
    case ObjEnd => -1
    case _ => 0
  }

  /** Brackets and braces left open by tokens, and the most that are open anywhere in them. */
  function Open(ts: seq<Token>): int
  {
    if ts == [] then 0 else Opening(ts[0]) + Open(ts[1..])
  }

  function MostOpen(ts: seq<Token>): (m: nat)
  {
    if ts == [] then 0
    else
      var m := Opening(ts[0]) + MostOpen(ts[1..]);
      if m > 0 then m else 0
  }

  lemma {:induction false} OpenConcat(a: seq<Token>, b: seq<Token>)
    ensures Open(a + b) == Open(a) + Open(b)
    ensures Open(a) == 0 ==> MostOpen(a + b) == Max(MostOpen(a), MostOpen(b))
    ensures MostOpen(a + b) == if MostOpen(a) >= Open(a) + MostOpen(b) then MostOpen(a) else Open(a) + MostOpen(b)
    decreases |a|
  {
    if a == [] {
      assert a + b == b;
    } else {
      assert (a + b)[0] == a[0] && (a + b)[1..] == a[1..] + b;
      OpenConcat(a[1..], b);
    }
  }

  lemma OpenOne(tok: Token)
    ensures Open([tok]) == Opening(tok) && MostOpen([tok]) == if Opening(tok) > 0 then 1 else 0
  {
    assert [tok][1..] == [];
  }

  /** Tokens that leave nothing open, in brackets. */
  lemma OpenBetween(a: Token, ts: seq<Token>, b: Token)
    requires Opening(a) == 1 && Opening(b) == -1 && Open(ts) == 0
    ensures Open([a] + ts + [b]) == 0 && MostOpen([a] + ts + [b]) == 1 + MostOpen(ts)
  {
    OpenOne(a);
    OpenOne(b);
    OpenConcat([a], ts);
    OpenConcat([a] + ts, [b]);
  }

  /** The nesting of a value is the most brackets and braces open anywhere in its tokens. */
  lemma {:induction false} DepthIsOpen(v: Syntax)
    ensures Open(Flatten(v)) == 0 && MostOpen(Flatten(v)) == Depth(v)
    decreases v
  {
    hide Open, MostOpen, FlattenItems, FlattenMembers, DepthItems, DepthMembers;
    match v
    case SArr(items) =>
      DepthIsOpenItems(items);
      OpenBetween(ArrBegin, FlattenItems(items), ArrEnd);
    case SObj(members) =>
      DepthIsOpenMembers(members);
      OpenBetween(ObjBegin, FlattenMembers(members), ObjEnd);
    case _ => OpenOne(Flatten(v)[0]);
  }

  lemma {:induction false} DepthIsOpenItems(items: seq<Syntax>)
    ensures Open(FlattenItems(items)) == 0 && MostOpen(FlattenItems(items)) == DepthItems(items)
    ensures Open(MoreItems(items)) == 0 && MostOpen(MoreItems(items)) == DepthItems(items)
    decreases items
  {
    hide Flatten, Depth;
    if items != [] {
      DepthIsOpen(items[0]);
      DepthIsOpenItems(items[1..]);
      var x, more := Flatten(items[0]), MoreItems(items[1..]);
      OpenConcat(x, more);
      OpenOne(Comma);
      OpenConcat([Comma], x);
      OpenConcat([Comma] + x, more);
    }
  }

  lemma {:induction false} DepthIsOpenMembers(ms: seq<Member>)
    ensures Open(FlattenMembers(ms)) == 0 && MostOpen(FlattenMembers(ms)) == DepthMembers(ms)
    ensures Open(MoreMembers(ms)) == 0 && MostOpen(MoreMembers(ms)) == DepthMembers(ms)
    decreases ms
  {
    hide Flatten, Depth;
    if ms != [] {
      DepthIsOpen(ms[0].value);
      DepthIsOpenMembers(ms[1..]);
      var x, more := FlattenMember(ms[0]), MoreMembers(ms[1..]);
      OpenOne(StrToken(ms[0].key));
      OpenOne(Colon);
      OpenConcat([StrToken(ms[0].key)], [Colon]);
      OpenConcat([StrToken(ms[0].key), Colon], Flatten(ms[0].value));
      assert [StrToken(ms[0].key)] + [Colon] == [StrToken(ms[0].key), Colon];
      OpenConcat(x, more);
      OpenOne(Comma);
      OpenConcat([Comma], x);
      OpenConcat([Comma] + x, more);
    }
  }

  // ---------- recursive descent ----------

  datatype Parsed<T> = Fail | Done(value: T, rest: seq<Token>)

  /** json_process_value at nesting depth d. */
  function ParseValue(ts: seq<Token>, d: nat, max: nat): (r: Parsed<Syntax>)
    ensures r.Done? ==> |r.rest| < |ts|
    decreases |ts|, 0
  {
    if ts == [] then Fail
    else
      match ts[0]
      case StrToken(s) => Done(SStr(s), ts[1..])
      case NumToken(text) => Done(SNum(text), ts[1..])
      case BoolToken(b) => Done(SBool(b), ts[1..])
      case NullToken => Done(SNull, ts[1..])
      case ArrBegin =>
        if d + 1 > max then Fail
        else if |ts| > 1 && ts[1] == ArrEnd then Done(SArr([]), ts[2..])
        else
          var r := ParseItems(ts[1..], d + 1, max);
          if r.Fail? then Fail else Done(SArr(r.value), r.rest)
      case ObjBegin =>
        if d + 1 > max then Fail
        else if |ts| > 1 && ts[1] == ObjEnd then Done(SObj([]), ts[2..])
        else
          var r := ParseMembers(ts[1..], d + 1, max);
          if r.Fail? then Fail else Done(SObj(r.value), r.rest)
      case _ => Fail
  }

  /** The loop of json_parse_array_context, from the token of an item on. */
  function ParseItems(ts: seq<Token>, d: nat, max: nat): (r: Parsed<seq<Syntax>>)
    ensures r.Done? ==> |r.rest| < |ts|
    decreases |ts|, 1
  {
    var v := ParseValue(ts, d, max);
    if v.Fail? || v.rest == [] then Fail
    else if v.rest[0] == ArrEnd then Done([v.value], v.rest[1..])
    else if v.rest[0] != Comma then Fail
    else
      var more := ParseItems(v.rest[1..], d, max);
      if more.Fail? then Fail else Done([v.value] + more.value, more.rest)
  }

  /** One key, its colon and its value. */
  function ParseMember(ts: seq<Token>, d: nat, max: nat): (r: Parsed<Member>)
    ensures r.Done? ==> |r.rest| < |ts|
    decreases |ts|, 1
  {
    if |ts| < 2 || !ts[0].StrToken? || ts[1] != Colon then Fail
    else
      var v := ParseValue(ts[2..], d, max);
      if v.Fail? then Fail else Done(Member(ts[0].s, v.value), v.rest)
  }

  /** The loop of json_parse_object_context, from the token of a key on. */
  function ParseMembers(ts: seq<Token>, d: nat, max: nat): (r: Parsed<seq<Member>>)
    ensures r.Done? ==> |r.rest| < |ts|
    decreases |ts|, 2
  {
    var m := ParseMember(ts, d, max);
    if m.Fail? || m.rest == [] then Fail
    else if m.rest[0] == ObjEnd then Done([m.value], m.rest[1..])
    else if m.rest[0] != Comma then Fail
    else
      var more := ParseMembers(m.rest[1..], d, max);
      if more.Fail? then Fail else Done([m.value] + more.value, more.rest)
  }

  // ---------- every value within the limit is accepted, and read exactly ----------

  lemma FlattenFirst(v: Syntax)
    ensures Flatten(v) != [] && Flatten(v)[0] !in {ArrEnd, ObjEnd, Colon, Comma, End, Error}
  {
  }

  lemma ItemsFirst(items: seq<Syntax>)
    requires items != []
    ensures FlattenItems(items) != [] && FlattenItems(items)[0] != ArrEnd
  {
    FlattenFirst(items[0]);
  }

  lemma MembersFirst(ms: seq<Member>)
    requires ms != []
    ensures FlattenMembers(ms) != [] && FlattenMembers(ms)[0] != ObjEnd
  {
  }

  lemma Empty()
    ensures FlattenItems([]) == [] && FlattenMembers([]) == []
    ensures DepthItems([]) == 0 && DepthMembers([]) == 0
  {
  }

  /** A value followed by anything is taken off the front exactly when it is not
      nested too deeply. */
  lemma {:induction false} ParseFlatten(v: Syntax, rest: seq<Token>, d: nat, max: nat)
    requires d <= max
    ensures ParseValue(Flatten(v) + rest, d, max) == if d + Depth(v) <= max then Done(v, rest) else Fail
    decreases v
  {
    hide FlattenItems, FlattenMembers, ParseItems, ParseMembers, DepthItems, DepthMembers;
    var ts := Flatten(v) + rest;
    match v
    case SArr(items) =>
      if items == [] {
        assert FlattenItems(items) == [] && DepthItems(items) == 0 by { Empty(); }
        assert ts == [ArrBegin, ArrEnd] + rest;
      } else if d + 1 <= max {
        assert ts[1..] == FlattenItems(items) + ([ArrEnd] + rest);
        ItemsFirst(items);
        ParseFlattenItems(items, rest, d + 1, max);
      }
    case SObj(members) =>
      if members == [] {
        assert FlattenMembers(members) == [] && DepthMembers(members) == 0 by { Empty(); }
        assert ts == [ObjBegin, ObjEnd] + rest;
      } else if d + 1 <= max {
        assert ts[1..] == FlattenMembers(members) + ([ObjEnd] + rest);
        MembersFirst(members);
        ParseFlattenMembers(members, rest, d + 1, max);
      }
    case _ =>
      assert ts[1..] == rest;
  }

  lemma {:induction false} ParseFlattenItems(items: seq<Syntax>, rest: seq<Token>, d: nat, max: nat)
    requires d <= max && items != []
    ensures ParseItems(FlattenItems(items) + ([ArrEnd] + rest), d, max)
         == if d + DepthItems(items) <= max then Done(items, rest) else Fail
    decreases items
  {
    hide Flatten, ParseValue, Depth;
    var tail := MoreItems(items[1..]) + ([ArrEnd] + rest);
    assert FlattenItems(items) + ([ArrEnd] + rest) == Flatten(items[0]) + tail;
    ParseFlatten(items[0], tail, d, max);
    if |items| > 1 {
      var more := items[1..];
      assert tail[1..] == FlattenItems(more) + ([ArrEnd] + rest);
      ParseFlattenItems(more, rest, d, max);
      assert items == [items[0]] + more;
    } else {
      assert tail == [ArrEnd] + rest;
      assert items == [items[0]];
    }
  }

  lemma {:induction false} ParseFlattenMember(m: Member, rest: seq<Token>, d: nat, max: nat)
    requires d <= max
    ensures ParseMember(FlattenMember(m) + rest, d, max)
         == if d + Depth(m.value) <= max then Done(m, rest) else Fail
    decreases m
  {
    assert (FlattenMember(m) + rest)[2..] == Flatten(m.value) + rest;
    ParseFlatten(m.value, rest, d, max);
  }

  lemma {:induction false} ParseFlattenMembers(ms: seq<Member>, rest: seq<Token>, d: nat, max: nat)
    requires d <= max && ms != []
    ensures ParseMembers(FlattenMembers(ms) + ([ObjEnd] + rest), d, max)
         == if d + DepthMembers(ms) <= max then Done(ms, rest) else Fail
    decreases ms
  {
    hide Flatten, FlattenMember, ParseMember, Depth;
    var tail := MoreMembers(ms[1..]) + ([ObjEnd] + rest);
    assert FlattenMembers(ms) + ([ObjEnd] + rest) == FlattenMember(ms[0]) + tail;
    ParseFlattenMember(ms[0], tail, d, max);
    if |ms| > 1 {
      var more := ms[1..];
      assert tail[1..] == FlattenMembers(more) + ([ObjEnd] + rest);
      ParseFlattenMembers(more, rest, d, max);
      assert ms == [ms[0]] + more;
    } else {
      assert tail == [ObjEnd] + rest;
      assert ms == [ms[0]];
    }
  }

  // ---------- nothing else is accepted ----------

  lemma {:induction false} ParsedFlattens(ts: seq<Token>, d: nat, max: nat)
    requires d <= max && ParseValue(ts, d, max).Done?
    ensures var r := ParseValue(ts, d, max); ts == Flatten(r.value) + r.rest && d + Depth(r.value) <= max
    decreases |ts|, 0
  {
    hide ParseItems, ParseMembers, FlattenItems, FlattenMembers, DepthItems, DepthMembers;
    Empty();
    if ts[0] == ArrBegin && !(|ts| > 1 && ts[1] == ArrEnd) {
      ParsedFlattensItems(ts[1..], d + 1, max);
    } else if ts[0] == ObjBegin && !(|ts| > 1 && ts[1] == ObjEnd) {
      ParsedFlattensMembers(ts[1..], d + 1, max);
    }
  }

  lemma {:induction false} ParsedFlattensItems(ts: seq<Token>, d: nat, max: nat)
    requires d <= max && ParseItems(ts, d, max).Done?
    ensures var r := ParseItems(ts, d, max);
      r.value != [] && ts == FlattenItems(r.value) + ([ArrEnd] + r.rest) && d + DepthItems(r.value) <= max
    decreases |ts|, 1
  {
    hide Flatten, ParseValue, Depth;
    ParsedFlattens(ts, d, max);
    var v := ParseValue(ts, d, max);
    if v.rest[0] == Comma {
      ParsedFlattensItems(v.rest[1..], d, max);
      FrontItem(v.value, ParseItems(v.rest[1..], d, max).value);
    }
  }

  lemma FrontItem(v: Syntax, more: seq<Syntax>)
    requires more != []
    ensures FlattenItems([v] + more) == Flatten(v) + ([Comma] + FlattenItems(more))
    ensures DepthItems([v] + more) == Max(Depth(v), DepthItems(more))
  {
    hide Flatten, Depth;
    assert ([v] + more)[1..] == more;
    assert MoreItems(more) == [Comma] + FlattenItems(more);
  }

  lemma FrontMember(m: Member, more: seq<Member>)
    requires more != []
    ensures FlattenMembers([m] + more) == FlattenMember(m) + ([Comma] + FlattenMembers(more))
    ensures DepthMembers([m] + more) == Max(Depth(m.value), DepthMembers(more))
  {
    hide FlattenMember, Depth;
    assert ([m] + more)[1..] == more;
    assert MoreMembers(more) == [Comma] + FlattenMembers(more);
  }

  lemma {:induction false} ParsedFlattensMember(ts: seq<Token>, d: nat, max: nat)
    requires d <= max && ParseMember(ts, d, max).Done?
    ensures var r := ParseMember(ts, d, max); ts == FlattenMember(r.value) + r.rest && d + Depth(r.value.value) <= max
    decreases |ts|, 1
  {
    hide Flatten, ParseValue, Depth;
    ParsedFlattens(ts[2..], d, max);
    assert ts == ts[..2] + ts[2..];
  }

  lemma {:induction false} ParsedFlattensMembers(ts: seq<Token>, d: nat, max: nat)
    requires d <= max && ParseMembers(ts, d, max).Done?
    ensures var r := ParseMembers(ts, d, max);
      r.value != [] && ts == FlattenMembers(r.value) + ([ObjEnd] + r.rest) && d + DepthMembers(r.value) <= max
    decreases |ts|, 2
  {
    hide FlattenMember, ParseMember, Depth;
    ParsedFlattensMember(ts, d, max);
    var m := ParseMember(ts, d, max);
    if m.rest[0] == Comma {
      ParsedFlattensMembers(m.rest[1..], d, max);
      FrontMember(m.value, ParseMembers(m.rest[1..], d, max).value);
    }
  }

  // ---------- whole documents ----------

  /** A document is one value and then the end of the input. */
  function ParseDocument(ts: seq<Token>, max: nat): Option<Syntax>
  {
    var r := ParseValue(ts, 0, max);
    if r.Done? && r.rest == [End] then Some(r.value) else None
  }

  /** The parser accepts exactly the token sequences of values within the
      nesting limit, and reads each as the one value it is the sequence of. */
  lemma AcceptsGrammar(ts: seq<Token>, max: nat, v: Syntax)
    ensures ParseDocument(ts, max) == Some(v) <==> ts == Flatten(v) + [End] && Depth(v) <= max
  {
    if ParseDocument(ts, max) == Some(v) {
      ParsedFlattens(ts, 0, max);
    }
    if ts == Flatten(v) + [End] {
      ParseFlatten(v, [End], 0, max);
    }
  }
}
