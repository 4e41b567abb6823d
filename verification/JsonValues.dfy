/** Lua values as json.c sees them, the text it writes for them, and why reading
    that text gives the value back. */
module JsonValues {
  import opened Characters
  import opened NumberText
  import opened JsonGrammar
  import opened JsonStrings
  import opened JsonTokens

  /** A number is the text it is written as; a table is an array when it has
      items 1 to n and an object otherwise, so the empty table is an object. */
  datatype Value =
    | Null
    | Bool(b: bool)
    | Num(text: string)
    | Str(s: string)
    | Arr(items: seq<Value>)
    | Obj(fields: seq<Field>)

  /** A numeric key is the text of its number. */
  datatype Field = Field(key: string, value: Value, numeric: bool)

  // ---------- building values ----------

  /** lua_rawset on an object: a later value replaces an earlier one. */
  function Put(fields: seq<Field>, key: string, v: Value): (r: seq<Field>)
  {
    if fields == [] then [Field(key, v, false)]
    else if fields[0].key == key then [Field(key, v, false)] + fields[1..]
    else [fields[0]] + Put(fields[1..], key, v)
  }

  function Build(t: Syntax): Value
  {
    match t
    case SNull => Null
    case SBool(b) => Bool(b)
    case SNum(text) => Num(text)
    case SStr(s) => Str(s)
    case SArr(items) => if items == [] then Obj([]) else Arr(BuildItems(items))
    case SObj(members) => Obj(BuildFields(members))
  }

  function BuildItems(items: seq<Syntax>): (vs: seq<Value>)
    ensures |vs| == |items|
  {
    if items == [] then [] else BuildItems(items[..|items| - 1]) + [Build(items[|items| - 1])]
  }

  function BuildFields(ms: seq<Member>): seq<Field>
  {
    if ms == [] then []
    else Put(BuildFields(ms[..|ms| - 1]), ms[|ms| - 1].key, Build(ms[|ms| - 1].value))
  }

  /** What a table holds under a key. */
  function Lookup(fields: seq<Field>, key: string): Option<Value>
  {
    if fields == [] then Option.None
    else if fields[0].key == key then Option.Some(fields[0].value)
    else Lookup(fields[1..], key)
  }

  /** Storing changes what is held under that key and nothing else. */
  lemma {:induction false} PutLookup(fields: seq<Field>, key: string, v: Value, other: string)
    ensures Lookup(Put(fields, key, v), other) == if other == key then Option.Some(v) else Lookup(fields, other)
  {
    if fields != [] && fields[0].key != key {
      PutLookup(fields[1..], key, v, other);
      assert Put(fields, key, v)[1..] == Put(fields[1..], key, v);
    } else {
      assert Put(fields, key, v)[1..] == if fields == [] then [] else fields[1..];
    }
  }

  ghost predicate Names(ms: seq<Member>, key: string)
  {
    exists i :: 0 <= i < |ms| && ms[i].key == key
  }

  lemma NamesPrefix(ms: seq<Member>, n: nat, key: string)
    requires n <= |ms| && !Names(ms, key)
    ensures !Names(ms[..n], key)
  {
  }

  /** An object that was read holds, under each of its keys, the last value given for it. */
  lemma {:induction false} LastWins(ms: seq<Member>, i: nat)
    requires i < |ms| && !Names(ms[i + 1..], ms[i].key)
    ensures Lookup(BuildFields(ms), ms[i].key) == Option.Some(Build(ms[i].value))
    decreases |ms|
  {
    hide Build, Put, Lookup;
    var n := |ms| - 1;
    PutLookup(BuildFields(ms[..n]), ms[n].key, Build(ms[n].value), ms[i].key);
    if i < n {
      assert ms[i + 1..][n - i - 1] == ms[n];
      NamesPrefix(ms[i + 1..], n - i - 1, ms[i].key);
      assert ms[..n][i + 1..] == ms[i + 1..][..n - i - 1];
      LastWins(ms[..n], i);
    }
  }

  /** And nothing under any other key. */
  lemma {:induction false} NothingElse(ms: seq<Member>, key: string)
    requires !Names(ms, key)
    ensures Lookup(BuildFields(ms), key) == Option.None
    decreases |ms|
  {
    hide Build, Put;
    if ms != [] {
      var n := |ms| - 1;
      NamesPrefix(ms, n, key);
      NothingElse(ms[..n], key);
      PutLookup(BuildFields(ms[..n]), ms[n].key, Build(ms[n].value), key);
    }
  }

  // ---------- the syntax of a value ----------

  function ToSyntax(v: Value): Syntax
  {
    match v
    case Null => SNull
    case Bool(b) => SBool(b)
    case Num(text) => SNum(text)
    case Str(s) => SStr(s)
    case Arr(items) => SArr(ItemSyntax(items))
    case Obj(fields) => SObj(FieldSyntax(fields))
  }

  function ItemSyntax(items: seq<Value>): (r: seq<Syntax>)
    ensures |r| == |items|
  {
    if items == [] then [] else [ToSyntax(items[0])] + ItemSyntax(items[1..])
  }

  function FieldSyntax(fields: seq<Field>): (r: seq<Member>)
    ensures |r| == |fields|
  {
    if fields == [] then [] else [Member(fields[0].key, ToSyntax(fields[0].value))] + FieldSyntax(fields[1..])
  }

  predicate NumberChars(text: string)
  {
    forall i :: 0 <= i < |text| ==> IsDigit(text[i]) || text[i] in {'-', '+', '.', 'e'}
  }

  /** A text that the number scan takes off exactly, wherever it stands. */
  ghost predicate Numeral(text: string)
  {
    && 0 < |text| < 32 && (text[0] == '-' || IsDigit(text[0])) && NumberChars(text)
    && forall t: string, p: nat :: TextAt(t, p, text) && Stops(At(t, p + |text|)) ==>
         NumberEnd(t, p) == Some(p + |text|) && !InvalidNumber(t, p)
  }

  ghost predicate HasKey(fields: seq<Field>, key: string)
  {
    exists i :: 0 <= i < |fields| && fields[i].key == key
  }

  /** The values the encoder is for: numbers written as numerals, arrays with at
      least one item, and no key twice. */
  ghost predicate Plain(v: Value)
  {
    match v
    case Num(text) => Numeral(text)
    case Arr(items) => items != [] && PlainItems(items)
    case Obj(fields) => PlainFields(fields)
    case _ => true
  }

  ghost predicate PlainItems(items: seq<Value>)
  {
    items == [] || (Plain(items[0]) && PlainItems(items[1..]))
  }

  ghost predicate PlainFields(fields: seq<Field>)
  {
    fields == []
    || (Plain(fields[0].value) && !fields[0].numeric && !HasKey(fields[1..], fields[0].key) && PlainFields(fields[1..]))
  }

  /** What can be written and read at all: numeric keys are read as strings, and of a key that
      comes twice, as a number and as a string, the later value. */
  ghost predicate Writable(v: Value)
  {
    match v
    case Num(text) => Numeral(text)
    case Arr(items) => WritableItems(items)
    case Obj(fields) => WritableFields(fields)
    case _ => true
  }

  ghost predicate WritableItems(items: seq<Value>)
  {
    items == [] || (Writable(items[0]) && WritableItems(items[1..]))
  }

  ghost predicate WritableFields(fields: seq<Field>)
  {
    fields == []
    || (Writable(fields[0].value) && (fields[0].numeric ==> Numeral(fields[0].key)) && WritableFields(fields[1..]))
  }

  lemma {:induction false} PlainWritable(v: Value)
    requires Plain(v)
    ensures Writable(v)
  {
    match v
    case Arr(items) => PlainItemsWritable(items);
    case Obj(fields) => PlainFieldsWritable(fields);
    case _ =>
  }

  lemma {:induction false} PlainItemsWritable(items: seq<Value>)
    requires PlainItems(items)
    ensures WritableItems(items)
  {
    hide Plain, Writable;
    if items != [] {
      PlainWritable(items[0]);
      PlainItemsWritable(items[1..]);
    }
  }

  lemma {:induction false} PlainFieldsWritable(fields: seq<Field>)
    requires PlainFields(fields)
    ensures WritableFields(fields)
  {
    hide Plain, Writable;
    if fields != [] {
      PlainWritable(fields[0].value);
      PlainFieldsWritable(fields[1..]);
    }
  }

  // ---------- building undoes taking apart ----------

  lemma {:induction false} PutNew(fields: seq<Field>, key: string, v: Value)
    requires !HasKey(fields, key)
    ensures Put(fields, key, v) == fields + [Field(key, v, false)]
  {
    if fields != [] {
      assert forall i :: 0 <= i < |fields| - 1 ==> fields[1..][i] == fields[i + 1];
      PutNew(fields[1..], key, v);
      assert fields == [fields[0]] + fields[1..];
    }
  }

  lemma {:induction false} BuildsBack(v: Value)
    requires Plain(v)
    ensures Build(ToSyntax(v)) == v
    decreases v
  {
    match v
    case Arr(items) => BuildsItemsBack(items, []);
      assert [] + items == items;
    case Obj(fields) => BuildsFieldsBack(fields, []);
      assert [] + fields == fields;
    case _ =>
  }

  lemma BuildItemsSnoc(items: seq<Syntax>, s: Syntax)
    ensures BuildItems(items + [s]) == BuildItems(items) + [Build(s)]
  {
    assert (items + [s])[..|items|] == items;
  }

  lemma BuildFieldsSnoc(ms: seq<Member>, m: Member)
    ensures BuildFields(ms + [m]) == Put(BuildFields(ms), m.key, Build(m.value))
  {
    assert (ms + [m])[..|ms|] == ms;
  }

  lemma {:induction false} ItemSyntaxSnoc(a: seq<Value>, v: Value)
    ensures ItemSyntax(a + [v]) == ItemSyntax(a) + [ToSyntax(v)]
  {
    hide ToSyntax;
    if a == [] {
      assert a + [v] == [v];
      assert ItemSyntax([v]) == [ToSyntax(v)] + ItemSyntax([]);
    } else {
      assert (a + [v])[1..] == a[1..] + [v];
      ItemSyntaxSnoc(a[1..], v);
    }
  }

  lemma {:induction false} FieldSyntaxSnoc(a: seq<Field>, f: Field)
    ensures FieldSyntax(a + [f]) == FieldSyntax(a) + [Member(f.key, ToSyntax(f.value))]
  {
    hide ToSyntax;
    if a == [] {
      assert a + [f] == [f];
      assert FieldSyntax([f]) == [Member(f.key, ToSyntax(f.value))] + FieldSyntax([]);
    } else {
      assert (a + [f])[1..] == a[1..] + [f];
      FieldSyntaxSnoc(a[1..], f);
    }
  }

  /** The items after those in `done`. */
  lemma {:induction false} BuildsItemsBack(items: seq<Value>, done: seq<Value>)
    requires PlainItems(items) && BuildItems(ItemSyntax(done)) == done
    ensures BuildItems(ItemSyntax(done + items)) == done + items
    decreases items
  {
    hide Build, ToSyntax, Plain, BuildItems, ItemSyntax;
    if items == [] {
      assert done + items == done;
    } else {
      var x := items[0];
      BuildsBack(x);
      ItemSyntaxSnoc(done, x);
      BuildItemsSnoc(ItemSyntax(done), ToSyntax(x));
      BuildsItemsBack(items[1..], done + [x]);
      assert done + [x] + items[1..] == done + items;
    }
  }

  ghost predicate Apart(done: seq<Field>, fields: seq<Field>)
  {
    forall i, k :: 0 <= i < |done| && 0 <= k < |fields| ==> done[i].key != fields[k].key
  }

  lemma NextField(done: seq<Field>, fields: seq<Field>)
    requires fields != [] && Apart(done, fields) && !HasKey(fields[1..], fields[0].key)
    ensures !HasKey(done, fields[0].key) && Apart(done + [fields[0]], fields[1..])
  {
    var more := fields[1..];
    assert forall k :: 0 <= k < |more| ==> more[k] == fields[k + 1];
  }

  lemma {:induction false} BuildsFieldsBack(fields: seq<Field>, done: seq<Field>)
    requires PlainFields(fields) && Apart(done, fields) && BuildFields(FieldSyntax(done)) == done
    ensures BuildFields(FieldSyntax(done + fields)) == done + fields
    decreases fields
  {
    hide Build, ToSyntax, Plain, BuildFields, FieldSyntax, Put, HasKey, Apart;
    if fields == [] {
      assert done + fields == done;
    } else {
      var x := fields[0];
      BuildsBack(x.value);
      FieldSyntaxSnoc(done, x);
      BuildFieldsSnoc(FieldSyntax(done), Member(x.key, ToSyntax(x.value)));
      NextField(done, fields);
      PutNew(done, x.key, x.value);
      BuildsFieldsBack(fields[1..], done + [x]);
      assert done + [x] + fields[1..] == done + fields;
    }
  }

  // ---------- the text of a value ----------

  function Text(v: Value): string
  {
    match v
    case Null => "null"
    case Bool(b) => if b then "true" else "false"
    case Num(text) => text
    case Str(s) => QuoteText(s)
    case Arr(items) => "[" + ItemsText(items) + "]"
    case Obj(fields) => "{" + FieldsText(fields) + "}"
  }

  function ItemsText(items: seq<Value>): string
  {
    if items == [] then "" else Text(items[0]) + MoreItemsText(items[1..])
  }

  function MoreItemsText(items: seq<Value>): string
  {
    if items == [] then "" else "," + Text(items[0]) + MoreItemsText(items[1..])
  }

  function KeyText(f: Field): string
  {
    if f.numeric then "\"" + f.key + "\"" else QuoteText(f.key)
  }

  function FieldText(f: Field): string
  {
    KeyText(f) + ":" + Text(f.value)
  }

  function FieldsText(fields: seq<Field>): string
  {
    if fields == [] then "" else FieldText(fields[0]) + MoreFieldsText(fields[1..])
  }

  function MoreFieldsText(fields: seq<Field>): string
  {
    if fields == [] then "" else "," + FieldText(fields[0]) + MoreFieldsText(fields[1..])
  }

  // ---------- reading the text token by token ----------

  /** What can follow a value in a text. */
  predicate Ends(c: char)
  {
    c in {',', ']', '}', '\0'}
  }

  /** The first character of a text is that of the token, and no blank. */
  lemma FrontChar(t: string, p: nat, u: string, i: nat)
    requires TextAt(t, p, u) && i < |u|
    ensures At(t, p + i) == u[i]
  {
    assert t[p..p + |u|][i] == u[i];
  }

  lemma SingleToken(t: string, p: nat, c: char, invalid: bool)
    requires TextAt(t, p, [c]) && ClassOf(c).Single?
    ensures Tokens(t, p, invalid) == [ClassOf(c).tok] + Tokens(t, p + 1, invalid)
  {
    FrontChar(t, p, [c], 0);
    SingleIsToken(c);
  }

  lemma SingleIsToken(c: char)
    requires ClassOf(c).Single?
    ensures ClassOf(c).tok in {ObjBegin, ObjEnd, ArrBegin, ArrEnd, Comma, Colon}
  {
  }

  lemma OtherWord(t: string, p: nat, word: string)
    requires word != [] && At(t, p) != word[0]
    ensures !TextAt(t, p, word)
  {
    if p + |word| <= |t| {
      assert t[p..p + |word|][0] == At(t, p);
    }
  }

  /** One token at a place that is no blank. */
  lemma OneToken(t: string, p: nat, tok: Token, end: nat, invalid: bool)
    requires p <= |t| && ClassOf(At(t, p)) != Blank
    requires TokenAt(t, p, invalid) == Lexed(tok, end) && tok !in {End, Error}
    ensures Tokens(t, p, invalid) == [tok] + Tokens(t, end, invalid)
  {
    hide TokenAt, ClassOf;
  }

  lemma WordToken(t: string, p: nat, v: Value, invalid: bool)
    requires (v.Null? || v.Bool?) && TextAt(t, p, Text(v))
    ensures Tokens(t, p, invalid) == Flatten(ToSyntax(v)) + Tokens(t, p + |Text(v)|, invalid)
  {
    hide StringFrom, NumberEnd, InvalidNumber, Tokens, TextAt;
    FrontChar(t, p, Text(v), 0);
    if v == Bool(true) {
      OneToken(t, p, BoolToken(true), p + 4, invalid);
    } else if v == Bool(false) {
      OtherWord(t, p, "true");
      OneToken(t, p, BoolToken(false), p + 5, invalid);
    } else {
      OtherWord(t, p, "true");
      OtherWord(t, p, "false");
      OneToken(t, p, NullToken, p + 4, invalid);
    }
  }

  lemma StringToken(t: string, p: nat, s: string, invalid: bool)
    requires TextAt(t, p, QuoteText(s))
    ensures Tokens(t, p, invalid) == [StrToken(s)] + Tokens(t, p + |QuoteText(s)|, invalid)
  {
    hide StringFrom, NumberEnd, InvalidNumber, EscapeAll, Tokens;
    FrontChar(t, p, QuoteText(s), 0);
    assert QuoteText(s) == "\"" + (EscapeAll(s) + "\"");
    TextSplit(t, p, "\"", EscapeAll(s) + "\"");
    QuotedReadBack(t, p + 1, s);
    OneToken(t, p, StrToken(s), p + |QuoteText(s)|, invalid);
  }

  /** The text of a number between quotes is read as a string. */
  lemma {:induction false} NumericRead(t: string, p: nat, key: string)
    requires p <= |t| && NumberChars(key) && TextAt(t, p, key + "\"")
    ensures StringFrom(t, p) == Quoted(key, p + |key| + 1)
    decreases |key|
  {
    FrontChar(t, p, key + "\"", 0);
    if key != "" {
      assert key + "\"" == [key[0]] + (key[1..] + "\"");
      TextSplit(t, p, [key[0]], key[1..] + "\"");
      NumericRead(t, p + 1, key[1..]);
    }
  }

  lemma NumericToken(t: string, p: nat, key: string, invalid: bool)
    requires NumberChars(key) && TextAt(t, p, "\"" + key + "\"")
    ensures Tokens(t, p, invalid) == [StrToken(key)] + Tokens(t, p + |key| + 2, invalid)
  {
    hide StringFrom, NumberEnd, InvalidNumber, Tokens, NumberChars;
    assert "\"" + key + "\"" == "\"" + (key + "\"");
    FrontChar(t, p, "\"" + key + "\"", 0);
    TextSplit(t, p, "\"", key + "\"");
    NumericRead(t, p + 1, key);
    OneToken(t, p, StrToken(key), p + |key| + 2, invalid);
  }

  lemma NumeralChars(text: string)
    requires Numeral(text)
    ensures NumberChars(text)
  {
  }

  lemma KeyToken(t: string, p: nat, f: Field, invalid: bool)
    requires (f.numeric ==> Numeral(f.key)) && TextAt(t, p, KeyText(f))
    ensures Tokens(t, p, invalid) == [StrToken(f.key)] + Tokens(t, p + |KeyText(f)|, invalid)
  {
    hide Tokens, TextAt, Numeral, NumberChars, QuoteText;
    if f.numeric {
      NumeralChars(f.key);
      NumericToken(t, p, f.key, invalid);
    } else {
      StringToken(t, p, f.key, invalid);
    }
  }

  lemma NumberToken(t: string, p: nat, text: string, invalid: bool)
    requires Numeral(text) && TextAt(t, p, text) && Ends(At(t, p + |text|))
    ensures Tokens(t, p, invalid) == [NumToken(text)] + Tokens(t, p + |text|, invalid)
  {
    hide StringFrom, NumberEnd, InvalidNumber, Tokens;
    FrontChar(t, p, text, 0);
    assert NumberEnd(t, p) == Option.Some(p + |text|);
    OneToken(t, p, NumToken(text), p + |text|, invalid);
  }

  /** A text is read as the tokens of its value, whatever stands before it, and
      after it anything that can follow a value. */
  lemma {:induction false} TextTokens(t: string, p: nat, v: Value, invalid: bool)
    requires Writable(v) && TextAt(t, p, Text(v)) && Ends(At(t, p + |Text(v)|))
    ensures Tokens(t, p, invalid) == Flatten(ToSyntax(v)) + Tokens(t, p + |Text(v)|, invalid)
    decreases v
  {
    hide Tokens, ClassOf, TextAt, QuoteText, ItemsText, FieldsText, FlattenItems, FlattenMembers, ItemSyntax,
         FieldSyntax;
    match v
    case Arr(items) =>
      ArrayTokens(t, p, items, invalid);
    case Obj(fields) =>
      ObjectTokens(t, p, fields, invalid);
    case Str(s) => StringToken(t, p, s, invalid);
    case Num(text) => NumberToken(t, p, text, invalid);
    case _ => WordToken(t, p, v, invalid);
  }

  lemma Brackets()
    ensures ClassOf('[') == Single(ArrBegin) && ClassOf(']') == Single(ArrEnd)
    ensures ClassOf('{') == Single(ObjBegin) && ClassOf('}') == Single(ObjEnd)
    ensures ClassOf(',') == Single(Comma) && ClassOf(':') == Single(Colon)
  {
  }

  lemma {:induction false} ArrayTokens(t: string, p: nat, items: seq<Value>, invalid: bool)
    requires WritableItems(items) && TextAt(t, p, "[" + ItemsText(items) + "]")
    ensures Tokens(t, p, invalid) == [ArrBegin] + FlattenItems(ItemSyntax(items)) + [ArrEnd]
      + Tokens(t, p + |"[" + ItemsText(items) + "]"|, invalid)
    decreases items, 2
  {
    hide Tokens, ClassOf, TextAt, Text, Flatten, ToSyntax, Writable;
    Brackets();
    assert "[" + ItemsText(items) + "]" == "[" + (ItemsText(items) + "]");
    TextSplit(t, p, "[", ItemsText(items) + "]");
    SingleToken(t, p, '[', invalid);
    ItemsTokens(t, p + 1, items, invalid);
  }

  lemma {:induction false} ItemsTokens(t: string, p: nat, items: seq<Value>, invalid: bool)
    requires WritableItems(items) && TextAt(t, p, ItemsText(items) + "]")
    ensures Tokens(t, p, invalid)
         == FlattenItems(ItemSyntax(items)) + [ArrEnd] + Tokens(t, p + |ItemsText(items)| + 1, invalid)
    decreases items, 1
  {
    hide Tokens, ClassOf, TextAt, Text, Flatten, ToSyntax, Writable;
    Brackets();
    if items == [] {
      assert ItemsText(items) + "]" == "]";
      SingleToken(t, p, ']', invalid);
    } else {
      var x := Text(items[0]);
      assert ItemsText(items) + "]" == x + (MoreItemsText(items[1..]) + "]");
      ItemThenMore(t, p, items, p + |ItemsText(items)| + 1, invalid);
      ItemSyntaxFront(items);
    }
  }

  lemma ItemSyntaxFront(items: seq<Value>)
    requires items != []
    ensures ItemSyntax(items)[0] == ToSyntax(items[0]) && ItemSyntax(items)[1..] == ItemSyntax(items[1..])
  {
  }

  lemma Rejoin(a: seq<Token>, b: seq<Token>, c: seq<Token>, d: seq<Token>, e: seq<Token>, f: seq<Token>)
    ensures a + (b + (c + d + e + f)) == a + (b + c + d) + e + f
  {
  }

  /** The first item and those after it, up to the bracket. */
  lemma {:induction false} ItemThenMore(t: string, p: nat, items: seq<Value>, end: nat, invalid: bool)
    requires items != [] && Writable(items[0]) && WritableItems(items[1..])
    requires TextAt(t, p, Text(items[0]) + (MoreItemsText(items[1..]) + "]"))
    requires end == p + |Text(items[0])| + |MoreItemsText(items[1..])| + 1
    ensures end <= |t| && Tokens(t, p, invalid)
      == Flatten(ToSyntax(items[0])) + MoreItems(ItemSyntax(items[1..])) + [ArrEnd] + Tokens(t, end, invalid)
    decreases items, 0
  {
    hide Tokens, ClassOf, TextAt, Text, Flatten, ToSyntax, Writable;
    Brackets();
    var more := items[1..];
    var q := p + |Text(items[0])|;
    var tail := MoreItemsText(more) + "]";
    TextSplit(t, p, Text(items[0]), tail);
    FrontChar(t, q, tail, 0);
    TextTokens(t, p, items[0], invalid);
    if more == [] {
      assert tail == "]";
      SingleToken(t, q, ']', invalid);
    } else {
      var next := Text(more[0]) + (MoreItemsText(more[1..]) + "]");
      assert tail == "," + next;
      TextSplit(t, q, ",", next);
      SingleToken(t, q, ',', invalid);
      ItemThenMore(t, q + 1, more, end, invalid);
      ItemSyntaxFront(more);
      Rejoin(Flatten(ToSyntax(items[0])), [Comma], Flatten(ToSyntax(more[0])), MoreItems(ItemSyntax(more[1..])),
        [ArrEnd], Tokens(t, end, invalid));
    }
  }

  lemma {:induction false} ObjectTokens(t: string, p: nat, fields: seq<Field>, invalid: bool)
    requires WritableFields(fields) && TextAt(t, p, "{" + FieldsText(fields) + "}")
    ensures Tokens(t, p, invalid) == [ObjBegin] + FlattenMembers(FieldSyntax(fields)) + [ObjEnd]
      + Tokens(t, p + |"{" + FieldsText(fields) + "}"|, invalid)
    decreases fields, 2
  {
    hide Tokens, ClassOf, TextAt, FieldText, FlattenMember, ToSyntax, Writable, Numeral;
    Brackets();
    assert "{" + FieldsText(fields) + "}" == "{" + (FieldsText(fields) + "}");
    TextSplit(t, p, "{", FieldsText(fields) + "}");
    SingleToken(t, p, '{', invalid);
    if fields == [] {
      assert FieldsText(fields) + "}" == "}";
      SingleToken(t, p + 1, '}', invalid);
    } else {
      assert FieldsText(fields) + "}" == FieldText(fields[0]) + (MoreFieldsText(fields[1..]) + "}");
      FieldThenMore(t, p + 1, fields, p + |FieldsText(fields)| + 2, invalid);
      FieldSyntaxFront(fields);
    }
  }

  lemma FieldSyntaxFront(fields: seq<Field>)
    requires fields != []
    ensures FieldSyntax(fields)[0] == Member(fields[0].key, ToSyntax(fields[0].value))
    ensures FieldSyntax(fields)[1..] == FieldSyntax(fields[1..])
  {
  }

  lemma {:induction false} FieldTokens(t: string, p: nat, f: Field, invalid: bool)
    requires Writable(f.value) && (f.numeric ==> Numeral(f.key))
    requires TextAt(t, p, FieldText(f)) && Ends(At(t, p + |FieldText(f)|))
    ensures Tokens(t, p, invalid)
         == FlattenMember(Member(f.key, ToSyntax(f.value))) + Tokens(t, p + |FieldText(f)|, invalid)
    decreases f
  {
    hide Tokens, ClassOf, TextAt, Text, Flatten, ToSyntax, Writable, KeyText, Numeral;
    Brackets();
    var key := KeyText(f);
    assert FieldText(f) == key + (":" + Text(f.value));
    TextSplit(t, p, key, ":" + Text(f.value));
    KeyToken(t, p, f, invalid);
    var q := p + |key|;
    TextSplit(t, q, ":", Text(f.value));
    SingleToken(t, q, ':', invalid);
    TextTokens(t, q + 1, f.value, invalid);
  }

  /** The first field and those after it, up to the brace. */
  lemma {:induction false} FieldThenMore(t: string, p: nat, fields: seq<Field>, end: nat, invalid: bool)
    requires fields != [] && Writable(fields[0].value) && (fields[0].numeric ==> Numeral(fields[0].key))
    requires WritableFields(fields[1..])
    requires TextAt(t, p, FieldText(fields[0]) + (MoreFieldsText(fields[1..]) + "}"))
    requires end == p + |FieldText(fields[0])| + |MoreFieldsText(fields[1..])| + 1
    ensures end <= |t| && Tokens(t, p, invalid)
      == FlattenMember(Member(fields[0].key, ToSyntax(fields[0].value)))
         + MoreMembers(FieldSyntax(fields[1..])) + [ObjEnd] + Tokens(t, end, invalid)
    decreases fields, 0
  {
    hide Tokens, ClassOf, TextAt, FieldText, FlattenMember, ToSyntax, Writable, Numeral;
    Brackets();
    var more := fields[1..];
    var q := p + |FieldText(fields[0])|;
    var tail := MoreFieldsText(more) + "}";
    TextSplit(t, p, FieldText(fields[0]), tail);
    FrontChar(t, q, tail, 0);
    FieldTokens(t, p, fields[0], invalid);
    if more == [] {
      assert tail == "}";
      SingleToken(t, q, '}', invalid);
    } else {
      var next := FieldText(more[0]) + (MoreFieldsText(more[1..]) + "}");
      assert tail == "," + next;
      TextSplit(t, q, ",", next);
      SingleToken(t, q, ',', invalid);
      FieldThenMore(t, q + 1, more, end, invalid);
      FieldSyntaxFront(more);
      Rejoin(FlattenMember(Member(fields[0].key, ToSyntax(fields[0].value))), [Comma],
        FlattenMember(Member(more[0].key, ToSyntax(more[0].value))), MoreMembers(FieldSyntax(more[1..])), [ObjEnd],
        Tokens(t, end, invalid));
    }
  }
}
