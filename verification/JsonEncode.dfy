/** json_encode: appending a value to the growing buffer, and the round trip
    through json_decode. */
module JsonEncode {
  import opened Decimals
  import opened TextLayout
  import opened Characters
  import opened NumberScan
  import opened NumberText
  import opened StringBuffers
  import opened JsonGrammar
  import opened JsonStrings
  import opened JsonTokens
  import opened JsonValues
  import opened JsonDecode

  // ---------- nesting ----------

  function Nesting(v: Value): nat
  {
    match v
    case Arr(items) => 1 + ItemsNesting(items)
    case Obj(fields) => 1 + FieldsNesting(fields)
    case _ => 0
  }

  function ItemsNesting(items: seq<Value>): nat
  {
    if items == [] then 0 else Max(Nesting(items[0]), ItemsNesting(items[1..]))
  }

  function FieldsNesting(fields: seq<Field>): nat
  {
    if fields == [] then 0 else Max(Nesting(fields[0].value), FieldsNesting(fields[1..]))
  }

  lemma {:induction false} SyntaxDepth(v: Value)
    ensures Depth(ToSyntax(v)) == Nesting(v)
    decreases v
  {
    match v
    case Arr(items) => ItemsDepth(items);
    case Obj(fields) => FieldsDepth(fields);
    case _ =>
  }

  lemma {:induction false} ItemsDepth(items: seq<Value>)
    ensures DepthItems(ItemSyntax(items)) == ItemsNesting(items)
    decreases items
  {
    if items != [] {
      SyntaxDepth(items[0]);
      ItemsDepth(items[1..]);
      ItemSyntaxFront(items);
    }
  }

  lemma {:induction false} FieldsDepth(fields: seq<Field>)
    ensures DepthMembers(FieldSyntax(fields)) == FieldsNesting(fields)
    decreases fields
  {
    if fields != [] {
      SyntaxDepth(fields[0].value);
      FieldsDepth(fields[1..]);
      FieldSyntaxFront(fields);
    }
  }

  // ---------- writing ----------

  /** What the encoder demands of its numbers: the layout of fpconv_g_fmt fits
      the 32 bytes asked for. */
  predicate ShortNumbers(v: Value)
  {
    match v
    case Num(text) => |text| < 32
    case Arr(items) => ShortItems(items)
    case Obj(fields) => ShortFields(fields)
    case _ => true
  }

  predicate ShortItems(items: seq<Value>)
  {
    items == [] || (ShortNumbers(items[0]) && ShortItems(items[1..]))
  }

  predicate ShortField(f: Field)
  {
    ShortNumbers(f.value) && (f.numeric ==> |f.key| < 32)
  }

  predicate ShortFields(fields: seq<Field>)
  {
    fields == [] || (ShortField(fields[0]) && ShortFields(fields[1..]))
  }

  /** A double as the encoder sees it: a finite one by its text. */
  datatype Numeric = Finite(text: string) | Infinity(neg: bool) | NotANumber

  /** encode_invalid_numbers: refused, written by name, or written as null. */
  datatype Invalid = Refuse | Names | Nulls

  function NumericText(n: Numeric, cfg: Invalid): Option<string>
  {
    match n
    case Finite(text) => Option.Some(text)
    case Infinity(neg) =>
      (match cfg
       case Refuse => Option.None
       case Names => Option.Some(if neg then "-Infinity" else "Infinity")
       case Nulls => Option.Some("null"))
    case NotANumber =>
      (match cfg
       case Refuse => Option.None
       case Names => Option.Some("NaN")
       case Nulls => Option.Some("null"))
  }

  /** json_append_number */
  method AppendNumber(json: Strbuf, n: Numeric, cfg: Invalid) returns (ok: bool)
    requires json.Valid() && (n.Finite? ==> |n.text| < 32)
    modifies json, json.buf
    ensures json.Valid() && (fresh(json.buf) || json.buf == old(json.buf))
    ensures ok == NumericText(n, cfg).Some?
    ensures json.Contents() == old(json.Contents()) + (if ok then NumericText(n, cfg).value else "")
  {
    ok := true;
    if cfg == Refuse {
      if n.Infinity? || n.NotANumber? {
        assert json.Contents() + "" == json.Contents();
        return false;
      }
    } else if cfg == Names {
      if n.NotANumber? {
        json.AppendMem("NaN");
        return;
      }
      if n.Infinity? {
        if n.neg {
          json.AppendMem("-Infinity");
        } else {
          json.AppendMem("Infinity");
        }
        return;
      }
    } else if n.Infinity? || n.NotANumber? {
      json.AppendMem("null");
      return;
    }
    json.EnsureEmptyLength(32);
    json.AppendMemUnsafe(n.text);
  }

  /** json_append_data: fails exactly when the value is nested too deeply, and
      otherwise appends its text. */
  method AppendData(json: Strbuf, v: Value, depth: nat, max: nat) returns (ok: bool)
    requires json.Valid() && ShortNumbers(v) && depth <= max
    modifies json, json.buf
    ensures json.Valid() && (fresh(json.buf) || json.buf == old(json.buf))
    ensures ok <==> depth + Nesting(v) <= max
    ensures ok ==> json.Contents() == old(json.Contents()) + Text(v)
    decreases v, 0
  {
    hide QuoteText, ItemsText, FieldsText, ItemsNesting, FieldsNesting;
    ok := true;
    match v
    case Str(s) => AppendQuoted(json, s);
    case Num(text) => ok := AppendNumber(json, Finite(text), Refuse);
    case Bool(b) =>
      if b {
        json.AppendMem("true");
      } else {
        json.AppendMem("false");
      }
    case Null => json.AppendMem("null");
    case Arr(items) =>
      if depth + 1 > max {
        return false;
      }
      ok := AppendArray(json, items, depth + 1, max);
    case Obj(fields) =>
      if depth + 1 > max {
        return false;
      }
      ok := AppendObject(json, fields, depth + 1, max);
  }

  function Separator(i: nat): string
  {
    if i == 0 then "" else ","
  }

  lemma Regroup(a: string, b: string, c: string)
    ensures a + (b + c) == (a + b) + c
  {
  }

  /** What is left to write of the items from i on. */
  function RestOfItems(items: seq<Value>, i: nat): string
    requires i <= |items|
  {
    if i == 0 then ItemsText(items) else MoreItemsText(items[i..])
  }

  lemma ItemBounds(items: seq<Value>)
    ensures items[0..] == items && RestOfItems(items, 0) == ItemsText(items)
    ensures RestOfItems(items, |items|) == "" && ItemsNesting(items[|items|..]) == 0
  {
  }

  lemma ItemStep(items: seq<Value>, i: nat)
    requires i < |items|
    ensures RestOfItems(items, i) == Separator(i) + Text(items[i]) + RestOfItems(items, i + 1)
    ensures ItemsNesting(items[i..]) == Max(Nesting(items[i]), ItemsNesting(items[i + 1..]))
    ensures ShortItems(items[i..]) ==> ShortNumbers(items[i]) && ShortItems(items[i + 1..])
  {
    hide Text, Nesting, ShortNumbers;
    assert items[i..][1..] == items[i + 1..];
  }

  /** json_append_array */
  method AppendArray(json: Strbuf, items: seq<Value>, depth: nat, max: nat) returns (ok: bool)
    requires json.Valid() && ShortItems(items) && depth <= max
    modifies json, json.buf
    ensures json.Valid() && (fresh(json.buf) || json.buf == old(json.buf))
    ensures ok <==> depth + ItemsNesting(items) <= max
    ensures ok ==> json.Contents() == old(json.Contents()) + ("[" + ItemsText(items) + "]")
    decreases items
  {
    hide Text, Nesting, ShortNumbers, ShortItems, ItemsNesting, RestOfItems, ItemsText;
    json.AppendChar('[');
    ok := true;
    ItemBounds(items);
    ghost var target := json.Contents() + ItemsText(items);
    Regroup(old(json.Contents()), "[", ItemsText(items));
    var comma := false;
    var i := 0;
    while i < |items|
      invariant 0 <= i <= |items| && comma == (i > 0)
      invariant json.Valid() && (fresh(json.buf) || json.buf == old(json.buf))
      invariant ShortItems(items[i..])
      invariant depth + ItemsNesting(items) <= max <==> depth + ItemsNesting(items[i..]) <= max
      invariant json.Contents() + RestOfItems(items, i) == target
    {
      ItemStep(items, i);
      Regroup(json.Contents(), Separator(i) + Text(items[i]), RestOfItems(items, i + 1));
      ok := AppendItem(json, items[i], comma, depth, max);
      if !ok {
        return;
      }
      comma := true;
      i := i + 1;
    }
    assert json.Contents() + "" == json.Contents();
    json.AppendChar(']');
    Regroup(old(json.Contents()), "[" + ItemsText(items), "]");
  }

  /** An item after its comma. */
  method AppendItem(json: Strbuf, v: Value, comma: bool, depth: nat, max: nat) returns (ok: bool)
    requires json.Valid() && ShortNumbers(v) && depth <= max
    modifies json, json.buf
    ensures json.Valid() && (fresh(json.buf) || json.buf == old(json.buf))
    ensures ok <==> depth + Nesting(v) <= max
    ensures ok ==> json.Contents() == old(json.Contents()) + ((if comma then "," else "") + Text(v))
    decreases v, 1
  {
    hide Text, Nesting, ShortNumbers;
    if comma {
      json.AppendChar(',');
    }
    ok := AppendData(json, v, depth, max);
  }

  function RestOfFields(fields: seq<Field>, i: nat): string
    requires i <= |fields|
  {
    if i == 0 then FieldsText(fields) else MoreFieldsText(fields[i..])
  }

  lemma FieldBounds(fields: seq<Field>)
    ensures fields[0..] == fields && RestOfFields(fields, 0) == FieldsText(fields)
    ensures RestOfFields(fields, |fields|) == "" && FieldsNesting(fields[|fields|..]) == 0
  {
  }

  lemma FieldStep(fields: seq<Field>, i: nat)
    requires i < |fields|
    ensures RestOfFields(fields, i) == Separator(i) + FieldText(fields[i]) + RestOfFields(fields, i + 1)
    ensures FieldsNesting(fields[i..]) == Max(Nesting(fields[i].value), FieldsNesting(fields[i + 1..]))
    ensures ShortFields(fields[i..]) ==> ShortField(fields[i]) && ShortFields(fields[i + 1..])
  {
    hide FieldText, Nesting, ShortField;
    assert fields[i..][1..] == fields[i + 1..];
  }

  /** json_append_object, over the fields in the order lua_next gives them */
  method AppendObject(json: Strbuf, fields: seq<Field>, depth: nat, max: nat) returns (ok: bool)
    requires json.Valid() && ShortFields(fields) && depth <= max
    modifies json, json.buf
    ensures json.Valid() && (fresh(json.buf) || json.buf == old(json.buf))
    ensures ok <==> depth + FieldsNesting(fields) <= max
    ensures ok ==> json.Contents() == old(json.Contents()) + ("{" + FieldsText(fields) + "}")
    decreases fields
  {
    hide FieldText, Nesting, ShortField, ShortFields, FieldsNesting, RestOfFields, FieldsText;
    json.AppendChar('{');
    ok := true;
    FieldBounds(fields);
    ghost var target := json.Contents() + FieldsText(fields);
    Regroup(old(json.Contents()), "{", FieldsText(fields));
    var comma := false;
    var i := 0;
    while i < |fields|
      invariant 0 <= i <= |fields| && comma == (i > 0)
      invariant json.Valid() && (fresh(json.buf) || json.buf == old(json.buf))
      invariant ShortFields(fields[i..])
      invariant depth + FieldsNesting(fields) <= max <==> depth + FieldsNesting(fields[i..]) <= max
      invariant json.Contents() + RestOfFields(fields, i) == target
    {
      FieldStep(fields, i);
      Regroup(json.Contents(), Separator(i) + FieldText(fields[i]), RestOfFields(fields, i + 1));
      ok := AppendField(json, fields[i], comma, depth, max);
      if !ok {
        return;
      }
      comma := true;
      i := i + 1;
    }
    assert json.Contents() + "" == json.Contents();
    json.AppendChar('}');
    Regroup(old(json.Contents()), "{" + FieldsText(fields), "}");
  }

  /** A key, a colon and a value after their comma. */
  method AppendField(json: Strbuf, f: Field, comma: bool, depth: nat, max: nat) returns (ok: bool)
    requires json.Valid() && ShortField(f) && depth <= max
    modifies json, json.buf
    ensures json.Valid() && (fresh(json.buf) || json.buf == old(json.buf))
    ensures ok <==> depth + Nesting(f.value) <= max
    ensures ok ==> json.Contents() == old(json.Contents()) + ((if comma then "," else "") + FieldText(f))
    decreases f
  {
    hide Text, Nesting, ShortNumbers, KeyText;
    if comma {
      json.AppendChar(',');
    }
    AppendKey(json, f);
    ok := AppendData(json, f.value, depth, max);
  }

  /** A number as a key stands between quotes. */
  method AppendKey(json: Strbuf, f: Field)
    requires json.Valid() && ShortField(f)
    modifies json, json.buf
    ensures json.Valid() && (fresh(json.buf) || json.buf == old(json.buf))
    ensures json.Contents() == old(json.Contents()) + (KeyText(f) + ":")
  {
    hide QuoteText;
    if f.numeric {
      json.AppendChar('"');
      var _ := AppendNumber(json, Finite(f.key), Refuse);
      json.AppendMem("\":");
    } else {
      AppendQuoted(json, f.key);
      json.AppendChar(':');
    }
  }

  /** json_encode into a fresh buffer */
  method Encode(v: Value, max: nat) returns (text: Option<string>)
    requires ShortNumbers(v)
    ensures text == if Nesting(v) <= max then Some(Text(v)) else None
  {
    hide Text, Nesting, ShortNumbers;
    var json := new Strbuf(0);
    var ok := AppendData(json, v, 0, max);
    assert ok ==> json.Contents() == [] + Text(v) == Text(v);
    text := if ok then Some(json.Contents()) else None;
  }

  // ---------- the round trip ----------

  /** What was written for a value decodes to the value of its syntax when that is within the
      depth limit, and is refused otherwise. */
  lemma ReadBack(v: Value, cfg: Config)
    requires Writable(v)
    ensures Decoded(Text(v), cfg) == if Nesting(v) <= cfg.maxDepth then Some(Build(ToSyntax(v))) else None
  {
    hide Tokens, Flatten, Text, ToSyntax, Build, Writable, Depth, Nesting, ParseValue;
    var t := Text(v);
    TextIsNarrow(v);
    assert t[0..0 + |t|] == t;
    TextTokens(t, 0, v, cfg.invalid);
    StopToken(t, |t|, cfg.invalid);
    SyntaxDepth(v);
    ParseFlatten(ToSyntax(v), [End], 0, cfg.maxDepth);
  }

  /** For a value whose keys are strings that is the value itself. */
  lemma RoundTrip(v: Value, cfg: Config)
    requires Plain(v)
    ensures Decoded(Text(v), cfg) == if Nesting(v) <= cfg.maxDepth then Some(v) else None
  {
    hide Decoded, Text, Build, ToSyntax, Plain, Writable, Nesting;
    PlainWritable(v);
    ReadBack(v, cfg);
    BuildsBack(v);
  }

  /** The text of a value has no NUL at its front. */
  lemma TextIsNarrow(v: Value)
    requires Writable(v)
    ensures !WideEncoding(Text(v))
  {
    match v
    case Str(s) => NoNul(s);
    case Num(text) => assert |text| >= 2 ==> text[1] != '\0';
    case Arr(items) =>
      if items != [] {
        TextStarts(items[0]);
        assert Text(v)[1] == Text(items[0])[0];
      }
    case Obj(fields) =>
      if fields != [] {
        FieldStarts(fields[0]);
        assert Text(v)[1] == FieldsText(fields)[0] == FieldText(fields[0])[0];
      }
    case _ =>
  }

  lemma FieldStarts(f: Field)
    ensures FieldText(f) != [] && FieldText(f)[0] == '"'
  {
    assert QuoteText(f.key)[0] == '"';
    assert KeyText(f)[0] == '"';
  }

  lemma TextStarts(v: Value)
    requires Writable(v)
    ensures Text(v) != [] && Text(v)[0] != '\0'
  {
  }

  lemma {:induction false} NoNul(s: string)
    ensures '\0' !in EscapeAll(s)
  {
    hide EscapeChar;
    if s != [] {
      NoNul(s[..|s| - 1]);
      NoNulChar(s[|s| - 1]);
    }
  }

  lemma NoNulChar(c: char)
    ensures '\0' !in EscapeChar(c)
  {
    EscapeForms(c);
  }

  lemma StopToken(t: string, p: nat, invalid: bool)
    requires p <= |t| && At(t, p) == '\0'
    ensures Tokens(t, p, invalid) == [End]
  {
  }

  // ---------- numbers ----------

  lemma BodyChars(ds: seq<Digit>, decpt: int, precision: nat)
    requires |ds| >= 1
    ensures NumberChars(Body(Chars(ds), decpt, precision))
  {
    hide LowDigits;
  }

  /** A leading zero is followed by a point, so nothing about the text is invalid. */
  lemma LayoutValid(t: string, p: nat, neg: bool, ds: seq<Digit>, decpt: int, precision: nat)
    requires Tight(ds) && TextAt(t, p, Layout(neg, Chars(ds), decpt, precision))
    ensures !InvalidNumber(t, p)
  {
    hide Body;
    var text, body := Layout(neg, Chars(ds), decpt, precision), Body(Chars(ds), decpt, precision);
    var n := if neg then 1 else 0;
    BodyStart(ds, decpt, precision);
    FrontChar(t, p, text, 0);
    FrontChar(t, p, text, n);
    assert text[n] == body[0];
    if body[0] == '0' {
      FrontChar(t, p, text, n + 1);
      assert text[n + 1] == body[1] == '.';
    }
  }

  /** The text fpconv_g_fmt writes for a number is a numeral. */
  lemma LayoutNumeral(neg: bool, ds: seq<Digit>, decpt: int, precision: nat)
    requires Tight(ds) && |ds| <= precision <= 14 && -998 <= decpt <= 1000
    ensures Numeral(Layout(neg, Chars(ds), decpt, precision))
  {
    hide Body, InvalidNumber, ScanFrom;
    var text := Layout(neg, Chars(ds), decpt, precision);
    LayoutFits(neg, Chars(ds), decpt, precision);
    BodyStart(ds, decpt, precision);
    BodyChars(ds, decpt, precision);
    forall t: string, p: nat | TextAt(t, p, text) && Stops(At(t, p + |text|))
      ensures NumberEnd(t, p) == Option.Some(p + |text|) && !InvalidNumber(t, p)
    {
      LayoutReadBack(t, p, neg, ds, decpt, precision, text);
      LayoutValid(t, p, neg, ds, decpt, precision);
    }
  }

  /** So is the text of a zero of either sign. */
  lemma ZeroNumeral(neg: bool)
    ensures Numeral(if neg then "-0" else "0")
  {
    hide NumberEnd, InvalidNumber;
    var text := if neg then "-0" else "0";
    forall t: string, p: nat | TextAt(t, p, text) && Stops(At(t, p + |text|))
      ensures NumberEnd(t, p) == Option.Some(p + |text|) && !InvalidNumber(t, p)
    {
      ZeroAt(t, p, neg);
    }
  }

  lemma ZeroAt(t: string, p: nat, neg: bool)
    requires TextAt(t, p, if neg then "-0" else "0")
    requires Stops(At(t, if neg then p + 2 else p + 1))
    ensures NumberEnd(t, p) == Option.Some(if neg then p + 2 else p + 1) && !InvalidNumber(t, p)
  {
    hide Mantissa, TextAt;
    FrontChar(t, p, if neg then "-0" else "0", 0);
    if neg {
      FrontChar(t, p, "-0", 1);
    }
    ZeroRead(t, if neg then p + 1 else p, neg);
  }

  lemma ZeroRead(t: string, b: nat, neg: bool)
    requires At(t, b) == '0' && Stops(At(t, b + 1))
    ensures Mantissa(t, b, neg) == Number(neg, NoDigits, 0, b + 1)
  {
    assert SpanZeros(t, b) == b + 1;
    assert SpanDigits(t, b + 1) == b + 1;
  }
}
