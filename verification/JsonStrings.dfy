/** String tokens of json.c: the escape tables, UTF-16 escapes to UTF-8, and the
    scratch buffer that is written without length checks. Bytes are chars. */
module JsonStrings {
  import opened Characters
  import opened NumberText
  import opened StringBuffers
  import opened JsonGrammar

  // ---------- UTF-8 ----------

  function Byte(n: nat): char
    requires n < 256
  {
    n as char
  }

  /** codepoint_to_utf8: the bits that are joined meet in no position. */
  function Utf8(cp: nat): (s: string)
    requires cp <= 0x1FFFFF
  {
    if cp <= 0x7F then [Byte(cp)]
    else if cp <= 0x7FF then [Byte(0xC0 + cp / 64), Byte(0x80 + cp % 64)]
    else if cp <= 0xFFFF then [Byte(0xE0 + cp / 4096), Byte(0x80 + cp / 64 % 64), Byte(0x80 + cp % 64)]
    else [Byte(0xF0 + cp / 262144), Byte(0x80 + cp / 4096 % 64), Byte(0x80 + cp / 64 % 64), Byte(0x80 + cp % 64)]
  }

  /** The code points UTF-8 encodes. */
  predicate Scalar(cp: nat)
  {
    cp <= 0x10FFFF && !(0xD800 <= cp <= 0xDFFF)
  }

  predicate In(c: char, lo: nat, hi: nat)
  {
    lo <= c as nat <= hi
  }

  predicate Tail(c: char)
  {
    In(c, 0x80, 0xBF)
  }

  /** The byte sequences of RFC 3629 section 4 and the code points they stand for. */
  function Utf8Value(b: string): Option<nat>
  {
    if |b| == 1 && In(b[0], 0, 0x7F) then Some(b[0] as nat)
    else if |b| == 2 && In(b[0], 0xC2, 0xDF) && Tail(b[1]) then
      Some((b[0] as nat - 0xC0) * 64 + (b[1] as nat - 0x80))
    else if |b| == 3 && Tail(b[1]) && Tail(b[2])
         && ((b[0] as nat == 0xE0 && In(b[1], 0xA0, 0xBF)) || In(b[0], 0xE1, 0xEC)
             || (b[0] as nat == 0xED && In(b[1], 0x80, 0x9F)) || In(b[0], 0xEE, 0xEF)) then
      Some((b[0] as nat - 0xE0) * 4096 + (b[1] as nat - 0x80) * 64 + (b[2] as nat - 0x80))
    else if |b| == 4 && Tail(b[1]) && Tail(b[2]) && Tail(b[3])
         && ((b[0] as nat == 0xF0 && In(b[1], 0x90, 0xBF)) || In(b[0], 0xF1, 0xF3)
             || (b[0] as nat == 0xF4 && In(b[1], 0x80, 0x8F))) then
      Some((b[0] as nat - 0xF0) * 262144 + (b[1] as nat - 0x80) * 4096
           + (b[2] as nat - 0x80) * 64 + (b[3] as nat - 0x80))
    else None
  }

  /** The digits of n to the bases 64, 64 and 64. */
  lemma Sextets(a: nat, b: nat, c: nat, d: nat)
    requires b < 64 && c < 64 && d < 64
    ensures var n := a * 262144 + b * 4096 + c * 64 + d;
      n / 262144 == a && n / 4096 % 64 == b && n / 64 % 64 == c && n % 64 == d
  {
    var n := a * 262144 + b * 4096 + c * 64 + d;
    assert n / 64 == a * 4096 + b * 64 + c;
    assert n / 4096 == a * 64 + b;
  }

  lemma Split(cp: nat)
    ensures cp == cp / 262144 * 262144 + cp / 4096 % 64 * 4096 + cp / 64 % 64 * 64 + cp % 64
    ensures cp < 262144 ==> cp / 262144 == 0
    ensures cp < 4096 ==> cp / 4096 % 64 == 0
    ensures cp < 65536 ==> cp / 4096 == cp / 4096 % 64 < 16
    ensures cp < 2048 ==> cp / 64 == cp / 64 % 64 < 32
  {
    assert cp / 4096 == cp / 64 / 64 && cp / 262144 == cp / 4096 / 64;
  }

  lemma Reads3(cp: nat)
    requires 0x800 <= cp <= 0xFFFF && Scalar(cp)
    ensures Utf8Value([Byte(0xE0 + cp / 4096), Byte(0x80 + cp / 64 % 64), Byte(0x80 + cp % 64)]) == Some(cp)
  {
    Split(cp);
    var a, b := cp / 4096, cp / 64 % 64;
    assert cp == a * 4096 + b * 64 + cp % 64;
  }

  lemma Reads4(cp: nat)
    requires 0x10000 <= cp <= 0x10FFFF
    ensures Utf8Value([Byte(0xF0 + cp / 262144), Byte(0x80 + cp / 4096 % 64), Byte(0x80 + cp / 64 % 64),
                       Byte(0x80 + cp % 64)]) == Some(cp)
  {
    Split(cp);
    var a, b, c, d := cp / 262144, cp / 4096 % 64, cp / 64 % 64, cp % 64;
    assert cp == a * 262144 + b * 4096 + c * 64 + d;
    assert a <= 4;
  }

  lemma Utf8Reads(cp: nat)
    requires Scalar(cp)
    ensures Utf8Value(Utf8(cp)) == Some(cp)
  {
    if cp <= 0x7F {
    } else if cp <= 0x7FF {
      Split(cp);
    } else {
      hide Utf8Value;
      if cp <= 0xFFFF {
        Reads3(cp);
      } else {
        Reads4(cp);
      }
    }
  }

  lemma Shape2(b: string, cp: nat)
    requires |b| == 2 && Utf8Value(b) == Some(cp)
    ensures Scalar(cp) && b == Utf8(cp)
  {
    Sextets(0, 0, b[0] as nat - 0xC0, b[1] as nat - 0x80);
  }

  lemma Shape3(b: string, cp: nat)
    requires |b| == 3 && Utf8Value(b) == Some(cp)
    ensures Scalar(cp) && b == Utf8(cp)
  {
    Sextets(0, b[0] as nat - 0xE0, b[1] as nat - 0x80, b[2] as nat - 0x80);
  }

  lemma Shape4(b: string, cp: nat)
    requires |b| == 4 && Utf8Value(b) == Some(cp)
    ensures Scalar(cp) && b == Utf8(cp)
  {
    Sextets(b[0] as nat - 0xF0, b[1] as nat - 0x80, b[2] as nat - 0x80, b[3] as nat - 0x80);
  }

  lemma Utf8Shape(b: string, cp: nat)
    requires Utf8Value(b) == Some(cp)
    ensures Scalar(cp) && b == Utf8(cp)
  {
    if |b| == 2 {
      Shape2(b, cp);
    } else if |b| == 3 {
      Shape3(b, cp);
    } else if |b| == 4 {
      Shape4(b, cp);
    }
  }

  /** For every code point there is exactly one UTF-8 form, and it is the one written. */
  lemma Utf8Unique(cp: nat, b: string)
    requires Scalar(cp)
    ensures Utf8Value(b) == Some(cp) <==> b == Utf8(cp)
  {
    Utf8Reads(cp);
    if Utf8Value(b) == Some(cp) {
      Utf8Shape(b, cp);
    }
  }

  // ---------- hexadecimal digits ----------

  /** hexdigit2int; setting bit 5 makes a letter lower case. */
  function HexDigit(c: char): (d: int)
    ensures -1 <= d < 16
    ensures c == '\0' ==> d < 0
  {
    if '0' <= c <= '9' then c as int - '0' as int
    else
      var low := if c as int / 32 % 2 == 0 then c as int + 32 else c as int;
      if 'a' as int <= low <= 'f' as int then 10 + low - 'a' as int else -1
  }

  /** decode_hex4: minus one unless four digits follow. */
  function Hex4(t: string, p: nat): (n: int)
    ensures -1 <= n < 0x10000
    ensures n >= 0 ==> p + 4 <= |t|
  {
    var a, b, c, d := HexDigit(At(t, p)), HexDigit(At(t, p + 1)), HexDigit(At(t, p + 2)), HexDigit(At(t, p + 3));
    if a < 0 || b < 0 || c < 0 || d < 0 then -1 else a * 4096 + b * 256 + c * 16 + d
  }

  /** The loop stops at the first character that is no digit, so the furthest
      one it reads is at most the terminator. */
  method DecodeHex4(t: string, p: nat) returns (n: int, ghost last: nat)
    requires p <= |t|
    ensures n == Hex4(t, p)
    ensures p <= last <= |t| && forall k :: p <= k < last ==> HexDigit(At(t, k)) >= 0
    ensures if n >= 0 then last == p + 3 else HexDigit(At(t, last)) < 0
  {
    assert HexDigit('\0') < 0;
    hide HexDigit;
    var digit := new int[4];
    var i := 0;
    last := p;
    while i < 4
      invariant 0 <= i <= 4 && p + i <= |t| && last == (if i == 0 then p else p + i - 1)
      invariant forall k :: p <= k < p + i ==> HexDigit(At(t, k)) >= 0
      invariant forall k :: 0 <= k < i ==> digit[k] == HexDigit(At(t, p + k))
    {
      last := p + i;
      digit[i] := HexDigit(Peek(t, p + i));
      if digit[i] < 0 {
        return -1, last;
      }
      i := i + 1;
    }
    n := digit[0] * 4096 + digit[1] * 256 + digit[2] * 16 + digit[3];
  }

  // ---------- escapes of code points ----------

  datatype Escape = BadEscape | Escape(cp: nat, len: nat)

  /** A \u escape at p, and a second one after a high surrogate. */
  function CodePoint(t: string, p: nat): (e: Escape)
    ensures e.Escape? ==> p + e.len <= |t| && e.cp <= 0x1FFFFF && |Utf8(e.cp)| <= e.len && e.len >= 6
  {
    var u := Hex4(t, p + 2);
    if u < 0 then BadEscape
    else if u / 0x800 * 0x800 != 0xD800 then Escape(u, 6)
    else if u / 0x400 % 2 == 1 then BadEscape
    else if At(t, p + 6) != '\\' || At(t, p + 7) != 'u' then BadEscape
    else
      var low := Hex4(t, p + 8);
      if low < 0 || low / 0x400 * 0x400 != 0xDC00 then BadEscape
      else Escape(u % 0x400 * 0x400 + low % 0x400 + 0x10000, 12)
  }

  predicate High(u: int) { 0xD800 <= u <= 0xDBFF }

  predicate Low(u: int) { 0xDC00 <= u <= 0xDFFF }

  /** The code units of section 2.1 of RFC 2781 that stand for a code point. */
  predicate Utf16(cp: nat, u: int, low: int)
  {
    if cp < 0x10000 then u == cp
    else u == 0xD800 + (cp - 0x10000) / 0x400 && low == 0xDC00 + (cp - 0x10000) % 0x400
  }

  /** An escape is refused exactly when its digits are not hexadecimal or a
      surrogate stands alone; otherwise it is the UTF-16 form of its code point. */
  lemma EscapeMeaning(t: string, p: nat)
    ensures var u := Hex4(t, p + 2);
            var low := if At(t, p + 6) == '\\' && At(t, p + 7) == 'u' then Hex4(t, p + 8) else -1;
            var e := CodePoint(t, p);
      && (e.BadEscape? <==> u < 0 || Low(u) || (High(u) && !Low(low)))
      && (e.Escape? ==> Scalar(e.cp) && Utf16(e.cp, u, low) && e.len == if e.cp < 0x10000 then 6 else 12)
  {
    hide Utf8, Hex4;
    var u := Hex4(t, p + 2);
    if u >= 0 {
      SurrogateBits(u);
    }
    if At(t, p + 6) == '\\' && At(t, p + 7) == 'u' && Hex4(t, p + 8) >= 0 {
      SurrogateBits(Hex4(t, p + 8));
    }
  }

  /** What the masks test and keep. */
  lemma SurrogateBits(u: nat)
    requires u < 0x10000
    ensures u / 0x800 * 0x800 == 0xD800 <==> High(u) || Low(u)
    ensures High(u) || Low(u) ==> (u / 0x400 % 2 == 1 <==> Low(u))
    ensures u / 0x400 * 0x400 == 0xDC00 <==> Low(u)
    ensures High(u) ==> u == 0xD800 + u % 0x400
    ensures Low(u) ==> u == 0xDC00 + u % 0x400
  {
  }

  // ---------- the string token ----------

  /** escape2char */
  function Unescape(c: char): (r: char)
    ensures c == '\0' ==> r == '\0'
  {
    match c
    case '"' => '"'
    case '\\' => '\\'
    case '/' => '/'
    case 'b' => 8 as char
    case 't' => '\t'
    case 'n' => '\n'
    case 'f' => 12 as char
    case 'r' => '\r'
    case 'u' => 'u'
    case _ => '\0'
  }

  datatype StringScan = Broken(at: nat) | Quoted(s: string, end: nat)

  function Prefixed(s: string, r: StringScan): StringScan
  {
    if r.Broken? then r else Quoted(s + r.s, r.end)
  }

  /** The string whose next character is at p, up to its closing quote; the
      bytes decoded are fewer than the characters consumed. */
  function StringFrom(t: string, p: nat): (r: StringScan)
    requires p <= |t|
    ensures r.Quoted? ==> p < r.end <= |t| && |r.s| < r.end - p
    ensures r.Broken? ==> p <= r.at <= |t|
    decreases |t| - p
  {
    var c := At(t, p);
    if c == '"' then Quoted([], p + 1)
    else if c == '\0' then Broken(p)
    else if c != '\\' then Prefixed([c], StringFrom(t, p + 1))
    else
      var e := Unescape(At(t, p + 1));
      if e == 'u' then
        var u := CodePoint(t, p);
        if u.BadEscape? then Broken(p) else Prefixed(Utf8(u.cp), StringFrom(t, p + u.len))
      else if e == '\0' then Broken(p)
      else Prefixed([e], StringFrom(t, p + 2))
  }

  lemma PrefixedTwice(a: string, b: string, r: StringScan)
    ensures Prefixed(a, Prefixed(b, r)) == Prefixed(a + b, r)
  {
    if r.Quoted? {
      assert a + (b + r.s) == a + b + r.s;
    }
  }

  /** codepoint_to_utf8 writes into a four-byte array. */
  method CodepointToUtf8(cp: nat) returns (s: string)
    requires cp <= 0x1FFFFF
    ensures s == Utf8(cp) && |s| <= 4
  {
    if cp <= 0x7F {
      return [Byte(cp)];
    }
    if cp <= 0x7FF {
      return [Byte(cp / 64 + 0xC0), Byte(cp % 64 + 0x80)];
    }
    if cp <= 0xFFFF {
      return [Byte(cp / 4096 + 0xE0), Byte(cp / 64 % 64 + 0x80), Byte(cp % 64 + 0x80)];
    }
    s := [Byte(cp / 262144 + 0xF0), Byte(cp / 4096 % 64 + 0x80), Byte(cp / 64 % 64 + 0x80), Byte(cp % 64 + 0x80)];
  }

  /** json_append_unicode_escape; no character behind the terminator is read. */
  method AppendUnicodeEscape(t: string, ptr: nat, tmp: Strbuf) returns (ok: bool, ptr': nat)
    requires ptr + 2 <= |t| && tmp.Valid()
    requires tmp.length + (|t| - ptr) < tmp.size
    modifies tmp`length, tmp.buf
    ensures tmp.Valid()
    ensures ok == CodePoint(t, ptr).Escape?
    ensures !ok ==> ptr' == ptr && tmp.Contents() == old(tmp.Contents())
    ensures ok ==> ptr' == ptr + CodePoint(t, ptr).len <= |t|
    ensures ok ==> tmp.Contents() == old(tmp.Contents()) + Utf8(CodePoint(t, ptr).cp)
  {
    hide Hex4, Utf8;
    ptr' := ptr;
    var escapeLen := 6;
    var codepoint, _ := DecodeHex4(t, ptr + 2);
    if codepoint < 0 {
      return false, ptr;
    }
    if codepoint / 0x800 * 0x800 == 0xD800 {
      if codepoint / 0x400 % 2 == 1 {
        return false, ptr;
      }
      if Peek(t, ptr + escapeLen) != '\\' || Peek(t, ptr + escapeLen + 1) != 'u' {
        return false, ptr;
      }
      var surrogateLow, _ := DecodeHex4(t, ptr + 2 + escapeLen);
      if surrogateLow < 0 || surrogateLow / 0x400 * 0x400 != 0xDC00 {
        return false, ptr;
      }
      codepoint := codepoint % 0x400 * 0x400 + surrogateLow % 0x400 + 0x10000;
      escapeLen := 12;
    }
    var utf8 := CodepointToUtf8(codepoint);
    assert CodePoint(t, ptr) == Escape(codepoint, escapeLen);
    tmp.AppendMemUnsafe(utf8);
    ok, ptr' := true, ptr + escapeLen;
  }

  /** The branch of the loop for a backslash. */
  method NextEscape(t: string, ptr: nat, tmp: Strbuf) returns (ok: bool, ptr': nat)
    requires ptr < |t| && t[ptr] == '\\' && tmp.Valid()
    requires tmp.length + (|t| - ptr) < tmp.size
    modifies tmp`length, tmp.buf
    ensures tmp.Valid() && ptr <= ptr' <= |t|
    ensures ok ==> ptr < ptr' && tmp.length - old(tmp.length) <= ptr' - ptr
    ensures ok ==> Prefixed(tmp.Contents(), StringFrom(t, ptr')) == Prefixed(old(tmp.Contents()), StringFrom(t, ptr))
    ensures !ok ==> StringFrom(t, ptr) == Broken(ptr')
  {
    hide CodePoint, Utf8, Unescape;
    ok, ptr' := false, ptr;
    ghost var was := tmp.Contents();
    var ch := Unescape(Peek(t, ptr + 1));
    if ch == 'u' {
      ok, ptr' := AppendUnicodeEscape(t, ptr, tmp);
      if ok {
        PrefixedTwice(was, Utf8(CodePoint(t, ptr).cp), StringFrom(t, ptr'));
      }
    } else if ch != '\0' {
      PrefixedTwice(was, [ch], StringFrom(t, ptr + 2));
      tmp.AppendCharUnsafe(ch);
      ok, ptr' := true, ptr + 2;
    }
  }

  /** json_next_string_token: the scratch buffer holds one byte more than the
      input, every unchecked append stays inside it, and so does the terminator. */
  method NextString(t: string, start: nat, tmp: Strbuf) returns (ok: bool, ptr: nat)
    requires start < |t| && t[start] == '"' && tmp.Valid() && tmp.size >= |t| + 1
    modifies tmp`length, tmp.buf
    ensures tmp.Valid()
    ensures var r := StringFrom(t, start + 1);
      && ok == r.Quoted?
      && (ok ==> ptr == r.end && tmp.Contents() == r.s && tmp.buf[tmp.length] == '\0')
      && (!ok ==> ptr == r.at)
  {
    hide CodePoint, Utf8, Unescape;
    ptr := start + 1;
    tmp.Reset();
    assert Prefixed([], StringFrom(t, ptr)) == StringFrom(t, start + 1);
    while Peek(t, ptr) != '"'
      invariant start < ptr <= |t| && tmp.Valid()
      invariant tmp.length < ptr - start
      invariant Prefixed(tmp.Contents(), StringFrom(t, ptr)) == StringFrom(t, start + 1)
      decreases |t| - ptr
    {
      var ch := Peek(t, ptr);
      ghost var was := tmp.Contents();
      if ch == '\0' {
        return false, ptr;
      }
      if ch == '\\' {
        ok, ptr := NextEscape(t, ptr, tmp);
        if !ok {
          return;
        }
      } else {
        PrefixedTwice(was, [ch], StringFrom(t, ptr + 1));
        tmp.AppendCharUnsafe(ch);
        ptr := ptr + 1;
      }
    }
    ptr := ptr + 1;
    tmp.EnsureNull();
    ok := true;
  }

  // ---------- writing strings ----------

  /** A lower-case hexadecimal digit. */
  function HexChar(d: nat): char
    requires d < 16
  {
    if d < 10 then '0' + d as char else 'a' + (d - 10) as char
  }

  /** char2escape; empty where the table holds no entry. */
  function Char2Escape(c: char): string
  {
    if c == 8 as char then "\\b"
    else if c == '\t' then "\\t"
    else if c == '\n' then "\\n"
    else if c == 12 as char then "\\f"
    else if c == '\r' then "\\r"
    else if c == '"' then "\\\""
    else if c == '/' then "\\/"
    else if c == '\\' then "\\\\"
    else if c < 32 as char || c == 127 as char then "\\u00" + [HexChar(c as nat / 16), HexChar(c as nat % 16)]
    else ""
  }

  /** What is written for one character: at most six. */
  function EscapeChar(c: char): (s: string)
    ensures 1 <= |s| <= 6
  {
    if Char2Escape(c) == "" then [c] else Char2Escape(c)
  }

  function EscapeAll(s: string): (e: string)
    ensures |s| <= |e| <= 6 * |s|
  {
    if s == [] then [] else EscapeAll(s[..|s| - 1]) + EscapeChar(s[|s| - 1])
  }

  function QuoteText(s: string): string
  {
    "\"" + EscapeAll(s) + "\""
  }

  lemma EscapeNone()
    ensures EscapeAll([]) == []
  {
  }

  lemma EscapeSnoc(s: string, i: nat)
    requires i < |s|
    ensures EscapeAll(s[..i + 1]) == EscapeAll(s[..i]) + EscapeChar(s[i])
  {
    assert s[..i + 1][..i] == s[..i];
  }

  /** json_append_string: the room asked for once is enough, so the unchecked
      appends stay inside the buffer. */
  method AppendQuoted(json: Strbuf, str: string)
    requires json.Valid()
    modifies json, json.buf
    ensures json.Valid() && (fresh(json.buf) || json.buf == old(json.buf))
    ensures json.Contents() == old(json.Contents()) + QuoteText(str)
  {
    hide EscapeAll;
    json.EnsureEmptyLength(|str| * 6 + 2);
    json.AppendCharUnsafe('"');
    AppendEscapes(json, str);
    json.AppendCharUnsafe('"');
  }

  /** The loop over the characters, into room for six each and a quote. */
  method AppendEscapes(json: Strbuf, str: string)
    requires json.Valid() && json.length + |str| * 6 + 1 < json.size
    modifies json, json.buf
    ensures json.Valid() && json.buf == old(json.buf) && json.size == old(json.size)
    ensures json.length <= old(json.length) + |str| * 6
    ensures json.Contents() == old(json.Contents()) + EscapeAll(str)
  {
    hide EscapeChar, EscapeAll;
    assert EscapeAll(str[..0]) == [] by { EscapeNone(); }
    var i := 0;
    while i < |str|
      invariant 0 <= i <= |str| && json.Valid() && json.buf == old(json.buf) && json.size == old(json.size)
      invariant json.length <= old(json.length) + i * 6
      invariant json.Contents() == old(json.Contents()) + EscapeAll(str[..i])
    {
      EscapeSnoc(str, i);
      AppendEscaped(json, str[i]);
      i := i + 1;
    }
    assert str[..|str|] == str;
  }

  /** The body of the loop. */
  method AppendEscaped(json: Strbuf, c: char)
    requires json.Valid() && json.length + 6 < json.size
    modifies json, json.buf
    ensures json.Valid() && json.buf == old(json.buf) && json.size == old(json.size)
    ensures json.length <= old(json.length) + 6
    ensures json.Contents() == old(json.Contents()) + EscapeChar(c)
  {
    var escstr := Char2Escape(c);
    if escstr != "" {
      json.AppendString(escstr);
    } else {
      json.AppendCharUnsafe(c);
    }
  }

  // ---------- reading back what was written ----------

  lemma TextSplit(t: string, p: nat, u: string, v: string)
    requires TextAt(t, p, u + v)
    ensures TextAt(t, p, u) && TextAt(t, p + |u|, v)
  {
    assert u == (u + v)[..|u|] && v == (u + v)[|u|..];
    assert t[p..p + |u + v|][..|u|] == t[p..p + |u|];
    assert t[p..p + |u + v|][|u|..] == t[p + |u|..p + |u| + |v|];
  }

  lemma HexRead(c: nat)
    requires c < 128
    ensures HexDigit(HexChar(c / 16)) == c / 16 && HexDigit(HexChar(c % 16)) == c % 16
  {
  }

  /** A control character written as an escape is read as itself. */
  lemma ControlRead(t: string, p: nat, c: char)
    requires c < 128 as char && TextAt(t, p, "\\u00" + [HexChar(c as nat / 16), HexChar(c as nat % 16)])
    ensures CodePoint(t, p) == Escape(c as nat, 6) && Utf8(c as nat) == [c]
  {
    var u := "\\u00" + [HexChar(c as nat / 16), HexChar(c as nat % 16)];
    HexRead(c as nat);
    assert forall i :: 0 <= i < 6 ==> At(t, p + i) == t[p..p + 6][i] == u[i];
    assert Hex4(t, p + 2) == c as nat by {
      assert At(t, p + 2) == '0' && At(t, p + 3) == '0';
    }
  }

  /** The three forms an escape can have. */
  lemma EscapeForms(c: char)
    ensures var e := EscapeChar(c);
      || (|e| == 1 && e[0] == c && c != '"' && c != '\\' && c != '\0')
      || (|e| == 2 && e[0] == '\\' && Unescape(e[1]) == c && c != 'u' && c != '\0')
      || (|e| == 6 && c < 128 as char && e == "\\u00" + [HexChar(c as nat / 16), HexChar(c as nat % 16)])
  {
  }

  /** One escaped character is read as that character. */
  lemma EscapeRead(t: string, p: nat, c: char)
    requires TextAt(t, p, EscapeChar(c)) && p <= |t|
    ensures StringFrom(t, p) == Prefixed([c], StringFrom(t, p + |EscapeChar(c)|))
  {
    hide CodePoint, Utf8, HexChar, EscapeChar, Unescape;
    var e := EscapeChar(c);
    EscapeForms(c);
    assert forall i :: 0 <= i < |e| ==> At(t, p + i) == t[p..p + |e|][i] == e[i];
    if |e| == 6 {
      ControlRead(t, p, c);
      assert At(t, p) == '\\' && At(t, p + 1) == 'u';
      assert Unescape('u') == 'u' by { UnescapeU(); }
    } else if |e| == 2 {
      assert At(t, p) == '\\' && At(t, p + 1) == e[1];
    } else {
      assert At(t, p) == c;
    }
  }

  lemma UnescapeU()
    ensures Unescape('u') == 'u'
  {
  }

  lemma {:induction false} EscapeFront(c: char, s: string)
    ensures EscapeAll([c] + s) == EscapeChar(c) + EscapeAll(s)
  {
    hide EscapeChar;
    if s == [] {
      assert ([c] + s)[..0] == [];
    } else {
      var n := |s|;
      assert ([c] + s)[..n] == [c] + s[..n - 1];
      EscapeFront(c, s[..n - 1]);
    }
  }

  lemma ClosingQuote(t: string, p: nat)
    requires TextAt(t, p, "\"")
    ensures StringFrom(t, p) == Quoted([], p + 1)
  {
    assert t[p..p + 1][0] == '"';
  }

  /** Every string, written with its escapes and closed by a quote, is read back
      byte for byte. */
  lemma {:induction false} QuotedReadBack(t: string, p: nat, s: string)
    requires TextAt(t, p, EscapeAll(s) + "\"")
    ensures StringFrom(t, p) == Quoted(s, p + |EscapeAll(s)| + 1)
    decreases |s|
  {
    hide EscapeChar, StringFrom;
    if s == [] {
      ClosingQuote(t, p);
    } else {
      var c, rest := s[0], s[1..];
      assert s == [c] + rest;
      EscapeFront(c, rest);
      assert EscapeAll(s) + "\"" == EscapeChar(c) + (EscapeAll(rest) + "\"");
      TextSplit(t, p, EscapeChar(c), EscapeAll(rest) + "\"");
      EscapeRead(t, p, c);
      QuotedReadBack(t, p + |EscapeChar(c)|, rest);
    }
  }
}
