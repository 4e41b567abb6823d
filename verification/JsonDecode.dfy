/** json_decode: the recursive descent over the text itself, with its pointer,
    its depth counter and its scratch buffer. */
module JsonDecode {
  import opened StringBuffers
  import opened JsonGrammar
  import opened JsonTokens
  import opened JsonValues

  /** cfg->decode_max_depth and cfg->decode_invalid_numbers */
  datatype Config = Config(maxDepth: nat, invalid: bool)

  /** The test for UTF-16 and UTF-32. */
  predicate WideEncoding(t: string)
  {
    |t| >= 2 && (t[0] == '\0' || t[1] == '\0')
  }

  function Decoded(t: string, cfg: Config): Option<Value>
  {
    if WideEncoding(t) then None
    else
      match ParseDocument(Tokens(t, 0, cfg.invalid), cfg.maxDepth)
      case None => None
      case Some(s) => Some(Build(s))
  }

  /** The tokens of a text decide: it decodes exactly when they are those of one
      value within the depth limit followed by the end, and then to that value. */
  lemma DecodesGrammar(t: string, cfg: Config, v: Value)
    requires !WideEncoding(t)
    ensures Decoded(t, cfg) == Some(v) <==>
      exists s :: Tokens(t, 0, cfg.invalid) == Flatten(s) + [End] && Depth(s) <= cfg.maxDepth && Build(s) == v
  {
    hide Tokens, Flatten, Depth, Build;
    var ts := Tokens(t, 0, cfg.invalid);
    if Decoded(t, cfg) == Some(v) {
      var s := ParseDocument(ts, cfg.maxDepth).value;
      AcceptsGrammar(ts, cfg.maxDepth, s);
    }
    if s :| ts == Flatten(s) + [End] && Depth(s) <= cfg.maxDepth && Build(s) == v {
      AcceptsGrammar(ts, cfg.maxDepth, s);
    }
  }

  // ---------- joining what a loop has read with what it will read ----------

  function Front<T>(done: seq<T>, r: Parsed<seq<T>>): Parsed<seq<T>>
  {
    if r.Fail? then Fail else Done(done + r.value, r.rest)
  }

  lemma FrontTwice<T>(a: seq<T>, b: seq<T>, r: Parsed<seq<T>>)
    ensures Front(a, Front(b, r)) == Front(a + b, r)
  {
    if r.Done? {
      assert a + (b + r.value) == a + b + r.value;
    }
  }

  lemma FrontNone<T>(r: Parsed<seq<T>>)
    ensures Front([], r) == r
  {
    if r.Done? {
      assert [] + r.value == r.value;
    }
  }

  lemma NothingStartsSo(ts: seq<Token>, us: seq<Token>, d: nat, max: nat)
    requires ts != [] && us != [] && ts[0] == us[0] && ts[0] in {End, Error}
    ensures ParseValue(ts, d, max) == ParseValue(us, d, max) == Fail
    ensures ParseItems(ts, d, max) == ParseItems(us, d, max) == Fail
    ensures ParseMembers(ts, d, max) == ParseMembers(us, d, max) == Fail
  {
  }

  /** What follows the parsed item decides the rest of the loop. */
  lemma ItemThen(ts: seq<Token>, d: nat, max: nat)
    requires ParseValue(ts, d, max).Done?
    ensures var v := ParseValue(ts, d, max);
      && (v.rest != [] && v.rest[0] == ArrEnd ==> ParseItems(ts, d, max) == Done([v.value], v.rest[1..]))
      && (v.rest != [] && v.rest[0] == Comma ==>
            ParseItems(ts, d, max) == Front([v.value], ParseItems(v.rest[1..], d, max)))
      && (v.rest == [] || v.rest[0] !in {ArrEnd, Comma} ==> ParseItems(ts, d, max) == Fail)
  {
    hide ParseValue;
  }

  lemma MemberThen(ts: seq<Token>, d: nat, max: nat)
    requires ParseMember(ts, d, max).Done?
    ensures var m := ParseMember(ts, d, max);
      && (m.rest != [] && m.rest[0] == ObjEnd ==> ParseMembers(ts, d, max) == Done([m.value], m.rest[1..]))
      && (m.rest != [] && m.rest[0] == Comma ==>
            ParseMembers(ts, d, max) == Front([m.value], ParseMembers(m.rest[1..], d, max)))
      && (m.rest == [] || m.rest[0] !in {ObjEnd, Comma} ==> ParseMembers(ts, d, max) == Fail)
  {
    hide ParseMember;
  }

  lemma NoItem(ts: seq<Token>, d: nat, max: nat)
    requires ParseValue(ts, d, max).Fail?
    ensures ParseItems(ts, d, max) == Fail
  {
  }

  lemma NoMember(ts: seq<Token>, d: nat, max: nat)
    requires ParseMember(ts, d, max).Fail?
    ensures ParseMembers(ts, d, max) == Fail
  {
  }

  /** An array after its bracket. */
  lemma ArrayThen(ts: seq<Token>, d: nat, max: nat)
    requires ts != []
    ensures ParseValue([ArrBegin] + ts, d, max) ==
      if d + 1 > max then Fail
      else if ts[0] == ArrEnd then Done(SArr([]), ts[1..])
      else
        var r := ParseItems(ts, d + 1, max);
        if r.Fail? then Fail else Done(SArr(r.value), r.rest)
  {
    hide ParseItems;
    assert ([ArrBegin] + ts)[1..] == ts;
    assert ([ArrBegin] + ts)[2..] == ts[1..];
  }

  lemma ObjectThen(ts: seq<Token>, d: nat, max: nat)
    requires ts != []
    ensures ParseValue([ObjBegin] + ts, d, max) ==
      if d + 1 > max then Fail
      else if ts[0] == ObjEnd then Done(SObj([]), ts[1..])
      else
        var r := ParseMembers(ts, d + 1, max);
        if r.Fail? then Fail else Done(SObj(r.value), r.rest)
  {
    hide ParseMembers;
    assert ([ObjBegin] + ts)[1..] == ts;
    assert ([ObjBegin] + ts)[2..] == ts[1..];
  }

  // ---------- the parser ----------

  /** A method has read what the grammar reads: it succeeds in the same cases,
      with the value of the same syntax and the same tokens left. */
  predicate ReadsValue(r: Parsed<Syntax>, ok: bool, v: Value, rest: seq<Token>)
  {
    ok == r.Done? && (ok ==> v == Build(r.value) && r.rest == rest)
  }

  predicate ReadsItems(r: Parsed<seq<Syntax>>, ok: bool, read: seq<Syntax>, items: seq<Value>, rest: seq<Token>)
  {
    ok == r.Done? && (ok ==> read == r.value != [] && items == BuildItems(read) && r.rest == rest)
  }

  predicate ReadsMember(r: Parsed<Member>, ok: bool, key: string, v: Value, rest: seq<Token>)
  {
    ok == r.Done? && (ok ==> key == r.value.key && v == Build(r.value.value) && r.rest == rest)
  }

  predicate ReadsMembers(r: Parsed<seq<Member>>, ok: bool, read: seq<Member>, fields: seq<Field>, rest: seq<Token>)
  {
    ok == r.Done? && (ok ==> read == r.value && fields == BuildFields(read) && r.rest == rest)
  }

  class Parser {
    const t: string
    const cfg: Config
    const tmp: Strbuf
    var ptr: nat
    var depth: nat

    ghost predicate Valid()
      reads this, tmp
    {
      ptr <= |t| && tmp.Valid() && tmp.size >= |t| + 1
    }

    /** The tokens still to be read. */
    ghost function Rest(): seq<Token>
      requires ptr <= |t|
      reads this
    {
      Tokens(t, ptr, cfg.invalid)
    }

    constructor (t: string, cfg: Config)
      ensures Valid() && fresh(tmp) && fresh(tmp.buf) && this.t == t && this.cfg == cfg && ptr == 0 && depth == 0
    {
      this.t, this.cfg := t, cfg;
      ptr, depth := 0, 0;
      var b := new Strbuf(|t|);
      tmp := b;
    }

    method Next() returns (tok: Token)
      requires Valid()
      modifies `ptr, tmp`length, tmp.buf
      ensures Valid() && ptr >= old(ptr)
      ensures tok !in {End, Error} ==> ptr > old(ptr) && old(Rest()) == [tok] + Rest()
      ensures tok in {End, Error} ==> old(Rest()) == [tok]
    {
      hide NextToken;
      var end;
      tok, end := ReadToken(t, ptr, cfg.invalid, tmp);
      assert Lexed(tok, end) == NextToken(t, ptr, cfg.invalid);
      ptr := end;
    }

    /** The token something starts with. At the end and after an error nothing
        starts, whatever is taken to follow. */
    method NextStart() returns (tok: Token)
      requires Valid()
      modifies `ptr, tmp`length, tmp.buf
      ensures Valid() && ptr >= old(ptr) && old(Rest())[0] == tok
      ensures tok !in {End, Error} ==> ptr > old(ptr) && old(Rest()) == [tok] + Rest()
      ensures ParseValue([tok] + Rest(), depth, cfg.maxDepth) == ParseValue(old(Rest()), depth, cfg.maxDepth)
      ensures ParseItems([tok] + Rest(), depth, cfg.maxDepth) == ParseItems(old(Rest()), depth, cfg.maxDepth)
      ensures ParseMembers([tok] + Rest(), depth, cfg.maxDepth) == ParseMembers(old(Rest()), depth, cfg.maxDepth)
    {
      hide Tokens, ParseValue, ParseItems, ParseMembers;
      ghost var ts := Rest();
      tok := Next();
      if tok in {End, Error} {
        NothingStartsSo(ts, [tok] + Rest(), depth, cfg.maxDepth);
      }
    }

    /** json_process_value: the value takes its tokens off the front, exactly as
        the grammar says, and leaves the depth as it was. */
    method ProcessValue(tok: Token) returns (ok: bool, v: Value)
      requires Valid()
      modifies `ptr, `depth, tmp`length, tmp.buf
      ensures Valid() && ptr >= old(ptr)
      ensures ReadsValue(ParseValue([tok] + old(Rest()), old(depth), cfg.maxDepth), ok, v, Rest())
      ensures ok ==> depth == old(depth)
      decreases |t| - ptr, if tok in {ArrBegin, ObjBegin} then 6 else 0
    {
      hide ParseItems, ParseMembers, Tokens, BuildItems, BuildFields;
      ok, v := true, Null;
      assert ([tok] + Rest())[1..] == Rest();
      match tok
      case StrToken(s) => v := Str(s);
      case NumToken(text) => v := Num(text);
      case BoolToken(b) => v := Bool(b);
      case NullToken =>
      case ObjBegin => ok, v := ParseObject();
      case ArrBegin => ok, v := ParseArray();
      case _ => ok := false;
    }

    /** json_parse_array_context */
    method ParseArray() returns (ok: bool, v: Value)
      requires Valid()
      modifies `ptr, `depth, tmp`length, tmp.buf
      ensures Valid() && ptr >= old(ptr)
      ensures ReadsValue(ParseValue([ArrBegin] + old(Rest()), old(depth), cfg.maxDepth), ok, v, Rest())
      ensures ok ==> depth == old(depth)
      decreases |t| - ptr, 3
    {
      hide Tokens, BuildItems, ParseItems;
      ghost var ts := Rest();
      ArrayThen(ts, depth, cfg.maxDepth);
      ok, v := false, Obj([]);
      depth := depth + 1;
      if depth > cfg.maxDepth {
        return;
      }
      var tok := NextStart();
      if tok == ArrEnd {
        depth := depth - 1;
        return true, v;
      }
      var items;
      ghost var read;
      ok, items, read := ParseArrayItems(tok);
      if ok {
        depth := depth - 1;
        v := Arr(items);
      }
    }

    /** The loop over the items of an array. */
    method ParseArrayItems(first: Token) returns (ok: bool, items: seq<Value>, ghost read: seq<Syntax>)
      requires Valid()
      modifies `ptr, `depth, tmp`length, tmp.buf
      ensures Valid() && ptr >= old(ptr)
      ensures ReadsItems(ParseItems([first] + old(Rest()), old(depth), cfg.maxDepth), ok, read, items, Rest())
      ensures ok ==> depth == old(depth)
      decreases |t| - ptr, if first in {ArrBegin, ObjBegin} then 8 else 2
    {
      hide Tokens, ParseItems, Build;
      var tok := first;
      ghost var all := ParseItems([tok] + Rest(), depth, cfg.maxDepth);
      ok, items, read := true, [], [];
      FrontNone(all);
      assert BuildItems(read) == items;
      hide BuildItems;
      while true
        invariant Valid() && depth == old(depth)
        invariant ptr > old(ptr) || (ptr == old(ptr) && tok == first)
        invariant items == BuildItems(read)
        invariant Front(read, ParseItems([tok] + Rest(), depth, cfg.maxDepth)) == all
        decreases |t| - ptr
      {
        var v, next;
        ghost var s;
        ok, v, next, s := ReadItem(tok);
        if !ok {
          return;
        }
        BuildItemsSnoc(read, s);
        items := items + [v];
        if next == ArrEnd {
          read := read + [s];
          return;
        }
        FrontTwice(read, [s], ParseItems(Rest(), depth, cfg.maxDepth));
        read := read + [s];
        tok := NextStart();
      }
    }

    /** An item and the token after it. */
    method ReadItem(tok: Token) returns (ok: bool, v: Value, next: Token, ghost s: Syntax)
      requires Valid()
      modifies `ptr, `depth, tmp`length, tmp.buf
      ensures Valid() && ptr >= old(ptr)
      ensures ok ==> ptr > old(ptr) && depth == old(depth) && v == Build(s) && next in {ArrEnd, Comma}
      ensures ParseItems([tok] + old(Rest()), old(depth), cfg.maxDepth)
           == if !ok then Fail
              else if next == ArrEnd then Done([s], Rest())
              else Front([s], ParseItems(Rest(), depth, cfg.maxDepth))
      decreases |t| - ptr, if tok in {ArrBegin, ObjBegin} then 7 else 1
    {
      hide Tokens, ParseItems, ParseValue, Build, Front;
      next, s := Error, SNull;
      ghost var ts := [tok] + Rest();
      ok, v := ProcessValue(tok);
      if !ok {
        NoItem(ts, old(depth), cfg.maxDepth);
        return;
      }
      s := ParseValue(ts, depth, cfg.maxDepth).value;
      ItemThen(ts, depth, cfg.maxDepth);
      next := Next();
      ok := next == ArrEnd || next == Comma;
    }

    /** json_parse_object_context */
    method ParseObject() returns (ok: bool, v: Value)
      requires Valid()
      modifies `ptr, `depth, tmp`length, tmp.buf
      ensures Valid() && ptr >= old(ptr)
      ensures ReadsValue(ParseValue([ObjBegin] + old(Rest()), old(depth), cfg.maxDepth), ok, v, Rest())
      ensures ok ==> depth == old(depth)
      decreases |t| - ptr, 3
    {
      hide Tokens, ParseMembers;
      assert Build(SObj([])) == Obj([]);
      hide BuildFields;
      ghost var ts := Rest();
      ObjectThen(ts, depth, cfg.maxDepth);
      ok, v := false, Obj([]);
      depth := depth + 1;
      if depth > cfg.maxDepth {
        return;
      }
      var tok := NextStart();
      if tok == ObjEnd {
        depth := depth - 1;
        return true, v;
      }
      var fields;
      ghost var read;
      ok, fields, read := ParseObjectFields(tok);
      if ok {
        depth := depth - 1;
        v := Obj(fields);
      }
    }

    /** The loop over the keys and values of an object. */
    method ParseObjectFields(first: Token) returns (ok: bool, fields: seq<Field>, ghost read: seq<Member>)
      requires Valid()
      modifies `ptr, `depth, tmp`length, tmp.buf
      ensures Valid() && ptr >= old(ptr)
      ensures ReadsMembers(ParseMembers([first] + old(Rest()), old(depth), cfg.maxDepth), ok, read, fields, Rest())
      ensures ok ==> depth == old(depth)
      decreases |t| - ptr, 2
    {
      hide Tokens, ParseMembers, Build;
      var tok := first;
      ghost var all := ParseMembers([tok] + Rest(), depth, cfg.maxDepth);
      ok, fields, read := true, [], [];
      FrontNone(all);
      assert BuildFields(read) == fields;
      hide BuildFields;
      while true
        invariant Valid() && depth == old(depth) && ptr >= old(ptr)
        invariant fields == BuildFields(read)
        invariant Front(read, ParseMembers([tok] + Rest(), depth, cfg.maxDepth)) == all
        decreases |t| - ptr
      {
        var key, v, next;
        ghost var m;
        ok, key, v, next, m := ReadField(tok);
        if !ok {
          return;
        }
        BuildFieldsSnoc(read, m);
        fields := Put(fields, key, v);
        if next == ObjEnd {
          read := read + [m];
          return;
        }
        FrontTwice(read, [m], ParseMembers(Rest(), depth, cfg.maxDepth));
        read := read + [m];
        tok := NextStart();
      }
    }

    /** A key with its value, and the token after them. */
    method ReadField(tok: Token) returns (ok: bool, key: string, v: Value, next: Token, ghost m: Member)
      requires Valid()
      modifies `ptr, `depth, tmp`length, tmp.buf
      ensures Valid() && ptr >= old(ptr)
      ensures ok ==> ptr > old(ptr) && depth == old(depth) && next in {ObjEnd, Comma}
      ensures ok ==> key == m.key && v == Build(m.value)
      ensures ParseMembers([tok] + old(Rest()), old(depth), cfg.maxDepth)
           == if !ok then Fail
              else if next == ObjEnd then Done([m], Rest())
              else Front([m], ParseMembers(Rest(), depth, cfg.maxDepth))
      decreases |t| - ptr, 1
    {
      hide Tokens, ParseMembers, ParseMember, Build, Front;
      next, m := Error, Member([], SNull);
      ghost var ts := [tok] + Rest();
      ok, key, v := ParsePair(tok);
      if !ok {
        NoMember(ts, old(depth), cfg.maxDepth);
        return;
      }
      m := ParseMember(ts, depth, cfg.maxDepth).value;
      MemberThen(ts, depth, cfg.maxDepth);
      next := Next();
      ok := next == ObjEnd || next == Comma;
    }

    /** A key, a colon and a value. */
    method ParsePair(tok: Token) returns (ok: bool, key: string, v: Value)
      requires Valid()
      modifies `ptr, `depth, tmp`length, tmp.buf
      ensures Valid() && ptr >= old(ptr) && (ok ==> ptr > old(ptr))
      ensures ReadsMember(ParseMember([tok] + old(Rest()), old(depth), cfg.maxDepth), ok, key, v, Rest())
      ensures ok ==> depth == old(depth)
      decreases |t| - ptr, 0
    {
      hide Tokens, ParseValue, Build;
      ok, key, v := false, [], Null;
      if !tok.StrToken? {
        return;
      }
      key := tok.s;
      ghost var ts := [tok] + Rest();
      var colon := Next();
      if colon != Colon {
        assert ts[1] == colon;
        return;
      }
      assert ts[2..] == Rest();
      var first := NextStart();
      ok, v := ProcessValue(first);
    }
  }

  /** json_decode */
  method Decode(t: string, cfg: Config) returns (v: Option<Value>)
    ensures v == Decoded(t, cfg)
  {
    hide Tokens, ParseValue, Build;
    if WideEncoding(t) {
      return None;
    }
    var json := new Parser(t, cfg);
    var tok := json.NextStart();
    var ok, value := json.ProcessValue(tok);
    if !ok {
      return None;
    }
    ghost var rest := json.Rest();
    LastToken(t, json.ptr, cfg.invalid);
    tok := json.Next();
    if tok != End {
      assert rest != [End];
      return None;
    }
    v := Some(value);
  }
}
