/** The growing buffer of strbuf.c and strbuf.h; buffers grow as they do unless told otherwise. */
module StringBuffers {

  const DEFAULT_SIZE: nat := 1023

  /** How a buffer grows unless it is told otherwise: by doubling. */
  const DEFAULT_INCREMENT := -2

  /** calculate_new_size: exact when shrinking. A negative increment multiplies the size until
      the text and its terminator fit, and no further; a positive one only rounds the old size
      up to a multiple of it, whatever is asked for. */
  method CalculateNewSize(size: nat, len: nat, increment: int) returns (newsize: nat)
    requires size > 0 && len > 0 && increment != 0 && increment != -1
    ensures size > len + 1 ==> newsize == len + 1
    ensures size <= len + 1 ==> newsize >= size
    ensures size <= len + 1 && increment < 0 ==> newsize >= len + 1
    ensures size < len + 1 && increment < 0 ==> newsize < -increment * (len + 1)
    ensures size == len + 1 && increment < 0 ==> newsize == size
    ensures size <= len + 1 && increment > 0 ==> newsize % increment == 0 && newsize < size + increment
    ensures size <= len + 1 && increment > 0 ==>
              (newsize >= len + 1 <==> len < (size + increment - 1) / increment * increment)
  {
    var reqsize := len + 1;
    if size > reqsize {
      return reqsize;
    }
    newsize := size;
    if increment < 0 {
      var factor := -increment;
      while newsize < reqsize
        invariant newsize >= size
        invariant newsize == size || (size < reqsize && newsize < factor * reqsize)
        decreases reqsize - newsize
      {
        Multiplied(newsize, factor, reqsize);
        newsize := newsize * factor;
      }
    } else {
      RoundedUp(newsize, increment);
      newsize := (newsize + increment - 1) / increment * increment;
    }
  }

  lemma Multiplied(n: nat, factor: nat, bound: nat)
    requires 0 < n < bound && factor >= 2
    ensures n < n * factor < factor * bound
  {
  }

  lemma RoundedUp(n: nat, increment: nat)
    requires n > 0 && increment > 0
    ensures var r := (n + increment - 1) / increment * increment; n <= r < n + increment && r % increment == 0
  {
    var q := (n + increment - 1) / increment;
    assert n + increment - 1 == increment * q + (n + increment - 1) % increment;
    assert q * increment == increment * q;
    MultipleOf(q, increment);
  }

  lemma MultipleOf(q: nat, d: nat)
    requires d > 0
    ensures q * d % d == 0
  {
    var n := q * d;
    var c, r := n / d, n % d;
    NoRemainder(q - c, d, r);
  }

  lemma NoRemainder(k: int, d: nat, r: nat)
    requires k * d == r < d
    ensures r == 0
  {
  }

  /** Growing linearly can leave too little: 10 characters for 100 become 16. */
  method LinearTooSmall() returns (newsize: nat)
    ensures newsize == 16
  {
    newsize := CalculateNewSize(10, 100, 8);
  }

  class Strbuf {
    var buf: array<char>
    var size: nat
    var length: nat
    var reallocs: nat

    /** There is always room for the terminator. */
    ghost predicate Valid()
      reads this
    {
      buf.Length == size && length < size
    }

    function Contents(): string
      requires Valid()
      reads this, buf
    {
      buf[..length]
    }

    /** strbuf_init */
    constructor (len: int)
      ensures Valid() && fresh(buf) && Contents() == []
      ensures size == if len <= 0 then DEFAULT_SIZE else len + 1
    {
      size := if len <= 0 then DEFAULT_SIZE else len + 1;
      length, reallocs := 0, 0;
      buf := new char[if len <= 0 then DEFAULT_SIZE else len + 1](_ => '\0');
    }

    /** strbuf_reset */
    method Reset()
      requires Valid()
      modifies `length
      ensures Valid() && Contents() == []
    {
      length := 0;
    }

    /** strbuf_resize: with less room than the text takes, the text is cut off and
        its length left too large. */
    method Resize(len: nat)
      requires Valid() && len > 0
      modifies this
      ensures fresh(buf) && buf.Length == size && length == old(length) && reallocs == old(reallocs) + 1
      ensures Valid() <==> len >= length
      ensures if Valid() then Contents() == old(Contents()) else buf[..] == old(Contents())[..size]
      ensures size >= len + 1 && (old(size) < len + 1 ==> size < 2 * (len + 1))
      ensures old(size) > len + 1 ==> size == len + 1
    {
      var newsize := CalculateNewSize(size, len, DEFAULT_INCREMENT);
      var bigger := new char[newsize](_ => '\0');
      ghost var was := Contents();
      var kept := if length < newsize then length else newsize;
      var i := 0;
      while i < kept
        invariant 0 <= i <= kept <= length && kept <= newsize && length <= buf.Length
        invariant bigger.Length == newsize && fresh(bigger)
        invariant buf == old(buf) && length == old(length) && reallocs == old(reallocs)
        invariant buf[..length] == was
        invariant bigger[..i] == was[..i]
        modifies bigger
      {
        bigger[i] := buf[i];
        assert bigger[..i + 1] == bigger[..i] + [was[i]];
        assert was[..i + 1] == was[..i] + [was[i]];
        i := i + 1;
      }
      buf := bigger;
      size := newsize;
      reallocs := reallocs + 1;
    }

    /** strbuf_ensure_empty_length */
    method EnsureEmptyLength(len: nat)
      requires Valid()
      modifies this
      ensures Valid() && (fresh(buf) || buf == old(buf)) && Contents() == old(Contents())
      ensures length + len < size
    {
      if len > size - length - 1 {
        Resize(length + len);
      }
    }

    /** strbuf_append_char_unsafe */
    method AppendCharUnsafe(c: char)
      requires Valid() && length + 1 < size
      modifies `length, buf
      ensures Valid() && Contents() == old(Contents()) + [c] && length == old(length) + 1
    {
      buf[length] := c;
      length := length + 1;
    }

    /** strbuf_append_mem_unsafe */
    method AppendMemUnsafe(s: string)
      requires Valid() && length + |s| < size
      modifies `length, buf
      ensures Valid() && Contents() == old(Contents()) + s && length == old(length) + |s|
    {
      forall i | 0 <= i < |s| {
        buf[length + i] := s[i];
      }
      length := length + |s|;
    }

    /** strbuf_append_char */
    method AppendChar(c: char)
      requires Valid()
      modifies this, buf
      ensures Valid() && (fresh(buf) || buf == old(buf)) && Contents() == old(Contents()) + [c]
    {
      EnsureEmptyLength(1);
      AppendCharUnsafe(c);
    }

    /** strbuf_append_mem */
    method AppendMem(s: string)
      requires Valid()
      modifies this, buf
      ensures Valid() && (fresh(buf) || buf == old(buf)) && Contents() == old(Contents()) + s
    {
      EnsureEmptyLength(|s|);
      AppendMemUnsafe(s);
    }

    /** strbuf_append_string: grows when a character no longer fits, which never
        happens when there was room for the whole string. */
    method AppendString(s: string)
      requires Valid()
      modifies this, buf
      ensures Valid() && (fresh(buf) || buf == old(buf)) && Contents() == old(Contents()) + s
      ensures length == old(length) + |s|
      ensures old(length) + |s| < old(size) ==> buf == old(buf) && size == old(size)
    {
      var space: nat := size - length - 1;
      var i := 0;
      while i < |s|
        invariant 0 <= i <= |s| && Valid() && (fresh(buf) || buf == old(buf))
        invariant space == size - length - 1 && length == old(length) + i
        invariant Contents() == old(Contents()) + s[..i]
        invariant old(length) + |s| < old(size) ==> buf == old(buf) && size == old(size)
      {
        if space < 1 {
          Resize(length + 1);
          space := size - length - 1;
        }
        ghost var was := Contents();
        buf[length] := s[i];
        length := length + 1;
        space := space - 1;
        assert Contents() == was + [s[i]];
        assert s[..i + 1] == s[..i] + [s[i]];
        i := i + 1;
      }
    }

    /** strbuf_ensure_null: the terminator is inside the buffer. */
    method EnsureNull()
      requires Valid()
      modifies buf
      ensures Valid() && Contents() == old(Contents()) && buf[length] == '\0'
    {
      buf[length] := '\0';
    }
  }
}
