/** The growing string of string.cpp: its constructors, append, reserve, clear and
    the copying assignments. */
module ByteStrings {

  /** strncpy of n characters: up to the first NUL, and NULs after it. */
  function CopyN(src: string, n: nat): (r: string)
    requires n <= |src|
    ensures |r| == n
  {
    if n == 0 then []
    else if src[0] == '\0' then seq(n, _ => '\0')
    else [src[0]] + CopyN(src[1..], n - 1)
  }

  /** No character other than NUL comes after a NUL. */
  predicate NulsLast(s: string)
  {
    forall i, k :: 0 <= i < k < |s| && s[i] == '\0' ==> s[k] == '\0'
  }

  /** Copying with strncpy keeps a string exactly when its NULs come last. */
  lemma {:induction false} CopyKeeps(s: string)
    ensures CopyN(s, |s|) == s <==> NulsLast(s)
  {
    if s != [] {
      var rest := s[1..];
      if s[0] == '\0' {
        if NulsLast(s) {
          assert forall k :: 0 <= k < |s| ==> s[k] == '\0';
        } else {
          var i, k :| 0 <= i < k < |s| && s[i] == '\0' && s[k] != '\0';
          assert CopyN(s, |s|)[k] == '\0';
        }
      } else {
        CopyKeeps(rest);
        assert s == [s[0]] + rest;
        assert CopyN(s, |s|)[1..] == CopyN(rest, |rest|);
        NulsLastTail(s);
      }
    }
  }

  lemma NulsLastTail(s: string)
    requires s != [] && s[0] != '\0'
    ensures NulsLast(s) <==> NulsLast(s[1..])
  {
    var rest := s[1..];
    if NulsLast(rest) {
      forall i, k | 0 <= i < k < |s| && s[i] == '\0' ensures s[k] == '\0' {
        assert rest[i - 1] == s[i] && rest[k - 1] == s[k];
      }
    }
    if NulsLast(s) {
      forall i, k | 0 <= i < k < |rest| && rest[i] == '\0' ensures rest[k] == '\0' {
        assert rest[i] == s[i + 1] && rest[k] == s[k + 1];
      }
    }
  }

  class ByteString {
    var data: array<char>
    var size: nat
    var capacity: nat
    var reserve: nat
    ghost var copied: nat // characters moved by reallocations

    /** The text and its terminator fit. */
    ghost predicate Valid()
      reads this, data
    {
      data.Length == capacity + 1 && size <= capacity && data[size] == '\0'
    }

    function Contents(): string
      requires Valid()
      reads this, data
    {
      data[..size]
    }

    /** After appends of n characters in all to a fresh string. */
    ghost predicate Grown(n: nat)
      reads this
    {
      size == n && reserve >= capacity && copied <= capacity && copied <= 2 * n
    }

    /** string::string() */
    constructor ()
      ensures Valid() && fresh(data) && Contents() == [] && Grown(0)
    {
      reserve, size, capacity, copied := 0, 0, 0, 0;
      data := new char[1](_ => '\0');
    }

    /** string::string(const char * data, size_t size) */
    constructor FromData(s: string)
      ensures Valid() && fresh(data) && Contents() == s && reserve == capacity == size && copied == 0
    {
      size, reserve, capacity, copied := |s|, |s|, |s|, 0;
      data := new char[|s| + 1](i requires i >= 0 => if i < |s| then s[i] else '\0');
    }

    /** string::reserve(size_t): growth at least doubles a string whose reserve has
        kept up with its capacity. */
    method Reserve(want: nat)
      requires Valid()
      modifies this
      ensures Valid() && (fresh(data) || data == old(data)) && Contents() == old(Contents())
      ensures size == old(size) && want <= capacity
      ensures if want >= old(capacity)
        then fresh(data) && capacity == want + old(reserve) && reserve == want + old(reserve) * 2
             && copied == old(copied) + size
        else data == old(data) && capacity == old(capacity) && reserve == old(reserve) && copied == old(copied)
    {
      if want >= capacity {
        var tmp := data;
        capacity := want + reserve;
        var bigger := new char[capacity + 1](_ => '\0');
        ghost var was := tmp[..size];
        var i := 0;
        while i < size
          invariant 0 <= i <= size <= capacity && bigger.Length == capacity + 1 && size < tmp.Length
          invariant tmp[..size] == was && bigger[..i] == was[..i]
          modifies bigger
        {
          bigger[i] := tmp[i];
          assert bigger[..i + 1] == bigger[..i] + [was[i]];
          assert was[..i + 1] == was[..i] + [was[i]];
          i := i + 1;
        }
        bigger[size] := '\0';
        copied := copied + size;
        data := bigger;
        reserve := want + reserve * 2;
      }
    }

    /** string::append(const char * data, size_t len) */
    method Append(s: string)
      requires Valid()
      modifies this, data
      ensures Valid() && (fresh(data) || data == old(data)) && Contents() == old(Contents()) + s
      ensures old(Grown(size)) ==> Grown(old(size) + |s|)
    {
      Reserve(size + |s|);
      ghost var start := size;
      ghost var was := Contents();
      var i := 0;
      while i < |s|
        invariant 0 <= i <= |s| && size == start + i && start + |s| <= capacity && data.Length == capacity + 1
        invariant data[..size] == was + s[..i]
        modifies `size, data
      {
        ghost var now := data[..size];
        data[size] := s[i];
        assert data[..size + 1] == now + [s[i]] && s[..i + 1] == s[..i] + [s[i]];
        i := i + 1;
        size := size + 1;
      }
      data[size] := '\0';
    }

    /** string::append(char) */
    method AppendChar(c: char)
      requires Valid()
      modifies this, data
      ensures Valid() && (fresh(data) || data == old(data)) && Contents() == old(Contents()) + [c]
      ensures old(Grown(size)) ==> Grown(old(size) + 1)
    {
      Reserve(size + 1);
      data[size] := c;
      size := size + 1;
      data[size] := '\0';
    }

    /** string::clear */
    method Clear()
      requires Valid()
      modifies this
      ensures Valid() && fresh(data) && Contents() == [] && reserve == 1024 && capacity == 0
    {
      reserve, size, capacity := 1024, 0, 0;
      data := new char[1](_ => '\0');
    }

    /** string::operator=(const string &): the contents are taken over exactly when
        no character follows a NUL. The source frees its own text first, so it is
        not for assigning a string to itself. */
    method Assign(a: ByteString)
      requires Valid() && a.Valid() && a != this
      modifies this
      ensures Valid() && fresh(data) && size == capacity == |old(a.Contents())| && reserve == 1024
      ensures Contents() == CopyN(old(a.Contents()), size)
      ensures Contents() == old(a.Contents()) <==> NulsLast(old(a.Contents()))
    {
      var text := CopyN(a.Contents(), a.size);
      CopyKeeps(a.Contents());
      reserve, size, capacity := 1024, |text|, |text|;
      data := new char[|text| + 1](i requires i >= 0 => if i < |text| then text[i] else '\0');
    }
  }

  function Total(parts: seq<string>): nat
  {
    if parts == [] then 0 else Total(parts[..|parts| - 1]) + |parts[|parts| - 1]|
  }

  function Joined(parts: seq<string>): string
  {
    if parts == [] then [] else Joined(parts[..|parts| - 1]) + parts[|parts| - 1]
  }

  /** Any run of appends to a fresh string gives their concatenation, and moves at
      most twice as many characters as it appends. */
  method AppendAll(parts: seq<string>) returns (str: ByteString)
    ensures str.Valid() && str.Contents() == Joined(parts)
    ensures str.size == Total(parts) <= str.capacity
    ensures str.copied <= 2 * Total(parts)
  {
    str := new ByteString();
    var i := 0;
    while i < |parts|
      invariant 0 <= i <= |parts| && str.Valid() && fresh(str) && fresh(str.data)
      invariant str.Contents() == Joined(parts[..i]) && str.Grown(Total(parts[..i]))
    {
      assert parts[..i + 1][..i] == parts[..i];
      str.Append(parts[i]);
      i := i + 1;
    }
    assert parts[..i] == parts;
  }
}
