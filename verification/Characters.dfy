/** NUL-terminated text, character by character. */
module Characters {

  /** The NUL-terminated string at position i. */
  function At(s: string, i: nat): char
  {
    if i < |s| then s[i] else '\0'
  }

  /** A read of the program: at most the terminator itself. */
  function Peek(s: string, i: nat): (c: char)
    requires i <= |s|
    ensures c == At(s, i) && (c != '\0' ==> i < |s|)
  {
    At(s, i)
  }

  predicate IsDigit(c: char)
  {
    '0' <= c <= '9'
  }

  predicate IsBlank(c: char)
  {
    c == ' ' || '\t' <= c <= '\r'
  }

  predicate IsHex(c: char)
  {
    IsDigit(c) || 'a' <= c <= 'f' || 'A' <= c <= 'F'
  }

  function Lower(c: char): char
  {
    if 'A' <= c <= 'Z' then c + 32 as char else c
  }

  // ---------- runs of characters ----------

  /** The end of the run of blanks, zeros, digits or hexadecimal digits that starts at i. */
  function SpanBlank(s: string, i: nat): (j: nat)
    ensures i <= j && (i < j ==> j <= |s|)
    decreases |s| - i
  {
    if i < |s| && IsBlank(s[i]) then SpanBlank(s, i + 1) else i
  }

  function SpanZeros(s: string, i: nat): (j: nat)
    ensures i <= j && (i < j ==> j <= |s|)
    decreases |s| - i
  {
    if i < |s| && s[i] == '0' then SpanZeros(s, i + 1) else i
  }

  function SpanDigits(s: string, i: nat): (j: nat)
    ensures i <= j && (i < j ==> j <= |s|) && !IsDigit(At(s, j))
    decreases |s| - i
  {
    if i < |s| && IsDigit(s[i]) then SpanDigits(s, i + 1) else i
  }

  function SpanHex(s: string, i: nat): (j: nat)
    ensures i <= j && (i < j ==> j <= |s|) && !IsHex(At(s, j))
    decreases |s| - i
  {
    if i < |s| && IsHex(s[i]) then SpanHex(s, i + 1) else i
  }

  method SkipBlank(s: string, i: nat) returns (j: nat)
    requires i <= |s|
    ensures j == SpanBlank(s, i) && j <= |s|
  {
    j := i;
    while IsBlank(Peek(s, j))
      invariant i <= j <= |s| && SpanBlank(s, j) == SpanBlank(s, i)
      decreases |s| - j
    {
      j := j + 1;
    }
  }

  method SkipZeros(s: string, i: nat) returns (j: nat)
    requires i <= |s|
    ensures j == SpanZeros(s, i) && j <= |s|
  {
    j := i;
    while Peek(s, j) == '0'
      invariant i <= j <= |s| && SpanZeros(s, j) == SpanZeros(s, i)
      decreases |s| - j
    {
      j := j + 1;
    }
  }

  method SkipHex(s: string, i: nat) returns (j: nat)
    requires i <= |s|
    ensures j == SpanHex(s, i) && j <= |s|
  {
    j := i;
    while IsHex(Peek(s, j))
      invariant i <= j <= |s| && SpanHex(s, j) == SpanHex(s, i)
      decreases |s| - j
    {
      j := j + 1;
    }
  }
}
