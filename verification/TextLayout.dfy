/** fpconv_g_fmt: laying out a digit string and a decimal exponent as text in a
    fixed buffer. */
module TextLayout {
  import opened Words
  import opened Decimals

  function DigitChar(d: Digit): char
  {
    '0' + d as char
  }

  /** The characters of a digit string. */
  function Chars(ds: seq<Digit>): (s: string)
    ensures |s| == |ds| && forall i :: 0 <= i < |ds| ==> s[i] == DigitChar(ds[i])
  {
    seq(|ds|, i requires 0 <= i < |ds| => DigitChar(ds[i]))
  }

  /** n zeros. */
  function Zeros(n: nat): (s: string)
    ensures |s| == n && forall i :: 0 <= i < n ==> s[i] == '0'
  {
    seq(n, _ => '0')
  }

  /** The number of exponent digits written: at least two. */
  function ExpWidth(x: nat): nat
  {
    if x < 100 then 2 else 3
  }

  /** The lowest w decimal digits of x. */
  function LowDigits(x: nat, w: nat): (ds: seq<Digit>)
    ensures |ds| == w
  {
    if w == 0 then [] else LowDigits(x / 10, w - 1) + [x % 10]
  }

  lemma {:induction false} LowDigitsValue(x: nat, w: nat)
    requires x < Pow(10, w)
    ensures DecVal(LowDigits(x, w)) == x
  {
    if w > 0 {
      LowDigitsValue(x / 10, w - 1);
      DecSnoc(LowDigits(x / 10, w - 1), x % 10);
    }
  }

  /** `e`, the sign of the exponent, and its digits. */
  function ExpText(x: int): string
  {
    (if x < 0 then "e-" else "e+") + Chars(LowDigits(if x < 0 then -x else x, ExpWidth(if x < 0 then -x else x)))
  }

  /** The text of 0.s * 10^decpt: with an exponent when the point would fall
      far from the digits, otherwise in plain notation. */
  function Body(s: string, decpt: int, precision: nat): string
    requires |s| >= 1
  {
    if decpt <= -4 || decpt > precision then
      [s[0]] + (if |s| > 1 then "." + s[1..] else "") + ExpText(decpt - 1)
    else if decpt <= 0 then
      "0." + Zeros(-decpt) + s
    else if decpt < |s| then
      s[..decpt] + "." + s[decpt..]
    else
      s + Zeros(decpt - |s|)
  }

  function Layout(neg: bool, s: string, decpt: int, precision: nat): string
    requires |s| >= 1
  {
    (if neg then "-" else "") + Body(s, decpt, precision)
  }

  /** dtoa hands over the names of infinity and of not-a-number with this decimal
      point; they are copied. */
  function Written(neg: bool, s: string, decpt: int, precision: nat): string
    requires |s| >= 1
  {
    if decpt == 9999 then (if neg then "-" else "") + s else Layout(neg, s, decpt, precision)
  }

  /** With at most 14 digits the text and its terminator fit 32 bytes. */
  lemma LayoutFits(neg: bool, s: string, decpt: int, precision: nat)
    requires 1 <= |s| <= precision <= 14 && -998 <= decpt <= 1000
    ensures |Layout(neg, s, decpt, precision)| + 1 <= 32
  {
  }

  // ---------- writing it ----------

  /** Copies a string to position b of the buffer. */
  method Copy(buf: array<char>, b: nat, s: string) returns (b': nat)
    requires b + |s| < buf.Length
    modifies buf
    ensures b' == b + |s| && buf[..b'] == old(buf[..b]) + s
  {
    var i := 0;
    while i < |s|
      invariant 0 <= i <= |s|
      invariant buf[..b + i] == old(buf[..b]) + s[..i]
    {
      ghost var before := buf[..b + i];
      buf[b + i] := s[i];
      assert buf[..b + i + 1] == before + [s[i]];
      i := i + 1;
    }
    b' := b + i;
  }

  /** Writes one character. */
  method Put(buf: array<char>, b: nat, c: char) returns (b': nat)
    requires b + 1 < buf.Length
    modifies buf
    ensures b' == b + 1 && buf[..b'] == old(buf[..b]) + [c]
  {
    buf[b] := c;
    b' := b + 1;
  }

  lemma PrefixOfChars(ds: seq<Digit>, n: nat)
    requires n < |ds|
    ensures Chars(ds)[..n + 1] == Chars(ds)[..n] + [DigitChar(ds[n])]
  {
  }

  /** The exponent digits, from the most significant one down: each turn divides
      by the same k and scales the rest up by ten. */
  method PutExponent(buf: array<char>, b0: nat, x: nat) returns (b: nat)
    requires x < 1000 && b0 + ExpWidth(x) < buf.Length
    modifies buf
    ensures b == b0 + ExpWidth(x) && buf[..b] == old(buf[..b0]) + Chars(LowDigits(x, ExpWidth(x)))
  {
    var j, k := 2, 10;
    while 10 * k <= x
      invariant (j == 2 && k == 10) || (j == 3 && k == 100 && x >= 100)
      decreases 3 - j
    {
      j := j + 1;
      k := k * 10;
    }
    ghost var w := j;
    assert w == ExpWidth(x);
    var decpt := x;
    b := b0;
    ghost var ds := LowDigits(x, w);
    assert decpt == RestOf(x, w, 0);
    hide LowDigits, RestOf, Chars, ExpWidth;
    while true
      invariant 0 < j <= w && b == b0 + w - j
      invariant buf[..b] == old(buf[..b0]) + Chars(ds)[..w - j]
      invariant decpt == RestOf(x, w, w - j)
      decreases j
    {
      var i := decpt / k;
      TopDigit(x, w, w - j, k, decpt);
      ghost var before := buf[..b];
      PrefixOfChars(ds, w - j);
      b := Put(buf, b, '0' + i as char);
      j := j - 1;
      if j <= 0 {
        break;
      }
      decpt := decpt - i * k;
      decpt := decpt * 10;
    }
    assert Chars(ds)[..w] == Chars(ds);
  }

  /** What is left of x after n of its w digits, scaled up by 10^n. */
  function RestOf(x: nat, w: nat, n: nat): nat
  {
    if n == 0 then x
    else if w == 2 then x % 10 * 10
    else if n == 1 then x % 100 * 10
    else x % 10 * 100
  }

  lemma ExponentDigits(x: nat, w: nat)
    requires x < 1000 && w == ExpWidth(x)
    ensures LowDigits(x, w) == if w == 2 then [x / 10, x % 10] else [x / 100, x / 10 % 10, x % 10]
  {
    assert LowDigits(x, 0) == [];
    assert LowDigits(x / 10, 1) == LowDigits(x / 100, 0) + [x / 10 % 10];
    assert LowDigits(x, 2) == LowDigits(x / 10, 1) + [x % 10];
    if w == 3 {
      assert LowDigits(x / 100, 1) == LowDigits(x / 1000, 0) + [x / 100 % 10];
      assert LowDigits(x / 10, 2) == LowDigits(x / 100, 1) + [x / 10 % 10];
      assert LowDigits(x, 3) == LowDigits(x / 10, 2) + [x % 10];
    }
  }

  lemma TopDigit(x: nat, w: nat, n: nat, k: nat, rest: nat)
    requires x < 1000 && w == ExpWidth(x) && n < w
    requires k == (if w == 2 then 10 else 100) && rest == RestOf(x, w, n)
    ensures 0 <= rest / k <= 9 && rest / k == LowDigits(x, w)[n]
    ensures n + 1 < w ==> (rest - rest / k * k) * 10 == RestOf(x, w, n + 1)
  {
    ExponentDigits(x, w);
    if w == 2 {
      assert x == x / 10 * 10 + x % 10;
    } else {
      TwoDigits(x);
    }
  }

  lemma TwoDigits(x: nat)
    requires x < 1000
    ensures x == x / 100 * 100 + x % 100 && x % 100 == x / 10 % 10 * 10 + x % 10
  {
  }

  /** fpconv_g_fmt on the digits, exponent and sign that dtoa returns. */
  method GFmt(buf: array<char>, s: string, decpt0: int, neg: bool, precision: nat) returns (len: nat)
    requires buf.Length >= 32
    requires if decpt0 == 9999 then 1 <= |s| <= 8 else 1 <= |s| <= precision <= 14 && -998 <= decpt0 <= 1000
    modifies buf
    ensures len < 32 && buf[..len] == Written(neg, s, decpt0, precision) && buf[len] == '\0'
  {
    var b := 0;
    if neg {
      b := Put(buf, b, '-');
    }
    assert buf[..b] == if neg then "-" else "";
    if decpt0 == 9999 {
      b := Copy(buf, b, s);
    } else if decpt0 <= -4 || decpt0 > precision {
      b := PutScientific(buf, b, s, decpt0);
    } else if decpt0 <= 0 {
      b := PutFraction(buf, b, s, decpt0);
    } else {
      b := PutPlain(buf, b, s, decpt0);
    }
    buf[b] := '\0';
    len := b;
  }

  method PutScientific(buf: array<char>, b0: nat, s: string, decpt0: int) returns (b: nat)
    requires buf.Length >= 32 && b0 <= 1 && 1 <= |s| <= 14 && -998 <= decpt0 <= 1000
    modifies buf
    ensures b < 32
    ensures buf[..b] == old(buf[..b0]) + ([s[0]] + (if |s| > 1 then "." + s[1..] else "") + ExpText(decpt0 - 1))
  {
    ghost var pre, mantissa := buf[..b0], [s[0]] + (if |s| > 1 then "." + s[1..] else "");
    b := PutMantissa(buf, b0, s);
    b := PutExpText(buf, b, decpt0 - 1);
    assert buf[..b] == pre + (mantissa + ExpText(decpt0 - 1));
  }

  /** One digit, and the others after a point. */
  method PutMantissa(buf: array<char>, b0: nat, s: string) returns (b: nat)
    requires buf.Length >= 32 && b0 <= 1 && 1 <= |s| <= 14
    modifies buf
    ensures b <= b0 + 1 + |s|
    ensures buf[..b] == old(buf[..b0]) + ([s[0]] + (if |s| > 1 then "." + s[1..] else ""))
  {
    ghost var pre := buf[..b0];
    b := Put(buf, b0, s[0]);
    if |s| > 1 {
      b := Put(buf, b, '.');
      b := Copy(buf, b, s[1..]);
      assert buf[..b] == pre + ([s[0]] + ("." + s[1..]));
    }
  }

  /** `e`, the sign and the digits of the exponent. */
  method PutExpText(buf: array<char>, b0: nat, x: int) returns (b: nat)
    requires buf.Length >= 32 && b0 <= 16 && -999 <= x <= 999
    modifies buf
    ensures b < 32 && buf[..b] == old(buf[..b0]) + ExpText(x)
  {
    hide LowDigits, Chars;
    ghost var pre := buf[..b0];
    b := Put(buf, b0, 'e');
    var decpt := x;
    if decpt < 0 {
      b := Put(buf, b, '-');
      decpt := -decpt;
    } else {
      b := Put(buf, b, '+');
    }
    assert buf[..b] == pre + (if x < 0 then "e-" else "e+");
    b := PutExponent(buf, b, decpt);
    assert buf[..b] == pre + ExpText(x);
  }

  method PutFraction(buf: array<char>, b0: nat, s: string, decpt0: int) returns (b: nat)
    requires buf.Length >= 32 && b0 <= 1 && 1 <= |s| <= 14 && -4 < decpt0 <= 0
    modifies buf
    ensures b < 32 && buf[..b] == old(buf[..b0]) + ("0." + Zeros(-decpt0) + s)
  {
    ghost var pre := buf[..b0];
    b := Put(buf, b0, '0');
    b := Put(buf, b, '.');
    var decpt := decpt0;
    while decpt < 0
      invariant decpt0 <= decpt <= 0 && b == b0 + 2 + decpt - decpt0
      invariant buf[..b] == pre + ("0." + Zeros(decpt - decpt0))
    {
      b := Put(buf, b, '0');
      decpt := decpt + 1;
      assert Zeros(decpt - decpt0) == Zeros(decpt - 1 - decpt0) + ['0'];
    }
    b := Copy(buf, b, s);
  }

  method PutPlain(buf: array<char>, b0: nat, s: string, decpt0: nat) returns (b: nat)
    requires buf.Length >= 32 && b0 <= 1 && 1 <= |s| <= 14 && 0 < decpt0 <= 14
    modifies buf
    ensures b < 32
    ensures buf[..b]
         == old(buf[..b0]) + (if decpt0 < |s| then s[..decpt0] + "." + s[decpt0..] else s + Zeros(decpt0 - |s|))
  {
    ghost var pre := buf[..b0];
    var i, decpt: int := 0, decpt0;
    b := b0;
    assert s[..0] == "";
    while i < |s|
      invariant 0 <= i <= |s| && decpt == decpt0 - i
      invariant b == b0 + i + (if decpt0 <= i && decpt0 < |s| then 1 else 0)
      invariant buf[..b] == pre + (if decpt0 <= i && decpt0 < |s| then s[..decpt0] + "." + s[decpt0..i] else s[..i])
    {
      b := Put(buf, b, s[i]);
      i := i + 1;
      decpt := decpt - 1;
      if decpt == 0 && i < |s| {
        b := Put(buf, b, '.');
      }
    }
    assert s[..|s|] == s;
    b := PadZeros(buf, b, decpt);
  }

  /** Zeros up to the point. */
  method PadZeros(buf: array<char>, b0: nat, n: int) returns (b: nat)
    requires b0 + (if n > 0 then n else 0) < buf.Length
    modifies buf
    ensures b == b0 + (if n > 0 then n else 0)
    ensures buf[..b] == old(buf[..b0]) + Zeros(if n > 0 then n else 0)
  {
    var decpt := n;
    b := b0;
    while decpt > 0
      invariant n <= 0 ==> decpt == n && b == b0
      invariant n > 0 ==> 0 <= decpt <= n && b == b0 + n - decpt
      invariant buf[..b] == old(buf[..b0]) + Zeros(b - b0)
    {
      b := Put(buf, b, '0');
      decpt := decpt - 1;
      assert Zeros(b - b0) == Zeros(b - 1 - b0) + ['0'];
    }
  }
}
