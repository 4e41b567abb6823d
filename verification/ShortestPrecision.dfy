/** The shortest-digits loop of dtoa (modes 0 and 1, round-to-nearest): stop at
    the first digit string that lies in the rounding interval. */
module ShortestPrecision {
  import opened Words
  import opened Bigints
  import opened Division
  import opened Decimals
  import opened FixedPrecision

  // ---------- the rounding interval ----------

  /** n/s is the number, the interval around it reaches from (n - mlo)/s to
      (n + mhi)/s, and its ends belong to it when `closed`. */
  datatype Interval = Interval(n: nat, s: nat, mlo: nat, mhi: nat, closed: bool)
  {
    predicate Valid()
    {
      0 < s <= n < 10 * s && 0 < mlo <= mhi
    }

    /** v * 10^(1 - lev) lies in the interval. */
    predicate Holds(v: nat, lev: nat)
      requires lev >= 1
    {
      var p := Pow(10, lev - 1);
      Within(n * p, mlo * p, mhi * p, v * s, closed)
    }
  }

  /** x lies in the interval that reaches from lo below a to hi above a. */
  predicate Within(a: nat, lo: nat, hi: nat, x: nat, closed: bool)
  {
    && (a - lo < x || (closed && a - lo == x))
    && (x < a + hi || (closed && x == a + hi))
  }

  /** Another digit 0 changes nothing. */
  lemma HoldsScaled(iv: Interval, v: nat, lev: nat)
    requires lev >= 1
    ensures iv.Holds(10 * v, lev + 1) <==> iv.Holds(v, lev)
  {
    TimesTen(iv.n, lev - 1);
    TimesTen(iv.mlo, lev - 1);
    TimesTen(iv.mhi, lev - 1);
    MulAssoc(10, v, iv.s);
  }

  /** With remainder r left at a level where the interval reaches mlo down and
      mhi up, the digits so far are acceptable as they are, or plus one. */
  predicate LowFits(r: nat, mlo: nat, closed: bool)
  {
    r < mlo || (closed && r == mlo)
  }

  predicate HighFits(r: nat, s: nat, mhi: nat, closed: bool)
  {
    s < r + mhi || (closed && s == r + mhi)
  }

  /** When neither neighbour fits, no decimal of that length does. */
  lemma NeitherFits(iv: Interval, v: nat, r: nat, lev: nat, w: nat)
    requires iv.Valid() && lev >= 1 && r < iv.s
    requires v * iv.s + r == iv.n * Pow(10, lev - 1)
    requires !iv.Holds(v, lev) && !iv.Holds(v + 1, lev)
    ensures !iv.Holds(w, lev)
  {
    var p := Pow(10, lev - 1);
    PowPositive(10, lev - 1);
    MulStrict(0, iv.mlo, p);
    MulStrict(0, iv.mhi, p);
    var x, y := v * iv.s, (v + 1) * iv.s;
    assert y == x + iv.s;
    if w <= v {
      MulMonotone(w, v, iv.s);
      Outside(iv.n * p, iv.mlo * p, iv.mhi * p, x, w * iv.s, iv.closed);
    } else {
      MulMonotone(v + 1, w, iv.s);
      Outside(iv.n * p, iv.mlo * p, iv.mhi * p, y, w * iv.s, iv.closed);
    }
  }

  /** What is farther off on the same side does not fit either. */
  lemma Outside(a: nat, lo: nat, hi: nat, x: nat, y: nat, closed: bool)
    requires 0 < lo && 0 < hi && !Within(a, lo, hi, x, closed)
    requires y <= x <= a || a <= x <= y
    ensures !Within(a, lo, hi, y, closed)
  {
  }

  // ---------- one decision ----------

  datatype Decision = Continue | Done(dig: nat) | NineUp

  /** The tests after a digit, in the order of the loop body: j compares the
      remainder with mlo, j1 compares it with S - mhi, j2 compares its double
      with S. */
  function Decide(dig: Digit, zero: bool, j: int, j1: int, j2: int, closed: bool): Decision
  {
    if j1 == 0 && closed then
      if dig == 9 then NineUp else if j > 0 then Done(dig + 1) else Done(dig)
    else if j < 0 || (j == 0 && closed) then
      if zero then Done(dig)
      else if j1 > 0 && (j2 > 0 || (j2 == 0 && dig % 2 == 1)) then
        if dig == 9 then NineUp else Done(dig + 1)
      else Done(dig)
    else if j1 > 0 then
      if dig == 9 then NineUp else Done(dig + 1)
    else Continue
  }

  /** j1 as computed: the sign of r + mhi - s, except that a remainder with no
      words in use always counts as the smaller one. */
  predicate Compared(j: int, j1: int, j2: int, r: nat, s: nat, mlo: nat, mhi: nat, empty: bool)
  {
    && (j < 0 <==> r < mlo) && (j == 0 <==> r == mlo)
    && (j1 > 0 <==> r + mhi > s) && (j1 == 0 <==> r + mhi == s && !empty)
    && (empty ==> r == 0)
    && (r > 0 ==> (j2 < 0 <==> 2 * r < s) && (j2 == 0 <==> 2 * r == s))
  }

  /** What each decision means for the interval. */
  lemma DecideFits(dig: Digit, j: int, j1: int, j2: int, r: nat, s: nat, mlo: nat, mhi: nat, closed: bool,
                   empty: bool)
    requires Compared(j, j1, j2, r, s, mlo, mhi, empty) && r < s && 0 < mlo
    ensures var d := Decide(dig, r == 0, j, j1, j2, closed);
            match d
            case Continue => !LowFits(r, mlo, closed) && !HighFits(r, s, mhi, closed)
            case NineUp => dig == 9 && HighFits(r, s, mhi, closed)
            case Done(e) => (e == dig && LowFits(r, mlo, closed)) || (e == dig + 1 <= 9 && HighFits(r, s, mhi, closed))
  {
  }

  /** A 9 that is carried, although the number below fits and is the nearer one. */
  predicate CarriedAway(r: nat, s: nat, mlo: nat, mhi: nat, closed: bool, empty: bool)
  {
    closed && r + mhi == s && !empty && r <= mlo && 2 * r < s
  }

  /** Of two candidates that fit, the loop takes one that is nearest to n/s,
      except exactly for such a 9. */
  lemma DecideNearest(dig: Digit, j: int, j1: int, j2: int, r: nat, s: nat, mlo: nat, mhi: nat, closed: bool,
                      empty: bool)
    requires Compared(j, j1, j2, r, s, mlo, mhi, empty) && r < s && 0 < mlo <= mhi
    ensures var low, high := LowFits(r, mlo, closed), HighFits(r, s, mhi, closed);
            match Decide(dig, r == 0, j, j1, j2, closed)
            case Continue => true
            case NineUp => (!low || 2 * r >= s) <==> !CarriedAway(r, s, mlo, mhi, closed, empty)
            case Done(e) =>
              var tie := 2 * r == s && (e % 2 == 0 || mlo + mhi == s);
              if e == dig then !high || 2 * r < s || tie else !low || 2 * r > s || tie
    ensures Decide(dig, r == 0, j, j1, j2, closed) == NineUp ==> dig == 9
    ensures dig == 9 && CarriedAway(r, s, mlo, mhi, closed, empty) ==> Decide(dig, r == 0, j, j1, j2, closed) == NineUp
  {
  }

  // ---------- the whole run on numbers ----------

  /** A half-width after i multiplications by ten. */
  function Width(m: nat, i: nat): nat
  {
    if i == 0 then m else 10 * Width(m, i - 1)
  }

  lemma {:induction false} WidthIsPow(m: nat, i: nat)
    ensures Width(m, i) == m * Pow(10, i)
  {
    if i > 0 {
      WidthIsPow(m, i - 1);
      TimesTen(m, i - 1);
    }
  }

  /** Holds, with every product written as a recursion of the loop. */
  ghost predicate Fits(iv: Interval, v: nat, lev: nat)
    requires lev >= 1
  {
    Within(Width(iv.n, lev - 1), Width(iv.mlo, lev - 1), Width(iv.mhi, lev - 1), Times(v, iv.s), iv.closed)
  }

  lemma FitsIsHolds(iv: Interval, v: nat, lev: nat)
    requires lev >= 1
    ensures Fits(iv, v, lev) <==> iv.Holds(v, lev)
  {
    WidthIsPow(iv.n, lev - 1);
    WidthIsPow(iv.mlo, lev - 1);
    WidthIsPow(iv.mhi, lev - 1);
    TimesIsProduct(v, iv.s);
  }

  /** No stop at level lev: neither the first lev digits nor their successor
      fit. */
  ghost predicate Undecided(iv: Interval, lev: nat)
    requires iv.s > 0 && lev >= 1
  {
    !Fits(iv, Leading(iv.n, iv.s, lev), lev) && !Fits(iv, Leading(iv.n, iv.s, lev) + 1, lev)
  }

  lemma NothingFits(iv: Interval, w: nat, lev: nat, v: nat, r: nat)
    requires iv.Valid() && lev >= 1 && Undecided(iv, lev)
    requires v == Leading(iv.n, iv.s, lev) && r == LongDivision(iv.n, iv.s, lev).1
    ensures !iv.Holds(w, lev)
  {
    LeadingRemainder(iv.n, iv.s, lev);
    FitsIsHolds(iv, v, lev);
    FitsIsHolds(iv, v + 1, lev);
    NeitherFits(iv, v, r, lev, w);
  }

  /** A correct answer of the shortest-digits loop: the decimal
      ds * 10^carry, read with its first digit at the units place, lies in the
      interval; it has no needless digit; and no decimal with fewer digits
      lies in the interval. */
  ghost predicate Shortest(iv: Interval, ds: seq<Digit>, carry: nat)
  {
    && Tight(ds) && carry <= 1 && (carry == 1 ==> ds == [1])
    && iv.Holds(DecVal(ds) * Pow(10, carry), |ds|)
    && forall lev: nat, v: nat :: 1 <= lev < |ds| ==> !iv.Holds(v, lev)
  }

  // ---------- the nearest ----------

  function Dist(a: nat, b: nat): nat
  {
    if a < b then b - a else a - b
  }

  /** How far v * 10^(1 - lev) is off the number, in units of 10^(1 - lev) / s. */
  function Off(iv: Interval, v: nat, lev: nat): nat
    requires lev >= 1
  {
    Dist(v * iv.s, iv.n * Pow(10, lev - 1))
  }

  /** The interval is as wide as two decimals of that length are apart: a decimal half way
      between the two is then nearest to both only when they are its ends. */
  predicate Spanned(iv: Interval, lev: nat)
    requires lev >= 1
  {
    (iv.mlo + iv.mhi) * Pow(10, lev - 1) == iv.s
  }

  /** No decimal of that length in the interval is nearer to the number, and of two that are as
      near it is the even one, unless they are the ends of the interval. */
  ghost predicate Nearest(iv: Interval, v: nat, lev: nat)
    requires lev >= 1
  {
    forall w: nat :: iv.Holds(w, lev) ==>
      && Off(iv, v, lev) <= Off(iv, w, lev)
      && (Off(iv, v, lev) == Off(iv, w, lev) ==> w == v || v % 2 == 0 || Spanned(iv, lev))
  }

  /** The ratio is 9 and less than one half, the upper end of the interval is 10
      and belongs to it, and 9 lies in it too. `one` says that the divisor is a
      single word; an exact 9 then leaves a remainder without words. */
  predicate Lost(iv: Interval, one: bool)
  {
    && iv.closed && iv.n + iv.mhi == 10 * iv.s && 2 * iv.n < 19 * iv.s
    && 9 * iv.s <= iv.n <= 9 * iv.s + iv.mlo && (iv.n > 9 * iv.s || !one)
  }

  /** The whole answer: a shortest decimal, and a nearest one of its length except
      for a lost tie. */
  ghost predicate Answered(iv: Interval, ds: seq<Digit>, carry: nat, one: bool)
  {
    Shortest(iv, ds, carry) && (Nearest(iv, DecVal(ds) * Pow(10, carry), |ds|) <==> !Lost(iv, one))
  }

  /** There is no such number once it is nineteen times the half-width. */
  lemma NotLost(iv: Interval, one: bool)
    requires iv.n >= 19 * iv.mhi
    ensures !Lost(iv, one)
  {
  }

  /** There are smaller ones: 37/4, with 34/4 and 40/4 as the ends. */
  lemma LostExample(one: bool)
    ensures Lost(Interval(37, 4, 3, 3, true), one)
  {
  }

  /** Between v and v + 1: the one taken is the nearer one, or the even one of two as near, or
      the other does not fit. */
  ghost predicate Picked(iv: Interval, v: nat, r: nat, lev: nat, up: bool)
    requires lev >= 1
  {
    var c := if up then v + 1 else v;
    var tie := 2 * r == iv.s && (c % 2 == 0 || Spanned(iv, lev));
    if up then !Fits(iv, v, lev) || 2 * r > iv.s || tie else !Fits(iv, v + 1, lev) || 2 * r < iv.s || tie
  }

  lemma PickedIsNearest(iv: Interval, v: nat, r: nat, lev: nat, up: bool)
    requires iv.Valid() && lev >= 1 && Divided(iv, v, r, lev)
    ensures Picked(iv, v, r, lev, up) <==> Nearest(iv, if up then v + 1 else v, lev)
  {
    if r == 0 {
      ExactHolds(iv, v, lev);
    }
    hide Fits, Off, Divided, Spanned;
    var u, c := v + 1, if up then v + 1 else v;
    FitsIsHolds(iv, v, lev);
    FitsIsHolds(iv, u, lev);
    Candidate(iv, v, r, lev, v);
    Candidate(iv, v, r, lev, u);
    if Picked(iv, v, r, lev, up) {
      forall w: nat | iv.Holds(w, lev)
        ensures Off(iv, c, lev) <= Off(iv, w, lev)
        ensures Off(iv, c, lev) == Off(iv, w, lev) ==> w == c || c % 2 == 0 || Spanned(iv, lev)
      {
        Candidate(iv, v, r, lev, w);
      }
    } else {
      assert iv.Holds(if up then v else u, lev);
    }
  }

  /** The number itself lies in the interval. */
  lemma ExactHolds(iv: Interval, v: nat, lev: nat)
    requires iv.Valid() && lev >= 1 && Divided(iv, v, 0, lev)
    ensures iv.Holds(v, lev)
  {
    var p := Pow(10, lev - 1);
    PowPositive(10, lev - 1);
    MulStrict(0, iv.mlo, p);
    MulStrict(0, iv.mhi, p);
  }

  /** v is the quotient at level lev and r the remainder. */
  predicate Divided(iv: Interval, v: nat, r: nat, lev: nat)
    requires lev >= 1
  {
    v * iv.s + r == iv.n * Pow(10, lev - 1) && r < iv.s
  }

  /** How far a candidate is off. */
  lemma Candidate(iv: Interval, v: nat, r: nat, lev: nat, w: nat)
    requires lev >= 1 && Divided(iv, v, r, lev)
    ensures r < iv.s
    ensures w == v ==> Off(iv, w, lev) == r
    ensures w == v + 1 ==> Off(iv, w, lev) == iv.s - r
    ensures w < v ==> Off(iv, w, lev) >= iv.s + r
    ensures w > v + 1 ==> Off(iv, w, lev) >= 2 * iv.s - r
  {
    hide Pow;
    var s := iv.s;
    if w < v {
      MulMonotone(w + 1, v, s);
      assert (w + 1) * s == w * s + s;
    } else if w == v + 1 {
      assert (v + 1) * s == v * s + s;
    } else if w > v + 1 {
      MulMonotone(v + 2, w, s);
      assert (v + 2) * s == v * s + 2 * s;
    }
  }

  // ---------- the turns of the loop ----------

  /** The decision at level len, in terms of the interval. */
  lemma Judged(iv: Interval, len: nat, dig: Digit, r: nat, j: int, j1: int, j2: int, empty: bool)
    requires iv.Valid() && len >= 1
    requires dig == Quo(Numerator(iv.n, iv.s, len - 1), iv.s) && r == LongDivision(iv.n, iv.s, len).1
    requires Compared(j, j1, j2, r, iv.s, Width(iv.mlo, len - 1), Width(iv.mhi, len - 1), empty)
    ensures var v := 10 * Leading(iv.n, iv.s, len - 1);
            match Decide(dig, r == 0, j, j1, j2, iv.closed)
            case Continue => Undecided(iv, len)
            case NineUp => dig == 9 && Fits(iv, v + 10, len)
            case Done(e) => e <= 9 && Fits(iv, v + e, len)
    ensures Decide(dig, r == 0, j, j1, j2, iv.closed) == Continue ==> Width(iv.mlo, len - 1) <= r < iv.s
  {
    var v := Leading(iv.n, iv.s, len);
    assert v == 10 * Leading(iv.n, iv.s, len - 1) + dig;
    LeadingFits(iv, v, r, len);
    DecideFits(dig, j, j1, j2, r, iv.s, Width(iv.mlo, len - 1), Width(iv.mhi, len - 1), iv.closed, empty);
  }

  /** The same for the choice between two candidates. */
  lemma JudgedPicked(iv: Interval, len: nat, dig: Digit, v: nat, r: nat, j: int, j1: int, j2: int, empty: bool,
                     lo: nat, hi: nat, d: Decision)
    requires iv.Valid() && len >= 1 && v == Leading(iv.n, iv.s, len) && r == LongDivision(iv.n, iv.s, len).1
    requires lo == Width(iv.mlo, len - 1) && hi == Width(iv.mhi, len - 1) && v % 2 == dig % 2
    requires Compared(j, j1, j2, r, iv.s, lo, hi, empty) && d == Decide(dig, r == 0, j, j1, j2, iv.closed)
    ensures match d
            case Continue => true
            case NineUp => Picked(iv, v, r, len, true) <==> !CarriedAway(r, iv.s, lo, hi, iv.closed, empty)
            case Done(e) => e == dig ==> Picked(iv, v, r, len, false)
    ensures d.Done? && d.dig == dig + 1 ==> Picked(iv, v, r, len, true)
    ensures dig == 9 && CarriedAway(r, iv.s, lo, hi, iv.closed, empty) ==> d == NineUp
  {
    hide Leading, LongDivision, Compared, Decide, Fits, LowFits, HighFits, Pow, Width, CarriedAway, Spanned;
    SpannedWidths(iv, len, lo, hi);
    LeadingFits(iv, v, r, len);
    WidthMonotone(iv.mlo, iv.mhi, len - 1);
    DecideNearest(dig, j, j1, j2, r, iv.s, lo, hi, iv.closed, empty);
  }

  lemma JudgedNearest(iv: Interval, len: nat, dig: Digit, v: nat, r: nat, j: int, j1: int, j2: int, empty: bool,
                      lo: nat, hi: nat, d: Decision)
    requires iv.Valid() && len >= 1 && v == Leading(iv.n, iv.s, len) && r == LongDivision(iv.n, iv.s, len).1
    requires lo == Width(iv.mlo, len - 1) && hi == Width(iv.mhi, len - 1) && v % 2 == dig % 2
    requires Compared(j, j1, j2, r, iv.s, lo, hi, empty) && d == Decide(dig, r == 0, j, j1, j2, iv.closed)
    ensures match d
            case Continue => true
            case NineUp => Nearest(iv, v + 1, len) <==> !CarriedAway(r, iv.s, lo, hi, iv.closed, empty)
            case Done(e) => e == dig ==> Nearest(iv, v, len)
    ensures d.Done? && d.dig == dig + 1 ==> Nearest(iv, v + 1, len)
    ensures dig == 9 && CarriedAway(r, iv.s, lo, hi, iv.closed, empty) ==> d == NineUp
  {
    LeadingRemainder(iv.n, iv.s, len);
    assert Divided(iv, v, r, len);
    hide *;
    JudgedPicked(iv, len, dig, v, r, j, j1, j2, empty, lo, hi, d);
    PickedIsNearest(iv, v, r, len, true);
    PickedIsNearest(iv, v, r, len, false);
  }

  lemma SpannedWidths(iv: Interval, lev: nat, lo: nat, hi: nat)
    requires lev >= 1 && lo == Width(iv.mlo, lev - 1) && hi == Width(iv.mhi, lev - 1)
    ensures Spanned(iv, lev) <==> lo + hi == iv.s
  {
    WidthIsPow(iv.mlo, lev - 1);
    WidthIsPow(iv.mhi, lev - 1);
    hide Pow, Width;
    assert (iv.mlo + iv.mhi) * Pow(10, lev - 1) == lo + hi;
  }

  lemma {:induction false} WidthMonotone(a: nat, b: nat, i: nat)
    requires a <= b
    ensures Width(a, i) <= Width(b, i)
  {
    if i > 0 {
      WidthMonotone(a, b, i - 1);
    }
  }

  /** The remainder tells whether the digits so far, or their successor, fit. */
  lemma LeadingFits(iv: Interval, v: nat, r: nat, len: nat)
    requires iv.Valid() && len >= 1
    requires v == Leading(iv.n, iv.s, len) && r == LongDivision(iv.n, iv.s, len).1
    ensures r < iv.s && 0 < Width(iv.mlo, len - 1)
    ensures LowFits(r, Width(iv.mlo, len - 1), iv.closed) <==> Fits(iv, v, len)
    ensures HighFits(r, iv.s, Width(iv.mhi, len - 1), iv.closed) <==> Fits(iv, v + 1, len)
  {
    LeadingRemainder(iv.n, iv.s, len);
    WidthIsPow(iv.n, len - 1);
    WidthPositive(iv.mlo, len - 1);
    WidthPositive(iv.mhi, len - 1);
    TimesIsProduct(v, iv.s);
  }

  lemma {:induction false} WidthPositive(m: nat, i: nat)
    requires m > 0
    ensures Width(m, i) > 0
  {
    if i > 0 {
      WidthPositive(m, i - 1);
    }
  }

  /** The digits at the stop: all but the last are those of n/s, and the last is
      the better one to take, except at a lost tie. */
  ghost predicate Stopped(iv: Interval, ds: seq<Digit>, nine: bool, one: bool)
    requires iv.s > 0
  {
    && |ds| >= 1 && ds[0] != 0 && (nine ==> ds[|ds| - 1] == 9)
    && Trail(iv, ds[..|ds| - 1])
    && var v := if nine then DecVal(ds) + 1 else DecVal(ds);
    && Fits(iv, v, |ds|)
    && (|ds| == 1 || !nine ==> (Nearest(iv, v, |ds|) <==> !Lost(iv, one)))
  }

  /** The digits before the last: those of n/s, with no stop among them. */
  ghost predicate Trail(iv: Interval, ds: seq<Digit>)
    requires iv.s > 0
  {
    ds == LongDivision(iv.n, iv.s, |ds|).0 && forall i :: 1 <= i <= |ds| ==> Undecided(iv, i)
  }

  /** A stop without a carry is a shortest decimal; a carry out of a 9 can only
      happen at the first digit. */
  lemma StoppedIsShortest(iv: Interval, ds: seq<Digit>, nine: bool, one: bool)
    requires iv.Valid() && Stopped(iv, ds, nine, one)
    ensures !nine ==> Answered(iv, ds, 0, one)
    ensures nine ==> |ds| == 1 && Answered(iv, [1], 1, one)
  {
    hide Nearest, Lost;
    var len := |ds|;
    forall lev: nat, v: nat | 1 <= lev < len
      ensures !iv.Holds(v, lev)
    {
      NothingFits(iv, v, lev, Leading(iv.n, iv.s, lev), LongDivision(iv.n, iv.s, lev).1);
    }
    FitsIsHolds(iv, DecVal(ds) + (if nine then 1 else 0), len);
    assert Pow(10, 0) == 1 && Pow(10, 1) == 10;
    if len >= 2 {
      var v := DecVal(ds[..len - 1]);
      assert !iv.Holds(v, len - 1) && !iv.Holds(v + 1, len - 1);
      HoldsScaled(iv, v, len - 1);
      HoldsScaled(iv, v + 1, len - 1);
    } else {
      OneDigit(ds[0]);
      OneDigit(1);
      assert ds == [ds[0]];
    }
  }

  // ---------- the loop on blocks ----------

  /** The decision for the remainder r and the digit it was left by. */
  ghost predicate Decided(r: nat, s: nat, lo: nat, hi: nat, dig: Digit, closed: bool, d: Decision, empty: bool)
  {
    exists j, j1, j2 :: Compared(j, j1, j2, r, s, lo, hi, empty) && d == Decide(dig, r == 0, j, j1, j2, closed)
  }

  /** The tests of the loop body. The doubled remainder is only formed in the
      branch that needs it. */
  method Judge(b: Bigint, S: Bigint, mlo: Bigint, mhi: Bigint, dig: Digit, closed: bool)
    returns (d: Decision)
    requires b.Trimmed() && S.Normalised() && mlo.Normalised() && mhi.Normalised()
    requires b.Num() < S.Num() && 0 < mlo.Num()
    ensures Decided(b.Num(), S.Num(), mlo.Num(), mhi.Num(), dig, closed, d, b.wds == 0)
  {
    var c := Cmp(b, mlo);
    var c1 := CompareHigh(b, S, mhi);
    ghost var j2 := 2 * b.Num() - S.Num();
    assert b.wds == 0 ==> b.Num() == 0;
    assert Compared(c, c1, j2, b.Num(), S.Num(), mlo.Num(), mhi.Num(), b.wds == 0);
    if c1 == 0 && closed {
      if dig == 9 {
        return NineUp;
      }
      return Done(if c > 0 then dig + 1 else dig);
    }
    if c < 0 || (c == 0 && closed) {
      if b.IsZero() {
        return Done(dig);
      }
      if c1 > 0 {
        var c2 := CompareDouble(b, S);
        assert Compared(c, c1, c2, b.Num(), S.Num(), mlo.Num(), mhi.Num(), b.wds == 0);
        if c2 > 0 || (c2 == 0 && dig % 2 == 1) {
          return (if dig == 9 then NineUp else Done(dig + 1));
        }
      }
      return Done(dig);
    }
    if c1 > 0 {
      return (if dig == 9 then NineUp else Done(dig + 1));
    }
    return Continue;
  }

  /** The remainder against the divisor less the upper half-width; a negative
      difference counts as smaller than any remainder. */
  method CompareHigh(b: Bigint, S: Bigint, mhi: Bigint) returns (j1: int)
    requires b.Trimmed() && S.Normalised() && mhi.Normalised()
    ensures j1 > 0 <==> b.Num() + mhi.Num() > S.Num()
    ensures j1 == 0 <==> b.Num() + mhi.Num() == S.Num() && b.wds > 0
  {
    ZeroWords1(b.Digits());
    var delta := Diff(S, mhi);
    if delta.sign != 0 {
      return 1;
    }
    j1 := Cmp(b, delta);
  }

  /** The doubled remainder against the divisor. */
  method CompareDouble(b: Bigint, S: Bigint) returns (j2: int)
    requires b.Trimmed() && b.Num() > 0 && S.Normalised()
    ensures (j2 < 0 <==> 2 * b.Num() < S.Num()) && (j2 == 0 <==> 2 * b.Num() == S.Num())
  {
    ZeroWords1(b.Digits());
    assert b.Normalised();
    var b1 := Lshift(b, 1);
    assert Pow(2, 1) == 2;
    j2 := Cmp(b1, S);
  }

  /** The four numbers of the loop; mlo and mhi may share one block. */
  predicate Separate(b: Bigint, S: Bigint, mlo: Bigint, mhi: Bigint)
  {
    && Apart(b, S) && Apart(b, mlo) && Apart(b, mhi) && Apart(S, mlo) && Apart(S, mhi)
    && (mlo == mhi || Apart(mlo, mhi))
  }

  /** Ten times the remainder and both half-widths. */
  method ScaleAll(b0: Bigint, S: Bigint, mlo0: Bigint, mhi0: Bigint) returns (b: Bigint, mlo: Bigint, mhi: Bigint)
    requires b0.Normalised() && S.Valid() && mlo0.Normalised() && mhi0.Normalised() && Separate(b0, S, mlo0, mhi0)
    modifies b0, b0.x, mlo0, mlo0.x, mhi0, mhi0.x
    ensures b.Normalised() && mlo.Normalised() && mhi.Normalised() && Separate(b, S, mlo, mhi)
    ensures Owned(b0, b) && Owned(mlo0, mlo) && Owned(mhi0, mhi)
    ensures b.Num() == 10 * old(b0.Num())
    ensures mlo.Num() == 10 * old(mlo0.Num()) && mhi.Num() == 10 * old(mhi0.Num())
  {
    hide Value, Weight;
    b := Multadd(b0, 10, 0);
    mlo, mhi := ScaleWidths(mlo0, mhi0);
  }

  /** Both half-widths, which may share one block. */
  method ScaleWidths(mlo0: Bigint, mhi0: Bigint) returns (mlo: Bigint, mhi: Bigint)
    requires mlo0.Normalised() && mhi0.Normalised() && (mlo0 == mhi0 || Apart(mlo0, mhi0))
    modifies mlo0, mlo0.x, mhi0, mhi0.x
    ensures mlo.Normalised() && mhi.Normalised() && (mlo == mhi || Apart(mlo, mhi))
    ensures Owned(mlo0, mlo) && Owned(mhi0, mhi)
    ensures mlo.Num() == 10 * old(mlo0.Num()) && mhi.Num() == 10 * old(mhi0.Num())
  {
    hide Value, Weight;
    if mlo0 == mhi0 {
      mhi := Multadd(mhi0, 10, 0);
      mlo := mhi;
    } else {
      mlo := Multadd(mlo0, 10, 0);
      mhi := Multadd(mhi0, 10, 0);
    }
  }

  /** The numbers at the top of the loop, |ds| digits into the division. */
  ghost predicate Running(iv: Interval, ds: seq<Digit>, num: nat, lo: nat, hi: nat, one: bool)
    requires iv.s > 0
  {
    && num == Numerator(iv.n, iv.s, |ds|)
    && lo == Width(iv.mlo, |ds|) && hi == Width(iv.mhi, |ds|)
    && (|ds| > 0 ==> ds[0] != 0 && !Lost(iv, one))
    && Trail(iv, ds)
  }

  /** What one digit and its tests have established. */
  ghost predicate Tested(iv: Interval, ds: seq<Digit>, lo: nat, hi: nat, dig: Digit, r: nat, d: Decision, one: bool)
    requires iv.s > 0
  {
    && ds + [dig] == LongDivision(iv.n, iv.s, |ds| + 1).0 && r == LongDivision(iv.n, iv.s, |ds| + 1).1
    && Decided(r, iv.s, lo, hi, dig, iv.closed, d, one && r == 0 && dig != 0)
  }

  /** The decision in terms of the digits so far. */
  lemma TestedFits(iv: Interval, ds: seq<Digit>, num: nat, lo: nat, hi: nat, dig: Digit, r: nat, d: Decision, one: bool)
    requires iv.Valid() && Running(iv, ds, num, lo, hi, one) && Tested(iv, ds, lo, hi, dig, r, d, one)
    ensures |ds| == 0 ==> dig != 0
    ensures match d
            case Continue => Undecided(iv, |ds| + 1) && lo <= r < iv.s
            case NineUp => dig == 9 && Fits(iv, 10 * DecVal(ds) + 10, |ds| + 1)
            case Done(e) => dig <= e <= dig + 1 <= 10 && e <= 9 && Fits(iv, 10 * DecVal(ds) + e, |ds| + 1)
  {
    hide Compared, Fits, Undecided, Leading, DecVal, Width, Lost;
    var empty := one && r == 0 && dig != 0;
    var j, j1, j2 :| Compared(j, j1, j2, r, iv.s, lo, hi, empty) && d == Decide(dig, r == 0, j, j1, j2, iv.closed);
    var len := |ds| + 1;
    assert (ds + [dig])[len - 1] == dig;
    DigitRange(iv.n, iv.s, len);
    Judged(iv, len, dig, r, j, j1, j2, empty);
    LeadingIsDecVal(iv.n, iv.s, |ds|, ds);
  }

  /** The choice is the nearer one, except for a lost tie at the first digit. */
  lemma TestedNearest(iv: Interval, ds: seq<Digit>, num: nat, lo: nat, hi: nat, dig: Digit, r: nat, d: Decision,
                      one: bool)
    requires iv.Valid() && Running(iv, ds, num, lo, hi, one) && Tested(iv, ds, lo, hi, dig, r, d, one)
    requires d.Done? ==> dig <= d.dig <= dig + 1
    requires d.NineUp? ==> dig == 9
    ensures d.Continue? ==> !Lost(iv, one)
    ensures d.Done? ==> !Lost(iv, one) && Nearest(iv, 10 * DecVal(ds) + d.dig, |ds| + 1)
    ensures d.NineUp? && |ds| == 0 ==> (Nearest(iv, 10 * DecVal(ds) + 10, |ds| + 1) <==> !Lost(iv, one))
  {
    hide Compared, Decide, Nearest, DecVal, Width, Lost, Undecided, Quo, Rem, CarriedAway;
    var empty := one && r == 0 && dig != 0;
    var j, j1, j2 :| Compared(j, j1, j2, r, iv.s, lo, hi, empty) && d == Decide(dig, r == 0, j, j1, j2, iv.closed);
    var len := |ds| + 1;
    assert (ds + [dig])[len - 1] == dig;
    LeadingIsDecVal(iv.n, iv.s, |ds|, ds);
    var v := Leading(iv.n, iv.s, len);
    assert v == 10 * DecVal(ds) + dig;
    SameParity(v, DecVal(ds), dig);
    JudgedNearest(iv, len, dig, v, r, j, j1, j2, empty, lo, hi, d);
    if |ds| == 0 {
      FirstDigit(iv, dig, r, lo, hi, one);
    }
  }

  lemma SameParity(v: nat, u: nat, dig: nat)
    requires v == 10 * u + dig
    ensures v % 2 == dig % 2
  {
  }

  /** At the first digit a 9 is carried away exactly when the tie is lost. */
  lemma FirstDigit(iv: Interval, dig: Digit, r: nat, lo: nat, hi: nat, one: bool)
    requires iv.Valid() && dig == Quo(iv.n, iv.s) && r == Rem(iv.n, iv.s)
    requires lo == Width(iv.mlo, 0) && hi == Width(iv.mhi, 0)
    ensures dig == 9 && CarriedAway(r, iv.s, lo, hi, iv.closed, one && r == 0 && dig != 0) <==> Lost(iv, one)
  {
    hide Quo, Rem;
    QuoRem(iv.n, iv.s);
    Ninth(iv.n, iv.s, dig, r);
  }

  lemma Ninth(n: nat, s: nat, dig: nat, r: nat)
    requires n == dig * s + r && r < s
    ensures dig == 9 <==> 9 * s <= n < 10 * s
  {
    if dig < 9 {
      MulMonotone(dig + 1, 9, s);
      assert (dig + 1) * s == dig * s + s;
    } else if dig > 9 {
      MulMonotone(10, dig, s);
    }
  }

  /** One turn on numbers: stop with a good string, or go on. */
  lemma Turn(iv: Interval, ds: seq<Digit>, num: nat, lo: nat, hi: nat, dig: Digit, r: nat, d: Decision, one: bool)
    requires iv.Valid() && Running(iv, ds, num, lo, hi, one) && Tested(iv, ds, lo, hi, dig, r, d, one)
    ensures match d
            case Continue => Running(iv, ds + [dig], 10 * r, 10 * lo, 10 * hi, one) && lo <= r < iv.s
            case NineUp => Stopped(iv, ds + [9], true, one)
            case Done(e) => e <= 9 && Stopped(iv, ds + [e], false, one)
  {
    hide Tested, Nearest, Lost, Fits, Undecided, DecVal, Stopped;
    TestedFits(iv, ds, num, lo, hi, dig, r, d, one);
    TestedNearest(iv, ds, num, lo, hi, dig, r, d, one);
    match d {
      case Continue =>
        GoOn(iv, ds, num, lo, hi, dig, r, d, one);
      case NineUp =>
        StopWith(iv, ds, 9, true, 10 * DecVal(ds) + 10, one);
      case Done(e) =>
        StopWith(iv, ds, e, false, 10 * DecVal(ds) + e, one);
    }
  }

  lemma GoOn(iv: Interval, ds: seq<Digit>, num: nat, lo: nat, hi: nat, dig: Digit, r: nat, d: Decision, one: bool)
    requires iv.s > 0 && Running(iv, ds, num, lo, hi, one) && Undecided(iv, |ds| + 1) && (|ds| == 0 ==> dig != 0)
    requires Tested(iv, ds, lo, hi, dig, r, d, one) && !Lost(iv, one)
    ensures Running(iv, ds + [dig], 10 * r, 10 * lo, 10 * hi, one)
  {
    hide Decided, Lost, Undecided;
    assert |ds + [dig]| == |ds| + 1;
  }

  lemma StopWith(iv: Interval, ds: seq<Digit>, e: Digit, nine: bool, v: nat, one: bool)
    requires iv.s > 0 && Trail(iv, ds)
    requires if |ds| > 0 then ds[0] != 0 else e != 0
    requires nine ==> e == 9
    requires v == 10 * DecVal(ds) + e + (if nine then 1 else 0) && Fits(iv, v, |ds| + 1)
    requires |ds| == 0 || !nine ==> (Nearest(iv, v, |ds| + 1) <==> !Lost(iv, one))
    ensures Stopped(iv, ds + [e], nine, one)
  {
    hide Nearest, Lost, Fits, Trail;
    DecSnoc(ds, e);
    assert (ds + [e])[..|ds|] == ds;
    assert v == if nine then DecVal(ds + [e]) + 1 else DecVal(ds + [e]);
  }

  /** One turn of the loop on blocks. */
  method OneTurn(b: Bigint, S: Bigint, mlo: Bigint, mhi: Bigint, ds: seq<Digit>, closed: bool, ghost iv: Interval)
    returns (d: Decision, ds': seq<Digit>)
    requires b.Normalised() && S.Normalised() && mlo.Normalised() && mhi.Normalised()
    requires Separate(b, S, mlo, mhi) && Aligned(S.Digits())
    requires iv.Valid() && iv.s == S.Num() && iv.closed == closed && mlo.Num() > 0
    requires Running(iv, ds, b.Num(), mlo.Num(), mhi.Num(), S.wds == 1)
    modifies b`wds, b.x
    ensures b.Trimmed()
    ensures match d
            case Continue => Running(iv, ds', 10 * b.Num(), 10 * mlo.Num(), 10 * mhi.Num(), S.wds == 1)
                             && mlo.Num() <= b.Num() < iv.s
            case NineUp => Stopped(iv, ds', true, S.wds == 1)
            case Done(e) => Stopped(iv, ds', false, S.wds == 1)
  {
    ghost var num := b.Num();
    var dig := NextDigit(b, S, iv.n, iv.s, |ds|);
    d := Judge(b, S, mlo, mhi, dig, closed);
    assert Tested(iv, ds, mlo.Num(), mhi.Num(), dig, b.Num(), d, S.wds == 1);
    hide *;
    Turn(iv, ds, num, mlo.Num(), mhi.Num(), dig, b.Num(), d, S.wds == 1);
    var last: Digit := if d.Continue? then dig else if d.NineUp? then 9 else d.dig;
    ds' := ds + [last];
  }

  /** One turn, and the scaling before the next. */
  method Advance(b0: Bigint, S: Bigint, mlo0: Bigint, mhi0: Bigint, ds0: seq<Digit>, closed: bool, ghost iv: Interval)
    returns (d: Decision, ds: seq<Digit>, b: Bigint, mlo: Bigint, mhi: Bigint)
    requires b0.Normalised() && S.Normalised() && mlo0.Normalised() && mhi0.Normalised()
    requires Separate(b0, S, mlo0, mhi0) && Aligned(S.Digits())
    requires iv.Valid() && iv.s == S.Num() && iv.closed == closed && mlo0.Num() > 0
    requires Running(iv, ds0, b0.Num(), mlo0.Num(), mhi0.Num(), S.wds == 1)
    modifies b0, b0.x, mlo0, mlo0.x, mhi0, mhi0.x
    ensures d.NineUp? ==> Stopped(iv, ds, true, S.wds == 1)
    ensures d.Done? ==> Stopped(iv, ds, false, S.wds == 1)
    ensures d.Continue? ==>
              && Owned(b0, b) && Owned(mlo0, mlo) && Owned(mhi0, mhi) && Separate(b, S, mlo, mhi)
              && b.Normalised() && mlo.Normalised() && mhi.Normalised()
              && Running(iv, ds, b.Num(), mlo.Num(), mhi.Num(), S.wds == 1)
              && old(mlo0.Num()) < mlo.Num() && old(mlo0.Num()) < iv.s
  {
    b, mlo, mhi := b0, mlo0, mhi0;
    d, ds := OneTurn(b, S, mlo, mhi, ds0, closed, iv);
    if d.Continue? {
      ZeroWords1(b.Digits());
      b, mlo, mhi := ScaleAll(b, S, mlo, mhi);
    }
  }

  /** The loop: one digit a turn until a decision falls. It terminates because
      the lower half-width grows tenfold while the remainder stays below S. */
  method GenerateShortest(b0: Bigint, S: Bigint, mlo0: Bigint, mhi0: Bigint, closed: bool, ghost iv: Interval)
    returns (ds: seq<Digit>, nine: bool)
    requires b0.Normalised() && S.Normalised() && mlo0.Normalised() && mhi0.Normalised()
    requires Separate(b0, S, mlo0, mhi0) && Aligned(S.Digits())
    requires iv == Interval(b0.Num(), S.Num(), mlo0.Num(), mhi0.Num(), closed) && iv.Valid()
    modifies b0, b0.x, mlo0, mlo0.x, mhi0, mhi0.x
    ensures Stopped(iv, ds, nine, S.wds == 1)
  {
    hide Value, Weight, Normal, Stopped, Aligned;
    var b, mlo, mhi := b0, mlo0, mhi0;
    ds := [];
    assert Running(iv, ds, b.Num(), mlo.Num(), mhi.Num(), S.wds == 1);
    hide Running;
    while true
      invariant Owned(b0, b) && Owned(mlo0, mlo) && Owned(mhi0, mhi) && Separate(b, S, mlo, mhi)
      invariant b.Normalised() && S.Normalised() && mlo.Normalised() && mhi.Normalised()
      invariant S.Num() == iv.s && Aligned(S.Digits()) && mlo.Num() > 0
      invariant Running(iv, ds, b.Num(), mlo.Num(), mhi.Num(), S.wds == 1)
      decreases iv.s - mlo.Num()
    {
      var d;
      d, ds, b, mlo, mhi := Advance(b, S, mlo, mhi, ds, closed, iv);
      if !d.Continue? {
        nine := d.NineUp?;
        return;
      }
    }
  }

  /** Modes 0 and 1: the shortest decimal in the rounding interval of
      b/S * 10^k, where the half-width below is m/S and the half-width above
      is m/S, or 2*m/S when the number is a power of two. Among the decimals of
      that length in the interval it is a nearest one, but for a lost tie. */
  method ShortestDigits(b: Bigint, S: Bigint, m: Bigint, powerOfTwo: bool, closed: bool, k: int)
    returns (ds: seq<Digit>, k': int)
    requires b.Normalised() && S.Normalised() && m.Normalised() && Separate(b, S, m, m) && Aligned(S.Digits())
    requires 0 < S.Num() <= b.Num() < 10 * S.Num() && m.Num() > 0
    modifies b, b.x, m, m.x
    ensures k <= k' <= k + 1
    ensures var h := old(m.Num());
            var iv := Interval(old(b.Num()), old(S.Num()), h, if powerOfTwo then 2 * h else h, closed);
            Answered(iv, ds, k' - k, S.wds == 1)
  {
    ghost var h := m.Num();
    var mhi := HighWidth(m, powerOfTwo);
    ghost var iv := Interval(b.Num(), S.Num(), h, mhi.Num(), closed);
    var nine, carry;
    ds, nine := GenerateShortest(b, S, m, mhi, closed, iv);
    ds, carry := CarryNine(ds, nine, iv, S.wds == 1);
    k' := k + carry;
  }

  /** The half-width above is doubled, in a block of its own, for a power of
      two; otherwise both half-widths share one block. */
  method HighWidth(m: Bigint, powerOfTwo: bool) returns (mhi: Bigint)
    requires m.Normalised() && m.Num() > 0
    ensures mhi.Normalised() && mhi.Num() == (if powerOfTwo then 2 * m.Num() else m.Num())
    ensures if powerOfTwo then fresh(mhi) && fresh(mhi.x) else mhi == m
  {
    mhi := m;
    if powerOfTwo {
      mhi := Lshift(m, 1);
      assert Pow(2, 1) == 2;
    }
  }

  /** The exit through `roundoff` after a 9. */
  method CarryNine(ds0: seq<Digit>, nine: bool, ghost iv: Interval, ghost one: bool)
    returns (ds: seq<Digit>, carry: nat)
    requires iv.Valid() && Stopped(iv, ds0, nine, one)
    ensures Answered(iv, ds, carry, one)
  {
    StoppedIsShortest(iv, ds0, nine, one);
    ds, carry := ds0, 0;
    if nine {
      ds, carry := RoundUp(ds0);
      OneDigit(9);
      assert ds0 == [9];
      assert Pow(10, 0) == 1 && Pow(10, 1) == 10;
      NineCarries(ds, carry);
    }
  }

  lemma NineCarries(ds: seq<Digit>, carry: nat)
    requires |ds| == 1 && carry <= 1 && DecVal(ds) * Pow(10, carry) == 10
    ensures ds == [1] && carry == 1
  {
    assert Pow(10, 0) == 1 && Pow(10, 1) == 10;
    assert ds[..0] == [] && DecVal(ds) == ds[0];
  }
}
