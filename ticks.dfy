/**
 * "Nice" axis ticks: `increment` picks a step of 1, 2, 5 or 10 times a power
 * of ten, and `getTicks` emits every multiple of it between the two ends.
 * Numbers are exact reals.  A non-finite step of the source (an infinity or
 * NaN, which `getTicks` turns into no ticks at all) is `None` here.
 */
module Ticks {
  import opened Wrappers

  /* ---------------------------------------------------------------------- */
  /* Powers of ten, floor and ceiling                                        */
  /* ---------------------------------------------------------------------- */

  /** 10^n for a natural n. */
  function Pow10(n: nat): (r: nat)
    ensures r >= 1
  {
    if n == 0 then 1 else 10 * Pow10(n - 1)
  }

  /** 10^p for any integer p. */
  function Exp10(p: int): (r: real)
    ensures r > 0.0
  {
    if p >= 0 then Pow10(p) as real else 1.0 / Pow10(-p) as real
  }

  function Floor(x: real): int {
    x.Floor
  }

  /** The least integer not below x. */
  function Ceil(x: real): (c: int)
    ensures c as real - 1.0 < x <= c as real
  {
    -((-x).Floor)
  }

  lemma Exp10Succ(p: int)
    ensures Exp10(p + 1) == 10.0 * Exp10(p)
  {
    if p < -1 {
      assert Pow10(-p) == 10 * Pow10(-p - 1);
    } else if p == -1 {
      assert Pow10(1) == 10;
    }
  }

  lemma {:induction false} Exp10Monotone(p: int, q: int)
    requires p <= q
    ensures Exp10(p) <= Exp10(q)
    decreases q - p
  {
    if p < q {
      Exp10Monotone(p, q - 1);
      Exp10Succ(q - 1);
    }
  }

  lemma Exp10Reciprocal(p: int)
    ensures Exp10(p) * Exp10(-p) == 1.0
  {
  }

  /** The k with 10^k <= n < 10^(k+1). */
  function Log10Floor(n: nat): (k: nat)
    requires n >= 1
    ensures Pow10(k) <= n < Pow10(k + 1)
  {
    if n < 10 then 0 else 1 + Log10Floor(n / 10)
  }

  /** The k >= 1 with 10^(k-1) < c <= 10^k. */
  function Log10Ceil(c: nat): (k: nat)
    requires c >= 2
    ensures k >= 1 && Pow10(k - 1) < c <= Pow10(k)
  {
    if c <= 10 then 1 else 1 + Log10Ceil((c + 9) / 10)
  }

  /**
   * `floor(log10(raw))` for a positive raw step, given by its defining
   * property rather than by a logarithm.
   */
  function Power(raw: real): (p: int)
    requires raw > 0.0
    ensures Exp10(p) <= raw < Exp10(p + 1)
    ensures p >= 0 <==> raw >= 1.0
  {
    if raw >= 1.0 then
      PowerAtLeastOne(raw);
      Log10Floor(raw.Floor)
    else
      PowerBelowOne(raw);
      -(Log10Ceil(Ceil(1.0 / raw)) as int)
  }

  lemma PowerAtLeastOne(raw: real)
    requires raw >= 1.0
    ensures var k := Log10Floor(raw.Floor); Exp10(k) <= raw < Exp10(k + 1)
  {
    var k := Log10Floor(raw.Floor);
    Exp10Succ(k);
  }

  lemma PowerBelowOne(raw: real)
    requires 0.0 < raw < 1.0
    ensures Ceil(1.0 / raw) >= 2
    ensures var k: int := Log10Ceil(Ceil(1.0 / raw)); Exp10(-k) <= raw < Exp10(-k + 1)
  {
    var inv := 1.0 / raw;
    Reciprocal(raw, 1.0);
    assert 1.0 < inv;
    var c := Ceil(inv);
    var k: int := Log10Ceil(c);
    var big := Pow10(k) as real;
    assert inv <= c as real <= big;
    Reciprocal(raw, big);
    assert Exp10(-k) == 1.0 / big;
    if k > 1 {
      var small := Pow10(k - 1) as real;
      assert small <= c as real - 1.0 < inv;
      Reciprocal(raw, small);
      assert Exp10(-k + 1) == 1.0 / small;
    }
  }

  /** For positive x and a, comparing a with 1/x is comparing x with 1/a. */
  lemma Reciprocal(x: real, a: real)
    requires x > 0.0 && a > 0.0
    ensures a < 1.0 / x <==> x < 1.0 / a
    ensures a <= 1.0 / x <==> x <= 1.0 / a
  {
    ProductOrder(a, 1.0 / x, x);
    ProductOrder(x, 1.0 / a, a);
    assert (1.0 / x) * x == 1.0;
    assert (1.0 / a) * a == 1.0;
  }

  /** Multiplying by a positive number keeps the order. */
  lemma ProductOrder(a: real, b: real, c: real)
    requires c > 0.0
    ensures a < b <==> a * c < b * c
    ensures a <= b <==> a * c <= b * c
  {
    assert (b - a) * c == b * c - a * c;
  }

  /** There is only one power of ten below raw whose successor is above it. */
  lemma PowerUnique(raw: real, p: int)
    requires raw > 0.0
    requires Exp10(p) <= raw < Exp10(p + 1)
    ensures p == Power(raw)
  {
    var q := Power(raw);
    if p < q {
      Exp10Monotone(p + 1, q);
    } else if q < p {
      Exp10Monotone(q + 1, p);
    }
  }

  /* ---------------------------------------------------------------------- */
  /* increment                                                               */
  /* ---------------------------------------------------------------------- */

  /**
   * The multiplier for a mantissa `error` in [1, 10): thresholds sqrt(50),
   * sqrt(10) and sqrt(2), compared through squares.
   */
  function Multiplier(error: real): (m: int)
    ensures m == 1 || m == 2 || m == 5 || m == 10
  {
    if error * error >= 50.0 then 10
    else if error * error >= 10.0 then 5
    else if error * error >= 2.0 then 2
    else 1
  }

  /** The spacing m * 10^power. */
  function Denoted(m: real, power: int): real {
    m * Exp10(power)
  }

  /** `(stop - start) / max(0, count)`, finite only for a positive count. */
  function RawStep(start: real, stop: real, count: real): (raw: real)
    requires count > 0.0
    ensures raw * count == stop - start
    ensures raw > 0.0 <==> start < stop
  {
    (stop - start) / count
  }

  /**
   * The step for a positive raw step: `m * 10^power` when power >= 0, else
   * `-10^(-power) / m`, the negative reciprocal encoding of a sub-unit step.
   */
  function Step(raw: real): (step: real)
    requires raw > 0.0
    ensures step != 0.0
    ensures step > 0.0 <==> raw >= 1.0
  {
    var power := Power(raw);
    Encoded(power, Multiplier(raw / Exp10(power)) as real)
  }

  /** `m * 10^power` when power >= 0, else `-10^(-power) / m`. */
  function Encoded(power: int, m: real): (step: real)
    requires m > 0.0
    ensures step != 0.0
    ensures step > 0.0 <==> power >= 0
  {
    if power >= 0 then m * Exp10(power) else -Exp10(-power) / m
  }

  /**
   * `increment(start, stop, count)`.  The source's value is non-finite
   * exactly when the raw step is not a positive finite number: a count <= 0
   * (an infinite or NaN raw step), or stop <= start (a zero raw step has
   * logarithm -Infinity, a negative one NaN).
   */
  function Increment(start: real, stop: real, count: real): (step: Option<real>)
    ensures step.Some? <==> start < stop && count > 0.0
    ensures step.Some? ==> step.value != 0.0
  {
    if start < stop && count > 0.0 then Some(Step(RawStep(start, stop, count))) else None
  }

  /** The distance between consecutive ticks that a step encodes. */
  function Spacing(step: real): real
    requires step != 0.0
  {
    if step > 0.0 then step else -1.0 / step
  }

  /**
   * Both encodings denote the spacing m * 10^power, with m in {1, 2, 5, 10}
   * and 10^power the largest power of ten not above the raw step; the
   * thresholds keep the spacing within (0.6, 1.6] times the raw step.
   */
  lemma NiceSpacing(raw: real)
    requires raw > 0.0
    ensures Spacing(Step(raw)) == Denoted(Multiplier(raw / Exp10(Power(raw))) as real, Power(raw))
    ensures 3.0 * raw < 5.0 * Spacing(Step(raw)) <= 8.0 * raw
  {
    var power := Power(raw);
    var m := Multiplier(raw / Exp10(power)) as real;
    assert Step(raw) == Encoded(power, m);
    SpacingOfStep(power, m);
    MultiplierBracket(raw, power, m);
  }

  /** The multiplier times 10^power lies in (0.6, 1.6] times the raw step. */
  lemma MultiplierBracket(raw: real, power: int, m: real)
    requires Exp10(power) <= raw < Exp10(power + 1)
    requires m == Multiplier(raw / Exp10(power)) as real
    ensures 3.0 * raw < 5.0 * Denoted(m, power) <= 8.0 * raw
  {
    var e := Exp10(power);
    var error := raw / e;
    Exp10Succ(power);
    Mantissa(raw, e, error);
    Bracket(error, m);
    Conclude(raw, error, m, e);
  }

  /** Scaling mantissa and multiplier by the same power keeps the bracket. */
  lemma Conclude(raw: real, error: real, m: real, e: real)
    requires e > 0.0 && raw == error * e
    requires 3.0 * error < 5.0 * m <= 8.0 * error
    ensures 3.0 * raw < 5.0 * (m * e) <= 8.0 * raw
  {
    ProductOrder(3.0 * error, 5.0 * m, e);
    ProductOrder(5.0 * m, 8.0 * error, e);
  }

  /** raw / 10^power lies in [1, 10), and raw is that mantissa times 10^power. */
  lemma Mantissa(raw: real, e: real, error: real)
    requires e > 0.0 && e <= raw < 10.0 * e && error == raw / e
    ensures 1.0 <= error < 10.0 && raw == error * e
  {
    assert raw == error * e;
    ProductOrder(1.0, error, e);
    ProductOrder(error, 10.0, e);
  }

  /** Whichever encoding the step uses, it denotes the spacing m * 10^power. */
  lemma SpacingOfStep(power: int, m: real)
    requires m > 0.0
    ensures Spacing(Encoded(power, m)) == Denoted(m, power)
  {
    if power < 0 {
      var e := Exp10(power);
      var f := Exp10(-power);
      Exp10Reciprocal(power);
      assert e * f == 1.0;
      assert Spacing(-f / m) == -1.0 / (-f / m) == m / f;
      assert m / f == m * e;
    }
  }

  /** The multiplier lies in (0.6, 1.6] times the mantissa. */
  lemma Bracket(error: real, m: real)
    requires 1.0 <= error < 10.0 && m == Multiplier(error) as real
    ensures 3.0 * error < 5.0 * m <= 8.0 * error
  {
    if m == 10.0 {
      if error < 6.25 { SquareOrderAt(error, 6.25); }
    } else if m == 5.0 {
      if error >= 25.0 / 3.0 { SquareOrderAt(25.0 / 3.0, error); }
      if error < 3.125 { SquareOrderAt(error, 3.125); }
    } else if m == 2.0 {
      if error >= 10.0 / 3.0 { SquareOrderAt(10.0 / 3.0, error); }
      if error < 1.25 { SquareOrderAt(error, 1.25); }
    } else {
      if error >= 5.0 / 3.0 { SquareOrderAt(5.0 / 3.0, error); }
    }
  }

  /** Squaring keeps the order of non-negative numbers. */
  lemma SquareOrderAt(a: real, b: real)
    requires 0.0 <= a <= b
    ensures a * a <= b * b
  {
    assert a * a <= a * b <= b * b;
  }

  /* ---------------------------------------------------------------------- */
  /* getTicks                                                                */
  /* ---------------------------------------------------------------------- */

  /** The number of integers in [first, last]. */
  function Count(first: int, last: int): nat {
    if last - first + 1 > 0 then last - first + 1 else 0
  }

  /** The k-th multiple of a spacing. */
  function Multiple(k: int, s: real): real {
    k as real * s
  }

  /** k divided by a step, as the source computes a tick for a negative step. */
  function Quotient(k: int, step: real): real
    requires step != 0.0
  {
    k as real / step
  }

  /** k divided by a positive reciprocal spacing. */
  function Fraction(k: int, d: real): real
    requires d > 0.0
  {
    k as real / d
  }

  /** Every multiple k * s of a positive spacing s in [lo, hi], ascending. */
  function Multiples(lo: real, hi: real, s: real): (r: seq<real>)
    requires s > 0.0
  {
    var first := Ceil(lo / s);
    seq(Count(first, Floor(hi / s)), i => Multiple(first + i, s))
  }

  /** Every fraction k / d of a positive reciprocal spacing d in [lo, hi], ascending. */
  function Fractions(lo: real, hi: real, d: real): (r: seq<real>)
    requires d > 0.0
  {
    var first := Ceil(lo * d);
    seq(Count(first, Floor(hi * d)), i => Fraction(first + i, d))
  }

  /**
   * The ascending ticks of the source for lo <= hi and a non-zero step: for a
   * positive step the multiples `(ceil(lo/step) + i) * step`, for a negative
   * step the fractions `(ceil(lo*|step|) + i) / |step|`.
   */
  function Ascending(lo: real, hi: real, step: real): (r: seq<real>)
    requires step != 0.0
  {
    if step > 0.0 then Multiples(lo, hi, step) else Fractions(lo, hi, -step)
  }

  /** The reverse of a sequence, as `Array.prototype.reverse` leaves it. */
  function Reversed(s: seq<real>): (r: seq<real>)
    ensures |r| == |s|
    ensures forall i :: 0 <= i < |s| ==> r[i] == s[|s| - 1 - i]
  {
    if s == [] then [] else Reversed(s[1..]) + [s[0]]
  }

  /** The ticks over lo <= hi, ascending; none when the step is not finite. */
  function AscendingTicks(lo: real, hi: real, count: real): seq<real> {
    match Increment(lo, hi, count)
    case None => []
    case Some(step) => Ascending(lo, hi, step)
  }

  /**
   * What `getTicks(start, stop, count)` returns; `count` defaults to 5.
   * Without a positive count there are no ticks (the step is not finite),
   * and equal ends with a positive count give that one number.
   */
  function Ticks(start: real, stop: real, count: real := 5.0): (r: seq<real>)
    ensures count <= 0.0 ==> r == []
    ensures start == stop && count > 0.0 ==> r == [start]
  {
    if start == stop && count > 0.0 then [start]
    else if stop < start then Reversed(AscendingTicks(stop, start, count))
    else AscendingTicks(start, stop, count)
  }

  /**
   * `getTicks`: fills `ticks` with a loop, one `push` per tick, from the
   * first and last multiple found by the source's floor and ceiling, and
   * reverses them when the interval was given downwards.
   */
  method GetTicks(start: real, stop: real, count: real := 5.0) returns (ticks: seq<real>)
    ensures ticks == Ticks(start, stop, count)
  {
    if start == stop && count > 0.0 {
      return [start];
    }
    var reverse := stop < start;
    var lo, hi := start, stop;
    if reverse {
      lo, hi := stop, start;
    }
    var step := Increment(lo, hi, count);
    ticks := [];
    if step.None? || step.value == 0.0 {
      assert AscendingTicks(lo, hi, count) == [];
      return;
    }
    var s := step.value;
    if s > 0.0 {
      ticks := PushMultiples(lo, hi, s);
    } else {
      ticks := PushFractions(lo, hi, s);
    }
    assert ticks == AscendingTicks(lo, hi, count);
    if reverse {
      ticks := Reversed(ticks);
    }
  }

  /** The loop of `getTicks` for a positive step: one `push` per multiple. */
  method PushMultiples(lo: real, hi: real, s: real) returns (ticks: seq<real>)
    requires s > 0.0
    ensures ticks == Ascending(lo, hi, s)
  {
    ghost var asc := Ascending(lo, hi, s);
    var first := Ceil(lo / s);
    var last := Floor(hi / s);
    var n := Ceil((last - first + 1) as real);
    CeilOfInteger(last - first + 1);
    assert |asc| == Count(first, last);
    ticks := [];
    var i := 0;
    while i < n
      invariant 0 <= i <= |asc|
      invariant ticks == asc[..i]
    {
      assert asc[i] == Multiple(first + i, s);
      assert asc[..i + 1] == asc[..i] + [asc[i]];
      ticks := ticks + [Multiple(first + i, s)];
      i := i + 1;
    }
    assert asc[..|asc|] == asc;
  }

  /** The loop of `getTicks` for a negative step: one `push` per fraction. */
  method PushFractions(lo: real, hi: real, s: real) returns (ticks: seq<real>)
    requires s < 0.0
    ensures ticks == Ascending(lo, hi, s)
  {
    ghost var asc := Ascending(lo, hi, s);
    var first := Floor(lo * s);
    var last := Ceil(hi * s);
    var n := Ceil((first - last + 1) as real);
    CeilOfInteger(first - last + 1);
    NegativeLoop(lo, hi, s);
    ticks := [];
    var i := 0;
    while i < n
      invariant 0 <= i <= |asc|
      invariant ticks == asc[..i]
    {
      assert asc[..i + 1] == asc[..i] + [asc[i]];
      ticks := ticks + [Quotient(first - i, s)];
      i := i + 1;
    }
    assert asc[..|asc|] == asc;
  }

  lemma CeilOfInteger(k: int)
    ensures Ceil(k as real) == k
  {
  }

  /** With a negative step the source's floor and ceiling are the negated ceiling and floor. */
  lemma NegativeBounds(lo: real, hi: real, s: real, d: real)
    requires s < 0.0 && d == -s
    ensures Floor(lo * s) == -Ceil(lo * d)
    ensures Ceil(hi * s) == -Floor(hi * d)
  {
    assert -(lo * d) == lo * s;
    assert -(hi * s) == hi * d;
  }

  /**
   * The source's loop for a negative step, from `floor(lo * step)` down by
   * one to `ceil(hi * step)`, divides exactly the ascending fractions.
   */
  lemma NegativeLoop(lo: real, hi: real, s: real)
    requires s < 0.0
    ensures var first := Floor(lo * s);
            var last := Ceil(hi * s);
            && |Ascending(lo, hi, s)| == (if first - last + 1 > 0 then first - last + 1 else 0)
            && forall i :: 0 <= i < |Ascending(lo, hi, s)| ==>
                 Ascending(lo, hi, s)[i] == Quotient(first - i, s)
  {
    var d := -s;
    NegativeBounds(lo, hi, s, d);
    var first := Floor(lo * s);
    assert Ascending(lo, hi, s) == Fractions(lo, hi, d);
    forall i | 0 <= i < |Ascending(lo, hi, s)|
      ensures Ascending(lo, hi, s)[i] == Quotient(first - i, s)
    {
      NegativeTick(-first, i, s, d);
    }
  }

  /** `(start - i) / step` with a negative step is `(c + i) / |step|`. */
  lemma NegativeTick(c: int, i: int, s: real, d: real)
    requires s < 0.0 && d == -s
    ensures Quotient(-c - i, s) == Fraction(c + i, d)
  {
  }

  /* ---------------------------------------------------------------------- */
  /* What the ticks are                                                      */
  /* ---------------------------------------------------------------------- */

  /** Between the first and the last index, a multiple of s lies in [lo, hi]. */
  lemma MultipleWithin(lo: real, hi: real, s: real, k: int)
    requires s > 0.0
    ensures lo <= Multiple(k, s) <= hi <==> Ceil(lo / s) <= k <= Floor(hi / s)
  {
    DivideOrder(lo, k, s);
    DivideOrder(hi, k, s);
    FloorCeil(lo / s, hi / s, k);
  }

  /** For a positive s, a multiple k * s is at least a exactly when k >= a / s, and likewise for at most. */
  lemma DivideOrder(a: real, k: int, s: real)
    requires s > 0.0
    ensures a <= Multiple(k, s) <==> a / s <= k as real
    ensures Multiple(k, s) <= a <==> k as real <= a / s
  {
    var b := k as real;
    ProductOrder(a / s, b, s);
    ProductOrder(b, a / s, s);
    assert (a / s) * s == a;
  }

  /** An integer is at least x when it is at least Ceil(x), and at most y when at most Floor(y). */
  lemma FloorCeil(x: real, y: real, k: int)
    ensures x <= k as real <==> Ceil(x) <= k
    ensures k as real <= y <==> k <= Floor(y)
  {
  }

  /** Between the first and the last index, a fraction k / d lies in [lo, hi]. */
  lemma FractionWithin(lo: real, hi: real, d: real, k: int)
    requires d > 0.0
    ensures lo <= Fraction(k, d) <= hi <==> Ceil(lo * d) <= k <= Floor(hi * d)
  {
    var x := k as real;
    var f := Fraction(k, d);
    assert f * d == x;
    ProductOrder(lo, f, d);
    ProductOrder(f, hi, d);
    FloorCeil(lo * d, hi * d, k);
  }

  /** A fraction k / d is the k-th multiple of the spacing 1 / d. */
  lemma FractionIsMultiple(k: int, d: real)
    requires d > 0.0
    ensures Fraction(k, d) == Multiple(k, 1.0 / d)
  {
  }

  /** Every element of t lies in [lo, hi] and is a whole multiple of s. */
  ghost predicate OnGrid(t: seq<real>, lo: real, hi: real, s: real)
  {
    forall i :: 0 <= i < |t| ==> lo <= t[i] <= hi && exists k :: t[i] == Multiple(k, s)
  }

  /** Every whole multiple of s in [lo, hi] occurs in t. */
  ghost predicate Complete(t: seq<real>, lo: real, hi: real, s: real)
  {
    forall k :: lo <= Multiple(k, s) <= hi ==> Multiple(k, s) in t
  }

  /** Consecutive elements of t differ by exactly s. */
  predicate EvenlySpaced(t: seq<real>, s: real)
  {
    forall i :: 0 < i < |t| ==> t[i] - t[i - 1] == s
  }

  /** The multiples of s in [lo, hi]: within bounds, on the grid, complete, evenly spaced. */
  lemma MultiplesExact(lo: real, hi: real, s: real)
    requires s > 0.0
    ensures OnGrid(Multiples(lo, hi, s), lo, hi, s)
    ensures Complete(Multiples(lo, hi, s), lo, hi, s)
    ensures EvenlySpaced(Multiples(lo, hi, s), s)
  {
    MultiplesOnGrid(lo, hi, s);
    MultiplesComplete(lo, hi, s);
    MultiplesSpaced(lo, hi, s);
  }

  lemma MultiplesOnGrid(lo: real, hi: real, s: real)
    requires s > 0.0
    ensures OnGrid(Multiples(lo, hi, s), lo, hi, s)
  {
    var t := Multiples(lo, hi, s);
    var first := Ceil(lo / s);
    forall i | 0 <= i < |t|
      ensures lo <= t[i] <= hi && exists k :: t[i] == Multiple(k, s)
    {
      assert t[i] == Multiple(first + i, s);
      MultipleWithin(lo, hi, s, first + i);
    }
  }

  lemma MultiplesComplete(lo: real, hi: real, s: real)
    requires s > 0.0
    ensures Complete(Multiples(lo, hi, s), lo, hi, s)
  {
    var t := Multiples(lo, hi, s);
    var first := Ceil(lo / s);
    forall k | lo <= Multiple(k, s) <= hi
      ensures Multiple(k, s) in t
    {
      MultipleWithin(lo, hi, s, k);
      assert t[k - first] == Multiple(k, s);
    }
  }

  lemma MultiplesSpaced(lo: real, hi: real, s: real)
    requires s > 0.0
    ensures EvenlySpaced(Multiples(lo, hi, s), s)
  {
    var t := Multiples(lo, hi, s);
    var first := Ceil(lo / s);
    forall i | 0 < i < |t|
      ensures t[i] - t[i - 1] == s
    {
      assert t[i] == Multiple(first + i, s) && t[i - 1] == Multiple(first + i - 1, s);
    }
  }

  /** The fractions k / d in [lo, hi] are the multiples of 1 / d there, evenly spaced. */
  lemma FractionsExact(lo: real, hi: real, d: real)
    requires d > 0.0
    ensures OnGrid(Fractions(lo, hi, d), lo, hi, 1.0 / d)
    ensures Complete(Fractions(lo, hi, d), lo, hi, 1.0 / d)
    ensures EvenlySpaced(Fractions(lo, hi, d), 1.0 / d)
  {
    FractionsOnGrid(lo, hi, d, 1.0 / d);
    FractionsComplete(lo, hi, d, 1.0 / d);
    FractionsSpaced(lo, hi, d, 1.0 / d);
  }

  lemma FractionsOnGrid(lo: real, hi: real, d: real, s: real)
    requires d > 0.0 && s == 1.0 / d
    ensures OnGrid(Fractions(lo, hi, d), lo, hi, s)
  {
    var t := Fractions(lo, hi, d);
    var first := Ceil(lo * d);
    forall i | 0 <= i < |t|
      ensures lo <= t[i] <= hi && exists k :: t[i] == Multiple(k, s)
    {
      assert t[i] == Fraction(first + i, d);
      FractionWithin(lo, hi, d, first + i);
      FractionIsMultiple(first + i, d);
      assert t[i] == Multiple(first + i, s);
    }
  }

  lemma FractionsComplete(lo: real, hi: real, d: real, s: real)
    requires d > 0.0 && s == 1.0 / d
    ensures Complete(Fractions(lo, hi, d), lo, hi, s)
  {
    var t := Fractions(lo, hi, d);
    var first := Ceil(lo * d);
    forall k | lo <= Multiple(k, s) <= hi
      ensures Multiple(k, s) in t
    {
      FractionIsMultiple(k, d);
      FractionWithin(lo, hi, d, k);
      assert t[k - first] == Fraction(k, d);
    }
  }

  lemma FractionsSpaced(lo: real, hi: real, d: real, s: real)
    requires d > 0.0 && s == 1.0 / d
    ensures EvenlySpaced(Fractions(lo, hi, d), s)
  {
    var t := Fractions(lo, hi, d);
    var first := Ceil(lo * d);
    forall i | 0 < i < |t|
      ensures t[i] - t[i - 1] == s
    {
      assert t[i] == Fraction(first + i, d) && t[i - 1] == Fraction(first + i - 1, d);
      FractionIsMultiple(first + i, d);
      FractionIsMultiple(first + i - 1, d);
    }
  }

  /**
   * The ascending ticks are exactly the multiples of the spacing that lie in
   * [lo, hi], and consecutive ones are one spacing apart.
   */
  lemma AscendingExact(lo: real, hi: real, step: real)
    requires step != 0.0
    ensures OnGrid(Ascending(lo, hi, step), lo, hi, Spacing(step))
    ensures Complete(Ascending(lo, hi, step), lo, hi, Spacing(step))
    ensures EvenlySpaced(Ascending(lo, hi, step), Spacing(step))
  {
    if step > 0.0 {
      MultiplesExact(lo, hi, step);
    } else {
      assert Spacing(step) == 1.0 / -step;
      FractionsExact(lo, hi, -step);
    }
  }

  /** The spacing of the ticks over lo < hi for a positive count. */
  function TickSpacing(lo: real, hi: real, count: real): (s: real)
    requires lo < hi && count > 0.0
    ensures s > 0.0
  {
    Spacing(Increment(lo, hi, count).value)
  }

  /** Reversal keeps the members of a sequence. */
  lemma ReversedMembers(t: seq<real>)
    ensures forall x :: x in Reversed(t) <==> x in t
  {
    forall x | x in t
      ensures x in Reversed(t)
    {
      var i :| 0 <= i < |t| && t[i] == x;
      assert Reversed(t)[|t| - 1 - i] == x;
    }
  }

  /** Reversal keeps every element on the grid. */
  lemma ReversedOnGrid(t: seq<real>, lo: real, hi: real, s: real)
    requires OnGrid(t, lo, hi, s)
    ensures OnGrid(Reversed(t), lo, hi, s)
  {
    var r := Reversed(t);
    forall i | 0 <= i < |r|
      ensures lo <= r[i] <= hi && exists k :: r[i] == Multiple(k, s)
    {
      assert r[i] == t[|t| - 1 - i];
    }
  }

  /** Reversal keeps every grid point present. */
  lemma ReversedComplete(t: seq<real>, lo: real, hi: real, s: real)
    requires Complete(t, lo, hi, s)
    ensures Complete(Reversed(t), lo, hi, s)
  {
    ReversedMembers(t);
  }

  /** Reversal turns a spacing s into -s. */
  lemma ReversedSpacing(t: seq<real>, s: real)
    requires EvenlySpaced(t, s)
    ensures EvenlySpaced(Reversed(t), -s)
  {
    var r := Reversed(t);
    forall i | 0 < i < |r|
      ensures r[i] - r[i - 1] == -s
    {
      assert r[i] == t[|t| - 1 - i] && r[i - 1] == t[|t| - i];
    }
  }

  /** A downward interval yields the ticks of the upward one, reversed. */
  lemma TicksDownward(start: real, stop: real, count: real)
    requires stop < start
    ensures Ticks(start, stop, count) == Reversed(Ticks(stop, start, count))
  {
  }

  /**
   * For start < stop and a positive count the ticks are exactly the
   * multiples of the spacing within [start, stop], ascending one spacing
   * apart.
   */
  lemma TicksUpExact(start: real, stop: real, count: real)
    requires start < stop && count > 0.0
    ensures OnGrid(Ticks(start, stop, count), start, stop, TickSpacing(start, stop, count))
    ensures Complete(Ticks(start, stop, count), start, stop, TickSpacing(start, stop, count))
    ensures EvenlySpaced(Ticks(start, stop, count), TickSpacing(start, stop, count))
  {
    AscendingExact(start, stop, Increment(start, stop, count).value);
  }

  /**
   * For stop < start the same multiples within [stop, start], descending one
   * spacing apart.
   */
  lemma TicksDownExact(start: real, stop: real, count: real)
    requires stop < start && count > 0.0
    ensures OnGrid(Ticks(start, stop, count), stop, start, TickSpacing(stop, start, count))
    ensures Complete(Ticks(start, stop, count), stop, start, TickSpacing(stop, start, count))
    ensures EvenlySpaced(Ticks(start, stop, count), -TickSpacing(stop, start, count))
  {
    var t := Ticks(stop, start, count);
    var s := TickSpacing(stop, start, count);
    TicksUpExact(stop, start, count);
    assert Reversed(t) == Ticks(start, stop, count);
    ReversedOnGrid(t, stop, start, s);
    ReversedComplete(t, stop, start, s);
    ReversedSpacing(t, s);
  }

  /** The three increments the source's tests expect. */
  lemma IncrementExamples()
    ensures Increment(1.0, 10.0, 5.0) == Some(2.0)
    ensures Increment(1.0, 10.0, 2.0) == Some(5.0)
    ensures Increment(1.0, 100.0, 5.0) == Some(20.0)
  {
    assert Exp10(1) == 10.0 && Exp10(2) == 100.0;
    PowerUnique(1.8, 0);
    PowerUnique(4.5, 0);
    PowerUnique(19.8, 1);
  }

  /** `getTicks(0, 1000)` with the default count of 5. */
  lemma TicksExample()
    ensures Ticks(0.0, 1000.0) == [0.0, 200.0, 400.0, 600.0, 800.0, 1000.0]
  {
    assert Exp10(2) == 100.0 && Exp10(3) == 1000.0;
    PowerUnique(200.0, 2);
    assert Increment(0.0, 1000.0, 5.0) == Some(200.0);
    assert 0.0 / 200.0 == 0.0 && 1000.0 / 200.0 == 5.0;
    assert Ceil(0.0) == 0 && Floor(5.0) == 5;
    var t := Multiples(0.0, 1000.0, 200.0);
    assert |t| == 6;
    forall i | 0 <= i < 6
      ensures t[i] == i as real * 200.0
    {
      assert t[i] == Multiple(i, 200.0);
    }
  }
}
