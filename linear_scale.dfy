/**
 * The affine map between two numeric intervals built by `linearScale`, and its
 * inverse.  Numbers are exact reals; a non-finite result of the source
 * (the division by a zero-length domain yields an infinity or NaN) is `None`.
 */
module LinearScale {
  import opened Wrappers

  /** A closed numeric interval given by its two ends, in the caller's order. */
  datatype Interval = Interval(lo: real, hi: real) {
    function Length(): real { hi - lo }
  }

  /** A scale from `domain` to `range`; `domain.lo` is sent to `range.lo`. */
  datatype Scale = Scale(domain: Interval, range: Interval)

  /** A scale whose domain has no length maps every number to a non-finite value. */
  predicate Degenerate(s: Scale) {
    s.domain.Length() == 0.0
  }

  /** The slope `m`, computed once when the scale is built. */
  function Slope(s: Scale): real
    requires !Degenerate(s)
  {
    s.range.Length() / s.domain.Length()
  }

  /**
   * `scale(num)`: the value on the line through (domain.lo, range.lo) and
   * (domain.hi, range.hi); none when the domain has no length.
   */
  function Apply(s: Scale, num: real): (r: Option<real>)
    ensures r.Some? <==> !Degenerate(s)
    ensures r.Some? ==>
      (r.value - s.range.lo) * s.domain.Length() == (num - s.domain.lo) * s.range.Length()
  {
    if Degenerate(s) then None
    else Some(s.range.lo + (num - s.domain.lo) * Slope(s))
  }

  /** `scale.inverse()`: the scale built with the two intervals swapped. */
  function Inverse(s: Scale): (t: Scale)
    ensures t.domain == s.range && t.range == s.domain
  {
    Scale(s.range, s.domain)
  }

  /** The two ends of the domain go to the two ends of the range. */
  lemma Endpoints(s: Scale)
    requires !Degenerate(s)
    ensures Apply(s, s.domain.lo) == Some(s.range.lo)
    ensures Apply(s, s.domain.hi) == Some(s.range.hi)
  {
    assert Apply(s, s.domain.lo).value == s.range.lo + 0.0 * Slope(s);
    calc {
      Apply(s, s.domain.hi).value;
      s.range.lo + s.domain.Length() * (s.range.Length() / s.domain.Length());
      s.range.lo + s.range.Length();
    }
  }

  /** When the range has length too, the inverse undoes the scale. */
  lemma InverseRoundTrip(s: Scale, x: real)
    requires !Degenerate(s) && !Degenerate(Inverse(s))
    ensures Apply(Inverse(s), Apply(s, x).value) == Some(x)
  {
    var y := Apply(s, x).value;
    var t := Inverse(s);
    var d := s.domain.Length();
    var g := s.range.Length();
    assert (y - s.range.lo) * d == (x - s.domain.lo) * g;
    var z := Apply(t, y).value;
    assert (z - s.domain.lo) * g == (y - s.range.lo) * d;
    assert (z - s.domain.lo) * g == (x - s.domain.lo) * g;
    assert (z - x) * g == 0.0;
  }

  /** A scale onto a zero-length range is constant, and its inverse is degenerate. */
  lemma ConstantOntoPoint(s: Scale, x: real)
    requires !Degenerate(s) && s.range.Length() == 0.0
    ensures Apply(s, x) == Some(s.range.lo)
    ensures Apply(Inverse(s), s.range.lo).None?
  {
    assert Slope(s) == 0.0 / s.domain.Length() == 0.0;
    assert Apply(s, x).value == s.range.lo + (x - s.domain.lo) * 0.0;
  }

  /** The scale of the source's tests: [10, 20] onto [50, 100], and back. */
  lemma ScaleExamples()
    ensures Apply(Scale(Interval(10.0, 20.0), Interval(50.0, 100.0)), 15.0) == Some(75.0)
    ensures Apply(Scale(Interval(10.0, 20.0), Interval(50.0, 100.0)), 5.0) == Some(25.0)
    ensures Apply(Inverse(Scale(Interval(10.0, 20.0), Interval(50.0, 100.0))), 75.0) == Some(15.0)
    ensures Apply(Inverse(Scale(Interval(10.0, 20.0), Interval(50.0, 100.0))), 25.0) == Some(5.0)
  {
  }
}
