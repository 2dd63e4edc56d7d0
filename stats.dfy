/** Exact arithmetic means, as computed by Python's sum(...)/len(...) and by
    pandas' mean(), which skips missing values. */
module Stats {
  import opened Outcomes

  /** Sum of a sequence of reals (Python's sum, over exact reals). */
  function Sum(xs: seq<real>): real
  {
    if xs == [] then 0.0 else xs[0] + Sum(xs[1..])
  }

  /** The values present in a column, in order; missing cells are skipped. */
  function Present(cells: seq<Option<real>>): (xs: seq<real>)
    ensures |xs| <= |cells|
    ensures forall x :: x in xs <==> Some(x) in cells
  {
    if cells == [] then []
    else
      var rest := Present(cells[1..]);
      assert forall c :: c in cells <==> c == cells[0] || c in cells[1..];
      match cells[0]
      case Some(v) => [v] + rest
      case None => rest
  }

  /** pandas' mean with skipna: the arithmetic mean of the present values,
      and missing when no value is present. */
  function Mean(cells: seq<Option<real>>): (m: Option<real>)
    ensures m.None? <==> forall i :: 0 <= i < |cells| ==> cells[i].None?
  {
    var xs := Present(cells);
    if |xs| == 0 then
      None
    else
      assert xs[0] in xs;
      Some(Sum(xs) / |xs| as real)
  }

  lemma {:induction false} SumOfConstant(xs: seq<real>, c: real)
    requires forall i :: 0 <= i < |xs| ==> xs[i] == c
    ensures Sum(xs) == |xs| as real * c
  {
    if xs != [] {
      SumOfConstant(xs[1..], c);
    }
  }

  lemma {:induction false} SumWithin(xs: seq<real>, lo: real, hi: real)
    requires forall i :: 0 <= i < |xs| ==> lo <= xs[i] <= hi
    ensures |xs| as real * lo <= Sum(xs) <= |xs| as real * hi
  {
    if xs != [] {
      SumWithin(xs[1..], lo, hi);
    }
  }

  lemma {:induction false} SumShifted(xs: seq<real>, ys: seq<real>, delta: real)
    requires |xs| == |ys|
    requires forall i :: 0 <= i < |xs| ==> ys[i] == xs[i] + delta
    ensures Sum(ys) == Sum(xs) + |xs| as real * delta
  {
    if xs != [] {
      SumShifted(xs[1..], ys[1..], delta);
    }
  }

  lemma QuotientWithin(s: real, n: real, lo: real, hi: real)
    requires n > 0.0
    requires n * lo <= s <= n * hi
    ensures lo <= s / n <= hi
  {
    assert s / n * n == s;
  }

  /** The average of a non-empty sequence lies between any bounds on its elements. */
  lemma AverageWithin(xs: seq<real>, lo: real, hi: real)
    requires |xs| > 0
    requires forall i :: 0 <= i < |xs| ==> lo <= xs[i] <= hi
    ensures lo <= Sum(xs) / |xs| as real <= hi
  {
    SumWithin(xs, lo, hi);
    QuotientWithin(Sum(xs), |xs| as real, lo, hi);
  }

  lemma QuotientShifted(s: real, n: real, delta: real)
    requires n > 0.0
    ensures (s + n * delta) / n == s / n + delta
  {
    var q := s / n;
    assert q * n == s;
    assert s + n * delta == (q + delta) * n;
  }

  /** When every present value of a column is c and at least one is present,
      the mean is exactly c. */
  lemma MeanOfConstant(cells: seq<Option<real>>, c: real)
    requires forall i :: 0 <= i < |cells| ==> cells[i] == None || cells[i] == Some(c)
    requires Some(c) in cells
    ensures Mean(cells) == Some(c)
  {
    var xs := Present(cells);
    assert c in xs;
    forall i | 0 <= i < |xs| ensures xs[i] == c {
      assert xs[i] in xs;
    }
    SumOfConstant(xs, c);
    var n := |xs| as real;
    assert n > 0.0;
    QuotientWithin(Sum(xs), n, c, c);
    assert Mean(cells) == Some(Sum(xs) / n);
  }

  /** The mean of the present values lies between any bounds on them. */
  lemma MeanWithin(cells: seq<Option<real>>, lo: real, hi: real)
    requires forall x :: Some(x) in cells ==> lo <= x <= hi
    requires Mean(cells).Some?
    ensures lo <= Mean(cells).value <= hi
  {
    var xs := Present(cells);
    forall i | 0 <= i < |xs| ensures lo <= xs[i] <= hi {
      assert xs[i] in xs;
    }
    AverageWithin(xs, lo, hi);
    assert Mean(cells).value == Sum(xs) / |xs| as real;
  }
}
