/** Real arithmetic shared by both texture pipelines: sums and products of
    sequences, the reference values the distance folds are compared with,
    and the bounds of the fractions normalisation computes. */
module RealMath {

  function Sum(ds: seq<real>): real
    decreases |ds|
  {
    if |ds| == 0 then 0.0 else ds[0] + Sum(ds[1..])
  }

  function Product(ds: seq<real>): real
    decreases |ds|
  {
    if |ds| == 0 then 1.0 else ds[0] * Product(ds[1..])
  }

  /** Appending a value adds it to the sum. */
  lemma {:induction false} SumSnoc(ds: seq<real>, d: real)
    ensures Sum(ds + [d]) == Sum(ds) + d
    decreases |ds|
  {
    if |ds| != 0 {
      assert (ds + [d])[1..] == ds[1..] + [d];
      SumSnoc(ds[1..], d);
    }
  }

  /** Appending a value multiplies the product by it. */
  lemma {:induction false} ProductSnoc(ds: seq<real>, d: real)
    ensures Product(ds + [d]) == Product(ds) * d
    decreases |ds|
  {
    if |ds| != 0 {
      assert (ds + [d])[1..] == ds[1..] + [d];
      ProductSnoc(ds[1..], d);
    }
  }

  /** A fraction `a / b` with `0 <= a <= b` lies in [0, 1], and is 0 or 1
      exactly when `a` is 0 or `b`. */
  lemma UnitFraction(a: real, b: real)
    requires 0.0 < b && 0.0 <= a <= b
    ensures 0.0 <= a / b <= 1.0
    ensures a / b == 0.0 <==> a == 0.0
    ensures a / b == 1.0 <==> a == b
  {
    assert (a / b) * b == a;
    assert (1.0 - a / b) * b == b - a;
  }
}
