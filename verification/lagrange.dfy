/** Lagrange interpolation over a table of samples, as `lagrangeInterp`
    sums it: rows in index order, each weighted by the product of its
    basis factors taken in column order. */
module Lagrange {
  import opened Php

  /** One row of an interpolation table. */
  datatype Sample = Sample(x: real, y: real)

  /** Row `i`'s abscissa differs from those of the other rows in `[0, n)`. */
  ghost predicate NodeApart(ds: seq<Sample>, i: nat, n: nat)
    requires i < |ds| && n <= |ds|
  {
    forall j :: 0 <= j < n && j != i ==> ds[j].x != ds[i].x
  }

  /** Rows `[0, n)` each have an abscissa no other row shares. */
  ghost predicate RowsApart(ds: seq<Sample>, n: nat)
    requires n <= |ds|
  {
    forall i :: 0 <= i < n ==> NodeApart(ds, i, |ds|)
  }

  /** No two rows share an abscissa. */
  predicate DistinctNodes(ds: seq<Sample>) {
    forall i, j :: 0 <= i < |ds| && 0 <= j < |ds| && i != j ==> ds[i].x != ds[j].x
  }

  /** The basis factor of row `i` accumulated over columns `[0, n)`. */
  function Basis(x: real, ds: seq<Sample>, i: nat, n: nat): real
    requires i < |ds| && n <= |ds| && NodeApart(ds, i, n)
  {
    if n == 0 then 1.0
    else if n - 1 == i then Basis(x, ds, i, n - 1)
    else Basis(x, ds, i, n - 1) * ((x - ds[n - 1].x) / (ds[i].x - ds[n - 1].x))
  }

  /** The weighted rows `[0, n)`, added in index order. */
  function Sum(x: real, ds: seq<Sample>, n: nat): real
    requires n <= |ds| && RowsApart(ds, n)
  {
    if n == 0 then 0.0
    else Sum(x, ds, n - 1) + ds[n - 1].y * Basis(x, ds, n - 1, |ds|)
  }

  /** `lagrangeInterp(x, table)`. Two rows with one abscissa make the
      basis divide by zero, which PHP 8 raises as an error. */
  function Interpolate(x: real, ds: seq<Sample>): (r: Outcome)
    ensures r.Throws? <==> !DistinctNodes(ds)
    ensures !r.False?
    ensures |ds| == 0 ==> r == Value(0.0)
    ensures |ds| == 1 ==> r == Value(ds[0].y)
  {
    if DistinctNodes(ds) then
      assert |ds| == 1 ==> Sum(x, ds, 1) == ds[0].y * Basis(x, ds, 0, 1) == ds[0].y;
      Value(Sum(x, ds, |ds|))
    else Throws
  }

  /** A basis factor is 1 at its own node. */
  lemma {:induction false} BasisAtOwnNode(ds: seq<Sample>, i: nat, n: nat)
    requires i < |ds| && n <= |ds| && NodeApart(ds, i, n)
    ensures Basis(ds[i].x, ds, i, n) == 1.0
  {
    if n > 0 {
      BasisAtOwnNode(ds, i, n - 1);
    }
  }

  /** A basis factor is 0 at any other node it has passed. */
  lemma {:induction false} BasisAtOtherNode(ds: seq<Sample>, i: nat, k: nat, n: nat)
    requires i < |ds| && n <= |ds| && NodeApart(ds, i, n)
    requires k < n && k != i
    ensures Basis(ds[k].x, ds, i, n) == 0.0
  {
    if k < n - 1 {
      BasisAtOtherNode(ds, i, k, n - 1);
      if n - 1 != i {
        var f := (ds[k].x - ds[n - 1].x) / (ds[i].x - ds[n - 1].x);
        assert Basis(ds[k].x, ds, i, n) == 0.0 * f;
      }
    } else {
      var f := (ds[k].x - ds[n - 1].x) / (ds[i].x - ds[n - 1].x);
      assert f == 0.0;
      assert Basis(ds[k].x, ds, i, n) == Basis(ds[k].x, ds, i, n - 1) * f;
    }
  }

  /** Only row `k`'s weight survives at node `k`. */
  lemma {:induction false} SumAtNode(ds: seq<Sample>, k: nat, n: nat)
    requires k < |ds| && n <= |ds| && DistinctNodes(ds)
    ensures Sum(ds[k].x, ds, n) == if k < n then ds[k].y else 0.0
  {
    if n > 0 {
      SumAtNode(ds, k, n - 1);
      if n - 1 == k {
        BasisAtOwnNode(ds, k, |ds|);
      } else {
        BasisAtOtherNode(ds, n - 1, k, |ds|);
      }
    }
  }

  /** Node exactness: with distinct abscissae, interpolating at a row's
      abscissa returns that row's value. */
  lemma InterpolateAtNode(ds: seq<Sample>, k: nat)
    requires k < |ds| && DistinctNodes(ds)
    ensures Interpolate(ds[k].x, ds) == Value(ds[k].y)
  {
    SumAtNode(ds, k, |ds|);
  }

  /** The sum over two rows with distinct abscissae, written out. */
  lemma TwoRowSum(x: real, ds: seq<Sample>)
    requires |ds| == 2 && ds[0].x != ds[1].x
    ensures DistinctNodes(ds)
    ensures Sum(x, ds, 2) == ds[0].y * ((x - ds[1].x) / (ds[0].x - ds[1].x))
                             + ds[1].y * ((x - ds[0].x) / (ds[1].x - ds[0].x))
  {
    assert NodeApart(ds, 0, 2) && NodeApart(ds, 1, 2);
    assert RowsApart(ds, 2);
    var w0 := (x - ds[1].x) / (ds[0].x - ds[1].x);
    var w1 := (x - ds[0].x) / (ds[1].x - ds[0].x);
    assert Basis(x, ds, 0, 1) == 1.0;
    assert Basis(x, ds, 0, 2) == w0;
    assert Basis(x, ds, 1, 1) == 1.0 * w1;
    assert Basis(x, ds, 1, 2) == w1;
    assert Sum(x, ds, 1) == ds[0].y * w0;
  }

  /** The two Lagrange weights of distinct abscissae combine the values of
      a line into its value at `x`. */
  lemma LineWeights(x: real, a: real, b: real, x0: real, x1: real)
    requires x0 != x1
    ensures (a * x0 + b) * ((x - x1) / (x0 - x1)) + (a * x1 + b) * ((x - x0) / (x1 - x0)) == a * x + b
  {
    var d := x1 - x0;
    var p0 := a * x0 + b;
    var p1 := a * x1 + b;
    assert (x - x1) / (x0 - x1) == (x1 - x) / d;
    assert p0 * ((x1 - x) / d) + p1 * ((x - x0) / d) == (p0 * (x1 - x) + p1 * (x - x0)) / d;
    assert p0 * (x1 - x) + p1 * (x - x0) == (a * x + b) * d;
  }

  /** Through two rows of distinct abscissae the interpolation is the line
      they span: a polynomial of degree below 2, constants included, is
      reproduced at every point. */
  lemma TwoRowsReproduceLine(x: real, a: real, b: real, x0: real, x1: real)
    requires x0 != x1
    ensures Interpolate(x, [Sample(x0, a * x0 + b), Sample(x1, a * x1 + b)]) == Value(a * x + b)
  {
    TwoRowSum(x, [Sample(x0, a * x0 + b), Sample(x1, a * x1 + b)]);
    LineWeights(x, a, b, x0, x1);
  }

  /** The inner loop of `lagrangeInterp`: row `i`'s basis factor over all
      columns, or failure at the first column sharing row `i`'s abscissa. */
  method BasisLoop(x: real, table: seq<Sample>, i: nat) returns (ok: bool, prod: real)
    requires i < |table|
    ensures ok <==> NodeApart(table, i, |table|)
    ensures ok ==> prod == Basis(x, table, i, |table|)
  {
    var xi := table[i].x;
    prod := 1.0;
    var j := 0;
    while j < |table|
      invariant 0 <= j <= |table|
      invariant NodeApart(table, i, j)
      invariant prod == Basis(x, table, i, j)
    {
      if i != j {
        var xj := table[j].x;
        if xi == xj {
          assert !NodeApart(table, i, |table|) by {
            assert table[j].x == table[i].x;
          }
          return false, prod;
        }
        assert NodeApart(table, i, j + 1);
        prod := prod * ((x - xj) / (xi - xj));
        assert prod == Basis(x, table, i, j + 1);
      } else {
        assert NodeApart(table, i, j + 1);
        assert prod == Basis(x, table, i, j + 1);
      }
      j := j + 1;
    }
    ok := true;
  }

  /** The nested loops of `lagrangeInterp`, stopping at the first division
      by zero. */
  method LagrangeInterp(x: real, table: seq<Sample>) returns (r: Outcome)
    ensures r == Interpolate(x, table)
  {
    var sum := 0.0;
    var i := 0;
    while i < |table|
      invariant 0 <= i <= |table|
      invariant RowsApart(table, i)
      invariant sum == Sum(x, table, i)
    {
      var ok, prod := BasisLoop(x, table, i);
      if !ok {
        return Throws;
      }
      sum := sum + table[i].y * prod;
      i := i + 1;
    }
    assert DistinctNodes(table) by {
      forall a, b | 0 <= a < |table| && 0 <= b < |table| && a != b
        ensures table[a].x != table[b].x
      {
        assert NodeApart(table, a, |table|);
      }
    }
    r := Value(sum);
  }
}
