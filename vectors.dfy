/** Rows of reals and the dot product over their leading cells. */
module Vectors {

  type Row = seq<real>
  type Matrix = seq<Row>

  function Zeros(k: nat): (r: Row)
    ensures |r| == k
    ensures forall j :: 0 <= j < k ==> r[j] == 0.0
  {
    seq(k, _ => 0.0)
  }

  predicate AllZero(r: Row)
  {
    forall j :: 0 <= j < |r| ==> r[j] == 0.0
  }

  /** The sum of u[j] * v[j] over j < k, accumulated from the left. */
  function Dot(u: Row, v: Row, k: nat): real
    requires k <= |u| && k <= |v|
  {
    if k == 0 then 0.0 else Dot(u, v, k - 1) + u[k - 1] * v[k - 1]
  }

  /** The sum of the first k cells. */
  function Sum(v: Row, k: nat): real
    requires k <= |v|
  {
    if k == 0 then 0.0 else Sum(v, k - 1) + v[k - 1]
  }

  predicate NonNegative(v: Row)
  {
    forall j :: 0 <= j < |v| ==> v[j] >= 0.0
  }

  /** Against a non-negative row, a dot product is at least its smallest
      coefficient bound times the row's sum. */
  lemma {:induction false} DotAtLeast(u: Row, v: Row, k: nat, lo: real)
    requires k <= |u| && k <= |v|
    requires forall j :: 0 <= j < k ==> u[j] >= lo && v[j] >= 0.0
    ensures Dot(u, v, k) >= lo * Sum(v, k)
  {
    if k > 0 {
      DotAtLeast(u, v, k - 1, lo);
      ProductAtLeast(u[k - 1], v[k - 1], lo);
    }
  }

  /** Against a non-negative row, a dot product is at most its largest
      coefficient bound times the row's sum. */
  lemma {:induction false} DotAtMost(u: Row, v: Row, k: nat, hi: real)
    requires k <= |u| && k <= |v|
    requires forall j :: 0 <= j < k ==> u[j] <= hi && v[j] >= 0.0
    ensures Dot(u, v, k) <= hi * Sum(v, k)
  {
    if k > 0 {
      DotAtMost(u, v, k - 1, hi);
      ProductAtMost(u[k - 1], v[k - 1], hi);
    }
  }

  lemma {:induction false} SumNonNegative(v: Row, k: nat)
    requires k <= |v| && forall j :: 0 <= j < k ==> v[j] >= 0.0
    ensures Sum(v, k) >= 0.0
  {
    if k > 0 {
      SumNonNegative(v, k - 1);
    }
  }

  lemma ProductAtMost(x: real, y: real, hi: real)
    requires x <= hi && y >= 0.0
    ensures x * y <= hi * y
  {
    assert (hi - x) * y >= 0.0;
  }

  lemma ProductAtLeast(x: real, y: real, lo: real)
    requires x >= lo && y >= 0.0
    ensures x * y >= lo * y
  {
    assert (x - lo) * y >= 0.0;
  }

  /** The dot product vanishes when every term has a zero factor. */
  lemma {:induction false} DotVanishes(u: Row, v: Row, k: nat)
    requires k <= |u| && k <= |v|
    requires forall j :: 0 <= j < k ==> u[j] == 0.0 || v[j] == 0.0
    ensures Dot(u, v, k) == 0.0
  {
    if k > 0 {
      DotVanishes(u, v, k - 1);
    }
  }

  /** The dot product is linear in its first argument. */
  lemma {:induction false} DotLinear(u: Row, v: Row, w: Row, z: Row, k: nat, alpha: real, beta: real)
    requires k <= |u| && k <= |v| && k <= |w| && k <= |z|
    requires forall j :: 0 <= j < k ==> u[j] == alpha * v[j] + beta * w[j]
    ensures Dot(u, z, k) == alpha * Dot(v, z, k) + beta * Dot(w, z, k)
  {
    if k > 0 {
      DotLinear(u, v, w, z, k - 1, alpha, beta);
      calc {
        u[k - 1] * z[k - 1];
        (alpha * v[k - 1] + beta * w[k - 1]) * z[k - 1];
        alpha * (v[k - 1] * z[k - 1]) + beta * (w[k - 1] * z[k - 1]);
      }
    }
  }

  /** Dot products agree on sequences that agree on the cells they read. */
  lemma {:induction false} DotCongruent(u: Row, v: Row, u': Row, v': Row, k: nat)
    requires k <= |u| && k <= |v| && k <= |u'| && k <= |v'|
    requires forall j :: 0 <= j < k ==> u[j] == u'[j] && v[j] == v'[j]
    ensures Dot(u, v, k) == Dot(u', v', k)
  {
    if k > 0 {
      DotCongruent(u, v, u', v', k - 1);
    }
  }

  /** Splitting a dot product over concatenated blocks: the first `p` cells,
      then `q` cells of the second blocks. */
  lemma {:induction false} DotSplit(u1: Row, u2: Row, v1: Row, v2: Row, p: nat, q: nat)
    requires |u1| == p && |v1| == p && q <= |u2| && q <= |v2|
    ensures Dot(u1 + u2, v1 + v2, p + q) == Dot(u1, v1, p) + Dot(u2, v2, q)
  {
    if q == 0 {
      DotCongruent(u1 + u2, v1 + v2, u1, v1, p);
    } else {
      DotSplit(u1, u2, v1, v2, p, q - 1);
      assert (u1 + u2)[p + q - 1] == u2[q - 1];
      assert (v1 + v2)[p + q - 1] == v2[q - 1];
    }
  }

  /** When every term but the one at i has a zero factor, the dot product
      is that single term. */
  lemma {:induction false} DotOneTerm(u: Row, v: Row, k: nat, i: nat)
    requires k <= |u| && k <= |v| && i < k
    requires forall j :: 0 <= j < k && j != i ==> u[j] == 0.0 || v[j] == 0.0
    ensures Dot(u, v, k) == u[i] * v[i]
  {
    if k - 1 == i {
      DotVanishes(u, v, k - 1);
    } else {
      DotOneTerm(u, v, k - 1, i);
    }
  }

  /** The first index holding v (Python's list.index). */
  function IndexOf<T(==)>(s: seq<T>, v: T): (k: nat)
    requires v in s
    ensures k < |s| && s[k] == v
    ensures forall j :: 0 <= j < k ==> s[j] != v
  {
    if s[0] == v then 0 else 1 + IndexOf(s[1..], v)
  }

  /** No value occurs twice. */
  predicate Distinct<T(==)>(s: seq<T>)
  {
    forall i, j :: 0 <= i < j < |s| ==> s[i] != s[j]
  }

  /** Python's min over a non-empty list of reals. */
  function MinReal(s: seq<real>): (r: real)
    requires |s| > 0
    ensures r in s
    ensures forall j :: 0 <= j < |s| ==> r <= s[j]
  {
    if |s| == 1 then s[0]
    else
      var rest := MinReal(s[1..]);
      if s[0] <= rest then s[0] else rest
  }

  /** Python's max over a non-empty list of reals. */
  function MaxReal(s: seq<real>): (r: real)
    requires |s| > 0
    ensures r in s
    ensures forall j :: 0 <= j < |s| ==> s[j] <= r
  {
    if |s| == 1 then s[0]
    else
      var rest := MaxReal(s[1..]);
      if s[0] >= rest then s[0] else rest
  }

  /** Python's min over a non-empty list of integers: the tie-break of the
      ratio test takes it over the basic variables of the tied rows. */
  function MinInt(s: seq<int>): (r: int)
    requires |s| > 0
    ensures r in s
    ensures forall j :: 0 <= j < |s| ==> r <= s[j]
  {
    if |s| == 1 then s[0]
    else
      var rest := MinInt(s[1..]);
      if s[0] <= rest then s[0] else rest
  }
}
