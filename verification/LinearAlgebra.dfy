/** Vectors and matrices over a commutative ring, as far as erasure decoding needs them. */
module LinearAlgebra {
  import opened Laws

  datatype Ring<!T> = Ring(zero: T, one: T, add: (T, T) -> T, mul: (T, T) -> T)

  type Vec<T> = seq<T>
  type Mat<T> = seq<seq<T>>

  ghost predicate Lawful<T(!new)>(R: Ring<T>) {
    forall a: T, b: T, c: T {:trigger At(a, b, c)} :: At(a, b, c) ==>
      && R.add(a, b) == R.add(b, a)
      && R.add(R.add(a, b), c) == R.add(a, R.add(b, c))
      && R.add(a, R.zero) == a
      && R.mul(a, b) == R.mul(b, a)
      && R.mul(R.mul(a, b), c) == R.mul(a, R.mul(b, c))
      && R.mul(a, R.one) == a
      && R.mul(a, R.zero) == R.zero
      && R.mul(a, R.add(b, c)) == R.add(R.mul(a, b), R.mul(a, c))
  }

  function Dot<T>(R: Ring<T>, u: Vec<T>, v: Vec<T>): T
    requires |u| == |v|
    decreases |u|
  {
    if u == [] then R.zero
    else R.add(Dot(R, u[..|u| - 1], v[..|u| - 1]), R.mul(u[|u| - 1], v[|u| - 1]))
  }

  ghost predicate IsMatrix<T>(M: Mat<T>, rows: nat, cols: nat) {
    |M| == rows && forall i :: 0 <= i < rows ==> |M[i]| == cols
  }

  function Column<T>(M: Mat<T>, n: nat, c: nat): (v: Vec<T>)
    requires c < n && forall i :: 0 <= i < |M| ==> |M[i]| == n
    ensures |v| == |M|
  {
    seq(|M|, i requires 0 <= i < |M| => M[i][c])
  }

  function MatVec<T>(R: Ring<T>, M: Mat<T>, x: Vec<T>): (v: Vec<T>)
    requires forall i :: 0 <= i < |M| ==> |M[i]| == |x|
    ensures |v| == |M|
  {
    seq(|M|, i requires 0 <= i < |M| => Dot(R, M[i], x))
  }

  /** The row vector u * M, for a matrix with n columns. */
  function VecMat<T>(R: Ring<T>, u: Vec<T>, M: Mat<T>, n: nat): (v: Vec<T>)
    requires |u| == |M| && forall i :: 0 <= i < |M| ==> |M[i]| == n
    ensures |v| == n
  {
    seq(n, c requires 0 <= c < n => Dot(R, u, Column(M, n, c)))
  }

  function UnitRow<T>(R: Ring<T>, n: nat, i: nat): (v: Vec<T>)
    ensures |v| == n
  {
    seq(n, j => if j == i then R.one else R.zero)
  }

  ghost predicate LeftInverse<T>(R: Ring<T>, inv: Mat<T>, B: Mat<T>, k: nat) {
    && IsMatrix(inv, k, k) && IsMatrix(B, k, k)
    && forall i :: 0 <= i < k ==> VecMat(R, inv[i], B, k) == UnitRow(R, k, i)
  }

  lemma {:induction false} DotZero<T(!new)>(R: Ring<T>, u: Vec<T>, x: Vec<T>)
    requires Lawful(R) && |u| == |x| && forall i :: 0 <= i < |u| ==> u[i] == R.zero
    ensures Dot(R, u, x) == R.zero
    decreases |u|
  {
    if u != [] {
      DotZero(R, u[..|u| - 1], x[..|u| - 1]);
      assert At(x[|u| - 1], R.zero, R.zero);
      assert At(R.zero, x[|u| - 1], R.zero);
    }
  }

  /** A unit row selects a component. */
  lemma {:induction false} DotUnit<T(!new)>(R: Ring<T>, n: nat, i: nat, x: Vec<T>)
    requires Lawful(R) && |x| == n && i < n
    ensures Dot(R, UnitRow(R, n, i), x) == x[i]
    decreases n
  {
    var u := UnitRow(R, n, i);
    var last := x[n - 1];
    if i == n - 1 {
      DotZero(R, u[..n - 1], x[..n - 1]);
      assert At(R.one, last, R.zero) && At(last, R.one, R.zero) && At(R.zero, last, R.zero);
    } else {
      assert u[..n - 1] == UnitRow(R, n - 1, i);
      DotUnit(R, n - 1, i, x[..n - 1]);
      assert At(R.zero, last, R.zero) && At(last, R.zero, R.zero) && At(x[i], R.zero, R.zero);
    }
  }

  function Scale<T>(R: Ring<T>, a: T, u: Vec<T>): (v: Vec<T>)
    ensures |v| == |u|
  {
    seq(|u|, i requires 0 <= i < |u| => R.mul(a, u[i]))
  }

  function Plus<T>(R: Ring<T>, u: Vec<T>, v: Vec<T>): (w: Vec<T>)
    requires |u| == |v|
    ensures |w| == |u|
  {
    seq(|u|, i requires 0 <= i < |u| => R.add(u[i], v[i]))
  }

  lemma {:induction false} DotScale<T(!new)>(R: Ring<T>, a: T, u: Vec<T>, x: Vec<T>)
    requires Lawful(R) && |u| == |x|
    ensures Dot(R, Scale(R, a, u), x) == R.mul(a, Dot(R, u, x))
    decreases |u|
  {
    if u == [] {
      assert At(a, a, a);
    } else {
      var k := |u| - 1;
      DotScale(R, a, u[..k], x[..k]);
      assert Scale(R, a, u)[..k] == Scale(R, a, u[..k]);
      assert At(a, u[k], x[k]);
      assert At(a, Dot(R, u[..k], x[..k]), R.mul(u[k], x[k]));
    }
  }

  lemma {:induction false} Interchange<T(!new)>(R: Ring<T>, a: T, b: T, c: T, d: T)
    requires Lawful(R)
    ensures R.add(R.add(a, b), R.add(c, d)) == R.add(R.add(a, c), R.add(b, d))
  {
    assert At(a, b, R.add(c, d)) && At(b, c, d) && At(b, c, b) && At(c, b, d) && At(a, c, R.add(b, d));
  }

  lemma {:induction false} DotPlus<T(!new)>(R: Ring<T>, u: Vec<T>, v: Vec<T>, x: Vec<T>)
    requires Lawful(R) && |u| == |v| == |x|
    ensures Dot(R, Plus(R, u, v), x) == R.add(Dot(R, u, x), Dot(R, v, x))
    decreases |u|
  {
    if u == [] {
      assert At(R.zero, R.zero, R.zero);
    } else {
      var k := |u| - 1;
      DotPlus(R, u[..k], v[..k], x[..k]);
      assert Plus(R, u, v)[..k] == Plus(R, u[..k], v[..k]);
      assert At(x[k], u[k], v[k]) && At(x[k], v[k], v[k]) && At(x[k], R.add(u[k], v[k]), x[k]);
      Interchange(R, Dot(R, u[..k], x[..k]), Dot(R, v[..k], x[..k]), R.mul(u[k], x[k]), R.mul(v[k], x[k]));
    }
  }

  /** (u * M) . x == u . (M * x): the two ways of summing over a matrix agree. */
  lemma {:induction false} SumExchange<T(!new)>(R: Ring<T>, u: Vec<T>, M: Mat<T>, x: Vec<T>)
    requires Lawful(R) && |u| == |M| && forall i :: 0 <= i < |M| ==> |M[i]| == |x|
    ensures Dot(R, VecMat(R, u, M, |x|), x) == Dot(R, u, MatVec(R, M, x))
    decreases |u|
  {
    var n := |x|;
    if u == [] {
      DotZero(R, VecMat(R, u, M, n), x);
    } else {
      var k := |u| - 1;
      SumExchange(R, u[..k], M[..k], x);
      assert MatVec(R, M, x)[..k] == MatVec(R, M[..k], x);
      forall c | 0 <= c < n
        ensures VecMat(R, u, M, n)[c] == R.add(VecMat(R, u[..k], M[..k], n)[c], Scale(R, u[k], M[k])[c])
      {
        assert Column(M, n, c)[..k] == Column(M[..k], n, c);
      }
      assert VecMat(R, u, M, n) == Plus(R, VecMat(R, u[..k], M[..k], n), Scale(R, u[k], M[k]));
      DotPlus(R, VecMat(R, u[..k], M[..k], n), Scale(R, u[k], M[k]), x);
      DotScale(R, u[k], M[k], x);
    }
  }

  /** Applying a left inverse recovers every component. */
  lemma {:induction false} InverseRecovers<T(!new)>(R: Ring<T>, inv: Mat<T>, B: Mat<T>, x: Vec<T>, i: nat)
    requires Lawful(R) && LeftInverse(R, inv, B, |x|) && i < |x|
    ensures Dot(R, inv[i], MatVec(R, B, x)) == x[i]
  {
    SumExchange(R, inv[i], B, x);
    DotUnit(R, |x|, i, x);
  }

  /** A row of (e * inv) applied to the surviving components gives what e gives on the originals. */
  lemma {:induction false} InverseRow<T(!new)>(R: Ring<T>, e: Vec<T>, inv: Mat<T>, B: Mat<T>, x: Vec<T>)
    requires Lawful(R) && LeftInverse(R, inv, B, |x|) && |e| == |x|
    ensures Dot(R, VecMat(R, e, inv, |x|), MatVec(R, B, x)) == Dot(R, e, x)
  {
    SumExchange(R, e, inv, MatVec(R, B, x));
    forall i | 0 <= i < |x| ensures MatVec(R, inv, MatVec(R, B, x))[i] == x[i] {
      InverseRecovers(R, inv, B, x, i);
    }
    assert MatVec(R, inv, MatVec(R, B, x)) == x;
  }
}
