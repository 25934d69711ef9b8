/**
 * Points and vectors of javax.vecmath (Point3d, Vector3d) over exact reals,
 * and the two vector helpers of the controller: the difference of two
 * points (getNewVector) and the componentwise mean of a list of vectors
 * (getAverageVector over a List).
 */
module Vectors {

  datatype Vec3 = Vec3(x: real, y: real, z: real)

  const Zero: Vec3 := Vec3(0.0, 0.0, 0.0)

  function Add(a: Vec3, b: Vec3): Vec3
  {
    Vec3(a.x + b.x, a.y + b.y, a.z + b.z)
  }

  function Scale(v: Vec3, k: real): Vec3
  {
    Vec3(v.x * k, v.y * k, v.z * k)
  }

  /** The squared Euclidean length; Vector3d.length() is its square root. */
  function NormSq(v: Vec3): real
  {
    v.x * v.x + v.y * v.y + v.z * v.z
  }

  /** The vector leading from `past` to `future` (getNewVector). */
  function Diff(past: Vec3, future: Vec3): (v: Vec3)
    ensures Add(past, v) == future
  {
    Vec3(future.x - past.x, future.y - past.y, future.z - past.z)
  }

  /**
   * The componentwise sum, accumulated from the first element to the last
   * as the averaging loop does.
   */
  function Sum(vs: seq<Vec3>): Vec3
  {
    if vs == [] then Zero else Add(Sum(vs[..|vs| - 1]), vs[|vs| - 1])
  }

  /**
   * The direction an arrow carries. `Unset` before the estimator has run;
   * `NotANumber` is what Java's 0.0 / 0 yields when the candidate list is
   * empty: every component is NaN, and so is the length.
   */
  datatype Direction = Unset | NotANumber | Vector(v: Vec3)

  /** The componentwise mean of `vs`, or NaN components for an empty list. */
  function Mean(vs: seq<Vec3>): (d: Direction)
    ensures d != Unset
    ensures d.Vector? <==> |vs| > 0
    ensures d.Vector? ==> Scale(d.v, |vs| as real) == Sum(vs)
  {
    if |vs| == 0 then NotANumber
    else
      var s := Sum(vs);
      var n := |vs| as real;
      Vector(Vec3(s.x / n, s.y / n, s.z / n))
  }

  /** getAverageVector(List): sums the components in one pass, then divides by the count. */
  method AverageVector(vectors: seq<Vec3>) returns (d: Direction)
    ensures d == Mean(vectors)
  {
    var x, y, z := 0.0, 0.0, 0.0;
    var i := 0;
    while i < |vectors|
      invariant 0 <= i <= |vectors|
      invariant Vec3(x, y, z) == Sum(vectors[..i])
    {
      assert vectors[..i + 1][..i] == vectors[..i];
      x := x + vectors[i].x;
      y := y + vectors[i].y;
      z := z + vectors[i].z;
      i := i + 1;
    }
    assert vectors[..i] == vectors;
    if i == 0 {
      d := NotANumber;
    } else {
      d := Vector(Vec3(x / i as real, y / i as real, z / i as real));
    }
  }

  /** Scaling distributes over adding the factors. */
  lemma ScaleAdd(v: Vec3, a: real, b: real)
    ensures Add(Scale(v, a), Scale(v, b)) == Scale(v, a + b)
  {
    assert v.x * a + v.x * b == v.x * (a + b);
    assert v.y * a + v.y * b == v.y * (a + b);
    assert v.z * a + v.z * b == v.z * (a + b);
  }

  /** Two points on the line through `p0` with direction `v` differ by a multiple of `v`. */
  lemma DiffOnLine(p0: Vec3, v: Vec3, a: real, b: real)
    ensures Diff(Add(p0, Scale(v, a)), Add(p0, Scale(v, b))) == Scale(v, b - a)
  {
    assert v.x * b - v.x * a == v.x * (b - a);
    assert v.y * b - v.y * a == v.y * (b - a);
    assert v.z * b - v.z * a == v.z * (b - a);
  }

  /** Summing a list that starts with `a` is adding `a` to the sum of the rest. */
  lemma {:induction false} SumCons(a: Vec3, vs: seq<Vec3>)
    ensures Sum([a] + vs) == Add(a, Sum(vs))
    decreases |vs|
  {
    if vs == [] {
      assert [a] + vs == [a];
      assert [a][..0] == [];
    } else {
      var init := vs[..|vs| - 1];
      assert ([a] + vs)[..|vs|] == [a] + init;
      SumCons(a, init);
    }
  }

  /** The sum of `n` copies of `c` is `n` times `c`. */
  lemma {:induction false} SumOfCopies(vs: seq<Vec3>, c: Vec3)
    requires forall i :: 0 <= i < |vs| ==> vs[i] == c
    ensures Sum(vs) == Scale(c, |vs| as real)
    decreases |vs|
  {
    if vs != [] {
      var init := vs[..|vs| - 1];
      SumOfCopies(init, c);
      var k := |init| as real;
      assert c.x * k + c.x == c.x * (k + 1.0);
      assert c.y * k + c.y == c.y * (k + 1.0);
      assert c.z * k + c.z == c.z * (k + 1.0);
    }
  }

  /** Averaging a non-empty list of equal vectors gives that vector back. */
  lemma MeanOfCopies(vs: seq<Vec3>, c: Vec3)
    requires |vs| > 0
    requires forall i :: 0 <= i < |vs| ==> vs[i] == c
    ensures Mean(vs) == Vector(c)
  {
    SumOfCopies(vs, c);
    var n := |vs| as real;
    assert c.x * n / n == c.x;
    assert c.y * n / n == c.y;
    assert c.z * n / n == c.z;
  }
}
