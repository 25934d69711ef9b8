/**
 * The windowed tangent estimator (addAngles with a frame rate): for every
 * arrow of a trail it collects one candidate vector per window radius,
 * averages them and stores the result as the arrow's direction and length.
 */
module Estimator {
  import opened Vectors
  import opened Arrows

  /** `(int) (fps / 4)`: a quarter of the frame rate, truncated toward zero. */
  function Rate(fps: real): (r: int)
    ensures 0.0 <= fps ==> 0 <= r && 4.0 * r as real <= fps < 4.0 * (r + 1) as real
    ensures fps < 0.0 ==> r <= 0 && 4.0 * (r - 1) as real < fps <= 4.0 * r as real
  {
    if fps >= 0.0 then (fps / 4.0).Floor else -((-fps / 4.0).Floor)
  }

  /** For a whole-numbered frame rate the window radius is integer division by 4 (24 fps gives 6, 30 fps gives 7). */
  lemma RateOfWholeFps(n: nat)
    ensures Rate(n as real) == n / 4
  {
    var r := Rate(n as real);
    assert 4 * r <= n < 4 * (r + 1);
  }

  /**
   * The candidate vector for frame `f` and radius `i`: the symmetric
   * difference when both `f - i` and `f + i` are sampled; otherwise the
   * forward difference at the first frame of a trail, the backward
   * difference at its last frame, and the zero vector in every other case.
   */
  function Candidate(m: map<int, Arrow>, f: int, i: int): Vec3
    requires f in m
  {
    if f - i in m && f + i in m then Diff(m[f - i].position, m[f + i].position)
    else if f - 1 !in m && f + 1 in m then Diff(m[f].position, m[f + 1].position)
    else if f - 1 in m && f + 1 !in m then Diff(m[f - 1].position, m[f].position)
    else Zero
  }

  /** The candidate list for frame `f`, radius `n` first, down to radius 1. */
  function Window(m: map<int, Arrow>, f: int, n: int): seq<Vec3>
    requires f in m
    decreases n
  {
    if n <= 0 then [] else [Candidate(m, f, n)] + Window(m, f, n - 1)
  }

  /**
   * The window holds exactly `n` candidates, the j-th for radius `n - j`:
   * a zero vector takes the place of every radius no branch applies to, so
   * the mean always divides by the radius, not by the number of matches.
   */
  lemma {:induction false} WindowShape(m: map<int, Arrow>, f: int, n: int)
    requires f in m && n >= 0
    ensures |Window(m, f, n)| == n
    ensures forall j :: 0 <= j < n ==> Window(m, f, n)[j] == Candidate(m, f, n - j)
    decreases n
  {
    if n > 0 {
      WindowShape(m, f, n - 1);
    }
  }

  /** Two trails with the same frames and positions have the same windows. */
  lemma {:induction false} WindowReadsPositionsOnly(a: map<int, Arrow>, b: map<int, Arrow>, f: int, n: int)
    requires a.Keys == b.Keys && f in a
    requires forall g :: g in a ==> a[g].position == b[g].position
    ensures Window(a, f, n) == Window(b, f, n)
    decreases n
  {
    if n > 0 {
      WindowReadsPositionsOnly(a, b, f, n - 1);
    }
  }

  /** The arrows once every one carries the mean of its window as direction. */
  function Estimated(m: map<int, Arrow>, rate: int): map<int, Arrow>
  {
    map f | f in m :: m[f].(direction := Mean(Window(m, f, rate)))
  }

  /**
   * Estimation keeps every frame and every field but the direction; with a
   * positive radius every arrow gets a vector, with radius 0 (a frame rate
   * under 4) every arrow gets NaN components.
   */
  lemma EstimatedDirections(m: map<int, Arrow>, rate: int)
    ensures Estimated(m, rate).Keys == m.Keys
    ensures forall f :: f in m ==> Estimated(m, rate)[f] == m[f].(direction := Estimated(m, rate)[f].direction)
    ensures forall f :: f in m ==> (Estimated(m, rate)[f].direction.Vector? <==> rate > 0)
    ensures forall f :: f in m ==> (Estimated(m, rate)[f].direction == NotANumber <==> rate <= 0)
  {
    forall f | f in m
      ensures |Window(m, f, rate)| == if rate > 0 then rate else 0
    {
      if rate > 0 {
        WindowShape(m, f, rate);
      }
    }
  }

  /** The frames of `m` are exactly `s..e`. */
  ghost predicate Contiguous(m: map<int, Arrow>, s: int, e: int)
  {
    forall g :: g in m <==> s <= g <= e
  }

  /**
   * At the first frame of a trail of two or more frames every radius falls
   * back on the forward difference, so the direction is exactly that one
   * difference.
   */
  lemma FirstFrameLooksForward(m: map<int, Arrow>, s: int, e: int, rate: int)
    requires Contiguous(m, s, e) && s < e && rate > 0
    ensures Estimated(m, rate)[s].direction == Vector(Diff(m[s].position, m[s + 1].position))
  {
    assert s in m && s + 1 in m && s - 1 !in m;
    var d := Diff(m[s].position, m[s + 1].position);
    var w := Window(m, s, rate);
    WindowShape(m, s, rate);
    forall j | 0 <= j < |w|
      ensures w[j] == d
    {
      assert s - (rate - j) !in m;
    }
    MeanOfCopies(w, d);
  }

  /** At the last frame of a trail of two or more frames the direction is the backward difference. */
  lemma LastFrameLooksBack(m: map<int, Arrow>, s: int, e: int, rate: int)
    requires Contiguous(m, s, e) && s < e && rate > 0
    ensures Estimated(m, rate)[e].direction == Vector(Diff(m[e - 1].position, m[e].position))
  {
    assert e in m && e - 1 in m && e + 1 !in m;
    var d := Diff(m[e - 1].position, m[e].position);
    var w := Window(m, e, rate);
    WindowShape(m, e, rate);
    forall j | 0 <= j < |w|
      ensures w[j] == d
    {
      assert e + (rate - j) !in m;
    }
    MeanOfCopies(w, d);
  }

  /** A trail of one frame gets only zero candidates, hence the zero direction. */
  lemma LoneFrameStandsStill(m: map<int, Arrow>, f: int, rate: int)
    requires m.Keys == {f} && rate > 0
    ensures Estimated(m, rate)[f].direction == Vector(Zero)
  {
    var w := Window(m, f, rate);
    WindowShape(m, f, rate);
    forall j | 0 <= j < |w|
      ensures w[j] == Zero
    {
      assert f - (rate - j) !in m;
      assert f - 1 !in m && f + 1 !in m;
    }
    MeanOfCopies(w, Zero);
  }

  /**
   * Uniform motion: when the bone moves by `v` per frame and the whole
   * window around `f` is sampled, the estimated direction is `(n + 1) * v`,
   * the mean of the symmetric differences `2 * i * v` for i = 1..n.
   */
  lemma UniformMotion(m: map<int, Arrow>, f: int, n: int, p0: Vec3, v: Vec3)
    requires f in m && n > 0
    requires forall g :: f - n <= g <= f + n ==> g in m
    requires forall g :: g in m && f - n <= g <= f + n ==> m[g].position == Add(p0, Scale(v, g as real))
    ensures Mean(Window(m, f, n)) == Vector(Scale(v, (n + 1) as real))
  {
    UniformWindowSum(m, f, n, n, p0, v);
    WindowShape(m, f, n);
    TwiceTriangle(n);
    MeanOfScaled(Window(m, f, n), v, n);
  }

  /** `2 + 4 + ... + 2i`, the sum of the symmetric-difference factors up to radius `i`. */
  function EvenSum(i: int): real
    decreases i
  {
    if i <= 0 then 0.0 else EvenSum(i - 1) + 2.0 * i as real
  }

  /** `2 + 4 + ... + 2n == n * (n + 1)`. */
  lemma {:induction false} TwiceTriangle(n: nat)
    ensures EvenSum(n) == n as real * (n as real + 1.0)
  {
    if n > 0 {
      TwiceTriangle(n - 1);
      var k := n as real;
      assert (n - 1) as real == k - 1.0;
      assert (k - 1.0) * k + 2.0 * k == k * (k + 1.0) by {
        assert (k - 1.0) * k == k * k - k;
        assert k * (k + 1.0) == k * k + k;
      }
    }
  }

  /** Dividing `n * (n + 1) * v` by `n` gives `(n + 1) * v`. */
  lemma MeanOfScaled(w: seq<Vec3>, v: Vec3, n: int)
    requires n > 0 && |w| == n
    requires Sum(w) == Scale(v, n as real * (n as real + 1.0))
    ensures Mean(w) == Vector(Scale(v, (n + 1) as real))
  {
    var k := n as real;
    assert v.x * (k * (k + 1.0)) / k == v.x * (k + 1.0);
    assert v.y * (k * (k + 1.0)) / k == v.y * (k + 1.0);
    assert v.z * (k * (k + 1.0)) / k == v.z * (k + 1.0);
  }

  /** The sum of the candidates of the first `i` radii of a uniform-motion window. */
  lemma {:induction false} UniformWindowSum(m: map<int, Arrow>, f: int, n: int, i: int, p0: Vec3, v: Vec3)
    requires f in m && 0 <= i <= n
    requires forall g :: f - n <= g <= f + n ==> g in m
    requires forall g :: g in m && f - n <= g <= f + n ==> m[g].position == Add(p0, Scale(v, g as real))
    ensures Sum(Window(m, f, i)) == Scale(v, EvenSum(i))
    decreases i
  {
    if i > 0 {
      UniformWindowSum(m, f, n, i - 1, p0, v);
      var c := Candidate(m, f, i);
      UniformCandidate(m, f, n, i, p0, v);
      var rest := Window(m, f, i - 1);
      assert Window(m, f, i) == [c] + rest;
      SumCons(c, rest);
      ScaleAdd(v, 2.0 * i as real, EvenSum(i - 1));
    }
  }

  /** Under uniform motion the candidate for radius `i` is the symmetric difference `2 * i * v`. */
  lemma UniformCandidate(m: map<int, Arrow>, f: int, n: int, i: int, p0: Vec3, v: Vec3)
    requires f in m && 0 < i <= n
    requires forall g :: f - n <= g <= f + n ==> g in m
    requires forall g :: g in m && f - n <= g <= f + n ==> m[g].position == Add(p0, Scale(v, g as real))
    ensures Candidate(m, f, i) == Scale(v, 2.0 * i as real)
  {
    assert f - i in m && f + i in m;
    assert m[f - i].position == Add(p0, Scale(v, (f - i) as real));
    assert m[f + i].position == Add(p0, Scale(v, (f + i) as real));
    DiffOnLine(p0, v, (f - i) as real, (f + i) as real);
    assert (f + i) as real - (f - i) as real == 2.0 * i as real;
  }

  /** The inner loop of addAngles: one candidate per radius, from `rate` down to 1. */
  method CollectCandidates(m: map<int, Arrow>, current: int, rate: int) returns (vectors: seq<Vec3>)
    requires current in m
    ensures vectors == Window(m, current, rate)
  {
    vectors := [];
    var i := rate;
    while i > 0
      invariant vectors + Window(m, current, i) == Window(m, current, rate)
      decreases i
    {
      vectors := vectors + [Candidate(m, current, i)];
      i := i - 1;
    }
  }

  /**
   * addAngles(map, fps): visits the arrows in ascending frame order and, for
   * each, collects the window's candidates from radius `rate` down to 1,
   * averages them and stores the mean as the arrow's direction. The
   * candidates are read from the map being updated, whose positions never
   * change. The frame an arrow is estimated at is the one it carries, which
   * is its key in every map the sampler builds.
   */
  method AddAngles(tangentialArrows: map<int, Arrow>, fps: real) returns (r: map<int, Arrow>)
    requires forall f :: f in tangentialArrows ==> tangentialArrows[f].frame == f
    ensures r == Estimated(tangentialArrows, Rate(fps))
  {
    var rate := Rate(fps);
    ghost var goal := Estimated(tangentialArrows, rate);
    r := tangentialArrows;
    var remaining := tangentialArrows.Keys;
    while remaining != {}
      invariant remaining <= tangentialArrows.Keys
      invariant r.Keys == tangentialArrows.Keys
      invariant forall f :: f in r ==> r[f].position == tangentialArrows[f].position
      invariant forall f :: f in r ==> r[f] == if f in remaining then tangentialArrows[f] else goal[f]
      decreases |remaining|
    {
      var key := NextKey(remaining);
      var current := r[key].frame;
      var vectors := CollectCandidates(r, current, rate);
      WindowReadsPositionsOnly(r, tangentialArrows, current, rate);
      var vFinal := AverageVector(vectors);
      r := r[current := r[current].(direction := vFinal)];
      remaining := remaining - {key};
    }
  }
}
