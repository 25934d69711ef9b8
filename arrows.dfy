/**
 * The arrows of a trail (TangentialArrow objects, keyed by frame in a
 * TreeMap) and the order in which a TreeMap hands them out.
 */
module Arrows {
  import opened Vectors

  /**
   * One arrow: the frame it belongs to, the bone length used as its scale,
   * the bone's world position at that frame, the estimated direction
   * (rotation and length derive from it) and its index among the Switch's
   * children.
   */
  datatype Arrow = Arrow(frame: int, scale: real, position: Vec3, direction: Direction, switchIndex: int)

  /** A freshly sampled arrow: no direction yet, switch index at Java's default 0. */
  function NewArrow(frame: int, scale: real, position: Vec3): Arrow
  {
    Arrow(frame, scale, position, Unset, 0)
  }

  /** A set that is not empty has an element. */
  lemma Inhabited(s: set<int>)
    requires s != {}
    ensures exists y :: y in s
  {
    if forall y :: y !in s {
      assert false;
    }
  }

  /** The least element of a non-empty finite set of frames. */
  ghost function Least(s: set<int>): (m: int)
    requires s != {}
    ensures m in s
    ensures forall y :: y in s ==> m <= y
    decreases |s|
  {
    Inhabited(s);
    var x :| x in s;
    if s == {x} then x
    else
      var rest := Least(s - {x});
      assert forall y :: y in s ==> y == x || y in s - {x};
      if x < rest then x else rest
  }

  /**
   * The next key a TreeMap iteration yields out of the keys not yet visited:
   * iteration is in ascending key order.
   */
  method NextKey(remaining: set<int>) returns (f: int)
    requires remaining != {}
    ensures f in remaining
    ensures forall x :: x in remaining ==> f <= x
  {
    ghost var least := Least(remaining);
    f :| f in remaining && forall x :: x in remaining ==> f <= x;
  }

  /** The number of frames of `keys` that come before `k`: its position in ascending order. */
  function Rank(keys: set<int>, k: int): nat
  {
    |set x | x in keys && x < k|
  }

  /**
   * The map after the trail constructor has given every arrow its switch
   * index: the arrow's position in ascending frame order.
   */
  function Indexed(m: map<int, Arrow>): map<int, Arrow>
  {
    map k | k in m :: m[k].(switchIndex := Rank(m.Keys, k))
  }

  /**
   * The switch indices of an indexed map lie in 0..N-1 and follow the
   * frame order in both directions, so no two arrows share one.
   */
  lemma IndexedFollowsFrameOrder(m: map<int, Arrow>)
    ensures Indexed(m).Keys == m.Keys
    ensures forall k :: k in m ==> 0 <= Indexed(m)[k].switchIndex < |m|
    ensures forall k1, k2 :: k1 in m && k2 in m ==>
              (k1 < k2 <==> Indexed(m)[k1].switchIndex < Indexed(m)[k2].switchIndex)
  {
    forall k | k in m
      ensures Rank(m.Keys, k) < |m|
    {
      var below := set x | x in m.Keys && x < k;
      var others := m.Keys - {k};
      assert below <= others;
      assert others == below + (others - below);
      assert |others| == |below| + |others - below|;
      assert |others| == |m| - 1;
    }
    forall k1, k2 | k1 in m && k2 in m && k1 < k2
      ensures Rank(m.Keys, k1) < Rank(m.Keys, k2)
    {
      RankGrows(m.Keys, k1, k2);
    }
  }

  /** A key of `keys` has a smaller rank than every larger frame. */
  lemma RankGrows(keys: set<int>, k1: int, k2: int)
    requires k1 in keys && k1 < k2
    ensures Rank(keys, k1) < Rank(keys, k2)
  {
    var a := set x | x in keys && x < k1;
    var b := set x | x in keys && x < k2;
    assert a <= b;
    assert k1 in b - a;
    assert b == a + (b - a);
    assert |b| == |a| + |b - a|;
  }
}
