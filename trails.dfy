/**
 * ArrowTrail: the arrows of one bone of one figure over a frame range, the
 * Switch that shows at most one of them, and the visibility rule applied
 * on every frame change.
 */
module Trails {
  import opened Vectors
  import opened Arrows
  import Text

  /** Switch.CHILD_NONE: no child is shown. */
  const ChildNone: int := -1

  /** Arrows whose length is not above this are never shown. */
  const ArrowLengthThreshold: real := 0.3

  /**
   * The arrow's length (the norm of its direction) is above the threshold,
   * compared on squares; a NaN length compares false.
   */
  predicate LongEnough(a: Arrow)
  {
    a.direction.Vector? && NormSq(a.direction.v) > ArrowLengthThreshold * ArrowLengthThreshold
  }

  /** Comparing squared lengths decides the same as comparing lengths. */
  lemma LengthAgainstThreshold(v: Vec3, length: real)
    requires length >= 0.0 && length * length == NormSq(v)
    ensures length > ArrowLengthThreshold <==> NormSq(v) > ArrowLengthThreshold * ArrowLengthThreshold
  {
    var t := ArrowLengthThreshold;
    assert t == 0.3 && t * t == 0.09;
    if length > t {
      MulMono(length, t, length);
      assert length * t == 0.3 * length > 0.09;
    } else {
      MulMono(length, length, t);
    }
  }

  /** Multiplying by a non-negative factor keeps the order. */
  lemma MulMono(a: real, b: real, c: real)
    requires a >= 0.0 && b <= c
    ensures a * b <= a * c
  {
    assert a * c - a * b == a * (c - b);
  }

  /** The child the Switch shows at `frame`: the frame's arrow if it is long enough, else none. */
  function SelectedChild(arrows: map<int, Arrow>, frame: int): int
  {
    if frame in arrows && LongEnough(arrows[frame]) then arrows[frame].switchIndex else ChildNone
  }

  /**
   * `children` lists the frames of `arrows` in ascending order, one Switch
   * child per arrow, and each arrow's switch index is the position of its
   * frame in that list.
   */
  ghost predicate SwitchOrder(arrows: map<int, Arrow>, children: seq<int>)
  {
    && |children| == |arrows|
    && (forall j, l :: 0 <= j < l < |children| ==> children[j] < children[l])
    && (forall k :: k in arrows <==> k in children)
    && (forall j :: 0 <= j < |children| ==> children[j] in arrows && arrows[children[j]].switchIndex == j)
  }

  /**
   * The Switch shows a child exactly when the current frame has an arrow
   * longer than the threshold, and then the child it shows is that arrow's
   * own glyph: at most one arrow is ever visible, and never a short one.
   */
  lemma SelectionShowsCurrentArrow(arrows: map<int, Arrow>, children: seq<int>, frame: int)
    requires SwitchOrder(arrows, children)
    ensures SelectedChild(arrows, frame) != ChildNone <==> frame in arrows && LongEnough(arrows[frame])
    ensures SelectedChild(arrows, frame) != ChildNone ==>
              0 <= SelectedChild(arrows, frame) < |children| && children[SelectedChild(arrows, frame)] == frame
  {
    if frame in arrows {
      var j :| 0 <= j < |children| && children[j] == frame;
      assert arrows[frame].switchIndex == j;
    }
  }

  class ArrowTrail {
    const figureName: string
    const boneName: string
    /** The frame rate the trail was built for. */
    const fps: real
    /** The arrows, keyed by frame. */
    const arrows: map<int, Arrow>
    /** The Switch's children: the frame of the arrow each child draws. */
    const children: seq<int>
    /** The Switch's selected child, or ChildNone. */
    var whichChild: int
    var active: bool
    /** The requested frame range, kept for the description. */
    var startFrame: int
    var endFrame: int

    /**
     * The children follow the frame order, and the selected child, if any,
     * is the glyph of an arrow longer than the threshold.
     */
    ghost predicate Valid()
      reads this
    {
      && SwitchOrder(arrows, children)
      && (whichChild == ChildNone || (0 <= whichChild < |children| && LongEnough(arrows[children[whichChild]])))
    }

    /**
     * Adds one Switch child per arrow in ascending frame order, giving the
     * i-th one switch index i, and marks the trail active.
     */
    constructor (figureName: string, boneName: string, fps: real, tangentialArrows: map<int, Arrow>)
      ensures Valid()
      ensures this.figureName == figureName && this.boneName == boneName && this.fps == fps
      ensures arrows == Indexed(tangentialArrows)
      ensures whichChild == ChildNone && active
      ensures startFrame == 0 && endFrame == 0
    {
      var indexed, order := AssignSwitchIndices(tangentialArrows);
      this.figureName := figureName;
      this.boneName := boneName;
      this.fps := fps;
      arrows := indexed;
      children := order;
      whichChild := ChildNone;
      active := true;
      startFrame := 0;
      endFrame := 0;
    }

    /**
     * Called on every frame change: when active, shows the frame's arrow if
     * it is longer than the threshold and otherwise hides every arrow.
     */
    method UpdateSwitch(frame: int)
      requires Valid()
      modifies this`whichChild
      ensures Valid()
      ensures whichChild == if active then SelectedChild(arrows, frame) else old(whichChild)
    {
      if active {
        if frame in arrows {
          var arrow := arrows[frame];
          if LongEnough(arrow) {
            SelectionShowsCurrentArrow(arrows, children, frame);
            whichChild := arrow.switchIndex;
          } else {
            whichChild := ChildNone;
          }
        } else {
          whichChild := ChildNone;
        }
      }
    }

    method SetStartAndEnd(startFrame: int, endFrame: int)
      modifies this`startFrame, this`endFrame
      ensures this.startFrame == startFrame && this.endFrame == endFrame
    {
      this.startFrame := startFrame;
      this.endFrame := endFrame;
    }

    /** toString. */
    function Description(): string
      reads this
    {
      Text.Description(figureName, boneName, startFrame, endFrame)
    }
  }

  /**
   * The constructor's loop over the arrows in ascending frame order: adds a
   * Switch child for each and gives the i-th arrow switch index i.
   */
  method AssignSwitchIndices(tangentialArrows: map<int, Arrow>) returns (indexed: map<int, Arrow>, children: seq<int>)
    ensures indexed == Indexed(tangentialArrows)
    ensures SwitchOrder(indexed, children)
  {
    indexed := tangentialArrows;
    children := [];
    var remaining := tangentialArrows.Keys;
    while remaining != {}
      invariant Numbered(tangentialArrows, remaining, indexed, children)
      decreases |remaining|
    {
      var ta := NextKey(remaining);
      NumberedStep(tangentialArrows, remaining, indexed, children, ta);
      indexed := indexed[ta := indexed[ta].(switchIndex := |children|)];
      children := children + [ta];
      remaining := remaining - {ta};
    }
    NumberedDone(tangentialArrows, indexed, children);
  }

  /**
   * The state of that loop: the frames no longer `remaining` are numbered,
   * they are all below the remaining ones, and `children` lists them in
   * ascending order.
   */
  ghost predicate Numbered(m: map<int, Arrow>, remaining: set<int>, indexed: map<int, Arrow>, children: seq<int>)
  {
    var done := m.Keys - remaining;
    && remaining <= m.Keys
    && |children| == |done|
    && (forall x, y :: x in done && y in remaining ==> x < y)
    && (forall j :: 0 <= j < |children| ==> children[j] in done)
    && (forall k :: k in done ==> k in children)
    && (forall j, l :: 0 <= j < l < |children| ==> children[j] < children[l])
    && (forall j :: 0 <= j < |children| ==> Rank(m.Keys, children[j]) == j)
    && indexed.Keys == m.Keys
    && (forall k :: k in remaining ==> indexed[k] == m[k])
    && (forall k :: k in done ==> indexed[k] == m[k].(switchIndex := Rank(m.Keys, k)))
  }

  /** Numbering the least remaining frame next keeps the loop state. */
  lemma NumberedStep(m: map<int, Arrow>, remaining: set<int>, indexed: map<int, Arrow>, children: seq<int>, next: int)
    requires Numbered(m, remaining, indexed, children)
    requires next in remaining && forall x :: x in remaining ==> next <= x
    ensures Numbered(m, remaining - {next}, indexed[next := indexed[next].(switchIndex := |children|)], children + [next])
  {
    var keys := m.Keys;
    var done := keys - remaining;
    var remaining' := remaining - {next};
    var done' := keys - remaining';
    assert done' == done + {next} && next !in done;
    RankOfNext(keys, remaining, next);
    StepOrder(done, remaining, children, next);
    StepRanks(keys, children, next);
    StepArrows(m, remaining, indexed, next, |children|);
  }

  /** The ordering facts of the loop state carry over to the next step. */
  lemma StepOrder(done: set<int>, remaining: set<int>, children: seq<int>, next: int)
    requires next in remaining && next !in done && forall x :: x in remaining ==> next <= x
    requires |children| == |done|
    requires forall x, y :: x in done && y in remaining ==> x < y
    requires forall j :: 0 <= j < |children| ==> children[j] in done
    requires forall k :: k in done ==> k in children
    requires forall j, l :: 0 <= j < l < |children| ==> children[j] < children[l]
    ensures |children + [next]| == |done + {next}|
    ensures forall x, y :: x in done + {next} && y in remaining - {next} ==> x < y
    ensures forall j :: 0 <= j < |children + [next]| ==> (children + [next])[j] in done + {next}
    ensures forall k :: k in done + {next} ==> k in children + [next]
    ensures forall j, l :: 0 <= j < l < |children + [next]| ==> (children + [next])[j] < (children + [next])[l]
  {
    forall j | 0 <= j < |children|
      ensures children[j] < next
    {
      assert children[j] in done;
    }
  }

  /** The frame numbered next gets the rank that equals its place in the list. */
  lemma StepRanks(keys: set<int>, children: seq<int>, next: int)
    requires forall j :: 0 <= j < |children| ==> Rank(keys, children[j]) == j
    requires Rank(keys, next) == |children|
    ensures forall j :: 0 <= j < |children + [next]| ==> Rank(keys, (children + [next])[j]) == j
  {
  }

  /** Giving `next` its rank keeps the numbered and the untouched arrows as the loop state says. */
  lemma StepArrows(m: map<int, Arrow>, remaining: set<int>, indexed: map<int, Arrow>, next: int, index: int)
    requires remaining <= m.Keys && next in remaining
    requires Rank(m.Keys, next) == index
    requires indexed.Keys == m.Keys
    requires forall k :: k in remaining ==> indexed[k] == m[k]
    requires forall k :: k in m.Keys - remaining ==> indexed[k] == m[k].(switchIndex := Rank(m.Keys, k))
    ensures indexed[next := indexed[next].(switchIndex := index)].Keys == m.Keys
    ensures forall k :: k in remaining - {next} ==> indexed[next := indexed[next].(switchIndex := index)][k] == m[k]
    ensures forall k :: k in m.Keys - (remaining - {next}) ==>
              indexed[next := indexed[next].(switchIndex := index)][k] == m[k].(switchIndex := Rank(m.Keys, k))
  {
  }

  /** When nothing remains, every arrow is numbered and the children are complete. */
  lemma NumberedDone(m: map<int, Arrow>, indexed: map<int, Arrow>, children: seq<int>)
    requires Numbered(m, {}, indexed, children)
    ensures indexed == Indexed(m)
    ensures SwitchOrder(indexed, children)
  {
    assert m.Keys - {} == m.Keys;
  }

  /**
   * When the keys below the least remaining one are exactly those already
   * visited, that key's rank is the number visited.
   */
  lemma RankOfNext(keys: set<int>, remaining: set<int>, next: int)
    requires remaining <= keys && next in remaining
    requires forall x :: x in remaining ==> next <= x
    requires forall x, y :: x in keys - remaining && y in remaining ==> x < y
    ensures Rank(keys, next) == |keys - remaining|
  {
    var below := set x | x in keys && x < next;
    assert below == keys - remaining;
  }
}
