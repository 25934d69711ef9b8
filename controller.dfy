/**
 * HandDirectionController: samples a bone's trajectory into arrows, turns
 * them into an arrow trail, and keeps the list of trails, adding and
 * removing them on request.
 */
module Controller {
  import opened Wrappers
  import opened Vectors
  import opened Arrows
  import opened Figures
  import Estimator
  import Trails

  /**
   * The arrows sampled for frames `s..e` of a bone: one per frame, keyed by
   * the frame, with the bone's length as scale and the bone's world
   * position at that frame.
   */
  ghost function Samples(bone: Bone, s: int, e: int): map<int, Arrow>
  {
    map f | s <= f <= e :: NewArrow(f, bone.length, bone.worldPosition(f))
  }

  /** What sampling gives for a bone that may be missing: no bone, no arrows. */
  ghost function Sampled(bone: Option<Bone>, s: int, e: int): map<int, Arrow>
  {
    if bone.None? then map[] else Samples(bone.value, s, e)
  }

  /**
   * Sampling a found bone gives exactly one arrow per frame of `s..e`, each
   * carrying its own frame, the bone's length and the bone's position there,
   * with no direction yet; a missing bone or an empty range gives none.
   */
  lemma SampledShape(bone: Option<Bone>, s: int, e: int)
    ensures bone.None? || e < s ==> Sampled(bone, s, e) == map[]
    ensures bone.Some? ==> forall f :: f in Sampled(bone, s, e) <==> s <= f <= e
    ensures bone.Some? && s <= e ==> |Sampled(bone, s, e)| == e - s + 1
    ensures forall f :: f in Sampled(bone, s, e) ==>
              && Sampled(bone, s, e)[f].frame == f
              && Sampled(bone, s, e)[f].scale == bone.value.length
              && Sampled(bone, s, e)[f].position == bone.value.worldPosition(f)
              && Sampled(bone, s, e)[f].direction == Unset
  {
    if bone.Some? {
      SamplesSize(bone.value, s, e);
    }
  }

  /** Sampling one more frame adds that frame's arrow. */
  lemma SamplesExtend(bone: Bone, s: int, e: int)
    requires s <= e + 1
    ensures Samples(bone, s, e + 1) == Samples(bone, s, e)[e + 1 := NewArrow(e + 1, bone.length, bone.worldPosition(e + 1))]
  {
  }

  /** A bone sampled over `s..e` gives `e - s + 1` arrows, and none when `e < s`. */
  lemma {:induction false} SamplesSize(bone: Bone, s: int, e: int)
    ensures e < s ==> Samples(bone, s, e) == map[]
    ensures s <= e ==> |Samples(bone, s, e)| == e - s + 1
    decreases e - s
  {
    if s <= e {
      SamplesSize(bone, s, e - 1);
      SamplesExtend(bone, s, e - 1);
      assert e !in Samples(bone, s, e - 1);
    } else {
      assert Samples(bone, s, e) == map[];
    }
  }

  /** The position of the first occurrence of `x` in `s`. */
  function FirstIndex<T(==)>(s: seq<T>, x: T): (i: nat)
    requires x in s
    ensures i < |s| && s[i] == x && x !in s[..i]
  {
    if s[0] == x then 0 else 1 + FirstIndex(s[1..], x)
  }

  /**
   * List.remove(Object): drops the first occurrence of `x`, keeping every
   * other element in order; a list without `x` is left as it is.
   */
  function RemoveFirst<T(==)>(s: seq<T>, x: T): (r: seq<T>)
    ensures x !in s ==> r == s
    ensures x in s ==> |r| == |s| - 1
    ensures x in s ==> forall k :: 0 <= k < |r| ==> r[k] == if k < FirstIndex(s, x) then s[k] else s[k + 1]
  {
    if x in s then s[..FirstIndex(s, x)] + s[FirstIndex(s, x) + 1..] else s
  }

  /** The elements of a list, as a set. */
  ghost function Elements<T>(s: seq<T>): set<T>
  {
    set i | 0 <= i < |s| :: s[i]
  }

  /** Appending `x` adds `x` to the elements. */
  lemma ElementsAppend<T>(s: seq<T>, x: T)
    ensures Elements(s + [x]) == Elements(s) + {x}
  {
    assert (s + [x])[|s|] == x;
    forall y | y in Elements(s)
      ensures y in Elements(s + [x])
    {
      var i :| 0 <= i < |s| && s[i] == y;
      assert (s + [x])[i] == y;
    }
  }

  /**
   * In a list without repetitions, removing `x` drops exactly `x` from the
   * elements and leaves a list without repetitions.
   */
  lemma RemoveFromDistinct<T>(s: seq<T>, x: T)
    requires forall i, j :: 0 <= i < j < |s| ==> s[i] != s[j]
    ensures Elements(RemoveFirst(s, x)) == Elements(s) - {x}
    ensures forall i, j :: 0 <= i < j < |RemoveFirst(s, x)| ==> RemoveFirst(s, x)[i] != RemoveFirst(s, x)[j]
  {
    var r := RemoveFirst(s, x);
    if x in s {
      var n := FirstIndex(s, x);
      forall y | y in Elements(s) - {x}
        ensures y in Elements(r)
      {
        var k :| 0 <= k < |s| && s[k] == y;
        if k < n { assert r[k] == y; } else { assert r[k - 1] == y; }
      }
      forall y | y in Elements(r)
        ensures y in Elements(s) - {x}
      {
        var k :| 0 <= k < |r| && r[k] == y;
        if k < n { assert s[k] == y; } else { assert s[k + 1] == y; }
      }
    }
  }

  /** Removing an element that was just appended to a list without it gives the list back. */
  lemma RemoveAppended<T>(s: seq<T>, x: T)
    requires x !in s
    ensures RemoveFirst(s + [x], x) == s
  {
    assert FirstIndex(s + [x], x) == |s| by {
      assert (s + [x])[..|s|] == s;
    }
  }

  /** The first trail of the list whose description is `s`, or none (the toString lookup). */
  ghost function FirstDescribed(ts: seq<Trails.ArrowTrail>, s: string): (r: Option<Trails.ArrowTrail>)
    reads ts
    ensures r.None? <==> forall i :: 0 <= i < |ts| ==> ts[i].Description() != s
    ensures r.Some? ==> exists i :: 0 <= i < |ts| && ts[i] == r.value && r.value.Description() == s &&
                          forall j :: 0 <= j < i ==> ts[j].Description() != s
  {
    if ts == [] then None
    else if ts[0].Description() == s then Some(ts[0])
    else
      var r := FirstDescribed(ts[1..], s);
      assert r.Some? ==> exists i :: 0 <= i < |ts[1..]| && ts[1..][i] == r.value && r.value.Description() == s &&
                          forall j :: 0 <= j < i ==> ts[1..][j].Description() != s;
      r
  }

  class HandDirectionController {
    /** The figure manager's figures. */
    const figures: seq<Figure>
    /** The trails, in the order they were added. */
    var trails: seq<Trails.ArrowTrail>
    /** The trails whose listener is registered with their figure's player. */
    ghost var listening: set<Trails.ArrowTrail>

    ghost predicate Valid()
      reads this, trails
    {
      && (forall i, j :: 0 <= i < j < |trails| ==> trails[i] != trails[j])
      && listening == Elements(trails)
      && (forall t :: t in trails ==> t.Valid())
    }

    constructor (figures: seq<Figure>)
      ensures Valid()
      ensures this.figures == figures && trails == [] && listening == {}
    {
      this.figures := figures;
      trails := [];
      listening := {};
    }

    /** The player of the figure named `figureName`, if there is one. */
    ghost function PlayerOf(figureName: string): set<Player>
    {
      var found := FirstNamed(figures, figureName);
      if found.Some? then {found.value.player} else {}
    }

    /**
     * getNewTangentialArrows: moves the figure's player through every frame
     * of the range, records one arrow per frame at the bone's position, and
     * finally sends the player to the time of the frame it started on.
     * An unknown figure fails before anything happens.
     */
    method NewTangentialArrows(startFrame: int, endFrame: int, figureName: string, boneName: string)
      returns (r: Option<map<int, Arrow>>)
      modifies PlayerOf(figureName)
      ensures r.Some? <==> FirstNamed(figures, figureName).Some?
      ensures r.Some? ==>
                var figure := FirstNamed(figures, figureName).value;
                && r.value == Sampled(FindBone(figure, boneName), startFrame, endFrame)
                && figure.player.lastSeekTime == old(figure.player.currentFrame) as real / figure.player.fps
                && figure.player.currentFrame == old(figure.player.currentFrame)
    {
      var found := FindFigure(figures, figureName);
      if found.None? {
        return None;
      }
      var figure := found.value;
      var player := figure.player;
      var bone := FindBone(figure, boneName);
      var saved := player.currentFrame;
      var arrows: map<int, Arrow> := map[];
      if bone.Some? {
        var i := startFrame;
        while i <= endFrame
          invariant startFrame <= i <= if startFrame <= endFrame then endFrame + 1 else startFrame
          invariant arrows == Samples(bone.value, startFrame, i - 1)
        {
          player.GotoFrame(i);
          var position := bone.value.worldPosition(player.currentFrame);
          SamplesExtend(bone.value, startFrame, i - 1);
          arrows := arrows[i := NewArrow(i, bone.value.length, position)];
          i := i + 1;
        }
        if startFrame > endFrame {
          SamplesSize(bone.value, startFrame, i - 1);
          SamplesSize(bone.value, startFrame, endFrame);
        }
      }
      player.GotoTime(saved as real / player.fps);
      TimeOfFrameRoundTrip(saved, player.fps);
      r := Some(arrows);
    }

    /**
     * addTaArMap: samples the bone over the range, estimates the arrows'
     * directions at the player's frame rate, builds a trail from them,
     * registers its listener, appends it to the list and records the range.
     * An unknown figure fails before anything changes.
     */
    method AddTrail(startFrame: int, endFrame: int, figureName: string, boneName: string) returns (ok: bool)
      requires Valid()
      modifies this, PlayerOf(figureName)
      ensures Valid()
      ensures ok <==> FirstNamed(figures, figureName).Some?
      ensures !ok ==> trails == old(trails) && listening == old(listening)
      ensures ok ==> |trails| == |old(trails)| + 1
      ensures ok ==>
                var figure := FirstNamed(figures, figureName).value;
                var trail := trails[|trails| - 1];
                && trails[..|old(trails)|] == old(trails)
                && fresh(trail)
                && trail.figureName == figureName && trail.boneName == boneName
                && trail.fps == figure.player.fps
                && trail.arrows == Indexed(Estimator.Estimated(
                                     Sampled(FindBone(figure, boneName), startFrame, endFrame),
                                     Estimator.Rate(figure.player.fps)))
                && trail.whichChild == Trails.ChildNone && trail.active
                && trail.startFrame == startFrame && trail.endFrame == endFrame
                && listening == old(listening) + {trail}
                && figure.player.currentFrame == old(figure.player.currentFrame)
    {
      var found := FindFigure(figures, figureName);
      if found.None? {
        return false;
      }
      var fps := found.value.player.fps;
      var sampled := NewTangentialArrows(startFrame, endFrame, figureName, boneName);
      SampledShape(FindBone(found.value, boneName), startFrame, endFrame);
      var estimated := Estimator.AddAngles(sampled.value, fps);
      var trail := new Trails.ArrowTrail(figureName, boneName, fps, estimated);
      ElementsAppend(trails, trail);
      listening := listening + {trail};
      trails := trails + [trail];
      trail.SetStartAndEnd(startFrame, endFrame);
      ok := true;
    }

    /**
     * removeTaArMap(ArrowTrail): unregisters the trail's listener and drops
     * the trail from the list. The lookup of the trail's figure comes
     * first, so an unknown figure fails before anything changes.
     */
    method RemoveTrail(trail: Trails.ArrowTrail) returns (ok: bool)
      requires Valid()
      modifies this
      ensures Valid()
      ensures ok <==> FirstNamed(figures, trail.figureName).Some?
      ensures ok ==> trails == RemoveFirst(old(trails), trail) && listening == old(listening) - {trail}
      ensures !ok ==> trails == old(trails) && listening == old(listening)
    {
      var found := FindFigure(figures, trail.figureName);
      if found.None? {
        return false;
      }
      RemoveFromDistinct(trails, trail);
      listening := listening - {trail};
      trails := RemoveFirst(trails, trail);
      ok := true;
    }

    /**
     * removeTaArMap(String): scans the trails for one whose description is
     * `description` and removes the first such trail as removeTaArMap(ArrowTrail)
     * does; when none matches nothing changes.
     */
    method RemoveTrailByDescription(description: string) returns (ok: bool)
      requires Valid()
      modifies this
      ensures Valid()
      ensures var hit := old(FirstDescribed(trails, description));
              && (ok <==> hit.Some? && FirstNamed(figures, hit.value.figureName).Some?)
              && (ok ==> trails == RemoveFirst(old(trails), hit.value) && listening == old(listening) - {hit.value})
              && (!ok ==> trails == old(trails) && listening == old(listening))
    {
      var i := 0;
      while i < |trails|
        invariant 0 <= i <= |trails|
        invariant FirstDescribed(trails, description) == FirstDescribed(trails[i..], description)
      {
        var trail := trails[i];
        if trail.Description() == description {
          ok := RemoveTrail(trail);
          return;
        }
        assert trails[i..][1..] == trails[i + 1..];
        i := i + 1;
      }
      ok := false;
    }
  }
}
