/**
 * The collaborators the controller talks to, reduced to what it uses: a
 * figure's player (current frame, frame rate, seeking by frame or by
 * time), its skeleton's bones (a world position per frame and a length),
 * and the figure manager's list of figures, searched by name (getFigure).
 */
module Figures {
  import opened Wrappers
  import opened Vectors

  type PositiveReal = r: real | r > 0.0 witness 1.0

  /** The frame a player lands on when sent to time `t` (seconds) at `fps` frames per second. */
  function FrameAtTime(t: real, fps: real): int
  {
    (t * fps).Floor
  }

  /** Sending the player to the time of frame `n` lands it on frame `n`. */
  lemma TimeOfFrameRoundTrip(n: int, fps: PositiveReal)
    ensures FrameAtTime(n as real / fps, fps) == n
  {
    assert n as real / fps * fps == n as real;
  }

  /** A figure's animation player. */
  class Player {
    const fps: PositiveReal
    var currentFrame: int
    /** The argument of the last gotoTime call. */
    var lastSeekTime: real

    constructor (fps: PositiveReal, frame: int)
      ensures this.fps == fps && currentFrame == frame && lastSeekTime == 0.0
    {
      this.fps := fps;
      currentFrame := frame;
      lastSeekTime := 0.0;
    }

    method GotoFrame(frame: int)
      modifies this
      ensures currentFrame == frame
      ensures lastSeekTime == old(lastSeekTime)
    {
      currentFrame := frame;
    }

    method GotoTime(t: real)
      modifies this
      ensures lastSeekTime == t
      ensures currentFrame == FrameAtTime(t, fps)
    {
      lastSeekTime := t;
      currentFrame := FrameAtTime(t, fps);
    }
  }

  /** A bone: its length and its world position at every frame of the animation. */
  datatype Bone = Bone(length: real, worldPosition: int -> Vec3)

  datatype Figure = Figure(name: string, player: Player, skeleton: map<string, Bone>)

  /** The skeleton's bone of the given name, or null. */
  function FindBone(figure: Figure, boneName: string): Option<Bone>
  {
    if boneName in figure.skeleton then Some(figure.skeleton[boneName]) else None
  }

  /** The first figure of the list with the given name, or null. */
  ghost function FirstNamed(figures: seq<Figure>, name: string): (r: Option<Figure>)
    ensures r.None? <==> forall i :: 0 <= i < |figures| ==> figures[i].name != name
    ensures r.Some? ==> exists i :: 0 <= i < |figures| && figures[i] == r.value && r.value.name == name &&
                          forall j :: 0 <= j < i ==> figures[j].name != name
  {
    if figures == [] then None
    else if figures[0].name == name then Some(figures[0])
    else
      var r := FirstNamed(figures[1..], name);
      assert r.Some? ==> exists i :: 0 <= i < |figures[1..]| && figures[1..][i] == r.value && r.value.name == name &&
                          forall j :: 0 <= j < i ==> figures[1..][j].name != name;
      r
  }

  /** getFigure: scans the figure list and returns the first figure with an equal name, or null. */
  method FindFigure(figures: seq<Figure>, figureName: string) returns (r: Option<Figure>)
    ensures r == FirstNamed(figures, figureName)
  {
    var i := 0;
    while i < |figures|
      invariant 0 <= i <= |figures|
      invariant FirstNamed(figures, figureName) == FirstNamed(figures[i..], figureName)
    {
      if figures[i].name == figureName {
        return Some(figures[i]);
      }
      assert figures[i..][1..] == figures[i + 1..];
      i := i + 1;
    }
    return None;
  }
}
