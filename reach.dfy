/** The two tests of src/lib/robotBuildLogic.tsx that decide whether the robot may lay a
    brick: the brick must be supported by the course below, and it must lie inside the
    robot's reach envelope. */
module Reach {
  import opened Geometry

  /** Brick `b` is built, lies on baseline `belowY`, and covers `xEdge` (closed interval). */
  predicate SupportsEdge(b: Brick, belowY: int, xEdge: int) {
    b.built && b.y == belowY && b.x <= xEdge <= b.x + b.length
  }

  /** Some brick of `s` supports the edge at `xEdge` from baseline `belowY`. */
  ghost predicate EdgeCovered(s: seq<Brick>, belowY: int, xEdge: int) {
    exists i :: 0 <= i < |s| && SupportsEdge(s[i], belowY, xEdge)
  }

  /** `isSupported(xEdge)`: `allBricks.some(...)`, scanned left to right. */
  function IsSupported(s: seq<Brick>, belowY: int, xEdge: int): (r: bool)
    ensures r <==> EdgeCovered(s, belowY, xEdge)
  {
    if s == [] then false
    else if SupportsEdge(s[0], belowY, xEdge) then true
    else
      var rest := IsSupported(s[1..], belowY, xEdge);
      assert rest ==> EdgeCovered(s, belowY, xEdge) by {
        if rest {
          var i :| 0 <= i < |s| - 1 && SupportsEdge(s[1..][i], belowY, xEdge);
          assert SupportsEdge(s[i + 1], belowY, xEdge);
        }
      }
      assert forall i :: 1 <= i < |s| ==> s[i] == s[1..][i - 1];
      rest
  }

  /** `brickCanBeBuilt`: a brick on the ground is always supported; any other brick needs
      both bottom edges covered by built bricks of the course directly below it (the two
      edges may rest on different bricks). */
  function BrickCanBeBuilt(b: Brick, all: seq<Brick>): (r: bool)
    ensures b.y == 0 ==> r
    ensures b.y != 0 ==>
      (r <==> EdgeCovered(all, b.y - COURSE_HEIGHT, b.x) && EdgeCovered(all, b.y - COURSE_HEIGHT, b.x + b.length))
  {
    if b.y == 0 then true
    else
      var belowY := b.y - (BRICK_HEIGHT + BED_JOINT);
      IsSupported(all, belowY, b.x) && IsSupported(all, belowY, b.x + b.length)
  }

  /** The reach envelope centred on robot position `r` contains point (px, py). */
  predicate InEnvelope(r: Pos, px: int, py: int) {
    r.x - ENVELOPE_WIDTH / 2 <= px <= r.x + ENVELOPE_WIDTH / 2
    && r.y - ENVELOPE_HEIGHT / 2 <= py <= r.y + ENVELOPE_HEIGHT / 2
  }

  /** Point (px, py) lies in the rectangle of brick `b`. */
  predicate InBrick(b: Brick, px: int, py: int) {
    b.x <= px <= b.x + b.length && b.y <= py <= b.y + BRICK_HEIGHT
  }

  /** `fitsWithinRobotWindow`: the four comparisons of the source. */
  predicate FitsWithinRobotWindow(b: Brick, r: Pos) {
    && b.x >= r.x - ENVELOPE_WIDTH / 2
    && b.x + b.length <= r.x + ENVELOPE_WIDTH / 2
    && b.y >= r.y - ENVELOPE_HEIGHT / 2
    && b.y + BRICK_HEIGHT <= r.y + ENVELOPE_HEIGHT / 2
  }

  /** The four comparisons say exactly that the whole brick rectangle lies in the envelope. */
  lemma FitsIffContained(b: Brick, r: Pos)
    requires b.length >= 0
    ensures FitsWithinRobotWindow(b, r) <==> forall px, py :: InBrick(b, px, py) ==> InEnvelope(r, px, py)
  {
    if forall px, py :: InBrick(b, px, py) ==> InEnvelope(r, px, py) {
      assert InBrick(b, b.x, b.y) && InBrick(b, b.x + b.length, b.y + BRICK_HEIGHT);
    }
  }

  /** Brick `i` of `s` is what one build step may lay from robot position `r`: unbuilt, in the
      envelope, and supported by the bricks of `s`. */
  predicate Buildable(s: seq<Brick>, i: int, r: Pos)
    requires 0 <= i < |s|
  {
    !s[i].built && FitsWithinRobotWindow(s[i], r) && BrickCanBeBuilt(s[i], s)
  }

  /** `buildable[0]` of the filter chain unbuilt -> inWindow -> buildable, as an index into `s`. */
  function FirstBuildable(s: seq<Brick>, r: Pos): (k: Option<nat>)
    ensures k.Some? ==> k.value < |s| && Buildable(s, k.value, r)
    ensures k.Some? ==> forall j :: 0 <= j < k.value ==> !Buildable(s, j, r)
    ensures k.None? ==> forall j :: 0 <= j < |s| ==> !Buildable(s, j, r)
  {
    FirstBuildableFrom(s, r, 0)
  }

  function FirstBuildableFrom(s: seq<Brick>, r: Pos, from: nat): (k: Option<nat>)
    requires from <= |s|
    requires forall j :: 0 <= j < from ==> !Buildable(s, j, r)
    ensures k.Some? ==> from <= k.value < |s| && Buildable(s, k.value, r)
    ensures k.Some? ==> forall j :: 0 <= j < k.value ==> !Buildable(s, j, r)
    ensures k.None? ==> forall j :: 0 <= j < |s| ==> !Buildable(s, j, r)
    decreases |s| - from
  {
    if from == |s| then None
    else if Buildable(s, from, r) then Some(from)
    else FirstBuildableFrom(s, r, from + 1)
  }
}
