/** `doNextBuildStep` of src/lib/robotBuildLogic.tsx: the state the page keeps between steps
    (the bricks, the robot position, the stride counter and the busy flag) and one step of
    the build, which either lays a brick or moves the robot. */
module Driver {
  import opened Geometry
  import opened Reach
  import opened Planner

  /** What a step did: nothing because a step was running, the toast for a finished wall,
      laid brick `index`, moved the robot, or found no better position to move to. */
  datatype StepOutcome = Busy | WallComplete | Built(index: nat) | Moved(to: Pos) | Stayed

  /** A built brick records the stride it was laid in, a stride not after the current one;
      an unbuilt brick records none. */
  predicate StrideRecorded(b: Brick, strideCount: int) {
    (b.built <==> b.builtDuringStrideNr.Some?)
    && (b.builtDuringStrideNr.Some? ==> 1 <= b.builtDuringStrideNr.value <= strideCount + 1)
  }

  /** Brick `i` of `s` laid during stride `strideNr`. */
  function Lay(s: seq<Brick>, i: nat, strideNr: int): seq<Brick>
    requires i < |s|
  {
    s[i := s[i].(built := true, builtDuringStrideNr := Some(strideNr))]
  }

  /** Laying a brick takes no support away: whatever could be built before still can. */
  lemma LayKeepsSupport(s: seq<Brick>, i: nat, strideNr: int, b: Brick)
    requires i < |s|
    ensures BrickCanBeBuilt(b, s) ==> BrickCanBeBuilt(b, Lay(s, i, strideNr))
  {
    var t := Lay(s, i, strideNr);
    if b.y != 0 && BrickCanBeBuilt(b, s) {
      var belowY := b.y - COURSE_HEIGHT;
      forall xEdge | EdgeCovered(s, belowY, xEdge) ensures EdgeCovered(t, belowY, xEdge) {
        var j :| 0 <= j < |s| && SupportsEdge(s[j], belowY, xEdge);
        assert SupportsEdge(t[j], belowY, xEdge);
      }
      assert EdgeCovered(t, belowY, b.x) && EdgeCovered(t, belowY, b.x + b.length);
    }
  }

  /** Brick `i` is an unbuilt brick, no wider than the envelope, of the lowest incomplete
      course, which is one of the wall's courses. */
  predicate InTargetCourse(wall: seq<Brick>, i: nat)
    requires i < |wall|
  {
    && !wall[i].built && 0 <= wall[i].length <= ENVELOPE_WIDTH
    && LowestIncompleteCourse(wall) < NROWS && wall[i].y == CourseY(LowestIncompleteCourse(wall))
  }

  /** The session invariant on the bricks: every brick's stride record agrees with its built
      flag and the stride counter, and every built brick rests on the built bricks below it. */
  ghost predicate SessionWall(s: seq<Brick>, strideCount: int) {
    && strideCount >= 0
    && (forall i :: 0 <= i < |s| ==> StrideRecorded(s[i], strideCount))
    && (forall i :: 0 <= i < |s| && s[i].built ==> BrickCanBeBuilt(s[i], s))
  }

  /** Laying a buildable brick with the next stride number keeps the invariant ... */
  lemma LayKeepsSessionWall(s: seq<Brick>, i: nat, strideCount: int)
    requires SessionWall(s, strideCount) && i < |s| && !s[i].built && BrickCanBeBuilt(s[i], s)
    ensures SessionWall(Lay(s, i, strideCount + 1), strideCount)
  {
    var t := Lay(s, i, strideCount + 1);
    forall k | 0 <= k < |t|
      ensures StrideRecorded(t[k], strideCount)
    {
      if k != i {
        assert t[k] == s[k];
      }
    }
    forall k | 0 <= k < |t| && t[k].built
      ensures BrickCanBeBuilt(t[k], t)
    {
      LayKeepsSupport(s, i, strideCount + 1, s[k]);
      SameFootprint(t[k], s[k], t);
    }
  }

  /** Support depends only on where a brick lies, not on its build state. */
  lemma SameFootprint(a: Brick, b: Brick, s: seq<Brick>)
    requires a.x == b.x && a.y == b.y && a.length == b.length
    ensures BrickCanBeBuilt(a, s) == BrickCanBeBuilt(b, s)
  {
  }

  /** ... and so does counting a stride. */
  lemma NextStrideKeepsSessionWall(s: seq<Brick>, strideCount: int)
    requires SessionWall(s, strideCount)
    ensures SessionWall(s, strideCount + 1)
  {
  }

  /** If the robot has nothing to lay and the planner keeps it where it is, then no unbuilt
      brick of the lowest incomplete course that is no wider than the envelope is supported:
      the only way a step can make no progress. */
  lemma StayedMeansStuck(wall: seq<Brick>, robot: Pos)
    requires FirstBuildable(wall, robot).None? && PlannedPosition(wall, robot) == robot
    ensures forall i :: 0 <= i < |wall| && InTargetCourse(wall, i) ==> !BrickCanBeBuilt(wall[i], wall)
  {
    forall i | 0 <= i < |wall| && InTargetCourse(wall, i)
      ensures !BrickCanBeBuilt(wall[i], wall)
    {
      if BrickCanBeBuilt(wall[i], wall) {
        PlannedPositionProgress(wall, robot, i);
      }
    }
  }

  /** The state after a step and what the step did. */
  datatype StepResult = StepResult(outcome: StepOutcome, bricks: seq<Brick>, robot: Pos, strideCount: int)

  /** One step of `doNextBuildStep` on a session that is not busy. */
  function BuildStep(bricks: seq<Brick>, robot: Pos, strideCount: int): StepResult {
    if NumUnbuilt(bricks) == 0 then StepResult(WallComplete, bricks, robot, strideCount)
    else
      match FirstBuildable(bricks, robot)
      case Some(i) => StepResult(Built(i), Lay(bricks, i, strideCount + 1), robot, strideCount)
      case None =>
        var p := PlannedPosition(bricks, robot);
        if p != robot then StepResult(Moved(p), bricks, p, strideCount + 1)
        else StepResult(Stayed, bricks, robot, strideCount)
  }

  /** A finished wall: the toast, and nothing changes. */
  lemma StepOnCompleteWall(bricks: seq<Brick>, robot: Pos, strideCount: int)
    requires forall i :: 0 <= i < |bricks| ==> bricks[i].built
    ensures BuildStep(bricks, robot, strideCount) == StepResult(WallComplete, bricks, robot, strideCount)
  {
    AllBuiltNoneUnbuilt(bricks);
  }

  lemma {:induction false} AllBuiltNoneUnbuilt(s: seq<Brick>)
    requires forall i :: 0 <= i < |s| ==> s[i].built
    ensures NumUnbuilt(s) == 0
  {
    if s != [] {
      AllBuiltNoneUnbuilt(s[1..]);
    }
  }

  /** With a brick in reach the step lays exactly one brick, the first buildable one in
      array order, with the next stride number; nothing else about the wall changes, and the
      robot and the stride counter stay. */
  lemma StepLaysFirstBuildable(bricks: seq<Brick>, robot: Pos, strideCount: int, i: nat)
    requires i < |bricks| && Buildable(bricks, i, robot)
    requires forall j :: 0 <= j < i ==> !Buildable(bricks, j, robot)
    ensures var r := BuildStep(bricks, robot, strideCount);
      && r.outcome == Built(i) && r.robot == robot && r.strideCount == strideCount
      && |r.bricks| == |bricks|
      && (forall k :: 0 <= k < |bricks| && k != i ==> r.bricks[k] == bricks[k])
      && r.bricks[i] == Brick(bricks[i].x, bricks[i].y, bricks[i].length, true, Some(strideCount + 1))
  {
    UnbuiltCounted(bricks, i);
  }

  lemma {:induction false} UnbuiltCounted(s: seq<Brick>, i: nat)
    requires i < |s| && !s[i].built
    ensures NumUnbuilt(s) > 0
  {
    if i > 0 {
      UnbuiltCounted(s[1..], i - 1);
    }
  }

  /** With nothing in reach the wall stays as it is; the robot moves to the planned position
      and one stride is counted, unless the planned position is where the robot already is,
      in which case nothing changes at all. */
  lemma StepRelocates(bricks: seq<Brick>, robot: Pos, strideCount: int)
    requires NumUnbuilt(bricks) > 0 && forall j :: 0 <= j < |bricks| ==> !Buildable(bricks, j, robot)
    ensures var r := BuildStep(bricks, robot, strideCount);
      && r.bricks == bricks
      && (PlannedPosition(bricks, robot) != robot ==>
            r.outcome == Moved(PlannedPosition(bricks, robot)) && r.robot == PlannedPosition(bricks, robot)
            && r.strideCount == strideCount + 1)
      && (PlannedPosition(bricks, robot) == robot ==> r == StepResult(Stayed, bricks, robot, strideCount))
  {
  }

  /** Every step keeps the session invariant. */
  lemma BuildStepKeepsSessionWall(bricks: seq<Brick>, robot: Pos, strideCount: int)
    requires SessionWall(bricks, strideCount)
    ensures SessionWall(BuildStep(bricks, robot, strideCount).bricks, BuildStep(bricks, robot, strideCount).strideCount)
  {
    if NumUnbuilt(bricks) > 0 {
      match FirstBuildable(bricks, robot)
      case Some(i) =>
        LayKeepsSessionWall(bricks, i, strideCount);
      case None =>
        NextStrideKeepsSessionWall(bricks, strideCount);
    }
  }

  class BuildSession {
    var bricks: seq<Brick>
    var robot: Pos
    var strideCount: int
    var busy: bool

    /** A new session on a freshly generated wall, with no strides made. */
    constructor (wall: seq<Brick>, start: Pos)
      requires forall i :: 0 <= i < |wall| ==> Fresh(wall[i])
      ensures SessionWall(bricks, strideCount)
      ensures bricks == wall && robot == start && strideCount == 0 && !busy
    {
      bricks := wall;
      robot := start;
      strideCount := 0;
      busy := false;
    }

    /** One build step: nothing while another step is running; otherwise the step that
        BuildStep describes, after which the session is no longer busy. */
    method DoNextBuildStep() returns (outcome: StepOutcome)
      modifies this
      ensures old(busy) ==> outcome == Busy && unchanged(this)
      ensures !old(busy) ==> !busy
      ensures !old(busy) ==>
        StepResult(outcome, bricks, robot, strideCount) == BuildStep(old(bricks), old(robot), old(strideCount))
    {
      if busy {
        return Busy;
      }
      busy := true;

      var allBricks := bricks;
      var robotLoc := robot;
      if NumUnbuilt(allBricks) == 0 {
        busy := false;
        return WallComplete;
      }

      var next := FirstBuildable(allBricks, robotLoc);
      if next.Some? {
        var strideNr := strideCount + 1;
        bricks := Lay(allBricks, next.value, strideNr);
        outcome := Built(next.value);
      } else {
        var newRobotPos := CalculateNewRobotPosition(bricks, robot);
        if !(newRobotPos.x == robotLoc.x && newRobotPos.y == robotLoc.y) {
          robot := newRobotPos;
          strideCount := strideCount + 1;
          outcome := Moved(newRobotPos);
        } else {
          outcome := Stayed;
        }
      }
      busy := false;
    }
  }
}
