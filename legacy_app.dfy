/** The logic of the older single-file page src/App.tsx: its own stretcher generator over
    bricks that carry a kind instead of a length, its own support and reach tests, a simpler
    planner that heads for the nearest unbuilt brick, and the build step that uses it. */
module LegacyApp {
  import Geometry
  import Reach
  import Planner
  import WallGenerators
  import LegacyWallGenerators
  import Driver

  type Pos = Geometry.Pos
  type Option<T> = Geometry.Option<T>

  // The page's own sizes (210 mm and 100 mm), in half-millimetres.
  const FULL_BRICK_WIDTH: int := 420
  const HALF_BRICK_WIDTH: int := 200

  const HALF_ENVELOPE_WIDTH: int := Geometry.ENVELOPE_WIDTH / 2
  const HALF_ENVELOPE_HEIGHT: int := Geometry.ENVELOPE_HEIGHT / 2

  datatype Kind = Full | Half

  /** A brick of the page: its kind fixes its width. */
  datatype LegacyBrick = LegacyBrick(x: int, y: int, kind: Kind, built: bool, builtDuringStrideNr: Option<int>)

  /** `type === "full" ? FULL_BRICK_WIDTH : HALF_BRICK_WIDTH`. */
  function Width(k: Kind): int {
    if k == Full then FULL_BRICK_WIDTH else HALF_BRICK_WIDTH
  }

  /** The same brick with its width written out. */
  function AsBrick(b: LegacyBrick): Geometry.Brick {
    Geometry.Brick(b.x, b.y, Width(b.kind), b.built, b.builtDuringStrideNr)
  }

  function AsBricks(s: seq<LegacyBrick>): (r: seq<Geometry.Brick>)
    ensures |r| == |s| && forall i :: 0 <= i < |s| ==> r[i] == AsBrick(s[i])
  {
    if s == [] then [] else [AsBrick(s[0])] + AsBricks(s[1..])
  }

  function NewBrick(x: int, y: int, kind: Kind): LegacyBrick {
    LegacyBrick(x, y, kind, false, Geometry.None)
  }

  /** Pushing a new brick of a kind adds the slot of that kind's width. */
  lemma {:induction false} PushBrick(s: seq<LegacyBrick>, x: int, y: int, kind: Kind)
    ensures AsBricks(s + [NewBrick(x, y, kind)]) == AsBricks(s) + [Geometry.Slot(x, y, Width(kind))]
  {
    var t := s + [NewBrick(x, y, kind)];
    assert |AsBricks(t)| == |AsBricks(s) + [Geometry.Slot(x, y, Width(kind))]|;
    forall i | 0 <= i < |t|
      ensures AsBricks(t)[i] == (AsBricks(s) + [Geometry.Slot(x, y, Width(kind))])[i]
    {
      if i < |s| {
        assert t[i] == s[i];
      }
    }
  }

  // ---------------------------------------------------------------------------
  // The generator
  // ---------------------------------------------------------------------------

  /** `generateStretcherBond(nRows)` of the page. */
  method GenerateStretcherBond(nRows: nat) returns (bricks: seq<LegacyBrick>)
    ensures AsBricks(bricks) == LegacyWallGenerators.LegacyLayout(nRows, FULL_BRICK_WIDTH, HALF_BRICK_WIDTH)
  {
    bricks := [];
    for row := 0 to nRows
      invariant AsBricks(bricks) == LegacyWallGenerators.LegacyLayout(row, FULL_BRICK_WIDTH, HALF_BRICK_WIDTH)
    {
      bricks := AppendCourse(bricks, row);
    }
  }

  /** The body of the row loop. */
  method AppendCourse(bricks0: seq<LegacyBrick>, row: nat) returns (bricks: seq<LegacyBrick>)
    ensures AsBricks(bricks) == AsBricks(bricks0) + LegacyWallGenerators.LegacyCourse(row, FULL_BRICK_WIDTH, HALF_BRICK_WIDTH)
  {
    bricks := bricks0;
    var isOdd := row % 2 == 1;
    var x := 0;
    var y := Geometry.CourseY(row);  // row * COURSE_HEIGHT
    ghost var target := AsBricks(bricks) + LegacyWallGenerators.LegacyCourse(row, FULL_BRICK_WIDTH, HALF_BRICK_WIDTH);
    if isOdd {
      PushBrick(bricks, x, y, Half);
      bricks := bricks + [NewBrick(x, y, Half)];
      x := x + HALF_BRICK_WIDTH + Geometry.HEAD_JOINT;
    }
    while x + FULL_BRICK_WIDTH <= Geometry.WALL_WIDTH
      invariant AsBricks(bricks) + LegacyWallGenerators.LegacyTail(x, y, FULL_BRICK_WIDTH, HALF_BRICK_WIDTH) == target
      decreases Geometry.WALL_WIDTH - x
    {
      LegacyWallGenerators.TailStep(AsBricks(bricks), x, y, FULL_BRICK_WIDTH, HALF_BRICK_WIDTH, target);
      PushBrick(bricks, x, y, Full);
      bricks := bricks + [NewBrick(x, y, Full)];
      x := x + FULL_BRICK_WIDTH + Geometry.HEAD_JOINT;
    }
    if x <= Geometry.WALL_WIDTH - HALF_BRICK_WIDTH {
      PushBrick(bricks, x, y, Half);
      bricks := bricks + [NewBrick(x, y, Half)];
      x := x + HALF_BRICK_WIDTH + Geometry.HEAD_JOINT;
    }
  }

  /** `generateWall(pattern)` of the page: for "stretcher" a well-formed wall of
      floor(WALL_HEIGHT / COURSE_HEIGHT) courses, which is brick for brick the stretcher bond
      of src/lib/wallGenerators.ts; nothing for any other id. */
  method GenerateWall(pattern: string) returns (bricks: seq<LegacyBrick>)
    ensures pattern != "stretcher" ==> bricks == []
    ensures pattern == "stretcher" ==>
      && AsBricks(bricks) == WallGenerators.Layout(WallGenerators.Stretcher, Geometry.NROWS)
      && Geometry.WellFormedWall(AsBricks(bricks), Geometry.NROWS)
  {
    var nRows := Geometry.WALL_HEIGHT / Geometry.COURSE_HEIGHT;
    var generationFunctions := {"stretcher"};
    if pattern in generationFunctions {
      bricks := GenerateStretcherBond(nRows);
      LegacyWallGenerators.LegacyMatchesStretcher(nRows);
      LegacyWallGenerators.LegacyLayoutShape(nRows, FULL_BRICK_WIDTH, HALF_BRICK_WIDTH);
    } else {
      bricks := [];
    }
  }

  /** Brick `b` lies at the left edge of course `row`, a half brick on an odd course, a full
      brick on an even one. */
  predicate OpensCourse(b: LegacyBrick, row: nat) {
    b.y == Geometry.CourseY(row) && b.x == 0 && b.kind == OpeningKind(row)
  }

  function OpeningKind(row: nat): Kind {
    if row % 2 == 1 then Half else Full
  }

  /** Course `row` of a legacy wall of `n` courses begins right after the courses below it. */
  lemma {:induction false} CourseBegins(wall: seq<LegacyBrick>, n: nat, row: nat)
    requires AsBricks(wall) == LegacyWallGenerators.LegacyLayout(n, FULL_BRICK_WIDTH, HALF_BRICK_WIDTH)
    requires row < n
    ensures |LegacyWallGenerators.LegacyLayout(row, FULL_BRICK_WIDTH, HALF_BRICK_WIDTH)| < |wall|
    ensures AsBricks(wall)[|LegacyWallGenerators.LegacyLayout(row, FULL_BRICK_WIDTH, HALF_BRICK_WIDTH)|]
         == LegacyWallGenerators.LegacyCourse(row, FULL_BRICK_WIDTH, HALF_BRICK_WIDTH)[0]
  {
    LegacyWallGenerators.LegacyLayoutPrefix(row, n, FULL_BRICK_WIDTH, HALF_BRICK_WIDTH);
    LegacyWallGenerators.LegacyCourseLengths(row, FULL_BRICK_WIDTH, HALF_BRICK_WIDTH);
    var lower := LegacyWallGenerators.LegacyLayout(row, FULL_BRICK_WIDTH, HALF_BRICK_WIDTH);
    var c := LegacyWallGenerators.LegacyCourse(row, FULL_BRICK_WIDTH, HALF_BRICK_WIDTH);
    assert AsBricks(wall)[..|lower| + |c|] == lower + c;
    assert (lower + c)[|lower|] == c[0];
  }

  /** Odd courses of the page's wall open with a half brick at the left edge, even ones with
      a full brick there; the opening brick follows the bricks of the courses below. */
  lemma {:induction false} CourseOpening(wall: seq<LegacyBrick>, n: nat, row: nat)
    requires AsBricks(wall) == LegacyWallGenerators.LegacyLayout(n, FULL_BRICK_WIDTH, HALF_BRICK_WIDTH)
    requires row < n
    ensures |LegacyWallGenerators.LegacyLayout(row, FULL_BRICK_WIDTH, HALF_BRICK_WIDTH)| < |wall|
    ensures OpensCourse(wall[|LegacyWallGenerators.LegacyLayout(row, FULL_BRICK_WIDTH, HALF_BRICK_WIDTH)|], row)
  {
    CourseBegins(wall, n, row);
    LegacyWallGenerators.LegacyCourseShape(row, FULL_BRICK_WIDTH, HALF_BRICK_WIDTH);
    LegacyWallGenerators.LegacyCourseLengths(row, FULL_BRICK_WIDTH, HALF_BRICK_WIDTH);
  }

  // ---------------------------------------------------------------------------
  // Support and reach
  // ---------------------------------------------------------------------------

  /** `isSupported(xEdge)` of the page, with each brick's width taken from its kind. */
  function IsSupported(all: seq<LegacyBrick>, belowY: int, xEdge: int): bool {
    if all == [] then false
    else
      var b := all[0];
      var w := Width(b.kind);
      (b.built && b.y == belowY && b.x <= xEdge && b.x + w >= xEdge) || IsSupported(all[1..], belowY, xEdge)
  }

  /** `brickCanBeBuilt` of the page. */
  function BrickCanBeBuilt(brick: LegacyBrick, all: seq<LegacyBrick>): bool {
    if brick.y == 0 then true
    else
      var rightX := brick.x + Width(brick.kind);
      var belowY := brick.y - (Geometry.BRICK_HEIGHT + Geometry.BED_JOINT);
      IsSupported(all, belowY, brick.x) && IsSupported(all, belowY, rightX)
  }

  /** `fitsWithinRobotWindow` of the page. */
  predicate FitsWithinRobotWindow(brick: LegacyBrick, r: Pos) {
    var brickWidth := Width(brick.kind);
    && brick.x >= r.x - Geometry.ENVELOPE_WIDTH / 2
    && brick.x + brickWidth <= r.x + Geometry.ENVELOPE_WIDTH / 2
    && brick.y >= r.y - Geometry.ENVELOPE_HEIGHT / 2
    && brick.y + Geometry.BRICK_HEIGHT <= r.y + Geometry.ENVELOPE_HEIGHT / 2
  }

  lemma {:induction false} IsSupportedAgrees(all: seq<LegacyBrick>, belowY: int, xEdge: int)
    ensures IsSupported(all, belowY, xEdge) == Reach.IsSupported(AsBricks(all), belowY, xEdge)
  {
    if all != [] {
      IsSupportedAgrees(all[1..], belowY, xEdge);
      assert AsBricks(all)[1..] == AsBricks(all[1..]);
    }
  }

  /** The page's support test is the support test of src/lib/robotBuildLogic.tsx on the
      bricks with their widths written out. */
  lemma {:induction false} BrickCanBeBuiltAgrees(brick: LegacyBrick, all: seq<LegacyBrick>)
    ensures BrickCanBeBuilt(brick, all) == Reach.BrickCanBeBuilt(AsBrick(brick), AsBricks(all))
  {
    var belowY := brick.y - Geometry.COURSE_HEIGHT;
    IsSupportedAgrees(all, belowY, brick.x);
    IsSupportedAgrees(all, belowY, brick.x + Width(brick.kind));
  }

  /** The same for the reach test: the whole brick rectangle lies in the envelope. */
  lemma FitsAgrees(brick: LegacyBrick, r: Pos)
    ensures FitsWithinRobotWindow(brick, r) == Reach.FitsWithinRobotWindow(AsBrick(brick), r)
    ensures FitsWithinRobotWindow(brick, r) <==>
      forall px, py :: Reach.InBrick(AsBrick(brick), px, py) ==> Reach.InEnvelope(r, px, py)
  {
    Reach.FitsIffContained(AsBrick(brick), r);
  }

  /** The build step's `buildable` filter, by index: unbuilt, in reach and supported. */
  predicate Buildable(all: seq<LegacyBrick>, i: int, r: Pos)
    requires 0 <= i < |all|
  {
    !all[i].built && FitsWithinRobotWindow(all[i], r) && BrickCanBeBuilt(all[i], all)
  }

  /** The first buildable brick, as in src/lib/robotBuildLogic.tsx. */
  function FirstBuildable(all: seq<LegacyBrick>, r: Pos): (k: Option<nat>)
    ensures k.Some? ==> k.value < |all| && Buildable(all, k.value, r)
    ensures k.Some? ==> forall j :: 0 <= j < k.value ==> !Buildable(all, j, r)
    ensures k.None? ==> forall j :: 0 <= j < |all| ==> !Buildable(all, j, r)
  {
    var k := Reach.FirstBuildable(AsBricks(all), r);
    forall j | 0 <= j < |all|
      ensures Buildable(all, j, r) == Reach.Buildable(AsBricks(all), j, r)
    {
      BrickCanBeBuiltAgrees(all[j], all);
      FitsAgrees(all[j], r);
    }
    k
  }

  // ---------------------------------------------------------------------------
  // The planner
  // ---------------------------------------------------------------------------

  /** `getCourse(courseNumber)`: the bricks of that course, in order. */
  function GetCourse(all: seq<LegacyBrick>, courseNumber: int): seq<LegacyBrick> {
    if all == [] then []
    else (if all[0].y == Geometry.CourseY(courseNumber) then [all[0]] else []) + GetCourse(all[1..], courseNumber)
  }

  /** A brick is on `getCourse(courseNumber)` exactly when it is a brick of the wall on that course. */
  lemma {:induction false} GetCourseMembers(all: seq<LegacyBrick>, courseNumber: int)
    ensures forall b :: b in GetCourse(all, courseNumber) <==> b in all && b.y == Geometry.CourseY(courseNumber)
  {
    if all != [] {
      GetCourseMembers(all[1..], courseNumber);
      assert all == [all[0]] + all[1..];
    }
  }

  /** `filter((b) => !b.built)`. */
  function Unbuilt(s: seq<LegacyBrick>): seq<LegacyBrick> {
    if s == [] then []
    else (if !s[0].built then [s[0]] else []) + Unbuilt(s[1..])
  }

  /** A brick is in `filter((b) => !b.built)` exactly when it is an unbuilt brick of the input. */
  lemma {:induction false} UnbuiltMembers(s: seq<LegacyBrick>)
    ensures forall b :: b in Unbuilt(s) <==> b in s && !b.built
  {
    if s != [] {
      UnbuiltMembers(s[1..]);
      assert s == [s[0]] + s[1..];
    }
  }

  predicate AllBuilt(s: seq<LegacyBrick>) {
    forall i :: 0 <= i < |s| ==> s[i].built
  }

  /** The centre of a brick along the wall. */
  function CentreX(b: LegacyBrick): int {
    b.x + Width(b.kind) / 2
  }

  /** The index `reduce` ends on after the first `n` bricks of `u`, starting from `u[0]`:
      a brick replaces the current choice only when its centre is strictly closer to `rx`. */
  function NearestIndex(u: seq<LegacyBrick>, rx: int, n: nat): (k: nat)
    requires 0 < |u| && n <= |u|
    ensures k < |u| && (n > 0 ==> k < n)
    ensures forall j :: 0 <= j < n ==> Geometry.Abs(CentreX(u[k]) - rx) <= Geometry.Abs(CentreX(u[j]) - rx)
    ensures forall j :: 0 <= j < k ==> Geometry.Abs(CentreX(u[k]) - rx) < Geometry.Abs(CentreX(u[j]) - rx)
  {
    if n == 0 then 0
    else
      var k := NearestIndex(u, rx, n - 1);
      if Geometry.Abs(CentreX(u[n - 1]) - rx) < Geometry.Abs(CentreX(u[k]) - rx) then n - 1 else k
  }

  /** The clamp of the envelope's centre into the wall, along and up the wall. */
  function ClampX(targetX: int): int {
    if targetX - Geometry.ENVELOPE_WIDTH / 2 < 0 then Geometry.ENVELOPE_WIDTH / 2
    else if targetX + Geometry.ENVELOPE_WIDTH / 2 > Geometry.WALL_WIDTH then Geometry.WALL_WIDTH - Geometry.ENVELOPE_WIDTH / 2
    else targetX
  }

  function ClampY(y: int): int {
    var y1 := if y - Geometry.ENVELOPE_HEIGHT / 2 < 0 then Geometry.ENVELOPE_HEIGHT / 2 else y;
    if y1 + Geometry.ENVELOPE_HEIGHT / 2 > Geometry.WALL_HEIGHT then Geometry.WALL_HEIGHT - Geometry.ENVELOPE_HEIGHT / 2 else y1
  }

  /** What the page's `calculateNewRobotPosition` returns; None where it throws, because
      the course it looks at has no unbuilt brick and `reduce` yields `undefined`. */
  function LegacyPlannedPosition(all: seq<LegacyBrick>, r: Pos): Option<Pos> {
    PositionFor(all, r, Planner.LowestIncompleteCourse(AsBricks(all)))
  }

  /** The position for target course `course`. The bricks looked at are those of that course,
      or of the top course when every course is complete: the scan leaves the last course it
      looked at. */
  function PositionFor(all: seq<LegacyBrick>, r: Pos, course: int): Option<Pos> {
    var scanned := if course < Geometry.NROWS then course else Geometry.NROWS - 1;
    PositionAmong(Unbuilt(GetCourse(all, scanned)), r, course)
  }

  /** The position for the unbuilt bricks `u` of the scanned course: centred on the brick
      nearest to the robot, clamped into the wall. */
  function PositionAmong(u: seq<LegacyBrick>, r: Pos, course: int): Option<Pos> {
    if u == [] then Geometry.None
    else
      var target := u[NearestIndex(u, r.x, |u|)];
      Geometry.Some(Geometry.Pos(ClampX(CentreX(target)), ClampY(Geometry.CourseY(course) + Geometry.ENVELOPE_HEIGHT / 2)))
  }

  lemma {:induction false} PositionAmongSome(u: seq<LegacyBrick>, r: Pos, course: int)
    requires u != []
    ensures PositionAmong(u, r, course) == Geometry.Some(Geometry.Pos(
      ClampX(CentreX(u[NearestIndex(u, r.x, |u|)])), ClampY(Geometry.CourseY(course) + Geometry.ENVELOPE_HEIGHT / 2)))
  {
  }

  lemma {:induction false} CourseCompleteAgrees(all: seq<LegacyBrick>, c: int)
    ensures AllBuilt(GetCourse(all, c)) == Planner.CourseComplete(AsBricks(all), c)
  {
    var s := AsBricks(all);
    var g := GetCourse(all, c);
    GetCourseMembers(all, c);
    if AllBuilt(g) {
      forall i | 0 <= i < |s| && s[i].y == Geometry.CourseY(c) ensures s[i].built {
        assert all[i] in g;
        var j :| 0 <= j < |g| && g[j] == all[i];
      }
    } else {
      var j :| 0 <= j < |g| && !g[j].built;
      assert g[j] in all;
      var i :| 0 <= i < |all| && all[i] == g[j];
      assert s[i] == AsBrick(all[i]);
    }
  }

  /** The course scan that opens `calculateNewRobotPosition`: the lowest incomplete course,
      and the bricks of the last course the scan looked at. */
  method ScanCourses(all: seq<LegacyBrick>) returns (course: nat, courseBricks: seq<LegacyBrick>)
    ensures course == Planner.LowestIncompleteCourse(AsBricks(all))
    ensures courseBricks == GetCourse(all, if course < Geometry.NROWS then course else Geometry.NROWS - 1)
  {
    var nRows := Geometry.WALL_HEIGHT / Geometry.COURSE_HEIGHT;
    course := 0;
    courseBricks := [];
    while course < nRows
      invariant 0 <= course <= nRows
      invariant forall c :: 0 <= c < course ==> Planner.CourseComplete(AsBricks(all), c)
      invariant course > 0 ==> courseBricks == GetCourse(all, course - 1)
    {
      courseBricks := GetCourse(all, course);
      CourseCompleteAgrees(all, course);
      if !AllBuilt(courseBricks) {
        break;
      }
      course := course + 1;
    }
    Planner.LowestIncompleteUnique(AsBricks(all), course);
  }

  /** The page's `calculateNewRobotPosition(r)` on the page's bricks. */
  method CalculateNewRobotPosition(all: seq<LegacyBrick>, r: Pos) returns (p: Option<Pos>)
    ensures p == LegacyPlannedPosition(all, r)
  {
    var course, courseBricks := ScanCourses(all);

    var unbuiltBricks := Unbuilt(courseBricks);
    assert PositionFor(all, r, course) == PositionAmong(unbuiltBricks, r, course);
    if unbuiltBricks == [] {
      assert PositionAmong(unbuiltBricks, r, course) == Geometry.None;
      return Geometry.None;  // `reduce` over no bricks gives `undefined`, and `.type` throws
    }
    var targetBrick := unbuiltBricks[NearestIndex(unbuiltBricks, r.x, |unbuiltBricks|)];
    var targetBrickW := Width(targetBrick.kind);
    var targetX := targetBrick.x + targetBrickW / 2;

    var newX := targetX;
    if newX - HALF_ENVELOPE_WIDTH < 0 {
      newX := HALF_ENVELOPE_WIDTH;
    } else if newX + HALF_ENVELOPE_WIDTH > Geometry.WALL_WIDTH {
      newX := Geometry.WALL_WIDTH - HALF_ENVELOPE_WIDTH;
    }

    var newY := Geometry.CourseY(course) + HALF_ENVELOPE_HEIGHT;
    if newY - HALF_ENVELOPE_HEIGHT < 0 {
      newY := HALF_ENVELOPE_HEIGHT;
    }
    if newY + HALF_ENVELOPE_HEIGHT > Geometry.WALL_HEIGHT {
      newY := Geometry.WALL_HEIGHT - HALF_ENVELOPE_HEIGHT;
    }
    assert newX == ClampX(CentreX(targetBrick));
    assert newY == ClampY(Geometry.CourseY(course) + Geometry.ENVELOPE_HEIGHT / 2);
    p := Geometry.Some(Geometry.Pos(newX, newY));
    PositionAmongSome(unbuiltBricks, r, course);
  }

  // ---------------------------------------------------------------------------
  // Where the page's planner sends the robot
  // ---------------------------------------------------------------------------

  /** The envelope's centre always ends up where the whole envelope lies on the wall. */
  lemma ClampRange(targetX: int, y: int)
    ensures HALF_ENVELOPE_WIDTH <= ClampX(targetX) <= Geometry.WALL_WIDTH - HALF_ENVELOPE_WIDTH
    ensures HALF_ENVELOPE_HEIGHT <= ClampY(y) <= Geometry.WALL_HEIGHT - HALF_ENVELOPE_HEIGHT
  {
  }

  /** A brick lying on the wall between its two ends. */
  predicate OnWall(b: LegacyBrick) {
    0 <= b.x && b.x + Width(b.kind) <= Geometry.WALL_WIDTH
  }

  /** Centring on the nearest brick of a course of the wall and clamping keeps that brick in
      the robot's window. */
  lemma {:induction false} PositionAmongReaches(u: seq<LegacyBrick>, r: Pos, course: int)
    requires u != [] && 0 <= course < Geometry.NROWS
    requires OnWall(u[NearestIndex(u, r.x, |u|)]) && u[NearestIndex(u, r.x, |u|)].y == Geometry.CourseY(course)
    ensures PositionAmong(u, r, course).Some?
    ensures FitsWithinRobotWindow(u[NearestIndex(u, r.x, |u|)], PositionAmong(u, r, course).value)
  {
    PositionAmongSome(u, r, course);
    Geometry.CourseYFacts(course);
  }

  /** An incomplete course of the wall has an unbuilt brick for the page's planner. */
  lemma {:induction false} IncompleteCourseUnbuilt(all: seq<LegacyBrick>, course: int)
    requires !Planner.CourseComplete(AsBricks(all), course)
    ensures Unbuilt(GetCourse(all, course)) != []
  {
    var g := GetCourse(all, course);
    CourseCompleteAgrees(all, course);
    var j :| 0 <= j < |g| && !g[j].built;
    UnbuiltMembers(g);
    assert g[j] in Unbuilt(g);
  }

  /** Brick `i` is unbuilt, lies on course `course` and fits the window of a robot at `p`. */
  predicate ReachableTarget(all: seq<LegacyBrick>, i: int, course: int, p: Pos) {
    0 <= i < |all| && !all[i].built && all[i].y == Geometry.CourseY(course) && FitsWithinRobotWindow(all[i], p)
  }

  /** While a course of the wall is incomplete, the page's planner has a position to go to,
      and it centres the window on an unbuilt brick of the lowest incomplete course that it
      can reach from there. */
  lemma {:induction false} PlannedPositionReaches(all: seq<LegacyBrick>, r: Pos)
    requires forall i :: 0 <= i < |all| ==> OnWall(all[i])
    requires Planner.LowestIncompleteCourse(AsBricks(all)) < Geometry.NROWS
    ensures LegacyPlannedPosition(all, r).Some?
    ensures exists i :: ReachableTarget(all, i, Planner.LowestIncompleteCourse(AsBricks(all)), LegacyPlannedPosition(all, r).value)
  {
    var course := Planner.LowestIncompleteCourse(AsBricks(all));
    IncompleteCourseUnbuilt(all, course);
    var u := Unbuilt(GetCourse(all, course));
    var target := u[NearestIndex(u, r.x, |u|)];
    PendingMembers(all, course);
    assert target in u;
    var i :| 0 <= i < |all| && all[i] == target;
    PositionAmongReaches(u, r, course);
    assert ReachableTarget(all, i, course, LegacyPlannedPosition(all, r).value);
  }

  /** A brick lying on one of the wall's courses. */
  predicate OnWallCourse(b: LegacyBrick) {
    0 <= b.y < Geometry.NROWS * Geometry.COURSE_HEIGHT && b.y % Geometry.COURSE_HEIGHT == 0
  }

  /** On a wall whose bricks all lie on its courses, an unbuilt brick leaves some course
      incomplete, so the page's planner never throws. */
  lemma {:induction false} PlannerNeverThrows(all: seq<LegacyBrick>, r: Pos, k: nat)
    requires forall i :: 0 <= i < |all| ==> OnWallCourse(all[i])
    requires k < |all| && !all[k].built
    ensures Planner.LowestIncompleteCourse(AsBricks(all)) < Geometry.NROWS
    ensures LegacyPlannedPosition(all, r).Some?
  {
    var c := all[k].y / Geometry.COURSE_HEIGHT;
    assert all[k].y == Geometry.CourseY(c);
    assert AsBricks(all)[k].y == all[k].y && !AsBricks(all)[k].built;
    Planner.LowestIncompleteAtMost(AsBricks(all), c);
    IncompleteCourseUnbuilt(all, Planner.LowestIncompleteCourse(AsBricks(all)));
  }

  // ---------------------------------------------------------------------------
  // Which brick the page's planner centres on
  // ---------------------------------------------------------------------------

  /** `getCourse` is an order-keeping filter: filtering a concatenation filters each part
      (GetCourseOne gives the single-brick case). */
  lemma {:induction false} GetCourseConcat(a: seq<LegacyBrick>, b: seq<LegacyBrick>, c: int)
    ensures GetCourse(a + b, c) == GetCourse(a, c) + GetCourse(b, c)
  {
    if a != [] {
      var head := if a[0].y == Geometry.CourseY(c) then [a[0]] else [];
      assert (a + b)[0] == a[0] && (a + b)[1..] == a[1..] + b;
      GetCourseConcat(a[1..], b, c);
      calc {
        GetCourse(a + b, c);
        head + GetCourse(a[1..] + b, c);
        head + (GetCourse(a[1..], c) + GetCourse(b, c));
        (head + GetCourse(a[1..], c)) + GetCourse(b, c);
      }
    } else {
      assert a + b == b;
    }
  }

  /** A single brick is kept exactly when it lies on the course. */
  lemma GetCourseOne(x: LegacyBrick, c: int)
    ensures GetCourse([x], c) == if x.y == Geometry.CourseY(c) then [x] else []
  {
    assert [x][1..] == [];
  }

  /** `filter((b) => !b.built)` keeps order the same way. */
  lemma {:induction false} UnbuiltConcat(a: seq<LegacyBrick>, b: seq<LegacyBrick>)
    ensures Unbuilt(a + b) == Unbuilt(a) + Unbuilt(b)
  {
    if a != [] {
      var head := if !a[0].built then [a[0]] else [];
      assert (a + b)[0] == a[0] && (a + b)[1..] == a[1..] + b;
      UnbuiltConcat(a[1..], b);
      calc {
        Unbuilt(a + b);
        head + Unbuilt(a[1..] + b);
        head + (Unbuilt(a[1..]) + Unbuilt(b));
        (head + Unbuilt(a[1..])) + Unbuilt(b);
      }
    } else {
      assert a + b == b;
    }
  }

  /** A single brick is kept exactly when it is unbuilt. */
  lemma UnbuiltOne(x: LegacyBrick)
    ensures Unbuilt([x]) == if !x.built then [x] else []
  {
    assert [x][1..] == [];
  }

  /** The unbuilt bricks of course `c` are exactly the wall's unbuilt bricks on that course. */
  lemma PendingMembers(all: seq<LegacyBrick>, c: int)
    ensures forall b :: b in Unbuilt(GetCourse(all, c)) <==> b in all && !b.built && b.y == Geometry.CourseY(c)
  {
    GetCourseMembers(all, c);
    UnbuiltMembers(GetCourse(all, c));
  }

  /** The unbuilt bricks of a course filtered out of a concatenation. */
  lemma PendingConcat(a: seq<LegacyBrick>, b: seq<LegacyBrick>, c: int)
    ensures Unbuilt(GetCourse(a + b, c)) == Unbuilt(GetCourse(a, c)) + Unbuilt(GetCourse(b, c))
  {
    GetCourseConcat(a, b, c);
    UnbuiltConcat(GetCourse(a, c), GetCourse(b, c));
  }

  /** The first brick of the wall alone contributes itself when it is unbuilt and on the
      course, and nothing otherwise. */
  lemma PendingHead(all: seq<LegacyBrick>, c: int)
    requires all != []
    ensures Unbuilt(GetCourse(all[..1], c)) == if !all[0].built && all[0].y == Geometry.CourseY(c) then [all[0]] else []
  {
    assert all[..1] == [all[0]];
    GetCourseOne(all[0], c);
    UnbuiltOne(all[0]);
    assert Unbuilt([]) == [];
  }

  /** Entry `k` of the unbuilt bricks of course `c` is some brick `i` of the wall, and the
      entries before it are exactly the unbuilt bricks of course `c` before brick `i`. */
  lemma {:induction false} PendingIndex(all: seq<LegacyBrick>, c: int, k: nat)
    requires k < |Unbuilt(GetCourse(all, c))|
    ensures exists i :: 0 <= i < |all| && all[i] == Unbuilt(GetCourse(all, c))[k]
                        && Unbuilt(GetCourse(all[..i], c)) == Unbuilt(GetCourse(all, c))[..k]
  {
    var u := Unbuilt(GetCourse(all, c));
    var h, t := all[..1], all[1..];
    assert all == h + t;
    PendingConcat(h, t, c);
    PendingHead(all, c);
    var uh, ut := Unbuilt(GetCourse(h, c)), Unbuilt(GetCourse(t, c));
    assert u == uh + ut;
    if uh != [] && k == 0 {
      assert all[..0] == [];
      assert Unbuilt(GetCourse(all[..0], c)) == [];
      assert all[0] == u[0];
    } else {
      var k' := k - |uh|;
      PendingIndex(t, c, k');
      var i' :| 0 <= i' < |t| && t[i'] == ut[k'] && Unbuilt(GetCourse(t[..i'], c)) == ut[..k'];
      PendingStep(all, c, k, i', uh, ut, u);
      assert all[i' + 1] == t[i'] == u[k];
    }
  }

  /** The inductive step of PendingIndex: with `u` the unbuilt bricks of the course in the
      first brick (`uh`) followed by those in the rest of the wall (`ut`), an entry found at
      index `i'` of the rest has the right entries before it. */
  lemma PendingStep(all: seq<LegacyBrick>, c: int, k: nat, i': nat, uh: seq<LegacyBrick>, ut: seq<LegacyBrick>, u: seq<LegacyBrick>)
    requires i' < |all| - 1 && u == uh + ut && |uh| <= k < |uh| + |ut|
    requires uh == Unbuilt(GetCourse(all[..1], c))
    requires Unbuilt(GetCourse(all[1..][..i'], c)) == ut[..k - |uh|]
    ensures Unbuilt(GetCourse(all[..i' + 1], c)) == u[..k]
  {
    PrefixSplit(all, i' + 1);
    PendingConcat(all[..1], all[1..][..i'], c);
    TakeConcat(uh, ut, k);
  }

  lemma PrefixSplit<T>(s: seq<T>, n: nat)
    requires 1 <= n <= |s|
    ensures s[..n] == s[..1] + s[1..][..n - 1]
  {
  }

  lemma TakeConcat<T>(a: seq<T>, b: seq<T>, k: nat)
    requires |a| <= k <= |a| + |b|
    ensures (a + b)[..k] == a + b[..k - |a|]
  {
  }

  /** Brick `i` is an unbuilt brick of course `c` whose centre is nearest to `rx` among the
      unbuilt bricks of that course, and every such brick before it in the wall is strictly
      farther. */
  predicate FirstNearest(all: seq<LegacyBrick>, i: int, c: int, rx: int) {
    && 0 <= i < |all| && !all[i].built && all[i].y == Geometry.CourseY(c)
    && (forall j :: 0 <= j < |all| && !all[j].built && all[j].y == Geometry.CourseY(c) ==>
          Geometry.Abs(CentreX(all[i]) - rx) <= Geometry.Abs(CentreX(all[j]) - rx))
    && (forall j :: 0 <= j < i && !all[j].built && all[j].y == Geometry.CourseY(c) ==>
          Geometry.Abs(CentreX(all[i]) - rx) < Geometry.Abs(CentreX(all[j]) - rx))
  }

  /** At most one brick of the wall is the first nearest one. */
  lemma FirstNearestUnique(all: seq<LegacyBrick>, i1: int, i2: int, c: int, rx: int)
    requires FirstNearest(all, i1, c, rx) && FirstNearest(all, i2, c, rx)
    ensures i1 == i2
  {
  }

  /** An unbuilt brick of course `c` is among the unbuilt bricks of that course. */
  lemma PendingMember(all: seq<LegacyBrick>, c: int, j: int)
    requires 0 <= j < |all| && !all[j].built && all[j].y == Geometry.CourseY(c)
    ensures exists m :: 0 <= m < |Unbuilt(GetCourse(all, c))| && Unbuilt(GetCourse(all, c))[m] == all[j]
  {
    PendingMembers(all, c);
    assert all[j] in Unbuilt(GetCourse(all, c));
  }

  /** No unbuilt brick of the course is nearer than the one the `reduce` ends on. */
  lemma NearestNotFarther(all: seq<LegacyBrick>, c: int, rx: int, u: seq<LegacyBrick>, i: int)
    requires u == Unbuilt(GetCourse(all, c)) && u != [] && 0 <= i < |all| && all[i] == u[NearestIndex(u, rx, |u|)]
    ensures forall j :: 0 <= j < |all| && !all[j].built && all[j].y == Geometry.CourseY(c) ==>
              Geometry.Abs(CentreX(all[i]) - rx) <= Geometry.Abs(CentreX(all[j]) - rx)
  {
    forall j | 0 <= j < |all| && !all[j].built && all[j].y == Geometry.CourseY(c)
      ensures Geometry.Abs(CentreX(all[i]) - rx) <= Geometry.Abs(CentreX(all[j]) - rx)
    {
      PendingMember(all, c, j);
    }
  }

  /** Every unbuilt brick of the course earlier in the wall than the one the `reduce` ends on
      is strictly farther: it came earlier in the list the `reduce` walked. */
  lemma EarlierStrictlyFarther(all: seq<LegacyBrick>, c: int, rx: int, u: seq<LegacyBrick>, k: nat, i: int)
    requires u != [] && k == NearestIndex(u, rx, |u|) && 0 <= i < |all| && all[i] == u[k]
    requires Unbuilt(GetCourse(all[..i], c)) == u[..k]
    ensures forall j :: 0 <= j < i && !all[j].built && all[j].y == Geometry.CourseY(c) ==>
              Geometry.Abs(CentreX(all[i]) - rx) < Geometry.Abs(CentreX(all[j]) - rx)
  {
    forall j | 0 <= j < i && !all[j].built && all[j].y == Geometry.CourseY(c)
      ensures Geometry.Abs(CentreX(all[i]) - rx) < Geometry.Abs(CentreX(all[j]) - rx)
    {
      assert all[..i][j] == all[j];
      PendingMember(all[..i], c, j);
      var m :| 0 <= m < k && u[..k][m] == all[j];
      assert u[m] == all[j];
    }
  }

  /** The `reduce` over the unbuilt bricks of course `c` ends on the brick of the wall that,
      in wall order, is the first at minimal distance from `rx`. */
  lemma {:induction false} NearestIsFirstInWallOrder(all: seq<LegacyBrick>, c: int, rx: int)
    requires Unbuilt(GetCourse(all, c)) != []
    ensures exists i :: (FirstNearest(all, i, c, rx)
      && all[i] == Unbuilt(GetCourse(all, c))[NearestIndex(Unbuilt(GetCourse(all, c)), rx, |Unbuilt(GetCourse(all, c))|)])
  {
    var u := Unbuilt(GetCourse(all, c));
    var k := NearestIndex(u, rx, |u|);
    PendingIndex(all, c, k);
    var i :| 0 <= i < |all| && all[i] == u[k] && Unbuilt(GetCourse(all[..i], c)) == u[..k];
    assert !all[i].built && all[i].y == Geometry.CourseY(c) by {
      PendingMembers(all, c);
      assert u[k] in u;
    }
    NearestNotFarther(all, c, rx, u, i);
    EarlierStrictlyFarther(all, c, rx, u, k, i);
    assert FirstNearest(all, i, c, rx);
  }

  /** While a course is incomplete, the page's planner centres the window, clamped, on the
      first brick in wall order among the unbuilt bricks of the lowest incomplete course that
      lie nearest to the robot. */
  lemma {:induction false} PlannerTargetsFirstNearest(all: seq<LegacyBrick>, r: Pos)
    requires Planner.LowestIncompleteCourse(AsBricks(all)) < Geometry.NROWS
    ensures exists i :: (FirstNearest(all, i, Planner.LowestIncompleteCourse(AsBricks(all)), r.x)
      && LegacyPlannedPosition(all, r) == Geometry.Some(Geometry.Pos(ClampX(CentreX(all[i])),
           ClampY(Geometry.CourseY(Planner.LowestIncompleteCourse(AsBricks(all))) + Geometry.ENVELOPE_HEIGHT / 2))))
  {
    var course := Planner.LowestIncompleteCourse(AsBricks(all));
    IncompleteCourseUnbuilt(all, course);
    var u := Unbuilt(GetCourse(all, course));
    NearestIsFirstInWallOrder(all, course, r.x);
    var i :| FirstNearest(all, i, course, r.x) && all[i] == u[NearestIndex(u, r.x, |u|)];
    PositionAmongSome(u, r, course);
  }

  // ---------------------------------------------------------------------------
  // The build step
  // ---------------------------------------------------------------------------

  /** What a call of `buildNextBrick` did: nothing because a call was running, nothing because
      no brick is left, laid brick `index`, moved the robot, or threw in the planner. */
  datatype LegacyOutcome = Busy | NothingLeft | Built(index: nat) | Moved(to: Pos) | Threw

  /** Brick `i` of `all` laid during stride `strideNr`: `{ ...b, built: true, builtDuringStrideNr }`
      for the one brick that is `next`. */
  function LayAt(all: seq<LegacyBrick>, i: nat, strideNr: int): seq<LegacyBrick>
    requires i < |all|
  {
    all[i := all[i].(built := true, builtDuringStrideNr := Geometry.Some(strideNr))]
  }

  /** Laying a brick of the page is laying the same brick with its width written out. */
  lemma {:induction false} LayAtAgrees(all: seq<LegacyBrick>, i: nat, strideNr: int)
    requires i < |all|
    ensures AsBricks(LayAt(all, i, strideNr)) == Driver.Lay(AsBricks(all), i, strideNr)
  {
    var t := LayAt(all, i, strideNr);
    forall k | 0 <= k < |t|
      ensures AsBricks(t)[k] == Driver.Lay(AsBricks(all), i, strideNr)[k]
    {
      if k != i {
        assert t[k] == all[k];
      }
    }
  }

  /** No unbuilt brick is left exactly when the count of unbuilt bricks is zero. */
  lemma {:induction false} UnbuiltNone(all: seq<LegacyBrick>)
    ensures Unbuilt(all) == [] <==> Geometry.NumUnbuilt(AsBricks(all)) == 0
  {
    if all != [] {
      UnbuiltNone(all[1..]);
      assert AsBricks(all)[1..] == AsBricks(all[1..]);
    }
  }

  datatype LegacyStepResult = LegacyStepResult(outcome: LegacyOutcome, bricks: seq<LegacyBrick>, robot: Pos, strideCount: int)

  /** One call of the page's `buildNextBrick` when no other call is running. */
  function LegacyStep(all: seq<LegacyBrick>, r: Pos, strideCount: int): LegacyStepResult {
    if Unbuilt(all) == [] then LegacyStepResult(NothingLeft, all, r, strideCount)
    else
      match FirstBuildable(all, r)
      case Some(i) => LegacyStepResult(Built(i), LayAt(all, i, strideCount + 1), r, strideCount)
      case None =>
        match LegacyPlannedPosition(all, r)
        case None => LegacyStepResult(Threw, all, r, strideCount)
        case Some(p) => LegacyStepResult(Moved(p), all, p, strideCount + 1)
  }

  /** The page lays bricks as src/lib/robotBuildLogic.tsx does: it stops on the same walls,
      and it lays the same brick with the same stride number whenever either of them lays
      one. */
  lemma {:induction false} LegacyStepLaysAsLibrary(all: seq<LegacyBrick>, r: Pos, strideCount: int)
    ensures LegacyStep(all, r, strideCount).outcome == NothingLeft
        <==> Driver.BuildStep(AsBricks(all), r, strideCount).outcome == Driver.WallComplete
    ensures forall i: nat :: (LegacyStep(all, r, strideCount).outcome == Built(i)
        <==> Driver.BuildStep(AsBricks(all), r, strideCount).outcome == Driver.Built(i))
    ensures LegacyStep(all, r, strideCount).outcome.Built? ==>
      && AsBricks(LegacyStep(all, r, strideCount).bricks) == Driver.BuildStep(AsBricks(all), r, strideCount).bricks
      && LegacyStep(all, r, strideCount).strideCount == strideCount
      && LegacyStep(all, r, strideCount).robot == r
  {
    UnbuiltNone(all);
    var k := FirstBuildable(all, r);
    assert k == Reach.FirstBuildable(AsBricks(all), r);
    if k.Some? {
      LayAtAgrees(all, k.value, strideCount + 1);
    }
  }

  /** Unlike src/lib/robotBuildLogic.tsx, the page counts a stride on every relocation, even
      one that leaves the robot where it was, and it throws when the course it looks at has
      no unbuilt brick; a relocation never changes the wall. */
  lemma {:induction false} LegacyRelocation(all: seq<LegacyBrick>, r: Pos, strideCount: int)
    requires Unbuilt(all) != [] && FirstBuildable(all, r).None?
    ensures LegacyPlannedPosition(all, r).Some? ==>
      LegacyStep(all, r, strideCount)
        == LegacyStepResult(Moved(LegacyPlannedPosition(all, r).value), all, LegacyPlannedPosition(all, r).value, strideCount + 1)
    ensures LegacyPlannedPosition(all, r).None? ==>
      LegacyStep(all, r, strideCount) == LegacyStepResult(Threw, all, r, strideCount)
  {
  }

  /** Every call keeps the session invariant of src/lib/robotBuildLogic.tsx on the bricks with
      their widths written out. */
  lemma {:induction false} LegacyStepKeepsSessionWall(all: seq<LegacyBrick>, r: Pos, strideCount: int)
    requires Driver.SessionWall(AsBricks(all), strideCount)
    ensures Driver.SessionWall(AsBricks(LegacyStep(all, r, strideCount).bricks), LegacyStep(all, r, strideCount).strideCount)
  {
    if Unbuilt(all) != [] {
      var k := FirstBuildable(all, r);
      assert k == Reach.FirstBuildable(AsBricks(all), r);
      match k
      case Some(i) =>
        LayAtAgrees(all, i, strideCount + 1);
        Driver.LayKeepsSessionWall(AsBricks(all), i, strideCount);
      case None =>
        Driver.NextStrideKeepsSessionWall(AsBricks(all), strideCount);
    }
  }

  /** The page's state between calls and `buildNextBrick`. */
  class LegacySession {
    var bricks: seq<LegacyBrick>
    var robot: Pos
    var strideCount: int
    var busy: bool

    /** The page after `generateWall`: fresh bricks, no strides. */
    constructor (wall: seq<LegacyBrick>, start: Pos)
      requires forall i :: 0 <= i < |wall| ==> !wall[i].built && wall[i].builtDuringStrideNr.None?
      ensures Driver.SessionWall(AsBricks(bricks), strideCount)
      ensures bricks == wall && robot == start && strideCount == 0 && !busy
    {
      bricks := wall;
      robot := start;
      strideCount := 0;
      busy := false;
    }

    /** One call of `buildNextBrick`: nothing while a call is running; otherwise the step that
        LegacyStep describes. The session stays busy for good when the planner throws. */
    method BuildNextBrick() returns (outcome: LegacyOutcome)
      modifies this
      ensures old(busy) ==> outcome == Busy && unchanged(this)
      ensures !old(busy) ==> (busy <==> outcome == Threw)
      ensures !old(busy) ==>
        LegacyStepResult(outcome, bricks, robot, strideCount) == LegacyStep(old(bricks), old(robot), old(strideCount))
    {
      if busy {
        return Busy;
      }
      busy := true;

      var all := bricks;
      var r := robot;
      ghost var step := LegacyStep(all, r, strideCount);
      var unbuilt := Unbuilt(all);
      if |unbuilt| == 0 {
        assert step == LegacyStepResult(NothingLeft, all, r, strideCount);
        busy := false;
        return NothingLeft;
      }

      var next := FirstBuildable(all, r);
      if next.Some? {
        var strideNr := strideCount + 1;
        assert step == LegacyStepResult(Built(next.value), LayAt(all, next.value, strideNr), r, strideCount);
        bricks := LayAt(all, next.value, strideNr);
        outcome := Built(next.value);
      } else {
        var newRobotPos := CalculateNewRobotPosition(all, r);
        if newRobotPos.None? {
          assert step == LegacyStepResult(Threw, all, r, strideCount);
          return Threw;
        }
        assert step == LegacyStepResult(Moved(newRobotPos.value), all, newRobotPos.value, strideCount + 1);
        robot := newRobotPos.value;
        strideCount := strideCount + 1;
        outcome := Moved(newRobotPos.value);
      }
      busy := false;
    }
  }
}
