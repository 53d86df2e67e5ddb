/** The stride planner of src/lib/robotBuildLogic.tsx: the greedy lookahead that counts how
    many bricks the robot could lay from a position without moving, and the choice of the
    next robot position. */
module Planner {
  import opened Geometry
  import opened Reach

  /** The wall with brick `i` marked built (`{ ...b, built: true }`); the stride number is kept. */
  function MarkBuilt(s: seq<Brick>, i: nat): seq<Brick>
    requires i < |s|
  {
    s[i := s[i].(built := true)]
  }

  /** Laying an unbuilt brick leaves one unbuilt brick fewer. */
  lemma {:induction false} MarkBuiltFewer(s: seq<Brick>, i: nat)
    requires i < |s| && !s[i].built
    ensures NumUnbuilt(MarkBuilt(s, i)) == NumUnbuilt(s) - 1
  {
    var t := MarkBuilt(s, i);
    if i == 0 {
      assert t[1..] == s[1..];
    } else {
      assert t[1..] == MarkBuilt(s[1..], i - 1);
      MarkBuiltFewer(s[1..], i - 1);
    }
  }

  /** The number of unbuilt bricks of `s` that lie in the envelope at `r`. */
  function NumReachable(s: seq<Brick>, r: Pos): nat {
    if s == [] then 0
    else (if !s[0].built && FitsWithinRobotWindow(s[0], r) then 1 else 0) + NumReachable(s[1..], r)
  }

  lemma {:induction false} MarkBuiltFewerReachable(s: seq<Brick>, i: nat, r: Pos)
    requires i < |s| && !s[i].built && FitsWithinRobotWindow(s[i], r)
    ensures NumReachable(MarkBuilt(s, i), r) == NumReachable(s, r) - 1
  {
    var t := MarkBuilt(s, i);
    if i == 0 {
      assert t[1..] == s[1..];
    } else {
      assert t[1..] == MarkBuilt(s[1..], i - 1);
      MarkBuiltFewerReachable(s[1..], i - 1, r);
    }
  }

  /** The count `countBuildableFromPosition` returns: lay the first buildable brick on a private
      copy of the wall, again and again, until none is buildable. At most every unbuilt brick
      is laid. */
  function Greedy(s: seq<Brick>, r: Pos): (n: nat)
    ensures n <= NumUnbuilt(s)
    decreases NumUnbuilt(s)
  {
    match FirstBuildable(s, r)
    case None => 0
    case Some(i) =>
      MarkBuiltFewer(s, i);
      1 + Greedy(MarkBuilt(s, i), r)
  }

  /** The count is zero exactly when no brick is buildable at the start. */
  lemma GreedyZero(s: seq<Brick>, r: Pos)
    ensures Greedy(s, r) == 0 <==> FirstBuildable(s, r).None?
  {
    match FirstBuildable(s, r)
    case None =>
    case Some(i) =>
      MarkBuiltFewer(s, i);
  }

  /** The lookahead only ever lays bricks that lie in the envelope. */
  lemma {:induction false} GreedyWithinReach(s: seq<Brick>, r: Pos)
    ensures Greedy(s, r) <= NumReachable(s, r)
    decreases NumUnbuilt(s)
  {
    match FirstBuildable(s, r)
    case None =>
    case Some(i) =>
      MarkBuiltFewer(s, i);
      MarkBuiltFewerReachable(s, i, r);
      GreedyWithinReach(MarkBuilt(s, i), r);
  }

  /** `countBuildableFromPosition`. The input is a value, so it is left unchanged. */
  method CountBuildableFromPosition(bricks: seq<Brick>, robot: Pos) returns (count: nat)
    ensures count == Greedy(bricks, robot)
  {
    var working := bricks;
    count := 0;
    while true
      invariant count + Greedy(working, robot) == Greedy(bricks, robot)
      decreases NumUnbuilt(working)
    {
      if NumUnbuilt(working) == 0 {
        break;
      }
      var next := FirstBuildable(working, robot);
      if next.None? {
        break;
      }
      MarkBuiltFewer(working, next.value);
      working := MarkBuilt(working, next.value);
      count := count + 1;
    }
  }

  // ---------------------------------------------------------------------------
  // The target course
  // ---------------------------------------------------------------------------

  /** Every brick of course `c` is built (an empty course counts as complete, as `every` does). */
  predicate CourseComplete(s: seq<Brick>, c: int) {
    forall i :: 0 <= i < |s| && s[i].y == CourseY(c) ==> s[i].built
  }

  /** The lowest course below NROWS that is not complete, or NROWS when all are. */
  function LowestIncompleteCourse(s: seq<Brick>): (c: nat)
    ensures c <= NROWS
    ensures forall c' :: 0 <= c' < c ==> CourseComplete(s, c')
    ensures c < NROWS ==> !CourseComplete(s, c)
  {
    LowestIncompleteFrom(s, 0)
  }

  function LowestIncompleteFrom(s: seq<Brick>, from: nat): (c: nat)
    requires from <= NROWS
    requires forall c' :: 0 <= c' < from ==> CourseComplete(s, c')
    ensures from <= c <= NROWS
    ensures forall c' :: 0 <= c' < c ==> CourseComplete(s, c')
    ensures c < NROWS ==> !CourseComplete(s, c)
    decreases NROWS - from
  {
    if from == NROWS || !CourseComplete(s, from) then from
    else LowestIncompleteFrom(s, from + 1)
  }

  /** The robot's height for course `c`: the envelope's bottom on the course, but no higher
      than the envelope's top at the wall's top. */
  function TargetY(c: int): int {
    Min(CourseY(c) + ENVELOPE_HEIGHT / 2, WALL_HEIGHT - ENVELOPE_HEIGHT / 2)
  }

  // ---------------------------------------------------------------------------
  // Candidate positions
  // ---------------------------------------------------------------------------

  /** `x` puts the envelope's left edge on brick `b`'s left edge or its right edge on `b`'s right edge. */
  predicate AlignsWith(b: Brick, x: int) {
    x == b.x + ENVELOPE_WIDTH / 2 || x == b.x + b.length - ENVELOPE_WIDTH / 2
  }

  ghost predicate IsCandidate(wall: seq<Brick>, x: int) {
    exists i :: 0 <= i < |wall| && AlignsWith(wall[i], x)
  }

  /** The `flatMap` of both alignments over the wall, in order. */
  function EdgeCandidates(wall: seq<Brick>): (r: seq<int>)
    ensures forall x :: x in r <==> IsCandidate(wall, x)
  {
    if wall == [] then []
    else
      var b := wall[0];
      var rest := EdgeCandidates(wall[1..]);
      assert forall x :: IsCandidate(wall[1..], x) ==> IsCandidate(wall, x) by {
        forall x | IsCandidate(wall[1..], x) ensures IsCandidate(wall, x) {
          var i :| 0 <= i < |wall| - 1 && AlignsWith(wall[1..][i], x);
          assert AlignsWith(wall[i + 1], x);
        }
      }
      assert forall x :: IsCandidate(wall, x) ==> AlignsWith(b, x) || IsCandidate(wall[1..], x) by {
        forall x | IsCandidate(wall, x) ensures AlignsWith(b, x) || IsCandidate(wall[1..], x) {
          var i :| 0 <= i < |wall| && AlignsWith(wall[i], x);
          if i > 0 {
            assert AlignsWith(wall[1..][i - 1], x);
          }
        }
      }
      [b.x + ENVELOPE_WIDTH / 2, b.x + b.length - ENVELOPE_WIDTH / 2] + rest
  }

  /** `s.indexOf(x)`: the first index holding `x`, or -1. */
  function IndexOf(s: seq<int>, x: int): (k: int)
    ensures k == -1 <==> x !in s
    ensures k != -1 ==> 0 <= k < |s| && s[k] == x && x !in s[..k]
  {
    if s == [] then -1
    else if s[0] == x then 0
    else
      var k := IndexOf(s[1..], x);
      if k == -1 then -1
      else
        assert s[..k + 1] == [s[0]] + s[1..][..k];
        k + 1
  }

  /** `s.filter((x, index) => s.indexOf(x) === index)` over the indices from `from` on: the
      values whose first occurrence lies there, each once. */
  function FirstOccurrences(s: seq<int>, from: nat): (r: seq<int>)
    requires from <= |s|
    ensures forall x :: x in r <==> x in s && IndexOf(s, x) >= from
    ensures forall a, b :: 0 <= a < b < |r| ==> r[a] != r[b]
    decreases |s| - from
  {
    if from == |s| then []
    else
      var rest := FirstOccurrences(s, from + 1);
      if IndexOf(s, s[from]) == from then [s[from]] + rest else rest
  }

  /** The deduplicated candidate positions, in the order of their first occurrence. */
  function Candidates(wall: seq<Brick>): (r: seq<int>)
    ensures forall x :: x in r <==> IsCandidate(wall, x)
    ensures forall a, b :: 0 <= a < b < |r| ==> r[a] != r[b]
  {
    var all := EdgeCandidates(wall);
    FirstOccurrences(all, 0)
  }

  // ---------------------------------------------------------------------------
  // The search
  // ---------------------------------------------------------------------------

  /** `bestX` and `maxBuildable` of the search loop. */
  datatype Choice = Choice(x: int, max: int)

  /** The lookahead count from the robot at (x, y). */
  function LookAhead(wall: seq<Brick>, x: int, y: int): nat {
    Greedy(wall, Pos(x, y))
  }

  /** One iteration of the search loop: a tie goes to a strictly closer candidate, a larger
      count always wins. */
  function Step(ch: Choice, cand: int, count: int, robotX: int): Choice {
    var tie := if count == ch.max && Abs(cand - robotX) < Abs(ch.x - robotX) then ch.(x := cand) else ch;
    if count > ch.max then Choice(cand, count) else tie
  }

  /** The lookahead count of each candidate in `cands`, at height `y`. */
  function Counts(wall: seq<Brick>, cands: seq<int>, y: int): (r: seq<nat>)
    ensures |r| == |cands|
    ensures forall k :: 0 <= k < |cands| ==> r[k] == LookAhead(wall, cands[k], y)
  {
    seq(|cands|, k requires 0 <= k < |cands| => LookAhead(wall, cands[k], y))
  }

  /** The search state after the first `n` candidates, `counts[k]` being the count of `cands[k]`. */
  function Search(cands: seq<int>, counts: seq<int>, robotX: int, n: nat): Choice
    requires n <= |cands| == |counts|
  {
    if n == 0 then Choice(robotX, -1)
    else Step(Search(cands, counts, robotX, n - 1), cands[n - 1], counts[n - 1], robotX)
  }

  /** The position `calculateNewRobotPosition` returns. */
  function PlannedPosition(wall: seq<Brick>, robot: Pos): Pos {
    var y := TargetY(LowestIncompleteCourse(wall));
    var cands := Candidates(wall);
    Pos(Search(cands, Counts(wall, cands, y), robot.x, |cands|).x, y)
  }

  /** `calculateNewRobotPosition`, for the wall and robot position passed in. */
  method CalculateNewRobotPosition(wall: seq<Brick>, robot: Pos) returns (p: Pos)
    ensures p == PlannedPosition(wall, robot)
  {
    var course := FindLowestIncomplete(wall);
    var newY := Min(CourseY(course) + ENVELOPE_HEIGHT / 2, WALL_HEIGHT - ENVELOPE_HEIGHT / 2);
    var cands := Candidates(wall);
    var bestX := SearchCandidates(wall, cands, newY, robot.x);
    p := Pos(bestX, newY);
  }

  /** The scan for the lowest course that is not complete. */
  method FindLowestIncomplete(wall: seq<Brick>) returns (course: nat)
    ensures course == LowestIncompleteCourse(wall)
  {
    var nRows := WALL_HEIGHT / COURSE_HEIGHT;
    course := 0;
    while course < nRows
      invariant 0 <= course <= nRows
      invariant forall c :: 0 <= c < course ==> CourseComplete(wall, c)
    {
      if !CourseComplete(wall, course) {
        break;
      }
      course := course + 1;
    }
    LowestIncompleteUnique(wall, course);
  }

  /** The search loop over the candidates `cands` at height `y`. */
  method SearchCandidates(wall: seq<Brick>, cands: seq<int>, y: int, robotX: int) returns (bestX: int)
    ensures bestX == Search(cands, Counts(wall, cands, y), robotX, |cands|).x
  {
    bestX := robotX;
    var maxBuildable: int := -1;
    ghost var counts := Counts(wall, cands, y);
    for i := 0 to |cands|
      invariant Choice(bestX, maxBuildable) == Search(cands, counts, robotX, i)
    {
      var buildableCount := CountBuildableFromPosition(wall, Pos(cands[i], y));
      bestX, maxBuildable := Consider(bestX, maxBuildable, cands[i], buildableCount, robotX);
    }
  }

  /** The body of the search loop for candidate `cand` with lookahead count `count`. */
  method Consider(bestX: int, maxBuildable: int, cand: int, count: int, robotX: int)
    returns (bestX': int, maxBuildable': int)
    ensures Choice(bestX', maxBuildable') == Step(Choice(bestX, maxBuildable), cand, count, robotX)
  {
    bestX', maxBuildable' := bestX, maxBuildable;
    if count == maxBuildable {
      var currentDistance := Abs(bestX - robotX);
      var newDistance := Abs(cand - robotX);
      if newDistance < currentDistance {
        bestX' := cand;
      }
    }
    if count > maxBuildable {
      maxBuildable' := count;
      bestX' := cand;
    }
  }

  /** The characterisation of LowestIncompleteCourse determines it. */
  lemma LowestIncompleteUnique(s: seq<Brick>, c: nat)
    requires c <= NROWS
    requires forall c' :: 0 <= c' < c ==> CourseComplete(s, c')
    requires c < NROWS ==> !CourseComplete(s, c)
    ensures c == LowestIncompleteCourse(s)
  {
  }

  /** An incomplete course bounds the lowest incomplete course from above. */
  lemma LowestIncompleteAtMost(s: seq<Brick>, c: int)
    requires 0 <= c < NROWS && !CourseComplete(s, c)
    ensures LowestIncompleteCourse(s) <= c
  {
  }

  // ---------------------------------------------------------------------------
  // Properties
  // ---------------------------------------------------------------------------

  /** After `n` candidates the search holds one of them (or the robot's x if there are none),
      with its own count; no candidate seen has a larger count, and none with the same count
      is strictly closer to the robot. */
  lemma {:induction false} SearchOptimal(cands: seq<int>, counts: seq<int>, robotX: int, n: nat)
    requires n <= |cands| == |counts|
    requires forall k :: 0 <= k < |counts| ==> counts[k] >= 0
    ensures n == 0 ==> Search(cands, counts, robotX, n) == Choice(robotX, -1)
    ensures n > 0 ==> exists k :: 0 <= k < n && Chosen(cands, counts, robotX, n, k)
    ensures forall k :: 0 <= k < n ==> Beaten(cands, counts, robotX, n, k)
  {
    if n > 0 {
      SearchOptimal(cands, counts, robotX, n - 1);
      var prev := Search(cands, counts, robotX, n - 1);
      if n == 1 {
        assert Chosen(cands, counts, robotX, n, 0);
      } else if counts[n - 1] > prev.max {
        assert Chosen(cands, counts, robotX, n, n - 1);
      } else if counts[n - 1] == prev.max && Abs(cands[n - 1] - robotX) < Abs(prev.x - robotX) {
        assert Chosen(cands, counts, robotX, n, n - 1);
      } else {
        var j :| 0 <= j < n - 1 && Chosen(cands, counts, robotX, n - 1, j);
        assert Chosen(cands, counts, robotX, n, j);
      }
      forall k | 0 <= k < n
        ensures Beaten(cands, counts, robotX, n, k)
      {
        if k < n - 1 {
          assert Beaten(cands, counts, robotX, n - 1, k);
        }
      }
    }
  }

  /** After `n` candidates the search holds candidate `k` with its count. */
  predicate Chosen(cands: seq<int>, counts: seq<int>, robotX: int, n: nat, k: int)
    requires n <= |cands| == |counts|
  {
    0 <= k < n && Search(cands, counts, robotX, n) == Choice(cands[k], counts[k])
  }

  /** After `n` candidates the search beats or ties candidate `k`: a count at least as large,
      and on an equal count a position no farther from `robotX`. */
  predicate Beaten(cands: seq<int>, counts: seq<int>, robotX: int, n: nat, k: int)
    requires n <= |cands| == |counts|
  {
    var ch := Search(cands, counts, robotX, n);
    0 <= k < n && counts[k] <= ch.max && (counts[k] == ch.max ==> Abs(ch.x - robotX) <= Abs(cands[k] - robotX))
  }

  /** No candidate x at height `p.y` has a larger lookahead count than `p.x`, and none with
      the same count is strictly closer to `robotX`. */
  ghost predicate BestAmongCandidates(wall: seq<Brick>, robotX: int, p: Pos) {
    forall x :: IsCandidate(wall, x) ==>
      && LookAhead(wall, x, p.y) <= LookAhead(wall, p.x, p.y)
      && (LookAhead(wall, x, p.y) == LookAhead(wall, p.x, p.y) ==> Abs(p.x - robotX) <= Abs(x - robotX))
  }

  /** The search over the candidates at height `y`. */
  function SearchAt(wall: seq<Brick>, y: int, robotX: int): Choice {
    var cands := Candidates(wall);
    Search(cands, Counts(wall, cands, y), robotX, |cands|)
  }

  /** The search at height `y` ends on a candidate whose count is its lookahead, or on
      `robotX` when the wall is empty. */
  lemma SearchAtPicks(wall: seq<Brick>, y: int, robotX: int)
    ensures wall == [] ==> SearchAt(wall, y, robotX).x == robotX
    ensures wall != [] ==> IsCandidate(wall, SearchAt(wall, y, robotX).x)
    ensures wall != [] ==> SearchAt(wall, y, robotX).max == LookAhead(wall, SearchAt(wall, y, robotX).x, y)
  {
    var cands := Candidates(wall);
    var counts := Counts(wall, cands, y);
    SearchOptimal(cands, counts, robotX, |cands|);
    if wall != [] {
      assert IsCandidate(wall, wall[0].x + ENVELOPE_WIDTH / 2);
      var j :| 0 <= j < |cands| && Chosen(cands, counts, robotX, |cands|, j);
      assert SearchAt(wall, y, robotX) == Choice(cands[j], counts[j]);
    }
  }

  /** The full search beats or ties candidate `k`. */
  lemma SearchBeatsIndex(cands: seq<int>, counts: seq<int>, robotX: int, k: int)
    requires |cands| == |counts| && 0 <= k < |cands|
    requires forall j :: 0 <= j < |counts| ==> counts[j] >= 0
    ensures counts[k] <= Search(cands, counts, robotX, |cands|).max
    ensures counts[k] == Search(cands, counts, robotX, |cands|).max ==>
      Abs(Search(cands, counts, robotX, |cands|).x - robotX) <= Abs(cands[k] - robotX)
  {
    SearchOptimal(cands, counts, robotX, |cands|);
    assert Beaten(cands, counts, robotX, |cands|, k);
  }

  /** The search at height `y` beats or ties every candidate `x`. */
  lemma SearchAtBeats(wall: seq<Brick>, y: int, robotX: int, x: int)
    requires IsCandidate(wall, x)
    ensures LookAhead(wall, x, y) <= SearchAt(wall, y, robotX).max
    ensures LookAhead(wall, x, y) == SearchAt(wall, y, robotX).max ==>
      Abs(SearchAt(wall, y, robotX).x - robotX) <= Abs(x - robotX)
  {
    var cands := Candidates(wall);
    var counts := Counts(wall, cands, y);
    var k :| 0 <= k < |cands| && cands[k] == x;
    SearchBeatsIndex(cands, counts, robotX, k);
  }

  /** `calculateNewRobotPosition`: the robot goes to the height of the lowest incomplete
      course; across the wall it goes to a candidate position with the largest lookahead
      count, the closest to its current x among those, or stays at its x if the wall is empty. */
  lemma PlannedPositionOptimal(wall: seq<Brick>, robot: Pos)
    ensures PlannedPosition(wall, robot).y == TargetY(LowestIncompleteCourse(wall))
    ensures wall == [] ==> PlannedPosition(wall, robot).x == robot.x
    ensures wall != [] ==> IsCandidate(wall, PlannedPosition(wall, robot).x)
    ensures BestAmongCandidates(wall, robot.x, PlannedPosition(wall, robot))
  {
    var y := TargetY(LowestIncompleteCourse(wall));
    var p := PlannedPosition(wall, robot);
    assert p == Pos(SearchAt(wall, y, robot.x).x, y);
    SearchAtPicks(wall, y, robot.x);
    forall x | IsCandidate(wall, x)
      ensures LookAhead(wall, x, y) <= LookAhead(wall, p.x, y)
      ensures LookAhead(wall, x, y) == LookAhead(wall, p.x, y) ==> Abs(p.x - robot.x) <= Abs(x - robot.x)
    {
      SearchAtBeats(wall, y, robot.x, x);
    }
  }

  /** At the planned height the envelope reaches the target course vertically: a brick of the
      lowest incomplete course no wider than the envelope fits when the envelope's left edge is
      on the brick's left edge. */
  lemma TargetCourseInReach(wall: seq<Brick>, b: Brick)
    requires LowestIncompleteCourse(wall) < NROWS
    requires b.y == CourseY(LowestIncompleteCourse(wall)) && 0 <= b.length <= ENVELOPE_WIDTH
    ensures FitsWithinRobotWindow(b, Pos(b.x + ENVELOPE_WIDTH / 2, TargetY(LowestIncompleteCourse(wall))))
  {
  }

  /** Relocation makes progress: if some unbuilt brick of the lowest incomplete course is
      supported and not wider than the envelope, the planned position lets the robot lay at
      least one brick. */
  lemma PlannedPositionProgress(wall: seq<Brick>, robot: Pos, i: nat)
    requires i < |wall| && !wall[i].built && 0 <= wall[i].length <= ENVELOPE_WIDTH
    requires LowestIncompleteCourse(wall) < NROWS && wall[i].y == CourseY(LowestIncompleteCourse(wall))
    requires BrickCanBeBuilt(wall[i], wall)
    ensures FirstBuildable(wall, PlannedPosition(wall, robot)).Some?
  {
    var p := PlannedPosition(wall, robot);
    var x := wall[i].x + ENVELOPE_WIDTH / 2;
    TargetCourseInReach(wall, wall[i]);
    assert Buildable(wall, i, Pos(x, p.y));
    assert IsCandidate(wall, x);
    PlannedPositionOptimal(wall, robot);
    GreedyZero(wall, Pos(x, p.y));
    GreedyZero(wall, p);
  }
}
