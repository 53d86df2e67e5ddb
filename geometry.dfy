/** Dimensions and the brick record shared by every part of the simulator.
    All lengths are in HALF-MILLIMETRES: every dimension of the source is a multiple
    of 0.5 mm (the bed joint is 12.5 mm, the quarter brick 52.5 mm), so integers
    represent them exactly and the equality tests on course heights are exact. */
module Geometry {

  datatype Option<T> = None | Some(value: T)

  // src/constants.ts, doubled
  const FULL_BRICK_LENGTH: int := 420   // 210 mm
  const FULL_BRICK_WIDTH: int := 200    // 100 mm (a header)
  const HALF_BRICK_LENGTH: int := 200   // 100 mm
  const BRICK_HEIGHT: int := 100        // 50 mm
  const HEAD_JOINT: int := 20           // 10 mm
  const BED_JOINT: int := 25            // 12.5 mm
  const COURSE_HEIGHT: int := BRICK_HEIGHT + BED_JOINT
  const WALL_WIDTH: int := 4600         // 2300 mm
  const WALL_HEIGHT: int := 4000        // 2000 mm
  const ENVELOPE_WIDTH: int := 1600     // 800 mm
  const ENVELOPE_HEIGHT: int := 2600    // 1300 mm

  /** Math.floor(WALL_HEIGHT / COURSE_HEIGHT): both are positive, so Euclidean
      division agrees with the floor. */
  const NROWS: int := WALL_HEIGHT / COURSE_HEIGHT

  /** The baseline of course `r`, `r * COURSE_HEIGHT`: courses are numbered from 0 at the
      bottom. The product is written with the literal so that it stays linear arithmetic;
      CourseBaselines states what the baselines are. */
  function CourseY(r: int): int {
    r * 125
  }

  /** Neighbouring courses lie exactly one course height apart, every one of the NROWS
      courses fits its brick below the top of the wall, and a further course would not. */
  lemma CourseBaselines(r: int)
    ensures CourseY(r + 1) == CourseY(r) + COURSE_HEIGHT
    ensures 0 <= r < NROWS ==> 0 <= CourseY(r) && CourseY(r) + BRICK_HEIGHT <= WALL_HEIGHT
    ensures CourseY(NROWS) + BRICK_HEIGHT > WALL_HEIGHT
  {
  }

  /** A brick slot: left edge `x`, course baseline `y`, its `length` along the wall,
      and the two fields the build process changes. */
  datatype Brick = Brick(x: int, y: int, length: int, built: bool, builtDuringStrideNr: Option<int>)

  /** The centre of the robot's reach envelope. */
  datatype Pos = Pos(x: int, y: int)

  /** A freshly generated, unbuilt slot. */
  function Slot(x: int, y: int, length: int): Brick {
    Brick(x, y, length, false, None)
  }

  function Abs(v: int): int {
    if v < 0 then -v else v
  }

  function Min(a: int, b: int): int {
    if a <= b then a else b
  }

  /** The number of bricks of `s` not yet built. */
  function NumUnbuilt(s: seq<Brick>): nat {
    if s == [] then 0 else (if s[0].built then 0 else 1) + NumUnbuilt(s[1..])
  }

  /** A slot as the generators create it: not built, no stride recorded. */
  predicate Fresh(b: Brick) {
    !b.built && b.builtDuringStrideNr == None
  }

  /** A brick that lies on course `row`, inside the wall, with a positive length. */
  predicate InsideCourse(b: Brick, row: int) {
    b.y == CourseY(row) && 0 < b.length && 0 <= b.x && b.x + b.length <= WALL_WIDTH
  }

  /** Every brick lies left of every later brick, with at least a head joint between them. */
  predicate Separated(s: seq<Brick>) {
    forall i, j :: 0 <= i < j < |s| ==> s[i].x + s[i].length + HEAD_JOINT <= s[j].x
  }

  /** Every brick of `c` lies on course `row`. */
  predicate OnRow(c: seq<Brick>, row: int) {
    forall i :: 0 <= i < |c| ==> c[i].y == CourseY(row)
  }

  /** A course of fresh slots on course `row`, inside the wall, left to right without overlap. */
  predicate LaidCourse(c: seq<Brick>, row: int) {
    (forall i :: 0 <= i < |c| ==> InsideCourse(c[i], row) && Fresh(c[i])) && Separated(c)
  }

  lemma LaidCourseOnRow(c: seq<Brick>, row: int)
    requires LaidCourse(c, row)
    ensures OnRow(c, row)
  {
    forall i | 0 <= i < |c| ensures c[i].y == CourseY(row) {
      assert InsideCourse(c[i], row);
    }
  }

  /** The first `n` courses of a wall, bottom course first, as the generators' row loops
      append them. */
  function Stack(course: nat -> seq<Brick>, n: nat): seq<Brick> {
    if n == 0 then [] else Stack(course, n - 1) + course(n - 1)
  }

  /** Two course functions that agree on the first `n` rows stack to the same wall. */
  lemma {:induction false} StackEqual(f: nat -> seq<Brick>, g: nat -> seq<Brick>, n: nat)
    requires forall r: nat :: r < n ==> f(r) == g(r)
    ensures Stack(f, n) == Stack(g, n)
  {
    if n > 0 {
      StackEqual(f, g, n - 1);
    }
  }

  /** A wall of `n` courses as the generators lay it: every slot is fresh and inside the
      wall on one of the first `n` courses, the courses come bottom-up, and no two slots of
      a course overlap. */
  predicate WellFormedWall(w: seq<Brick>, n: int) {
    && (forall i :: 0 <= i < |w| ==>
          Fresh(w[i]) && 0 < w[i].length && 0 <= w[i].x && w[i].x + w[i].length <= WALL_WIDTH
          && 0 <= w[i].y < CourseY(n) && w[i].y % COURSE_HEIGHT == 0)
    && (forall i, j :: 0 <= i < j < |w| ==> w[i].y <= w[j].y)
    && (forall i, j :: 0 <= i < j < |w| && w[i].y == w[j].y ==> w[i].x + w[i].length + HEAD_JOINT <= w[j].x)
  }

  lemma CourseYFacts(r: int)
    ensures CourseY(r) % COURSE_HEIGHT == 0
    ensures CourseY(r) < CourseY(r + 1)
    ensures forall r' :: CourseY(r') == CourseY(r) ==> r' == r
  {
  }

  /** Putting a course laid on row `n - 1` on a well-formed wall of `n - 1` courses. */
  lemma StackStep(w: seq<Brick>, c: seq<Brick>, n: int)
    requires 1 <= n && WellFormedWall(w, n - 1) && LaidCourse(c, n - 1)
    ensures WellFormedWall(w + c, n)
  {
    CourseYFacts(n - 1);
    var u := w + c;
    forall i | 0 <= i < |u|
      ensures Fresh(u[i]) && 0 < u[i].length && 0 <= u[i].x && u[i].x + u[i].length <= WALL_WIDTH
              && 0 <= u[i].y < CourseY(n) && u[i].y % COURSE_HEIGHT == 0
    {
      if i < |w| {
        assert u[i] == w[i];
      } else {
        assert u[i] == c[i - |w|] && InsideCourse(c[i - |w|], n - 1);
      }
    }
    forall i, j | 0 <= i < j < |u|
      ensures u[i].y <= u[j].y
      ensures u[i].y == u[j].y ==> u[i].x + u[i].length + HEAD_JOINT <= u[j].x
    {
      if j < |w| {
        assert u[i] == w[i] && u[j] == w[j];
      } else if i >= |w| {
        assert u[i] == c[i - |w|] && u[j] == c[j - |w|];
        assert InsideCourse(c[i - |w|], n - 1) && InsideCourse(c[j - |w|], n - 1);
      } else {
        assert u[i] == w[i] && u[j] == c[j - |w|];
        assert InsideCourse(c[j - |w|], n - 1);
      }
    }
  }

  /** Stacking courses that are each laid on their own row gives a well-formed wall. */
  lemma {:induction false} StackShape(course: nat -> seq<Brick>, n: nat)
    requires forall r: nat :: r < n ==> LaidCourse(course(r), r)
    ensures WellFormedWall(Stack(course, n), n)
  {
    if n > 0 {
      StackShape(course, n - 1);
      StackStep(Stack(course, n - 1), course(n - 1), n);
    }
  }

  /** The bricks of `s` lying in course `c`, in order (`filter((b) => b.y === c * COURSE_HEIGHT)`). */
  function OnCourse(s: seq<Brick>, c: int): seq<Brick> {
    if s == [] then []
    else (if s[0].y == CourseY(c) then [s[0]] else []) + OnCourse(s[1..], c)
  }

  lemma {:induction false} OnCourseConcat(s: seq<Brick>, t: seq<Brick>, c: int)
    ensures OnCourse(s + t, c) == OnCourse(s, c) + OnCourse(t, c)
  {
    if s != [] {
      var head := if s[0].y == CourseY(c) then [s[0]] else [];
      assert (s + t)[0] == s[0] && (s + t)[1..] == s[1..] + t;
      OnCourseConcat(s[1..], t, c);
      calc {
        OnCourse(s + t, c);
        head + OnCourse(s[1..] + t, c);
        head + (OnCourse(s[1..], c) + OnCourse(t, c));
        (head + OnCourse(s[1..], c)) + OnCourse(t, c);
      }
    } else {
      assert s + t == t;
    }
  }

  /** Filtering keeps a sequence that lies entirely in the course ... */
  lemma {:induction false} OnCourseAll(s: seq<Brick>, c: int)
    requires forall i :: 0 <= i < |s| ==> s[i].y == CourseY(c)
    ensures OnCourse(s, c) == s
  {
    if s != [] {
      OnCourseAll(s[1..], c);
    }
  }

  /** ... and removes one that lies entirely elsewhere. */
  lemma {:induction false} OnCourseNone(s: seq<Brick>, c: int)
    requires forall i :: 0 <= i < |s| ==> s[i].y != CourseY(c)
    ensures OnCourse(s, c) == []
  {
    if s != [] {
      OnCourseNone(s[1..], c);
    }
  }

  /** Filtering a sequence with a course laid on row `row` appended. */
  lemma OnCourseAppend(w: seq<Brick>, c: seq<Brick>, row: int, r: int)
    requires OnRow(c, row)
    ensures OnCourse(w + c, r) == OnCourse(w, r) + (if r == row then c else [])
  {
    OnCourseConcat(w, c, r);
    CourseYFacts(row);
    if r == row {
      OnCourseAll(c, r);
    } else {
      OnCourseNone(c, r);
    }
  }

  /** Filtering a stack by course `r` gives back exactly course `r` (nothing beyond the stack). */
  lemma {:induction false} StackCourse(course: nat -> seq<Brick>, n: nat, r: nat)
    requires forall r': nat :: r' < n ==> OnRow(course(r'), r')
    ensures OnCourse(Stack(course, n), r) == if r < n then course(r) else []
  {
    if n > 0 {
      var w, c := Stack(course, n - 1), course(n - 1);
      StackCourse(course, n - 1, r);
      assert OnRow(c, n - 1);
      OnCourseAppend(w, c, n - 1, r);
      if r < n - 1 {
        assert OnCourse(w + c, r) == course(r) + [];
      } else if r == n - 1 {
        assert OnCourse(w + c, r) == [] + c;
      } else {
        assert OnCourse(w + c, r) == [] + [];
      }
    }
  }
}
