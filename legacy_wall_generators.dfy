/** The older stretcher-bond generator of src/wallGenerators.ts. It names its two brick sizes
    FULL_BRICK_WIDTH and HALF_BRICK_WIDTH; src/constants.ts defines the first as a header
    width and does not define the second, so the generator is modelled for any positive pair
    of sizes, and the lemmas below describe it for the pair App.tsx uses (420 and 200). */
module LegacyWallGenerators {
  import opened Geometry
  import WallGenerators

  /** The bricks a course receives from cursor `x` on: full bricks while they fit, then one
      half brick if it fits. */
  function LegacyTail(x: int, y: int, full: int, half: int): seq<Brick>
    requires full > 0 && half > 0
    decreases WALL_WIDTH - x
  {
    if x + full <= WALL_WIDTH then [Slot(x, y, full)] + LegacyTail(x + full + HEAD_JOINT, y, full, half)
    else if x <= WALL_WIDTH - half then [Slot(x, y, half)]
    else []
  }

  /** Course `row`: odd courses open with a half brick. */
  function LegacyCourse(row: nat, full: int, half: int): seq<Brick>
    requires full > 0 && half > 0
  {
    if row % 2 == 1 then [Slot(0, CourseY(row), half)] + LegacyTail(half + HEAD_JOINT, CourseY(row), full, half)
    else LegacyTail(0, CourseY(row), full, half)
  }

  function LegacyLayout(n: nat, full: int, half: int): seq<Brick>
    requires full > 0 && half > 0
  {
    Stack((r: nat) => LegacyCourse(r, full, half), n)
  }

  lemma TailStep(done: seq<Brick>, x: int, y: int, full: int, half: int, target: seq<Brick>)
    requires full > 0 && half > 0 && x + full <= WALL_WIDTH
    requires done + LegacyTail(x, y, full, half) == target
    ensures (done + [Slot(x, y, full)]) + LegacyTail(x + full + HEAD_JOINT, y, full, half) == target
  {
    assert LegacyTail(x, y, full, half) == [Slot(x, y, full)] + LegacyTail(x + full + HEAD_JOINT, y, full, half);
  }

  /** generateStretcherBond(nRows) of src/wallGenerators.ts, with its two brick sizes as parameters. */
  method GenerateStretcherBond(nRows: nat, full: int, half: int) returns (bricks: seq<Brick>)
    requires full > 0 && half > 0
    ensures bricks == LegacyLayout(nRows, full, half)
  {
    bricks := [];
    for row := 0 to nRows
      invariant bricks == LegacyLayout(row, full, half)
    {
      bricks := AppendCourse(bricks, row, full, half);
    }
  }

  /** The body of the row loop. */
  method AppendCourse(bricks0: seq<Brick>, row: nat, full: int, half: int) returns (bricks: seq<Brick>)
    requires full > 0 && half > 0
    ensures bricks == bricks0 + LegacyCourse(row, full, half)
  {
    bricks := bricks0;
    var isOdd := row % 2 == 1;
    var x := 0;
    var y := CourseY(row);  // row * COURSE_HEIGHT
    ghost var target := bricks + LegacyCourse(row, full, half);
    if isOdd {
      bricks := bricks + [Slot(x, y, half)];
      x := x + half + HEAD_JOINT;
    }
    assert bricks + LegacyTail(x, y, full, half) == target;
    while x + full <= WALL_WIDTH
      invariant bricks + LegacyTail(x, y, full, half) == target
      decreases WALL_WIDTH - x
    {
      TailStep(bricks, x, y, full, half, target);
      bricks := bricks + [Slot(x, y, full)];
      x := x + full + HEAD_JOINT;
    }
    if x <= WALL_WIDTH - half {
      bricks := bricks + [Slot(x, y, half)];
      x := x + half + HEAD_JOINT;
    }
  }

  /** PATTERN_MAP of src/wallGenerators.ts: pattern id to display name; the one generator is
      the stretcher bond. */
  const PATTERN_MAP: map<string, string> := map["stretcher" := "Stretcher bond"]

  /** generateWall of src/wallGenerators.ts: the stretcher bond over floor(WALL_HEIGHT /
      COURSE_HEIGHT) courses for a registered id, no bricks otherwise (the lookup is
      restricted to the registry's own ids, as in WallGenerators.GenerateWall). */
  method GenerateWall(pattern: string, full: int, half: int) returns (bricks: seq<Brick>)
    requires full > 0 && half > 0
    ensures bricks == if pattern == "stretcher" then LegacyLayout(NROWS, full, half) else []
  {
    var nRows := WALL_HEIGHT / COURSE_HEIGHT;
    if pattern in PATTERN_MAP {
      bricks := GenerateStretcherBond(nRows, full, half);
    } else {
      bricks := [];
    }
  }

  // ---------------------------------------------------------------------------
  // Properties
  // ---------------------------------------------------------------------------

  /** Every brick of a legacy tail is a full or a half brick on the baseline, inside the
      wall right of the cursor, left to right one head joint apart. */
  lemma {:induction false} LegacyTailShape(x: int, y: int, full: int, half: int)
    requires full > 0 && half > 0 && 0 <= x
    ensures var t := LegacyTail(x, y, full, half);
      && (t != [] ==> t[0].x == x)
      && WallGenerators.Contiguous(t)
      && (forall i :: 0 <= i < |t| ==> LegacyBrick(t[i], x, y, full, half))
      && (forall i :: 0 <= i < |t| - 1 ==> t[i].length == full)
      && (x + full <= WALL_WIDTH ==> t != [] && t[0].length == full)
    decreases WALL_WIDTH - x
  {
    var t := LegacyTail(x, y, full, half);
    if x + full <= WALL_WIDTH {
      var x' := x + full + HEAD_JOINT;
      var rest := LegacyTail(x', y, full, half);
      assert t == [Slot(x, y, full)] + rest;
      LegacyTailShape(x', y, full, half);
      WallGenerators.ContiguousJoin([Slot(x, y, full)], rest);
      forall i | 0 < i < |t|
        ensures LegacyBrick(t[i], x, y, full, half)
        ensures i < |t| - 1 ==> t[i].length == full
      {
        assert t[i] == rest[i - 1] && LegacyBrick(rest[i - 1], x', y, full, half);
      }
    }
  }

  /** A brick of a legacy course: on baseline `y`, fresh, full or half, inside the wall from `x0` on. */
  predicate LegacyBrick(b: Brick, x0: int, y: int, full: int, half: int) {
    b.y == y && Fresh(b) && (b.length == full || b.length == half) && x0 <= b.x && b.x + b.length <= WALL_WIDTH
  }

  /** Every legacy course is laid on its own row, fresh, inside the wall and without overlap,
      starts at the left edge, and uses only full and half bricks. */
  lemma LegacyCourseShape(row: nat, full: int, half: int)
    requires full > 0 && half > 0 && half <= WALL_WIDTH
    ensures var c := LegacyCourse(row, full, half);
      && LaidCourse(c, row)
      && WallGenerators.Contiguous(c)
      && (c != [] ==> c[0].x == 0)
      && (forall i :: 0 <= i < |c| ==> c[i].length == full || c[i].length == half)
  {
    var y := CourseY(row);
    var lead := if row % 2 == 1 then [Slot(0, y, half)] else [];
    var x := if row % 2 == 1 then half + HEAD_JOINT else 0;
    var t := LegacyTail(x, y, full, half);
    var c := LegacyCourse(row, full, half);
    assert c == lead + t;
    LegacyTailShape(x, y, full, half);
    assert WallGenerators.Contiguous(lead);
    WallGenerators.ContiguousJoin(lead, t);
    forall i | 0 <= i < |c|
      ensures InsideCourse(c[i], row) && Fresh(c[i]) && (c[i].length == full || c[i].length == half)
    {
      if i >= |lead| {
        assert c[i] == t[i - |lead|] && LegacyBrick(t[i - |lead|], x, y, full, half);
      }
    }
    WallGenerators.ContiguousSeparated(c);
  }

  /** Odd legacy courses open with a half brick, even ones with a full brick, and apart from
      that only the last brick of a course may be a half brick. */
  lemma LegacyCourseLengths(row: nat, full: int, half: int)
    requires full > 0 && half > 0
    ensures var c := LegacyCourse(row, full, half);
      && (row % 2 == 1 ==> c != [] && c[0].length == half)
      && (row % 2 == 0 && full <= WALL_WIDTH ==> c != [] && c[0].length == full)
      && (forall i :: WallGenerators.LeadCount(row) <= i < |c| - 1 ==> c[i].length == full)
  {
    var y := CourseY(row);
    var x := if row % 2 == 1 then half + HEAD_JOINT else 0;
    var t := LegacyTail(x, y, full, half);
    var c := LegacyCourse(row, full, half);
    LegacyTailShape(x, y, full, half);
    if row % 2 == 1 {
      assert c == [Slot(0, y, half)] + t;
      forall i | 1 <= i < |c| - 1 ensures c[i].length == full {
        assert c[i] == t[i - 1];
      }
    }
  }

  /** The first `m` courses of a legacy wall lead it, followed by course `m`. */
  lemma {:induction false} LegacyLayoutPrefix(m: nat, n: nat, full: int, half: int)
    requires full > 0 && half > 0 && m < n
    ensures |LegacyLayout(m, full, half)| + |LegacyCourse(m, full, half)| <= |LegacyLayout(n, full, half)|
    ensures LegacyLayout(n, full, half)[..|LegacyLayout(m, full, half)| + |LegacyCourse(m, full, half)|]
         == LegacyLayout(m, full, half) + LegacyCourse(m, full, half)
  {
    assert LegacyLayout(m + 1, full, half) == LegacyLayout(m, full, half) + LegacyCourse(m, full, half);
    if n > m + 1 {
      LegacyLayoutPrefix(m, n - 1, full, half);
      assert LegacyLayout(n, full, half) == LegacyLayout(n - 1, full, half) + LegacyCourse(n - 1, full, half);
    }
  }

  /** Every legacy wall is well formed. */
  lemma LegacyLayoutShape(n: nat, full: int, half: int)
    requires full > 0 && half > 0 && half <= WALL_WIDTH
    ensures WellFormedWall(LegacyLayout(n, full, half), n)
  {
    forall r: nat | r < n
      ensures LaidCourse(LegacyCourse(r, full, half), r)
    {
      LegacyCourseShape(r, full, half);
    }
    StackShape((r: nat) => LegacyCourse(r, full, half), n);
  }

  /** With App.tsx's sizes the legacy tail is the stretcher bond's tail from the cursors that
      bond reaches: multiples of 440 on even courses, 220 plus a multiple of 440 on odd ones. */
  lemma {:induction false} LegacyTailAgrees(x: int, y: int)
    requires 0 <= x && (x % 440 == 0 || x % 440 == 220)
    ensures LegacyTail(x, y, FULL_BRICK_LENGTH, HALF_BRICK_LENGTH)
         == WallGenerators.Tail(x, y, FULL_BRICK_LENGTH, FULL_BRICK_LENGTH, FULL_BRICK_LENGTH)
    decreases WALL_WIDTH - x
  {
    if x + FULL_BRICK_LENGTH <= WALL_WIDTH {
      LegacyTailAgrees(x + FULL_BRICK_LENGTH + HEAD_JOINT, y);
    }
  }

  /** The older generator with App.tsx's sizes (210 mm and 100 mm) lays exactly the stretcher
      bond of src/lib/wallGenerators.ts. */
  lemma LegacyMatchesStretcher(n: nat)
    ensures LegacyLayout(n, FULL_BRICK_LENGTH, HALF_BRICK_LENGTH) == WallGenerators.Layout(WallGenerators.Stretcher, n)
  {
    forall r: nat | r < n
      ensures LegacyCourse(r, FULL_BRICK_LENGTH, HALF_BRICK_LENGTH) == WallGenerators.Course(WallGenerators.Stretcher, r)
    {
      LegacyTailAgrees(if r % 2 == 1 then HALF_BRICK_LENGTH + HEAD_JOINT else 0, CourseY(r));
      WallGenerators.CourseUnfold(WallGenerators.Stretcher, r);
    }
    StackEqual((r: nat) => LegacyCourse(r, FULL_BRICK_LENGTH, HALF_BRICK_LENGTH),
               (r: nat) => WallGenerators.Course(WallGenerators.Stretcher, r), n);
  }
}
