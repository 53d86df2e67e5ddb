/** The three bond generators of src/lib/wallGenerators.ts and the pattern registry.
    Each generator walks the courses bottom-up with an `x` cursor and appends slots;
    the functions Tail, Course and Layout describe the result course by course,
    and the lemmas below state what every generated layout looks like. */
module WallGenerators {
  import opened Geometry

  datatype Bond = Stretcher | EnglishCross | Flemish

  /** FULL_BRICK_LENGTH / 4 = 52.5 mm: the cursor advance after the small brick
      that opens an offset course. */
  const QUARTER_BRICK: int := FULL_BRICK_LENGTH / 4

  // ---------------------------------------------------------------------------
  // One course, described as the cursor walk the generators perform
  // ---------------------------------------------------------------------------

  /** The trailing fill brick: present only when the cursor is short of the wall edge,
      and then exactly long enough to reach it. */
  function Fill(x: int, y: int): seq<Brick> {
    if x < WALL_WIDTH then [Slot(x, y, WALL_WIDTH - x)] else []
  }

  /** Everything a course receives from cursor `x` on: the `while (x + guard <= WALL_WIDTH)`
      loop appends bricks of alternating lengths `a`, `b`, `a`, ... (a == b for a uniform
      course), then the fill brick closes the course. */
  function Tail(x: int, y: int, guard: int, a: int, b: int): seq<Brick>
    requires guard > 0 && a > 0 && b > 0
    decreases WALL_WIDTH - x
  {
    if x + guard <= WALL_WIDTH then [Slot(x, y, a)] + Tail(x + a + HEAD_JOINT, y, guard, b, a)
    else Fill(x, y)
  }

  /** Flemish bond: brick `k` of the main loop in row `row` is a stretcher when
      `k + row` is even and a header otherwise. */
  function FlemishLength(k: int, row: int): int {
    if (k + row) % 2 == 0 then FULL_BRICK_LENGTH else FULL_BRICK_WIDTH
  }

  /** The bricks a course starts with before its main loop: odd courses open with a
      half brick (stretcher bond) or with the small brick of length L/4 - HEAD_JOINT. */
  function Lead(bond: Bond, row: nat): seq<Brick> {
    if row % 2 == 1 then
      [Slot(0, CourseY(row), if bond == Stretcher then HALF_BRICK_LENGTH else QUARTER_BRICK - HEAD_JOINT)]
    else []
  }

  /** The cursor when the main loop of a course starts. */
  function StartX(bond: Bond, row: nat): int {
    if row % 2 == 1 then (if bond == Stretcher then HALF_BRICK_LENGTH + HEAD_JOINT else QUARTER_BRICK) else 0
  }

  /** The length the main loop tests against the wall edge. */
  function Guard(bond: Bond, row: nat): int {
    if bond == EnglishCross && row % 2 == 1 then FULL_BRICK_WIDTH else FULL_BRICK_LENGTH
  }

  /** The length of brick `k` of the main loop. */
  function LoopLength(bond: Bond, row: nat, k: nat): int {
    match bond
    case Stretcher => FULL_BRICK_LENGTH
    case EnglishCross => if row % 2 == 1 then FULL_BRICK_WIDTH else FULL_BRICK_LENGTH
    case Flemish => FlemishLength(k, row)
  }

  /** Course `row` of a bond, in the order the generator appends it. */
  function Course(bond: Bond, row: nat): seq<Brick> {
    Lead(bond, row) + Tail(StartX(bond, row), CourseY(row), Guard(bond, row),
                           LoopLength(bond, row, 0), LoopLength(bond, row, 1))
  }

  /** The first `n` courses, bottom course first. */
  function Layout(bond: Bond, n: nat): seq<Brick> {
    Stack((r: nat) => Course(bond, r), n)
  }

  // ---------------------------------------------------------------------------
  // Proof steps shared by the generators
  // ---------------------------------------------------------------------------

  /** One iteration of a main loop: the brick at the cursor is the head of the tail. */
  lemma TailStep(done: seq<Brick>, x: int, y: int, guard: int, a: int, b: int, target: seq<Brick>)
    requires guard > 0 && a > 0 && b > 0 && x + guard <= WALL_WIDTH
    requires done + Tail(x, y, guard, a, b) == target
    ensures (done + [Slot(x, y, a)]) + Tail(x + a + HEAD_JOINT, y, guard, b, a) == target
  {
    assert Tail(x, y, guard, a, b) == [Slot(x, y, a)] + Tail(x + a + HEAD_JOINT, y, guard, b, a);
  }

  /** Stretchers and headers alternate. */
  lemma FlemishPeriod(k: int, row: int)
    ensures FlemishLength(k + 2, row) == FlemishLength(k, row)
  {
  }

  /** The definition of Course, unfolded for the generators' proofs. */
  lemma CourseUnfold(bond: Bond, row: nat)
    ensures Course(bond, row) == Lead(bond, row) + Tail(StartX(bond, row), CourseY(row), Guard(bond, row),
                                                         LoopLength(bond, row, 0), LoopLength(bond, row, 1))
  {
  }

  // ---------------------------------------------------------------------------
  // The generators. Each row loop appends one course; the body of the row loop
  // is the Append...Course method next to it.
  // ---------------------------------------------------------------------------

  /** generateStretcherBond: every course is laid lengthwise, odd courses start with a half brick. */
  method GenerateStretcherBond() returns (bricks: seq<Brick>)
    ensures bricks == Layout(Stretcher, NROWS)
  {
    var nRows := WALL_HEIGHT / COURSE_HEIGHT;
    bricks := [];
    for row := 0 to nRows
      invariant bricks == Layout(Stretcher, row)
    {
      bricks := AppendStretcherCourse(bricks, row);
    }
  }

  /** The body of the row loop of generateStretcherBond. */
  method AppendStretcherCourse(bricks0: seq<Brick>, row: nat) returns (bricks: seq<Brick>)
    ensures bricks == bricks0 + Course(Stretcher, row)
  {
    bricks := bricks0;
    var isOdd := row % 2 == 1;
    var x := 0;
    var y := CourseY(row);  // row * COURSE_HEIGHT
    ghost var target := bricks + Course(Stretcher, row);
    if isOdd {
      // start the course with a half brick
      bricks := bricks + [Slot(x, y, HALF_BRICK_LENGTH)];
      x := x + HALF_BRICK_LENGTH + HEAD_JOINT;
    }
    assert bricks + Tail(x, y, FULL_BRICK_LENGTH, FULL_BRICK_LENGTH, FULL_BRICK_LENGTH) == target by {
      CourseUnfold(Stretcher, row);
    }
    while x + FULL_BRICK_LENGTH <= WALL_WIDTH
      invariant bricks + Tail(x, y, FULL_BRICK_LENGTH, FULL_BRICK_LENGTH, FULL_BRICK_LENGTH) == target
      decreases WALL_WIDTH - x
    {
      TailStep(bricks, x, y, FULL_BRICK_LENGTH, FULL_BRICK_LENGTH, FULL_BRICK_LENGTH, target);
      bricks := bricks + [Slot(x, y, FULL_BRICK_LENGTH)];
      x := x + FULL_BRICK_LENGTH + HEAD_JOINT;
    }
    // the main loop has stopped: only the fill brick remains
    assert Tail(x, y, FULL_BRICK_LENGTH, FULL_BRICK_LENGTH, FULL_BRICK_LENGTH) == Fill(x, y);
    // fill up any remaining space with a final brick
    if x < WALL_WIDTH {
      bricks := bricks + [Slot(x, y, WALL_WIDTH - x)];
      x := WALL_WIDTH;
    }
  }

  /** generateEnglishCrossBond: stretcher courses alternate with header courses. */
  method GenerateEnglishCrossBond() returns (bricks: seq<Brick>)
    ensures bricks == Layout(EnglishCross, NROWS)
  {
    var nRows := WALL_HEIGHT / COURSE_HEIGHT;
    bricks := [];
    for row := 0 to nRows
      invariant bricks == Layout(EnglishCross, row)
    {
      bricks := AppendEnglishCrossCourse(bricks, row);
    }
  }

  /** The body of the row loop of generateEnglishCrossBond. */
  method AppendEnglishCrossCourse(bricks0: seq<Brick>, row: nat) returns (bricks: seq<Brick>)
    ensures bricks == bricks0 + Course(EnglishCross, row)
  {
    bricks := bricks0;
    var x := 0;
    var y := CourseY(row);  // row * COURSE_HEIGHT
    ghost var target := bricks + Course(EnglishCross, row);
    if row % 2 == 1 {
      // header course, opened by the small brick that centres the first header
      // on the stretcher below
      bricks := bricks + [Slot(x, y, FULL_BRICK_LENGTH / 4 - HEAD_JOINT)];
      x := x + FULL_BRICK_LENGTH / 4;
      assert bricks + Tail(x, y, FULL_BRICK_WIDTH, FULL_BRICK_WIDTH, FULL_BRICK_WIDTH) == target by {
        CourseUnfold(EnglishCross, row);
      }
      while x + FULL_BRICK_WIDTH <= WALL_WIDTH
        invariant bricks + Tail(x, y, FULL_BRICK_WIDTH, FULL_BRICK_WIDTH, FULL_BRICK_WIDTH) == target
        decreases WALL_WIDTH - x
      {
        TailStep(bricks, x, y, FULL_BRICK_WIDTH, FULL_BRICK_WIDTH, FULL_BRICK_WIDTH, target);
        bricks := bricks + [Slot(x, y, FULL_BRICK_WIDTH)];
        x := x + FULL_BRICK_WIDTH + HEAD_JOINT;
      }
      // the main loop has stopped: only the fill brick remains
      assert Tail(x, y, FULL_BRICK_WIDTH, FULL_BRICK_WIDTH, FULL_BRICK_WIDTH) == Fill(x, y);
    } else {
      // stretcher course: bricks lengthwise
      assert bricks + Tail(x, y, FULL_BRICK_LENGTH, FULL_BRICK_LENGTH, FULL_BRICK_LENGTH) == target by {
        CourseUnfold(EnglishCross, row);
      }
      while x + FULL_BRICK_LENGTH <= WALL_WIDTH
        invariant bricks + Tail(x, y, FULL_BRICK_LENGTH, FULL_BRICK_LENGTH, FULL_BRICK_LENGTH) == target
        decreases WALL_WIDTH - x
      {
        TailStep(bricks, x, y, FULL_BRICK_LENGTH, FULL_BRICK_LENGTH, FULL_BRICK_LENGTH, target);
        bricks := bricks + [Slot(x, y, FULL_BRICK_LENGTH)];
        x := x + FULL_BRICK_LENGTH + HEAD_JOINT;
      }
      // the main loop has stopped: only the fill brick remains
      assert Tail(x, y, FULL_BRICK_LENGTH, FULL_BRICK_LENGTH, FULL_BRICK_LENGTH) == Fill(x, y);
    }
    // fill up any remaining space with a final brick
    if x < WALL_WIDTH {
      bricks := bricks + [Slot(x, y, WALL_WIDTH - x)];
      x := WALL_WIDTH;
    }
  }

  /** generateFlemishBond: stretchers and headers alternate within every course. */
  method GenerateFlemishBond() returns (bricks: seq<Brick>)
    ensures bricks == Layout(Flemish, NROWS)
  {
    var nRows := WALL_HEIGHT / COURSE_HEIGHT;
    bricks := [];
    for row := 0 to nRows
      invariant bricks == Layout(Flemish, row)
    {
      bricks := AppendFlemishCourse(bricks, row);
    }
  }

  /** The body of the row loop of generateFlemishBond. */
  method AppendFlemishCourse(bricks0: seq<Brick>, row: nat) returns (bricks: seq<Brick>)
    ensures bricks == bricks0 + Course(Flemish, row)
  {
    bricks := bricks0;
    var x := 0;
    var y := CourseY(row);  // row * COURSE_HEIGHT
    var brickNrInRow := 0;
    ghost var target := bricks + Course(Flemish, row);
    if row % 2 == 1 {
      // offset course, opened by the small brick
      bricks := bricks + [Slot(x, y, FULL_BRICK_LENGTH / 4 - HEAD_JOINT)];
      x := x + FULL_BRICK_LENGTH / 4;
    }
    assert bricks + Tail(x, y, FULL_BRICK_LENGTH, FlemishLength(0, row), FlemishLength(1, row)) == target by {
      CourseUnfold(Flemish, row);
    }
    while x + FULL_BRICK_LENGTH <= WALL_WIDTH
      invariant bricks + Tail(x, y, FULL_BRICK_LENGTH,
                              FlemishLength(brickNrInRow, row), FlemishLength(brickNrInRow + 1, row)) == target
      decreases WALL_WIDTH - x
    {
      TailStep(bricks, x, y, FULL_BRICK_LENGTH, FlemishLength(brickNrInRow, row),
               FlemishLength(brickNrInRow + 1, row), target);
      FlemishPeriod(brickNrInRow, row);
      // stretchers and headers alternate; even courses start with a stretcher
      if (brickNrInRow + row) % 2 == 0 {
        bricks := bricks + [Slot(x, y, FULL_BRICK_LENGTH)];
        x := x + FULL_BRICK_LENGTH + HEAD_JOINT;
      } else {
        bricks := bricks + [Slot(x, y, FULL_BRICK_WIDTH)];
        x := x + FULL_BRICK_WIDTH + HEAD_JOINT;
      }
      brickNrInRow := brickNrInRow + 1;
    }
    // the main loop has stopped: only the fill brick remains
    assert Tail(x, y, FULL_BRICK_LENGTH, FlemishLength(brickNrInRow, row), FlemishLength(brickNrInRow + 1, row)) == Fill(x, y);
    // fill up any remaining space with a final brick
    if x < WALL_WIDTH {
      bricks := bricks + [Slot(x, y, WALL_WIDTH - x)];
      x := x + FULL_BRICK_LENGTH / 4;
      brickNrInRow := brickNrInRow + 1;
    }
    assert bricks == target;
  }

  // ---------------------------------------------------------------------------
  // What every generated wall looks like
  // ---------------------------------------------------------------------------

  /** Neighbouring bricks are separated by exactly one head joint. */
  predicate Contiguous(s: seq<Brick>) {
    forall i, j :: 0 <= i < |s| && 0 <= j < |s| && j == i + 1 ==> s[j].x == s[i].x + s[i].length + HEAD_JOINT
  }

  /** Two contiguous pieces joined at a head joint are contiguous. */
  lemma ContiguousJoin(s: seq<Brick>, t: seq<Brick>)
    requires Contiguous(s) && Contiguous(t)
    requires s != [] && t != [] ==> t[0].x == s[|s| - 1].x + s[|s| - 1].length + HEAD_JOINT
    ensures Contiguous(s + t)
  {
    var u := s + t;
    forall i, j | 0 <= i < |u| && 0 <= j < |u| && j == i + 1
      ensures u[j].x == u[i].x + u[i].length + HEAD_JOINT
    {
      if j < |s| {
        assert u[i] == s[i] && u[j] == s[j];
      } else if i >= |s| {
        assert u[i] == t[i - |s|] && u[j] == t[j - |s|];
      }
    }
  }

  /** Contiguity with positive lengths rules out any overlap. */
  lemma {:induction false} ContiguousSeparated(s: seq<Brick>)
    requires Contiguous(s)
    requires forall i :: 0 <= i < |s| ==> 0 < s[i].length
    ensures Separated(s)
  {
    if |s| > 1 {
      var s' := s[..|s| - 1];
      assert Contiguous(s') by {
        forall i, j | 0 <= i < |s'| && 0 <= j < |s'| && j == i + 1
          ensures s'[j].x == s'[i].x + s'[i].length + HEAD_JOINT
        {
          assert s'[i] == s[i] && s'[j] == s[j];
        }
      }
      ContiguousSeparated(s');
      var k := |s| - 1;
      forall i, j | 0 <= i < j < |s|
        ensures s[i].x + s[i].length + HEAD_JOINT <= s[j].x
      {
        if j < k {
          assert s[i] == s'[i] && s[j] == s'[j];
        } else if i < k - 1 {
          assert s[i] == s'[i] && s[k - 1] == s'[k - 1];
          assert s[k].x == s[k - 1].x + s[k - 1].length + HEAD_JOINT;
        }
      }
    }
  }

  /** What each brick of a main loop and its fill looks like: on the course's baseline,
      fresh, inside the wall right of the start cursor, of length `a` or `b` by position,
      except possibly the last one, which then ends flush with the wall. */
  predicate TailBrick(t: seq<Brick>, i: int, x: int, y: int, a: int, b: int)
    requires 0 <= i < |t|
  {
    t[i].y == y && Fresh(t[i]) && 0 < t[i].length && x <= t[i].x && t[i].x + t[i].length <= WALL_WIDTH
    && (t[i].length == (if i % 2 == 0 then a else b)
        || (i == |t| - 1 && t[i].x + t[i].length == WALL_WIDTH))
  }

  lemma {:induction false} TailBricks(x: int, y: int, guard: int, a: int, b: int)
    requires 0 < a <= guard && 0 < b <= guard && 0 <= x < WALL_WIDTH
    ensures forall i :: 0 <= i < |Tail(x, y, guard, a, b)| ==> TailBrick(Tail(x, y, guard, a, b), i, x, y, a, b)
    decreases WALL_WIDTH - x
  {
    var t := Tail(x, y, guard, a, b);
    if x + guard <= WALL_WIDTH {
      var x' := x + a + HEAD_JOINT;
      var rest := Tail(x', y, guard, b, a);
      assert t == [Slot(x, y, a)] + rest;
      if x' < WALL_WIDTH {
        TailBricks(x', y, guard, b, a);
        forall i | 0 < i < |t|
          ensures TailBrick(t, i, x, y, a, b)
        {
          assert t[i] == rest[i - 1] && TailBrick(rest, i - 1, x', y, b, a);
        }
      } else {
        assert rest == [];
      }
    }
  }

  /** A main loop followed by its fill brick starts at the cursor, keeps its bricks one
      head joint apart and ends at most a head joint short of the wall's right edge. */
  lemma {:induction false} TailContiguous(x: int, y: int, guard: int, a: int, b: int)
    requires 0 < a <= guard && 0 < b <= guard && 0 <= x < WALL_WIDTH
    ensures var t := Tail(x, y, guard, a, b);
      && t != [] && t[0].x == x
      && Contiguous(t)
      && WALL_WIDTH - HEAD_JOINT <= t[|t| - 1].x + t[|t| - 1].length
    decreases WALL_WIDTH - x
  {
    var t := Tail(x, y, guard, a, b);
    if x + guard <= WALL_WIDTH {
      var x' := x + a + HEAD_JOINT;
      var rest := Tail(x', y, guard, b, a);
      assert t == [Slot(x, y, a)] + rest;
      if x' < WALL_WIDTH {
        TailContiguous(x', y, guard, b, a);
        ContiguousJoin([Slot(x, y, a)], rest);
        assert t[|t| - 1] == rest[|rest| - 1];
      } else {
        assert rest == [];
      }
    }
  }

  /** The requirement on a course's lead: empty with the main loop starting at the left
      edge, or one brick at the left edge ending a head joint before the main loop starts. */
  predicate LeadBefore(lead: seq<Brick>, x: int, row: int) {
    (lead == [] && x == 0) || (lead == [Slot(0, CourseY(row), x - HEAD_JOINT)] && HEAD_JOINT < x)
  }

  /** A lead followed by a tail is well formed as a course. */
  lemma LeadTailShape(lead: seq<Brick>, x: int, row: int, guard: int, a: int, b: int)
    requires 0 < a <= guard && 0 < b <= guard && 0 <= x < WALL_WIDTH && LeadBefore(lead, x, row)
    ensures WellFormedCourse(lead + Tail(x, CourseY(row), guard, a, b), row)
  {
    var c := lead + Tail(x, CourseY(row), guard, a, b);
    LeadTailLaid(lead, x, row, guard, a, b);
    LeadTailContiguous(lead, x, row, guard, a, b);
    ContiguousSeparated(c);
  }

  lemma LeadTailLaid(lead: seq<Brick>, x: int, row: int, guard: int, a: int, b: int)
    requires 0 < a <= guard && 0 < b <= guard && 0 <= x < WALL_WIDTH && LeadBefore(lead, x, row)
    ensures var c := lead + Tail(x, CourseY(row), guard, a, b);
      forall i :: 0 <= i < |c| ==> InsideCourse(c[i], row) && Fresh(c[i])
  {
    var t := Tail(x, CourseY(row), guard, a, b);
    var c := lead + t;
    TailBricks(x, CourseY(row), guard, a, b);
    forall i | 0 <= i < |c|
      ensures InsideCourse(c[i], row) && Fresh(c[i])
    {
      if i >= |lead| {
        assert c[i] == t[i - |lead|] && TailBrick(t, i - |lead|, x, CourseY(row), a, b);
      }
    }
  }

  lemma LeadTailContiguous(lead: seq<Brick>, x: int, row: int, guard: int, a: int, b: int)
    requires 0 < a <= guard && 0 < b <= guard && 0 <= x < WALL_WIDTH && LeadBefore(lead, x, row)
    ensures var c := lead + Tail(x, CourseY(row), guard, a, b);
      && c != [] && c[0].x == 0 && Contiguous(c)
      && WALL_WIDTH - HEAD_JOINT <= c[|c| - 1].x + c[|c| - 1].length
  {
    var t := Tail(x, CourseY(row), guard, a, b);
    TailContiguous(x, CourseY(row), guard, a, b);
    assert Contiguous(lead);
    ContiguousJoin(lead, t);
    assert (lead + t)[|lead + t| - 1] == t[|t| - 1];
  }

  /** Brick `i` of `c` has length `len`, or it is the last brick of `c` and ends flush
      with the wall (the fill brick). */
  predicate LengthOrFill(c: seq<Brick>, i: int, len: int)
    requires 0 <= i < |c|
  {
    c[i].length == len || (i == |c| - 1 && c[i].x + c[i].length == WALL_WIDTH)
  }

  /** A course as the generators lay it: starting at the left edge of the wall, bricks one
      head joint apart, all inside the wall, ending at most a head joint short of the right
      edge. */
  predicate WellFormedCourse(c: seq<Brick>, row: int) {
    && c != [] && c[0].x == 0
    && Contiguous(c) && LaidCourse(c, row)
    && WALL_WIDTH - HEAD_JOINT <= c[|c| - 1].x + c[|c| - 1].length
  }

  lemma CourseShape(bond: Bond, row: nat)
    ensures WellFormedCourse(Course(bond, row), row)
  {
    LeadTailShape(Lead(bond, row), StartX(bond, row), row, Guard(bond, row),
                  LoopLength(bond, row, 0), LoopLength(bond, row, 1));
  }

  /** The number of bricks a course lays before its main loop. */
  function LeadCount(row: nat): nat {
    if row % 2 == 1 then 1 else 0
  }

  /** Brick `i` of course `row`, counted from the start of the course, has the length the
      main loop gives it, or is the fill brick. */
  predicate BondLength(c: seq<Brick>, i: int, bond: Bond, row: nat)
    requires LeadCount(row) <= i < |c|
  {
    LengthOrFill(c, i, LoopLength(bond, row, i - LeadCount(row)))
  }

  /** The lengths each bond prescribes: an odd course opens with a half brick (stretcher
      bond) or with the small brick of a quarter length less a joint; brick `k` of the main
      loop has LoopLength(bond, row, k); only the last brick may instead be the fill brick,
      which reaches the right edge exactly. The wall is wide enough for the main loop to lay
      at least two bricks, so the first of them is never the fill: an even course opens with
      a full brick at x = 0, an odd stretcher course lays a full brick at x = 220 after its
      half brick, and an English-cross header course lays a header after the small brick. */
  lemma CourseLengths(bond: Bond, row: nat)
    ensures row % 2 == 1 ==>
      Course(bond, row)[0].length == (if bond == Stretcher then HALF_BRICK_LENGTH else QUARTER_BRICK - HEAD_JOINT)
    ensures |Course(bond, row)| >= LeadCount(row) + 2
    ensures Course(bond, row)[LeadCount(row)] == Slot(StartX(bond, row), CourseY(row), LoopLength(bond, row, 0))
    ensures Course(bond, row)[LeadCount(row) + 1]
         == Slot(StartX(bond, row) + LoopLength(bond, row, 0) + HEAD_JOINT, CourseY(row), LoopLength(bond, row, 1))
    ensures forall i :: LeadCount(row) <= i < |Course(bond, row)| ==> BondLength(Course(bond, row), i, bond, row)
  {
    var a, b := LoopLength(bond, row, 0), LoopLength(bond, row, 1);
    var x, y, g := StartX(bond, row), CourseY(row), Guard(bond, row);
    var c, lead, t := Course(bond, row), Lead(bond, row), Tail(x, y, g, a, b);
    assert c == lead + t && |lead| == LeadCount(row);
    // the main loop runs at least twice: its second brick starts at most at 220 + 420 + 20
    var t2 := Tail(x + a + HEAD_JOINT, y, g, b, a);
    assert t == [Slot(x, y, a)] + t2;
    assert t2 == [Slot(x + a + HEAD_JOINT, y, b)] + Tail(x + a + HEAD_JOINT + b + HEAD_JOINT, y, g, a, b);
    assert c[|lead|] == t[0];
    assert c[|lead| + 1] == t[1] == t2[0];
    TailBricks(x, y, Guard(bond, row), a, b);
    forall i | LeadCount(row) <= i < |c|
      ensures BondLength(c, i, bond, row)
    {
      var k := i - |lead|;
      assert c[i] == t[k] && TailBrick(t, k, x, y, a, b);
      LoopLengthParity(bond, row, k);
    }
  }

  /** The main loop's lengths repeat with period two. */
  lemma LoopLengthParity(bond: Bond, row: nat, k: nat)
    ensures LoopLength(bond, row, k) == if k % 2 == 0 then LoopLength(bond, row, 0) else LoopLength(bond, row, 1)
  {
  }

  /** Every generated wall is well formed: fresh slots inside the wall, bottom-up, no overlap. */
  lemma LayoutShape(bond: Bond, n: nat)
    ensures WellFormedWall(Layout(bond, n), n)
  {
    forall r: nat | r < n
      ensures LaidCourse(Course(bond, r), r)
    {
      CourseShape(bond, r);
    }
    StackShape((r: nat) => Course(bond, r), n);
  }

  /** Filtering the layout by course `r` gives back exactly course `r` of the bond
      (and nothing for a course beyond the layout). */
  lemma LayoutCourse(bond: Bond, n: nat, r: nat)
    ensures OnCourse(Layout(bond, n), r) == if r < n then Course(bond, r) else []
  {
    forall r': nat | r' < n
      ensures OnRow(Course(bond, r'), r')
    {
      CourseShape(bond, r');
      LaidCourseOnRow(Course(bond, r'), r');
    }
    StackCourse((r: nat) => Course(bond, r), n, r);
  }

  // ---------------------------------------------------------------------------
  // The pattern registry and generateWall
  // ---------------------------------------------------------------------------

  /** An entry of PATTERN_MAP: the name the UI shows and the generator, identified by its bond. */
  datatype Pattern = Pattern(displayName: string, bond: Bond)

  const PATTERN_MAP: map<string, Pattern> := map[
    "stretcher" := Pattern("Stretcher bond", Stretcher),
    "englishCross" := Pattern("English cross bond", EnglishCross),
    "flemish" := Pattern("Flemish bond", Flemish)
  ]

  /** The wall generateWall returns for `pattern`: the bond's layout for a registered id,
      no bricks for any other string. */
  function WallFor(pattern: string): seq<Brick> {
    if pattern in PATTERN_MAP then Layout(PATTERN_MAP[pattern].bond, NROWS) else []
  }

  /** generateWall with the registry lookup restricted to the registry's own ids. */
  method GenerateWall(pattern: string) returns (bricks: seq<Brick>)
    ensures bricks == WallFor(pattern)
    ensures pattern in PATTERN_MAP ==> WellFormedWall(bricks, NROWS)
  {
    if pattern in PATTERN_MAP {
      var bond := PATTERN_MAP[pattern].bond;
      match bond {
        case Stretcher => bricks := GenerateStretcherBond();
        case EnglishCross => bricks := GenerateEnglishCrossBond();
        case Flemish => bricks := GenerateFlemishBond();
      }
      LayoutShape(bond, NROWS);
    } else {
      bricks := [];
    }
  }

  /** The names every object inherits from Object.prototype, for which the JavaScript test
      `pattern in PATTERN_MAP` also holds. */
  const OBJECT_PROTOTYPE_KEYS: set<string> := {
    "constructor", "hasOwnProperty", "isPrototypeOf", "propertyIsEnumerable", "toLocaleString",
    "toString", "valueOf", "__proto__", "__defineGetter__", "__defineSetter__",
    "__lookupGetter__", "__lookupSetter__"
  }

  /** What generateWall does as written: an inherited name passes the `in` test, its
      `.generator` is undefined, and calling it throws a TypeError. */
  datatype WallOutcome = Returned(bricks: seq<Brick>) | ThrowsTypeError

  function GenerateWallAsWritten(pattern: string): (r: WallOutcome)
    ensures r.ThrowsTypeError? <==> pattern !in PATTERN_MAP && pattern in OBJECT_PROTOTYPE_KEYS
    ensures r.Returned? ==> r.bricks == WallFor(pattern)
  {
    if pattern in PATTERN_MAP then Returned(Layout(PATTERN_MAP[pattern].bond, NROWS))
    else if pattern in OBJECT_PROTOTYPE_KEYS then ThrowsTypeError
    else Returned([])
  }

  /** "toString" is not a pattern, yet generateWall as written throws on it instead of
      returning the empty wall. */
  lemma InheritedNameThrows()
    ensures "toString" !in PATTERN_MAP
    ensures GenerateWallAsWritten("toString") == ThrowsTypeError
    ensures WallFor("toString") == []
  {
  }
}
