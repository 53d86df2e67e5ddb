# Brick-laying robot: build planning, verified in Dafny

This project models the build-planning core of a simulator for a brick-laying robot. It has three parts.

- **Wall generators.** They lay out the brick slots of a wall in three bonds: stretcher, English cross and Flemish. Each walks the courses bottom-up with an `x` cursor.
- **Support and reach tests.** These decide whether the robot may lay a brick now. The brick must rest on built bricks of the course below, and it must lie inside the robot's reach envelope.
- **Stride planner and build step.** The step lays the first buildable brick within reach. When there is none, it moves the robot to a new position. The library planner scores every candidate position with a greedy lookahead. The older single-page planner heads for the nearest unbuilt brick.

All lengths are integers in **half-millimetres**. Every dimension of the program is a multiple of 0.5 mm: the bed joint is 12.5 mm and the quarter brick is 52.5 mm. So the equality tests on course heights are exact. In these units:

| constant | value |
|---|---|
| full brick | 420 |
| header / half brick | 200 |
| brick height | 100 |
| head joint | 20 |
| bed joint | 25 |
| course height | 125 |
| wall | 4600 × 4000 |
| envelope | 1600 × 2600 |
| courses (`floor(WALL_HEIGHT / COURSE_HEIGHT)`) | 32 |

Modules, one per part of the program:

- `Geometry` (geometry.dfy): the constants, the `Brick` record, and the shape of a well-formed wall. `Stack` builds a wall from a course function; `OnCourse` is the per-course filter.
- `WallGenerators` (wall_generators.dfy): the three generators of src/lib/wallGenerators.ts, the pattern registry and `generateWall`. Each generator is an imperative method proved equal to `Layout(bond, NROWS)`. The lemmas say what every course of every bond looks like.
- `LegacyWallGenerators` (legacy_wall_generators.dfy): the stretcher generator of src/wallGenerators.ts, parametrised by its full and half sizes. With 420/200 it equals the stretcher bond above.
- `Reach` (reach.dfy): `brickCanBeBuilt`, `fitsWithinRobotWindow`, and the first buildable brick of the build step.
- `Planner` (planner.dfy): `countBuildableFromPosition` (the greedy lookahead) and `calculateNewRobotPosition` of src/lib/robotBuildLogic.tsx.
- `Driver` (driver.dfy): `doNextBuildStep`. `BuildStep` is the step as a function of the state. The class `BuildSession` holds the page's state, and its method is proved equal to `BuildStep`.
- `LegacyApp` (legacy_app.dfy): the logic of src/App.tsx. Its bricks carry a kind (`full`/`half`) instead of a length. It has its own generator, support and reach tests, a nearest-brick planner, and the `buildNextBrick` step with its class `LegacySession`. `AsBricks` writes each brick's width out. Through it, the page's tests and steps are proved to agree with the library's where they should.

## Model

| member | source | states |
|---|---|---|
| WallGenerators.GenerateStretcherBond | src/lib/wallGenerators.ts:12-39 | the generated stretcher wall is exactly `Layout(Stretcher, 32)`: the courses bottom-up, each as `Course` describes it |
| WallGenerators.AppendStretcherCourse | src/lib/wallGenerators.ts:16-36 | one pass of the row loop appends exactly course `row`: the half brick on odd rows, full bricks while they fit, then the fill brick |
| WallGenerators.GenerateEnglishCrossBond | src/lib/wallGenerators.ts:42-77 | the generated English cross wall is exactly `Layout(EnglishCross, 32)` |
| WallGenerators.AppendEnglishCrossCourse | src/lib/wallGenerators.ts:46-73 | one pass appends course `row`: header courses open with the L/4 - joint brick and lay headers; stretcher courses lay full bricks; then the fill |
| WallGenerators.GenerateFlemishBond | src/lib/wallGenerators.ts:80-121 | the generated Flemish wall is exactly `Layout(Flemish, 32)` |
| WallGenerators.AppendFlemishCourse | src/lib/wallGenerators.ts:84-117 | one pass appends course `row`: stretchers and headers alternate with `brickNrInRow + row`, then the fill |
| WallGenerators.CourseShape | src/lib/wallGenerators.ts:16-117 | every course of every bond starts at x = 0, keeps consecutive bricks exactly one head joint apart, lies inside the wall on its own baseline with positive lengths, and ends within a head joint of the right edge |
| WallGenerators.CourseLengths | src/lib/wallGenerators.ts:16-117 | odd courses open with a half brick (stretcher) or the L/4 - joint brick (other bonds); the main loop lays at least two bricks before any fill: the first at the cursor with the loop's first length (a full brick at x = 0 on even courses, a full brick at x = 220 after a stretcher half brick, a header after the small brick), the second one head joint after it with the loop's second length; main-loop brick `k` has the bond's length for `k`; only the last brick may be the fill, which ends flush with the wall |
| WallGenerators.LoopLengthParity | src/lib/wallGenerators.ts:96-110 | the main loop's lengths alternate with period two (Flemish: stretcher when `k + row` is even, header otherwise) |
| WallGenerators.TailBricks | src/lib/wallGenerators.ts:27-36 | every main-loop brick and the fill lie on the baseline, fresh, inside the wall right of the cursor, with the loop's length or as the fill ending at WALL_WIDTH |
| WallGenerators.TailContiguous | src/lib/wallGenerators.ts:27-35 | a main loop and its fill start at the cursor, advance by length plus head joint, and stop at most a head joint short of the edge |
| WallGenerators.ContiguousSeparated | src/lib/wallGenerators.ts:24-29 | bricks one head joint apart with positive lengths never overlap, and x strictly increases |
| WallGenerators.LayoutShape | src/lib/wallGenerators.ts:13-19 | every generated wall is well formed: fresh slots inside the wall, course by course bottom-up, no two slots of a course overlapping |
| WallGenerators.LayoutCourse | src/lib/wallGenerators.ts:43-48 | filtering a wall by `y = r * COURSE_HEIGHT` gives back exactly course `r`, and nothing beyond the last course |
| WallGenerators.GenerateWall | src/lib/wallGenerators.ts:125-146 | a registered id gives exactly that bond's layout, which is well formed; any other id gives no bricks |
| WallGenerators.GenerateWallAsWritten | src/lib/wallGenerators.ts:140-146 | as written, the `in` test also accepts Object.prototype names; the call throws exactly for those names, and otherwise it returns `WallFor` |
| WallGenerators.InheritedNameThrows | src/lib/wallGenerators.ts:141-142 | "toString" is not a pattern, yet it throws instead of giving the empty wall |
| Geometry.StackShape | src/lib/wallGenerators.ts:16-37 | stacking courses that are each laid on their own row gives a well-formed wall |
| Geometry.StackCourse | src/lib/wallGenerators.ts:16-19 | filtering a stack by course `r` returns that course exactly |
| Geometry.CourseBaselines | src/lib/wallGenerators.ts:13-19 | consecutive course baselines are exactly COURSE_HEIGHT apart; each of the `Math.floor(WALL_HEIGHT / COURSE_HEIGHT)` courses tops out within WALL_HEIGHT, and one more course would not |
| LegacyWallGenerators.GenerateStretcherBond | src/wallGenerators.ts:11-33 | the older generator returns exactly `LegacyLayout(nRows, full, half)` for any positive sizes |
| LegacyWallGenerators.AppendCourse | src/wallGenerators.ts:13-30 | one pass appends the course: the half brick on odd rows, full bricks while `x + full <= WALL_WIDTH`, one half brick if `x <= WALL_WIDTH - half` |
| LegacyWallGenerators.GenerateWall | src/wallGenerators.ts:35-50 | "stretcher" gives the layout of `floor(WALL_HEIGHT / COURSE_HEIGHT)` courses; any other id gives no bricks |
| LegacyWallGenerators.LegacyTailShape | src/wallGenerators.ts:23-30 | after the cursor, bricks are full or half, one head joint apart, inside the wall, and all but the last are full |
| LegacyWallGenerators.LegacyCourseShape | src/wallGenerators.ts:13-30 | every course is laid on its row, inside the wall without overlap, starts at x = 0, and uses only full and half bricks |
| LegacyWallGenerators.LegacyCourseLengths | src/wallGenerators.ts:18-30 | odd courses open with a half brick, even ones with a full brick; after the opening, only the last brick may be a half brick |
| LegacyWallGenerators.LegacyLayoutShape | src/wallGenerators.ts:11-33 | every wall of the older generator is well formed |
| LegacyWallGenerators.LegacyLayoutPrefix | src/wallGenerators.ts:13-16 | the first `m` courses lead the wall, followed by course `m` |
| LegacyWallGenerators.LegacyMatchesStretcher | src/wallGenerators.ts:11-33 | with 210 mm and 100 mm bricks, the older generator lays brick for brick the stretcher bond of src/lib/wallGenerators.ts |
| Reach.IsSupported | src/lib/robotBuildLogic.tsx:30-34 | the edge is supported exactly when some built brick on the course below covers it (closed interval) |
| Reach.BrickCanBeBuilt | src/lib/robotBuildLogic.tsx:24-37 | true on the ground; otherwise true exactly when both bottom edges are covered, possibly by different bricks, one course below |
| Reach.FitsIffContained | src/lib/robotBuildLogic.tsx:39-46 | the four comparisons hold exactly when the whole brick rectangle lies inside the envelope centred on the robot |
| Reach.FirstBuildable | src/lib/robotBuildLogic.tsx:137-145 | the index `buildable[0]` stands for: an unbuilt, reachable, supported brick with no such brick before it; None only when no brick qualifies |
| Planner.Greedy | src/lib/robotBuildLogic.tsx:54-69 | the lookahead count is at most the number of unbuilt bricks |
| Planner.GreedyZero | src/lib/robotBuildLogic.tsx:58-63 | the count is zero exactly when no brick is buildable at the start |
| Planner.GreedyWithinReach | src/lib/robotBuildLogic.tsx:58-68 | the lookahead only lays bricks inside the envelope: its count is at most the unbuilt bricks in reach |
| Planner.MarkBuiltFewer | src/lib/robotBuildLogic.tsx:67 | laying one unbuilt brick on the private copy leaves one unbuilt brick fewer, so the loop terminates |
| Planner.CountBuildableFromPosition | src/lib/robotBuildLogic.tsx:49-72 | the loop returns the greedy count; its input is a value and stays unchanged |
| Planner.LowestIncompleteCourse | src/lib/robotBuildLogic.tsx:78-86 | the result is the lowest course below nRows with an unbuilt brick, or nRows when every course is complete |
| Planner.FindLowestIncomplete | src/lib/robotBuildLogic.tsx:78-86 | the course scan ends on the lowest incomplete course |
| Planner.LowestIncompleteUnique | src/lib/robotBuildLogic.tsx:80-86 | a course with every course below complete, and itself incomplete or equal to nRows, is the lowest incomplete course |
| Planner.EdgeCandidates | src/lib/robotBuildLogic.tsx:98 | the `flatMap` holds exactly the positions that align an envelope edge with a brick edge |
| Planner.IndexOf | src/lib/robotBuildLogic.tsx:99 | `indexOf` gives the first index holding the value, or -1 exactly when it is absent |
| Planner.FirstOccurrences | src/lib/robotBuildLogic.tsx:99 | the filter keeps each value whose first occurrence lies in range, exactly once |
| Planner.Candidates | src/lib/robotBuildLogic.tsx:98-99 | the deduplicated candidates are exactly the aligning positions, without repeats |
| Planner.Consider | src/lib/robotBuildLogic.tsx:104-115 | one loop pass: a larger count always wins; an equal count wins only when strictly closer to the robot |
| Planner.SearchCandidates | src/lib/robotBuildLogic.tsx:95-116 | the search loop ends on the choice that `Search` describes |
| Planner.CalculateNewRobotPosition | src/lib/robotBuildLogic.tsx:75-119 | the method returns `PlannedPosition`, whose properties follow |
| Planner.SearchOptimal | src/lib/robotBuildLogic.tsx:101-116 | after `n` candidates the search holds one of them with its count; no candidate seen has a larger count; none with the same count is strictly closer |
| Planner.PlannedPositionOptimal | src/lib/robotBuildLogic.tsx:89-118 | y is `min(c*COURSE_HEIGHT + ENVELOPE_HEIGHT/2, WALL_HEIGHT - ENVELOPE_HEIGHT/2)` for the lowest incomplete course `c`; x is a candidate with the largest lookahead and the closest such; x is the robot's x on an empty wall |
| Planner.TargetCourseInReach | src/lib/robotBuildLogic.tsx:89 | at the planned height, any brick of the target course no wider than the envelope fits when the envelope's left edge is on the brick's left edge |
| Planner.PlannedPositionProgress | src/lib/robotBuildLogic.tsx:89-118 | if some unbuilt, supported brick of the target course is no wider than the envelope, the robot can lay a brick from the planned position |
| Driver.LayKeepsSupport | src/lib/robotBuildLogic.tsx:147-149 | laying a brick takes no support away |
| Driver.LayKeepsSessionWall | src/lib/robotBuildLogic.tsx:145-150 | laying a buildable brick with stride `strideCount + 1` keeps every built brick supported and every stride record consistent |
| Driver.NextStrideKeepsSessionWall | src/lib/robotBuildLogic.tsx:162 | counting a stride keeps the session invariant |
| Driver.StepOnCompleteWall | src/lib/robotBuildLogic.tsx:129-135 | with every brick built, the step changes nothing and reports the finished wall |
| Driver.StepLaysFirstBuildable | src/lib/robotBuildLogic.tsx:137-151 | with a brick in reach, exactly the first buildable brick becomes built with stride `strideCount + 1`; every other brick, the robot and the counter stay |
| Driver.StepRelocates | src/lib/robotBuildLogic.tsx:152-169 | with nothing in reach the wall stays; the robot moves and one stride is counted only if the planned position differs; otherwise nothing changes |
| Driver.StayedMeansStuck | src/lib/robotBuildLogic.tsx:152-157 | a step stays put only when no unbuilt brick of the target course that fits the envelope is supported |
| Driver.BuildStepKeepsSessionWall | src/lib/robotBuildLogic.tsx:123-173 | every step keeps the session invariant: built bricks rest on built bricks, and stride records agree with the counter |
| Driver.BuildSession.constructor | src/lib/robotBuildLogic.tsx:123-128 | a new session on fresh bricks satisfies the session invariant, with no strides and not busy |
| Driver.BuildSession.DoNextBuildStep | src/lib/robotBuildLogic.tsx:123-173 | while busy nothing changes; otherwise the new state is `BuildStep` of the old one and `busy` ends cleared |
| LegacyApp.AsBricks | src/App.tsx:19-25 | each page brick becomes the same brick with its kind's width written out |
| LegacyApp.PushBrick | src/App.tsx:35 | pushing a brick of a kind appends the slot of that kind's width |
| LegacyApp.GenerateStretcherBond | src/App.tsx:27-49 | the page's generator lays `LegacyLayout(nRows, 420, 200)` |
| LegacyApp.AppendCourse | src/App.tsx:29-46 | one pass of the row loop appends exactly that course |
| LegacyApp.GenerateWall | src/App.tsx:51-64 | "stretcher" gives a well-formed wall of 32 courses, brick for brick the library's stretcher bond; any other id gives no bricks |
| LegacyApp.CourseBegins | src/App.tsx:29-37 | in a page wall, course `row` begins right after the bricks of the courses below it |
| LegacyApp.CourseOpening | src/App.tsx:30-40 | that first brick lies at x = 0 on the row's baseline: a half brick on odd rows, a full one on even rows |
| LegacyApp.IsSupportedAgrees | src/App.tsx:103-108 | the page's edge test equals the library's on the widths written out |
| LegacyApp.BrickCanBeBuiltAgrees | src/App.tsx:95-111 | the page's support test is the library's support test on the widths written out |
| LegacyApp.FitsAgrees | src/App.tsx:113-121 | the page's window test equals the library's and holds exactly when the brick rectangle lies in the envelope |
| LegacyApp.FirstBuildable | src/App.tsx:198-202 | `buildable[0]` as an index: the first unbuilt, reachable, supported brick, or None when there is none |
| LegacyApp.GetCourseMembers | src/App.tsx:123-126 | a brick is in the result exactly when it is in the wall and lies on that course |
| LegacyApp.UnbuiltMembers | src/App.tsx:146 | a brick is in the result exactly when it is in the input and unbuilt |
| LegacyApp.GetCourseConcat | src/App.tsx:123-126 | `getCourse` keeps the wall's order and multiplicity: it filters a concatenation part by part |
| LegacyApp.GetCourseOne | src/App.tsx:123-126 | a single brick is kept exactly when it lies on the course; with GetCourseConcat this determines `getCourse` completely |
| LegacyApp.UnbuiltConcat | src/App.tsx:146 | `filter((b) => !b.built)` keeps order and multiplicity the same way |
| LegacyApp.UnbuiltOne | src/App.tsx:146 | a single brick is kept exactly when it is unbuilt |
| LegacyApp.PendingIndex | src/App.tsx:123-146 | entry `k` of the unbuilt bricks of a course is a brick of the wall, and the entries before it are exactly the unbuilt bricks of that course earlier in the wall |
| LegacyApp.NearestIsFirstInWallOrder | src/App.tsx:146-162 | the `reduce` ends on the first brick, in wall order, among the unbuilt bricks of the course at minimal distance from the robot's x |
| LegacyApp.FirstNearestUnique | src/App.tsx:148-162 | at most one brick of the wall is that first nearest brick, so the tie rule picks exactly one |
| LegacyApp.PlannerTargetsFirstNearest | src/App.tsx:128-184 | while a course is incomplete, the planner centres the window, clamped, on the first nearest unbuilt brick of the lowest incomplete course, at that course's clamped height |
| LegacyApp.NearestIndex | src/App.tsx:148-162 | `reduce` ends on a brick whose centre is nearest to the robot's x; every earlier brick is strictly farther, so ties go to the first |
| LegacyApp.CourseCompleteAgrees | src/App.tsx:134-135 | `every(b => b.built)` over `getCourse(c)` is the library's course-complete test |
| LegacyApp.ScanCourses | src/App.tsx:130-139 | the scan ends on the lowest incomplete course and holds the bricks of the last course it looked at |
| LegacyApp.CalculateNewRobotPosition | src/App.tsx:128-184 | the method returns `LegacyPlannedPosition`; None exactly where the scanned course has no unbuilt brick, so `reduce` yields `undefined` and reading `targetBrick.type` throws |
| LegacyApp.ClampRange | src/App.tsx:167-181 | the clamped x lies in [ENVELOPE_WIDTH/2, WALL_WIDTH - ENVELOPE_WIDTH/2] and y in [ENVELOPE_HEIGHT/2, WALL_HEIGHT - ENVELOPE_HEIGHT/2] |
| LegacyApp.PositionAmongReaches | src/App.tsx:164-183 | centring on the nearest brick of a course on the wall and clamping keeps that brick inside the robot's window |
| LegacyApp.IncompleteCourseUnbuilt | src/App.tsx:134-146 | an incomplete course gives the `reduce` an unbuilt brick |
| LegacyApp.PlannedPositionReaches | src/App.tsx:128-184 | while some course is incomplete, the planner returns a position from which it can reach an unbuilt brick of the lowest incomplete course |
| LegacyApp.PlannerNeverThrows | src/App.tsx:130-162 | on a wall whose bricks lie on its courses, an unbuilt brick means some course is incomplete, so the planner does not throw |
| LegacyApp.LayAtAgrees | src/App.tsx:204-206 | the page's update of `next` is the library's lay on the widths written out |
| LegacyApp.UnbuiltNone | src/App.tsx:192-193 | `!unbuilt.length` holds exactly when no brick is unbuilt |
| LegacyApp.LegacyStepLaysAsLibrary | src/App.tsx:190-208 | the page stops on the same walls as src/lib/robotBuildLogic.tsx and lays the same brick, with the same stride number, whenever either lays one |
| LegacyApp.LegacyRelocation | src/App.tsx:209-215 | on relocation the page always counts a stride, even when the robot does not move; it throws when the planner has no brick; the wall never changes |
| LegacyApp.LegacyStepKeepsSessionWall | src/App.tsx:186-226 | every call keeps the session invariant of the library on the widths written out |
| LegacyApp.LegacySession.constructor | src/App.tsx:73-93 | the page's initial state satisfies the session invariant, with no strides and not busy |
| LegacyApp.LegacySession.BuildNextBrick | src/App.tsx:186-226 | while busy nothing changes; otherwise the new state is `LegacyStep` of the old one; `busy` stays set only after a throw |

## Left out

- Rendering, colours (`getDistinctColor`), toasts, timers and `await`: display and timing only. `busy` is a plain flag checked on entry; there is no interleaving.
- The distance travelled: `Math.sqrt` is floating point.
- The React state mirrors (`useRef`/`useEffect` copies, `setStrideCount` against `strideCountRef`). The model keeps one stride counter and updates it in place.
- `buildEntireWall`/`buildAll`, `reset` and the free-text position edits: they are UI loops and input parsing.
- Global termination or optimality of a whole build: the program promises neither.
- Reference equality (`b === next`, `b == nextBrick`) is modelled as the index of the first buildable brick.
- src/wallGenerators.ts writes a `width` field and imports a `HALF_BRICK_WIDTH` that src/constants.ts does not define. The generator is modelled with both sizes as parameters and a `length` field.
- LegacyWallGenerators.GenerateWall: the registry test is modelled for the registry's own ids. As written, an Object.prototype name passes the `in` test and then the call on `.generator` throws, as in the finding below.
- LegacyApp.GenerateWall: the same restriction. For an Object.prototype name the page calls that inherited function (for "toString" it returns a string, not bricks).
- Driver.BuildSession.DoNextBuildStep: its contract ties the new state to `BuildStep` and does not restate the session invariant. Driver.BuildStepKeepsSessionWall proves that `BuildStep` preserves it.
- LegacyApp.LegacySession.BuildNextBrick: likewise, LegacyApp.LegacyStepKeepsSessionWall proves that `LegacyStep` preserves the invariant.
- The page's planner throws a TypeError when the scanned course has no unbuilt brick: `reduce` over the empty list returns its initial value `unbuiltBricks[0]`, which is `undefined`, and reading `targetBrick.type` (src/App.tsx:164) then throws. The model returns `None` there, and the step reports `Threw` and leaves `busy` set, as the page does.

## Findings

| source | as written | input that shows it | evidently intended | confidence | as-written member | corrected member |
|---|---|---|---|---|---|---|
| src/lib/wallGenerators.ts:141-142 | `pattern in PATTERN_MAP` is also true for names inherited from Object.prototype, and `PATTERN_MAP[pattern].generator()` then calls `undefined` | `generateWall("toString")` throws a TypeError | unknown ids, inherited names included, give the empty wall | not executed | WallGenerators.GenerateWallAsWritten, WallGenerators.InheritedNameThrows | WallGenerators.GenerateWall (with WallGenerators.WallFor) |
