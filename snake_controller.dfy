/** The move chooser of the snake controller: the open-neighbour generator
    and the greedy per-turn choice among the four cells around the head. */
module SnakeController {
  import opened Points

  /** A snake, reduced to what the chooser reads: its body cells. */
  datatype Snake = Snake(body: seq<Point>)

  /** The board: its height and width and every snake on it. */
  datatype Board = Board(height: int32, width: int32, snakes: seq<Snake>)

  /** The controlled snake, reduced to its head. */
  datatype You = You(head: Point)

  /** The part of a turn request the chooser reads. */
  datatype GameStatusRequest = GameStatusRequest(board: Board, you: You)

  datatype Direction = Up | Down | Left | Right

  /** The fixed order in which neighbours are generated and candidates tried. */
  const Order: seq<Direction> := [Up, Down, Left, Right]

  /** Position of a direction in `Order`. */
  function Rank(d: Direction): (k: nat)
    ensures k < |Order| && Order[k] == d
  {
    match d
    case Up => 0
    case Down => 1
    case Left => 2
    case Right => 3
  }

  /** The move token the controller answers with. */
  function Name(d: Direction): (s: string)
    ensures s in {"up", "down", "left", "right"}
  {
    match d
    case Up => "up"
    case Down => "down"
    case Left => "left"
    case Right => "right"
  }

  /** The cell one step from `p` in direction `d`: up is `Y + 1`, down
      `Y - 1`, left `X - 1`, right `X + 1`, in unchecked 32-bit arithmetic. */
  function Step(p: Point, d: Direction): (q: Point)
    ensures (q.x as int - (p.x as int + DeltaX(d))) % Modulus == 0
    ensures (q.y as int - (p.y as int + DeltaY(d))) % Modulus == 0
  {
    match d
    case Up => Point(p.x, Add(p.y, 1))
    case Down => Point(p.x, Add(p.y, -1))
    case Left => Point(Add(p.x, -1), p.y)
    case Right => Point(Add(p.x, 1), p.y)
  }

  /** The change in `X` of one step in direction `d`. */
  function DeltaX(d: Direction): int {
    match d
    case Left => -1
    case Right => 1
    case _ => 0
  }

  /** The change in `Y` of one step in direction `d`. */
  function DeltaY(d: Direction): int {
    match d
    case Up => 1
    case Down => -1
    case _ => 0
  }

  /** The bounds test made for a neighbour in direction `d`: each direction
      checks only the one board edge it moves towards, so every cell on the
      board passes it. */
  predicate WithinOwnBound(board: Board, q: Point, d: Direction): (b: bool)
    ensures OnBoard(board, q) ==> b
  {
    match d
    case Up => q.y < board.height
    case Down => q.y >= 0
    case Left => q.x >= 0
    case Right => q.x < board.width
  }

  /** The guard of one `Add` in `GetOpenNeighbors`, and of one candidate
      block in `Move`: the step passes its bounds test and is not occupied. */
  predicate Passable(req: GameStatusRequest, occupied: set<Point>, cur: Point, d: Direction): (b: bool)
    ensures b ==> Step(cur, d) !in occupied
    ensures OnBoard(req.board, Step(cur, d)) && Step(cur, d) !in occupied ==> b
  {
    var q := Step(cur, d);
    WithinOwnBound(req.board, q, d) && q !in occupied
  }

  /** `Snakes.SelectMany(s => s.Body).ToHashSet()`: every body cell of every snake. */
  function Occupied(snakes: seq<Snake>): (occ: set<Point>)
    ensures forall p :: p in occ <==> exists i :: 0 <= i < |snakes| && p in snakes[i].body
  {
    if snakes == [] then {}
    else
      var rest := Occupied(snakes[1..]);
      assert forall p :: p in rest <==> exists i :: 1 <= i < |snakes| && p in snakes[i].body by {
        forall p | p in rest ensures exists i :: 1 <= i < |snakes| && p in snakes[i].body {
          var j :| 0 <= j < |snakes[1..]| && p in snakes[1..][j].body;
          assert p in snakes[j + 1].body;
        }
        forall p, i | 1 <= i < |snakes| && p in snakes[i].body ensures p in rest {
          assert snakes[1..][i - 1] == snakes[i];
        }
      }
      (set p | p in snakes[0].body) + rest
  }

  /** The directions of `ds` whose step from `cur` is passable, in the order
      of `ds`: the list built by appending each passable direction in turn. */
  function OpenDirections(req: GameStatusRequest, occupied: set<Point>, cur: Point, ds: seq<Direction>): (r: seq<Direction>)
    ensures |r| <= |ds|
  {
    if ds == [] then []
    else
      var last := ds[|ds| - 1];
      OpenDirections(req, occupied, cur, ds[..|ds| - 1]) + if Passable(req, occupied, cur, last) then [last] else []
  }

  /** Filtering keeps exactly the passable directions of `ds`. */
  lemma {:induction false} OpenDirectionsMembers(req: GameStatusRequest, occupied: set<Point>, cur: Point, ds: seq<Direction>)
    ensures forall d :: d in OpenDirections(req, occupied, cur, ds) <==> d in ds && Passable(req, occupied, cur, d)
  {
    if ds != [] {
      OpenDirectionsMembers(req, occupied, cur, ds[..|ds| - 1]);
      assert forall d :: d in ds <==> d in ds[..|ds| - 1] || d == ds[|ds| - 1];
    }
  }

  /** Filtering keeps the order: a subsequence of an increasing sequence of
      directions is increasing. */
  lemma {:induction false} OpenDirectionsIncreasing(req: GameStatusRequest, occupied: set<Point>, cur: Point, ds: seq<Direction>)
    requires Increasing(ds)
    ensures Increasing(OpenDirections(req, occupied, cur, ds))
  {
    if ds != [] {
      var init, last := ds[..|ds| - 1], ds[|ds| - 1];
      var rest := OpenDirections(req, occupied, cur, init);
      OpenDirectionsIncreasing(req, occupied, cur, init);
      if Passable(req, occupied, cur, last) {
        OpenDirectionsMembers(req, occupied, cur, init);
        forall j | 0 <= j < |rest| ensures Rank(rest[j]) < Rank(last) {
          assert rest[j] in init;
          var k :| 0 <= k < |init| && init[k] == rest[j];
          assert ds[k] == rest[j];
        }
        assert OpenDirections(req, occupied, cur, ds) == rest + [last];
      }
    }
  }

  /** Ranks strictly increase along `ds`: `ds` is a subsequence of `Order`
      with no direction twice. */
  predicate Increasing(ds: seq<Direction>) {
    forall i, j :: 0 <= i < j < |ds| ==> Rank(ds[i]) < Rank(ds[j])
  }

  /** The cells reached from `cur` by the steps `ds`, in order. */
  function StepsOf(cur: Point, ds: seq<Direction>): (r: seq<Point>)
    ensures |r| == |ds|
  {
    seq(|ds|, i requires 0 <= i < |ds| => Step(cur, ds[i]))
  }

  /** Appending a direction appends its step. */
  lemma StepsOfAppend(cur: Point, ds: seq<Direction>, d: Direction)
    ensures StepsOf(cur, ds + [d]) == StepsOf(cur, ds) + [Step(cur, d)]
  {
  }

  /** The open neighbours of `cur`: the passable steps, up, down, left, right. */
  function OpenNeighbors(req: GameStatusRequest, occupied: set<Point>, cur: Point): (r: seq<Point>)
    ensures |r| <= 4
  {
    StepsOf(cur, OpenDirections(req, occupied, cur, Order))
  }

  /** `GetOpenNeighbors`: four guarded appends in the order up, down, left, right. */
  method GetOpenNeighbors(req: GameStatusRequest, occupied: set<Point>, curCoords: Point) returns (neighbors: seq<Point>)
    ensures neighbors == OpenNeighbors(req, occupied, curCoords)
  {
    ghost var dirs: seq<Direction> := [];
    neighbors := [];
    var upPoint := Point(curCoords.x, Add(curCoords.y, 1));
    var downPoint := Point(curCoords.x, Add(curCoords.y, -1));
    var leftPoint := Point(Add(curCoords.x, -1), curCoords.y);
    var rightPoint := Point(Add(curCoords.x, 1), curCoords.y);
    if upPoint.y < req.board.height && upPoint !in occupied {
      StepsOfAppend(curCoords, dirs, Up);
      neighbors, dirs := neighbors + [upPoint], dirs + [Up];
    }
    assert neighbors == StepsOf(curCoords, dirs);
    assert dirs == OpenDirections(req, occupied, curCoords, [Up]) by {
      assert [Up][..0] == [];
    }
    if downPoint.y >= 0 && downPoint !in occupied {
      StepsOfAppend(curCoords, dirs, Down);
      neighbors, dirs := neighbors + [downPoint], dirs + [Down];
    }
    assert neighbors == StepsOf(curCoords, dirs);
    assert dirs == OpenDirections(req, occupied, curCoords, [Up, Down]) by {
      assert [Up, Down][..1] == [Up];
    }
    if leftPoint.x >= 0 && leftPoint !in occupied {
      StepsOfAppend(curCoords, dirs, Left);
      neighbors, dirs := neighbors + [leftPoint], dirs + [Left];
    }
    assert neighbors == StepsOf(curCoords, dirs);
    assert dirs == OpenDirections(req, occupied, curCoords, [Up, Down, Left]) by {
      assert [Up, Down, Left][..2] == [Up, Down];
    }
    if rightPoint.x < req.board.width && rightPoint !in occupied {
      StepsOfAppend(curCoords, dirs, Right);
      neighbors, dirs := neighbors + [rightPoint], dirs + [Right];
    }
    assert neighbors == StepsOf(curCoords, dirs);
    assert dirs == OpenDirections(req, occupied, curCoords, Order) by {
      assert Order[..3] == [Up, Down, Left];
    }
  }

  /** `p` lies on the board, `[0, width) x [0, height)`. */
  predicate OnBoard(board: Board, p: Point) {
    0 <= p.x < board.width && 0 <= p.y < board.height
  }

  /** Neither coordinate of `p` sits at an end of the 32-bit range, so no
      step from `p` wraps around. */
  predicate NoWrap(p: Point) {
    MinInt32 < p.x as int < MaxInt32 && MinInt32 < p.y as int < MaxInt32
  }

  function Abs(n: int): nat {
    if n < 0 then -n else n
  }

  /** `p` and `q` are one cardinal step apart. */
  predicate Adjacent(p: Point, q: Point) {
    Abs(p.x as int - q.x as int) + Abs(p.y as int - q.y as int) == 1
  }

  /** Away from the ends of the 32-bit range a step is one cardinal step. */
  lemma StepIsAdjacent(p: Point, d: Direction)
    requires NoWrap(p)
    ensures Adjacent(p, Step(p, d))
  {
  }

  /** The four steps from a point are four different points, wrap-around or not. */
  lemma StepInjective(p: Point, d: Direction, e: Direction)
    requires d != e
    ensures Step(p, d) != Step(p, e)
  {
  }

  /** `GetOpenNeighbors` returns the passable steps and nothing else: a step
      is in the result exactly when it passes its bounds test and is free. */
  lemma NeighborsAreThePassableSteps(req: GameStatusRequest, occupied: set<Point>, cur: Point)
    ensures forall d :: Step(cur, d) in OpenNeighbors(req, occupied, cur) <==> Passable(req, occupied, cur, d)
    ensures forall q :: q in OpenNeighbors(req, occupied, cur) ==> exists d :: q == Step(cur, d) && Passable(req, occupied, cur, d)
  {
    var dirs := OpenDirections(req, occupied, cur, Order);
    var r := OpenNeighbors(req, occupied, cur);
    OpenDirectionsMembers(req, occupied, cur, Order);
    forall d ensures Step(cur, d) in r <==> Passable(req, occupied, cur, d) {
      if Passable(req, occupied, cur, d) {
        assert d in Order;
        var i :| 0 <= i < |dirs| && dirs[i] == d;
        assert r[i] == Step(cur, d);
      } else if Step(cur, d) in r {
        var i :| 0 <= i < |r| && r[i] == Step(cur, d);
        StepInjective(cur, d, dirs[i]);
      }
    }
    forall q | q in r ensures exists d :: q == Step(cur, d) && Passable(req, occupied, cur, d) {
      var i :| 0 <= i < |r| && r[i] == q;
      assert dirs[i] in dirs;
    }
  }

  /** No returned neighbour is occupied. */
  lemma NeighborsAreFree(req: GameStatusRequest, occupied: set<Point>, cur: Point)
    ensures forall q :: q in OpenNeighbors(req, occupied, cur) ==> q !in occupied
  {
    NeighborsAreThePassableSteps(req, occupied, cur);
  }

  /** The direction in which `q` lies from `cur`, when `q` is one of its
      four steps; callers only pass such steps (see `DirectionToStep`). */
  function DirectionTo(cur: Point, q: Point): Direction {
    if q == Step(cur, Up) then Up
    else if q == Step(cur, Down) then Down
    else if q == Step(cur, Left) then Left
    else Right
  }

  /** `DirectionTo` inverts `Step`. */
  lemma DirectionToStep(cur: Point, d: Direction)
    ensures DirectionTo(cur, Step(cur, d)) == d
  {
    forall e | e != d ensures Step(cur, e) != Step(cur, d) {
      StepInjective(cur, e, d);
    }
  }

  /** The result lists its neighbours in the order up, down, left, right,
      each at most once: it is a subsequence of the four steps. */
  lemma NeighborsInOrder(req: GameStatusRequest, occupied: set<Point>, cur: Point)
    ensures var r := OpenNeighbors(req, occupied, cur);
      forall i, j :: 0 <= i < j < |r| ==> Rank(DirectionTo(cur, r[i])) < Rank(DirectionTo(cur, r[j]))
    ensures var r := OpenNeighbors(req, occupied, cur);
      forall i, j :: 0 <= i < j < |r| ==> r[i] != r[j]
  {
    var dirs := OpenDirections(req, occupied, cur, Order);
    var r := OpenNeighbors(req, occupied, cur);
    OpenDirectionsIncreasing(req, occupied, cur, Order);
    forall i, j | 0 <= i < j < |r|
      ensures Rank(DirectionTo(cur, r[i])) < Rank(DirectionTo(cur, r[j]))
      ensures r[i] != r[j]
    {
      DirectionToStep(cur, dirs[i]);
      DirectionToStep(cur, dirs[j]);
      StepInjective(cur, dirs[i], dirs[j]);
    }
  }

  /** Away from the ends of the 32-bit range every neighbour is one
      cardinal step from `cur`. */
  lemma NeighborsAreAdjacent(req: GameStatusRequest, occupied: set<Point>, cur: Point)
    requires NoWrap(cur)
    ensures forall q :: q in OpenNeighbors(req, occupied, cur) ==> Adjacent(cur, q)
  {
    NeighborsAreThePassableSteps(req, occupied, cur);
    forall d ensures Adjacent(cur, Step(cur, d)) {
      StepIsAdjacent(cur, d);
    }
  }

  /** From a cell on the board every neighbour is on the board: the one
      edge a direction checks is the only one its step can cross. */
  lemma NeighborsStayOnBoard(req: GameStatusRequest, occupied: set<Point>, cur: Point)
    requires OnBoard(req.board, cur)
    ensures forall q :: q in OpenNeighbors(req, occupied, cur) ==> OnBoard(req.board, q)
  {
    NeighborsAreThePassableSteps(req, occupied, cur);
  }

  /** The bounds test is one-sided: from a cell left of the board, the cell
      above it is still returned although it is off the board. */
  lemma OneSidedBoundsCheck()
    ensures var req := GameStatusRequest(Board(3, 3, []), You(Point(0, 0)));
      Point(-5, 1) in OpenNeighbors(req, {}, Point(-5, 0)) && !OnBoard(req.board, Point(-5, 1))
  {
    var req := GameStatusRequest(Board(3, 3, []), You(Point(0, 0)));
    NeighborsAreThePassableSteps(req, {}, Point(-5, 0));
    assert Step(Point(-5, 0), Up) == Point(-5, 1);
  }

  /** At the top of the 32-bit range `Y + 1` wraps: the "up" neighbour of
      `(0, 2147483647)` is `(0, -2147483648)`, which passes the check
      `Y < Height` and is returned. */
  lemma UpWrapsAtTopOfRange()
    ensures var req := GameStatusRequest(Board(1, 1, []), You(Point(0, 0)));
      var top := Point(0, MaxInt32 as int32);
      Point(0, MinInt32 as int32) in OpenNeighbors(req, {}, top) && !Adjacent(top, Point(0, MinInt32 as int32))
  {
    var req := GameStatusRequest(Board(1, 1, []), You(Point(0, 0)));
    var top := Point(0, MaxInt32 as int32);
    NeighborsAreThePassableSteps(req, {}, top);
    assert Step(top, Up) == Point(0, MinInt32 as int32);
  }

  /** What a candidate direction is worth to `Move`: the open-neighbour
      count of a free candidate cell next to the head that passes its
      direction's bounds test, and 0 for a blocked one, which, like a free cell without open neighbours, never
      beats the starting maximum of 0. */
  function Gain(req: GameStatusRequest, d: Direction): (n: nat)
    ensures n <= 4
  {
    GainIn(req, Occupied(req.board.snakes), d)
  }

  /** The gain of direction `d` from the head against the occupied set `occupied`. */
  function GainIn(req: GameStatusRequest, occupied: set<Point>, d: Direction): (n: nat)
    ensures n <= 4
  {
    var head := req.you.head;
    if Passable(req, occupied, head, d) then |OpenNeighbors(req, occupied, Step(head, d))| else 0
  }

  /** `d` has the largest gain, and every direction tried before it has a
      strictly smaller one: ties go to the earliest of up, down, left, right. */
  ghost predicate FirstBest(req: GameStatusRequest, d: Direction) {
    (forall e :: Gain(req, e) <= Gain(req, d)) &&
    (forall e :: Rank(e) < Rank(d) ==> Gain(req, e) < Gain(req, d))
  }

  /** The gains of the four candidates, in the order they are tried. */
  function Gains(req: GameStatusRequest): (g: seq<nat>)
    ensures |g| == |Order|
  {
    [Gain(req, Up), Gain(req, Down), Gain(req, Left), Gain(req, Right)]
  }

  /** The state of `Move` after the first `k` candidates were tried: before
      any, index 0 ("up") with maximum 0; afterwards `best` is the first
      index among them with the largest gain, and `max` is that gain. */
  ghost predicate FirstMaxOfPrefix(g: seq<nat>, k: nat, best: nat, max: int)
    requires k <= |g|
  {
    (k == 0 ==> best == 0 && max == 0) &&
    (k > 0 ==>
      best < k && max == g[best] &&
      (forall i :: 0 <= i < k ==> g[i] <= max) &&
      (forall i :: 0 <= i < best ==> g[i] < max))
  }

  /** Trying candidate `k` keeps `FirstMaxOfPrefix`: it is adopted exactly
      when its gain strictly exceeds the maximum so far. */
  lemma FirstMaxStep(g: seq<nat>, k: nat, best: nat, max: int, best': nat, max': int)
    requires k < |g| && FirstMaxOfPrefix(g, k, best, max)
    requires if g[k] > max then best' == k && max' == g[k] else best' == best && max' == max
    ensures FirstMaxOfPrefix(g, k + 1, best', max')
  {
  }

  /** Once all four candidates were tried, the index kept names the first
      direction with the largest gain. */
  lemma FirstMaxIsFirstBest(req: GameStatusRequest, best: nat, max: int)
    requires FirstMaxOfPrefix(Gains(req), |Order|, best, max)
    ensures best < |Order| && FirstBest(req, Order[best])
  {
    var g := Gains(req);
    forall e ensures g[Rank(e)] == Gain(req, e) {
      match e
      case Up =>
      case Down =>
      case Left =>
      case Right =>
    }
    assert Rank(Order[best]) == best;
  }

  /** The move tokens of different directions differ. */
  lemma NameInjective(d: Direction, e: Direction)
    requires Name(d) == Name(e)
    ensures d == e
  {
  }

  /** `Move`: try the four cells around the head in the order up, down,
      left, right; a free cell that passes its direction's bounds test
      replaces the current choice only when its open-neighbour count
      strictly exceeds the best so far, which starts at 0 with the choice
      "up". */
  method Move(req: GameStatusRequest) returns (direction: string)
    ensures direction in {"up", "down", "left", "right"}
    ensures forall d :: Name(d) == direction ==> FirstBest(req, d)
    ensures (forall d :: Gain(req, d) == 0) ==> direction == "up"
    ensures forall d :: Name(d) == direction && (d != Up || exists e :: Gain(req, e) > 0) ==>
      Passable(req, Occupied(req.board.snakes), req.you.head, d) &&
      |OpenNeighbors(req, Occupied(req.board.snakes), Step(req.you.head, d))| > 0
  {
    var occupied := Occupied(req.board.snakes);
    direction := "up";
    var curCoords := req.you.head;
    var upPoint := Point(curCoords.x, Add(curCoords.y, 1));
    var downPoint := Point(curCoords.x, Add(curCoords.y, -1));
    var leftPoint := Point(Add(curCoords.x, -1), curCoords.y);
    var rightPoint := Point(Add(curCoords.x, 1), curCoords.y);
    var maxOpenNeighbors := 0;
    ghost var gains := Gains(req);
    ghost var best: nat := 0;
    ghost var before, maxBefore := best, maxOpenNeighbors;
    if upPoint.y < req.board.height && upPoint !in occupied {
      var openNeighbors := GetOpenNeighbors(req, occupied, upPoint);
      assert gains[0] == |openNeighbors|;
      if |openNeighbors| > maxOpenNeighbors {
        direction := "up";
        maxOpenNeighbors := |openNeighbors|;
        best := 0;
      }
    } else {
      assert gains[0] == 0;
    }
    FirstMaxStep(gains, 0, before, maxBefore, best, maxOpenNeighbors);
    before, maxBefore := best, maxOpenNeighbors;
    if downPoint.y >= 0 && downPoint !in occupied {
      var openNeighbors := GetOpenNeighbors(req, occupied, downPoint);
      assert gains[1] == |openNeighbors|;
      if |openNeighbors| > maxOpenNeighbors {
        direction := "down";
        maxOpenNeighbors := |openNeighbors|;
        best := 1;
      }
    } else {
      assert gains[1] == 0;
    }
    FirstMaxStep(gains, 1, before, maxBefore, best, maxOpenNeighbors);
    before, maxBefore := best, maxOpenNeighbors;
    if leftPoint.x >= 0 && leftPoint !in occupied {
      var openNeighbors := GetOpenNeighbors(req, occupied, leftPoint);
      assert gains[2] == |openNeighbors|;
      if |openNeighbors| > maxOpenNeighbors {
        direction := "left";
        maxOpenNeighbors := |openNeighbors|;
        best := 2;
      }
    } else {
      assert gains[2] == 0;
    }
    FirstMaxStep(gains, 2, before, maxBefore, best, maxOpenNeighbors);
    before, maxBefore := best, maxOpenNeighbors;
    if rightPoint.x < req.board.width && rightPoint !in occupied {
      var openNeighbors := GetOpenNeighbors(req, occupied, rightPoint);
      assert gains[3] == |openNeighbors|;
      if |openNeighbors| > maxOpenNeighbors {
        direction := "right";
        maxOpenNeighbors := |openNeighbors|;
        best := 3;
      }
    } else {
      assert gains[3] == 0;
    }
    FirstMaxStep(gains, 3, before, maxBefore, best, maxOpenNeighbors);
    FirstMaxIsFirstBest(req, best, maxOpenNeighbors);
    assert direction == Name(Order[best]);
    FirstBestIsChosenCandidate(req, Order[best]);
    forall d | Name(d) == direction ensures d == Order[best] {
      NameInjective(d, Order[best]);
    }
  }

  /** From a head on the board, a candidate that passes its bounds test is
      on the board: the chosen cell is then in bounds. */
  lemma PassableStaysOnBoard(req: GameStatusRequest, occupied: set<Point>, cur: Point, d: Direction)
    requires OnBoard(req.board, cur) && Passable(req, occupied, cur, d)
    ensures OnBoard(req.board, Step(cur, d))
  {
  }

  /** The first direction with the largest gain is "up" when no candidate
      has a gain, and otherwise a free cell that passes its direction's
      bounds test (on the board when the head is; see `PassableStaysOnBoard`)
      and has open neighbours. */
  lemma FirstBestIsChosenCandidate(req: GameStatusRequest, d: Direction)
    requires FirstBest(req, d)
    ensures (forall e :: Gain(req, e) == 0) ==> d == Up
    ensures (d != Up || exists e :: Gain(req, e) > 0) ==>
      Passable(req, Occupied(req.board.snakes), req.you.head, d) &&
      |OpenNeighbors(req, Occupied(req.board.snakes), Step(req.you.head, d))| > 0
  {
    if d != Up {
      assert Gain(req, Up) < Gain(req, d);
    }
  }

  /** The contract of `Move` fixes its answer: at most one direction is the
      first with the largest gain. */
  lemma FirstBestUnique(req: GameStatusRequest, d: Direction, e: Direction)
    requires FirstBest(req, d) && FirstBest(req, e)
    ensures d == e
  {
    assert Gain(req, d) == Gain(req, e);
    assert Rank(d) == Rank(e);
  }

  /** The direction that undoes `d`. */
  function Opposite(d: Direction): Direction {
    match d
    case Up => Down
    case Down => Up
    case Left => Right
    case Right => Left
  }

  /** Stepping back returns to the start, at the ends of the 32-bit range too,
      since unchecked arithmetic is modular. */
  lemma StepBack(p: Point, d: Direction)
    ensures Step(Step(p, d), Opposite(d)) == p
  {
  }

  /** A direction of `ds` that is not passable is filtered out, so the
      result is strictly shorter than `ds`. */
  lemma {:induction false} OpenDirectionsDropsBlocked(req: GameStatusRequest, occupied: set<Point>, cur: Point, ds: seq<Direction>, d: Direction)
    requires d in ds && !Passable(req, occupied, cur, d)
    ensures |OpenDirections(req, occupied, cur, ds)| < |ds|
  {
    var init, last := ds[..|ds| - 1], ds[|ds| - 1];
    if last != d {
      assert d in init;
      OpenDirectionsDropsBlocked(req, occupied, cur, init, d);
    }
  }

  /** When the head itself is occupied (the mover's body is among the
      snakes), every candidate sees the head as one of its four neighbours,
      so no candidate counts more than 3 open neighbours. */
  lemma GainAtMostThreeWhenHeadOccupied(req: GameStatusRequest, d: Direction)
    requires req.you.head in Occupied(req.board.snakes)
    ensures Gain(req, d) <= 3
  {
    var occupied, head := Occupied(req.board.snakes), req.you.head;
    if Passable(req, occupied, head, d) {
      var q := Step(head, d);
      StepBack(head, d);
      assert !Passable(req, occupied, q, Opposite(d));
      assert Opposite(d) == Order[Rank(Opposite(d))];
      OpenDirectionsDropsBlocked(req, occupied, q, Order, Opposite(d));
    }
  }

  /** The number of open neighbours is the number of passable directions. */
  lemma OpenNeighborsCount(req: GameStatusRequest, occupied: set<Point>, cur: Point)
    ensures |OpenNeighbors(req, occupied, cur)|
      == (if Passable(req, occupied, cur, Up) then 1 else 0) + (if Passable(req, occupied, cur, Down) then 1 else 0)
       + (if Passable(req, occupied, cur, Left) then 1 else 0) + (if Passable(req, occupied, cur, Right) then 1 else 0)
  {
    assert [Up][..0] == [];
    assert [Up, Down][..1] == [Up];
    assert [Up, Down, Left][..2] == [Up, Down];
    assert Order[..3] == [Up, Down, Left];
    assert |OpenDirections(req, occupied, cur, [Up])| == if Passable(req, occupied, cur, Up) then 1 else 0;
    assert |OpenDirections(req, occupied, cur, [Up, Down])|
      == |OpenDirections(req, occupied, cur, [Up])| + if Passable(req, occupied, cur, Down) then 1 else 0;
    assert |OpenDirections(req, occupied, cur, [Up, Down, Left])|
      == |OpenDirections(req, occupied, cur, [Up, Down])| + if Passable(req, occupied, cur, Left) then 1 else 0;
  }

  /** A worked turn on a 7 by 7 board: the mover's head at (3,3) with body
      (3,3), (3,2), (3,1), and another snake on (5,3), (5,2). */
  const WorkedTurn: GameStatusRequest := GameStatusRequest(
    Board(7, 7, [Snake([Point(3, 3), Point(3, 2), Point(3, 1)]), Snake([Point(5, 3), Point(5, 2)])]),
    You(Point(3, 3)))

  const WorkedOccupied: set<Point> := {Point(3, 3), Point(3, 2), Point(3, 1), Point(5, 3), Point(5, 2)}

  lemma WorkedTurnOccupied()
    ensures Occupied(WorkedTurn.board.snakes) == WorkedOccupied
  {
    var snakes := WorkedTurn.board.snakes;
    assert snakes[1..][1..] == [];
    assert Occupied(snakes[1..]) == {Point(5, 3), Point(5, 2)};
  }

  /** Around the up candidate (3,4), only (3,3) is taken. */
  lemma WorkedUpCount()
    ensures |OpenNeighbors(WorkedTurn, WorkedOccupied, Point(3, 4))| == 3
  {
    var p := Point(3, 4);
    assert Step(p, Up) == Point(3, 5) && Step(p, Down) == Point(3, 3) && Step(p, Left) == Point(2, 4) && Step(p, Right) == Point(4, 4);
    OpenNeighborsCount(WorkedTurn, WorkedOccupied, p);
  }

  /** Around the left candidate (2,3), only (3,3) is taken. */
  lemma WorkedLeftCount()
    ensures |OpenNeighbors(WorkedTurn, WorkedOccupied, Point(2, 3))| == 3
  {
    var p := Point(2, 3);
    assert Step(p, Up) == Point(2, 4) && Step(p, Down) == Point(2, 2) && Step(p, Left) == Point(1, 3) && Step(p, Right) == Point(3, 3);
    OpenNeighborsCount(WorkedTurn, WorkedOccupied, p);
  }

  /** Around the right candidate (4,3), (3,3) and the other head (5,3) are taken. */
  lemma WorkedRightCount()
    ensures |OpenNeighbors(WorkedTurn, WorkedOccupied, Point(4, 3))| == 2
  {
    var p := Point(4, 3);
    assert Step(p, Up) == Point(4, 4) && Step(p, Down) == Point(4, 2) && Step(p, Left) == Point(3, 3) && Step(p, Right) == Point(5, 3);
    OpenNeighborsCount(WorkedTurn, WorkedOccupied, p);
  }

  /** "up" is the first best direction as soon as no other candidate
      has a larger gain. */
  lemma UpIsFirstBest(req: GameStatusRequest)
    requires Gain(req, Down) <= Gain(req, Up) && Gain(req, Left) <= Gain(req, Up) && Gain(req, Right) <= Gain(req, Up)
    ensures FirstBest(req, Up)
  {
    forall e ensures Gain(req, e) <= Gain(req, Up) {
      match e
      case Up =>
      case Down =>
      case Left =>
      case Right =>
    }
  }

  /** In the worked turn up and left both reach 3 open cells, right 2,
      and down is the mover's own body. */
  lemma WorkedTurnGains()
    ensures GainIn(WorkedTurn, WorkedOccupied, Up) == 3 && GainIn(WorkedTurn, WorkedOccupied, Down) == 0
    ensures GainIn(WorkedTurn, WorkedOccupied, Left) == 3 && GainIn(WorkedTurn, WorkedOccupied, Right) == 2
  {
    var head := WorkedTurn.you.head;
    WorkedUpCount();
    WorkedLeftCount();
    WorkedRightCount();
    assert Step(head, Up) == Point(3, 4) && Step(head, Down) == Point(3, 2);
    assert Step(head, Left) == Point(2, 3) && Step(head, Right) == Point(4, 3);
  }

  /** The tie between up and left goes to "up". */
  lemma WorkedTurnChoosesUp()
    ensures FirstBest(WorkedTurn, Up)
  {
    WorkedTurnOccupied();
    WorkedTurnGains();
    UpIsFirstBest(WorkedTurn);
  }
}
