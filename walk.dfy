/** `random_walk`: a walker starts on cell (0, 0) of a zero grid and takes
    1 + size*size steps of (dx, dy) in {-1, 0, 1}^2 on the torus, marking
    every cell it stands on with 1. The draws of `random.Random(seed)` are
    supplied as a function from the seed and the number of the call to the
    value that call of `randint(-1, 1)` returns. */
module Walk {
  import opened Grids

  /** One result of `randint(-1, 1)`. */
  type Delta = d: int | -1 <= d <= 1

  /** `randint(seed, n)` is what the n-th call (from 0) of `randint(-1, 1)`
      returns on a generator seeded with `seed`. */
  type RandIntSource = (int, nat) -> Delta

  /** An edge length the walk can run on: it is used as a divisor. */
  type Size = n: nat | 0 < n witness 1

  /** One step of the walk: the pair (dx, dy). */
  datatype Move = Move(dx: Delta, dy: Delta)

  /** A cell: first index, second index. */
  datatype Pos = Pos(x: int, y: int)

  predicate InGrid(p: Pos, size: nat)
  {
    0 <= p.x < size && 0 <= p.y < size
  }

  /** The number of steps the walk takes on a size-by-size grid. */
  function StepCount(size: nat): nat
  {
    1 + size * size
  }

  /** Python's `v % size` for a positive `size`: never negative. */
  function Wrap(v: int, size: Size): (r: int)
    ensures 0 <= r < size
  {
    v % size
  }

  /** On the coordinates a step produces, `Wrap` is the wrap-around of a
      torus: leaving on one side re-enters on the other. */
  lemma WrapOnTorus(v: int, size: Size)
    requires -1 <= v <= size
    ensures 0 <= v < size ==> Wrap(v, size) == v
    ensures v == -1 ==> Wrap(v, size) == size - 1
    ensures v == size ==> Wrap(v, size) == 0
  {
    if v == -1 {
      assert -1 == (-1) * size + (size - 1);
    }
  }

  /** One step: `x, y = (x + dx) % size, (y + dy) % size`. */
  function Step(p: Pos, m: Move, size: Size): (q: Pos)
    ensures InGrid(q, size)
  {
    Pos(Wrap(p.x + m.dx, size), Wrap(p.y + m.dy, size))
  }

  /** The number of the `randint(-1, 1)` call that gives step n its dx
      (`isDy` false) or its dy (`isDy` true): each step draws dx, then dy. */
  function CallNumber(n: nat, isDy: bool): nat
  {
    2 * n + if isDy then 1 else 0
  }

  /** The moves of a walk of `count` steps, each built from its two calls. */
  function WalkMoves(seed: int, randint: RandIntSource, count: nat): seq<Move>
  {
    seq(count, (n: nat) => Move(randint(seed, CallNumber(n, false)), randint(seed, CallNumber(n, true))))
  }

  /** A walk of `count` steps uses only the first 2 * count calls. */
  lemma CallNumberInRange(n: nat, isDy: bool, count: nat)
    requires n < count
    ensures CallNumber(n, isDy) < 2 * count
  {
  }

  /** No call is used twice: distinct (step, axis) pairs use distinct calls. */
  lemma CallNumberInjective(n: nat, isDy: bool, n': nat, isDy': bool)
    requires CallNumber(n, isDy) == CallNumber(n', isDy')
    ensures n == n' && isDy == isDy'
  {
  }

  /** Every one of the first 2 * count calls is used: call c gives step
      c / 2 its dx when c is even and its dy when c is odd. */
  lemma CallNumberOnto(c: nat, count: nat)
    requires c < 2 * count
    ensures c / 2 < count
    ensures CallNumber(c / 2, c % 2 == 1) == c
  {
  }

  /** The value of call c of `randint(-1, 1)` is the dx (c even) or the dy
      (c odd) of move c / 2 of the walk. */
  lemma WalkMovesDrawOrder(seed: int, randint: RandIntSource, count: nat, c: nat)
    requires c < 2 * count
    ensures c / 2 < |WalkMoves(seed, randint, count)|
    ensures var m := WalkMoves(seed, randint, count)[c / 2];
            (if c % 2 == 0 then m.dx else m.dy) == randint(seed, c)
  {
    CallNumberOnto(c, count);
  }

  /** Where the walker stands after the first `k` of `moves`. */
  function PositionAfter(size: Size, moves: seq<Move>, k: nat): (p: Pos)
    requires k <= |moves|
    ensures InGrid(p, size)
  {
    if k == 0 then Pos(0, 0) else Step(PositionAfter(size, moves, k - 1), moves[k - 1], size)
  }

  /** The step the walk's loop takes from position `k` reaches position
      k + 1. */
  lemma StepFrom(size: Size, moves: seq<Move>, k: nat, x: int, y: int)
    requires k < |moves| && Pos(x, y) == PositionAfter(size, moves, k)
    ensures Pos(Wrap(x + moves[k].dx, size), Wrap(y + moves[k].dy, size)) == PositionAfter(size, moves, k + 1)
  {
  }

  /** Each step moves to one of the nine torus neighbours (itself included)
      of the previous cell. */
  lemma StepIsNeighbour(size: Size, moves: seq<Move>, k: nat)
    requires k < |moves|
    ensures var p, q := PositionAfter(size, moves, k), PositionAfter(size, moves, k + 1);
            (q.x == p.x || q.x == Wrap(p.x + 1, size) || q.x == Wrap(p.x - 1, size)) &&
            (q.y == p.y || q.y == Wrap(p.y + 1, size) || q.y == Wrap(p.y - 1, size))
  {
    var p := PositionAfter(size, moves, k);
    WrapOnTorus(p.x, size);
    WrapOnTorus(p.y, size);
  }

  /** The cells the walker has stood on within its first `k` steps. */
  function Visited(size: Size, moves: seq<Move>, k: nat): set<Pos>
    requires k <= |moves|
  {
    if k == 0 then {Pos(0, 0)} else Visited(size, moves, k - 1) + {PositionAfter(size, moves, k)}
  }

  /** `Visited` holds exactly the positions of the path up to step k. */
  lemma {:induction false} VisitedIff(size: Size, moves: seq<Move>, k: nat, p: Pos)
    requires k <= |moves|
    ensures p in Visited(size, moves, k) <==> exists n :: 0 <= n <= k && PositionAfter(size, moves, n) == p
  {
    if PositionAfter(size, moves, k) == p {
      assert 0 <= k <= k && PositionAfter(size, moves, k) == p;
    }
    if 0 < k {
      VisitedIff(size, moves, k - 1, p);
      if exists n :: 0 <= n <= k && PositionAfter(size, moves, n) == p {
        var n :| 0 <= n <= k && PositionAfter(size, moves, n) == p;
        if n < k {
          assert 0 <= n <= k - 1 && PositionAfter(size, moves, n) == p;
        }
      }
    }
  }

  /** The start cell (0, 0) is visited whatever the moves. */
  lemma {:induction false} StartVisited(size: Size, moves: seq<Move>, k: nat)
    requires k <= |moves|
    ensures Pos(0, 0) in Visited(size, moves, k)
  {
    if 0 < k {
      StartVisited(size, moves, k - 1);
    }
  }

  /** Only cells of the grid are ever visited. */
  lemma {:induction false} VisitedInGrid(size: Size, moves: seq<Move>, k: nat, p: Pos)
    requires k <= |moves| && p in Visited(size, moves, k)
    ensures InGrid(p, size)
  {
    if 0 < k && PositionAfter(size, moves, k) != p {
      VisitedInGrid(size, moves, k - 1, p);
    }
  }

  /** `image` is size by size, 1 on the cells of `visited` and 0 elsewhere. */
  ghost predicate IsMask(image: array2<real>, size: nat, visited: set<Pos>)
    reads image
  {
    HasSize(image, size) &&
    forall a, b :: 0 <= a < size && 0 <= b < size ==>
      image[a, b] == if Pos(a, b) in visited then 1.0 else 0.0
  }

  /** One iteration of the walk's loop: move from position `n` by move `n`
      and mark the cell reached. */
  method StepAndMark(image: array2<real>, size: Size, moves: seq<Move>, n: nat, x: int, y: int)
    returns (x': int, y': int)
    requires n < |moves| && Pos(x, y) == PositionAfter(size, moves, n)
    requires IsMask(image, size, Visited(size, moves, n))
    modifies image
    ensures Pos(x', y') == PositionAfter(size, moves, n + 1)
    ensures IsMask(image, size, Visited(size, moves, n + 1))
  {
    var dx, dy := moves[n].dx, moves[n].dy;
    StepFrom(size, moves, n, x, y);
    x', y' := Wrap(x + dx, size), Wrap(y + dy, size);
    image[x', y'] := 1.0;
  }

  /** The walk's starting grid: zeros, with the start cell (0, 0) set. */
  method StartGrid(size: Size) returns (image: array2<real>)
    ensures fresh(image) && IsMask(image, size, Visited(size, [], 0))
  {
    image := new real[size, size]((_, _) => 0.0);
    image[0, 0] := 1.0;
  }

  /** The walk on a positive `size`: a zero grid with (0, 0) set, then one
      step per move, each marking the cell it lands on. */
  method MarkPath(size: Size, moves: seq<Move>) returns (image: array2<real>)
    ensures fresh(image) && IsMask(image, size, Visited(size, moves, |moves|))
  {
    image := StartGrid(size);
    var x, y := 0, 0;
    var n := 0;
    while n < |moves|
      invariant 0 <= n <= |moves|
      invariant Pos(x, y) == PositionAfter(size, moves, n)
      invariant IsMask(image, size, Visited(size, moves, n))
    {
      x, y := StepAndMark(image, size, moves, n, x, y);
      n := n + 1;
    }
  }

  /** `random_walk(size, seed)`: 1 + size*size steps whose moves are drawn
      from `randint` in the order dx, dy. A zero `size` fails at the first
      store, before any draw. */
  method RandomWalk(size: nat, seed: int, randint: RandIntSource) returns (r: Result<array2<real>>)
    ensures size == 0 ==> r == Failure(IndexOutOfRange)
    ensures 0 < size ==> r.Success? && fresh(r.value)
    ensures 0 < size ==> r.Success? && IsMask(r.value, size, Visited(size, WalkMoves(seed, randint, StepCount(size)), StepCount(size)))
  {
    if size == 0 {
      return Failure(IndexOutOfRange);
    }
    var image := MarkPath(size, WalkMoves(seed, randint, StepCount(size)));
    r := Success(image);
  }

  /** The walk's grid is a 0/1 mask with the start cell set, and a cell is 1
      exactly when some position of the walk's path is that cell. */
  lemma WalkMask(size: Size, moves: seq<Move>, image: array2<real>, a: int, b: int)
    requires 0 <= a < size && 0 <= b < size
    requires IsMask(image, size, Visited(size, moves, |moves|))
    ensures image[0, 0] == 1.0
    ensures image[a, b] == 0.0 || image[a, b] == 1.0
    ensures image[a, b] == 1.0 <==> exists n :: 0 <= n <= |moves| && PositionAfter(size, moves, n) == Pos(a, b)
  {
    StartVisited(size, moves, |moves|);
    VisitedIff(size, moves, |moves|, Pos(a, b));
  }
}
