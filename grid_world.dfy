/** The grid world of maze.py: a width x height grid of states, each with the
    reward for entering it and a terminal flag, and the bounds-checked move
    `step`. Coordinates are (x, y) pairs; (0, 0) is drawn bottom-left. */
module GridWorld {

  /** A grid coordinate (x, y). */
  type Position = (int, int)

  /** `states.shape`: (width, height). */
  type Shape = (nat, nat)

  /** The exceptions the source raises, by Python class name. */
  datatype Error = AttributeError | IndexError | TypeError | ValueError | KeyError

  datatype Option<+T> = None | Some(value: T)

  datatype Result<+T> = Ok(value: T) | Err(error: Error)

  /** The four moves, in the order in which the source enumerates them. */
  datatype Action = Up | Down | Left | Right

  const ActionOrder: seq<Action> := [Up, Down, Left, Right]

  /** Position of an action in ActionOrder. */
  function Rank(a: Action): (k: nat)
    ensures k < |ActionOrder| && ActionOrder[k] == a
  {
    match a
    case Up => 0
    case Down => 1
    case Left => 2
    case Right => 3
  }

  /** `action.value`: the displacement an action adds to a coordinate. The
      vectors are an assumption of this model (see README); every one of them
      is a unit step along exactly one axis. */
  function Displacement(a: Action): (d: (int, int))
    ensures (d.0 == 0) != (d.1 == 0)
    ensures -1 <= d.0 <= 1 && -1 <= d.1 <= 1
  {
    match a
    case Up => (0, 1)
    case Down => (0, -1)
    case Left => (-1, 0)
    case Right => (1, 0)
  }

  /** The four displacements are the unit steps both ways along both axes:
      Up and Down are opposite along y, Left and Right opposite along x. */
  lemma DisplacementsSpanAxes()
    ensures Displacement(Up).0 == 0 && Displacement(Left).1 == 0
    ensures Displacement(Down) == (-Displacement(Up).0, -Displacement(Up).1)
    ensures Displacement(Right) == (-Displacement(Left).0, -Displacement(Left).1)
  {
  }

  /** `start + action.value`, component-wise. */
  function Moved(start: Position, a: Action): Position
  {
    (start.0 + Displacement(a).0, start.1 + Displacement(a).1)
  }

  predicate InGrid(shape: Shape, p: Position)
  {
    0 <= p.0 < shape.0 && 0 <= p.1 < shape.1
  }

  /** Every coordinate of a grid of the given shape. */
  function Positions(shape: Shape): (ps: set<Position>)
    ensures forall p :: p in ps <==> InGrid(shape, p)
  {
    var ps := set x, y | 0 <= x < shape.0 && 0 <= y < shape.1 :: (x, y);
    assert forall p :: InGrid(shape, p) ==> (p.0, p.1) in ps;
    ps
  }

  /** The coordinates numpy accepts as an index into a grid of this shape:
      each component in [-n, n) for its axis length n. */
  predicate Addressable(shape: Shape, c: Position)
  {
    -(shape.0 as int) <= c.0 < shape.0 && -(shape.1 as int) <= c.1 < shape.1
  }

  /** numpy's reading of one index into an axis of length n: an index in
      [-n, n) is accepted and a negative one counts from the end. */
  function AxisIndex(i: int, n: nat): (r: Option<nat>)
    ensures r.Some? <==> -(n as int) <= i < n
    ensures r.Some? ==> r.value < n && (r.value == i || r.value == i + n)
  {
    if 0 <= i < n then Some(i)
    else if -(n as int) <= i < 0 then Some(i + n)
    else None
  }

  /** An accepted index is the index taken modulo the axis length. */
  lemma AxisIndexWraps(i: int, n: nat)
    requires AxisIndex(i, n).Some?
    ensures AxisIndex(i, n).value == i % n
  {
    if i < 0 {
      assert (i + n) % n == i % n;
    }
  }

  /** `states[coordinate]` on a two-dimensional numpy array: the cell it
      addresses, or None where numpy raises IndexError. */
  function GridIndex(shape: Shape, c: Position): (r: Option<Position>)
    ensures r.Some? <==> Addressable(shape, c)
    ensures r.Some? ==> InGrid(shape, r.value)
    ensures InGrid(shape, c) ==> r == Some(c)
  {
    match (AxisIndex(c.0, shape.0), AxisIndex(c.1, shape.1))
    case (Some(x), Some(y)) => Some((x, y))
    case _ => None
  }

  /** An accepted coordinate is the coordinate taken modulo the shape. */
  lemma GridIndexWraps(shape: Shape, c: Position)
    requires GridIndex(shape, c).Some?
    ensures GridIndex(shape, c).value == (c.0 % shape.0, c.1 % shape.1)
  {
    AxisIndexWraps(c.0, shape.0);
    AxisIndexWraps(c.1, shape.1);
  }

  /** Maze.step: the coordinate reached from `start` by `action`, or
      IndexError when it would leave the grid. It depends only on the grid's
      shape and changes nothing. */
  function Step(shape: Shape, start: Position, action: Action): (r: Result<Position>)
    ensures r.Ok? <==> InGrid(shape, Moved(start, action))
    ensures r.Ok? ==> r.value == Moved(start, action)
    ensures r.Err? ==> r.error == IndexError
  {
    var next := Moved(start, action);
    if next.0 < 0 || next.1 < 0 then Err(IndexError)
    else if GridIndex(shape, next).None? then Err(IndexError)
    else Ok(next)
  }

  /** A cell has no move that stays on the grid exactly when the grid is a
      single cell. */
  lemma NoMoveOnlyInSingleCell(shape: Shape, p: Position)
    requires InGrid(shape, p)
    ensures (forall a :: Step(shape, p, a).Err?) <==> shape == (1, 1)
  {
    if shape != (1, 1) {
      if shape.0 > 1 {
        if p.0 + 1 < shape.0 { assert Step(shape, p, Right).Ok?; }
        else { assert Step(shape, p, Left).Ok?; }
      } else {
        if p.1 + 1 < shape.1 { assert Step(shape, p, Up).Ok?; }
        else { assert Step(shape, p, Down).Ok?; }
      }
    }
  }

  /** A two-dimensional numpy array of rewards: its shape and its rows. */
  datatype Matrix = Matrix(shape: Shape, rows: seq<seq<real>>)
  {
    predicate Valid()
    {
      |rows| == shape.0 && forall x :: 0 <= x < |rows| ==> |rows[x]| == shape.1
    }

    /** `rewards[x, y]`. */
    function At(p: Position): real
      requires Valid() && InGrid(shape, p)
    {
      rows[p.0][p.1]
    }
  }

  /** What the engine reads of one state: its reward and its terminal flag. */
  datatype Cell = Cell(reward: real, isTerminal: bool)

  /** The contents of a maze as a value: one Cell per coordinate. */
  datatype Layout = Layout(shape: Shape, cells: map<Position, Cell>)
  {
    ghost predicate Valid()
    {
      forall p :: p in cells <==> InGrid(shape, p)
    }

    /** The layout with the cell at p made terminal. */
    function MarkTerminal(p: Position): Layout
      requires p in cells
    {
      this.(cells := cells[p := cells[p].(isTerminal := true)])
    }

    /** The layout with every reward taken from `rewards`. */
    function WithRewards(rewards: Matrix): Layout
      requires Valid() && rewards.Valid() && rewards.shape == shape
    {
      this.(cells := map p | p in cells :: cells[p].(reward := rewards.At(p)))
    }
  }

  /** The layout a new maze starts with: the given rewards, nothing terminal. */
  function InitialLayout(rewards: Matrix): Layout
    requires rewards.Valid()
  {
    Layout(rewards.shape, map p | p in Positions(rewards.shape) :: Cell(rewards.At(p), false))
  }

  /** One cell of the maze (state.py). Its position never changes; its reward
      and terminal flag are updated in place by the maze. */
  class State {
    const position: Position
    var reward: real
    var isTerminal: bool

    constructor (position: Position, reward: real, isTerminal: bool)
      ensures this.position == position && this.reward == reward && this.isTerminal == isTerminal
    {
      this.position := position;
      this.reward := reward;
      this.isTerminal := isTerminal;
    }
  }

  /** Maze: a numpy object array of States, indexed by (x, y). */
  class Maze {
    const shape: Shape
    const states: array2<State?>
    /** The State objects of the grid, one per cell. */
    ghost const cells: set<State>

    /** Every cell holds a distinct State that knows its own position, and
        `cells` is exactly those States. */
    ghost predicate Valid()
      reads this, states, cells
    {
      && states.Length0 == shape.0 && states.Length1 == shape.1
      && (forall x, y :: 0 <= x < shape.0 && 0 <= y < shape.1 ==>
            states[x, y] != null && states[x, y] in cells && states[x, y].position == (x, y))
      && (forall s :: s in cells ==>
            InGrid(shape, s.position) && states[s.position.0, s.position.1] == s)
    }

    /** l is the contents of this maze: each State's reward and flag sit in
        l at the State's position. */
    ghost predicate Shows(l: Layout)
      reads cells
    {
      && l.Valid() && l.shape == shape
      && forall s :: s in cells ==> s.position in l.cells && l.cells[s.position] == Cell(s.reward, s.isTerminal)
    }

    /** The maze's contents as a value. */
    ghost function View(): (l: Layout)
      reads this, states, cells
      requires Valid()
      ensures Shows(l)
    {
      Layout(shape, map p | p in Positions(shape) ::
        Cell(states[p.0, p.1].reward, states[p.0, p.1].isTerminal))
    }

    /** Maze.__init__ after its shape check: one fresh, non-terminal State
        per cell, carrying that cell's position and reward. */
    constructor (rewards: Matrix)
      requires rewards.Valid()
      ensures Valid() && fresh(states) && fresh(cells)
      ensures shape == rewards.shape
      ensures View() == InitialLayout(rewards)
    {
      var grid, made := NewStates(rewards);
      shape := rewards.shape;
      states := grid;
      cells := made;
      new;
      assert View().cells == InitialLayout(rewards).cells;
    }

    /** The body of `__init__`'s loops: one fresh non-terminal State per
        coordinate, holding its reward. */
    static method NewStates(rewards: Matrix) returns (grid: array2<State?>, ghost made: set<State>)
      requires rewards.Valid()
      ensures fresh(grid) && grid.Length0 == rewards.shape.0 && grid.Length1 == rewards.shape.1
      ensures forall i, j :: 0 <= i < rewards.shape.0 && 0 <= j < rewards.shape.1 ==>
        grid[i, j] != null && grid[i, j] in made && grid[i, j].position == (i, j)
        && grid[i, j].reward == rewards.rows[i][j] && !grid[i, j].isTerminal
      ensures forall s :: s in made ==> InGrid(rewards.shape, s.position) && grid[s.position.0, s.position.1] == s
      ensures forall s :: s in made ==> fresh(s)
    {
      var w, h := rewards.shape.0, rewards.shape.1;
      grid := new State?[w, h];
      made := {};
      for x := 0 to w
        invariant forall i, j :: 0 <= i < x && 0 <= j < h ==>
          grid[i, j] != null && grid[i, j] in made && grid[i, j].position == (i, j)
          && grid[i, j].reward == rewards.rows[i][j] && !grid[i, j].isTerminal
        invariant forall s :: s in made ==>
          s.position.0 < x && 0 <= s.position.0 && 0 <= s.position.1 < h
          && grid[s.position.0, s.position.1] == s
        invariant forall s :: s in made ==> fresh(s)
      {
        for y := 0 to h
          invariant forall i, j :: 0 <= i < w && 0 <= j < h && (i < x || (i == x && j < y)) ==>
            grid[i, j] != null && grid[i, j] in made && grid[i, j].position == (i, j)
            && grid[i, j].reward == rewards.rows[i][j] && !grid[i, j].isTerminal
          invariant forall s :: s in made ==>
            (s.position.0 < x || (s.position.0 == x && s.position.1 < y))
            && 0 <= s.position.0 && 0 <= s.position.1 < h
            && grid[s.position.0, s.position.1] == s
          invariant forall s :: s in made ==> fresh(s)
        {
          var s := new State((x, y), rewards.rows[x][y], false);
          grid[x, y] := s;
          made := made + {s};
        }
      }
    }

    /** Maze.__init__: AttributeError when the rewards do not have the
        requested shape, otherwise a new maze over those rewards. */
    static method Create(gridShape: (int, int), rewards: Matrix) returns (r: Result<Maze>)
      requires rewards.Valid()
      ensures r.Err? <==> gridShape != (rewards.shape.0 as int, rewards.shape.1 as int)
      ensures r.Err? ==> r.error == AttributeError
      ensures r.Ok? ==> fresh(r.value) && fresh(r.value.states) && fresh(r.value.cells)
      ensures r.Ok? ==> r.value.Valid() && r.value.View() == InitialLayout(rewards)
    {
      if gridShape != (rewards.shape.0 as int, rewards.shape.1 as int) {
        return Err(AttributeError);
      }
      var m := new Maze(rewards);
      return Ok(m);
    }

    /** Maze.__getitem__: the State at a coordinate, read the numpy way
        (negative indices count from the end), or IndexError. */
    function Get(coordinate: Position): (r: Result<State>)
      reads this, states, cells
      requires Valid()
      ensures r.Ok? <==> Addressable(shape, coordinate)
      ensures r.Err? ==> r.error == IndexError
      ensures r.Ok? ==> r.value in cells
      ensures InGrid(shape, coordinate) ==> r.Ok? && r.value.position == coordinate
    {
      match GridIndex(shape, coordinate)
      case Some(p) => Ok(states[p.0, p.1])
      case None => Err(IndexError)
    }

    /** A negative coordinate counts from the end: `__getitem__` returns the
        State at the coordinate taken modulo the shape. */
    lemma GetWraps(coordinate: Position)
      requires Valid() && Get(coordinate).Ok?
      ensures Get(coordinate).value.position == (coordinate.0 % shape.0, coordinate.1 % shape.1)
    {
      GridIndexWraps(shape, coordinate);
    }

    /** Maze.set_terminal: marks the addressed State terminal and nothing
        else; IndexError, with nothing changed, when the coordinate is out of
        range. */
    method SetTerminal(coordinate: Position) returns (r: Result<()>)
      requires Valid()
      modifies cells
      ensures Valid()
      ensures r.Ok? <==> Addressable(shape, coordinate)
      ensures r.Err? ==> r.error == IndexError && View() == old(View())
      ensures r.Ok? ==>
        View() == old(View()).MarkTerminal((coordinate.0 % shape.0, coordinate.1 % shape.1))
    {
      match GridIndex(shape, coordinate)
      case None =>
        return Err(IndexError);
      case Some(p) =>
        GridIndexWraps(shape, coordinate);
        var s := states[p.0, p.1];
        s.isTerminal := true;
        assert View().cells == old(View()).MarkTerminal(p).cells;
        return Ok(());
    }

    /** Maze.set_rewards as written: AttributeError on a shape mismatch;
        otherwise its loop body indexes the shape tuple with a pair, which
        raises TypeError on the first cell, so no reward is ever written.
        Only a grid with no cells gets through. */
    method SetRewards(rewards: Matrix) returns (r: Result<()>)
      requires rewards.Valid()
      ensures r.Ok? <==> rewards.shape == shape && (shape.0 == 0 || shape.1 == 0)
      ensures r.Err? ==> r.error == (if rewards.shape != shape then AttributeError else TypeError)
    {
      if shape != rewards.shape {
        return Err(AttributeError);
      }
      for x := 0 to shape.0
        invariant x > 0 ==> shape.1 == 0
      {
        for y := 0 to shape.1 {
          // `self.states.shape[x, y]` subscripts a tuple with a tuple
          return Err(TypeError);
        }
      }
      return Ok(());
    }

    /** Maze.set_rewards as evidently intended: every State takes the reward
        at its coordinate, terminal flags are kept. */
    method SetRewardsIntended(rewards: Matrix) returns (r: Result<()>)
      requires Valid() && rewards.Valid()
      modifies cells
      ensures Valid()
      ensures r.Ok? <==> rewards.shape == shape
      ensures r.Err? ==> r.error == AttributeError && View() == old(View())
      ensures r.Ok? ==> View() == old(View()).WithRewards(rewards)
    {
      if shape != rewards.shape {
        return Err(AttributeError);
      }
      for x := 0 to shape.0
        invariant forall s :: s in cells ==> s.isTerminal == old(s.isTerminal)
        invariant forall s :: s in cells ==>
          s.reward == if s.position.0 < x then rewards.At(s.position) else old(s.reward)
      {
        for y := 0 to shape.1
          invariant forall s :: s in cells ==> s.isTerminal == old(s.isTerminal)
          invariant forall s :: s in cells ==>
            s.reward == if s.position.0 < x || (s.position.0 == x && s.position.1 < y)
                        then rewards.At(s.position) else old(s.reward)
        {
          states[x, y].reward := rewards.rows[x][y];
        }
      }
      assert View().cells == old(View()).WithRewards(rewards).cells;
      return Ok(());
    }
  }
}
