/** OptimalPolicy of optimalPolicy.py: synchronous value iteration over a
    maze, with a greedy policy. Values and actions are keyed by the position
    of the State they belong to (a maze holds exactly one State per position). */
module ValueIteration {
  import opened GridWorld

  /** One end of a FloatRange: a real number or float("inf"). */
  datatype Bound = Finite(value: real) | Infinity

  /** x <= b for an extended bound. */
  predicate AtMost(x: real, b: Bound)
  {
    b.Infinity? || x <= b.value
  }

  /** b >= x for an extended bound (`delta >= threshold`). */
  predicate AtLeast(b: Bound, x: real)
  {
    b.Infinity? || b.value >= x
  }

  /** FloatRange: the closed interval [min, max] a parameter must lie in. */
  datatype FloatRange = FloatRange(min: real, max: Bound)
  {
    /** FloatRange.validate_value: accepts x when min <= x <= max, both ends
        included, and raises ValueError otherwise. */
    function ValidateValue(x: real): (r: Result<()>)
      ensures r.Ok? <==> min <= x && (max.Finite? ==> x <= max.value)
      ensures r.Err? ==> r.error == ValueError
    {
      if !(min <= x && AtMost(x, max)) then Err(ValueError) else Ok(())
    }
  }

  /** The annotation on `threshold`: FloatRange(0.0, float("inf")). */
  const ThresholdRange := FloatRange(0.0, Infinity)

  /** The annotation on `discount`: FloatRange(0.0, 1.0). */
  const DiscountRange := FloatRange(0.0, Finite(1.0))

  /** The `previous_values` / `new_values` dictionaries. */
  type Values = map<Position, real>

  /** The `actions` dictionary; None is Python's None. */
  type Policy = map<Position, Option<Action>>

  /** Values with one entry per cell of the layout. */
  ghost predicate WellFormed(l: Layout, values: Values)
  {
    l.Valid() && values.Keys == l.cells.Keys
  }

  function Max(a: real, b: real): real
  {
    if a >= b then a else b
  }

  // ---------------------------------------------------------------------
  // Scoring one cell

  /** The moves from p for which `maze.step` succeeds, with their
      destinations, in the order of `actions`. */
  function MovesAmong(shape: Shape, p: Position, actions: seq<Action>): (ms: seq<(Action, Position)>)
    ensures forall k :: 0 <= k < |ms| ==> Step(shape, p, ms[k].0) == Ok(ms[k].1) && InGrid(shape, ms[k].1)
  {
    if actions == [] then []
    else
      var rest := MovesAmong(shape, p, actions[..|actions| - 1]);
      var a := actions[|actions| - 1];
      match Step(shape, p, a)
      case Ok(d) => rest + [(a, d)]
      case Err(_) => rest
  }

  /** `possible_actions`: the feasible moves from p, in ActionOrder. */
  function Moves(shape: Shape, p: Position): seq<(Action, Position)>
  {
    MovesAmong(shape, p, ActionOrder)
  }

  /** Taking one more action of ActionOrder appends its move when it is
      feasible. */
  lemma MovesAmongNext(shape: Shape, p: Position, i: nat)
    requires 0 < i <= |ActionOrder|
    ensures var a := ActionOrder[i - 1];
      MovesAmong(shape, p, ActionOrder[..i]) ==
        if Step(shape, p, a).Ok? then MovesAmong(shape, p, ActionOrder[..i - 1]) + [(a, Step(shape, p, a).value)]
        else MovesAmong(shape, p, ActionOrder[..i - 1])
  {
    assert ActionOrder[..i][..i - 1] == ActionOrder[..i - 1];
  }

  /** The moves among the first i actions come from those actions, each
      once, in increasing rank. */
  lemma {:induction false} MovesAmongOrdered(shape: Shape, p: Position, i: nat)
    requires i <= |ActionOrder|
    ensures var ms := MovesAmong(shape, p, ActionOrder[..i]);
      && (forall k :: 0 <= k < |ms| ==> Rank(ms[k].0) < i)
      && (forall k, j :: 0 <= k < j < |ms| ==> Rank(ms[k].0) < Rank(ms[j].0))
  {
    if i > 0 {
      MovesAmongOrdered(shape, p, i - 1);
      MovesAmongNext(shape, p, i);
      assert Rank(ActionOrder[i - 1]) == i - 1;
    }
  }

  /** Every feasible action among the first i has its move listed. */
  lemma {:induction false} MovesAmongComplete(shape: Shape, p: Position, i: nat)
    requires i <= |ActionOrder|
    ensures var ms := MovesAmong(shape, p, ActionOrder[..i]);
      forall a :: Rank(a) < i && Step(shape, p, a).Ok? ==> exists k :: 0 <= k < |ms| && ms[k].0 == a
  {
    if i > 0 {
      MovesAmongComplete(shape, p, i - 1);
      MovesAmongNext(shape, p, i);
      var rest := MovesAmong(shape, p, ActionOrder[..i - 1]);
      var ms := MovesAmong(shape, p, ActionOrder[..i]);
      forall b | Rank(b) < i && Step(shape, p, b).Ok?
        ensures exists k :: 0 <= k < |ms| && ms[k].0 == b
      {
        if Rank(b) == i - 1 {
          assert ms[|ms| - 1].0 == b;
        } else {
          var k :| 0 <= k < |rest| && rest[k].0 == b;
          assert ms[k] == rest[k];
        }
      }
    }
  }

  /** The score of a move onto `dest`: the destination's reward plus the
      discounted previous value of the destination. */
  function Score(l: Layout, prev: Values, discount: real, dest: Position): real
    requires WellFormed(l, prev) && InGrid(l.shape, dest)
  {
    l.cells[dest].reward + discount * prev[dest]
  }

  /** The score of action a from p, for a feasible a. */
  function Q(l: Layout, prev: Values, discount: real, p: Position, a: Action): real
    requires WellFormed(l, prev) && Step(l.shape, p, a).Ok?
  {
    Score(l, prev, discount, Step(l.shape, p, a).value)
  }

  /** `expected_values`: each feasible move paired with its score. */
  function ExpectedValues(l: Layout, prev: Values, discount: real, ms: seq<(Action, Position)>)
    : seq<(Action, real)>
    requires WellFormed(l, prev)
    requires forall k :: 0 <= k < |ms| ==> InGrid(l.shape, ms[k].1)
  {
    seq(|ms|, k requires 0 <= k < |ms| => (ms[k].0, Score(l, prev, discount, ms[k].1)))
  }

  /** The scores of a list of (action, score) pairs. */
  function Scores(evs: seq<(Action, real)>): seq<real>
  {
    seq(|evs|, k requires 0 <= k < |evs| => evs[k].1)
  }

  /** Python's `max` over a non-empty list: it walks the list left to right
      and keeps a later element only when it is strictly larger. */
  function MaxOf(xs: seq<real>): (m: real)
    requires xs != []
    ensures forall k :: 0 <= k < |xs| ==> xs[k] <= m
    ensures exists k :: 0 <= k < |xs| && xs[k] == m
  {
    if |xs| == 1 then xs[0]
    else
      var m := MaxOf(xs[..|xs| - 1]);
      assert forall k :: 0 <= k < |xs| - 1 ==> xs[..|xs| - 1][k] == xs[k];
      if xs[|xs| - 1] > m then xs[|xs| - 1] else m
  }

  /** The index of the first pair whose score is m. */
  function FirstMatch(evs: seq<(Action, real)>, m: real): (k: nat)
    requires exists j :: 0 <= j < |evs| && evs[j].1 == m
    ensures k < |evs| && evs[k].1 == m
    ensures forall j :: 0 <= j < k ==> evs[j].1 != m
  {
    if evs[0].1 == m then 0
    else
      assert exists j :: 0 <= j < |evs[1..]| && evs[1..][j].1 == m by {
        var j :| 0 <= j < |evs| && evs[j].1 == m;
        assert evs[1..][j - 1].1 == m;
      }
      1 + FirstMatch(evs[1..], m)
  }

  /** `max(expected_values)` and the first action reaching it, in list
      order; ValueError where `max([])` raises on an empty list. */
  function Best(evs: seq<(Action, real)>): Result<(real, Action)>
  {
    if evs == [] then Err(ValueError)
    else
      var m := MaxOf(Scores(evs));
      assert exists j :: 0 <= j < |evs| && evs[j].1 == m by {
        var j :| 0 <= j < |Scores(evs)| && Scores(evs)[j] == m;
        assert evs[j].1 == m;
      }
      Ok((m, evs[FirstMatch(evs, m)].0))
  }

  /** The Bellman backup of one non-terminal cell: Best over the scores of
      its feasible moves. */
  function Backup(l: Layout, prev: Values, discount: real, p: Position): Result<(real, Action)>
    requires WellFormed(l, prev)
  {
    Best(ExpectedValues(l, prev, discount, Moves(l.shape, p)))
  }

  /** Best, with its intermediate results named. */
  lemma BestOf(evs: seq<(Action, real)>)
    ensures evs == [] ==> Best(evs) == Err(ValueError)
    ensures evs != [] ==> exists j :: 0 <= j < |evs| && evs[j].1 == MaxOf(Scores(evs))
    ensures evs != [] ==> Best(evs) == Ok((MaxOf(Scores(evs)), evs[FirstMatch(evs, MaxOf(Scores(evs)))].0))
  {
    if evs != [] {
      var m := MaxOf(Scores(evs));
      var j :| 0 <= j < |Scores(evs)| && Scores(evs)[j] == m;
      assert evs[j].1 == m;
      var i := FirstMatch(evs, m);
      assert Best(evs) == Ok((m, evs[i].0));
    }
  }

  /** Moves lists every feasible action, each once, in increasing rank. */
  lemma MovesComplete(shape: Shape, p: Position)
    ensures var ms := Moves(shape, p);
      && (forall k, j :: 0 <= k < |ms| && 0 <= j < |ms| ==> (Rank(ms[k].0) < Rank(ms[j].0) <==> k < j))
      && (forall a :: Step(shape, p, a).Ok? ==> exists k :: 0 <= k < |ms| && ms[k].0 == a)
  {
    MovesAmongOrdered(shape, p, |ActionOrder|);
    MovesAmongComplete(shape, p, |ActionOrder|);
    assert ActionOrder[..|ActionOrder|] == ActionOrder;
  }

  /** The backup is greedy with respect to the previous values: it fails
      exactly when no move is feasible; otherwise its action is feasible,
      its value is that action's score and no feasible action scores more,
      and every feasible action earlier in UP, DOWN, LEFT, RIGHT scores
      strictly less (the tie-break). */
  lemma BackupIsGreedy(l: Layout, prev: Values, discount: real, p: Position)
    requires WellFormed(l, prev)
    ensures Backup(l, prev, discount, p).Err? <==> forall a :: Step(l.shape, p, a).Err?
    ensures Backup(l, prev, discount, p).Err? ==> Backup(l, prev, discount, p).error == ValueError
    ensures Backup(l, prev, discount, p).Ok? ==> Greedy(l, prev, discount, p, Backup(l, prev, discount, p).value)
  {
    var ms := Moves(l.shape, p);
    MovesComplete(l.shape, p);
    var evs := ExpectedValues(l, prev, discount, ms);
    if evs == [] {
      assert |ms| == 0;
    } else {
      BackupOkIsGreedy(l, prev, discount, p);
    }
  }

  /** (v, a) is a greedy choice at p: a is feasible and scores v, no feasible
      action scores more, and every feasible action before a in ActionOrder
      scores less. */
  ghost predicate Greedy(l: Layout, prev: Values, discount: real, p: Position, choice: (real, Action))
    requires WellFormed(l, prev)
  {
    && Step(l.shape, p, choice.1).Ok?
    && Q(l, prev, discount, p, choice.1) == choice.0
    && (forall b :: Step(l.shape, p, b).Ok? ==> Q(l, prev, discount, p, b) <= choice.0)
    && (forall b :: Step(l.shape, p, b).Ok? && Rank(b) < Rank(choice.1) ==> Q(l, prev, discount, p, b) < choice.0)
  }

  lemma BackupOkIsGreedy(l: Layout, prev: Values, discount: real, p: Position)
    requires WellFormed(l, prev)
    requires Moves(l.shape, p) != []
    ensures Backup(l, prev, discount, p).Ok? && Greedy(l, prev, discount, p, Backup(l, prev, discount, p).value)
  {
    var ms := Moves(l.shape, p);
    MovesComplete(l.shape, p);
    var evs := ExpectedValues(l, prev, discount, ms);
    ExpectedValuesScoreMoves(l, prev, discount, p);
    var i := BestIndex(evs);
    var a := ms[i].0;
    forall b | Step(l.shape, p, b).Ok?
      ensures Q(l, prev, discount, p, b) <= evs[i].1
      ensures Rank(b) < Rank(a) ==> Q(l, prev, discount, p, b) < evs[i].1
    {
      var k :| 0 <= k < |ms| && ms[k].0 == b;
      assert Rank(ms[k].0) < Rank(ms[i].0) <==> k < i;
    }
  }

  /** The expected values of the moves from p pair each feasible action, in
      order, with its score. */
  lemma ExpectedValuesScoreMoves(l: Layout, prev: Values, discount: real, p: Position)
    requires WellFormed(l, prev)
    ensures var ms := Moves(l.shape, p); var evs := ExpectedValues(l, prev, discount, ms);
      forall k :: 0 <= k < |evs| ==> evs[k] == (ms[k].0, Q(l, prev, discount, p, ms[k].0))
  {
  }

  /** The pair Best picks: the first one with the largest score. */
  function BestIndex(evs: seq<(Action, real)>): (i: nat)
    requires evs != []
    ensures i < |evs| && Best(evs) == Ok((evs[i].1, evs[i].0))
    ensures forall k :: 0 <= k < |evs| ==> evs[k].1 <= evs[i].1
    ensures forall k :: 0 <= k < i ==> evs[k].1 < evs[i].1
  {
    BestOf(evs);
    assert forall k :: 0 <= k < |evs| ==> Scores(evs)[k] == evs[k].1;
    FirstMatch(evs, MaxOf(Scores(evs)))
  }

  // ---------------------------------------------------------------------
  // One sweep

  /** The state of a sweep: `new_values`, `actions` and `delta`. */
  datatype Sweep = Sweep(values: Values, actions: Policy, delta: real)

  /** The backup the sweep computes for each cell. */
  type Backups = Position -> Result<(real, Action)>

  /** The backups of one sweep: each is computed from `prev`, which the sweep
      reads but never writes (it writes `new_values`). */
  function BackupsFrom(l: Layout, prev: Values, discount: real): Backups
    requires WellFormed(l, prev)
  {
    p => Backup(l, prev, discount, p)
  }

  /** The sweep's treatment of the State at p: a terminal cell gets value 0
      and keeps its action; any other cell gets its backup, records its action
      and raises delta to at least old - new. */
  function Visit(l: Layout, prev: Values, backup: Backups, acc: Sweep, p: Position): Result<Sweep>
    requires WellFormed(l, prev) && InGrid(l.shape, p)
  {
    if l.cells[p].isTerminal then Ok(acc.(values := acc.values[p := 0.0]))
    else
      match backup(p)
      case Err(e) => Err(e)
      case Ok(b) => Ok(Sweep(acc.values[p := b.0], acc.actions[p := Some(b.1)], Max(acc.delta, prev[p] - b.0)))
  }

  /** Whether the sweep has reached p after handling every cell before
      (x, y) in numpy's row-major (C) order. */
  predicate Visited(shape: Shape, x: nat, y: nat, p: Position)
  {
    InGrid(shape, p) && (p.0 < x || (p.0 == x && p.1 < y))
  }

  /** The sweep after the cells before (x, y) in `states.flatten()` order,
      starting from a copy of the previous values, the current actions and
      delta 0. */
  function SweepCells(l: Layout, prev: Values, backup: Backups, actions: Policy, x: nat, y: nat)
    : Result<Sweep>
    requires WellFormed(l, prev)
    requires x <= l.shape.0 && y <= l.shape.1 && (x == l.shape.0 ==> y == 0)
    decreases x, y
  {
    if y > 0 then
      match SweepCells(l, prev, backup, actions, x, y - 1)
      case Err(e) => Err(e)
      case Ok(acc) => Visit(l, prev, backup, acc, (x, y - 1))
    else if x > 0 then SweepCells(l, prev, backup, actions, x - 1, l.shape.1)
    else Ok(Sweep(prev, actions, 0.0))
  }

  /** One full sweep. */
  function RunSweep(l: Layout, prev: Values, discount: real, actions: Policy): Result<Sweep>
    requires WellFormed(l, prev)
  {
    SweepCells(l, prev, BackupsFrom(l, prev, discount), actions, l.shape.0, 0)
  }

  /** Every non-terminal cell the sweep has reached has a backup. */
  ghost predicate Reached(l: Layout, backup: Backups, x: nat, y: nat)
    requires l.Valid()
  {
    forall p :: Visited(l.shape, x, y, p) && !l.cells[p].isTerminal ==> backup(p).Ok?
  }

  /** `new_values` after the cells before (x, y): 0 or the backup where the
      sweep has been, the copied previous value elsewhere. */
  ghost predicate SweptValues(l: Layout, prev: Values, backup: Backups, x: nat, y: nat, values: Values)
    requires WellFormed(l, prev) && Reached(l, backup, x, y)
  {
    && values.Keys == prev.Keys
    && forall p :: p in prev ==>
         values[p] == if !Visited(l.shape, x, y, p) then prev[p]
                      else if l.cells[p].isTerminal then 0.0
                      else backup(p).value.0
  }

  /** The actions after the cells before (x, y): the greedy action of every
      non-terminal cell the sweep has been to, the old action elsewhere. */
  ghost predicate SweptActions(l: Layout, backup: Backups, actions: Policy, x: nat, y: nat, now: Policy)
    requires l.Valid() && Reached(l, backup, x, y)
  {
    && now.Keys == actions.Keys
    && forall p :: p in now ==>
         now[p] == if Visited(l.shape, x, y, p) && !l.cells[p].isTerminal
                   then Some(backup(p).value.1) else actions[p]
  }

  /** delta after the cells before (x, y): the largest old - new over the
      non-terminal cells the sweep has been to, or 0. */
  ghost predicate SweptDelta(l: Layout, prev: Values, backup: Backups, x: nat, y: nat, delta: real)
    requires WellFormed(l, prev) && Reached(l, backup, x, y)
  {
    && 0.0 <= delta
    && (forall p :: Visited(l.shape, x, y, p) && !l.cells[p].isTerminal ==>
          prev[p] - backup(p).value.0 <= delta)
    && (delta == 0.0 ||
          exists p :: Visited(l.shape, x, y, p) && !l.cells[p].isTerminal &&
                      delta == prev[p] - backup(p).value.0)
  }

  /** What a sweep that has handled the cells before (x, y) has done, stated
      cell by cell against `prev` and the actions it started from. */
  ghost predicate Swept(l: Layout, prev: Values, backup: Backups, actions: Policy, x: nat, y: nat, acc: Sweep)
    requires WellFormed(l, prev)
  {
    && Reached(l, backup, x, y)
    && SweptValues(l, prev, backup, x, y, acc.values)
    && SweptActions(l, backup, actions, x, y, acc.actions)
    && SweptDelta(l, prev, backup, x, y, acc.delta)
  }

  /** The cells before (x, y + 1) are those before (x, y) and (x, y). */
  lemma VisitedNext(shape: Shape, x: nat, y: nat)
    requires x < shape.0 && y < shape.1
    ensures forall p :: Visited(shape, x, y + 1, p) <==> Visited(shape, x, y, p) || p == (x, y)
  {
  }

  /** Handling one more cell extends what Swept says by that cell, or fails
      with that cell's backup error. */
  lemma VisitExtends(l: Layout, prev: Values, backup: Backups, actions: Policy, x: nat, y: nat, acc: Sweep)
    requires WellFormed(l, prev) && actions.Keys == prev.Keys
    requires x < l.shape.0 && y < l.shape.1
    requires Swept(l, prev, backup, actions, x, y, acc)
    ensures Visit(l, prev, backup, acc, (x, y)).Err? <==> !l.cells[(x, y)].isTerminal && backup((x, y)).Err?
    ensures Visit(l, prev, backup, acc, (x, y)).Err? ==> Visit(l, prev, backup, acc, (x, y)).error == backup((x, y)).error
    ensures Visit(l, prev, backup, acc, (x, y)).Ok? ==>
      Swept(l, prev, backup, actions, x, y + 1, Visit(l, prev, backup, acc, (x, y)).value)
  {
    var r := Visit(l, prev, backup, acc, (x, y));
    if r.Ok? {
      VisitedNext(l.shape, x, y);
      assert Reached(l, backup, x, y + 1);
      VisitValues(l, prev, backup, x, y, acc);
      VisitActions(l, prev, backup, actions, x, y, acc);
      VisitDelta(l, prev, backup, x, y, acc);
    }
  }

  /** The values part of VisitExtends. */
  lemma VisitValues(l: Layout, prev: Values, backup: Backups, x: nat, y: nat, acc: Sweep)
    requires WellFormed(l, prev) && x < l.shape.0 && y < l.shape.1
    requires Reached(l, backup, x, y) && Reached(l, backup, x, y + 1)
    requires SweptValues(l, prev, backup, x, y, acc.values)
    requires Visit(l, prev, backup, acc, (x, y)).Ok?
    ensures SweptValues(l, prev, backup, x, y + 1, Visit(l, prev, backup, acc, (x, y)).value.values)
  {
    VisitedNext(l.shape, x, y);
  }

  /** The actions part of VisitExtends. */
  lemma VisitActions(l: Layout, prev: Values, backup: Backups, actions: Policy, x: nat, y: nat, acc: Sweep)
    requires WellFormed(l, prev) && actions.Keys == prev.Keys && x < l.shape.0 && y < l.shape.1
    requires Reached(l, backup, x, y) && Reached(l, backup, x, y + 1)
    requires SweptActions(l, backup, actions, x, y, acc.actions)
    requires Visit(l, prev, backup, acc, (x, y)).Ok?
    ensures SweptActions(l, backup, actions, x, y + 1, Visit(l, prev, backup, acc, (x, y)).value.actions)
  {
    VisitedNext(l.shape, x, y);
  }

  /** The delta part of VisitExtends. */
  lemma VisitDelta(l: Layout, prev: Values, backup: Backups, x: nat, y: nat, acc: Sweep)
    requires WellFormed(l, prev) && x < l.shape.0 && y < l.shape.1
    requires Reached(l, backup, x, y) && Reached(l, backup, x, y + 1)
    requires SweptDelta(l, prev, backup, x, y, acc.delta)
    requires Visit(l, prev, backup, acc, (x, y)).Ok?
    ensures SweptDelta(l, prev, backup, x, y + 1, Visit(l, prev, backup, acc, (x, y)).value.delta)
  {
    VisitedNext(l.shape, x, y);
    var q := (x, y);
    var d := Visit(l, prev, backup, acc, q).value.delta;
    if d != acc.delta {
      assert Visited(l.shape, x, y + 1, q);
    } else if acc.delta != 0.0 {
      var w :| Visited(l.shape, x, y, w) && !l.cells[w].isTerminal && acc.delta == prev[w] - backup(w).value.0;
      assert Visited(l.shape, x, y + 1, w);
    }
  }

  /** Up to the first failure, the sweep is what Swept describes; it fails
      exactly when a non-terminal cell it reaches has no backup, and then
      with that backup's error. */
  lemma {:induction false} SweepCellsCorrect(l: Layout, prev: Values, backup: Backups, actions: Policy, x: nat, y: nat)
    requires WellFormed(l, prev) && actions.Keys == prev.Keys
    requires x <= l.shape.0 && y <= l.shape.1 && (x == l.shape.0 ==> y == 0)
    ensures SweepCells(l, prev, backup, actions, x, y).Ok? <==> Reached(l, backup, x, y)
    ensures SweepCells(l, prev, backup, actions, x, y).Err? ==>
      exists p :: Visited(l.shape, x, y, p) && !l.cells[p].isTerminal && backup(p).Err? &&
                  backup(p).error == SweepCells(l, prev, backup, actions, x, y).error
    ensures SweepCells(l, prev, backup, actions, x, y).Ok? ==>
      Swept(l, prev, backup, actions, x, y, SweepCells(l, prev, backup, actions, x, y).value)
    decreases x, y
  {
    if y > 0 {
      SweepCellsCorrect(l, prev, backup, actions, x, y - 1);
      VisitedNext(l.shape, x, y - 1);
      var before := SweepCells(l, prev, backup, actions, x, y - 1);
      if before.Ok? {
        VisitExtends(l, prev, backup, actions, x, y - 1, before.value);
      }
    } else if x > 0 {
      SweepCellsCorrect(l, prev, backup, actions, x - 1, l.shape.1);
      assert forall p :: Visited(l.shape, x, 0, p) <==> Visited(l.shape, x - 1, l.shape.1, p);
    } else {
      assert forall p :: !Visited(l.shape, 0, 0, p);
    }
  }

  /** One full sweep is a synchronous (Jacobi) update: it fails with
      ValueError exactly when some non-terminal cell has no feasible move;
      otherwise every cell's new value is computed from `prev` alone, in
      whatever order the cells are taken, terminal cells get 0 and keep their
      action, every other cell gets its backup and records its greedy action,
      and delta is the largest old - new over non-terminal cells, or 0. */
  lemma RunSweepIsSynchronous(l: Layout, prev: Values, discount: real, actions: Policy)
    requires WellFormed(l, prev) && actions.Keys == prev.Keys
    ensures RunSweep(l, prev, discount, actions).Err? <==>
      exists p :: p in prev && !l.cells[p].isTerminal && Backup(l, prev, discount, p).Err?
    ensures RunSweep(l, prev, discount, actions).Err? ==>
      RunSweep(l, prev, discount, actions).error == ValueError
    ensures RunSweep(l, prev, discount, actions).Ok? ==>
      var s := RunSweep(l, prev, discount, actions).value;
      && s.values.Keys == prev.Keys && s.actions.Keys == actions.Keys
      && (forall p :: p in prev && l.cells[p].isTerminal ==> s.values[p] == 0.0 && s.actions[p] == actions[p])
      && (forall p :: p in prev && !l.cells[p].isTerminal ==>
            && Backup(l, prev, discount, p).Ok?
            && s.values[p] == Backup(l, prev, discount, p).value.0
            && s.actions[p] == Some(Backup(l, prev, discount, p).value.1))
      && 0.0 <= s.delta
      && (forall p :: p in prev && !l.cells[p].isTerminal ==> prev[p] - s.values[p] <= s.delta)
      && (s.delta == 0.0 || exists p :: p in prev && !l.cells[p].isTerminal && s.delta == prev[p] - s.values[p])
  {
    var backup := BackupsFrom(l, prev, discount);
    SweepCellsCorrect(l, prev, backup, actions, l.shape.0, 0);
    assert forall p :: Visited(l.shape, l.shape.0, 0, p) <==> p in prev;
    var r := RunSweep(l, prev, discount, actions);
    if r.Err? {
      var p :| Visited(l.shape, l.shape.0, 0, p) && !l.cells[p].isTerminal && backup(p).Err? && backup(p).error == r.error;
      BackupIsGreedy(l, prev, discount, p);
    }
  }

  /** A sweep raises ValueError exactly on a 1x1 maze whose one cell is not
      terminal: any larger grid gives every cell a feasible move. */
  lemma SweepFailsOnlyOnSingleCell(l: Layout, prev: Values, discount: real, actions: Policy)
    requires WellFormed(l, prev) && actions.Keys == prev.Keys
    ensures RunSweep(l, prev, discount, actions).Err? <==>
      l.shape == (1, 1) && !l.cells[(0, 0)].isTerminal
  {
    RunSweepIsSynchronous(l, prev, discount, actions);
    if l.shape == (1, 1) && !l.cells[(0, 0)].isTerminal {
      NoMoveOnlyInSingleCell(l.shape, (0, 0));
      BackupIsGreedy(l, prev, discount, (0, 0));
      assert (0, 0) in prev;
    }
    if RunSweep(l, prev, discount, actions).Err? {
      var p :| p in prev && !l.cells[p].isTerminal && Backup(l, prev, discount, p).Err?;
      BackupIsGreedy(l, prev, discount, p);
      NoMoveOnlyInSingleCell(l.shape, p);
    }
  }

  // ---------------------------------------------------------------------
  // The outer loop

  /** What `_determine_optimal_policy` ends with: the loop exits with the
      actions (and the values and the delta of its last sweep), an exception
      is raised, or the sweeps this model allows (its fuel) run out first. */
  datatype Outcome =
    | Converged(actions: Policy, values: Values, iteration: nat, delta: real)
    | Raised(error: Error)
    | OutOfFuel(actions: Policy, values: Values, iteration: nat)

  /** `while delta >= threshold`, from the given loop state, with at most
      `fuel` sweeps in all. */
  function Iterate(l: Layout, threshold: real, discount: real, prev: Values, actions: Policy,
                   delta: Bound, iteration: nat, fuel: nat): Outcome
    requires WellFormed(l, prev) && actions.Keys == prev.Keys
    decreases fuel - iteration
  {
    if !AtLeast(delta, threshold) then Converged(actions, prev, iteration, delta.value)
    else if iteration >= fuel then OutOfFuel(actions, prev, iteration)
    else
      RunSweepIsSynchronous(l, prev, discount, actions);
      match RunSweep(l, prev, discount, actions)
      case Err(e) => Raised(e)
      case Ok(s) => Iterate(l, threshold, discount, s.values, s.actions, Finite(s.delta), iteration + 1, fuel)
  }

  /** `{state: 0 for state in ...}`. */
  function ZeroValues(shape: Shape): Values
  {
    map p | p in Positions(shape) :: 0.0
  }

  /** `{state: None for state in ...}`. */
  function NoActions(shape: Shape): Policy
  {
    map p | p in Positions(shape) :: None
  }

  /** `_determine_optimal_policy(threshold, discount)` on a maze with the
      given layout: the parameter checks, then the loop from values 0, no
      actions and delta = infinity, allowing at most `fuel` sweeps. */
  function Optimize(l: Layout, threshold: real, discount: real, fuel: nat): Outcome
    requires l.Valid()
  {
    if ThresholdRange.ValidateValue(threshold).Err? then Raised(ValueError)
    else if DiscountRange.ValidateValue(discount).Err? then Raised(ValueError)
    else Iterate(l, threshold, discount, ZeroValues(l.shape), NoActions(l.shape), Infinity, 0, fuel)
  }

  /** What holds of the loop's values and actions between sweeps: one entry
      per cell, terminal cells at value 0 with no action, and after the first
      sweep every other cell holding an action that stays on the grid. */
  ghost predicate Consistent(l: Layout, values: Values, actions: Policy, iteration: nat)
  {
    && WellFormed(l, values) && actions.Keys == values.Keys
    && (forall p :: p in values && l.cells[p].isTerminal ==> values[p] == 0.0 && actions[p] == None)
    && (iteration > 0 ==> forall p :: p in values && !l.cells[p].isTerminal ==>
          actions[p].Some? && Step(l.shape, p, actions[p].value).Ok?)
  }

  /** Every sweep keeps the loop state Consistent. */
  lemma SweepKeepsConsistent(l: Layout, prev: Values, discount: real, actions: Policy, iteration: nat)
    requires Consistent(l, prev, actions, iteration)
    requires RunSweep(l, prev, discount, actions).Ok?
    ensures var s := RunSweep(l, prev, discount, actions).value;
      Consistent(l, s.values, s.actions, iteration + 1) && 0.0 <= s.delta
  {
    RunSweepIsSynchronous(l, prev, discount, actions);
    var s := RunSweep(l, prev, discount, actions).value;
    forall p | p in prev && !l.cells[p].isTerminal
      ensures s.actions[p].Some? && Step(l.shape, p, s.actions[p].value).Ok?
    {
      BackupIsGreedy(l, prev, discount, p);
    }
  }

  /** The loop, from a Consistent state, ends Consistent: it exits only after
      a sweep whose delta is in [0, threshold), never before the first sweep
      when delta starts at infinity, and runs out of fuel only after `fuel`
      sweeps. */
  lemma {:induction false} IterateOutcome(l: Layout, threshold: real, discount: real, prev: Values,
                                         actions: Policy, delta: Bound, iteration: nat, fuel: nat)
    requires Consistent(l, prev, actions, iteration) && iteration <= fuel
    requires delta.Finite? ==> 0.0 <= delta.value
    decreases fuel - iteration
    ensures var r := Iterate(l, threshold, discount, prev, actions, delta, iteration, fuel);
      && (r.Converged? ==> Consistent(l, r.values, r.actions, r.iteration) && 0.0 <= r.delta < threshold
                           && r.iteration >= iteration && (delta.Infinity? ==> r.iteration > iteration))
      && (r.OutOfFuel? ==> Consistent(l, r.values, r.actions, r.iteration) && r.iteration == fuel)
      && (r.Raised? ==> r.error == ValueError)
  {
    if AtLeast(delta, threshold) && iteration < fuel {
      RunSweepIsSynchronous(l, prev, discount, actions);
      var s := RunSweep(l, prev, discount, actions);
      if s.Ok? {
        SweepKeepsConsistent(l, prev, discount, actions, iteration);
        IterateOutcome(l, threshold, discount, s.value.values, s.value.actions, Finite(s.value.delta), iteration + 1, fuel);
      }
    }
  }

  /** The whole run: invalid parameters raise ValueError before any sweep;
      otherwise the loop exits only after at least one sweep whose delta is
      below the threshold, with terminal cells at value 0 and no action and
      every other cell holding an action that stays on the grid. */
  lemma OptimizeOutcome(l: Layout, threshold: real, discount: real, fuel: nat)
    requires l.Valid()
    ensures !(0.0 <= threshold && 0.0 <= discount <= 1.0) ==> Optimize(l, threshold, discount, fuel) == Raised(ValueError)
    ensures var r := Optimize(l, threshold, discount, fuel);
      && (r.Converged? ==> Consistent(l, r.values, r.actions, r.iteration) && r.iteration >= 1 && 0.0 <= r.delta < threshold)
      && (r.OutOfFuel? ==> Consistent(l, r.values, r.actions, r.iteration) && r.iteration == fuel)
      && (r.Raised? ==> r.error == ValueError)
  {
    if 0.0 <= threshold && 0.0 <= discount <= 1.0 {
      IterateOutcome(l, threshold, discount, ZeroValues(l.shape), NoActions(l.shape), Infinity, 0, fuel);
    }
  }

  /** `threshold = 0` passes validation, yet the loop never exits: every
      sweep's delta is at least 0, so `delta >= threshold` always holds. */
  lemma ZeroThresholdNeverConverges(l: Layout, discount: real, fuel: nat)
    requires l.Valid()
    ensures ThresholdRange.ValidateValue(0.0).Ok?
    ensures !Optimize(l, 0.0, discount, fuel).Converged?
  {
    OptimizeOutcome(l, 0.0, discount, fuel);
  }

  // ---------------------------------------------------------------------
  // The engine as the source runs it

  /** OptimalPolicy._determine_optimal_policy: checks the parameters, then
      sweeps the maze until a sweep's delta falls below the threshold, at
      most `fuel` times. Each sweep copies the previous values, handles the
      States in `states.flatten()` order, and replaces the previous values
      only when it is complete. The maze is only read. */
  method DetermineOptimalPolicy(maze: Maze, threshold: real, discount: real, fuel: nat)
    returns (r: Outcome)
    requires maze.Valid()
    ensures r == Optimize(maze.View(), threshold, discount, fuel)
  {
    var check := ThresholdRange.ValidateValue(threshold);
    if check.Err? {
      return Raised(check.error);
    }
    check := DiscountRange.ValidateValue(discount);
    if check.Err? {
      return Raised(check.error);
    }
    ghost var l := maze.View();
    var actions := NoActions(maze.shape);
    var previous := ZeroValues(maze.shape);
    var delta := Infinity;
    var iteration: nat := 0;
    while AtLeast(delta, threshold)
      invariant iteration <= fuel
      invariant WellFormed(l, previous) && actions.Keys == previous.Keys
      invariant Iterate(l, threshold, discount, previous, actions, delta, iteration, fuel)
             == Optimize(l, threshold, discount, fuel)
      decreases fuel - iteration
    {
      if iteration == fuel {
        return OutOfFuel(actions, previous, iteration);
      }
      var sweep := SweepOnce(maze, l, previous, actions, discount);
      if sweep.Err? {
        return Raised(sweep.error);
      }
      SweepKeepsKeys(l, previous, discount, actions);
      iteration := iteration + 1;
      previous, actions, delta := sweep.value.values, sweep.value.actions, Finite(sweep.value.delta);
    }
    return Converged(actions, previous, iteration, delta.value);
  }

  /** One pass of the loop body over `states.flatten()`: terminal cells get
      value 0, every other cell its backup and greedy action, and delta the
      largest old - new; a cell with no feasible move raises ValueError. */
  method SweepOnce(maze: Maze, ghost l: Layout, previous: Values, actions: Policy, discount: real)
    returns (r: Result<Sweep>)
    requires maze.Valid() && maze.Shows(l) && WellFormed(l, previous) && actions.Keys == previous.Keys
    ensures r == RunSweep(l, previous, discount, actions)
  {
    ghost var backup := BackupsFrom(l, previous, discount);
    var acc := Sweep(previous, actions, 0.0);
    for x := 0 to maze.shape.0
      invariant SweepCells(l, previous, backup, actions, x, 0) == Ok(acc)
    {
      for y := 0 to maze.shape.1
        invariant SweepCells(l, previous, backup, actions, x, y) == Ok(acc)
      {
        var next := VisitState(maze, l, previous, discount, acc, x, y);
        if next.Err? {
          FailureStops(l, previous, discount, actions, x, y);
          return next;
        }
        acc := next.value;
      }
    }
    return Ok(acc);
  }

  /** The loop body for the State at (x, y): `continue` with value 0 if it
      is terminal, otherwise its backup, its greedy action and the new
      delta. */
  method VisitState(maze: Maze, ghost l: Layout, previous: Values, discount: real, acc: Sweep, x: nat, y: nat)
    returns (r: Result<Sweep>)
    requires maze.Valid() && maze.Shows(l) && WellFormed(l, previous)
    requires x < maze.shape.0 && y < maze.shape.1
    ensures r == Visit(l, previous, BackupsFrom(l, previous, discount), acc, (x, y))
    ensures r.Err? ==> r.error == ValueError
  {
    var state := maze.states[x, y];
    assert state in maze.cells && state.position == (x, y);
    assert l.cells[(x, y)].isTerminal == state.isTerminal;
    if state.isTerminal {
      return Ok(acc.(values := acc.values[state.position := 0.0]));
    }
    var result := BackupState(maze, l, state, previous, discount);
    BackupIsGreedy(l, previous, discount, (x, y));
    r := RecordBackup(l, previous, BackupsFrom(l, previous, discount), acc, (x, y), result);
  }

  /** The rest of the loop body for a non-terminal cell: raise the error of
      `max([])`, or save the first best action, the maximal value and the
      new delta. */
  method RecordBackup(ghost l: Layout, previous: Values, ghost backup: Backups, acc: Sweep, p: Position,
                      result: Result<(real, Action)>)
    returns (r: Result<Sweep>)
    requires WellFormed(l, previous) && InGrid(l.shape, p) && !l.cells[p].isTerminal && backup(p) == result
    ensures r == Visit(l, previous, backup, acc, p)
  {
    if result.Err? {
      return Err(result.error);
    }
    var (maxValue, best) := result.value;
    var newActions := acc.actions[p := Some(best)];
    var newValues := acc.values[p := maxValue];
    return Ok(Sweep(newValues, newActions, Max(acc.delta, previous[p] - newValues[p])));
  }

  /** A sweep keeps one value and one action entry per cell. */
  lemma SweepKeepsKeys(l: Layout, prev: Values, discount: real, actions: Policy)
    requires WellFormed(l, prev) && actions.Keys == prev.Keys && RunSweep(l, prev, discount, actions).Ok?
    ensures WellFormed(l, RunSweep(l, prev, discount, actions).value.values)
    ensures RunSweep(l, prev, discount, actions).value.actions.Keys == actions.Keys
  {
    RunSweepIsSynchronous(l, prev, discount, actions);
  }

  /** A non-terminal cell with no backup makes the whole sweep raise
      ValueError. */
  lemma FailureStops(l: Layout, prev: Values, discount: real, actions: Policy, x: nat, y: nat)
    requires WellFormed(l, prev) && actions.Keys == prev.Keys
    requires x < l.shape.0 && y < l.shape.1
    requires !l.cells[(x, y)].isTerminal && Backup(l, prev, discount, (x, y)).Err?
    ensures RunSweep(l, prev, discount, actions) == Err(ValueError)
  {
    RunSweepIsSynchronous(l, prev, discount, actions);
    assert (x, y) in prev;
  }

  /** `possible` holds the destination States of the moves `ms`, in order. */
  ghost predicate Matches(maze: Maze, possible: seq<(Action, State)>, ms: seq<(Action, Position)>)
  {
    && |possible| == |ms|
    && forall k :: 0 <= k < |ms| ==>
         possible[k].0 == ms[k].0 && possible[k].1 in maze.cells && possible[k].1.position == ms[k].1
  }

  /** Matches survives appending a matching pair on both sides. */
  lemma MatchesExtend(maze: Maze, possible: seq<(Action, State)>, ms: seq<(Action, Position)>,
                      a: Action, target: State, destination: Position)
    requires Matches(maze, possible, ms) && target in maze.cells && target.position == destination
    ensures Matches(maze, possible + [(a, target)], ms + [(a, destination)])
  {
  }

  /** `possible_actions`: every action, in ActionOrder, for which
      `maze.step` succeeds, with the State it leads to. */
  method PossibleActions(maze: Maze, state: State) returns (possible: seq<(Action, State)>)
    requires maze.Valid()
    ensures Matches(maze, possible, Moves(maze.shape, state.position))
  {
    possible := [];
    for i := 0 to |ActionOrder|
      invariant Matches(maze, possible, MovesAmong(maze.shape, state.position, ActionOrder[..i]))
    {
      var action := ActionOrder[i];
      MovesAmongNext(maze.shape, state.position, i + 1);
      match Step(maze.shape, state.position, action)
      case Ok(destination) =>
        // a coordinate `step` accepts is always in range for `maze[...]`
        var target := maze.Get(destination).value;
        MatchesExtend(maze, possible, MovesAmong(maze.shape, state.position, ActionOrder[..i]), action, target, destination);
        possible := possible + [(action, target)];
      case Err(_) =>
    }
    assert ActionOrder[..|ActionOrder|] == ActionOrder;
  }

  /** The body of the sweep for one non-terminal State: collect the moves
      `maze.step` accepts, score each, take the maximum and the first action
      reaching it; ValueError where `max([])` raises. */
  method BackupState(maze: Maze, ghost l: Layout, state: State, previous: Values, discount: real)
    returns (r: Result<(real, Action)>)
    requires maze.Valid() && maze.Shows(l) && WellFormed(l, previous)
    ensures r == Backup(l, previous, discount, state.position)
  {
    ghost var ms := Moves(maze.shape, state.position);
    var possible := PossibleActions(maze, state);
    // expected_values
    var expected: seq<(Action, real)> := [];
    for k := 0 to |possible|
      invariant |expected| == k
      invariant forall j :: 0 <= j < k ==> expected[j] == (ms[j].0, Score(l, previous, discount, ms[j].1))
    {
      var (action, destination) := possible[k];
      assert destination in maze.cells && destination.position == ms[k].1;
      assert l.cells[destination.position].reward == destination.reward;
      assert action == ms[k].0;
      assert destination.reward + discount * previous[destination.position] == Score(l, previous, discount, ms[k].1);
      expected := expected + [(action, destination.reward + discount * previous[destination.position])];
    }
    assert expected == ExpectedValues(l, previous, discount, ms);
    r := ChooseBest(expected);
  }

  /** `max(expected_values)`, then the first action in the list whose score
      equals it. */
  method ChooseBest(expected: seq<(Action, real)>) returns (r: Result<(real, Action)>)
    ensures r == Best(expected)
  {
    BestOf(expected);
    if expected == [] {
      return Err(ValueError);
    }
    var maxValue := MaxOf(Scores(expected));
    var k := 0;
    while expected[k].1 != maxValue
      invariant 0 <= k <= FirstMatch(expected, maxValue)
      decreases |expected| - k
    {
      k := k + 1;
    }
    return Ok((maxValue, expected[k].0));
  }

  /** OptimalPolicy.select_action: the stored action of a State (None for a
      terminal one), KeyError for a position with no entry. */
  function SelectAction(actions: Policy, position: Position): (r: Result<Option<Action>>)
    ensures r.Ok? <==> position in actions
    ensures r.Ok? ==> r.value == actions[position]
    ensures r.Err? ==> r.error == KeyError
  {
    if position in actions then Ok(actions[position]) else Err(KeyError)
  }

  /** On the policy of a run that exits, select_action answers for every cell
      of the maze: None exactly on terminal cells, otherwise an action that
      `maze.step` accepts, so following the policy never leaves the grid. */
  lemma SelectActionStaysOnGrid(l: Layout, threshold: real, discount: real, fuel: nat, p: Position)
    requires l.Valid() && InGrid(l.shape, p)
    requires Optimize(l, threshold, discount, fuel).Converged?
    ensures var r := SelectAction(Optimize(l, threshold, discount, fuel).actions, p);
      && r.Ok?
      && (r.value.None? <==> l.cells[p].isTerminal)
      && (r.value.Some? ==> Step(l.shape, p, r.value.value).Ok?)
  {
    OptimizeOutcome(l, threshold, discount, fuel);
  }
}
