# Grid-world value iteration

A model of the maze and of the optimal policy of a small grid-world Markov
decision process.

- **Maze** (`maze.py`, module `GridWorld`). A numpy object array of `State`s,
  one per (x, y) cell. Each State has a reward for entering it and a terminal
  flag.
  - `step` moves a coordinate one unit and raises IndexError when it leaves
    the grid.
  - `__getitem__` and `set_terminal` read and update the array the numpy way:
    negative indices count from the end, and an index outside [-n, n) raises
    IndexError.
  - `set_rewards` is modelled as written, and also as evidently intended
    (see Findings).
  - The maze is a Dafny `class` over an `array2<State?>`. Its contents as a
    value are a `Layout`.
- **Optimal policy** (`optimalPolicy.py`, module `ValueIteration`).
  - `FloatRange.validate_value` checks the closed interval [min, max].
  - `_determine_optimal_policy` runs synchronous value iteration:
    - each sweep copies the previous values;
    - it visits the States in `states.flatten()` order;
    - a terminal cell gets value 0;
    - every other cell gets the best reward-plus-discounted-previous-value
      over the moves `step` accepts, with the first best action in the order
      UP, DOWN, LEFT, RIGHT;
    - delta becomes the largest signed old - new.
  - The loop runs while `delta >= threshold`.
  - `select_action` looks the State up in the resulting dictionary.
- **How the engine is modelled.** It is an imperative method (`SweepOnce`,
  `VisitState`, `BackupState`, `ChooseBest`) proved equal to a pure
  specification (`RunSweep`, `Optimize`). The properties are proved about that
  specification:
  - the sweep is a Jacobi update;
  - the recorded action is greedy;
  - terminal cells stay at 0 with no action;
  - every recorded action stays on the grid;
  - a run that exits has delta in [0, threshold).

Behaviour of the code worth knowing:
- The docstring of `_determine_optimal_policy` asks for a threshold "greater
  than 0.0" (optimalPolicy.py:102), but `FloatRange(0.0, inf)` accepts 0 as
  well, both ends being included. With threshold 0 the loop never ends
  normally (`ZeroThresholdNeverConverges`).
- A non-terminal cell with no feasible move, which happens only on a 1x1 grid,
  makes `max([])` raise ValueError, and so does the whole sweep
  (`SweepFailsOnlyOnSingleCell`).
- Terminal cells keep `None` in `actions`.
- `OptimalPolicy.__init__` has no probability parameter, although callers pass
  `probability=` (baseAssignmentSimulations.py:88). `step` is deterministic.

## Model

| member | source | states |
|---|---|---|
| GridWorld.Rank | optimalPolicy.py:127-132 | the position of each action in the enumeration UP, DOWN, LEFT, RIGHT |
| GridWorld.Displacement | maze.py:116 | each action's displacement is a unit step along exactly one axis |
| GridWorld.DisplacementsSpanAxes | maze.py:116 | the four displacements are the unit steps both ways along both axes: Up and Down opposite along y, Left and Right opposite along x |
| GridWorld.Positions | optimalPolicy.py:110-111 | `states.flatten()` covers exactly the cells of the grid |
| GridWorld.AxisIndex | maze.py:50-57 | numpy accepts an index exactly when it is in [-n, n); the cell it picks is the index itself or the index plus n, and is in range |
| GridWorld.AxisIndexWraps | maze.py:50-57 | an accepted index picks the index modulo the axis length |
| GridWorld.GridIndex | maze.py:50-57 | a pair is accepted exactly when both components are; it addresses an in-grid cell, and an in-grid pair addresses itself |
| GridWorld.GridIndexWraps | maze.py:86-87 | an accepted pair addresses the pair modulo the shape |
| GridWorld.Step | maze.py:97-137 | `step` succeeds exactly when start + displacement is in the grid and then returns it; otherwise IndexError (negative components, or beyond the shape) |
| GridWorld.NoMoveOnlyInSingleCell | maze.py:116-133 | every move from an in-grid cell fails exactly when the grid is 1x1 |
| GridWorld.State.constructor | state.py:12-28 | a State holds the given position, reward and terminal flag |
| GridWorld.Maze.constructor | maze.py:33-37 | a fresh array of fresh, non-terminal States, one per cell, each with its own position and that cell's reward |
| GridWorld.Maze.NewStates | maze.py:34-37 | the nested loops fill every cell with a distinct fresh State at its position, with the reward at that coordinate and not terminal |
| GridWorld.Maze.Create | maze.py:18-37 | AttributeError exactly when the requested shape differs from the rewards' shape; otherwise a valid maze whose contents are the rewards, none terminal |
| GridWorld.Maze.Get | maze.py:39-57 | `maze[c]` succeeds exactly for coordinates numpy accepts, otherwise IndexError; it returns one of the maze's States, the one at c when c is in the grid |
| GridWorld.Maze.GetWraps | maze.py:50-51 | a negative coordinate returns the State at the coordinate modulo the shape |
| GridWorld.Maze.SetTerminal | maze.py:78-95 | marks exactly the addressed State terminal (negative indices wrapping) and changes nothing else; IndexError with the maze unchanged when out of range |
| GridWorld.Maze.SetRewards | maze.py:61-76 | as written: AttributeError on a shape mismatch, otherwise TypeError on the first cell; it succeeds only on a grid with no cells |
| GridWorld.Maze.SetRewardsIntended | maze.py:61-76 | as intended: AttributeError with nothing changed on a shape mismatch; otherwise every State takes the reward at its coordinate and keeps its terminal flag |
| ValueIteration.FloatRange.ValidateValue | optimalPolicy.py:42-51 | accepts x exactly when min <= x <= max, both ends included (an infinite max bounds nothing); ValueError otherwise |
| ValueIteration.MovesAmong | optimalPolicy.py:127-139 | every listed move is one `step` accepts, paired with its in-grid destination |
| ValueIteration.MovesAmongOrdered | optimalPolicy.py:127-139 | the moves collected from the first i actions come from those actions, in strictly increasing enumeration order |
| ValueIteration.MovesAmongComplete | optimalPolicy.py:127-139 | every accepted action among the first i is collected |
| ValueIteration.MovesComplete | optimalPolicy.py:126-139 | `possible_actions` lists every feasible action, each once, and list order is enumeration order |
| ValueIteration.MaxOf | optimalPolicy.py:151-153 | `max` of a non-empty list is an element of the list that bounds every element |
| ValueIteration.FirstMatch | optimalPolicy.py:155-158 | the loop stops at the first pair whose value equals the maximum |
| ValueIteration.BestIndex | optimalPolicy.py:150-158 | the chosen pair scores at least every pair and strictly more than every earlier pair |
| ValueIteration.ExpectedValuesScoreMoves | optimalPolicy.py:144-149 | `expected_values` pairs each feasible action, in order, with the destination's reward plus the discounted previous value |
| ValueIteration.BackupIsGreedy | optimalPolicy.py:125-160 | a cell's backup fails with ValueError exactly when no move is feasible; otherwise its action is feasible, its value is that action's score, no feasible action scores more, and every earlier feasible action scores strictly less |
| ValueIteration.BackupOkIsGreedy | optimalPolicy.py:125-160 | with at least one feasible move the backup succeeds and is greedy |
| ValueIteration.VisitExtends | optimalPolicy.py:118-165 | handling one more State extends the cell-by-cell description of the sweep by that State, or fails with that State's backup error |
| ValueIteration.VisitValues | optimalPolicy.py:119-160 | handling a State sets only its new value: 0 if terminal, its backup otherwise |
| ValueIteration.VisitActions | optimalPolicy.py:154-158 | handling a non-terminal State records only its greedy action |
| ValueIteration.VisitDelta | optimalPolicy.py:162-165 | delta stays the largest old - new over the non-terminal States handled so far, or 0 |
| ValueIteration.SweepCellsCorrect | optimalPolicy.py:116-165 | up to the first failure, each handled cell has its new value and action and the others keep theirs; the sweep fails exactly when a non-terminal cell it reaches has no backup |
| ValueIteration.RunSweepIsSynchronous | optimalPolicy.py:115-167 | one sweep computes every value from the previous values only; it fails with ValueError exactly when a non-terminal cell has no feasible move; terminal cells get 0 and keep their action; other cells get their backup and greedy action; delta is the largest old - new, or 0 |
| ValueIteration.SweepKeepsKeys | optimalPolicy.py:117-167 | a sweep keeps one value and one action per cell |
| ValueIteration.FailureStops | optimalPolicy.py:151-153 | one non-terminal cell without a feasible move makes the whole sweep raise ValueError |
| ValueIteration.SweepFailsOnlyOnSingleCell | optimalPolicy.py:118-153 | a sweep raises ValueError exactly when the grid is 1x1 and its one cell is not terminal |
| ValueIteration.SweepKeepsConsistent | optimalPolicy.py:115-167 | after any sweep, terminal cells have value 0 and action None, and every other cell holds an action that stays on the grid |
| ValueIteration.IterateOutcome | optimalPolicy.py:112-167 | the loop exits only after a sweep whose delta is in [0, threshold), and never before the first sweep; every exception is ValueError |
| ValueIteration.OptimizeOutcome | optimalPolicy.py:88-175 | out-of-range parameters raise ValueError before any sweep; an exit comes after at least one sweep with 0 <= delta < threshold, with terminal cells at 0 with no action and all other cells at an on-grid action |
| ValueIteration.ZeroThresholdNeverConverges | optimalPolicy.py:91-116 | threshold 0 passes validation, but the loop never exits |
| ValueIteration.DetermineOptimalPolicy | optimalPolicy.py:88-175 | the imperative run computes exactly the specified outcome: it validates, then sweeps until delta < threshold |
| ValueIteration.SweepOnce | optimalPolicy.py:116-167 | one pass over `states.flatten()` yields exactly the specified synchronous sweep, or its ValueError |
| ValueIteration.VisitState | optimalPolicy.py:118-165 | the loop body for one State is exactly the specified visit; any error it raises is ValueError |
| ValueIteration.RecordBackup | optimalPolicy.py:151-165 | a non-terminal cell's backup is recorded as the specified visit: value, first best action, new delta |
| ValueIteration.PossibleActions | optimalPolicy.py:126-139 | the collected pairs are the feasible actions in order, each with the maze's State at its destination |
| ValueIteration.BackupState | optimalPolicy.py:125-160 | collecting, scoring and maximising for one State computes exactly that cell's backup |
| ValueIteration.ChooseBest | optimalPolicy.py:150-158 | the maximum and the first action reaching it; ValueError on an empty list |
| ValueIteration.SelectAction | optimalPolicy.py:217-228 | returns the stored entry for a known State, KeyError otherwise |
| ValueIteration.SelectActionStaysOnGrid | optimalPolicy.py:217-228 | after a run that exits, every cell has an entry; it is None exactly on terminal cells, and otherwise an action `step` accepts |

## Left out

- Rendering: `Maze.__str__`, `values_in_maze_to_str` and the `visualise` printing are output only and do not affect results.
- Floating point: rewards, values, discount and threshold are modelled as real numbers, so rounding, NaN and comparisons with NaN are not modelled. `float("inf")` is modelled as `Infinity` in two places: as the upper bound of a range, and as the initial `delta` (optimalPolicy.py:112).
- `check_annotated` reads annotations by reflection. Its effect on `_determine_optimal_policy` (validating threshold, then discount) is modelled directly in `Optimize`.
- `OptimalPolicy.__init__` repeats the same validation before calling `_determine_optimal_policy`. It only stores the result and is not modelled separately.
- BasePolicy, the random policy, the simulations and their stochastic "slip" model are not part of this model. So is the GUI driver.
- action.py is not part of this model. The displacement vectors UP=(0,1), DOWN=(0,-1), LEFT=(-1,0), RIGHT=(1,0) are assumed.
- GridWorld.NoMoveOnlyInSingleCell and ValueIteration.SweepFailsOnlyOnSingleCell need the four vectors to be exactly +x, -x, +y and -y, as GridWorld.DisplacementsSpanAxes states. The other results need only that each vector is a unit step along one axis.
- ValueIteration.Optimize: `threshold` is a real number, so `threshold = float("inf")` is not modelled. FloatRange accepts it (optimalPolicy.py:50, 91), and the source then runs exactly one sweep, since `inf >= inf` holds and the finite delta that follows is below it.
- Dictionary keys: the source keys `actions` and the values by State object. The model keys them by the State's position, which the maze makes a one-to-one correspondence.
- ValueIteration.DetermineOptimalPolicy: the `while delta >= threshold` loop need not terminate (threshold 0, or a discount of 1 with no reachable terminal cell). The model bounds it by a `fuel` count of sweeps and reports `OutOfFuel` when the count runs out, so runs longer than the bound are not modelled.
- The bare `except:` around `step` and `maze[destination]` is modelled for the IndexError that `step` raises. No other exception can arise there for in-grid integer coordinates.
- The `except Exception` branches are not modelled. In `__getitem__` and `set_terminal` they print and return None; in `step` the branch prints and falls through to return the new coordinate (maze.py:134-137). None of them can be reached with integer pairs.

## Findings

| source | as written | input that shows it | evidently intended | confidence | as-written member | corrected member |
|---|---|---|---|---|---|---|
| maze.py:74-76 | `self.states.shape[x,y].reward = rewards[x,y]` subscripts the shape tuple with a pair, which raises TypeError, so no reward is ever set | any maze with at least one cell and a rewards array of its shape, e.g. 1x1 | `self.states[x,y].reward = rewards[x,y]`: every State takes the reward at its coordinate | high, not executed | GridWorld.Maze.SetRewards | GridWorld.Maze.SetRewardsIntended |
