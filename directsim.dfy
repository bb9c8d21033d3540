/**
 * The generation loop of SimulateDirect: step the board with
 * NextGenerationDirect and, when asked to (isFinal), take a snapshot keyed
 * by ComputeHashSetHash every 100 generations; at the first snapshot whose
 * key was seen before, take the gap as the period and step only the
 * remainder of the generations left modulo that period.
 */
module DirectSimulation {
  import opened Life
  import opened Outcome
  import opened StateKey
  import opened DirectStep

  /** visitedStates: the snapshot generation and board stored under each key. */
  type Visited = map<string, (int, set<Cell>)>

  /** Every entry is the snapshot of a checkpoint generation before gen, under its own key. */
  ghost predicate SnapshotsSound(s: set<Cell>, generations: nat, gen: nat, visited: Visited) {
    forall key {:trigger visited[key]} :: key in visited ==>
      var (m, state) := visited[key];
      && 0 <= m < gen && CheckPoint(m, generations)
      && state == Iterate(s, m) && key == ComputeHashSetHash(state)
  }

  /** Every checkpoint generation before gen has its snapshot. */
  ghost predicate SnapshotsComplete(s: set<Cell>, generations: nat, gen: nat, visited: Visited) {
    forall m: nat {:trigger CheckPoint(m, generations)} :: CheckPoint(m, generations) && m < gen ==> ComputeHashSetHash(Iterate(s, m)) in visited
  }

  /** No checkpoint generation before gen repeats an earlier checkpoint. */
  ghost predicate NoRepeatBefore(s: set<Cell>, generations: nat, gen: nat) {
    forall m: nat, p: int :: CheckPoint(m, generations) && m < gen ==> !RepeatAt(s, m, p)
  }

  /** The loop invariant of SimulateDirectCells at generation gen. */
  ghost predicate LoopInvariant(s: set<Cell>, generations: nat, isFinal: bool, gen: nat, visited: Visited) {
    && SnapshotsSound(s, generations, gen, visited)
    && (isFinal ==> SnapshotsComplete(s, generations, gen, visited) && NoRepeatBefore(s, generations, gen))
  }

  /** A checkpoint that repeats an earlier checkpoint finds that one's key. */
  lemma RepeatSeen(s: set<Cell>, generations: nat, gen: nat, visited: Visited, p: int)
    requires CheckPoint(gen, generations) && SnapshotsComplete(s, generations, gen, visited)
    requires RepeatAt(s, gen, p)
    ensures ComputeHashSetHash(Iterate(s, gen)) in visited
  {
    var m: nat := gen - p;
    HundredsApart(gen, p);
    assert CheckPoint(m, generations);
    assert Iterate(s, m) == Iterate(s, gen);
  }

  /** Storing the snapshot of a checkpoint keeps every entry a checkpoint's snapshot. */
  lemma StoredSound(s: set<Cell>, generations: nat, gen: nat, visited: Visited)
    requires SnapshotsSound(s, generations, gen, visited) && CheckPoint(gen, generations)
    ensures SnapshotsSound(s, generations, gen + 1,
      visited[ComputeHashSetHash(Iterate(s, gen)) := (gen, Iterate(s, gen))])
  {
    var key := ComputeHashSetHash(Iterate(s, gen));
    var visited' := visited[key := (gen, Iterate(s, gen))];
    forall k | k in visited' ensures
      var (m, state) := visited'[k];
      && 0 <= m < gen + 1 && CheckPoint(m, generations)
      && state == Iterate(s, m) && k == ComputeHashSetHash(state)
    {
      if k != key {
        assert visited'[k] == visited[k];
      }
    }
  }

  /** A checkpoint whose key was not seen repeats no earlier checkpoint. */
  lemma UnseenNoRepeat(s: set<Cell>, generations: nat, gen: nat, visited: Visited)
    requires SnapshotsComplete(s, generations, gen, visited) && NoRepeatBefore(s, generations, gen)
    requires CheckPoint(gen, generations) && ComputeHashSetHash(Iterate(s, gen)) !in visited
    ensures NoRepeatBefore(s, generations, gen + 1)
  {
    forall m: nat, p: int | CheckPoint(m, generations) && m < gen + 1 ensures !RepeatAt(s, m, p) {
      if m == gen && RepeatAt(s, m, p) {
        RepeatSeen(s, generations, gen, visited, p);
      }
    }
  }

  /** Storing the snapshot of a checkpoint whose key was not seen keeps the invariant. */
  lemma SnapshotStored(s: set<Cell>, generations: nat, gen: nat, visited: Visited)
    requires LoopInvariant(s, generations, true, gen, visited) && CheckPoint(gen, generations)
    requires ComputeHashSetHash(Iterate(s, gen)) !in visited
    ensures LoopInvariant(s, generations, true, gen + 1,
      visited[ComputeHashSetHash(Iterate(s, gen)) := (gen, Iterate(s, gen))])
  {
    StoredSound(s, generations, gen, visited);
    UnseenNoRepeat(s, generations, gen, visited);
  }

  /** A generation that is not a checkpoint, or a run that takes no
      snapshots, keeps the invariant with the snapshots unchanged. */
  lemma NoSnapshotTaken(s: set<Cell>, generations: nat, isFinal: bool, gen: nat, visited: Visited)
    requires LoopInvariant(s, generations, isFinal, gen, visited)
    requires !(isFinal && gen % 100 == 0)
    ensures LoopInvariant(s, generations, isFinal, gen + 1, visited)
  {
    if isFinal {
      forall m: nat | CheckPoint(m, generations) && m < gen + 1
        ensures ComputeHashSetHash(Iterate(s, m)) in visited
      {
        assert m != gen;
      }
      forall m: nat, p: int | CheckPoint(m, generations) && m < gen + 1
        ensures !RepeatAt(s, m, p)
      {
        assert m != gen;
      }
    }
  }

  /** A run that ends without a repeat reports the board and no period. */
  lemma NoRepeatOutcome(s: set<Cell>, generations: nat, isFinal: bool)
    requires isFinal ==> NoRepeatBefore(s, generations, generations)
    ensures DirectOutcome(s, generations, isFinal, Iterate(s, generations), 0)
  {
  }

  /** A first repeat found is what DirectOutcome asks for as the period. */
  lemma FirstRepeatOutcome(s: set<Cell>, generations: nat, m: nat, p: int, cells: set<Cell>)
    requires FirstRepeat(s, generations, m, p) && cells == Iterate(s, generations)
    ensures DirectOutcome(s, generations, true, cells, p)
  {
  }

  /** The snapshot a seen key matches is an earlier checkpoint with the same board. */
  lemma SeenKeyRepeats(s: set<Cell>, generations: nat, gen: nat, visited: Visited)
    requires SnapshotsSound(s, generations, gen, visited)
    requires ComputeHashSetHash(Iterate(s, gen)) in visited
    ensures var m := visited[ComputeHashSetHash(Iterate(s, gen))].0;
      0 <= m < gen && CheckPoint(m, generations) && Iterate(s, m) == Iterate(s, gen)
  {
    var key := ComputeHashSetHash(Iterate(s, gen));
    var (m, state) := visited[key];
    KeyInjective(state, Iterate(s, gen));
  }

  /** A repeat at a checkpoint after none at earlier checkpoints is the first repeat. */
  lemma RepeatIsFirst(s: set<Cell>, generations: nat, gen: nat, p: int)
    requires CheckPoint(gen, generations) && NoRepeatBefore(s, generations, gen) && RepeatAt(s, gen, p)
    ensures FirstRepeat(s, generations, gen, p)
  {
  }

  /** At a checkpoint whose key was seen, the snapshot it matches is an
      earlier checkpoint with the same board: the first repeat, with the gap as
      its period, and the generations left can be cut modulo the gap. */
  lemma SeenKeyIsFirstRepeat(s: set<Cell>, generations: nat, gen: nat, visited: Visited, key: string, m: int)
    requires CheckPoint(gen, generations)
    requires SnapshotsSound(s, generations, gen, visited) && NoRepeatBefore(s, generations, gen)
    requires key == ComputeHashSetHash(Iterate(s, gen)) && key in visited && m == visited[key].0
    ensures 0 <= m < gen
    ensures FirstRepeat(s, generations, gen, gen - m)
    ensures Iterate(s, generations) == Iterate(s, gen + (generations - gen) % (gen - m))
  {
    SeenKeyRepeats(s, generations, gen, visited);
    HundredsApart(gen, m);
    assert RepeatAt(s, gen, gen - m);
    RepeatIsFirst(s, generations, gen, gen - m);
    PeriodFastForward(s, m, gen, generations);
  }

  /** The branch of the loop that finds a seen key: with m the generation
      stored under the key, stepping the remainder of the generations left
      modulo the gap from the current board gives DirectOutcome's board, and
      the gap is its period. */
  lemma SeenKeyOutcome(s: set<Cell>, generations: nat, gen: nat, visited: Visited, state: set<Cell>, key: string)
    requires CheckPoint(gen, generations) && LoopInvariant(s, generations, true, gen, visited)
    requires state == Iterate(s, gen) && key == ComputeHashSetHash(state) && key in visited
    ensures var m := visited[key].0;
      && 0 <= m < gen
      && DirectOutcome(s, generations, true, Iterate(s, gen + (generations - gen) % (gen - m)), gen - m)
  {
    var m := visited[key].0;
    SeenKeyIsFirstRepeat(s, generations, gen, visited, key, m);
    FirstRepeatOutcome(s, generations, gen, gen - m, Iterate(s, gen + (generations - gen) % (gen - m)));
  }

  /** The fast-forward loop of SimulateDirect: count more generations from
      the board at generation start. */
  method StepGenerations(liveCells: set<Cell>, ghost start: nat, state: set<Cell>, count: int) returns (result: set<Cell>)
    requires state == Iterate(liveCells, start) && count >= 0
    ensures result == Iterate(liveCells, start + count)
  {
    result := state;
    for i := 0 to count
      invariant result == Iterate(liveCells, start + i)
    {
      result := NextGenerationDirect(result);
    }
  }

  /** The branch of SimulateDirect's loop that finds a seen key: the period
      is the gap to the generation stored under the key, and only the
      remainder of the generations left modulo the period are stepped. */
  method SkipPeriods(liveCells: set<Cell>, generations: nat, gen: nat, visitedStates: Visited,
                     currentState: set<Cell>, stateHash: string) returns (cells: set<Cell>, periodic: int)
    requires CheckPoint(gen, generations) && LoopInvariant(liveCells, generations, true, gen, visitedStates)
    requires currentState == Iterate(liveCells, gen) && stateHash == ComputeHashSetHash(currentState)
    requires stateHash in visitedStates
    ensures DirectOutcome(liveCells, generations, true, cells, periodic)
  {
    SeenKeyOutcome(liveCells, generations, gen, visitedStates, currentState, stateHash);
    var previousGeneration := visitedStates[stateHash].0;
    var periodicLength := gen - previousGeneration;
    var remainingGens := (generations - gen) % periodicLength;
    cells := StepGenerations(liveCells, gen, currentState, remainingGens);
    periodic := periodicLength;
  }

  /** SimulateDirect's generation loop, from the given board: the board after
      `generations` steps and the reported period, as DirectOutcome states. */
  method SimulateDirectCells(liveCells: set<Cell>, generations: nat, isFinal: bool) returns (cells: set<Cell>, periodic: int)
    ensures DirectOutcome(liveCells, generations, isFinal, cells, periodic)
  {
    var currentState := liveCells;
    var visitedStates: Visited := map[];
    var periodicLength := 0;
    var periodDetected := false;
    var gen := 0;
    while gen < generations
      invariant 0 <= gen <= generations
      invariant currentState == Iterate(liveCells, gen)
      invariant LoopInvariant(liveCells, generations, isFinal, gen, visitedStates)
      invariant !periodDetected
    {
      if isFinal && gen % 100 == 0 {
        var stateHash := ComputeHashSetHash(currentState);
        if stateHash in visitedStates {
          cells, periodic := SkipPeriods(liveCells, generations, gen, visitedStates, currentState, stateHash);
          return;
        } else {
          SnapshotStored(liveCells, generations, gen, visitedStates);
          visitedStates := visitedStates[stateHash := (gen, currentState)];
        }
      } else {
        NoSnapshotTaken(liveCells, generations, isFinal, gen, visitedStates);
      }
      currentState := NextGenerationDirect(currentState);
      gen := gen + 1;
    }
    NoRepeatOutcome(liveCells, generations, isFinal);
    cells := currentState;
    periodic := if periodDetected then periodicLength else 0;
  }
}
