/**
 * What a simulation call returns, and what the direct simulator promises
 * about it: the board after the requested number of generations, and the
 * period it reports when asked to look for one.
 */
module Outcome {
  import opened Life

  /** GenerationResult: the live cells, the step number after the call, and
      the detected period (0 when none was detected). */
  datatype GenerationResult = GenerationResult(liveCells: set<Cell>, nextStepNum: int, periodic: int)

  /** Generation m is one where the direct simulator takes a snapshot: a
      multiple of 100 below the requested count. */
  predicate CheckPoint(m: nat, generations: nat) {
    m % 100 == 0 && m < generations
  }

  /** The gap between two multiples of 100 is a multiple of 100. */
  lemma HundredsApart(a: int, b: int)
    requires a % 100 == 0 && b % 100 == 0
    ensures (a - b) % 100 == 0
  {
    var i, j := a / 100, b / 100;
    assert a - b == (i - j) * 100;
  }

  /** The board at generation m equals the board p generations earlier, p a
      positive multiple of 100 (the gap between two snapshots). */
  ghost predicate RepeatAt(s: set<Cell>, m: nat, p: int) {
    0 < p <= m && p % 100 == 0 && Iterate(s, m - p) == Iterate(s, m)
  }

  /** m is the first snapshot generation whose board was seen at an earlier
      snapshot, p generations before. */
  ghost predicate FirstRepeat(s: set<Cell>, generations: nat, m: nat, p: int) {
    && CheckPoint(m, generations)
    && RepeatAt(s, m, p)
    && forall m': nat, p': int :: CheckPoint(m', generations) && m' < m ==> !RepeatAt(s, m', p')
  }

  /** SimulateDirect's result: the board after `generations` steps, and as the
      period the gap of the first repeat when one is looked for and found
      (isFinal), otherwise 0. */
  ghost predicate DirectOutcome(s: set<Cell>, generations: nat, isFinal: bool, cells: set<Cell>, periodic: int) {
    && cells == Iterate(s, generations)
    && if isFinal && exists m: nat, p: int :: FirstRepeat(s, generations, m, p)
       then exists m: nat :: FirstRepeat(s, generations, m, periodic)
       else periodic == 0
  }

  /** The first repeat and its period are unique, so the reported period is
      determined by the board and the number of generations. */
  lemma FirstRepeatUnique(s: set<Cell>, generations: nat, m1: nat, p1: int, m2: nat, p2: int)
    requires FirstRepeat(s, generations, m1, p1) && FirstRepeat(s, generations, m2, p2)
    ensures m1 == m2 && p1 == p2
  {
    HundredsApart(p2, p1);
    HundredsApart(p1, p2);
    assert m1 < m2 ==> !RepeatAt(s, m1, p1);
    assert m2 < m1 ==> !RepeatAt(s, m2, p2);
    assert m1 == m2 && p1 < p2 ==> RepeatAt(s, m1 - p1, p2 - p1);
    assert m1 == m2 && p2 < p1 ==> RepeatAt(s, m1 - p2, p1 - p2);
  }

  /** A reported period is a positive multiple of 100 after which the board
      comes back. */
  lemma ReportedPeriod(s: set<Cell>, generations: nat, isFinal: bool, cells: set<Cell>, periodic: int)
    requires DirectOutcome(s, generations, isFinal, cells, periodic) && periodic != 0
    ensures isFinal && periodic > 0 && periodic % 100 == 0
    ensures exists m: nat :: m < generations && m >= periodic && Iterate(s, m - periodic) == Iterate(s, m)
  {
    var m: nat :| FirstRepeat(s, generations, m, periodic);
  }
}
