/**
  A nested loop that may fail: rows of four cells, each cell transforming a state or stopping the
  sweep. The control flow of `cuckoo_resize`, without its tables.
 */
module Sweep {
  import opened Wrappers

  /** The state after every row below c and the first j cells of row c. */
  function Run<S>(step: (S, nat, nat) -> Option<S>, start: S, c: nat, j: nat): Option<S>
    decreases c, j
  {
    if j > 0 then
      match Run(step, start, c, j - 1)
      case None => None
      case Some(s) => step(s, c, j - 1)
    else if c > 0 then Run(step, start, c - 1, 4)
    else Some(start)
  }

  ghost predicate CellKeeps<S(!new)>(step: (S, nat, nat) -> Option<S>, inv: (S, nat, nat) -> bool,
                                     s: S, c: nat, j: nat) {
    step(s, c, j).Some? && inv(step(s, c, j).value, c, j + 1)
  }

  ghost predicate CellsKeep<S(!new)>(step: (S, nat, nat) -> Option<S>, inv: (S, nat, nat) -> bool, rows: nat) {
    forall s, c: nat, j: nat | c < rows && j < 4 && inv(s, c, j) :: CellKeeps(step, inv, s, c, j)
  }

  ghost predicate RowKeeps<S(!new)>(inv: (S, nat, nat) -> bool, s: S, c: nat) {
    inv(s, c + 1, 0)
  }

  ghost predicate RowsKeep<S(!new)>(inv: (S, nat, nat) -> bool, rows: nat) {
    forall s, c: nat | c < rows && inv(s, c, 4) :: RowKeeps(inv, s, c)
  }

  /** An invariant that every cell keeps, and that carries over from row to row, rules out failure. */
  lemma {:induction false} RunKeeps<S(!new)>(step: (S, nat, nat) -> Option<S>, start: S, inv: (S, nat, nat) -> bool,
                                             rows: nat, c: nat, j: nat)
    requires inv(start, 0, 0) && CellsKeep(step, inv, rows) && RowsKeep(inv, rows)
    requires (c < rows && j <= 4) || (c == rows && j == 0)
    ensures Run(step, start, c, j).Some? && inv(Run(step, start, c, j).value, c, j)
    decreases c, j
  {
    if j > 0 {
      RunKeeps(step, start, inv, rows, c, j - 1);
    } else if c > 0 {
      RunKeeps(step, start, inv, rows, c - 1, 4);
    }
  }

  lemma {:induction false} FailureStays<S>(step: (S, nat, nat) -> Option<S>, start: S, c: nat, j: nat, rows: nat)
    requires c < rows && j <= 4 && Run(step, start, c, j).None?
    ensures Run(step, start, rows, 0).None?
    decreases rows - c, 4 - j
  {
    if j < 4 {
      FailureStays(step, start, c, j + 1, rows);
    } else if c + 1 < rows {
      FailureStays(step, start, c + 1, 0, rows);
    }
  }

  /** Every cell that does not stop the sweep keeps the invariant. */
  ghost predicate CellMayKeep<S(!new)>(step: (S, nat, nat) -> Option<S>, inv: S -> bool, s: S, c: nat, j: nat) {
    step(s, c, j).Some? ==> inv(step(s, c, j).value)
  }

  lemma {:induction false} RunMayKeep<S(!new)>(step: (S, nat, nat) -> Option<S>, start: S, inv: S -> bool,
                                               rows: nat, c: nat, j: nat)
    requires inv(start) && forall s, c: nat, j: nat | c < rows && j < 4 && inv(s) :: CellMayKeep(step, inv, s, c, j)
    requires (c < rows && j <= 4) || (c == rows && j == 0)
    ensures Run(step, start, c, j).Some? ==> inv(Run(step, start, c, j).value)
    decreases c, j
  {
    if j > 0 {
      RunMayKeep(step, start, inv, rows, c, j - 1);
      if Run(step, start, c, j - 1).Some? {
        assert CellMayKeep(step, inv, Run(step, start, c, j - 1).value, c, j - 1);
      }
    } else if c > 0 {
      RunMayKeep(step, start, inv, rows, c - 1, 4);
    }
  }
}
