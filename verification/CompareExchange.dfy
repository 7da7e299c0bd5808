/** The compare-exchange loops that stand in for atomic exchange and add-fetch where the platform
    has neither (src/hdr_atomic.h). */
module CompareExchange {
  import opened Bits

  datatype Operation = Exchange(value: int) | AddFetch(value: int) {
    /** What the atomic operation leaves in the cell. */
    function After(cell: int): int {
      match this
      case Exchange(value) => value
      case AddFetch(value) => Wrap64(cell + value)
    }

    /** What it returns. */
    function Result(cell: int): int {
      match this
      case Exchange(_) => cell
      case AddFetch(value) => Wrap64(cell + value)
    }
  }

  /** Before the first load, before an attempt with a comparand, or finished. */
  datatype Loop = Start | Attempt(comparand: int) | Finished(result: int)

  /** The next access of the loop to the cell, and what the cell holds after it. */
  function LoopStep(op: Operation, l: Loop, cell: int): (Loop, int) {
    match l
    case Start => (Attempt(cell), cell)
    case Attempt(comparand) =>
      // the value found, and the desired one stored if it is the comparand
      if cell == comparand
      then (Finished(op.Result(comparand)), op.After(comparand))
      else (Attempt(cell), cell)
    case Finished(_) => (l, cell)
  }

  /** The loop as run by one thread while others change the cell at will: cells[i] is what it
      finds at its i-th access. */
  function LoopAt(op: Operation, cells: seq<int>, n: nat): Loop
    requires n <= |cells|
  {
    if n == 0 then Start else LoopStep(op, LoopAt(op, cells, n - 1), cells[n - 1]).0
  }

  function CellAfter(op: Operation, cells: seq<int>, n: nat): int
    requires n < |cells|
  {
    LoopStep(op, LoopAt(op, cells, n), cells[n]).1
  }

  lemma {:induction false} UnfinishedBefore(op: Operation, cells: seq<int>, i: nat, n: nat)
    requires i <= n <= |cells| && !LoopAt(op, cells, n).Finished?
    ensures !LoopAt(op, cells, i).Finished?
  {
    if i < n { UnfinishedBefore(op, cells, i, n - 1); }
  }

  lemma {:induction false} FinishedAfter(op: Operation, cells: seq<int>, i: nat, n: nat)
    requires i <= n <= |cells| && LoopAt(op, cells, i).Finished?
    ensures LoopAt(op, cells, n) == LoopAt(op, cells, i)
  {
    if i < n { FinishedAfter(op, cells, i, n - 1); }
  }

  lemma {:induction false} ActsOnce(op: Operation, cells: seq<int>, n: nat) returns (i: nat)
    requires n <= |cells| && LoopAt(op, cells, n).Finished?
    ensures i < n
    ensures CellAfter(op, cells, i) == op.After(cells[i]) && LoopAt(op, cells, n).result == op.Result(cells[i])
    ensures forall j | 0 <= j < n && j != i :: CellAfter(op, cells, j) == cells[j]
  {
    if LoopAt(op, cells, n - 1).Finished? {
      i := ActsOnce(op, cells, n - 1);
    } else {
      i := n - 1;
      forall j | 0 <= j < n - 1
        ensures CellAfter(op, cells, j) == cells[j]
      {
        UnfinishedBefore(op, cells, j, n - 1);
        UnfinishedBefore(op, cells, j + 1, n - 1);
      }
    }
  }

  /** Whatever other threads do, a loop that finishes has acted on the cell at exactly one of its
      accesses, and there as the atomic operation would have, with the same result: an exchange
      leaves its value and returns what was there, an addition leaves and returns the sum. */
  lemma LoopIsAtomic(op: Operation, cells: seq<int>, n: nat) returns (i: nat)
    requires n <= |cells| && LoopAt(op, cells, n).Finished?
    ensures i < n
    ensures match op
      case Exchange(value) => CellAfter(op, cells, i) == value && LoopAt(op, cells, n).result == cells[i]
      case AddFetch(value) =>
        CellAfter(op, cells, i) == LoopAt(op, cells, n).result == Wrap64(cells[i] + value)
    ensures forall j | 0 <= j < n && j != i :: CellAfter(op, cells, j) == cells[j]
  {
    i := ActsOnce(op, cells, n);
  }

  /** A loop finishes as soon as the cell does not change between two of its accesses. */
  lemma LoopFinishes(op: Operation, cells: seq<int>, n: nat)
    requires 0 < n < |cells| && cells[n] == cells[n - 1]
    ensures LoopAt(op, cells, n + 1).Finished?
  {
    assert LoopAt(op, cells, n).Finished? || LoopAt(op, cells, n) == Attempt(cells[n - 1]);
  }
}
