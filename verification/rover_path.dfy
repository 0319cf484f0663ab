/** The rover's L-shaped walk: first right along the start row to the target
    column, then down that column to the target row. The walk never moves
    left or up: a phase whose target lies left of (or above) the start emits
    nothing. */
module RoverPath {
  import opened Grid

  function Max(a: nat, b: nat): nat { if a < b then b else a }

  /** Cells entered while stepping right along `row` from column `col` to column `toCol`. */
  function ColumnPhase(row: nat, col: nat, toCol: nat, n: nat): seq<nat>
  {
    seq<nat>(if col < toCol then toCol - col else 0, k requires 0 <= k => Index(row, col + k + 1, n))
  }

  /** Cells entered while stepping down column `col` from row `row` to row `toRow`. */
  function RowPhase(row: nat, toRow: nat, col: nat, n: nat): seq<nat>
  {
    seq<nat>(if row < toRow then toRow - row else 0, k requires 0 <= k => Index(row + k + 1, col, n))
  }

  /** The walk from `start` to `target`: the start cell excluded, every entered cell in order. */
  function Plan(start: nat, target: nat, n: nat): seq<nat>
    requires n > 0
  {
    ColumnPhase(Row(start, n), Col(start, n), Col(target, n), n) +
    RowPhase(Row(start, n), Row(target, n), Max(Col(start, n), Col(target, n)), n)
  }

  /** Number of cells in the column phase of the walk. */
  function ColumnSteps(start: nat, target: nat, n: nat): nat
    requires n > 0
  {
    if Col(start, n) < Col(target, n) then Col(target, n) - Col(start, n) else 0
  }

  /** The cell where the walk stops: the lower-right corner of the start's and target's rows and columns. */
  function Reach(start: nat, target: nat, n: nat): nat
    requires n > 0
  {
    Index(Max(Row(start, n), Row(target, n)), Max(Col(start, n), Col(target, n)), n)
  }

  /** The target can be reached by moving only right and down. */
  predicate DownRightOf(start: nat, target: nat, n: nat)
    requires n > 0
  {
    Col(start, n) <= Col(target, n) && Row(start, n) <= Row(target, n)
  }

  /** The path builder: two loops over a mutable row and column, appending the
      index of each cell entered. */
  method CalculatePath(start: nat, target: nat, n: nat) returns (newPath: seq<nat>)
    requires n > 0
    ensures newPath == Plan(start, target, n)
  {
    var row, col := Row(start, n), Col(start, n);
    var targetRow, targetCol := Row(target, n), Col(target, n);
    ghost var columnPart := ColumnPhase(row, col, targetCol, n);
    newPath := [];
    var r, c := row, col;
    while c < targetCol
      invariant col <= c <= Max(col, targetCol)
      invariant r == row
      invariant newPath == ColumnPhase(row, col, c, n)
    {
      ColumnPhaseSnoc(row, col, c, n);
      c := c + 1;
      newPath := newPath + [r * n + c];
    }
    assert newPath == columnPart;
    while r < targetRow
      invariant row <= r <= Max(row, targetRow)
      invariant c == Max(col, targetCol)
      invariant newPath == columnPart + RowPhase(row, r, c, n)
    {
      RowPhaseSnoc(row, r, c, n);
      r := r + 1;
      newPath := newPath + [r * n + c];
    }
  }

  /** One more step right appends exactly the cell entered. */
  lemma ColumnPhaseSnoc(row: nat, col: nat, c: nat, n: nat)
    requires col <= c
    ensures ColumnPhase(row, col, c + 1, n) == ColumnPhase(row, col, c, n) + [Index(row, c + 1, n)]
  {
  }

  /** One more step down appends exactly the cell entered. */
  lemma RowPhaseSnoc(row: nat, r: nat, c: nat, n: nat)
    requires row <= r
    ensures RowPhase(row, r + 1, c, n) == RowPhase(row, r, c, n) + [Index(r + 1, c, n)]
  {
  }

  /** The walk has one cell per column step plus one per row step. */
  lemma PlanLength(start: nat, target: nat, n: nat)
    requires n > 0
    ensures |Plan(start, target, n)| ==
      ColumnSteps(start, target, n) +
      (if Row(start, n) < Row(target, n) then Row(target, n) - Row(start, n) else 0)
    ensures DownRightOf(start, target, n) ==>
      |Plan(start, target, n)| == (Col(target, n) - Col(start, n)) + (Row(target, n) - Row(start, n))
  {
  }

  /** The walk is empty exactly when the target is neither right of nor below the start. */
  lemma PlanEmptyIff(start: nat, target: nat, n: nat)
    requires n > 0
    ensures Plan(start, target, n) == [] <==>
      Col(target, n) <= Col(start, n) && Row(target, n) <= Row(start, n)
    ensures start == target ==> Plan(start, target, n) == []
  {
  }

  /** A non-empty walk ends at Reach; an empty one leaves the rover at the start, which is then Reach. */
  lemma {:induction false} PlanEndsAtReach(start: nat, target: nat, n: nat)
    requires n > 0
    ensures Plan(start, target, n) != [] ==>
      Plan(start, target, n)[|Plan(start, target, n)| - 1] == Reach(start, target, n)
    ensures Plan(start, target, n) == [] ==> start == Reach(start, target, n)
  {
    PlanEmptyIff(start, target, n);
    EncodeDecode(start, n);
  }

  /** Reach is the target exactly when the target is down-right of the start, so
      that is exactly when a non-empty walk ends at the target. */
  lemma {:induction false} ReachIsTargetIff(start: nat, target: nat, n: nat)
    requires n > 0
    ensures Reach(start, target, n) == target <==> DownRightOf(start, target, n)
    ensures DownRightOf(start, target, n) && Plan(start, target, n) != [] ==>
      Plan(start, target, n)[|Plan(start, target, n)| - 1] == target
  {
    var rr, rc := Max(Row(start, n), Row(target, n)), Max(Col(start, n), Col(target, n));
    DecodeIndex(rr, rc, n);
    EncodeDecode(target, n);
    PlanEndsAtReach(start, target, n);
  }

  /** The walk never revisits the start cell. */
  lemma {:induction false} PlanExcludesStart(start: nat, target: nat, n: nat)
    requires n > 0
    ensures start !in Plan(start, target, n)
  {
    var p := Plan(start, target, n);
    var row, col := Row(start, n), Col(start, n);
    EncodeDecode(start, n);
    forall k | 0 <= k < |p|
      ensures p[k] != start
    {
      if k < ColumnSteps(start, target, n) {
        assert p[k] == Index(row, col + k + 1, n);
      } else {
        var j := k - ColumnSteps(start, target, n);
        var c := Max(col, Col(target, n));
        assert p[k] == Index(row + j + 1, c, n);
        MulMonotone(row + 1, row + j + 1, n);
      }
    }
  }

  /** When start and target lie on the grid, so does every cell of the walk. */
  lemma {:induction false} PlanInGrid(start: nat, target: nat, n: nat)
    requires n > 0
    requires start < n * n && target < n * n
    ensures forall k :: 0 <= k < |Plan(start, target, n)| ==> Plan(start, target, n)[k] < n * n
  {
    var p := Plan(start, target, n);
    var row, col := Row(start, n), Col(start, n);
    InGridIffRow(start, n);
    InGridIffRow(target, n);
    forall k | 0 <= k < |p|
      ensures p[k] < n * n
    {
      if k < ColumnSteps(start, target, n) {
        IndexInGrid(row, col + k + 1, n);
      } else {
        var j := k - ColumnSteps(start, target, n);
        IndexInGrid(row + j + 1, Max(col, Col(target, n)), n);
      }
    }
  }

  /** All column moves come first and stay in the start row; all row moves
      follow and stay in the final column. */
  lemma {:induction false} PlanIsLShaped(start: nat, target: nat, n: nat)
    requires n > 0
    ensures forall k :: 0 <= k < ColumnSteps(start, target, n) ==>
      Row(Plan(start, target, n)[k], n) == Row(start, n)
    ensures forall k :: ColumnSteps(start, target, n) <= k < |Plan(start, target, n)| ==>
      Col(Plan(start, target, n)[k], n) == Max(Col(start, n), Col(target, n))
  {
    var p := Plan(start, target, n);
    var row, col := Row(start, n), Col(start, n);
    var cs := ColumnSteps(start, target, n);
    forall k | 0 <= k < cs
      ensures Row(p[k], n) == row
    {
      DecodeIndex(row, col + k + 1, n);
    }
    forall k | cs <= k < |p|
      ensures Col(p[k], n) == Max(col, Col(target, n))
    {
      DecodeIndex(row + (k - cs) + 1, Max(col, Col(target, n)), n);
    }
  }

  /** Each cell of the walk is one step right of, or one step below, the cell
      before it (the start cell for the first one). */
  lemma {:induction false} PlanAdjacent(start: nat, target: nat, n: nat)
    requires n > 0
    ensures forall k :: 0 <= k < |Plan(start, target, n)| ==>
      StepRightOrDown(([start] + Plan(start, target, n))[k], Plan(start, target, n)[k], n)
  {
    var p := Plan(start, target, n);
    var w := [start] + p;
    var row, col := Row(start, n), Col(start, n);
    var cs := ColumnSteps(start, target, n);
    var lastCol := Max(col, Col(target, n));
    forall k | 0 <= k < |p|
      ensures StepRightOrDown(w[k], p[k], n)
    {
      if k < cs {
        DecodeIndex(row, col + k + 1, n);
        if k > 0 {
          DecodeIndex(row, col + k, n);
        }
      } else {
        var j := k - cs;
        DecodeIndex(row + j + 1, lastCol, n);
        if k == 0 {
          assert cs == 0 && lastCol == col;
        } else if j == 0 {
          DecodeIndex(row, col + k, n);
        } else {
          DecodeIndex(row + j, lastCol, n);
        }
      }
    }
  }

  /** The full diagonal walk from the top-left to the bottom-right corner
      takes 2(N-1) steps and ends in the corner. */
  lemma {:induction false} CornerToCorner(n: nat)
    requires n > 0
    ensures |Plan(0, n * n - 1, n)| == 2 * (n - 1)
    ensures n > 1 ==> Plan(0, n * n - 1, n)[2 * (n - 1) - 1] == n * n - 1
  {
    assert Index(n - 1, n - 1, n) == n * n - 1;
    DecodeIndex(n - 1, n - 1, n);
    DecodeIndex(0, 0, n);
    PlanLength(0, n * n - 1, n);
    ReachIsTargetIff(0, n * n - 1, n);
  }

  /** The walks on the five-by-five grid of the dashboard. */
  lemma DashboardExamples()
    ensures Plan(0, 24, 5) == [1, 2, 3, 4, 9, 14, 19, 24]
    ensures Plan(6, 8, 5) == [7, 8]
    ensures Plan(24, 0, 5) == []
  {
    assert Plan(0, 24, 5) == ColumnPhase(0, 0, 4, 5) + RowPhase(0, 4, 4, 5);
    assert Plan(6, 8, 5) == ColumnPhase(1, 1, 3, 5) + RowPhase(1, 1, 3, 5);
    assert Plan(24, 0, 5) == ColumnPhase(4, 4, 0, 5) + RowPhase(4, 0, 4, 5);
  }
}
