/**
 * `Grid` (crates/gridsolve/src/solver.rs): the mutable relation matrix the
 * constraints and rules write into, together with the log of steps taken.
 * The cells live in a real two-dimensional array with one row and one column
 * per label; the ghost field `board` is the value of its canonical half, on
 * which every specification is stated.
 */
module Grid {
  import opened Ids
  import opened Board
  import opened Wrappers

  /** One recorded deduction; its text is opaque to the model. */
  datatype Step = Step(description: string)

  /**
   * From (`b0`, `st0`) to (`b1`, `st1`) the board was only extended, the log
   * only appended to, and the log grew by one step per cell that was decided.
   */
  ghost predicate Progress(b0: Board, st0: seq<Step>, b1: Board, st1: seq<Step>) {
    Extends(b0, b1) && st0 <= st1 && |st1| + EmptyCount(b1) == |st0| + EmptyCount(b0)
  }

  lemma ProgressTrans(b0: Board, st0: seq<Step>, b1: Board, st1: seq<Step>, b2: Board, st2: seq<Step>)
    requires Progress(b0, st0, b1, st1) && Progress(b1, st1, b2, st2)
    ensures Progress(b0, st0, b2, st2)
  {
    ExtendsTrans(b0, b1, b2);
  }

  class Grid {
    const shape: Shape
    const cells: array2<Cell>
    var steps: seq<Step>
    ghost var board: Board

    /**
     * The matrix is square with one row and one column per label, the ghost
     * board is well formed, and the canonical cell of every pair holds the
     * board's value for it.
     */
    ghost predicate Valid()
      reads this`board, cells
    {
      cells.Length0 == shape.Size() && cells.Length1 == shape.Size() &&
      WellFormed(shape, board) &&
      forall x, y {:trigger cells[Index(shape.perCategory, x), Index(shape.perCategory, y)]} ::
        Canonical(shape, (x, y)) ==>
          Index(shape.perCategory, x) < shape.Size() && Index(shape.perCategory, y) < shape.Size() &&
          cells[Index(shape.perCategory, x), Index(shape.perCategory, y)] == board[(x, y)]
    }

    /**
     * `Grid::new`: a square matrix of side `categories * perCategory` whose
     * same-category blocks hold Yes on the diagonal and No elsewhere, every
     * cross-category cell Empty, and no steps yet.
     */
    constructor (shape: Shape)
      ensures Valid() && fresh(cells)
      ensures this.shape == shape && board == Initial(shape) && steps == []
      ensures cells.Length0 == shape.Size() && cells.Length1 == shape.Size()
      ensures forall i, j :: 0 <= i < shape.Size() && 0 <= j < shape.Size() ==>
        shape.perCategory > 0 &&
        cells[i, j] == Seed(LabelAt(shape.perCategory, i), LabelAt(shape.perCategory, j))
    {
      var n := shape.Size();
      var lpc := shape.perCategory;
      var a := new Cell[n, n];
      for i := 0 to n
        invariant forall i', j' :: 0 <= i' < i && 0 <= j' < n ==>
          lpc > 0 && a[i', j'] == Seed(LabelAt(lpc, i'), LabelAt(lpc, j'))
      {
        IndexLabelAt(shape, i);
        for j := 0 to n
          invariant forall i', j' :: 0 <= i' < i && 0 <= j' < n ==>
            lpc > 0 && a[i', j'] == Seed(LabelAt(lpc, i'), LabelAt(lpc, j'))
          invariant forall j' :: 0 <= j' < j ==> a[i, j'] == Seed(LabelAt(lpc, i), LabelAt(lpc, j'))
        {
          var x := LabelAt(lpc, i);
          var y := LabelAt(lpc, j);
          if x.category == y.category {
            a[i, j] := if x.position == y.position then Yes else No;
          } else {
            a[i, j] := Empty;
          }
        }
      }
      this.shape := shape;
      cells := a;
      steps := [];
      board := Initial(shape);
      new;
      InitialSeeded(shape);
      forall x, y | Canonical(shape, (x, y))
        ensures Index(lpc, x) < n && Index(lpc, y) < n && a[Index(lpc, x), Index(lpc, y)] == board[(x, y)]
      {
        IndexInRange(shape, x);
        IndexInRange(shape, y);
        LabelAtIndex(lpc, x);
        LabelAtIndex(lpc, y);
        assert board[(x, y)] == CellAt(board, x, y);
      }
    }

    /**
     * `Grid::at`: the cell of the pair, read through the canonical `indices`.
     */
    function At(x: Label, y: Label): (c: Cell)
      reads this`board, cells
      requires Valid() && shape.Valid(x) && shape.Valid(y)
      ensures c == CellAt(board, x, y)
    {
      IndexInRange(shape, x);
      IndexInRange(shape, y);
      var rc := Indices(shape.perCategory, x, y);
      cells[rc.0, rc.1]
    }

    /** `indices` puts the pair in canonical order, so `at(a, b) == at(b, a)`. */
    lemma AtSymmetric(x: Label, y: Label)
      requires Valid() && shape.Valid(x) && shape.Valid(y)
      ensures At(x, y) == At(y, x)
    {
      Symmetric(shape, board, x, y);
    }

    /**
     * `Grid::set_impl`: an Empty cell takes `v` and the result is `Some(true)`;
     * a cell already holding `v` gives `Some(false)`; a cell holding the other
     * value gives `None`. Only the cell of the pair can change, the board stays
     * write-once, and the Empty count falls by one exactly when a change is
     * reported.
     */
    method SetImpl(x: Label, y: Label, v: Cell) returns (r: Option<bool>)
      requires Valid() && shape.Valid(x) && shape.Valid(y) && v != Empty
      modifies this, cells
      ensures Valid() && steps == old(steps)
      ensures SetOutcome(old(board), board, x, y, v, r)
      ensures r == SetResult(CellAt(old(board), x, y), v)
      ensures r != Some(true) ==> board == old(board)
      ensures r.Some? ==> CellAt(board, x, y) == v
      ensures OnlyWrites(old(board), board, v)
      ensures EmptyCount(board) + (if r == Some(true) then 1 else 0) == EmptyCount(old(board))
    {
      ghost var b0 := board;
      var c := At(x, y);
      if c == Empty {
        IndexInRange(shape, x);
        IndexInRange(shape, y);
        var rc := Indices(shape.perCategory, x, y);
        ghost var k := Canon(x, y);
        cells[rc.0, rc.1] := v;
        board := Write(b0, x, y, v);
        forall p, q | Canonical(shape, (p, q))
          ensures Index(shape.perCategory, p) < shape.Size() && Index(shape.perCategory, q) < shape.Size()
          ensures cells[Index(shape.perCategory, p), Index(shape.perCategory, q)] == board[(p, q)]
        {
          IndexInRange(shape, p);
          IndexInRange(shape, q);
          if Index(shape.perCategory, p) == rc.0 && Index(shape.perCategory, q) == rc.1 {
            IndexInjective(shape.perCategory, p, k.0);
            IndexInjective(shape.perCategory, q, k.1);
          }
        }
        r := Some(true);
      } else if v == c {
        r := Some(false);
      } else {
        r := None;
      }
      SetOutcomeFacts(shape, b0, board, x, y, v, r);
    }

    /**
     * `Grid::set`: the outcome of `set_impl`, and one step with an empty
     * description appended exactly when the result is `Some(true)`.
     */
    method Set(x: Label, y: Label, v: Cell) returns (r: Option<bool>)
      requires Valid() && shape.Valid(x) && shape.Valid(y) && v != Empty
      modifies this, cells
      ensures Valid() && Progress(old(board), old(steps), board, steps)
      ensures steps == old(steps) + (if r == Some(true) then [Step("")] else [])
      ensures r == SetResult(CellAt(old(board), x, y), v)
      ensures r == Some(true) ==> board == Write(old(board), x, y, v)
      ensures r != Some(true) ==> board == old(board)
      ensures r.Some? ==> CellAt(board, x, y) == v
      ensures OnlyWrites(old(board), board, v)
      ensures EmptyCount(board) + (if r == Some(true) then 1 else 0) == EmptyCount(old(board))
    {
      r := SetImpl(x, y, v);
      if r == Some(true) {
        steps := steps + [Step("")];
      }
    }

    /**
     * `Grid::set_with_callback`: the outcome of `set_impl`, and one step
     * carrying the callback's text appended exactly when the result is
     * `Some(true)`. The callback is pure, so its text is passed in.
     */
    method SetWithCallback(x: Label, y: Label, v: Cell, description: string) returns (r: Option<bool>)
      requires Valid() && shape.Valid(x) && shape.Valid(y) && v != Empty
      modifies this, cells
      ensures Valid() && Progress(old(board), old(steps), board, steps)
      ensures steps == old(steps) + (if r == Some(true) then [Step(description)] else [])
      ensures r == SetResult(CellAt(old(board), x, y), v)
      ensures r == Some(true) ==> board == Write(old(board), x, y, v)
      ensures r != Some(true) ==> board == old(board)
      ensures r.Some? ==> CellAt(board, x, y) == v
      ensures OnlyWrites(old(board), board, v)
      ensures EmptyCount(board) + (if r == Some(true) then 1 else 0) == EmptyCount(old(board))
    {
      r := SetImpl(x, y, v);
      if r == Some(true) {
        steps := steps + [Step(description)];
      }
    }
  }
}
