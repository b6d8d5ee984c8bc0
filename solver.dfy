/**
 * `Solver` and `solve` (crates/gridsolve/src/solver.rs): passes of every
 * clue in order followed by the four rules, repeated until a pass reports no
 * change or something reports a contradiction, then the projection of the
 * grid onto one row per label of category 0.
 *
 * The projection keeps labels rather than their names: the source turns each
 * label and category into its name with `lookup_label` / `lookup_category`,
 * which the Puzzle module models.
 */
module Solver {
  import opened Ids
  import opened Board
  import opened Wrappers
  import opened Grid
  import opened Constraint
  import opened Rules

  /**
   * One row per label of category 0 (`SolutionRow`): indexed by category,
   * category 0 holding the label itself and every other category its first
   * label found Yes, if any.
   */
  datatype Solution = Solution(rows: seq<seq<Option<Label>>>, steps: seq<Step>)

  /** The text callbacks of the four rules, in the order the solver runs them. */
  datatype Describers = Describers(
    elim: (Label, Label, Label) -> string,
    only: (Label, Label) -> string,
    trans: (Label, Label, Label) -> string,
    proxy: (Label, Label, Category) -> string)

  /** The board is closed under all four rules. */
  ghost predicate RulesClosed(s: Shape, b: Board) {
    OthersEliminated(s, b) && OnlyEmptyClosed(s, b) && TransitivityClosed(s, b) && ProxyClosed(s, b)
  }

  /** Every clue is a fixpoint on `b`: applying it could force nothing new. */
  ghost predicate CluesHold(s: Shape, clues: seq<Constraint>, b: Board) {
    forall i :: 0 <= i < |clues| ==> Propagated(s, clues[i], b, b)
  }

  /** Some clue is contradicted on `b`: `apply` of it gives up. */
  ghost predicate ClueContradicted(s: Shape, clues: seq<Constraint>, b: Board) {
    exists i :: 0 <= i < |clues| && Contradicted(s, clues[i], b)
  }

  /**
   * One of the rules that can give up is contradicted on `b`: ElimOthers by
   * a label Yes with two labels of one category, Transitivity by a label Yes
   * with one of a Yes pair and No with the other, NoByProxy by a Yes pair
   * that is not Reconcilable.
   */
  ghost predicate RulesBroken(s: Shape, b: Board) {
    !Exclusive(s, b) || TransitivityBroken(s, b) || ProxyBroken(s, b)
  }

  /** Every clue reports each change it makes (no `After` or `AfterAtLeast`). */
  predicate AllReport(clues: seq<Constraint>) {
    forall i :: 0 <= i < |clues| ==> ReportsEveryChange(clues[i])
  }

  /**
   * `o` is what the projection finds for `p` in category `c`: the label of the
   * lowest position of `c` that is Yes with `p`, or nothing when none is.
   */
  ghost predicate FirstYes(s: Shape, b: Board, p: Label, c: Category, o: Option<Label>) {
    match o
    case None => forall j :: 0 <= j < s.perCategory ==> CellAt(b, p, Label(c, j)) != Cell.Yes
    case Some(q) =>
      q.category == c && q.position < s.perCategory && CellAt(b, p, q) == Cell.Yes &&
      forall j :: 0 <= j < q.position ==> CellAt(b, p, Label(c, j)) != Cell.Yes
  }

  /** The projection's row for a label is determined by the board. */
  lemma FirstYesUnique(s: Shape, b: Board, p: Label, c: Category, o1: Option<Label>, o2: Option<Label>)
    requires FirstYes(s, b, p, c, o1) && FirstYes(s, b, p, c, o2)
    ensures o1 == o2
  {
  }

  /**
   * On a board closed under ElimOthers the label found is the only one of
   * its category that can be `p`: every other label of `c` is No with `p`.
   */
  lemma FirstYesOnly(s: Shape, b: Board, p: Label, c: Category, q: Label)
    requires OthersEliminated(s, b) && s.Valid(p) && c != p.category && c.index < s.categories
    requires FirstYes(s, b, p, c, Some(q))
    ensures forall j :: 0 <= j < s.perCategory && j != q.position ==> CellAt(b, p, Label(c, j)) == Cell.No
  {
    assert Cross(s, p, q) && CellAt(b, p, q) == Cell.Yes;
    assert OthersNo(s, b, p, q);
  }

  /** The rows `BuildSolution` produces for board `b`, stated cell by cell. */
  ghost predicate Projects(s: Shape, b: Board, rows: seq<seq<Option<Label>>>) {
    s.categories > 0 && |rows| == s.perCategory &&
    forall l :: 0 <= l < s.perCategory ==>
      |rows[l]| == s.categories &&
      rows[l][0] == Some(Label(Category(0), l)) &&
      forall c :: 1 <= c < s.categories ==> FirstYes(s, b, Label(Category(0), l), Category(c), rows[l][c])
  }

  class Solver {
    const clues: seq<Constraint>
    const grid: Grid

    /** The grid is valid, has at least one category, and admits every clue. */
    ghost predicate Valid()
      reads grid, grid.cells
    {
      grid.Valid() && grid.shape.categories > 0 &&
      forall i :: 0 <= i < |clues| ==> Admissible(grid.shape, clues[i])
    }

    /**
     * `Solver::new`: a fresh grid for the puzzle's shape and its clues. A
     * puzzle without categories makes `labels_per_category` divide by zero.
     */
    constructor (shape: Shape, clues: seq<Constraint>)
      requires shape.categories > 0
      requires forall i :: 0 <= i < |clues| ==> Admissible(shape, clues[i])
      ensures Valid() && fresh(grid) && fresh(grid.cells)
      ensures this.clues == clues && grid.shape == shape && grid.board == Initial(shape) && grid.steps == []
    {
      this.clues := clues;
      grid := new Grid(shape);
    }

    /**
     * The clue half of a pass: every clue applied in order, stopping at the
     * first contradiction. A reported change decided a cell; when every clue
     * reports its changes, reporting none means none was made and every clue
     * is a fixpoint of the board.
     */
    method ApplyClues() returns (r: Option<bool>)
      requires Valid()
      modifies grid, grid.cells
      ensures Valid() && Progress(old(grid.board), old(grid.steps), grid.board, grid.steps)
      ensures r == Some(true) ==> EmptyCount(grid.board) < EmptyCount(old(grid.board))
      ensures r == Some(false) && AllReport(clues) ==>
        grid.board == old(grid.board) && CluesHold(grid.shape, clues, grid.board)
      ensures r.None? ==> ClueContradicted(grid.shape, clues, grid.board)
    {
      ghost var b0, st0 := grid.board, grid.steps;
      var s := grid.shape;
      var changed := false;
      for i := 0 to |clues|
        invariant Valid() && grid.shape == s && Progress(b0, st0, grid.board, grid.steps)
        invariant changed ==> EmptyCount(grid.board) < EmptyCount(b0)
        invariant !changed && AllReport(clues) ==>
          grid.board == b0 && forall i' :: 0 <= i' < i ==> Propagated(s, clues[i'], b0, b0)
      {
        ghost var bk, stk := grid.board, grid.steps;
        var t := Apply(grid, clues[i]);
        if t.None? {
          return None;
        }
        changed := changed || t.value;
        ProgressTrans(b0, st0, bk, stk, grid.board, grid.steps);
        EmptyCountExtends(b0, bk);
        EmptyCountExtends(bk, grid.board);
      }
      r := Some(changed);
    }

    /**
     * `Solver::solve`: passes until one reports no change. A contradiction
     * anywhere gives `None`. Otherwise the final board is closed under the
     * four rules, every clue is a fixpoint of it when every clue reports its
     * changes, and the result is its projection with the steps taken.
     */
    method Solve(d: Describers) returns (r: Option<Solution>)
      requires Valid()
      modifies grid, grid.cells
      ensures Valid() && Progress(old(grid.board), old(grid.steps), grid.board, grid.steps)
      ensures r.Some? ==> RulesClosed(grid.shape, grid.board)
      ensures r.Some? && AllReport(clues) ==> CluesHold(grid.shape, clues, grid.board)
      ensures r.Some? ==> Projects(grid.shape, grid.board, r.value.rows) && r.value.steps == grid.steps
      ensures r.None? ==> ClueContradicted(grid.shape, clues, grid.board) || RulesBroken(grid.shape, grid.board)
    {
      ghost var b0, st0 := grid.board, grid.steps;
      var s := grid.shape;
      var changed := true;
      while changed
        invariant Valid() && grid.shape == s && Progress(b0, st0, grid.board, grid.steps)
        invariant !changed ==> RulesClosed(s, grid.board)
        invariant !changed && AllReport(clues) ==> CluesHold(s, clues, grid.board)
        decreases EmptyCount(grid.board) + (if changed then 1 else 0)
      {
        ghost var bp, stp := grid.board, grid.steps;
        var t := ApplyClues();
        if t.None? {
          return None;
        }
        changed := t.value;
        ghost var bc, stc := grid.board, grid.steps;
        var u := ApplyRules(d);
        if u.None? {
          ProgressTrans(b0, st0, bp, stp, bc, stc);
          ProgressTrans(b0, st0, bc, stc, grid.board, grid.steps);
          return None;
        }
        ProgressTrans(b0, st0, bp, stp, bc, stc);
        ProgressTrans(b0, st0, bc, stc, grid.board, grid.steps);
        EmptyCountExtends(bp, bc);
        EmptyCountExtends(bc, grid.board);
        changed := changed || u.value;
      }
      var sol := BuildSolution();
      r := Some(sol);
    }

    /**
     * The rule half of a pass: ElimOthers, OnlyEmpty, Transitivity and
     * NoByProxy in that order, stopping at the first contradiction. Each
     * reports exactly whether it changed the board, so reporting no change
     * means the board is closed under all four.
     */
    method ApplyRules(d: Describers) returns (r: Option<bool>)
      requires Valid()
      modifies grid, grid.cells
      ensures Valid() && Progress(old(grid.board), old(grid.steps), grid.board, grid.steps)
      ensures r.Some? ==> (r.value <==> EmptyCount(grid.board) < EmptyCount(old(grid.board)))
      ensures r == Some(false) ==> grid.board == old(grid.board) && RulesClosed(grid.shape, grid.board)
      ensures r.None? ==> RulesBroken(grid.shape, grid.board)
    {
      ghost var b0, st0 := grid.board, grid.steps;
      var s := grid.shape;
      var r1 := ElimOthers(grid, d.elim);
      if r1.None? {
        OnlyWritesKeeps(b0, grid.board, Cell.No);
        ExclusiveSameYes(s, b0, grid.board);
        return None;
      }
      ghost var b1, st1 := grid.board, grid.steps;
      var r2 := OnlyEmpty(grid, d.only);
      ghost var b2, st2 := grid.board, grid.steps;
      ProgressTrans(b0, st0, b1, st1, b2, st2);
      var r3 := Transitivity(grid, d.trans);
      if r3.None? {
        ProgressTrans(b0, st0, b2, st2, grid.board, grid.steps);
        return None;
      }
      ghost var b3, st3 := grid.board, grid.steps;
      ProgressTrans(b0, st0, b2, st2, b3, st3);
      var r4 := NoByProxy(grid, d.proxy);
      ProgressTrans(b0, st0, b3, st3, grid.board, grid.steps);
      if r4.None? {
        return None;
      }
      EmptyCountExtends(b0, b1);
      EmptyCountExtends(b1, b2);
      EmptyCountExtends(b2, b3);
      EmptyCountExtends(b3, grid.board);
      r := Some(r1.value || r2.value || r3.value || r4.value);
    }

    /**
     * `Solver::solution`: for each position `l` of category 0, the row of
     * `Label(0, l)`, found with a `found`/`break` scan per category. It reads
     * the grid and changes nothing.
     */
    method BuildSolution() returns (sol: Solution)
      requires Valid()
      ensures Projects(grid.shape, grid.board, sol.rows) && sol.steps == grid.steps
    {
      var s := grid.shape;
      var rows: seq<seq<Option<Label>>> := [];
      for l := 0 to s.perCategory
        invariant |rows| == l
        invariant forall l' :: 0 <= l' < l ==>
          |rows[l']| == s.categories &&
          rows[l'][0] == Some(Label(Category(0), l')) &&
          forall c :: 1 <= c < s.categories ==> FirstYes(s, grid.board, Label(Category(0), l'), Category(c), rows[l'][c])
      {
        var primary := Label(Category(0), l);
        var row := [Some(primary)];
        for c := 1 to s.categories
          invariant |row| == c && row[0] == Some(primary)
          invariant forall c' :: 1 <= c' < c ==> FirstYes(s, grid.board, primary, Category(c'), row[c'])
        {
          var known := FindYes(primary, Category(c));
          row := row + [known];
        }
        rows := rows + [row];
      }
      sol := Solution(rows, grid.steps);
    }

    /** The inner scan of `solution`: the first label of `c` that is Yes with `p`, if any. */
    method FindYes(p: Label, c: Category) returns (known: Option<Label>)
      requires Valid() && grid.shape.Valid(p) && c.index < grid.shape.categories
      ensures FirstYes(grid.shape, grid.board, p, c, known)
    {
      var s := grid.shape;
      var found := false;
      known := None;
      for l := 0 to s.perCategory
        invariant !found ==> known == None && forall j :: 0 <= j < l ==> CellAt(grid.board, p, Label(c, j)) != Cell.Yes
        invariant found ==> FirstYes(s, grid.board, p, c, known)
      {
        var secondary := Label(c, l);
        if grid.At(p, secondary) == Cell.Yes {
          known := Some(secondary);
          found := true;
          break;
        }
      }
    }
  }

  /**
   * `solve`: a solver over a fresh grid, run to its end. A solution's rows
   * project a board that extends the seeded one and is closed under the
   * rules (and under every clue when each reports its changes), and its
   * steps grew one per decided cell.
   */
  method Solve(shape: Shape, clues: seq<Constraint>, d: Describers) returns (r: Option<Solution>)
    requires shape.categories > 0
    requires forall i :: 0 <= i < |clues| ==> Admissible(shape, clues[i])
    ensures r.Some? ==> exists b: Board {:trigger Projects(shape, b, r.value.rows)} ::
      Progress(Initial(shape), [], b, r.value.steps) && WellFormed(shape, b) &&
      RulesClosed(shape, b) && (AllReport(clues) ==> CluesHold(shape, clues, b)) &&
      Projects(shape, b, r.value.rows)
    ensures r.None? ==> exists b: Board, st: seq<Step> {:trigger Progress(Initial(shape), [], b, st)} ::
      Progress(Initial(shape), [], b, st) && WellFormed(shape, b) &&
      (ClueContradicted(shape, clues, b) || RulesBroken(shape, b))
  {
    var solver := new Solver(shape, clues);
    r := solver.Solve(d);
    assert WellFormed(shape, solver.grid.board);
  }
}
