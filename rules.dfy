/**
 * The deduction rules of crates/gridsolve/src/rule.rs. Each walks
 * `Grid::cells` (every cross-category pair, lower category first), reads
 * cells through `at`, writes them through `set_with_callback`, OR-s the
 * reported changes and gives up with `None` on the first contradiction.
 *
 * The text a callback formats is opaque to the model: each rule takes a pure
 * `describe` function from the labels (and category) the text names.
 */
module Rules {
  import opened Ids
  import opened Board
  import opened Wrappers
  import opened Grid

  // ----- shared vocabulary -----

  /** Every label of `p`'s category other than `p` is No with `a`. */
  ghost predicate OthersNo(s: Shape, b: Board, a: Label, p: Label) {
    forall j {:trigger CellAt(b, a, Label(p.category, j))} ::
      0 <= j < s.perCategory && j != p.position ==> CellAt(b, a, Label(p.category, j)) == Cell.No
  }

  /** No label of `p`'s category other than `p` is Yes with `a`. */
  ghost predicate OthersNotYes(s: Shape, b: Board, a: Label, p: Label) {
    forall j {:trigger CellAt(b, a, Label(p.category, j))} ::
      0 <= j < s.perCategory && j != p.position ==> CellAt(b, a, Label(p.category, j)) != Cell.Yes
  }

  /** A pair of valid labels of two different categories. */
  predicate Cross(s: Shape, a: Label, p: Label) {
    s.Valid(a) && s.Valid(p) && a.category != p.category
  }

  /** `b0` and `b1` agree on which cells are Yes. */
  ghost predicate SameYes(b0: Board, b1: Board) {
    forall x, y {:trigger CellAt(b1, x, y)} :: CellAt(b1, x, y) == Cell.Yes <==> CellAt(b0, x, y) == Cell.Yes
  }

  /** `b0` and `b1` agree on which cells are No. */
  ghost predicate SameNo(b0: Board, b1: Board) {
    forall x, y {:trigger CellAt(b1, x, y)} :: CellAt(b1, x, y) == Cell.No <==> CellAt(b0, x, y) == Cell.No
  }

  /** Writing only `v` keeps the cells holding the other decided value. */
  lemma OnlyWritesKeeps(b0: Board, b1: Board, v: Cell)
    requires OnlyWrites(b0, b1, v) && v != Cell.Empty
    ensures v == Cell.No ==> SameYes(b0, b1)
    ensures v == Cell.Yes ==> SameNo(b0, b1)
  {
    forall x, y
      ensures v == Cell.No ==> (CellAt(b1, x, y) == Cell.Yes <==> CellAt(b0, x, y) == Cell.Yes)
      ensures v == Cell.Yes ==> (CellAt(b1, x, y) == Cell.No <==> CellAt(b0, x, y) == Cell.No)
    {
      ExtendsCell(b0, b1, x, y);
    }
  }

  /** A row that is all No stays so as the board is extended. */
  lemma OthersNoExtends(s: Shape, b0: Board, b1: Board, a: Label, p: Label)
    requires Extends(b0, b1) && OthersNo(s, b0, a, p)
    ensures OthersNo(s, b1, a, p)
  {
    forall j | 0 <= j < s.perCategory && j != p.position
      ensures CellAt(b1, a, Label(p.category, j)) == Cell.No
    {
      ExtendsCell(b0, b1, a, Label(p.category, j));
    }
  }

  /** With the same No cells, a row is all No on one board iff on the other. */
  lemma OthersNoSameNo(s: Shape, b0: Board, b1: Board, a: Label, p: Label)
    requires SameNo(b0, b1)
    ensures OthersNo(s, b1, a, p) <==> OthersNo(s, b0, a, p)
  {
    if OthersNo(s, b0, a, p) {
      forall j | 0 <= j < s.perCategory && j != p.position
        ensures CellAt(b1, a, Label(p.category, j)) == Cell.No
      {
        assert CellAt(b0, a, Label(p.category, j)) == Cell.No;
      }
    }
    if OthersNo(s, b1, a, p) {
      forall j | 0 <= j < s.perCategory && j != p.position
        ensures CellAt(b0, a, Label(p.category, j)) == Cell.No
      {
        assert CellAt(b1, a, Label(p.category, j)) == Cell.No;
      }
    }
  }

  // ----- ElimOthers -----

  /**
   * The consistency ElimOthers needs to finish: no label is Yes with two
   * different labels of one other category.
   */
  ghost predicate Exclusive(s: Shape, b: Board) {
    forall a, p {:trigger CellAt(b, a, p)} ::
      Cross(s, a, p) && CellAt(b, a, p) == Cell.Yes ==> OthersNotYes(s, b, a, p)
  }

  /**
   * The fixpoint ElimOthers leaves: a label Yes with some label of another
   * category is No with all the rest of that category.
   */
  ghost predicate OthersEliminated(s: Shape, b: Board) {
    forall a, p {:trigger CellAt(b, a, p)} ::
      Cross(s, a, p) && CellAt(b, a, p) == Cell.Yes ==> OthersNo(s, b, a, p)
  }

  /** `a` is Yes with a label of `q`'s category other than `q`, so `(a, q)` must be No. */
  ghost predicate Eliminable(s: Shape, b: Board, a: Label, q: Label) {
    exists p {:trigger CellAt(b, a, p)} ::
      s.Valid(p) && p.category == q.category && p != q && CellAt(b, a, p) == Cell.Yes
  }

  /** Every cell that changed from `b0` to `b1` is Eliminable on `b0`, read either way round. */
  ghost predicate EliminationsJustified(s: Shape, b0: Board, b1: Board) {
    forall k :: k in b0 && k in b1 && b1[k] != b0[k] ==>
      Eliminable(s, b0, k.0, k.1) || Eliminable(s, b0, k.1, k.0)
  }

  /** The keys of the cells `(a, q)` for `q` in `p`'s category other than `p`. */
  ghost function RowKeys(s: Shape, a: Label, p: Label): set<(Label, Label)> {
    set j | 0 <= j < s.perCategory && j != p.position :: Canon(a, Label(p.category, j))
  }

  /** When `(a, p)` is Yes, every cell of `RowKeys(s, a, p)` is Eliminable. */
  lemma RowKeysEliminable(s: Shape, b: Board, a: Label, p: Label, k: (Label, Label))
    requires Cross(s, a, p) && CellAt(b, a, p) == Cell.Yes && k in RowKeys(s, a, p)
    ensures Eliminable(s, b, k.0, k.1) || Eliminable(s, b, k.1, k.0)
  {
    var j :| 0 <= j < s.perCategory && j != p.position && k == Canon(a, Label(p.category, j));
    assert Eliminable(s, b, a, Label(p.category, j));
  }

  /** A board closed under ElimOthers is Exclusive. */
  lemma EliminatedExclusive(s: Shape, b: Board)
    requires OthersEliminated(s, b)
    ensures Exclusive(s, b)
  {
  }

  /**
   * ElimOthers has nothing to do on a board it has closed: no Empty cross
   * pair is Eliminable, so a run that writes only justified No cells leaves
   * the board as it was (and, by its contract, reports no change).
   */
  lemma ElimOthersSettled(s: Shape, b0: Board, b1: Board)
    requires WellFormed(s, b0) && OthersEliminated(s, b0)
    requires OnlyWrites(b0, b1, Cell.No) && EliminationsJustified(s, b0, b1)
    ensures b1 == b0
  {
    forall k | k in b0 ensures b1[k] == b0[k] {
      if b1[k] != b0[k] {
        assert Canonical(s, k) && Canon(k.0, k.1) == k;
        assert CellAt(b0, k.0, k.1) == Cell.Empty;
        Symmetric(s, b0, k.0, k.1);
        NotEliminable(s, b0, k.0, k.1);
        NotEliminable(s, b0, k.1, k.0);
      }
    }
  }

  /** On a board closed under ElimOthers, an Empty pair is not Eliminable. */
  lemma NotEliminable(s: Shape, b: Board, a: Label, q: Label)
    requires WellFormed(s, b) && OthersEliminated(s, b)
    requires s.Valid(a) && s.Valid(q) && CellAt(b, a, q) == Cell.Empty
    ensures !Eliminable(s, b, a, q)
  {
    assert a.category != q.category by { assert CellAt(b, a, q) == Seed(a, q); }
    forall p | s.Valid(p) && p.category == q.category && p != q
      ensures CellAt(b, a, p) == Cell.Yes ==> CellAt(b, a, q) == Cell.No
    {
      assert Cross(s, a, p) && q == Label(p.category, q.position);
    }
  }

  /** Exclusive depends only on the Yes cells. */
  lemma ExclusiveSameYes(s: Shape, b0: Board, b1: Board)
    requires SameYes(b0, b1)
    ensures Exclusive(s, b0) <==> Exclusive(s, b1)
  {
    if Exclusive(s, b0) {
      forall a, p | Cross(s, a, p) && CellAt(b1, a, p) == Cell.Yes
        ensures OthersNotYes(s, b1, a, p)
      {
        assert CellAt(b0, a, p) == Cell.Yes;
        forall j | 0 <= j < s.perCategory && j != p.position
          ensures CellAt(b1, a, Label(p.category, j)) != Cell.Yes
        {
          assert CellAt(b0, a, Label(p.category, j)) != Cell.Yes;
        }
      }
    }
    if Exclusive(s, b1) {
      forall a, p | Cross(s, a, p) && CellAt(b0, a, p) == Cell.Yes
        ensures OthersNotYes(s, b0, a, p)
      {
        assert CellAt(b1, a, p) == Cell.Yes;
        forall j | 0 <= j < s.perCategory && j != p.position
          ensures CellAt(b0, a, Label(p.category, j)) != Cell.Yes
        {
          assert CellAt(b1, a, Label(p.category, j)) != Cell.Yes;
        }
      }
    }
  }

  /**
   * The loop of ElimOthers over the labels of `p`'s category other than `p`,
   * setting each No with `a`; called for a pair `(a, p)` found Yes. The row
   * loop is `EliminateRow(g, l1, l2, …)`; the column loop, which sets
   * `(l3, l2)` for `l3` in `l1`'s category, is `EliminateRow(g, l2, l1, …)`,
   * the same cells in the same order.
   */
  method EliminateRow(g: Grid, a: Label, p: Label, describe: (Label, Label, Label) -> string) returns (r: Option<bool>)
    requires g.Valid() && Cross(g.shape, a, p)
    modifies g, g.cells
    ensures g.Valid() && Progress(old(g.board), old(g.steps), g.board, g.steps)
    ensures OnlyWrites(old(g.board), g.board, Cell.No)
    ensures forall k :: k in old(g.board) && k !in RowKeys(g.shape, a, p) ==> g.board[k] == old(g.board)[k]
    ensures r.Some? ==> (r.value <==> EmptyCount(g.board) < EmptyCount(old(g.board)))
    ensures r.Some? ==> OthersNo(g.shape, g.board, a, p)
    ensures r.None? ==> !OthersNotYes(g.shape, old(g.board), a, p)
  {
    ghost var b0, st0 := g.board, g.steps;
    var s := g.shape;
    var changed := false;
    for l := 0 to s.perCategory
      invariant g.Valid() && g.shape == s && Progress(b0, st0, g.board, g.steps)
      invariant changed <==> EmptyCount(g.board) < EmptyCount(b0)
      invariant OnlyWrites(b0, g.board, Cell.No)
      invariant forall k :: k in b0 && k !in RowKeys(s, a, p) ==> g.board[k] == b0[k]
      invariant RowNoUpTo(g.board, a, p, l)
    {
      if l == p.position {
        continue;
      }
      ghost var bk, stk := g.board, g.steps;
      var q := Label(p.category, l);
      assert Canon(a, q) in RowKeys(s, a, p);
      var t := g.SetWithCallback(a, q, Cell.No, describe(a, p, q));
      if t.None? {
        ExtendsCell(b0, bk, a, q);
        assert CellAt(b0, a, q) == Cell.Yes;
        return None;
      }
      changed := changed || t.value;
      ProgressTrans(b0, st0, bk, stk, g.board, g.steps);
      OnlyWritesTrans(b0, bk, g.board, Cell.No);
      RowNoNext(bk, g.board, a, p, l);
    }
    r := Some(changed);
  }

  /** The labels `0 .. l - 1` of `p`'s category other than `p` are No with `a`. */
  ghost predicate RowNoUpTo(b: Board, a: Label, p: Label, l: nat) {
    forall j {:trigger CellAt(b, a, Label(p.category, j))} ::
      0 <= j < l && j != p.position ==> CellAt(b, a, Label(p.category, j)) == Cell.No
  }

  /** Setting label `l` No with `a` extends the row by one label; the earlier ones stay No. */
  lemma RowNoNext(bk: Board, b1: Board, a: Label, p: Label, l: nat)
    requires RowNoUpTo(bk, a, p, l) && Extends(bk, b1)
    requires l != p.position ==> CellAt(b1, a, Label(p.category, l)) == Cell.No
    ensures RowNoUpTo(b1, a, p, l + 1)
  {
    forall j | 0 <= j < l && j != p.position
      ensures CellAt(b1, a, Label(p.category, j)) == Cell.No
    {
      ExtendsCell(bk, b1, a, Label(p.category, j));
    }
  }

  /**
   * One pair of ElimOthers: when `(l1, l2)` is Yes, the rest of `l1`'s row in
   * `l2`'s category and the rest of `l2`'s row in `l1`'s category are set No.
   */
  method ElimOthersAt(g: Grid, l1: Label, l2: Label, describe: (Label, Label, Label) -> string) returns (r: Option<bool>)
    requires g.Valid() && Cross(g.shape, l1, l2)
    modifies g, g.cells
    ensures g.Valid() && Progress(old(g.board), old(g.steps), g.board, g.steps)
    ensures OnlyWrites(old(g.board), g.board, Cell.No)
    ensures CellAt(old(g.board), l1, l2) != Cell.Yes ==> g.board == old(g.board) && r == Some(false)
    ensures forall k :: k in old(g.board) && k in g.board && g.board[k] != old(g.board)[k] ==>
      k in RowKeys(g.shape, l1, l2) || k in RowKeys(g.shape, l2, l1)
    ensures r.Some? ==> (r.value <==> EmptyCount(g.board) < EmptyCount(old(g.board)))
    ensures r.Some? && CellAt(old(g.board), l1, l2) == Cell.Yes ==>
      OthersNo(g.shape, g.board, l1, l2) && OthersNo(g.shape, g.board, l2, l1)
    ensures r.None? ==> !Exclusive(g.shape, old(g.board))
  {
    ghost var b0, st0 := g.board, g.steps;
    var s := g.shape;
    if g.At(l1, l2) != Cell.Yes {
      return Some(false);
    }
    var t := EliminateRow(g, l1, l2, describe);
    if t.None? {
      return None;
    }
    ghost var b1, st1 := g.board, g.steps;
    var u := EliminateRow(g, l2, l1, describe);
    ProgressTrans(b0, st0, b1, st1, g.board, g.steps);
    OnlyWritesTrans(b0, b1, g.board, Cell.No);
    if u.None? {
      OnlyWritesKeeps(b0, b1, Cell.No);
      ExclusiveSameYes(s, b0, b1);
      assert CellAt(b1, l2, l1) == Cell.Yes;
      return None;
    }
    OthersNoExtends(s, b1, g.board, l1, l2);
    EmptyCountExtends(b0, b1);
    EmptyCountExtends(b1, g.board);
    r := Some(t.value || u.value);
  }

  /**
   * ElimOthers (rule.rs): succeeds exactly when the board is Exclusive, and
   * then leaves it closed (every Yes pair has the rest of both rows No),
   * having written only No, each into a cell Eliminable on the starting
   * board; it reports a change exactly when it made one.
   */
  method ElimOthers(g: Grid, describe: (Label, Label, Label) -> string) returns (r: Option<bool>)
    requires g.Valid()
    modifies g, g.cells
    ensures g.Valid() && Progress(old(g.board), old(g.steps), g.board, g.steps)
    ensures OnlyWrites(old(g.board), g.board, Cell.No)
    ensures r.Some? <==> Exclusive(g.shape, old(g.board))
    ensures r.Some? ==> (r.value <==> g.board != old(g.board))
    ensures r.Some? ==> OthersEliminated(g.shape, g.board)
    ensures EliminationsJustified(g.shape, old(g.board), g.board)
  {
    ghost var b0, st0 := g.board, g.steps;
    var s := g.shape;
    var ps := CellPairs(s);
    CellPairsExact(s);
    var changed := false;
    for k := 0 to |ps|
      invariant g.Valid() && g.shape == s && Progress(b0, st0, g.board, g.steps)
      invariant changed <==> EmptyCount(g.board) < EmptyCount(b0)
      invariant OnlyWrites(b0, g.board, Cell.No)
      invariant EliminationsJustified(s, b0, g.board)
      invariant ClosedUpTo(s, b0, g.board, ps, k)
    {
      ghost var bk, stk := g.board, g.steps;
      var l1, l2 := ps[k].0, ps[k].1;
      assert ps[k] in ps;
      OnlyWritesKeeps(b0, bk, Cell.No);
      var t := ElimOthersAt(g, l1, l2, describe);
      if t.None? {
        ExclusiveSameYes(s, b0, bk);
        ProgressTrans(b0, st0, bk, stk, g.board, g.steps);
        OnlyWritesTrans(b0, bk, g.board, Cell.No);
        ElimStepJustified(s, b0, bk, g.board, l1, l2);
        return None;
      }
      changed := changed || t.value;
      ProgressTrans(b0, st0, bk, stk, g.board, g.steps);
      OnlyWritesTrans(b0, bk, g.board, Cell.No);
      EmptyCountExtends(b0, bk);
      ElimStepJustified(s, b0, bk, g.board, l1, l2);
      ClosedUpToNext(s, b0, bk, g.board, ps, k);
    }
    OnlyWritesKeeps(b0, g.board, Cell.No);
    ElimClosed(s, b0, g.board, ps);
    EliminatedExclusive(s, g.board);
    ExclusiveSameYes(s, b0, g.board);
    EmptyCountExtends(b0, g.board);
    r := Some(changed);
  }

  /** One pair's writes keep every change since `b0` justified on `b0`. */
  lemma ElimStepJustified(s: Shape, b0: Board, bk: Board, b1: Board, l1: Label, l2: Label)
    requires OnlyWrites(b0, bk, Cell.No) && Extends(bk, b1) && Cross(s, l1, l2)
    requires EliminationsJustified(s, b0, bk)
    requires bk != b1 ==> CellAt(bk, l1, l2) == Cell.Yes
    requires forall k :: k in bk && k in b1 && b1[k] != bk[k] ==> k in RowKeys(s, l1, l2) || k in RowKeys(s, l2, l1)
    ensures EliminationsJustified(s, b0, b1)
  {
    forall k | k in b0 && k in b1 && b1[k] != b0[k]
      ensures Eliminable(s, b0, k.0, k.1) || Eliminable(s, b0, k.1, k.0)
    {
      if bk[k] == b0[k] {
        assert bk != b1;
        ExtendsCell(b0, bk, l1, l2);
        assert CellAt(b0, l1, l2) == Cell.Yes;
        if k in RowKeys(s, l1, l2) {
          RowKeysEliminable(s, b0, l1, l2, k);
        } else {
          assert CellAt(b0, l2, l1) == Cell.Yes;
          RowKeysEliminable(s, b0, l2, l1, k);
        }
      }
    }
  }

  /** Every pair among the first `k` of `ps` that is Yes on `b0` has both rows No on `b`. */
  ghost predicate ClosedUpTo(s: Shape, b0: Board, b: Board, ps: seq<(Label, Label)>, k: nat) {
    k <= |ps| &&
    forall i :: 0 <= i < k && CellAt(b0, ps[i].0, ps[i].1) == Cell.Yes ==>
      OthersNo(s, b, ps[i].0, ps[i].1) && OthersNo(s, b, ps[i].1, ps[i].0)
  }

  /** ElimOthersAt on pair `k` closes one more pair and keeps the earlier ones closed. */
  lemma ClosedUpToNext(s: Shape, b0: Board, bk: Board, b1: Board, ps: seq<(Label, Label)>, k: nat)
    requires ClosedUpTo(s, b0, bk, ps, k) && k < |ps| && SameYes(b0, bk) && Extends(bk, b1)
    requires CellAt(bk, ps[k].0, ps[k].1) == Cell.Yes ==>
      OthersNo(s, b1, ps[k].0, ps[k].1) && OthersNo(s, b1, ps[k].1, ps[k].0)
    ensures ClosedUpTo(s, b0, b1, ps, k + 1)
  {
    forall i | 0 <= i < k + 1 && CellAt(b0, ps[i].0, ps[i].1) == Cell.Yes
      ensures OthersNo(s, b1, ps[i].0, ps[i].1) && OthersNo(s, b1, ps[i].1, ps[i].0)
    {
      if i < k {
        OthersNoExtends(s, bk, b1, ps[i].0, ps[i].1);
        OthersNoExtends(s, bk, b1, ps[i].1, ps[i].0);
      }
    }
  }

  /** Both rows of every Yes pair of `CellPairs` are No: the board is closed under ElimOthers. */
  lemma ElimClosed(s: Shape, b0: Board, b1: Board, ps: seq<(Label, Label)>)
    requires ps == CellPairs(s) && SameYes(b0, b1)
    requires ClosedUpTo(s, b0, b1, ps, |ps|)
    ensures OthersEliminated(s, b1)
  {
    CellPairsExact(s);
    forall a, p | Cross(s, a, p) && CellAt(b1, a, p) == Cell.Yes
      ensures OthersNo(s, b1, a, p)
    {
      assert CellAt(b0, a, p) == Cell.Yes;
      if a.category.index < p.category.index {
        assert (a, p) in ps;
      } else {
        assert (p, a) in ps;
        assert CellAt(b0, p, a) == Cell.Yes;
      }
    }
  }

  // ----- OnlyEmpty -----

  /**
   * The loop of OnlyEmpty that checks whether every label of `p`'s category
   * other than `p` is No with `a`; it reads the grid and changes nothing. The
   * column check of the source, which reads `(l3, l2)` for `l3` in `l1`'s
   * category, is `RowAllNo(g, l2, l1)`: the same cells.
   */
  method RowAllNo(g: Grid, a: Label, p: Label) returns (only: bool)
    requires g.Valid() && g.shape.Valid(a) && g.shape.Valid(p)
    ensures only <==> OthersNo(g.shape, g.board, a, p)
  {
    var s := g.shape;
    only := true;
    for l := 0 to s.perCategory
      invariant only <==> forall j {:trigger Label(p.category, j)} :: 0 <= j < l && j != p.position ==>
        CellAt(g.board, a, Label(p.category, j)) == Cell.No
    {
      if l == p.position {
        continue;
      }
      var q := Label(p.category, l);
      if g.At(a, q) != Cell.No {
        only := false;
      }
    }
  }

  /**
   * The fixpoint OnlyEmpty leaves: an Empty cross-category cell has, in each
   * of its two rows, some other cell that is not No.
   */
  ghost predicate OnlyEmptyClosed(s: Shape, b: Board) {
    forall a, p {:trigger CellAt(b, a, p)} ::
      Cross(s, a, p) && CellAt(b, a, p) == Cell.Empty ==>
        !OthersNo(s, b, a, p) && !OthersNo(s, b, p, a)
  }

  /** Every cell that changed from `b0` to `b1` is the last candidate of one of its rows on `b0`. */
  ghost predicate OnlyCandidatesSet(s: Shape, b0: Board, b1: Board) {
    forall k :: k in b0 && k in b1 && b1[k] != b0[k] ==>
      OthersNo(s, b0, k.0, k.1) || OthersNo(s, b0, k.1, k.0)
  }

  /**
   * OnlyEmpty has nothing to do on a board it has closed: no Empty cross pair
   * is the last candidate of its row or column, so a run that writes only
   * such pairs leaves the board as it was.
   */
  lemma OnlyEmptySettled(s: Shape, b0: Board, b1: Board)
    requires WellFormed(s, b0) && OnlyEmptyClosed(s, b0)
    requires OnlyWrites(b0, b1, Cell.Yes) && OnlyCandidatesSet(s, b0, b1)
    ensures b1 == b0
  {
    forall k | k in b0 ensures b1[k] == b0[k] {
      if b1[k] != b0[k] {
        assert Canonical(s, k) && Canon(k.0, k.1) == k;
        assert CellAt(b0, k.0, k.1) == Cell.Empty;
        assert Cross(s, k.0, k.1) by { assert CellAt(b0, k.0, k.1) == Seed(k.0, k.1); }
      }
    }
  }

  /**
   * One pair of OnlyEmpty: an Empty `(l1, l2)` whose row in `l2`'s category,
   * or else whose row in `l1`'s category, is otherwise all No is set Yes. In
   * the second case the source sets it with `set` and then once more with
   * `set_with_callback`, which finds it already Yes.
   */
  method OnlyEmptyAt(g: Grid, l1: Label, l2: Label, describe: (Label, Label) -> string) returns (changed: bool)
    requires g.Valid() && Cross(g.shape, l1, l2)
    modifies g, g.cells
    ensures g.Valid() && Progress(old(g.board), old(g.steps), g.board, g.steps)
    ensures changed <==> g.board != old(g.board)
    ensures changed ==>
      CellAt(old(g.board), l1, l2) == Cell.Empty &&
      (OthersNo(g.shape, old(g.board), l1, l2) || OthersNo(g.shape, old(g.board), l2, l1)) &&
      g.board == Write(old(g.board), l1, l2, Cell.Yes)
    ensures CellAt(g.board, l1, l2) == Cell.Empty ==>
      !OthersNo(g.shape, g.board, l1, l2) && !OthersNo(g.shape, g.board, l2, l1)
  {
    ghost var b0, st0 := g.board, g.steps;
    changed := false;
    if g.At(l1, l2) == Cell.Empty {
      var only := RowAllNo(g, l1, l2);
      if only {
        var t := g.SetWithCallback(l1, l2, Cell.Yes, describe(l2, l1));
        assert t == Some(true);
        changed := true;
        return;
      }
      only := RowAllNo(g, l2, l1);
      if only {
        var t := g.Set(l1, l2, Cell.Yes);
        assert t == Some(true);
        ghost var b1, st1 := g.board, g.steps;
        var u := g.SetWithCallback(l1, l2, Cell.Yes, describe(l1, l2));
        assert u == Some(false);
        ProgressTrans(b0, st0, b1, st1, g.board, g.steps);
        changed := true;
        return;
      }
    }
  }

  /**
   * OnlyEmpty (rule.rs): never meets a contradiction, writes only Yes, each
   * into a cell that was the last candidate of one of its rows on the
   * starting board, reports a change exactly when it made one, and leaves the
   * board closed: no Empty cell is the last candidate of either of its rows.
   */
  method OnlyEmpty(g: Grid, describe: (Label, Label) -> string) returns (r: Option<bool>)
    requires g.Valid()
    modifies g, g.cells
    ensures g.Valid() && Progress(old(g.board), old(g.steps), g.board, g.steps)
    ensures OnlyWrites(old(g.board), g.board, Cell.Yes)
    ensures r.Some? && (r.value <==> g.board != old(g.board))
    ensures OnlyEmptyClosed(g.shape, g.board)
    ensures OnlyCandidatesSet(g.shape, old(g.board), g.board)
  {
    ghost var b0, st0 := g.board, g.steps;
    var s := g.shape;
    var ps := CellPairs(s);
    CellPairsExact(s);
    var changed := false;
    for k := 0 to |ps|
      invariant g.Valid() && g.shape == s && Progress(b0, st0, g.board, g.steps)
      invariant changed <==> EmptyCount(g.board) < EmptyCount(b0)
      invariant OnlyWrites(b0, g.board, Cell.Yes)
      invariant OnlyCandidatesSet(s, b0, g.board)
      invariant CandidatesUpTo(s, g.board, ps, k)
    {
      ghost var bk, stk := g.board, g.steps;
      var l1, l2 := ps[k].0, ps[k].1;
      assert ps[k] in ps;
      var t := OnlyEmptyAt(g, l1, l2, describe);
      changed := changed || t;
      OnlyEmptyStep(s, b0, bk, g.board, l1, l2);
      ProgressTrans(b0, st0, bk, stk, g.board, g.steps);
      EmptyCountExtends(b0, bk);
      EmptyCountExtends(bk, g.board);
      OnlyWritesKeeps(bk, g.board, Cell.Yes);
      CandidatesNext(s, bk, g.board, ps, k);
    }
    OnlyEmptyFromPairs(s, g.board, ps);
    EmptyCountExtends(b0, g.board);
    r := Some(changed);
  }

  /** No Empty pair among the first `k` of `ps` is the last candidate of either of its rows on `b`. */
  ghost predicate CandidatesUpTo(s: Shape, b: Board, ps: seq<(Label, Label)>, k: nat) {
    k <= |ps| &&
    forall i :: 0 <= i < k && CellAt(b, ps[i].0, ps[i].1) == Cell.Empty ==>
      !OthersNo(s, b, ps[i].0, ps[i].1) && !OthersNo(s, b, ps[i].1, ps[i].0)
  }

  /** Writes that keep every No extend the prefix by pair `k` when that pair is settled. */
  lemma CandidatesNext(s: Shape, bk: Board, b1: Board, ps: seq<(Label, Label)>, k: nat)
    requires CandidatesUpTo(s, bk, ps, k) && k < |ps| && Extends(bk, b1) && SameNo(bk, b1)
    requires CellAt(b1, ps[k].0, ps[k].1) == Cell.Empty ==>
      !OthersNo(s, b1, ps[k].0, ps[k].1) && !OthersNo(s, b1, ps[k].1, ps[k].0)
    ensures CandidatesUpTo(s, b1, ps, k + 1)
  {
    forall i | 0 <= i < k && CellAt(b1, ps[i].0, ps[i].1) == Cell.Empty
      ensures !OthersNo(s, b1, ps[i].0, ps[i].1) && !OthersNo(s, b1, ps[i].1, ps[i].0)
    {
      ExtendsCell(bk, b1, ps[i].0, ps[i].1);
      OthersNoSameNo(s, bk, b1, ps[i].0, ps[i].1);
      OthersNoSameNo(s, bk, b1, ps[i].1, ps[i].0);
    }
  }

  /** One pair's write keeps OnlyWrites and OnlyCandidatesSet since `b0`. */
  lemma OnlyEmptyStep(s: Shape, b0: Board, bk: Board, b1: Board, l1: Label, l2: Label)
    requires OnlyWrites(b0, bk, Cell.Yes) && OnlyCandidatesSet(s, b0, bk) && Cross(s, l1, l2)
    requires bk.Keys == b0.Keys
    requires b1 == bk || (CellAt(bk, l1, l2) == Cell.Empty && b1 == Write(bk, l1, l2, Cell.Yes) &&
      (OthersNo(s, bk, l1, l2) || OthersNo(s, bk, l2, l1)))
    requires Extends(bk, b1)
    ensures OnlyWrites(b0, b1, Cell.Yes) && OnlyCandidatesSet(s, b0, b1)
  {
    if b1 != bk {
      OnlyWritesKeeps(b0, bk, Cell.Yes);
      OthersNoSameNo(s, b0, bk, l1, l2);
      OthersNoSameNo(s, b0, bk, l2, l1);
      var w := Canon(l1, l2);
      assert w in bk;
      forall k | k in b0 && k in b1 && b1[k] != b0[k]
        ensures OthersNo(s, b0, k.0, k.1) || OthersNo(s, b0, k.1, k.0)
      {
        if k == w {
          assert w == (l1, l2) || w == (l2, l1);
        }
      }
      OnlyWritesTrans(b0, bk, b1, Cell.Yes);
    }
  }

  /** The per-pair closure over every pair of `CellPairs` is OnlyEmptyClosed. */
  lemma OnlyEmptyFromPairs(s: Shape, b: Board, ps: seq<(Label, Label)>)
    requires ps == CellPairs(s)
    requires CandidatesUpTo(s, b, ps, |ps|)
    ensures OnlyEmptyClosed(s, b)
  {
    CellPairsExact(s);
    forall a, p | Cross(s, a, p) && CellAt(b, a, p) == Cell.Empty
      ensures !OthersNo(s, b, a, p) && !OthersNo(s, b, p, a)
    {
      if a.category.index < p.category.index {
        assert (a, p) in ps;
      } else {
        assert (p, a) in ps;
        assert CellAt(b, p, a) == Cell.Empty;
      }
    }
  }

  // ----- Transitivity -----

  /** `x` and `y` are Yes with exactly the same labels. */
  ghost predicate SameRow(s: Shape, b: Board, x: Label, y: Label) {
    forall z {:trigger CellAt(b, x, z)} {:trigger CellAt(b, y, z)} ::
      s.Valid(z) ==> (CellAt(b, x, z) == Cell.Yes <==> CellAt(b, y, z) == Cell.Yes)
  }

  /** The fixpoint Transitivity leaves: two labels Yes with each other are Yes with the same labels. */
  ghost predicate TransitivityClosed(s: Shape, b: Board) {
    forall x, y {:trigger CellAt(b, x, y)} ::
      Cross(s, x, y) && CellAt(b, x, y) == Cell.Yes ==> SameRow(s, b, x, y)
  }

  /**
   * The contradiction Transitivity stops at: `x` is Yes with `y`, and a third
   * label is Yes with one of them and No with the other.
   */
  ghost predicate TransitivityBroken(s: Shape, b: Board) {
    exists x, y, z {:trigger CellAt(b, x, y), CellAt(b, x, z), CellAt(b, y, z)} ::
      Cross(s, x, y) && s.Valid(z) && CellAt(b, x, y) == Cell.Yes &&
      ((CellAt(b, x, z) == Cell.Yes && CellAt(b, y, z) == Cell.No) ||
       (CellAt(b, x, z) == Cell.No && CellAt(b, y, z) == Cell.Yes))
  }

  /** Label `w` is neither label of the pair `k` and is Yes with both of them. */
  ghost predicate SharedYes(b: Board, w: Label, k: (Label, Label)) {
    w != k.0 && w != k.1 && CellAt(b, w, k.0) == Cell.Yes && CellAt(b, w, k.1) == Cell.Yes
  }

  /**
   * Every cell that changed from `b0` to `b1` pairs two labels that are both
   * Yes with some third label on `b1`: the one reason Transitivity writes.
   */
  ghost predicate SharesJustified(s: Shape, b0: Board, b1: Board) {
    forall k :: k in b0 && k in b1 && b1[k] != b0[k] ==> exists w :: s.Valid(w) && SharedYes(b1, w, k)
  }

  /**
   * Writing Yes to an Empty `(a, z)` when `w`, of another category than
   * `a`, is Yes with both `a` and `z` is a justified write.
   */
  lemma ShareWrite(s: Shape, b: Board, b': Board, w: Label, a: Label, z: Label)
    requires WellFormed(s, b) && Cross(s, w, a) && s.Valid(z)
    requires CellAt(b, a, z) == Cell.Empty && b' == Write(b, a, z, Cell.Yes)
    requires CellAt(b, w, a) == Cell.Yes && CellAt(b, w, z) == Cell.Yes
    ensures SharesJustified(s, b, b')
  {
    var k := Canon(a, z);
    assert Canon(a, w) == Canon(w, a);
    assert SharedYes(b', w, k);
  }

  /** Justified writes compose along extensions. */
  lemma SharesTrans(s: Shape, b0: Board, b1: Board, b2: Board)
    requires Extends(b0, b1) && Extends(b1, b2)
    requires SharesJustified(s, b0, b1) && SharesJustified(s, b1, b2)
    ensures SharesJustified(s, b0, b2)
  {
    forall k | k in b0 && k in b2 && b2[k] != b0[k]
      ensures exists w :: s.Valid(w) && SharedYes(b2, w, k)
    {
      if b1[k] != b0[k] {
        var w :| s.Valid(w) && SharedYes(b1, w, k);
        ExtendsCell(b1, b2, w, k.0);
        ExtendsCell(b1, b2, w, k.1);
        assert SharedYes(b2, w, k);
      }
    }
  }

  /**
   * One `z` of Transitivity for a Yes pair `(x, y)`: `(x, z)` Yes makes
   * `(y, z)` Yes, then `(y, z)` Yes makes `(x, z)` Yes. It fails exactly when
   * one of the two is Yes and the other No, and otherwise leaves them equal
   * on Yes.
   */
  method TransitiveVia(g: Grid, x: Label, y: Label, z: Label, describe: (Label, Label, Label) -> string)
    returns (r: Option<bool>)
    requires g.Valid() && Cross(g.shape, x, y) && g.shape.Valid(z)
    modifies g, g.cells
    ensures g.Valid() && Progress(old(g.board), old(g.steps), g.board, g.steps)
    ensures OnlyWrites(old(g.board), g.board, Cell.Yes)
    ensures r.Some? ==> (r.value <==> EmptyCount(g.board) < EmptyCount(old(g.board)))
    ensures r.None? <==>
      (CellAt(old(g.board), x, z) == Cell.Yes && CellAt(old(g.board), y, z) == Cell.No) ||
      (CellAt(old(g.board), x, z) == Cell.No && CellAt(old(g.board), y, z) == Cell.Yes)
    ensures r.None? ==> g.board == old(g.board)
    ensures r.Some? ==> (CellAt(g.board, x, z) == Cell.Yes <==> CellAt(g.board, y, z) == Cell.Yes)
    ensures ChangesOnly(old(g.board), g.board, {}, {Canon(x, z), Canon(y, z)})
    ensures CellAt(old(g.board), x, y) == Cell.Yes ==> SharesJustified(g.shape, old(g.board), g.board)
    ensures (CellAt(old(g.board), x, z) == Cell.Yes <==> CellAt(old(g.board), y, z) == Cell.Yes) ==>
      r == Some(false) && g.board == old(g.board)
  {
    ghost var b0, st0 := g.board, g.steps;
    var changed := false;
    if g.At(x, z) == Cell.Yes {
      var t := g.SetWithCallback(y, z, Cell.Yes, describe(y, z, x));
      if t.None? {
        return None;
      }
      changed := t.value;
      if t.value && CellAt(b0, x, y) == Cell.Yes {
        ShareWrite(g.shape, b0, g.board, x, y, z);
      }
    }
    ghost var b1, st1 := g.board, g.steps;
    ExtendsCell(b0, b1, x, z);
    ExtendsCell(b0, b1, x, y);
    if g.At(y, z) == Cell.Yes {
      var t := g.SetWithCallback(x, z, Cell.Yes, describe(x, z, y));
      if t.None? {
        return None;
      }
      changed := changed || t.value;
      ExtendsCell(b1, g.board, y, z);
      if t.value && CellAt(b0, x, y) == Cell.Yes {
        ShareWrite(g.shape, b1, g.board, y, x, z);
      }
    }
    if CellAt(b0, x, y) == Cell.Yes {
      SharesTrans(g.shape, b0, b1, g.board);
    }
    ProgressTrans(b0, st0, b1, st1, g.board, g.steps);
    OnlyWritesTrans(b0, b1, g.board, Cell.Yes);
    EmptyCountExtends(b0, b1);
    EmptyCountExtends(b1, g.board);
    r := Some(changed);
  }

  /**
   * One pair of Transitivity: when `(x, y)` is Yes, `TransitiveVia` for every
   * label `z` of the grid in order. A pair that is not Yes is left alone.
   * For a Yes pair, `x` and `y` end Yes with the same labels, and reporting
   * no change means they already were. Only cells of `x` and `y` change,
   * each to Yes and each for a label Yes with both of its labels.
   */
  method TransitivityAt(g: Grid, x: Label, y: Label, describe: (Label, Label, Label) -> string)
    returns (r: Option<bool>)
    requires g.Valid() && Cross(g.shape, x, y)
    modifies g, g.cells
    ensures g.Valid() && Progress(old(g.board), old(g.steps), g.board, g.steps)
    ensures OnlyWrites(old(g.board), g.board, Cell.Yes)
    ensures r.Some? ==> (r.value <==> EmptyCount(g.board) < EmptyCount(old(g.board)))
    ensures r == Some(false) && CellAt(old(g.board), x, y) == Cell.Yes ==> SameRow(g.shape, old(g.board), x, y)
    ensures r.Some? && CellAt(old(g.board), x, y) == Cell.Yes ==> SameRow(g.shape, g.board, x, y)
    ensures r.None? ==> TransitivityBroken(g.shape, g.board)
    ensures CellAt(old(g.board), x, y) != Cell.Yes ==> r == Some(false) && g.board == old(g.board)
    ensures ChangesOnly(old(g.board), g.board, {x, y}, {})
    ensures SharesJustified(g.shape, old(g.board), g.board)
    ensures (CellAt(old(g.board), x, y) == Cell.Yes ==> SameRow(g.shape, old(g.board), x, y)) ==>
      r == Some(false) && g.board == old(g.board)
  {
    if g.At(x, y) == Cell.Yes {
      r := TransitiveAll(g, x, y, describe);
    } else {
      r := Some(false);
    }
  }

  /** The loop of Transitivity over every label `z` for a pair `(x, y)` found Yes. */
  method TransitiveAll(g: Grid, x: Label, y: Label, describe: (Label, Label, Label) -> string)
    returns (r: Option<bool>)
    requires g.Valid() && Cross(g.shape, x, y) && CellAt(g.board, x, y) == Cell.Yes
    modifies g, g.cells
    ensures g.Valid() && Progress(old(g.board), old(g.steps), g.board, g.steps)
    ensures OnlyWrites(old(g.board), g.board, Cell.Yes)
    ensures r.Some? ==> (r.value <==> EmptyCount(g.board) < EmptyCount(old(g.board)))
    ensures r == Some(false) ==> SameRow(g.shape, old(g.board), x, y)
    ensures r.Some? ==> SameRow(g.shape, g.board, x, y)
    ensures r.None? ==> TransitivityBroken(g.shape, g.board)
    ensures ChangesOnly(old(g.board), g.board, {x, y}, {})
    ensures SharesJustified(g.shape, old(g.board), g.board)
    ensures SameRow(g.shape, old(g.board), x, y) ==> r == Some(false) && g.board == old(g.board)
  {
    ghost var b0, st0 := g.board, g.steps;
    var s := g.shape;
    var changed := false;
    var ls := Labels(s);
    LabelsEnumerate(s);
    for i := 0 to |ls|
      invariant g.Valid() && g.shape == s && Progress(b0, st0, g.board, g.steps)
      invariant OnlyWrites(b0, g.board, Cell.Yes)
      invariant changed <==> EmptyCount(g.board) < EmptyCount(b0)
      invariant !changed ==> g.board == b0
      invariant CellAt(g.board, x, y) == Cell.Yes
      invariant AgreeUpTo(g.board, x, y, ls, i)
      invariant ChangesOnly(b0, g.board, {x, y}, {})
      invariant SharesJustified(s, b0, g.board)
      invariant SameRow(s, b0, x, y) ==> !changed
    {
      ghost var bk, stk := g.board, g.steps;
      var t := TransitiveVia(g, x, y, ls[i], describe);
      if t.None? {
        assert CellAt(g.board, x, ls[i]) == Cell.Yes || CellAt(g.board, x, ls[i]) == Cell.No;
        return None;
      }
      changed := changed || t.value;
      ProgressTrans(b0, st0, bk, stk, g.board, g.steps);
      OnlyWritesTrans(b0, bk, g.board, Cell.Yes);
      EmptyCountExtends(b0, bk);
      EmptyCountExtends(bk, g.board);
      ExtendsCell(bk, g.board, x, y);
      AgreeKept(bk, g.board, x, y, ls, i);
      AgreeNext(g.board, x, y, ls, i);
      ViaFrame(b0, bk, g.board, x, y, ls[i]);
      SharesTrans(s, b0, bk, g.board);
    }
    AgreeAll(s, g.board, x, y);
    r := Some(changed);
  }

  /** A step confined to the cells of `x` and `y` with `z` stays within the rows of `x` and `y`. */
  lemma ViaFrame(b0: Board, bk: Board, b1: Board, x: Label, y: Label, z: Label)
    requires b0.Keys == bk.Keys && ChangesOnly(b0, bk, {x, y}, {})
    requires ChangesOnly(bk, b1, {}, {Canon(x, z), Canon(y, z)})
    ensures ChangesOnly(b0, b1, {x, y}, {})
  {
    ChangesOnlyWiden(bk, b1, {}, {Canon(x, z), Canon(y, z)}, {x, y}, {Canon(x, z), Canon(y, z)});
    ChangesOnlyTrans(b0, bk, b1, {x, y}, {Canon(x, z), Canon(y, z)});
  }

  /** `x` and `y` are Yes with the same labels among the first `i` of `ls`. */
  ghost predicate AgreeUpTo(b: Board, x: Label, y: Label, ls: seq<Label>, i: nat) {
    i <= |ls| &&
    forall i' :: 0 <= i' < i ==> (CellAt(b, x, ls[i']) == Cell.Yes <==> CellAt(b, y, ls[i']) == Cell.Yes)
  }

  /** Agreeing on label `i` as well extends the agreement by one label. */
  lemma AgreeNext(b: Board, x: Label, y: Label, ls: seq<Label>, i: nat)
    requires AgreeUpTo(b, x, y, ls, i) && i < |ls|
    requires CellAt(b, x, ls[i]) == Cell.Yes <==> CellAt(b, y, ls[i]) == Cell.Yes
    ensures AgreeUpTo(b, x, y, ls, i + 1)
  {
  }

  /**
   * A step that writes only the cells of `x` and `y` with label `i` keeps
   * the agreement on the labels before `i`: those cells are other cells,
   * except `(x, y)` itself, which is already Yes.
   */
  lemma AgreeKept(b: Board, b': Board, x: Label, y: Label, ls: seq<Label>, i: nat)
    requires AgreeUpTo(b, x, y, ls, i) && i < |ls| && Distinct(ls)
    requires Extends(b, b') && ChangesOnly(b, b', {}, {Canon(x, ls[i]), Canon(y, ls[i])})
    requires x != y && CellAt(b, x, y) == Cell.Yes
    ensures AgreeUpTo(b', x, y, ls, i)
  {
    forall i' | 0 <= i' < i
      ensures CellAt(b', x, ls[i']) == Cell.Yes <==> CellAt(b', y, ls[i']) == Cell.Yes
    {
      var z := ls[i'];
      assert z != ls[i];
      ExtendsCell(b, b', x, z);
      ExtendsCell(b, b', y, z);
    }
  }

  /** Agreeing on every label of the grid is having the same row. */
  lemma AgreeAll(s: Shape, b: Board, x: Label, y: Label)
    requires AgreeUpTo(b, x, y, Labels(s), |Labels(s)|)
    ensures SameRow(s, b, x, y)
  {
    LabelsEnumerate(s);
    forall z | s.Valid(z)
      ensures CellAt(b, x, z) == Cell.Yes <==> CellAt(b, y, z) == Cell.Yes
    {
      assert Labels(s)[Index(s.perCategory, z)] == z;
    }
  }

  /**
   * Transitivity (rule.rs): writes only Yes, each to a pair of labels both Yes
   * with a third, and reports a change exactly when it made one; reporting no
   * change means the board was already closed under it, and failing means it
   * holds a Yes pair with a label Yes with one of them and No with the other.
   */
  method Transitivity(g: Grid, describe: (Label, Label, Label) -> string) returns (r: Option<bool>)
    requires g.Valid()
    modifies g, g.cells
    ensures g.Valid() && Progress(old(g.board), old(g.steps), g.board, g.steps)
    ensures OnlyWrites(old(g.board), g.board, Cell.Yes)
    ensures r.Some? ==> (r.value <==> g.board != old(g.board))
    ensures r == Some(false) ==> TransitivityClosed(g.shape, g.board)
    ensures r.None? ==> TransitivityBroken(g.shape, g.board)
    ensures SharesJustified(g.shape, old(g.board), g.board)
    ensures TransitivityClosed(g.shape, old(g.board)) ==> r == Some(false) && g.board == old(g.board)
  {
    ghost var b0, st0 := g.board, g.steps;
    var s := g.shape;
    var ps := CellPairs(s);
    CellPairsExact(s);
    var changed := false;
    for k := 0 to |ps|
      invariant g.Valid() && g.shape == s && Progress(b0, st0, g.board, g.steps)
      invariant OnlyWrites(b0, g.board, Cell.Yes)
      invariant changed <==> EmptyCount(g.board) < EmptyCount(b0)
      invariant !changed ==> g.board == b0
      invariant !changed ==> SameRowsUpTo(s, b0, ps, k)
      invariant SharesJustified(s, b0, g.board)
      invariant TransitivityClosed(s, b0) ==> !changed
    {
      ghost var bk, stk := g.board, g.steps;
      assert ps[k] in ps;
      var t := TransitivityAt(g, ps[k].0, ps[k].1, describe);
      SharesTrans(s, b0, bk, g.board);
      if t.None? {
        return None;
      }
      changed := changed || t.value;
      ProgressTrans(b0, st0, bk, stk, g.board, g.steps);
      OnlyWritesTrans(b0, bk, g.board, Cell.Yes);
      EmptyCountExtends(b0, bk);
      EmptyCountExtends(bk, g.board);
      if !changed {
        assert bk == b0 && g.board == b0;
        SameRowsNext(s, b0, ps, k);
      }
    }
    EmptyCountExtends(b0, g.board);
    if !changed {
      TransitivityFromPairs(s, b0, ps);
    }
    r := Some(changed);
  }

  /** Every pair among the first `k` of `ps` that is Yes has the same row on `b`. */
  ghost predicate SameRowsUpTo(s: Shape, b: Board, ps: seq<(Label, Label)>, k: nat) {
    k <= |ps| &&
    forall i :: 0 <= i < k && CellAt(b, ps[i].0, ps[i].1) == Cell.Yes ==> SameRow(s, b, ps[i].0, ps[i].1)
  }

  /** Pair `k` having the same row when Yes extends the prefix by one pair. */
  lemma SameRowsNext(s: Shape, b: Board, ps: seq<(Label, Label)>, k: nat)
    requires SameRowsUpTo(s, b, ps, k) && k < |ps|
    requires CellAt(b, ps[k].0, ps[k].1) == Cell.Yes ==> SameRow(s, b, ps[k].0, ps[k].1)
    ensures SameRowsUpTo(s, b, ps, k + 1)
  {
  }

  /** The per-pair closure over every pair of `CellPairs` is TransitivityClosed. */
  lemma TransitivityFromPairs(s: Shape, b: Board, ps: seq<(Label, Label)>)
    requires ps == CellPairs(s)
    requires SameRowsUpTo(s, b, ps, |ps|)
    ensures TransitivityClosed(s, b)
  {
    CellPairsExact(s);
    forall x, y | Cross(s, x, y) && CellAt(b, x, y) == Cell.Yes
      ensures SameRow(s, b, x, y)
    {
      if x.category.index < y.category.index {
        assert (x, y) in ps;
      } else {
        assert (y, x) in ps;
        assert CellAt(b, y, x) == Cell.Yes;
        assert SameRow(s, b, y, x);
      }
    }
  }

  // ----- NoByProxy -----

  /** Some label of category `c` is not No with `x` and not No with `y`. */
  ghost predicate PathVia(s: Shape, b: Board, x: Label, y: Label, c: Category) {
    exists i {:trigger CellAt(b, x, Label(c, i)), CellAt(b, y, Label(c, i))} ::
      0 <= i < s.perCategory && CellAt(b, x, Label(c, i)) != Cell.No && CellAt(b, y, Label(c, i)) != Cell.No
  }

  /** Every category other than those of `x` and `y` offers a label both could share. */
  ghost predicate Reconcilable(s: Shape, b: Board, x: Label, y: Label) {
    forall c {:trigger PathVia(s, b, x, y, Category(c))} ::
      0 <= c < s.categories && c != x.category.index && c != y.category.index ==>
        PathVia(s, b, x, y, Category(c))
  }

  /** The fixpoint NoByProxy leaves: every cross pair that is not Reconcilable is No. */
  ghost predicate ProxyClosed(s: Shape, b: Board) {
    forall x, y {:trigger CellAt(b, x, y)} ::
      Cross(s, x, y) && !Reconcilable(s, b, x, y) ==> CellAt(b, x, y) == Cell.No
  }

  /** The contradiction NoByProxy stops at: a Yes cross pair that is not Reconcilable. */
  ghost predicate ProxyBroken(s: Shape, b: Board) {
    exists x, y {:trigger CellAt(b, x, y)} ::
      Cross(s, x, y) && CellAt(b, x, y) == Cell.Yes && !Reconcilable(s, b, x, y)
  }

  /** Every cell that changed from `b0` to `b1` is a pair that is not Reconcilable on `b1`. */
  ghost predicate ProxiesJustified(s: Shape, b0: Board, b1: Board) {
    forall k :: k in b0 && k in b1 && b1[k] != b0[k] ==> !Reconcilable(s, b1, k.0, k.1)
  }

  /** Paths only disappear as the board is extended. */
  lemma ReconcilableExtends(s: Shape, b0: Board, b1: Board, x: Label, y: Label)
    requires Extends(b0, b1)
    ensures Reconcilable(s, b1, x, y) ==> Reconcilable(s, b0, x, y)
  {
    forall c | Reconcilable(s, b1, x, y) && 0 <= c < s.categories && c != x.category.index && c != y.category.index
      ensures PathVia(s, b0, x, y, Category(c))
    {
      assert PathVia(s, b1, x, y, Category(c));
      var i :| 0 <= i < s.perCategory && CellAt(b1, x, Label(Category(c), i)) != Cell.No &&
        CellAt(b1, y, Label(Category(c), i)) != Cell.No;
      ExtendsCell(b0, b1, x, Label(Category(c), i));
      ExtendsCell(b0, b1, y, Label(Category(c), i));
    }
  }

  /** Reconcilable does not depend on the order of the pair. */
  lemma ReconcilableSymmetric(s: Shape, b: Board, x: Label, y: Label)
    ensures Reconcilable(s, b, x, y) <==> Reconcilable(s, b, y, x)
  {
    forall c
      ensures PathVia(s, b, x, y, Category(c)) <==> PathVia(s, b, y, x, Category(c))
    {
      if PathVia(s, b, x, y, Category(c)) {
        var i :| 0 <= i < s.perCategory && CellAt(b, x, Label(Category(c), i)) != Cell.No &&
          CellAt(b, y, Label(Category(c), i)) != Cell.No;
        assert CellAt(b, y, Label(Category(c), i)) != Cell.No && CellAt(b, x, Label(Category(c), i)) != Cell.No;
      }
      if PathVia(s, b, y, x, Category(c)) {
        var i :| 0 <= i < s.perCategory && CellAt(b, y, Label(Category(c), i)) != Cell.No &&
          CellAt(b, x, Label(Category(c), i)) != Cell.No;
        assert CellAt(b, x, Label(Category(c), i)) != Cell.No && CellAt(b, y, Label(Category(c), i)) != Cell.No;
      }
    }
  }

  /**
   * The loop of NoByProxy over category `c`: looks for a label of `c` that is
   * not No with `x` nor with `y`, stopping at the first; it changes nothing.
   */
  method HasPath(g: Grid, x: Label, y: Label, c: Category) returns (hasPath: bool)
    requires g.Valid() && g.shape.Valid(x) && g.shape.Valid(y) && c.index < g.shape.categories
    ensures hasPath <==> PathVia(g.shape, g.board, x, y, c)
  {
    var s := g.shape;
    hasPath := false;
    for i := 0 to s.perCategory
      invariant forall i' :: 0 <= i' < i ==>
        !(CellAt(g.board, x, Label(c, i')) != Cell.No && CellAt(g.board, y, Label(c, i')) != Cell.No)
    {
      var z := Label(c, i);
      if g.At(x, z) != Cell.No && g.At(y, z) != Cell.No {
        hasPath := true;
        break;
      }
    }
  }

  /**
   * One pair of NoByProxy: the first category other than those of `x` and
   * `y` without a path makes `(x, y)` No, and the remaining categories are
   * not looked at.
   */
  method NoByProxyAt(g: Grid, x: Label, y: Label, describe: (Label, Label, Category) -> string)
    returns (r: Option<bool>)
    requires g.Valid() && g.shape.Valid(x) && g.shape.Valid(y)
    modifies g, g.cells
    ensures g.Valid() && Progress(old(g.board), old(g.steps), g.board, g.steps)
    ensures OnlyWrites(old(g.board), g.board, Cell.No)
    ensures r.Some? ==> (r.value <==> EmptyCount(g.board) < EmptyCount(old(g.board)))
    ensures g.board != old(g.board) ==>
      x.category != y.category && !Reconcilable(g.shape, old(g.board), x, y) &&
      g.board == Write(old(g.board), x, y, Cell.No)
    ensures r.Some? && x.category != y.category && !Reconcilable(g.shape, old(g.board), x, y) ==>
      CellAt(g.board, x, y) == Cell.No
    ensures r.None? ==>
      g.board == old(g.board) && x.category != y.category &&
      CellAt(g.board, x, y) == Cell.Yes && !Reconcilable(g.shape, g.board, x, y)
  {
    ghost var b0, st0 := g.board, g.steps;
    var s := g.shape;
    if x.category == y.category {
      return Some(false);
    }
    for c := 0 to s.categories
      invariant g.Valid() && g.shape == s && g.board == b0 && g.steps == st0
      invariant forall c' {:trigger PathVia(s, g.board, x, y, Category(c'))} ::
        0 <= c' < c && c' != x.category.index && c' != y.category.index ==>
          PathVia(s, g.board, x, y, Category(c'))
    {
      if c == x.category.index || c == y.category.index {
        continue;
      }
      var hasPath := HasPath(g, x, y, Category(c));
      if !hasPath {
        assert !Reconcilable(s, g.board, x, y);
        r := g.SetWithCallback(x, y, Cell.No, describe(x, y, Category(c)));
        EmptyCountExtends(b0, g.board);
        return;
      }
    }
    r := Some(false);
  }

  /**
   * NoByProxy (rule.rs): writes only No, each into a pair that is not
   * Reconcilable on the final board, and reports a change exactly when it
   * made one; reporting no change means the board was already closed under
   * it, and failing means it holds a Yes pair that is not Reconcilable.
   */
  method NoByProxy(g: Grid, describe: (Label, Label, Category) -> string) returns (r: Option<bool>)
    requires g.Valid()
    modifies g, g.cells
    ensures g.Valid() && Progress(old(g.board), old(g.steps), g.board, g.steps)
    ensures OnlyWrites(old(g.board), g.board, Cell.No)
    ensures r.Some? ==> (r.value <==> g.board != old(g.board))
    ensures ProxiesJustified(g.shape, old(g.board), g.board)
    ensures r == Some(false) ==> ProxyClosed(g.shape, g.board)
    ensures r.None? ==> ProxyBroken(g.shape, g.board)
  {
    ghost var b0, st0 := g.board, g.steps;
    var s := g.shape;
    var ps := CellPairs(s);
    CellPairsExact(s);
    var changed := false;
    for k := 0 to |ps|
      invariant g.Valid() && g.shape == s && Progress(b0, st0, g.board, g.steps)
      invariant OnlyWrites(b0, g.board, Cell.No)
      invariant changed <==> EmptyCount(g.board) < EmptyCount(b0)
      invariant ProxiesJustified(s, b0, g.board)
      invariant !changed ==> g.board == b0
      invariant !changed ==> forall i :: 0 <= i < k && !Reconcilable(s, b0, ps[i].0, ps[i].1) ==>
        CellAt(b0, ps[i].0, ps[i].1) == Cell.No
    {
      ghost var bk, stk := g.board, g.steps;
      assert ps[k] in ps;
      var t := NoByProxyAt(g, ps[k].0, ps[k].1, describe);
      if t.None? {
        assert CellAt(g.board, ps[k].0, ps[k].1) == Cell.Yes;
        return None;
      }
      changed := changed || t.value;
      ProgressTrans(b0, st0, bk, stk, g.board, g.steps);
      OnlyWritesTrans(b0, bk, g.board, Cell.No);
      EmptyCountExtends(b0, bk);
      EmptyCountExtends(bk, g.board);
      ProxyStep(s, b0, bk, g.board, ps[k].0, ps[k].1);
    }
    EmptyCountExtends(b0, g.board);
    if !changed {
      ProxyFromPairs(s, b0, ps);
    }
    r := Some(changed);
  }

  /** One pair's write keeps every change since `b0` justified on the new board. */
  lemma ProxyStep(s: Shape, b0: Board, bk: Board, b1: Board, x: Label, y: Label)
    requires Extends(b0, bk) && Extends(bk, b1) && ProxiesJustified(s, b0, bk)
    requires x.category.index < y.category.index
    requires b1 != bk ==> !Reconcilable(s, bk, x, y) && b1 == Write(bk, x, y, Cell.No)
    ensures ProxiesJustified(s, b0, b1)
  {
    forall k | k in b0 && k in b1 && b1[k] != b0[k]
      ensures !Reconcilable(s, b1, k.0, k.1)
    {
      ReconcilableExtends(s, bk, b1, k.0, k.1);
      if bk[k] == b0[k] {
        assert k == (x, y);
      }
    }
  }

  /** The per-pair closure over every pair of `CellPairs` is ProxyClosed. */
  lemma ProxyFromPairs(s: Shape, b: Board, ps: seq<(Label, Label)>)
    requires ps == CellPairs(s)
    requires forall i :: 0 <= i < |ps| && !Reconcilable(s, b, ps[i].0, ps[i].1) ==> CellAt(b, ps[i].0, ps[i].1) == Cell.No
    ensures ProxyClosed(s, b)
  {
    CellPairsExact(s);
    forall x, y | Cross(s, x, y) && !Reconcilable(s, b, x, y)
      ensures CellAt(b, x, y) == Cell.No
    {
      if x.category.index < y.category.index {
        assert (x, y) in ps;
      } else {
        assert (y, x) in ps;
        ReconcilableSymmetric(s, b, x, y);
        assert CellAt(b, y, x) == Cell.No;
      }
    }
  }
}
