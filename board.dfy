/**
 * The value behind `Grid` (solver.rs): one tri-state cell per pair of labels,
 * kept for the canonical order of the pair only (the label of the lower
 * category first), which is the only half of the matrix the source reads or
 * writes. The grid class keeps such a value as its ghost abstraction.
 */
module Board {
  import opened Ids
  import opened Wrappers

  /** `Cell` in solver.rs. */
  datatype Cell = Empty | Yes | No

  /** The cells, by canonical pair of labels. */
  type Board = map<(Label, Label), Cell>

  /** A pair of valid labels whose first category is not above the second. */
  predicate Canonical(s: Shape, k: (Label, Label)) {
    s.Valid(k.0) && s.Valid(k.1) && k.0.category.index <= k.1.category.index
  }

  /** The order `Grid::indices` puts a pair in: the label of the lower category first. */
  function Canon(x: Label, y: Label): (k: (Label, Label))
    ensures k == (x, y) || k == (y, x)
    ensures k.0.category.index <= k.1.category.index
  {
    if x.category.index > y.category.index then (y, x) else (x, y)
  }

  /** `Grid::indices`: the `(row, col)` of the pair in the matrix. */
  function Indices(lpc: nat, x: Label, y: Label): (nat, nat) {
    var k := Canon(x, y);
    (Index(lpc, k.0), Index(lpc, k.1))
  }

  /** The board has exactly one cell per canonical pair of the shape. */
  ghost predicate Fits(s: Shape, b: Board) {
    forall k :: k in b <==> Canonical(s, k)
  }

  /** `Grid::at` on the value: the cell of the pair in canonical order. */
  function CellAt(b: Board, x: Label, y: Label): Cell {
    var k := Canon(x, y);
    if k in b then b[k] else Empty
  }

  /** The board with the cell of the pair replaced by `v`. */
  function Write(b: Board, x: Label, y: Label, v: Cell): Board {
    b[Canon(x, y) := v]
  }

  /** The value `Grid::new` pre-seeds for a pair. */
  function Seed(x: Label, y: Label): Cell {
    if x.category == y.category then
      if x.position == y.position then Yes else No
    else Empty
  }

  /**
   * The same-category blocks hold their seeded values: a label is itself, and no
   * two labels of one category are the same entity.
   */
  ghost predicate WellFormed(s: Shape, b: Board) {
    Fits(s, b) &&
    forall x, y {:trigger CellAt(b, x, y)} :: s.Valid(x) && s.Valid(y) && x.category == y.category ==> CellAt(b, x, y) == Seed(x, y)
  }

  /** Every decided cell of `b0` holds the same value in `b1` (write-once). */
  ghost predicate Extends(b0: Board, b1: Board) {
    b0.Keys == b1.Keys &&
    forall k :: k in b0 && b0[k] != Empty ==> b1[k] == b0[k]
  }

  /** `b1` extends `b0` and every cell that differs now holds `v`. */
  ghost predicate OnlyWrites(b0: Board, b1: Board, v: Cell) {
    Extends(b0, b1) &&
    forall k :: k in b0 && b1[k] != b0[k] ==> b1[k] == v
  }

  function EmptyKeys(b: Board): set<(Label, Label)> {
    set k | k in b && b[k] == Empty
  }

  /** Number of Empty cells: the measure the solver loop decreases. */
  function EmptyCount(b: Board): nat {
    |EmptyKeys(b)|
  }

  /** What `set_impl` reports for a cell holding `c` when asked to store `v`. */
  function SetResult(c: Cell, v: Cell): Option<bool> {
    if c == Empty then Some(true) else if c == v then Some(false) else None
  }

  /**
   * `Grid::set_impl` as a relation between the board before (`b0`) and after
   * (`b1`) and the returned value: an Empty cell takes `v` and reports a change,
   * a cell already holding `v` is left alone, and a cell holding the other value
   * is a contradiction that writes nothing.
   */
  ghost predicate SetOutcome(b0: Board, b1: Board, x: Label, y: Label, v: Cell, r: Option<bool>) {
    var c := CellAt(b0, x, y);
    if c == Empty then r == Some(true) && b1 == Write(b0, x, y, v)
    else if c == v then r == Some(false) && b1 == b0
    else r == None && b1 == b0
  }

  /** Every canonical pair of the shape. */
  function CanonicalPairs(s: Shape): set<(Label, Label)> {
    set c1, p1, c2, p2 | 0 <= c1 < s.categories && 0 <= p1 < s.perCategory &&
                         0 <= c2 < s.categories && 0 <= p2 < s.perCategory && c1 <= c2 ::
      (Label(Category(c1), p1), Label(Category(c2), p2))
  }

  /** `Grid::new` on the value: every cell holds its seed. */
  function Initial(s: Shape): (b: Board)
    ensures Fits(s, b)
  {
    CanonicalPairsExact(s);
    map k | k in CanonicalPairs(s) :: Seed(k.0, k.1)
  }

  // ----- lemmas -----

  lemma CanonicalPairsExact(s: Shape)
    ensures forall k :: k in CanonicalPairs(s) <==> Canonical(s, k)
  {
    forall k | Canonical(s, k)
      ensures k in CanonicalPairs(s)
    {
      var c1, p1, c2, p2 := k.0.category.index, k.0.position, k.1.category.index, k.1.position;
      assert k == (Label(Category(c1), p1), Label(Category(c2), p2));
    }
  }

  /**
   * The canonical order of `indices`: a cross-category pair has the same cell in
   * either order, and the row belongs to the lower category.
   */
  lemma IndicesCanonical(s: Shape, x: Label, y: Label)
    requires s.Valid(x) && s.Valid(y)
    ensures x.category != y.category ==> Indices(s.perCategory, x, y) == Indices(s.perCategory, y, x)
    ensures var rc := Indices(s.perCategory, x, y);
            rc.0 / s.perCategory <= rc.1 / s.perCategory
  {
    var lpc := s.perCategory;
    DivModUnique(lpc, x.category.index, x.position);
    DivModUnique(lpc, y.category.index, y.position);
  }

  /** `at(a, b) == at(b, a)` on a well-formed board. */
  lemma Symmetric(s: Shape, b: Board, x: Label, y: Label)
    requires WellFormed(s, b) && s.Valid(x) && s.Valid(y)
    ensures CellAt(b, x, y) == CellAt(b, y, x)
  {
  }

  /**
   * The pre-seeded board is well formed: a same-category pair is Yes exactly
   * when it is the same label and No otherwise, and every cross-category pair
   * is Empty.
   */
  lemma InitialSeeded(s: Shape)
    ensures WellFormed(s, Initial(s))
    ensures forall x, y :: s.Valid(x) && s.Valid(y) ==> CellAt(Initial(s), x, y) == Seed(x, y)
  {
    CanonicalPairsExact(s);
  }

  lemma ExtendsTrans(b0: Board, b1: Board, b2: Board)
    requires Extends(b0, b1) && Extends(b1, b2)
    ensures Extends(b0, b2)
  {
  }

  lemma OnlyWritesTrans(b0: Board, b1: Board, b2: Board, v: Cell)
    requires OnlyWrites(b0, b1, v) && OnlyWrites(b1, b2, v)
    ensures OnlyWrites(b0, b2, v)
  {
  }

  /**
   * A frame: every cell that differs between `b0` and `b1` is one of `ks` or
   * pairs a label of `ls` with some other label.
   */
  ghost predicate ChangesOnly(b0: Board, b1: Board, ls: set<Label>, ks: set<(Label, Label)>) {
    forall k :: k in b0 && k in b1 && b1[k] != b0[k] ==> k in ks || k.0 in ls || k.1 in ls
  }

  /** A narrower frame: the other label of a changed pair belongs to category `c`. */
  ghost predicate ChangesOnlyIn(b0: Board, b1: Board, ls: set<Label>, c: Category, ks: set<(Label, Label)>) {
    forall k :: k in b0 && k in b1 && b1[k] != b0[k] ==>
      k in ks || (k.0 in ls && k.1.category == c) || (k.1 in ls && k.0.category == c)
  }

  /** Writing one more cell inside the frame keeps the frame. */
  lemma ChangesOnlyStep(b0: Board, bk: Board, b1: Board, x: Label, y: Label, v: Cell, ls: set<Label>, ks: set<(Label, Label)>)
    requires ChangesOnly(b0, bk, ls, ks) && b0.Keys == bk.Keys
    requires b1 == bk || b1 == Write(bk, x, y, v)
    requires x in ls || y in ls || Canon(x, y) in ks
    ensures ChangesOnly(b0, b1, ls, ks)
  {
  }

  lemma ChangesOnlyInStep(b0: Board, bk: Board, b1: Board, x: Label, y: Label, v: Cell, ls: set<Label>, c: Category, ks: set<(Label, Label)>)
    requires ChangesOnlyIn(b0, bk, ls, c, ks) && b0.Keys == bk.Keys
    requires b1 == bk || b1 == Write(bk, x, y, v)
    requires (x in ls && y.category == c) || (y in ls && x.category == c) || Canon(x, y) in ks
    ensures ChangesOnlyIn(b0, b1, ls, c, ks)
  {
  }

  lemma ChangesOnlyTrans(b0: Board, b1: Board, b2: Board, ls: set<Label>, ks: set<(Label, Label)>)
    requires b0.Keys == b1.Keys && ChangesOnly(b0, b1, ls, ks) && ChangesOnly(b1, b2, ls, ks)
    ensures ChangesOnly(b0, b2, ls, ks)
  {
  }

  lemma ChangesOnlyInTrans(b0: Board, b1: Board, b2: Board, ls: set<Label>, c: Category, ks: set<(Label, Label)>)
    requires b0.Keys == b1.Keys && ChangesOnlyIn(b0, b1, ls, c, ks) && ChangesOnlyIn(b1, b2, ls, c, ks)
    ensures ChangesOnlyIn(b0, b2, ls, c, ks)
  {
  }

  /** A frame may always be widened. */
  lemma ChangesOnlyWiden(b0: Board, b1: Board, ls: set<Label>, ks: set<(Label, Label)>, ls': set<Label>, ks': set<(Label, Label)>)
    requires ChangesOnly(b0, b1, ls, ks) && ls <= ls' && ks <= ks'
    ensures ChangesOnly(b0, b1, ls', ks')
  {
  }

  lemma ChangesOnlyInWiden(b0: Board, b1: Board, ls: set<Label>, c: Category, ks: set<(Label, Label)>, ls': set<Label>, ks': set<(Label, Label)>)
    requires ChangesOnlyIn(b0, b1, ls, c, ks) && ls <= ls' && ks <= ks'
    ensures ChangesOnlyIn(b0, b1, ls', c, ks')
  {
  }

  /**
   * A run of No writes confined to `ls` (within category `c`) and `ks`,
   * followed by one confined to a part of `ls`, is again confined to `ls`
   * and `ks`.
   */
  lemma NoWritesWithin(b0: Board, b1: Board, b2: Board, ls: set<Label>, c: Category, ks: set<(Label, Label)>, ls': set<Label>)
    requires OnlyWrites(b0, b1, Cell.No) && ChangesOnlyIn(b0, b1, ls, c, ks)
    requires OnlyWrites(b1, b2, Cell.No) && ChangesOnlyIn(b1, b2, ls', c, {}) && ls' <= ls
    ensures OnlyWrites(b0, b2, Cell.No) && ChangesOnlyIn(b0, b2, ls, c, ks)
  {
    ChangesOnlyInWiden(b1, b2, ls', c, {}, ls, ks);
    ChangesOnlyInTrans(b0, b1, b2, ls, c, ks);
    OnlyWritesTrans(b0, b1, b2, Cell.No);
  }

  /** A decided cell keeps its value in every extension. */
  lemma ExtendsCell(b0: Board, b1: Board, x: Label, y: Label)
    requires Extends(b0, b1)
    ensures CellAt(b0, x, y) != Empty ==> CellAt(b1, x, y) == CellAt(b0, x, y)
  {
  }

  /** Write-once keeps the seeded blocks, so it keeps a board well formed. */
  lemma ExtendsWellFormed(s: Shape, b0: Board, b1: Board)
    requires WellFormed(s, b0) && Extends(b0, b1)
    ensures WellFormed(s, b1)
  {
    forall x, y | s.Valid(x) && s.Valid(y) && x.category == y.category
      ensures CellAt(b1, x, y) == Seed(x, y)
    {
      ExtendsCell(b0, b1, x, y);
    }
  }

  /** Deciding one Empty cell lowers the Empty count by exactly one. */
  lemma EmptyCountWrite(b: Board, k: (Label, Label), v: Cell)
    requires k in b && b[k] == Empty && v != Empty
    ensures EmptyCount(b[k := v]) + 1 == EmptyCount(b)
  {
    assert EmptyKeys(b[k := v]) == EmptyKeys(b) - {k};
  }

  /**
   * Extending a board never adds Empty cells, and an extension with as many Empty
   * cells as before is the same board.
   */
  lemma EmptyCountExtends(b0: Board, b1: Board)
    requires Extends(b0, b1)
    ensures EmptyCount(b1) <= EmptyCount(b0)
    ensures EmptyCount(b1) == EmptyCount(b0) ==> b1 == b0
  {
    var e0, e1 := EmptyKeys(b0), EmptyKeys(b1);
    assert e1 <= e0;
    assert e0 == e1 + (e0 - e1);
    if EmptyCount(b1) == EmptyCount(b0) {
      assert e0 - e1 == {};
      forall k | k in b0
        ensures b1[k] == b0[k]
      {
        if b0[k] == Empty {
          assert k in e0;
        }
      }
    }
  }

  /**
   * Everything a caller of `set` relies on: the board stays well formed and
   * write-once, only `v` is written, the Empty count falls by one exactly on a
   * reported change, the pair holds `v` on success and the opposite value on a
   * contradiction.
   */
  lemma SetOutcomeFacts(s: Shape, b0: Board, b1: Board, x: Label, y: Label, v: Cell, r: Option<bool>)
    requires WellFormed(s, b0) && s.Valid(x) && s.Valid(y) && v != Empty
    requires SetOutcome(b0, b1, x, y, v, r)
    ensures WellFormed(s, b1) && OnlyWrites(b0, b1, v)
    ensures r == SetResult(CellAt(b0, x, y), v)
    ensures EmptyCount(b1) + (if r == Some(true) then 1 else 0) == EmptyCount(b0)
    ensures r.Some? ==> CellAt(b1, x, y) == v
    ensures r == None ==> CellAt(b1, x, y) != Empty && CellAt(b1, x, y) != v
    ensures r != Some(true) ==> b1 == b0
  {
    if CellAt(b0, x, y) == Empty {
      EmptyCountWrite(b0, Canon(x, y), v);
    }
    ExtendsWellFormed(s, b0, b1);
  }

  // ----- iteration helpers of `Grid` -----

  /** `Grid::labels`: every label, the `i`-th being `(i / lpc, i % lpc)`. */
  function Labels(s: Shape): seq<Label> {
    if s.perCategory == 0 then []
    else seq(s.Size(), i requires 0 <= i < s.Size() => LabelAt(s.perCategory, i))
  }

  /** One row of the product behind `Grid::cells`: `x` with each later-category label of `ys`. */
  function Row(x: Label, ys: seq<Label>): seq<(Label, Label)> {
    if ys == [] then []
    else (if x.category.index < ys[0].category.index then [(x, ys[0])] else []) + Row(x, ys[1..])
  }

  function Product(xs: seq<Label>, ys: seq<Label>): seq<(Label, Label)> {
    if xs == [] then [] else Row(xs[0], ys) + Product(xs[1..], ys)
  }

  /**
   * `Grid::cells`: the product of the labels with themselves in row-major
   * order, keeping the pairs whose first category is the lower one.
   */
  function CellPairs(s: Shape): seq<(Label, Label)> {
    Product(Labels(s), Labels(s))
  }

  ghost predicate Distinct<T>(q: seq<T>) {
    forall i, j :: 0 <= i < j < |q| ==> q[i] != q[j]
  }

  /** The labels come in index order, each valid label exactly at its own index. */
  lemma LabelsEnumerate(s: Shape)
    ensures |Labels(s)| == s.Size()
    ensures forall i :: 0 <= i < |Labels(s)| ==> s.Valid(Labels(s)[i]) && Index(s.perCategory, Labels(s)[i]) == i
    ensures forall l :: s.Valid(l) ==> Index(s.perCategory, l) < s.Size() && Labels(s)[Index(s.perCategory, l)] == l
    ensures forall l :: l in Labels(s) <==> s.Valid(l)
    ensures Distinct(Labels(s))
  {
    var ls := Labels(s);
    forall i | 0 <= i < |ls|
      ensures s.Valid(ls[i]) && Index(s.perCategory, ls[i]) == i
    {
      IndexLabelAt(s, i);
    }
    forall l | s.Valid(l)
      ensures Index(s.perCategory, l) < s.Size() && ls[Index(s.perCategory, l)] == l
    {
      IndexInRange(s, l);
      LabelAtIndex(s.perCategory, l);
    }
  }

  lemma LabelsLength(s: Shape)
    ensures |Labels(s)| == s.Size()
  {
  }

  /** The `k`-th label is valid and has index `k`. */
  lemma LabelsAt(s: Shape, k: nat)
    requires k < |Labels(s)|
    ensures s.Valid(Labels(s)[k]) && Index(s.perCategory, Labels(s)[k]) == k
  {
    IndexLabelAt(s, k);
  }

  lemma {:induction false} RowMember(x: Label, ys: seq<Label>, p: (Label, Label))
    ensures p in Row(x, ys) <==> p.0 == x && p.1 in ys && x.category.index < p.1.category.index
  {
    if ys != [] {
      RowMember(x, ys[1..], p);
      assert ys == [ys[0]] + ys[1..];
    }
  }

  lemma {:induction false} ProductMember(xs: seq<Label>, ys: seq<Label>, p: (Label, Label))
    ensures p in Product(xs, ys) <==> p.0 in xs && p.1 in ys && p.0.category.index < p.1.category.index
  {
    if xs != [] {
      RowMember(xs[0], ys, p);
      ProductMember(xs[1..], ys, p);
      assert xs == [xs[0]] + xs[1..];
    }
  }

  lemma DistinctConcat<T>(a: seq<T>, b: seq<T>)
    requires Distinct(a) && Distinct(b)
    requires forall e :: e in a ==> e !in b
    ensures Distinct(a + b)
  {
    forall i, j | 0 <= i < j < |a + b|
      ensures (a + b)[i] != (a + b)[j]
    {
      if i < |a| && j >= |a| {
        assert (a + b)[i] in a && (a + b)[j] in b;
      }
    }
  }

  lemma {:induction false} RowDistinct(x: Label, ys: seq<Label>)
    requires Distinct(ys)
    ensures Distinct(Row(x, ys))
  {
    if ys != [] {
      RowDistinct(x, ys[1..]);
      forall p | p in Row(x, ys[1..])
        ensures p.1 != ys[0]
      {
        RowMember(x, ys[1..], p);
      }
      DistinctConcat(if x.category.index < ys[0].category.index then [(x, ys[0])] else [], Row(x, ys[1..]));
    }
  }

  lemma {:induction false} ProductDistinct(xs: seq<Label>, ys: seq<Label>)
    requires Distinct(xs) && Distinct(ys)
    ensures Distinct(Product(xs, ys))
  {
    if xs != [] {
      RowDistinct(xs[0], ys);
      ProductDistinct(xs[1..], ys);
      forall p | p in Row(xs[0], ys)
        ensures p !in Product(xs[1..], ys)
      {
        RowMember(xs[0], ys, p);
        ProductMember(xs[1..], ys, p);
      }
      DistinctConcat(Row(xs[0], ys), Product(xs[1..], ys));
    }
  }

  /**
   * `cells()` yields exactly the valid pairs whose first category is lower, each
   * once; so every unordered cross-category pair appears once, in one order, and
   * no same-category pair appears.
   */
  lemma CellPairsExact(s: Shape)
    ensures forall p :: p in CellPairs(s) <==>
      s.Valid(p.0) && s.Valid(p.1) && p.0.category.index < p.1.category.index
    ensures Distinct(CellPairs(s))
  {
    LabelsEnumerate(s);
    forall p
      ensures p in CellPairs(s) <==> s.Valid(p.0) && s.Valid(p.1) && p.0.category.index < p.1.category.index
    {
      ProductMember(Labels(s), Labels(s), p);
    }
    ProductDistinct(Labels(s), Labels(s));
  }
}
