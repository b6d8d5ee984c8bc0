/**
 * What a board means. A solution of a puzzle puts every label in one entity
 * (a house, a person, …), one label of each category per entity; the
 * `Cell` of a pair of labels records whether they share their entity (Yes)
 * or not (No). A propagation step is sound when every cell it decides is
 * decided the way every solution compatible with the clues and the board
 * decides it. These notions are not in the source; they give the Distance
 * finding its statement.
 */
module Semantics {
  import opened Ids
  import opened Board
  import opened Constraint
  import opened Solver

  /** The entity of every label: labels of one category go to distinct entities out of `perCategory`. */
  ghost predicate Solution(s: Shape, w: Label -> nat) {
    (forall l :: s.Valid(l) ==> w(l) < s.perCategory) &&
    (forall c: Category, i: nat, j: nat {:trigger w(Label(c, i)), w(Label(c, j))} ::
      c.index < s.categories && i < s.perCategory && j < s.perCategory && w(Label(c, i)) == w(Label(c, j)) ==> i == j)
  }

  /** The cell of `(u, v)` on `b` says what `w` says about `u` and `v`, or nothing. */
  ghost predicate AgreesAt(b: Board, w: Label -> nat, u: Label, v: Label) {
    (CellAt(b, u, v) == Cell.Yes ==> w(u) == w(v)) &&
    (CellAt(b, u, v) == Cell.No ==> w(u) != w(v))
  }

  /** Every decided cell of `b` is true of `w`. */
  ghost predicate Agrees(s: Shape, b: Board, w: Label -> nat) {
    forall u, v {:trigger CellAt(b, u, v)} :: s.Valid(u) && s.Valid(v) ==> AgreesAt(b, w, u, v)
  }

  /** `Distance(x, c, y, n)` holds of `w`: the positions of `x` and `y` in `c` are `n` apart. */
  ghost predicate DistanceHolds(s: Shape, w: Label -> nat, x: Label, c: Category, y: Label, n: nat) {
    exists p: nat, q: nat {:trigger w(Label(c, p)), w(Label(c, q))} ::
      p < s.perCategory && q < s.perCategory && w(Label(c, p)) == w(x) && w(Label(c, q)) == w(y) &&
      (p == q + n || q == p + n)
  }

  /**
   * The corrected propagation of `Distance` is sound: every cell its effect
   * decides (the pair `(x, y)` itself and each `(y, c[i])`, `(x, c[i])` with
   * `i < n` copied from a No `n` positions higher) agrees with any solution
   * that satisfies the constraint and the board it started from.
   */
  lemma DistanceSound(s: Shape, b0: Board, b1: Board, w: Label -> nat, x: Label, c: Category, y: Label, n: nat)
    requires s.Valid(x) && s.Valid(y) && c.index < s.categories && 0 < n && 2 * n <= s.perCategory
    requires Solution(s, w) && Agrees(s, b0, w) && DistanceHolds(s, w, x, c, y, n)
    requires DistanceEffect(s, b0, b1, x, c, y, n)
    ensures AgreesAt(b1, w, x, y)
    ensures forall i: nat {:trigger Label(c, i)} :: i < n && CellAt(b0, x, Label(c, i + n)) == Cell.No ==> AgreesAt(b1, w, y, Label(c, i))
    ensures forall i: nat {:trigger Label(c, i)} :: i < n && CellAt(b0, y, Label(c, i + n)) == Cell.No ==> AgreesAt(b1, w, x, Label(c, i))
  {
    LowSound(s, b0, b1, w, x, c, y, n);
    DistanceSymmetric(s, w, x, c, y, n);
    LowSound(s, b0, b1, w, y, c, x, n);
    var p: nat, q: nat :| p < s.perCategory && q < s.perCategory && w(Label(c, p)) == w(x) && w(Label(c, q)) == w(y) &&
      (p == q + n || q == p + n);
    assert p != q;
  }

  /** One half of `DistanceSound`: the No copied to `(y, c[i])` from `(x, c[i + n])` is true of `w`. */
  lemma LowSound(s: Shape, b0: Board, b1: Board, w: Label -> nat, x: Label, c: Category, y: Label, n: nat)
    requires s.Valid(x) && s.Valid(y) && c.index < s.categories && 2 * n <= s.perCategory
    requires Solution(s, w) && Agrees(s, b0, w) && DistanceHolds(s, w, x, c, y, n)
    requires forall i: nat {:trigger CellAt(b1, y, Label(c, i))} ::
      (i < n && i < s.perCategory && CellAt(b0, x, Label(c, i + n)) == Cell.No) ==> CellAt(b1, y, Label(c, i)) == Cell.No
    ensures forall i: nat {:trigger Label(c, i)} :: i < n && CellAt(b0, x, Label(c, i + n)) == Cell.No ==> AgreesAt(b1, w, y, Label(c, i))
  {
    forall i: nat | i < n && CellAt(b0, x, Label(c, i + n)) == Cell.No
      ensures AgreesAt(b1, w, y, Label(c, i))
    {
      assert s.Valid(Label(c, i + n)) && AgreesAt(b0, w, x, Label(c, i + n));
      OnlyAbove(s, w, x, c, y, n, i);
      assert CellAt(b1, y, Label(c, i)) == Cell.No;
    }
  }

  /** The constraint does not depend on the order of its two labels. */
  lemma DistanceSymmetric(s: Shape, w: Label -> nat, x: Label, c: Category, y: Label, n: nat)
    requires DistanceHolds(s, w, x, c, y, n)
    ensures DistanceHolds(s, w, y, c, x, n)
  {
    var p: nat, q: nat :| p < s.perCategory && q < s.perCategory && w(Label(c, p)) == w(x) && w(Label(c, q)) == w(y) &&
      (p == q + n || q == p + n);
    assert w(Label(c, q)) == w(y) && w(Label(c, p)) == w(x);
  }

  /**
   * With `y` at a position `i < n` of `c`, `x` can only be `n` positions
   * higher: unless `x` shares an entity with `c[i + n]`, `y` is not at `i`.
   */
  lemma OnlyAbove(s: Shape, w: Label -> nat, x: Label, c: Category, y: Label, n: nat, i: nat)
    requires c.index < s.categories && 2 * n <= s.perCategory && i < n
    requires Solution(s, w) && DistanceHolds(s, w, x, c, y, n)
    ensures w(x) != w(Label(c, i + n)) ==> w(y) != w(Label(c, i))
  {
    var p: nat, q: nat :| p < s.perCategory && q < s.perCategory && w(Label(c, p)) == w(x) && w(Label(c, q)) == w(y) &&
      (p == q + n || q == p + n);
    assert w(y) == w(Label(c, i)) ==> q == i;
  }

  /** The puzzle of the counterexample: two categories of three labels. */
  const S: Shape := Shape(2, 3)
  const X: Label := Label(Category(0), 0)
  const Y: Label := Label(Category(0), 1)
  const C: Category := Category(1)

  /** The board of the counterexample: fresh, except that `X` is known to sit at position 1 of `C`. */
  function B0(): Board {
    Write(Initial(S), X, Label(C, 1), Cell.Yes)
  }

  /** Entity `p` holds position `p` of category 0, and position `(p + 1) % 3` of `C`. */
  function W(l: Label): nat {
    if l.category == C then (l.position + 2) % 3 else l.position
  }

  /**
   * `Distance(X, C, Y, 1)` as src/constraint.rs:115-134 writes it is not
   * sound: with `X` at position 1 of `C`, `Y` may sit at 2 as well as at 0,
   * and the solution `W` that puts it at 2 satisfies the constraint and the
   * board; yet the copy of the Yes at `(X, C[1])` makes `(Y, C[0])` Yes on
   * every board the as-written propagation can leave, which `W` refutes.
   */
  lemma DistanceAsWrittenUnsound()
    ensures Solution(S, W) && Agrees(S, B0(), W) && DistanceHolds(S, W, X, C, Y, 1)
    ensures 2 * 1 <= S.perCategory
    ensures forall b1 :: DistanceAsWrittenEffect(S, B0(), b1, X, C, Y, 1) ==> !AgreesAt(b1, W, Y, Label(C, 0))
  {
    SolutionW();
    InitialAgrees(S, W);
    WriteAgrees(S, Initial(S), W, X, Label(C, 1), Cell.Yes);
    assert W(Label(C, 1)) == W(X) && W(Label(C, 2)) == W(Y);
    forall b1 | DistanceAsWrittenEffect(S, B0(), b1, X, C, Y, 1) ensures !AgreesAt(b1, W, Y, Label(C, 0)) {
      assert CellAt(B0(), X, Label(C, 0 + 1)) == Cell.Yes;
      assert CellAt(b1, Y, Label(C, 0)) == Cell.Yes;
    }
  }

  /** `W` puts the labels of each category in distinct entities. */
  lemma SolutionW()
    ensures Solution(S, W)
  {
  }

  /** Every solution agrees with the fresh board: a label is itself, and two labels of one category are apart. */
  lemma InitialAgrees(s: Shape, w: Label -> nat)
    requires Solution(s, w)
    ensures Agrees(s, Initial(s), w)
  {
    InitialSeeded(s);
  }

  /** Writing into a board a value the solution agrees with keeps the board in agreement. */
  lemma WriteAgrees(s: Shape, b: Board, w: Label -> nat, x: Label, y: Label, v: Cell)
    requires Agrees(s, b, w)
    requires (v == Cell.Yes ==> w(x) == w(y)) && (v == Cell.No ==> w(x) != w(y))
    ensures Agrees(s, Write(b, x, y, v), w)
  {
    forall u, v' | s.Valid(u) && s.Valid(v') ensures AgreesAt(Write(b, x, y, v), w, u, v') {
      assert AgreesAt(b, w, u, v');
    }
  }
  // ----- what a clue says, and why a clash refutes it -----

  /**
   * `c` holds of `w`, read as the propagation of `c` reads it: the kinds that
   * place two labels in one category first write No on `(x, y)`, and
   * `TwoByTwo` writes No on `(x1, x2)` and `(y1, y2)`, so those labels go to
   * different entities.
   */
  ghost predicate Holds(s: Shape, w: Label -> nat, c: Constraint) {
    match c
    case Yes(x, y) => w(x) == w(y)
    case No(x, y) => w(x) != w(y)
    case Or(x, y, z) => w(x) == w(y) || w(x) == w(z)
    case Xor(x, y, z) => (w(x) == w(y)) != (w(x) == w(z))
    case After(x, cat, y) => w(x) != w(y) && AtLeastHolds(s, w, x, cat, y, 1)
    case AfterAtLeast(x, cat, y, n) => w(x) != w(y) && AtLeastHolds(s, w, x, cat, y, n)
    case AfterExactly(x, cat, y, n) => w(x) != w(y) && ExactlyHolds(s, w, x, cat, y, n)
    case Distance(x, cat, y, n) => w(x) != w(y) && DistanceHolds(s, w, x, cat, y, n)
    case TwoByTwo(x1, x2, y1, y2) =>
      w(x1) != w(x2) && w(y1) != w(y2) &&
      ((w(x1) == w(y1) && w(x2) == w(y2)) || (w(x1) == w(y2) && w(x2) == w(y1)))
    case ExactlyOne(ps) => |set i | 0 <= i < |ps| && w(ps[i].0) == w(ps[i].1)| == 1
  }

  /** The position of `x` in `c` is at least `n` above that of `y`. */
  ghost predicate AtLeastHolds(s: Shape, w: Label -> nat, x: Label, c: Category, y: Label, n: nat) {
    exists p: nat, q: nat {:trigger w(Label(c, p)), w(Label(c, q))} ::
      p < s.perCategory && q < s.perCategory && w(Label(c, p)) == w(x) && w(Label(c, q)) == w(y) && p >= q + n
  }

  /** The position of `x` in `c` is exactly `n` above that of `y`. */
  ghost predicate ExactlyHolds(s: Shape, w: Label -> nat, x: Label, c: Category, y: Label, n: nat) {
    exists p: nat, q: nat {:trigger w(Label(c, p)), w(Label(c, q))} ::
      p < s.perCategory && q < s.perCategory && w(Label(c, p)) == w(x) && w(Label(c, q)) == w(y) && p == q + n
  }

  /**
   * What `apply` reports as a contradiction is one: no solution that agrees
   * with the board satisfies the constraint.
   */
  lemma ContradictedRefutes(s: Shape, c: Constraint, b: Board, w: Label -> nat)
    requires Admissible(s, c) && Solution(s, w) && Agrees(s, b, w) && Holds(s, w, c)
    ensures !Contradicted(s, c, b)
  {
    match c
    case Yes(x, y) => assert AgreesAt(b, w, x, y);
    case No(x, y) => assert AgreesAt(b, w, x, y);
    case Or(x, y, z) => OrRefutes(s, b, w, x, y, z);
    case Xor(x, y, z) => XorRefutes(s, b, w, x, y, z);
    case After(x, cat, y) => AtLeastRefutes(s, b, w, x, cat, y, 1);
    case AfterAtLeast(x, cat, y, n) => AtLeastRefutes(s, b, w, x, cat, y, n);
    case AfterExactly(x, cat, y, n) => ExactlyRefutes(s, b, w, x, cat, y, n);
    case Distance(x, cat, y, n) => DistanceRefutes(s, b, w, x, cat, y, n);
    case TwoByTwo(x1, x2, y1, y2) =>
      assert AgreesAt(b, w, x1, x2) && AgreesAt(b, w, y1, y2);
      XorRefutes(s, b, w, x1, y1, y2);
      XorRefutes(s, b, w, x2, y1, y2);
    case ExactlyOne(_) =>
  }

  /** A clash of `Or(x, y, z)` leaves `x` neither `y` nor `z`. */
  lemma OrRefutes(s: Shape, b: Board, w: Label -> nat, x: Label, y: Label, z: Label)
    requires s.Valid(x) && s.Valid(y) && s.Valid(z) && Agrees(s, b, w)
    requires w(x) == w(y) || w(x) == w(z)
    ensures !OrClash(s, b, x, y, z)
  {
    assert AgreesAt(b, w, x, y) && AgreesAt(b, w, x, z);
    forall a | s.Valid(a) && CellAt(b, a, x) == Cell.Yes
      ensures CellAt(b, a, y) != Cell.No || CellAt(b, a, z) != Cell.No
    {
      assert AgreesAt(b, w, a, x) && AgreesAt(b, w, a, y) && AgreesAt(b, w, a, z);
    }
  }

  /** A clash of `Xor(x, y, z)` leaves `x` both or neither of `y` and `z`. */
  lemma XorRefutes(s: Shape, b: Board, w: Label -> nat, x: Label, y: Label, z: Label)
    requires s.Valid(x) && s.Valid(y) && s.Valid(z) && Agrees(s, b, w)
    requires (w(x) == w(y)) != (w(x) == w(z))
    ensures !XorClash(s, b, x, y, z)
  {
    assert AgreesAt(b, w, x, y) && AgreesAt(b, w, x, z) && AgreesAt(b, w, y, z);
    forall a | s.Valid(a) && a.category != x.category && CellAt(b, x, a) == Cell.Yes
      ensures !(CellAt(b, y, a) == Cell.No && CellAt(b, z, a) == Cell.No)
      ensures !(CellAt(b, y, a) == Cell.Yes && CellAt(b, z, a) == Cell.Yes)
    {
      assert AgreesAt(b, w, x, a) && AgreesAt(b, w, y, a) && AgreesAt(b, w, z, a);
    }
  }

  /**
   * A clash of `AfterAtLeast(x, c, y, n)` leaves no room: `x` at a position
   * `i` of `c` needs `y` at or below `i - n`, and `y` at `i` needs `x` at or
   * above `i + n`.
   */
  lemma AtLeastRefutes(s: Shape, b: Board, w: Label -> nat, x: Label, c: Category, y: Label, n: nat)
    requires s.Valid(x) && s.Valid(y) && c.index < s.categories && Solution(s, w) && Agrees(s, b, w)
    requires w(x) != w(y) && AtLeastHolds(s, w, x, c, y, n)
    ensures !AfterAtLeastClash(s, b, x, c, y, n)
  {
    var p: nat, q: nat :| p < s.perCategory && q < s.perCategory && w(Label(c, p)) == w(x) && w(Label(c, q)) == w(y) && p >= q + n;
    assert AgreesAt(b, w, x, y);
    AtLeastForwardRefutes(s, b, w, x, c, y, n, p, q);
    AtLeastBackwardRefutes(s, b, w, x, c, y, n, p, q);
  }

  /** `x` sits at `p`, at least `n` above `y` at `q`: only `p` holds `x`, and `y` is not ruled out at `q <= p - n`. */
  lemma AtLeastForwardRefutes(s: Shape, b: Board, w: Label -> nat, x: Label, c: Category, y: Label, n: nat, p: nat, q: nat)
    requires s.Valid(x) && s.Valid(y) && c.index < s.categories && Solution(s, w) && Agrees(s, b, w)
    requires p < s.perCategory && q < s.perCategory && w(Label(c, p)) == w(x) && w(Label(c, q)) == w(y) && p >= q + n
    ensures !AtLeastForwardClash(s, b, x, c, y, n)
  {
    NotNo(s, b, w, y, Label(c, q));
    forall i: nat | i < s.perCategory && CellAt(b, x, Label(c, i)) == Cell.Yes
      ensures i == p
    {
      YesSame(s, b, w, x, Label(c, i));
      SamePlace(s, w, c, i, p);
    }
  }

  /** `y` sits at `q`: only `q` holds `y`, and `x` is not ruled out at `p >= q + n`. */
  lemma AtLeastBackwardRefutes(s: Shape, b: Board, w: Label -> nat, x: Label, c: Category, y: Label, n: nat, p: nat, q: nat)
    requires s.Valid(x) && s.Valid(y) && c.index < s.categories && Solution(s, w) && Agrees(s, b, w)
    requires p < s.perCategory && q < s.perCategory && w(Label(c, p)) == w(x) && w(Label(c, q)) == w(y) && p >= q + n
    ensures !AtLeastBackwardClash(s, b, x, c, y, n)
  {
    NotNo(s, b, w, x, Label(c, p));
    forall i: nat | i < s.perCategory && CellAt(b, y, Label(c, i)) == Cell.Yes
      ensures i == q
    {
      YesSame(s, b, w, y, Label(c, i));
      SamePlace(s, w, c, i, q);
    }
  }

  /**
   * A clash of `AfterExactly(x, c, y, n)` leaves no room: `x` at `i` needs
   * `y` at `i - n`, and `y` at `i` needs `x` at `i + n`.
   */
  lemma ExactlyRefutes(s: Shape, b: Board, w: Label -> nat, x: Label, c: Category, y: Label, n: nat)
    requires s.Valid(x) && s.Valid(y) && c.index < s.categories && Solution(s, w) && Agrees(s, b, w)
    requires w(x) != w(y) && ExactlyHolds(s, w, x, c, y, n)
    ensures !AfterExactlyClash(s, b, x, c, y, n)
  {
    var p: nat, q: nat :| p < s.perCategory && q < s.perCategory && w(Label(c, p)) == w(x) && w(Label(c, q)) == w(y) && p == q + n;
    assert AgreesAt(b, w, x, y);
    ExactlyForwardRefutes(s, b, w, x, c, y, n, p, q);
    ExactlyBackwardRefutes(s, b, w, x, c, y, n, p, q);
  }

  /** `x` sits at `p = q + n` with `y` at `q`: only `p` holds `x`, and `y` is not ruled out at `q`. */
  lemma ExactlyForwardRefutes(s: Shape, b: Board, w: Label -> nat, x: Label, c: Category, y: Label, n: nat, p: nat, q: nat)
    requires s.Valid(x) && s.Valid(y) && c.index < s.categories && Solution(s, w) && Agrees(s, b, w)
    requires p < s.perCategory && q < s.perCategory && w(Label(c, p)) == w(x) && w(Label(c, q)) == w(y) && p == q + n
    ensures !ExactlyForwardClash(s, b, x, c, y, n)
  {
    NotNo(s, b, w, y, Label(c, q));
    forall i: nat | i < s.perCategory && CellAt(b, x, Label(c, i)) == Cell.Yes
      ensures i == p
    {
      YesSame(s, b, w, x, Label(c, i));
      SamePlace(s, w, c, i, p);
    }
  }

  /** `y` sits at `q` with `x` at `q + n`: only `q` holds `y`, and `x` is not ruled out at `q + n`. */
  lemma ExactlyBackwardRefutes(s: Shape, b: Board, w: Label -> nat, x: Label, c: Category, y: Label, n: nat, p: nat, q: nat)
    requires s.Valid(x) && s.Valid(y) && c.index < s.categories && Solution(s, w) && Agrees(s, b, w)
    requires p < s.perCategory && q < s.perCategory && w(Label(c, p)) == w(x) && w(Label(c, q)) == w(y) && p == q + n
    ensures !ExactlyBackwardClash(s, b, x, c, y, n)
  {
    NotNo(s, b, w, x, Label(c, p));
    forall i: nat | i < s.perCategory && CellAt(b, y, Label(c, i)) == Cell.Yes
      ensures i == q
    {
      YesSame(s, b, w, y, Label(c, i));
      SamePlace(s, w, c, i, q);
    }
  }

  /** A Yes on a board that agrees with `w` is a pair `w` puts in one entity. */
  lemma YesSame(s: Shape, b: Board, w: Label -> nat, u: Label, v: Label)
    requires s.Valid(u) && s.Valid(v) && Agrees(s, b, w) && CellAt(b, u, v) == Cell.Yes
    ensures w(u) == w(v)
  {
    assert AgreesAt(b, w, u, v);
  }

  /** A pair `w` puts in one entity is not No on a board that agrees with `w`. */
  lemma NotNo(s: Shape, b: Board, w: Label -> nat, u: Label, v: Label)
    requires s.Valid(u) && s.Valid(v) && Agrees(s, b, w) && w(u) == w(v)
    ensures CellAt(b, u, v) != Cell.No
  {
    assert AgreesAt(b, w, u, v);
  }

  /** Two positions of one category that `w` puts in one entity are one position. */
  lemma SamePlace(s: Shape, w: Label -> nat, c: Category, i: nat, j: nat)
    requires Solution(s, w) && c.index < s.categories && i < s.perCategory && j < s.perCategory
    requires w(Label(c, i)) == w(Label(c, j))
    ensures i == j
  {
  }

  /** A clash of the corrected `Distance(x, c, y, n)`: a label at `i < n` whose partner cannot be at `i + n`. */
  lemma DistanceRefutes(s: Shape, b: Board, w: Label -> nat, x: Label, c: Category, y: Label, n: nat)
    requires s.Valid(x) && s.Valid(y) && c.index < s.categories && (s.perCategory == 0 || 2 * n <= s.perCategory)
    requires Solution(s, w) && Agrees(s, b, w) && w(x) != w(y) && DistanceHolds(s, w, x, c, y, n)
    ensures !DistanceClash(s, b, x, c, y, n)
  {
    assert AgreesAt(b, w, x, y);
    DistanceSymmetric(s, w, x, c, y, n);
    LowRefutes(s, b, w, x, c, y, n);
    LowRefutes(s, b, w, y, c, x, n);
  }

  /** One half of `DistanceRefutes`: `v` at `i < n` puts `u` at `i + n`, so that cell is not No. */
  lemma LowRefutes(s: Shape, b: Board, w: Label -> nat, u: Label, c: Category, v: Label, n: nat)
    requires s.Valid(u) && s.Valid(v) && c.index < s.categories && (s.perCategory == 0 || 2 * n <= s.perCategory)
    requires Solution(s, w) && Agrees(s, b, w) && DistanceHolds(s, w, u, c, v, n)
    ensures !LowClash(s, b, u, c, v, n)
  {
    forall i: nat | i < n && i < s.perCategory && CellAt(b, v, Label(c, i)) == Cell.Yes
      ensures CellAt(b, u, Label(c, i + n)) != Cell.No
    {
      assert AgreesAt(b, w, v, Label(c, i)) && AgreesAt(b, w, u, Label(c, i + n));
      OnlyAbove(s, w, u, c, v, n, i);
    }
  }

  /**
   * When the solver stops at a clue, the clues have no solution that agrees
   * with the board it stopped on.
   */
  lemma ClueContradictedRefutes(s: Shape, clues: seq<Constraint>, b: Board, w: Label -> nat)
    requires forall i :: 0 <= i < |clues| ==> Admissible(s, clues[i])
    requires Solution(s, w) && Agrees(s, b, w)
    requires forall i :: 0 <= i < |clues| ==> Holds(s, w, clues[i])
    ensures !ClueContradicted(s, clues, b)
  {
    forall i | 0 <= i < |clues| ensures !Contradicted(s, clues[i], b) {
      ContradictedRefutes(s, clues[i], b, w);
    }
  }
}
