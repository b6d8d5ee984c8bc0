/**
 * `Constraint` (src/constraint.rs): the clues of a puzzle and how each one
 * propagates into the grid. Every kind reads cells through `at` and writes
 * them only through `set`, OR-ing the reported changes and giving up with
 * `None` on the first contradiction.
 *
 * The effect of a kind is stated as a relation `...Effect(s, b0, b1, ...)`
 * between the board before the call and the board after it: facts about `b0`
 * (decided cells, which stay decided while the call runs) force cells of `b1`.
 */
module Constraint {
  import opened Ids
  import opened Board
  import opened Wrappers
  import opened Grid

  datatype Constraint =
    | Yes(x: Label, y: Label)
    | No(x: Label, y: Label)
    | Or(x: Label, y: Label, z: Label)
    | Xor(x: Label, y: Label, z: Label)
    | After(x: Label, c: Category, y: Label)
    | AfterAtLeast(x: Label, c: Category, y: Label, n: nat)
    | AfterExactly(x: Label, c: Category, y: Label, n: nat)
    | Distance(x: Label, c: Category, y: Label, n: nat)
    | TwoByTwo(x1: Label, x2: Label, y1: Label, y2: Label)
    | ExactlyOne(pairs: seq<(Label, Label)>)

  /**
   * The labels and categories a constraint names belong to the shape, and the
   * arithmetic of its propagation stays in range: `Distance` reads position
   * `i + n` for every `i < n`, and `ExactlyOne` computes `len - 1` on an
   * unsigned length.
   */
  predicate Admissible(s: Shape, c: Constraint) {
    match c
    case Yes(x, y) => s.Valid(x) && s.Valid(y)
    case No(x, y) => s.Valid(x) && s.Valid(y)
    case Or(x, y, z) => s.Valid(x) && s.Valid(y) && s.Valid(z)
    case Xor(x, y, z) => s.Valid(x) && s.Valid(y) && s.Valid(z)
    case After(x, cat, y) => s.Valid(x) && s.Valid(y) && cat.index < s.categories
    case AfterAtLeast(x, cat, y, _) => s.Valid(x) && s.Valid(y) && cat.index < s.categories
    case AfterExactly(x, cat, y, _) => s.Valid(x) && s.Valid(y) && cat.index < s.categories
    case Distance(x, cat, y, n) =>
      s.Valid(x) && s.Valid(y) && cat.index < s.categories && (s.perCategory == 0 || 2 * n <= s.perCategory)
    case TwoByTwo(x1, x2, y1, y2) => s.Valid(x1) && s.Valid(x2) && s.Valid(y1) && s.Valid(y2)
    case ExactlyOne(ps) => |ps| > 0 && forall i :: 0 <= i < |ps| ==> s.Valid(ps[i].0) && s.Valid(ps[i].1)
  }

  /**
   * `After`, `AfterAtLeast` do not OR their propagated writes into the
   * reported change (src/constraint.rs:69, :83); every other kind reports
   * exactly whether it decided a cell.
   */
  predicate ReportsEveryChange(c: Constraint) {
    !c.After? && !c.AfterAtLeast?
  }

  // ----- effects -----

  /** Every cell of `l` against the positions `lo .. hi - 1` of category `c` is No. */
  ghost predicate AllNo(b: Board, l: Label, c: Category, lo: int, hi: int) {
    forall j: nat :: lo <= j < hi ==> CellAt(b, l, Label(c, j)) == Cell.No
  }

  /**
   * `Or(x, y, z)`: a No on one branch forces Yes on the other, and any label
   * known to be neither `y` nor `z` is not `x`. (On a well-formed board a
   * label of `y`'s own category reads No against `y` exactly when it is a
   * different label, which is what the source tests by position.)
   */
  ghost predicate OrEffect(s: Shape, b0: Board, b1: Board, x: Label, y: Label, z: Label) {
    (CellAt(b0, x, y) == Cell.No ==> CellAt(b1, x, z) == Cell.Yes) &&
    (CellAt(b0, x, z) == Cell.No ==> CellAt(b1, x, y) == Cell.Yes) &&
    NeitherEffect(s, b0, b1, x, y, z)
  }

  /** Every label that is No against both `y` and `z` is No against `x`. */
  ghost predicate NeitherEffect(s: Shape, b0: Board, b1: Board, x: Label, y: Label, z: Label) {
    forall a ::
      (s.Valid(a) && CellAt(b0, a, y) == Cell.No && CellAt(b0, a, z) == Cell.No) ==>
      CellAt(b1, a, x) == Cell.No
  }

  /** The branch exchange of `Xor`: No on one side forces Yes on the other, Yes forces No. */
  ghost predicate XorPairEffect(b0: Board, b1: Board, x: Label, y: Label, z: Label) {
    (CellAt(b0, x, y) == Cell.No ==> CellAt(b1, x, z) == Cell.Yes) &&
    (CellAt(b0, x, z) == Cell.No ==> CellAt(b1, x, y) == Cell.Yes) &&
    (CellAt(b0, x, y) == Cell.Yes ==> CellAt(b1, x, z) == Cell.No) &&
    (CellAt(b0, x, z) == Cell.Yes ==> CellAt(b1, x, y) == Cell.No)
  }

  /**
   * The sweep of `Xor`: a label outside `x`'s category that is No with both
   * `y` and `z`, or Yes with both, is not `x`.
   */
  ghost predicate UnlikeEffect(s: Shape, b0: Board, b1: Board, x: Label, y: Label, z: Label) {
    forall w ::
      (s.Valid(w) && w.category != x.category &&
       ((CellAt(b0, y, w) == Cell.No && CellAt(b0, z, w) == Cell.No) ||
        (CellAt(b0, y, w) == Cell.Yes && CellAt(b0, z, w) == Cell.Yes))) ==>
      CellAt(b1, x, w) == Cell.No
  }

  /** `Xor(x, y, z)`: `y` and `z` are different entities and exactly one of them is `x`. */
  ghost predicate XorEffect(s: Shape, b0: Board, b1: Board, x: Label, y: Label, z: Label) {
    CellAt(b1, y, z) == Cell.No && XorPairEffect(b0, b1, x, y, z) && UnlikeEffect(s, b0, b1, x, y, z)
  }

  /**
   * The forward half of `AfterAtLeast(x, c, y, n)`: `x` cannot hold position
   * `i` of `c` while `y` is known to hold none of the positions `0 .. i - n`
   * (for `i < n` that range is empty, so `x` holds none of the first `n`).
   */
  ghost predicate AtLeastForward(s: Shape, b0: Board, b1: Board, x: Label, c: Category, y: Label, n: nat) {
    forall i: nat :: i < s.perCategory && AllNo(b0, y, c, 0, i - n + 1) ==> CellAt(b1, x, Label(c, i)) == Cell.No
  }

  /**
   * The backward half: `y` cannot hold position `i` while `x` is known to hold
   * none of the positions `i + n .. lpc - 1` (for `i + n >= lpc` that range is
   * empty, so `y` holds none of the last `n`).
   */
  ghost predicate AtLeastBackward(s: Shape, b0: Board, b1: Board, x: Label, c: Category, y: Label, n: nat) {
    forall i: nat :: i < s.perCategory && AllNo(b0, x, c, i + n, s.perCategory) ==> CellAt(b1, y, Label(c, i)) == Cell.No
  }

  /** `AfterAtLeast(x, c, y, n)`: `x` is at least `n` positions of `c` after `y`. */
  ghost predicate AfterAtLeastEffect(s: Shape, b0: Board, b1: Board, x: Label, c: Category, y: Label, n: nat) {
    CellAt(b1, x, y) == Cell.No && AtLeastForward(s, b0, b1, x, c, y, n) && AtLeastBackward(s, b0, b1, x, c, y, n)
  }

  /** The forward half of `AfterExactly`: `x` is not at `i` if `y` is known not to be at `i - n`. */
  ghost predicate ExactlyForward(s: Shape, b0: Board, b1: Board, x: Label, c: Category, y: Label, n: nat) {
    forall i: nat {:trigger CellAt(b1, x, Label(c, i))} ::
      i < s.perCategory && (i < n || CellAt(b0, y, Label(c, i - n)) == Cell.No) ==>
      CellAt(b1, x, Label(c, i)) == Cell.No
  }

  /** The backward half: `y` is not at `i` if `x` is known not to be at `i + n`. */
  ghost predicate ExactlyBackward(s: Shape, b0: Board, b1: Board, x: Label, c: Category, y: Label, n: nat) {
    forall i: nat {:trigger CellAt(b1, y, Label(c, i))} ::
      i < s.perCategory && (i + n >= s.perCategory || CellAt(b0, x, Label(c, i + n)) == Cell.No) ==>
      CellAt(b1, y, Label(c, i)) == Cell.No
  }

  /** `AfterExactly(x, c, y, n)`: `x` is exactly `n` positions of `c` after `y`. */
  ghost predicate AfterExactlyEffect(s: Shape, b0: Board, b1: Board, x: Label, c: Category, y: Label, n: nat) {
    CellAt(b1, x, y) == Cell.No && ExactlyForward(s, b0, b1, x, c, y, n) && ExactlyBackward(s, b0, b1, x, c, y, n)
  }

  /**
   * The sweep of `Distance(x, c, y, n)` over the first `n` positions of `c`,
   * as corrected: `y` at `i < n` can only have `x` at `i + n` (there is no
   * `i - n`), so a No at `(x, c[i + n])` is copied to `(y, c[i])`, and
   * symmetrically a No at `(y, c[i + n])` to `(x, c[i])`.
   */
  ghost predicate DistanceLowEffect(s: Shape, b0: Board, b1: Board, x: Label, c: Category, y: Label, n: nat) {
    (forall i: nat {:trigger CellAt(b1, y, Label(c, i))} ::
      (i < n && i < s.perCategory && CellAt(b0, x, Label(c, i + n)) == Cell.No) ==>
      CellAt(b1, y, Label(c, i)) == Cell.No) &&
    (forall i: nat {:trigger CellAt(b1, x, Label(c, i))} ::
      (i < n && i < s.perCategory && CellAt(b0, y, Label(c, i + n)) == Cell.No) ==>
      CellAt(b1, x, Label(c, i)) == Cell.No)
  }

  /** `Distance(x, c, y, n)`: `x` and `y` are `n` positions of `c` apart, in either direction. */
  ghost predicate DistanceEffect(s: Shape, b0: Board, b1: Board, x: Label, c: Category, y: Label, n: nat) {
    CellAt(b1, x, y) == Cell.No && DistanceLowEffect(s, b0, b1, x, c, y, n)
  }

  /**
   * The sweep of `Distance` as src/constraint.rs writes it: a decided
   * `(x, c[i + n])`, Yes or No, is copied to `(y, c[i])`; otherwise a decided
   * `(y, c[i + n])` is copied to `(x, c[i])`. Stated on `b0`, the second copy
   * is made unless `(x, c[i + n])` was decided during the call, in which case
   * the first one was.
   */
  ghost predicate DistanceCopyEffect(s: Shape, b0: Board, b1: Board, x: Label, c: Category, y: Label, n: nat) {
    (forall i: nat {:trigger CellAt(b1, y, Label(c, i))} ::
      (i < n && i < s.perCategory && CellAt(b0, x, Label(c, i + n)) != Cell.Empty) ==>
      CellAt(b1, y, Label(c, i)) == CellAt(b0, x, Label(c, i + n))) &&
    (forall i: nat {:trigger CellAt(b1, x, Label(c, i))} ::
      (i < n && i < s.perCategory && CellAt(b0, y, Label(c, i + n)) != Cell.Empty) ==>
      (CellAt(b1, x, Label(c, i)) == CellAt(b0, y, Label(c, i + n)) ||
       (CellAt(b1, x, Label(c, i + n)) != Cell.Empty &&
        CellAt(b1, y, Label(c, i)) == CellAt(b1, x, Label(c, i + n)))))
  }

  ghost predicate DistanceAsWrittenEffect(s: Shape, b0: Board, b1: Board, x: Label, c: Category, y: Label, n: nat) {
    CellAt(b1, x, y) == Cell.No && DistanceCopyEffect(s, b0, b1, x, c, y, n)
  }

  /** `TwoByTwo(x1, x2, y1, y2)`: two No cells and two Xors. */
  ghost predicate TwoByTwoEffect(s: Shape, b0: Board, b1: Board, x1: Label, x2: Label, y1: Label, y2: Label) {
    CellAt(b1, x1, x2) == Cell.No && CellAt(b1, y1, y2) == Cell.No &&
    XorEffect(s, b0, b1, x1, y1, y2) && XorEffect(s, b0, b1, x2, y1, y2)
  }

  /** Some listed pair is Yes on `b`. */
  ghost predicate SomeYes(b: Board, ps: seq<(Label, Label)>) {
    exists i :: 0 <= i < |ps| && CellAt(b, ps[i].0, ps[i].1) == Cell.Yes
  }

  /** How many of the listed pairs are No on `b` (a pair listed twice counts twice). */
  function NoCount(b: Board, ps: seq<(Label, Label)>): nat {
    if ps == [] then 0
    else NoCount(b, ps[..|ps| - 1]) + (if CellAt(b, ps[|ps| - 1].0, ps[|ps| - 1].1) == Cell.No then 1 else 0)
  }

  /** The cells of the listed pairs. */
  function PairKeys(ps: seq<(Label, Label)>): set<(Label, Label)> {
    set i | 0 <= i < |ps| :: Canon(ps[i].0, ps[i].1)
  }

  /**
   * `ExactlyOne(ps)`, exactly: with a Yes among the pairs every other listed
   * pair becomes No; with no Yes and all but one pair No, the Empty pairs
   * become Yes; otherwise nothing happens. No cell outside the listed pairs
   * changes.
   */
  ghost predicate ExactlyOneEffect(b0: Board, b1: Board, ps: seq<(Label, Label)>) {
    b1.Keys == b0.Keys &&
    (forall k :: k in b0 && k !in PairKeys(ps) ==> b1[k] == b0[k]) &&
    if SomeYes(b0, ps) then
      forall i :: 0 <= i < |ps| ==>
        CellAt(b1, ps[i].0, ps[i].1) == (if CellAt(b0, ps[i].0, ps[i].1) == Cell.Yes then Cell.Yes else Cell.No)
    else if NoCount(b0, ps) == |ps| - 1 then
      forall i :: 0 <= i < |ps| ==>
        CellAt(b1, ps[i].0, ps[i].1) == (if CellAt(b0, ps[i].0, ps[i].1) == Cell.Empty then Cell.Yes else CellAt(b0, ps[i].0, ps[i].1))
    else b1 == b0
  }

  /** What `apply` guarantees for each kind when it does not report a contradiction. */
  ghost predicate Propagated(s: Shape, c: Constraint, b0: Board, b1: Board) {
    match c
    case Yes(x, y) => CellAt(b1, x, y) == Cell.Yes
    case No(x, y) => CellAt(b1, x, y) == Cell.No
    case Or(x, y, z) => OrEffect(s, b0, b1, x, y, z)
    case Xor(x, y, z) => XorEffect(s, b0, b1, x, y, z)
    case After(x, cat, y) => AfterAtLeastEffect(s, b0, b1, x, cat, y, 1)
    case AfterAtLeast(x, cat, y, n) => AfterAtLeastEffect(s, b0, b1, x, cat, y, n)
    case AfterExactly(x, cat, y, n) => AfterExactlyEffect(s, b0, b1, x, cat, y, n)
    case Distance(x, cat, y, n) => DistanceEffect(s, b0, b1, x, cat, y, n)
    case TwoByTwo(x1, x2, y1, y2) => TwoByTwoEffect(s, b0, b1, x1, x2, y1, y2)
    case ExactlyOne(ps) => ExactlyOneEffect(b0, b1, ps)
  }

  // ----- contradictions: what the board shows when `apply` gives up -----
  //
  // `apply` returns `None` at the first `set` that finds the other value in
  // its cell, and writes nothing after it; each predicate below names, on the
  // board at that moment, a cell the kind had to write and the facts that made
  // it write there.

  /** `x` is known to be neither `y` nor `z`: the branch exchange of `Or` cannot succeed. */
  ghost predicate NeitherBranch(b: Board, x: Label, y: Label, z: Label) {
    CellAt(b, x, y) == Cell.No && CellAt(b, x, z) == Cell.No
  }

  /** Some label known to be neither `y` nor `z` is `x`. */
  ghost predicate NeitherClash(s: Shape, b: Board, x: Label, y: Label, z: Label) {
    exists a :: s.Valid(a) && CellAt(b, a, y) == Cell.No && CellAt(b, a, z) == Cell.No && CellAt(b, a, x) == Cell.Yes
  }

  /** `Or(x, y, z)` contradicted. */
  ghost predicate OrClash(s: Shape, b: Board, x: Label, y: Label, z: Label) {
    NeitherBranch(b, x, y, z) || NeitherClash(s, b, x, y, z)
  }

  /** `x` is known to be both `y` and `z`. */
  ghost predicate BothBranches(b: Board, x: Label, y: Label, z: Label) {
    CellAt(b, x, y) == Cell.Yes && CellAt(b, x, z) == Cell.Yes
  }

  /** A label outside `x`'s category that is neither `y` nor `z`, or both, is `x`. */
  ghost predicate UnlikeClash(s: Shape, b: Board, x: Label, y: Label, z: Label) {
    exists w :: s.Valid(w) && w.category != x.category &&
      ((CellAt(b, y, w) == Cell.No && CellAt(b, z, w) == Cell.No) ||
       (CellAt(b, y, w) == Cell.Yes && CellAt(b, z, w) == Cell.Yes)) &&
      CellAt(b, x, w) == Cell.Yes
  }

  /** `Xor(x, y, z)` contradicted. */
  ghost predicate XorClash(s: Shape, b: Board, x: Label, y: Label, z: Label) {
    CellAt(b, y, z) == Cell.Yes || NeitherBranch(b, x, y, z) || BothBranches(b, x, y, z) || UnlikeClash(s, b, x, y, z)
  }

  /** Some position `i` of `c` that the forward half of `AfterAtLeast` rules out for `x` holds `x`. */
  ghost predicate AtLeastForwardClash(s: Shape, b: Board, x: Label, c: Category, y: Label, n: nat) {
    exists i: nat :: i < s.perCategory && AllNo(b, y, c, 0, i - n + 1) && CellAt(b, x, Label(c, i)) == Cell.Yes
  }

  /** Some position `i` of `c` that the backward half rules out for `y` holds `y`. */
  ghost predicate AtLeastBackwardClash(s: Shape, b: Board, x: Label, c: Category, y: Label, n: nat) {
    exists i: nat :: i < s.perCategory && AllNo(b, x, c, i + n, s.perCategory) && CellAt(b, y, Label(c, i)) == Cell.Yes
  }

  /** `AfterAtLeast(x, c, y, n)` contradicted. */
  ghost predicate AfterAtLeastClash(s: Shape, b: Board, x: Label, c: Category, y: Label, n: nat) {
    CellAt(b, x, y) == Cell.Yes || AtLeastForwardClash(s, b, x, c, y, n) || AtLeastBackwardClash(s, b, x, c, y, n)
  }

  /** Some position the forward half of `AfterExactly` rules out for `x` holds `x`. */
  ghost predicate ExactlyForwardClash(s: Shape, b: Board, x: Label, c: Category, y: Label, n: nat) {
    exists i: nat {:trigger CellAt(b, x, Label(c, i))} ::
      i < s.perCategory && (i < n || CellAt(b, y, Label(c, i - n)) == Cell.No) && CellAt(b, x, Label(c, i)) == Cell.Yes
  }

  /** Some position the backward half of `AfterExactly` rules out for `y` holds `y`. */
  ghost predicate ExactlyBackwardClash(s: Shape, b: Board, x: Label, c: Category, y: Label, n: nat) {
    exists i: nat {:trigger CellAt(b, y, Label(c, i))} ::
      i < s.perCategory && (i + n >= s.perCategory || CellAt(b, x, Label(c, i + n)) == Cell.No) && CellAt(b, y, Label(c, i)) == Cell.Yes
  }

  /** `AfterExactly(x, c, y, n)` contradicted. */
  ghost predicate AfterExactlyClash(s: Shape, b: Board, x: Label, c: Category, y: Label, n: nat) {
    CellAt(b, x, y) == Cell.Yes || ExactlyForwardClash(s, b, x, c, y, n) || ExactlyBackwardClash(s, b, x, c, y, n)
  }

  /** Some position `i < n` of `c` that the corrected sweep of `Distance` rules out for `v` holds `v`. */
  ghost predicate LowClash(s: Shape, b: Board, u: Label, c: Category, v: Label, n: nat) {
    exists i: nat {:trigger CellAt(b, v, Label(c, i))} ::
      i < n && i < s.perCategory && CellAt(b, u, Label(c, i + n)) == Cell.No && CellAt(b, v, Label(c, i)) == Cell.Yes
  }

  /** `Distance(x, c, y, n)`, corrected, contradicted. */
  ghost predicate DistanceClash(s: Shape, b: Board, x: Label, c: Category, y: Label, n: nat) {
    CellAt(b, x, y) == Cell.Yes || LowClash(s, b, x, c, y, n) || LowClash(s, b, y, c, x, n)
  }

  /** Cell `(u, v)` is decided and holds the other value than `want`. */
  ghost predicate Opposes(b: Board, u: Label, v: Label, want: Cell) {
    CellAt(b, u, v) != Cell.Empty && CellAt(b, u, v) != want
  }

  /**
   * Some position `i < n` of `c` where a decided cell `n` positions higher,
   * which the sweep of `Distance` as written copies down, meets the other value.
   */
  ghost predicate CopyClash(s: Shape, b: Board, x: Label, c: Category, y: Label, n: nat) {
    exists i: nat {:trigger Label(c, i)} :: i < n && i < s.perCategory &&
      ((CellAt(b, x, Label(c, i + n)) != Cell.Empty && Opposes(b, y, Label(c, i), CellAt(b, x, Label(c, i + n)))) ||
       (CellAt(b, y, Label(c, i + n)) != Cell.Empty && Opposes(b, x, Label(c, i), CellAt(b, y, Label(c, i + n)))))
  }

  /** `Distance(x, c, y, n)` as written contradicted. */
  ghost predicate DistanceAsWrittenClash(s: Shape, b: Board, x: Label, c: Category, y: Label, n: nat) {
    CellAt(b, x, y) == Cell.Yes || CopyClash(s, b, x, c, y, n)
  }

  /** `TwoByTwo(x1, x2, y1, y2)` contradicted. */
  ghost predicate TwoByTwoClash(s: Shape, b: Board, x1: Label, x2: Label, y1: Label, y2: Label) {
    CellAt(b, x1, x2) == Cell.Yes || CellAt(b, y1, y2) == Cell.Yes ||
    XorClash(s, b, x1, y1, y2) || XorClash(s, b, x2, y1, y2)
  }

  /**
   * What the board shows when `apply` gives up on `c`: a cell the kind had to
   * write, with the facts that made it write there, holds the other value.
   * (`ExactlyOne` never gives up.)
   */
  ghost predicate Contradicted(s: Shape, c: Constraint, b: Board) {
    match c
    case Yes(x, y) => CellAt(b, x, y) == Cell.No
    case No(x, y) => CellAt(b, x, y) == Cell.Yes
    case Or(x, y, z) => OrClash(s, b, x, y, z)
    case Xor(x, y, z) => XorClash(s, b, x, y, z)
    case After(x, cat, y) => AfterAtLeastClash(s, b, x, cat, y, 1)
    case AfterAtLeast(x, cat, y, n) => AfterAtLeastClash(s, b, x, cat, y, n)
    case AfterExactly(x, cat, y, n) => AfterExactlyClash(s, b, x, cat, y, n)
    case Distance(x, cat, y, n) => DistanceClash(s, b, x, cat, y, n)
    case TwoByTwo(x1, x2, y1, y2) => TwoByTwoClash(s, b, x1, x2, y1, y2)
    case ExactlyOne(_) => false
  }

  /**
   * The cells `apply` may write for `c`; every other cell keeps its value, and
   * the kinds that only eliminate write only No.
   */
  ghost predicate WritesWithin(c: Constraint, b0: Board, b1: Board) {
    match c
    case Yes(x, y) => ChangesOnly(b0, b1, {}, {Canon(x, y)}) && OnlyWrites(b0, b1, Cell.Yes)
    case No(x, y) => ChangesOnly(b0, b1, {}, {Canon(x, y)}) && OnlyWrites(b0, b1, Cell.No)
    case Or(x, _, _) => ChangesOnly(b0, b1, {x}, {})
    case Xor(x, y, z) => ChangesOnly(b0, b1, {x}, {Canon(y, z)})
    case After(x, cat, y) => ChangesOnlyIn(b0, b1, {x, y}, cat, {Canon(x, y)}) && OnlyWrites(b0, b1, Cell.No)
    case AfterAtLeast(x, cat, y, _) => ChangesOnlyIn(b0, b1, {x, y}, cat, {Canon(x, y)}) && OnlyWrites(b0, b1, Cell.No)
    case AfterExactly(x, cat, y, _) => ChangesOnlyIn(b0, b1, {x, y}, cat, {Canon(x, y)}) && OnlyWrites(b0, b1, Cell.No)
    case Distance(x, cat, y, _) => ChangesOnlyIn(b0, b1, {x, y}, cat, {Canon(x, y)}) && OnlyWrites(b0, b1, Cell.No)
    case TwoByTwo(x1, x2, y1, y2) => ChangesOnly(b0, b1, {x1, x2}, {Canon(y1, y2)})
    case ExactlyOne(ps) => ChangesOnly(b0, b1, {}, PairKeys(ps))
  }

  // ----- monotonicity: an effect survives more knowledge before and more writes after -----

  lemma NeitherMono(s: Shape, b0': Board, b0: Board, b1: Board, b1': Board, x: Label, y: Label, z: Label)
    requires Extends(b0', b0) && Extends(b1, b1') && NeitherEffect(s, b0, b1, x, y, z)
    ensures NeitherEffect(s, b0', b1', x, y, z)
  {
    forall a | s.Valid(a) && CellAt(b0', a, y) == Cell.No && CellAt(b0', a, z) == Cell.No
      ensures CellAt(b1', a, x) == Cell.No
    {
      ExtendsCell(b0', b0, a, y);
      ExtendsCell(b0', b0, a, z);
      ExtendsCell(b1, b1', a, x);
    }
  }

  lemma XorPairMono(b0': Board, b0: Board, b1: Board, b1': Board, x: Label, y: Label, z: Label)
    requires Extends(b0', b0) && Extends(b1, b1') && XorPairEffect(b0, b1, x, y, z)
    ensures XorPairEffect(b0', b1', x, y, z)
  {
    ExtendsCell(b0', b0, x, y);
    ExtendsCell(b0', b0, x, z);
    ExtendsCell(b1, b1', x, y);
    ExtendsCell(b1, b1', x, z);
  }

  lemma UnlikeMono(s: Shape, b0': Board, b0: Board, b1: Board, b1': Board, x: Label, y: Label, z: Label)
    requires Extends(b0', b0) && Extends(b1, b1') && UnlikeEffect(s, b0, b1, x, y, z)
    ensures UnlikeEffect(s, b0', b1', x, y, z)
  {
    forall w | s.Valid(w) && w.category != x.category &&
      ((CellAt(b0', y, w) == Cell.No && CellAt(b0', z, w) == Cell.No) ||
       (CellAt(b0', y, w) == Cell.Yes && CellAt(b0', z, w) == Cell.Yes))
      ensures CellAt(b1', x, w) == Cell.No
    {
      ExtendsCell(b0', b0, y, w);
      ExtendsCell(b0', b0, z, w);
      ExtendsCell(b1, b1', x, w);
    }
  }

  lemma XorMono(s: Shape, b0': Board, b0: Board, b1: Board, b1': Board, x: Label, y: Label, z: Label)
    requires Extends(b0', b0) && Extends(b1, b1') && XorEffect(s, b0, b1, x, y, z)
    ensures XorEffect(s, b0', b1', x, y, z)
  {
    ExtendsCell(b1, b1', y, z);
    XorPairMono(b0', b0, b1, b1', x, y, z);
    UnlikeMono(s, b0', b0, b1, b1', x, y, z);
  }

  /** A Progress with as many Empty cells as before left the board as it was. */
  lemma ChangedIff(b0: Board, st0: seq<Step>, b1: Board, st1: seq<Step>, changed: bool)
    requires Progress(b0, st0, b1, st1)
    requires changed <==> EmptyCount(b1) < EmptyCount(b0)
    ensures changed <==> b1 != b0
  {
    EmptyCountExtends(b0, b1);
  }

  // ----- apply, one method per kind -----

  /** `Yes(x, y)`: sets the pair to Yes (the doc comment in the source says No). */
  method ApplyYes(g: Grid, x: Label, y: Label) returns (r: Option<bool>)
    requires g.Valid() && g.shape.Valid(x) && g.shape.Valid(y)
    modifies g, g.cells
    ensures g.Valid() && Progress(old(g.board), old(g.steps), g.board, g.steps)
    ensures r == SetResult(CellAt(old(g.board), x, y), Cell.Yes)
    ensures r.Some? ==> CellAt(g.board, x, y) == Cell.Yes
    ensures r.Some? ==> (r.value <==> g.board != old(g.board))
    ensures r.None? ==> CellAt(g.board, x, y) == Cell.No
    ensures r == Some(true) ==> g.board == Write(old(g.board), x, y, Cell.Yes)
    ensures r != Some(true) ==> g.board == old(g.board)
  {
    r := g.Set(x, y, Cell.Yes);
  }

  /** `No(x, y)`: sets the pair to No (the doc comment in the source says Yes). */
  method ApplyNo(g: Grid, x: Label, y: Label) returns (r: Option<bool>)
    requires g.Valid() && g.shape.Valid(x) && g.shape.Valid(y)
    modifies g, g.cells
    ensures g.Valid() && Progress(old(g.board), old(g.steps), g.board, g.steps)
    ensures r == SetResult(CellAt(old(g.board), x, y), Cell.No)
    ensures r.Some? ==> CellAt(g.board, x, y) == Cell.No
    ensures r.Some? ==> (r.value <==> g.board != old(g.board))
    ensures r.None? ==> CellAt(g.board, x, y) == Cell.Yes
    ensures r == Some(true) ==> g.board == Write(old(g.board), x, y, Cell.No)
    ensures r != Some(true) ==> g.board == old(g.board)
  {
    r := g.Set(x, y, Cell.No);
  }

  /** `Or(x, y, z)`: the branch exchange, then the sweep of labels that are neither. */
  method ApplyOr(g: Grid, x: Label, y: Label, z: Label) returns (r: Option<bool>)
    requires g.Valid() && g.shape.Valid(x) && g.shape.Valid(y) && g.shape.Valid(z)
    modifies g, g.cells
    ensures g.Valid() && Progress(old(g.board), old(g.steps), g.board, g.steps)
    ensures r.Some? ==> (r.value <==> g.board != old(g.board))
    ensures r.Some? ==> OrEffect(g.shape, old(g.board), g.board, x, y, z)
    ensures r.None? ==> OrClash(g.shape, g.board, x, y, z)
    ensures ChangesOnly(old(g.board), g.board, {x}, {})
  {
    ghost var b0, st0 := g.board, g.steps;
    var t := YesExchange(g, x, y, z);
    if t.None? { return None; }
    ghost var b1, st1 := g.board, g.steps;
    var u := EliminateNeither(g, x, y, z);
    ChangesOnlyTrans(b0, b1, g.board, {x}, {});
    if u.None? { return None; }
    ProgressTrans(b0, st0, b1, st1, g.board, g.steps);
    EmptyCountExtends(b0, b1);
    EmptyCountExtends(b1, g.board);
    ChangedIff(b0, st0, g.board, g.steps, t.value || u.value);
    ExtendsCell(b1, g.board, x, y);
    ExtendsCell(b1, g.board, x, z);
    NeitherMono(g.shape, b0, b1, g.board, g.board, x, y, z);
    return Some(t.value || u.value);
  }

  /**
   * The exchange `Or` and `Xor` share: a No against one branch is turned into
   * Yes against the other (`y` is read first).
   */
  method YesExchange(g: Grid, x: Label, y: Label, z: Label) returns (r: Option<bool>)
    requires g.Valid() && g.shape.Valid(x) && g.shape.Valid(y) && g.shape.Valid(z)
    modifies g, g.cells
    ensures g.Valid() && Progress(old(g.board), old(g.steps), g.board, g.steps)
    ensures r.Some? ==> (r.value <==> EmptyCount(g.board) < EmptyCount(old(g.board)))
    ensures r.Some? ==>
      (CellAt(old(g.board), x, y) == Cell.No ==> CellAt(g.board, x, z) == Cell.Yes) &&
      (CellAt(old(g.board), x, z) == Cell.No ==> CellAt(g.board, x, y) == Cell.Yes)
    ensures r.None? ==> NeitherBranch(g.board, x, y, z)
    ensures ChangesOnly(old(g.board), g.board, {x}, {})
  {
    ghost var b0 := g.board;
    r := Some(false);
    if g.At(x, y) == Cell.No {
      r := g.Set(x, z, Cell.Yes);
      ChangesOnlyStep(b0, b0, g.board, x, z, Cell.Yes, {x}, {});
    } else if g.At(x, z) == Cell.No {
      r := g.Set(x, y, Cell.Yes);
      ChangesOnlyStep(b0, b0, g.board, x, y, Cell.Yes, {x}, {});
    }
  }

  /**
   * The sweep of `Or` over `labels()`: every label whose cells against `y` and
   * against `z` are both No is set No against `x`.
   */
  method EliminateNeither(g: Grid, x: Label, y: Label, z: Label) returns (r: Option<bool>)
    requires g.Valid() && g.shape.Valid(x) && g.shape.Valid(y) && g.shape.Valid(z)
    modifies g, g.cells
    ensures g.Valid() && Progress(old(g.board), old(g.steps), g.board, g.steps)
    ensures r.Some? ==> (r.value <==> EmptyCount(g.board) < EmptyCount(old(g.board)))
    ensures r.Some? ==> NeitherEffect(g.shape, old(g.board), g.board, x, y, z)
    ensures r.None? ==> NeitherClash(g.shape, g.board, x, y, z)
    ensures ChangesOnly(old(g.board), g.board, {x}, {})
  {
    ghost var b0, st0 := g.board, g.steps;
    var s := g.shape;
    var changed := false;
    var ls := Labels(s);
    LabelsLength(s);
    for k := 0 to |ls|
      invariant g.Valid() && g.shape == s && Progress(b0, st0, g.board, g.steps)
      invariant changed <==> EmptyCount(g.board) < EmptyCount(b0)
      invariant forall a ::
        (s.Valid(a) && Index(s.perCategory, a) < k &&
         CellAt(b0, a, y) == Cell.No && CellAt(b0, a, z) == Cell.No) ==>
        CellAt(g.board, a, x) == Cell.No
      invariant ChangesOnly(b0, g.board, {x}, {})
    {
      var a := ls[k];
      LabelsAt(s, k);
      ghost var bk, stk := g.board, g.steps;
      var t := EliminateNeitherAt(g, x, y, z, a);
      ChangesOnlyTrans(b0, bk, g.board, {x}, {});
      if t.None? { return None; }
      ProgressTrans(b0, st0, bk, stk, g.board, g.steps);
      changed := changed || t.value;
      ExtendsCell(b0, bk, a, y);
      ExtendsCell(b0, bk, a, z);
      forall a' | s.Valid(a') && Index(s.perCategory, a') < k + 1 &&
        CellAt(b0, a', y) == Cell.No && CellAt(b0, a', z) == Cell.No
        ensures CellAt(g.board, a', x) == Cell.No
      {
        if Index(s.perCategory, a') == k {
          IndexInjective(s.perCategory, a', a);
        } else {
          ExtendsCell(bk, g.board, a', x);
        }
      }
    }
    forall a | s.Valid(a) && CellAt(b0, a, y) == Cell.No && CellAt(b0, a, z) == Cell.No
      ensures CellAt(g.board, a, x) == Cell.No
    {
      IndexInRange(s, a);
    }
    return Some(changed);
  }

  /**
   * One iteration of the sweep of `Or`, for the label `a`. For a label of
   * `y`'s (or `z`'s) own category the source compares positions instead of
   * reading the cell; on a well-formed board the two agree.
   */
  method EliminateNeitherAt(g: Grid, x: Label, y: Label, z: Label, a: Label) returns (r: Option<bool>)
    requires g.Valid() && g.shape.Valid(x) && g.shape.Valid(y) && g.shape.Valid(z) && g.shape.Valid(a)
    modifies g, g.cells
    ensures g.Valid() && Progress(old(g.board), old(g.steps), g.board, g.steps)
    ensures r.Some? ==> (r.value <==> EmptyCount(g.board) < EmptyCount(old(g.board)))
    ensures (r.Some? && CellAt(old(g.board), a, y) == Cell.No && CellAt(old(g.board), a, z) == Cell.No) ==>
      CellAt(g.board, a, x) == Cell.No
    ensures r.None? ==>
      CellAt(g.board, a, y) == Cell.No && CellAt(g.board, a, z) == Cell.No && CellAt(g.board, a, x) == Cell.Yes
    ensures ChangesOnly(old(g.board), g.board, {x}, {})
  {
    ghost var b0 := g.board;
    var first := (a.category == y.category && a.position != y.position) ||
                 (a.category != y.category && g.At(a, y) == Cell.No);
    var second := (a.category == z.category && a.position != z.position) ||
                  (a.category != z.category && g.At(a, z) == Cell.No);
    r := Some(false);
    if first && second {
      r := g.Set(a, x, Cell.No);
      ChangesOnlyStep(b0, b0, g.board, a, x, Cell.No, {x}, {});
    }
  }

  /**
   * `Xor(x, y, z)`: `y` and `z` are set apart, then the branch exchange, then
   * the sweep of labels outside `x`'s category.
   */
  method ApplyXor(g: Grid, x: Label, y: Label, z: Label) returns (r: Option<bool>)
    requires g.Valid() && g.shape.Valid(x) && g.shape.Valid(y) && g.shape.Valid(z)
    modifies g, g.cells
    ensures g.Valid() && Progress(old(g.board), old(g.steps), g.board, g.steps)
    ensures r.Some? ==> (r.value <==> EmptyCount(g.board) < EmptyCount(old(g.board)))
    ensures r.Some? ==> (r.value <==> g.board != old(g.board))
    ensures r.Some? ==> XorEffect(g.shape, old(g.board), g.board, x, y, z)
    ensures r.None? ==> XorClash(g.shape, g.board, x, y, z)
    ensures ChangesOnly(old(g.board), g.board, {x}, {Canon(y, z)})
  {
    ghost var b0, st0 := g.board, g.steps;
    var changed := false;
    var t := g.Set(y, z, Cell.No);
    ChangesOnlyStep(b0, b0, g.board, y, z, Cell.No, {x}, {Canon(y, z)});
    if t.None? { return None; }
    changed := t.value;
    ghost var b1, st1 := g.board, g.steps;
    t := XorExchange(g, x, y, z);
    ProgressTrans(b0, st0, b1, st1, g.board, g.steps);
    ChangesOnlyWiden(b1, g.board, {x}, {}, {x}, {Canon(y, z)});
    ChangesOnlyTrans(b0, b1, g.board, {x}, {Canon(y, z)});
    if t.None? { return None; }
    changed := changed || t.value;
    ghost var b2, st2 := g.board, g.steps;
    t := EliminateUnlike(g, x, y, z);
    ProgressTrans(b0, st0, b2, st2, g.board, g.steps);
    ChangesOnlyWiden(b2, g.board, {x}, {}, {x}, {Canon(y, z)});
    ChangesOnlyTrans(b0, b2, g.board, {x}, {Canon(y, z)});
    if t.None? { return None; }
    changed := changed || t.value;
    ChangedIff(b0, st0, g.board, g.steps, changed);
    ExtendsCell(b1, g.board, y, z);
    XorPairMono(b0, b1, b2, g.board, x, y, z);
    UnlikeMono(g.shape, b0, b2, g.board, g.board, x, y, z);
    return Some(changed);
  }

  /**
   * The two exchanges of `Xor`: a No against one branch is turned into Yes
   * against the other, then a Yes against one branch into No against the
   * other (each read on the current grid).
   */
  method XorExchange(g: Grid, x: Label, y: Label, z: Label) returns (r: Option<bool>)
    requires g.Valid() && g.shape.Valid(x) && g.shape.Valid(y) && g.shape.Valid(z)
    modifies g, g.cells
    ensures g.Valid() && Progress(old(g.board), old(g.steps), g.board, g.steps)
    ensures r.Some? ==> (r.value <==> EmptyCount(g.board) < EmptyCount(old(g.board)))
    ensures r.Some? ==> XorPairEffect(old(g.board), g.board, x, y, z)
    ensures r.None? ==> NeitherBranch(g.board, x, y, z) || BothBranches(g.board, x, y, z)
    ensures ChangesOnly(old(g.board), g.board, {x}, {})
  {
    ghost var b0, st0 := g.board, g.steps;
    var t := YesExchange(g, x, y, z);
    if t.None? { return None; }
    ghost var b1, st1 := g.board, g.steps;
    ExtendsCell(b0, b1, x, y);
    ExtendsCell(b0, b1, x, z);
    var u := NoExchange(g, x, y, z);
    ChangesOnlyTrans(b0, b1, g.board, {x}, {});
    if u.None? { return None; }
    ProgressTrans(b0, st0, b1, st1, g.board, g.steps);
    EmptyCountExtends(b0, b1);
    EmptyCountExtends(b1, g.board);
    ExtendsCell(b1, g.board, x, y);
    ExtendsCell(b1, g.board, x, z);
    return Some(t.value || u.value);
  }

  /** The second exchange of `Xor`: a Yes against one branch is turned into No against the other. */
  method NoExchange(g: Grid, x: Label, y: Label, z: Label) returns (r: Option<bool>)
    requires g.Valid() && g.shape.Valid(x) && g.shape.Valid(y) && g.shape.Valid(z)
    modifies g, g.cells
    ensures g.Valid() && Progress(old(g.board), old(g.steps), g.board, g.steps)
    ensures r.Some? ==> (r.value <==> EmptyCount(g.board) < EmptyCount(old(g.board)))
    ensures r.Some? ==>
      (CellAt(old(g.board), x, y) == Cell.Yes ==> CellAt(g.board, x, z) == Cell.No) &&
      (CellAt(old(g.board), x, z) == Cell.Yes ==> CellAt(g.board, x, y) == Cell.No)
    ensures r.None? ==> BothBranches(g.board, x, y, z)
    ensures ChangesOnly(old(g.board), g.board, {x}, {})
  {
    ghost var b0 := g.board;
    r := Some(false);
    if g.At(x, y) == Cell.Yes {
      r := g.Set(x, z, Cell.No);
      ChangesOnlyStep(b0, b0, g.board, x, z, Cell.No, {x}, {});
    } else if g.At(x, z) == Cell.Yes {
      r := g.Set(x, y, Cell.No);
      ChangesOnlyStep(b0, b0, g.board, x, y, Cell.No, {x}, {});
    }
  }

  /**
   * The sweep of `Xor` over `labels()`: a label outside `x`'s category that is
   * No with both `y` and `z`, or Yes with both, is set No against `x`. (The
   * source's `continue` for `x`'s own category is the negated guard here.)
   */
  method EliminateUnlike(g: Grid, x: Label, y: Label, z: Label) returns (r: Option<bool>)
    requires g.Valid() && g.shape.Valid(x) && g.shape.Valid(y) && g.shape.Valid(z)
    modifies g, g.cells
    ensures g.Valid() && Progress(old(g.board), old(g.steps), g.board, g.steps)
    ensures r.Some? ==> (r.value <==> EmptyCount(g.board) < EmptyCount(old(g.board)))
    ensures r.Some? ==> UnlikeEffect(g.shape, old(g.board), g.board, x, y, z)
    ensures r.None? ==> UnlikeClash(g.shape, g.board, x, y, z)
    ensures ChangesOnly(old(g.board), g.board, {x}, {})
  {
    ghost var b0, st0 := g.board, g.steps;
    var s := g.shape;
    var changed := false;
    var ls := Labels(s);
    LabelsLength(s);
    for k := 0 to |ls|
      invariant g.Valid() && g.shape == s && Progress(b0, st0, g.board, g.steps)
      invariant changed <==> EmptyCount(g.board) < EmptyCount(b0)
      invariant forall w ::
        (s.Valid(w) && Index(s.perCategory, w) < k && w.category != x.category &&
         ((CellAt(b0, y, w) == Cell.No && CellAt(b0, z, w) == Cell.No) ||
          (CellAt(b0, y, w) == Cell.Yes && CellAt(b0, z, w) == Cell.Yes))) ==>
        CellAt(g.board, x, w) == Cell.No
      invariant ChangesOnly(b0, g.board, {x}, {})
    {
      var w := ls[k];
      LabelsAt(s, k);
      ghost var bk, stk := g.board, g.steps;
      var t := EliminateUnlikeAt(g, x, y, z, w);
      ChangesOnlyTrans(b0, bk, g.board, {x}, {});
      if t.None? { return None; }
      ProgressTrans(b0, st0, bk, stk, g.board, g.steps);
      changed := changed || t.value;
      ExtendsCell(b0, bk, y, w);
      ExtendsCell(b0, bk, z, w);
      forall w' | s.Valid(w') && Index(s.perCategory, w') < k + 1 && w'.category != x.category &&
        ((CellAt(b0, y, w') == Cell.No && CellAt(b0, z, w') == Cell.No) ||
         (CellAt(b0, y, w') == Cell.Yes && CellAt(b0, z, w') == Cell.Yes))
        ensures CellAt(g.board, x, w') == Cell.No
      {
        if Index(s.perCategory, w') == k {
          IndexInjective(s.perCategory, w', w);
        } else {
          ExtendsCell(bk, g.board, x, w');
        }
      }
    }
    forall w | s.Valid(w) && w.category != x.category &&
      ((CellAt(b0, y, w) == Cell.No && CellAt(b0, z, w) == Cell.No) ||
       (CellAt(b0, y, w) == Cell.Yes && CellAt(b0, z, w) == Cell.Yes))
      ensures CellAt(g.board, x, w) == Cell.No
    {
      IndexInRange(s, w);
    }
    return Some(changed);
  }

  /** One iteration of the sweep of `Xor`, for the label `w`. */
  method EliminateUnlikeAt(g: Grid, x: Label, y: Label, z: Label, w: Label) returns (r: Option<bool>)
    requires g.Valid() && g.shape.Valid(x) && g.shape.Valid(y) && g.shape.Valid(z) && g.shape.Valid(w)
    modifies g, g.cells
    ensures g.Valid() && Progress(old(g.board), old(g.steps), g.board, g.steps)
    ensures r.Some? ==> (r.value <==> EmptyCount(g.board) < EmptyCount(old(g.board)))
    ensures (r.Some? && w.category != x.category &&
             ((CellAt(old(g.board), y, w) == Cell.No && CellAt(old(g.board), z, w) == Cell.No) ||
              (CellAt(old(g.board), y, w) == Cell.Yes && CellAt(old(g.board), z, w) == Cell.Yes))) ==>
      CellAt(g.board, x, w) == Cell.No
    ensures r.None? ==>
      w.category != x.category &&
      ((CellAt(g.board, y, w) == Cell.No && CellAt(g.board, z, w) == Cell.No) ||
       (CellAt(g.board, y, w) == Cell.Yes && CellAt(g.board, z, w) == Cell.Yes)) &&
      CellAt(g.board, x, w) == Cell.Yes
    ensures ChangesOnly(old(g.board), g.board, {x}, {})
  {
    ghost var b0, st0 := g.board, g.steps;
    var changed := false;
    if w.category != x.category {
      if g.At(y, w) == Cell.No && g.At(z, w) == Cell.No {
        var t := g.Set(x, w, Cell.No);
        ChangesOnlyStep(b0, b0, g.board, x, w, Cell.No, {x}, {});
        if t.None? { return None; }
        changed := t.value;
      }
      ghost var bm, stm := g.board, g.steps;
      ExtendsCell(b0, bm, y, w);
      ExtendsCell(b0, bm, z, w);
      if g.At(y, w) == Cell.Yes && g.At(z, w) == Cell.Yes {
        var t := g.Set(x, w, Cell.No);
        ChangesOnlyStep(b0, bm, g.board, x, w, Cell.No, {x}, {});
        if t.None? { return None; }
        ProgressTrans(b0, st0, bm, stm, g.board, g.steps);
        changed := changed || t.value;
      }
      ExtendsCell(bm, g.board, x, w);
    }
    return Some(changed);
  }

  lemma AllNoMono(b0: Board, b1: Board, l: Label, c: Category, lo: int, hi: int)
    requires Extends(b0, b1) && AllNo(b0, l, c, lo, hi)
    ensures AllNo(b1, l, c, lo, hi)
  {
    forall j: nat | lo <= j < hi
      ensures CellAt(b1, l, Label(c, j)) == Cell.No
    {
      ExtendsCell(b0, b1, l, Label(c, j));
    }
  }

  /** A No at position `hi` extends a run of Nos `lo .. hi - 1` by one. */
  lemma AllNoSnoc(b0: Board, b1: Board, l: Label, c: Category, lo: int, hi: nat)
    requires Extends(b0, b1) && AllNo(b0, l, c, lo, hi) && CellAt(b0, l, Label(c, hi)) == Cell.No
    ensures AllNo(b1, l, c, lo, hi + 1)
  {
    forall j: nat | lo <= j < hi + 1
      ensures CellAt(b1, l, Label(c, j)) == Cell.No
    {
      ExtendsCell(b0, b1, l, Label(c, j));
    }
  }

  /** A No at position `lo` extends a run of Nos `lo + 1 .. hi - 1` down by one. */
  lemma AllNoCons(b0: Board, b1: Board, l: Label, c: Category, lo: nat, hi: int)
    requires Extends(b0, b1) && AllNo(b0, l, c, lo + 1, hi) && CellAt(b0, l, Label(c, lo)) == Cell.No
    ensures AllNo(b1, l, c, lo, hi)
  {
    forall j: nat | lo <= j < hi
      ensures CellAt(b1, l, Label(c, j)) == Cell.No
    {
      ExtendsCell(b0, b1, l, Label(c, j));
    }
  }

  /**
   * What the first loop of `AfterAtLeast` keeps up to position `i`: the
   * forward half holds below `i`, `y` has been seen No at every position below
   * `i - n`, and only No has been written, only against `x` in category `c`.
   */
  ghost predicate ForwardSoFar(b0: Board, b: Board, x: Label, c: Category, y: Label, n: nat, i: nat) {
    ForwardNoUpTo(b0, b, x, c, y, n, i) && AllNo(b, y, c, 0, i - n) &&
    OnlyWrites(b0, b, Cell.No) && ChangesOnlyIn(b0, b, {x}, c, {})
  }

  lemma ForwardSoFarNext(b0: Board, bk: Board, b1: Board, x: Label, c: Category, y: Label, n: nat, i: nat)
    requires ForwardSoFar(b0, bk, x, c, y, n, i)
    requires OnlyWrites(bk, b1, Cell.No) && ChangesOnlyIn(bk, b1, {x}, c, {})
    requires i < n || CellAt(bk, y, Label(c, i - n)) == Cell.No
    requires CellAt(b1, x, Label(c, i)) == Cell.No
    ensures ForwardSoFar(b0, b1, x, c, y, n, i + 1)
  {
    assert Extends(bk, b1) && AllNo(bk, y, c, 0, i - n);
    if i >= n {
      AllNoSnoc(bk, b1, y, c, 0, i - n);
    }
    ForwardNoNext(b0, bk, b1, x, c, y, n, i);
    ChangesOnlyInTrans(b0, bk, b1, {x}, c, {});
    OnlyWritesTrans(b0, bk, b1, Cell.No);
  }

  /** A Yes for `x` at a position the forward half rules out is a contradiction. */
  lemma ForwardClashAt(s: Shape, b0: Board, b: Board, x: Label, c: Category, y: Label, n: nat, i: nat)
    requires ForwardSoFar(b0, b, x, c, y, n, i) && i < s.perCategory
    requires i < n || CellAt(b, y, Label(c, i - n)) == Cell.No
    requires CellAt(b, x, Label(c, i)) == Cell.Yes
    ensures AtLeastForwardClash(s, b, x, c, y, n)
  {
    if i >= n {
      AllNoSnoc(b, b, y, c, 0, i - n);
    }
  }

  /** The second loop's counterpart of `ForwardSoFar`, from position `i` up. */
  ghost predicate BackwardSoFar(b0: Board, b: Board, x: Label, c: Category, y: Label, n: nat, i: nat, lpc: nat) {
    BackwardNoFrom(b0, b, x, c, y, n, i, lpc) && AllNo(b, x, c, i + n, lpc) &&
    OnlyWrites(b0, b, Cell.No) && ChangesOnlyIn(b0, b, {y}, c, {})
  }

  lemma BackwardSoFarNext(b0: Board, bk: Board, b1: Board, x: Label, c: Category, y: Label, n: nat, i: nat, lpc: nat)
    requires BackwardSoFar(b0, bk, x, c, y, n, i + 1, lpc) && i < lpc
    requires OnlyWrites(bk, b1, Cell.No) && ChangesOnlyIn(bk, b1, {y}, c, {})
    requires i + n >= lpc || CellAt(bk, x, Label(c, i + n)) == Cell.No
    requires CellAt(b1, y, Label(c, i)) == Cell.No
    ensures BackwardSoFar(b0, b1, x, c, y, n, i, lpc)
  {
    assert Extends(bk, b1) && AllNo(bk, x, c, i + 1 + n, lpc);
    if i + n < lpc {
      AllNoCons(bk, b1, x, c, i + n, lpc);
    }
    BackwardNoNext(b0, bk, b1, x, c, y, n, i, lpc);
    ChangesOnlyInTrans(b0, bk, b1, {y}, c, {});
    OnlyWritesTrans(b0, bk, b1, Cell.No);
  }

  /** A Yes for `y` at a position the backward half rules out is a contradiction. */
  lemma BackwardClashAt(s: Shape, b0: Board, b: Board, x: Label, c: Category, y: Label, n: nat, i: nat)
    requires BackwardSoFar(b0, b, x, c, y, n, i + 1, s.perCategory) && i < s.perCategory
    requires i + n >= s.perCategory || CellAt(b, x, Label(c, i + n)) == Cell.No
    requires CellAt(b, y, Label(c, i)) == Cell.Yes
    ensures AtLeastBackwardClash(s, b, x, c, y, n)
  {
    if i + n < s.perCategory {
      AllNoCons(b, b, x, c, i + n, s.perCategory);
    }
  }

  lemma AtLeastForwardMono(s: Shape, b0': Board, b0: Board, b1: Board, b1': Board, x: Label, c: Category, y: Label, n: nat)
    requires Extends(b0', b0) && Extends(b1, b1') && AtLeastForward(s, b0, b1, x, c, y, n)
    ensures AtLeastForward(s, b0', b1', x, c, y, n)
  {
    forall i: nat | i < s.perCategory && AllNo(b0', y, c, 0, i - n + 1)
      ensures CellAt(b1', x, Label(c, i)) == Cell.No
    {
      AllNoMono(b0', b0, y, c, 0, i - n + 1);
      ExtendsCell(b1, b1', x, Label(c, i));
    }
  }

  lemma AtLeastBackwardMono(s: Shape, b0': Board, b0: Board, b1: Board, b1': Board, x: Label, c: Category, y: Label, n: nat)
    requires Extends(b0', b0) && Extends(b1, b1') && AtLeastBackward(s, b0, b1, x, c, y, n)
    ensures AtLeastBackward(s, b0', b1', x, c, y, n)
  {
    forall i: nat | i < s.perCategory && AllNo(b0', x, c, i + n, s.perCategory)
      ensures CellAt(b1', y, Label(c, i)) == Cell.No
    {
      AllNoMono(b0', b0, x, c, i + n, s.perCategory);
      ExtendsCell(b1, b1', y, Label(c, i));
    }
  }

  /**
   * `AfterAtLeast(x, c, y, n)`: `x` and `y` are set apart, then the forward
   * and the backward sweep over the positions of `c`. Only the writes of the
   * fixed part are OR'd into the result, so `Some(true)` means a change was
   * made but `Some(false)` does not mean none was.
   */
  method ApplyAfterAtLeast(g: Grid, x: Label, c: Category, y: Label, n: nat) returns (r: Option<bool>)
    requires g.Valid() && g.shape.Valid(x) && g.shape.Valid(y) && c.index < g.shape.categories
    modifies g, g.cells
    ensures g.Valid() && Progress(old(g.board), old(g.steps), g.board, g.steps)
    ensures r == Some(true) ==> g.board != old(g.board)
    ensures r.Some? ==> AfterAtLeastEffect(g.shape, old(g.board), g.board, x, c, y, n)
    ensures r.None? ==> AfterAtLeastClash(g.shape, g.board, x, c, y, n)
    ensures OnlyWrites(old(g.board), g.board, Cell.No) && ChangesOnlyIn(old(g.board), g.board, {x, y}, c, {Canon(x, y)})
  {
    ghost var b0, st0 := g.board, g.steps;
    var changed := false;
    var t := g.Set(x, y, Cell.No);
    ChangesOnlyInStep(b0, b0, g.board, x, y, Cell.No, {x, y}, c, {Canon(x, y)});
    if t.None? { return None; }
    changed := t.value;
    ghost var b1, st1 := g.board, g.steps;
    t := AtLeastForwardSweep(g, x, c, y, n);
    ProgressTrans(b0, st0, b1, st1, g.board, g.steps);
    NoWritesWithin(b0, b1, g.board, {x, y}, c, {Canon(x, y)}, {x});
    if t.None? { return None; }
    changed := changed || t.value;
    ghost var b2, st2 := g.board, g.steps;
    t := AtLeastBackwardSweep(g, x, c, y, n);
    ProgressTrans(b0, st0, b2, st2, g.board, g.steps);
    NoWritesWithin(b0, b2, g.board, {x, y}, c, {Canon(x, y)}, {y});
    if t.None? { return None; }
    changed := changed || t.value;
    ExtendsCell(b1, g.board, x, y);
    AtLeastForwardMono(g.shape, b0, b1, b2, g.board, x, c, y, n);
    AtLeastBackwardMono(g.shape, b0, b2, g.board, g.board, x, c, y, n);
    return Some(changed);
  }

  /**
   * The first loop of `AfterAtLeast`: the first `n` positions of `c` are set No
   * against `x`; from there on, position `i` is set No against `x` while `y`
   * is No at `i - n`, and the loop stops at the first position where it is
   * not. Only the first `n` writes are reported.
   */
  method AtLeastForwardSweep(g: Grid, x: Label, c: Category, y: Label, n: nat) returns (r: Option<bool>)
    requires g.Valid() && g.shape.Valid(x) && g.shape.Valid(y) && c.index < g.shape.categories
    modifies g, g.cells
    ensures g.Valid() && Progress(old(g.board), old(g.steps), g.board, g.steps)
    ensures r == Some(true) ==> EmptyCount(g.board) < EmptyCount(old(g.board))
    ensures r.Some? ==> AtLeastForward(g.shape, old(g.board), g.board, x, c, y, n)
    ensures r.None? ==> AtLeastForwardClash(g.shape, g.board, x, c, y, n)
    ensures OnlyWrites(old(g.board), g.board, Cell.No) && ChangesOnlyIn(old(g.board), g.board, {x}, c, {})
  {
    ghost var b0, st0 := g.board, g.steps;
    var s := g.shape;
    var changed := false;
    for i := 0 to s.perCategory
      invariant g.Valid() && g.shape == s && Progress(b0, st0, g.board, g.steps)
      invariant changed ==> EmptyCount(g.board) < EmptyCount(b0)
      invariant ForwardSoFar(b0, g.board, x, c, y, n, i)
    {
      ghost var bk, stk := g.board, g.steps;
      var t, stop := AtLeastForwardAt(g, x, c, y, n, i);
      ProgressTrans(b0, st0, bk, stk, g.board, g.steps);
      if stop {
        ForwardStops(s, b0, bk, x, c, y, n, i);
        break;
      }
      if t.None? {
        ForwardClashAt(s, b0, bk, x, c, y, n, i);
        return None;
      }
      changed := changed || t.value;
      ForwardSoFarNext(b0, bk, g.board, x, c, y, n, i);
    }
    return Some(changed);
  }

  /**
   * One step of the first loop of `AfterAtLeast`, at position `i`: `stop` is
   * the `break`, taken when `i >= n` and `y` is not known to be off position
   * `i - n`. Only a write at `i < n` is reported.
   */
  method AtLeastForwardAt(g: Grid, x: Label, c: Category, y: Label, n: nat, i: nat) returns (r: Option<bool>, stop: bool)
    requires g.Valid() && g.shape.Valid(x) && g.shape.Valid(y) && c.index < g.shape.categories
    requires i < g.shape.perCategory
    modifies g, g.cells
    ensures g.Valid() && Progress(old(g.board), old(g.steps), g.board, g.steps)
    ensures r == Some(true) ==> EmptyCount(g.board) < EmptyCount(old(g.board))
    ensures stop <==> i >= n && CellAt(old(g.board), y, Label(c, i - n)) != Cell.No
    ensures stop ==> r == Some(false) && g.board == old(g.board)
    ensures (r.Some? && !stop) ==> CellAt(g.board, x, Label(c, i)) == Cell.No
    ensures r.None? ==> g.board == old(g.board) && CellAt(g.board, x, Label(c, i)) == Cell.Yes
    ensures OnlyWrites(old(g.board), g.board, Cell.No) && ChangesOnlyIn(old(g.board), g.board, {x}, c, {})
  {
    ghost var b0 := g.board;
    stop := false;
    if i < n {
      r := g.Set(x, Label(c, i), Cell.No);
    } else if g.At(y, Label(c, i - n)) == Cell.No {
      var t := g.Set(x, Label(c, i), Cell.No);
      r := if t.None? then None else Some(false);
    } else {
      r, stop := Some(false), true;
    }
    ChangesOnlyInStep(b0, b0, g.board, x, Label(c, i), Cell.No, {x}, c, {});
  }

  /** Below position `i`, `x` is No wherever the forward half of `AfterAtLeast` asks it to be. */
  ghost predicate ForwardNoUpTo(b0: Board, b: Board, x: Label, c: Category, y: Label, n: nat, i: nat) {
    forall j: nat :: j < i && AllNo(b0, y, c, 0, j - n + 1) ==> CellAt(b, x, Label(c, j)) == Cell.No
  }

  /**
   * Where the first loop stops, at a position `i >= n` with `y` not known to
   * be off `i - n`, no later position is asked of `x` either.
   */
  lemma ForwardStops(s: Shape, b0: Board, b: Board, x: Label, c: Category, y: Label, n: nat, i: nat)
    requires ForwardSoFar(b0, b, x, c, y, n, i)
    requires i >= n && CellAt(b, y, Label(c, i - n)) != Cell.No
    ensures AtLeastForward(s, b0, b, x, c, y, n)
  {
    ExtendsCell(b0, b, y, Label(c, i - n));
    forall j: nat | j < s.perCategory && AllNo(b0, y, c, 0, j - n + 1)
      ensures CellAt(b, x, Label(c, j)) == Cell.No
    {
    }
  }

  /** The step at position `i` extends the prefix by one; the earlier Nos stay. */
  lemma ForwardNoNext(b0: Board, bk: Board, b1: Board, x: Label, c: Category, y: Label, n: nat, i: nat)
    requires ForwardNoUpTo(b0, bk, x, c, y, n, i) && Extends(bk, b1)
    requires AllNo(b0, y, c, 0, i - n + 1) ==> CellAt(b1, x, Label(c, i)) == Cell.No
    ensures ForwardNoUpTo(b0, b1, x, c, y, n, i + 1)
  {
    forall j: nat | j < i && AllNo(b0, y, c, 0, j - n + 1)
      ensures CellAt(b1, x, Label(c, j)) == Cell.No
    {
      ExtendsCell(bk, b1, x, Label(c, j));
    }
  }

  /**
   * The second loop of `AfterAtLeast`, from the last position down: the last
   * `n` positions of `c` are set No against `y`; below them, position `i` is
   * set No against `y` while `x` is No at `i + n`, and the loop stops at the
   * first position where it is not. Only the last `n` writes are reported.
   */
  method AtLeastBackwardSweep(g: Grid, x: Label, c: Category, y: Label, n: nat) returns (r: Option<bool>)
    requires g.Valid() && g.shape.Valid(x) && g.shape.Valid(y) && c.index < g.shape.categories
    modifies g, g.cells
    ensures g.Valid() && Progress(old(g.board), old(g.steps), g.board, g.steps)
    ensures r == Some(true) ==> EmptyCount(g.board) < EmptyCount(old(g.board))
    ensures r.Some? ==> AtLeastBackward(g.shape, old(g.board), g.board, x, c, y, n)
    ensures r.None? ==> AtLeastBackwardClash(g.shape, g.board, x, c, y, n)
    ensures OnlyWrites(old(g.board), g.board, Cell.No) && ChangesOnlyIn(old(g.board), g.board, {y}, c, {})
  {
    ghost var b0, st0 := g.board, g.steps;
    var s := g.shape;
    var changed := false;
    for i := s.perCategory downto 0
      invariant g.Valid() && g.shape == s && Progress(b0, st0, g.board, g.steps)
      invariant changed ==> EmptyCount(g.board) < EmptyCount(b0)
      invariant BackwardSoFar(b0, g.board, x, c, y, n, i, s.perCategory)
    {
      ghost var bk, stk := g.board, g.steps;
      var t, stop := AtLeastBackwardAt(g, x, c, y, n, i);
      ProgressTrans(b0, st0, bk, stk, g.board, g.steps);
      if stop {
        BackwardStops(s, b0, bk, x, c, y, n, i);
        break;
      }
      if t.None? {
        BackwardClashAt(s, b0, bk, x, c, y, n, i);
        return None;
      }
      changed := changed || t.value;
      BackwardSoFarNext(b0, bk, g.board, x, c, y, n, i, s.perCategory);
    }
    return Some(changed);
  }

  /**
   * One step of the second loop of `AfterAtLeast`, at position `i`: `stop` is
   * the `break`, taken when `i + n < lpc` and `x` is not known to be off
   * position `i + n`. Only a write at `i + n >= lpc` is reported.
   */
  method AtLeastBackwardAt(g: Grid, x: Label, c: Category, y: Label, n: nat, i: nat) returns (r: Option<bool>, stop: bool)
    requires g.Valid() && g.shape.Valid(x) && g.shape.Valid(y) && c.index < g.shape.categories
    requires i < g.shape.perCategory
    modifies g, g.cells
    ensures g.Valid() && Progress(old(g.board), old(g.steps), g.board, g.steps)
    ensures r == Some(true) ==> EmptyCount(g.board) < EmptyCount(old(g.board))
    ensures stop <==> i + n < g.shape.perCategory && CellAt(old(g.board), x, Label(c, i + n)) != Cell.No
    ensures stop ==> r == Some(false) && g.board == old(g.board)
    ensures (r.Some? && !stop) ==> CellAt(g.board, y, Label(c, i)) == Cell.No
    ensures r.None? ==> g.board == old(g.board) && CellAt(g.board, y, Label(c, i)) == Cell.Yes
    ensures OnlyWrites(old(g.board), g.board, Cell.No) && ChangesOnlyIn(old(g.board), g.board, {y}, c, {})
  {
    ghost var b0 := g.board;
    stop := false;
    if i + n >= g.shape.perCategory {
      r := g.Set(y, Label(c, i), Cell.No);
    } else if g.At(x, Label(c, i + n)) == Cell.No {
      var t := g.Set(y, Label(c, i), Cell.No);
      r := if t.None? then None else Some(false);
    } else {
      r, stop := Some(false), true;
    }
    ChangesOnlyInStep(b0, b0, g.board, y, Label(c, i), Cell.No, {y}, c, {});
  }

  /** From position `i` up to `lpc`, `y` is No wherever the backward half of `AfterAtLeast` asks it to be. */
  ghost predicate BackwardNoFrom(b0: Board, b: Board, x: Label, c: Category, y: Label, n: nat, i: nat, lpc: nat) {
    forall j: nat :: i <= j < lpc && AllNo(b0, x, c, j + n, lpc) ==> CellAt(b, y, Label(c, j)) == Cell.No
  }

  /**
   * Where the second loop stops, at a position `i` with `i + n < lpc` and `x`
   * not known to be off `i + n`, no lower position is asked of `y` either.
   */
  lemma BackwardStops(s: Shape, b0: Board, b: Board, x: Label, c: Category, y: Label, n: nat, i: nat)
    requires BackwardSoFar(b0, b, x, c, y, n, i + 1, s.perCategory)
    requires i + n < s.perCategory && CellAt(b, x, Label(c, i + n)) != Cell.No
    ensures AtLeastBackward(s, b0, b, x, c, y, n)
  {
    ExtendsCell(b0, b, x, Label(c, i + n));
    forall j: nat | j < s.perCategory && AllNo(b0, x, c, j + n, s.perCategory)
      ensures CellAt(b, y, Label(c, j)) == Cell.No
    {
    }
  }

  /** The step at position `i` extends the suffix down by one; the later Nos stay. */
  lemma BackwardNoNext(b0: Board, bk: Board, b1: Board, x: Label, c: Category, y: Label, n: nat, i: nat, lpc: nat)
    requires BackwardNoFrom(b0, bk, x, c, y, n, i + 1, lpc) && Extends(bk, b1)
    requires i < lpc && AllNo(b0, x, c, i + n, lpc) ==> CellAt(b1, y, Label(c, i)) == Cell.No
    ensures BackwardNoFrom(b0, b1, x, c, y, n, i, lpc)
  {
    forall j: nat | i < j < lpc && AllNo(b0, x, c, j + n, lpc)
      ensures CellAt(b1, y, Label(c, j)) == Cell.No
    {
      ExtendsCell(bk, b1, y, Label(c, j));
    }
  }

  lemma ExactlyForwardMono(s: Shape, b0': Board, b0: Board, b1: Board, b1': Board, x: Label, c: Category, y: Label, n: nat)
    requires Extends(b0', b0) && Extends(b1, b1') && ExactlyForward(s, b0, b1, x, c, y, n)
    ensures ExactlyForward(s, b0', b1', x, c, y, n)
  {
    forall i: nat {:trigger CellAt(b1', x, Label(c, i))}
      | i < s.perCategory && (i < n || CellAt(b0', y, Label(c, i - n)) == Cell.No)
      ensures CellAt(b1', x, Label(c, i)) == Cell.No
    {
      if i >= n {
        ExtendsCell(b0', b0, y, Label(c, i - n));
      }
      ExtendsCell(b1, b1', x, Label(c, i));
    }
  }

  lemma ExactlyBackwardMono(s: Shape, b0': Board, b0: Board, b1: Board, b1': Board, x: Label, c: Category, y: Label, n: nat)
    requires Extends(b0', b0) && Extends(b1, b1') && ExactlyBackward(s, b0, b1, x, c, y, n)
    ensures ExactlyBackward(s, b0', b1', x, c, y, n)
  {
    forall i: nat {:trigger CellAt(b1', y, Label(c, i))}
      | i < s.perCategory && (i + n >= s.perCategory || CellAt(b0', x, Label(c, i + n)) == Cell.No)
      ensures CellAt(b1', y, Label(c, i)) == Cell.No
    {
      ExtendsCell(b0', b0, x, Label(c, i + n));
      ExtendsCell(b1, b1', y, Label(c, i));
    }
  }

  /**
   * `AfterExactly(x, c, y, n)`: `x` and `y` are set apart, then a forward and
   * a backward pass over all positions of `c`, without early exit; every
   * write is reported.
   */
  method ApplyAfterExactly(g: Grid, x: Label, c: Category, y: Label, n: nat) returns (r: Option<bool>)
    requires g.Valid() && g.shape.Valid(x) && g.shape.Valid(y) && c.index < g.shape.categories
    modifies g, g.cells
    ensures g.Valid() && Progress(old(g.board), old(g.steps), g.board, g.steps)
    ensures r.Some? ==> (r.value <==> g.board != old(g.board))
    ensures r.Some? ==> AfterExactlyEffect(g.shape, old(g.board), g.board, x, c, y, n)
    ensures r.None? ==> AfterExactlyClash(g.shape, g.board, x, c, y, n)
    ensures OnlyWrites(old(g.board), g.board, Cell.No) && ChangesOnlyIn(old(g.board), g.board, {x, y}, c, {Canon(x, y)})
  {
    ghost var b0, st0 := g.board, g.steps;
    var changed := false;
    var t := g.Set(x, y, Cell.No);
    ChangesOnlyInStep(b0, b0, g.board, x, y, Cell.No, {x, y}, c, {Canon(x, y)});
    if t.None? { return None; }
    changed := t.value;
    ghost var b1, st1 := g.board, g.steps;
    t := ExactlyForwardSweep(g, x, c, y, n);
    ProgressTrans(b0, st0, b1, st1, g.board, g.steps);
    NoWritesWithin(b0, b1, g.board, {x, y}, c, {Canon(x, y)}, {x});
    if t.None? { return None; }
    changed := changed || t.value;
    ghost var b2, st2 := g.board, g.steps;
    t := ExactlyBackwardSweep(g, x, c, y, n);
    ProgressTrans(b0, st0, b2, st2, g.board, g.steps);
    NoWritesWithin(b0, b2, g.board, {x, y}, c, {Canon(x, y)}, {y});
    if t.None? { return None; }
    changed := changed || t.value;
    ChangedIff(b0, st0, g.board, g.steps, changed);
    ExtendsCell(b1, g.board, x, y);
    ExactlyForwardMono(g.shape, b0, b1, b2, g.board, x, c, y, n);
    ExactlyBackwardMono(g.shape, b0, b2, g.board, g.board, x, c, y, n);
    return Some(changed);
  }

  /**
   * The first loop of `AfterExactly`: position `i` of `c` is set No against `x`
   * when `i < n`, or when `y` is No at `i - n`.
   */
  method ExactlyForwardSweep(g: Grid, x: Label, c: Category, y: Label, n: nat) returns (r: Option<bool>)
    requires g.Valid() && g.shape.Valid(x) && g.shape.Valid(y) && c.index < g.shape.categories
    modifies g, g.cells
    ensures g.Valid() && Progress(old(g.board), old(g.steps), g.board, g.steps)
    ensures r.Some? ==> (r.value <==> EmptyCount(g.board) < EmptyCount(old(g.board)))
    ensures r.Some? ==> ExactlyForward(g.shape, old(g.board), g.board, x, c, y, n)
    ensures r.None? ==> ExactlyForwardClash(g.shape, g.board, x, c, y, n)
    ensures OnlyWrites(old(g.board), g.board, Cell.No) && ChangesOnlyIn(old(g.board), g.board, {x}, c, {})
  {
    ghost var b0, st0 := g.board, g.steps;
    var s := g.shape;
    var changed := false;
    for i := 0 to s.perCategory
      invariant g.Valid() && g.shape == s && Progress(b0, st0, g.board, g.steps)
      invariant changed <==> EmptyCount(g.board) < EmptyCount(b0)
      invariant ExactlyForwardSoFar(b0, g.board, x, c, y, n, i)
    {
      ghost var bk, stk := g.board, g.steps;
      var t := ExactlyForwardAt(g, x, c, y, n, i);
      ProgressTrans(b0, st0, bk, stk, g.board, g.steps);
      if t.None? { return None; }
      changed := changed || t.value;
      ExactlyForwardSoFarNext(b0, bk, g.board, x, c, y, n, i);
    }
    return Some(changed);
  }

  /**
   * What the first loop of `AfterExactly` keeps up to position `i`: the
   * forward half holds below `i`, and only No has been written, only against
   * `x` in category `c`.
   */
  ghost predicate ExactlyForwardSoFar(b0: Board, b: Board, x: Label, c: Category, y: Label, n: nat, i: nat) {
    (forall j: nat {:trigger CellAt(b, x, Label(c, j))} ::
      (j < i && (j < n || CellAt(b0, y, Label(c, j - n)) == Cell.No)) ==> CellAt(b, x, Label(c, j)) == Cell.No) &&
    OnlyWrites(b0, b, Cell.No) && ChangesOnlyIn(b0, b, {x}, c, {})
  }

  lemma ExactlyForwardSoFarNext(b0: Board, bk: Board, b1: Board, x: Label, c: Category, y: Label, n: nat, i: nat)
    requires ExactlyForwardSoFar(b0, bk, x, c, y, n, i)
    requires OnlyWrites(bk, b1, Cell.No) && ChangesOnlyIn(bk, b1, {x}, c, {})
    requires (i < n || CellAt(bk, y, Label(c, i - n)) == Cell.No) ==> CellAt(b1, x, Label(c, i)) == Cell.No
    ensures ExactlyForwardSoFar(b0, b1, x, c, y, n, i + 1)
  {
    assert Extends(b0, bk) && Extends(bk, b1);
    if i >= n {
      ExtendsCell(b0, bk, y, Label(c, i - n));
    }
    forall j: nat {:trigger CellAt(b1, x, Label(c, j))}
      | j < i + 1 && (j < n || CellAt(b0, y, Label(c, j - n)) == Cell.No)
      ensures CellAt(b1, x, Label(c, j)) == Cell.No
    {
      if j < i {
        ExtendsCell(bk, b1, x, Label(c, j));
      }
    }
    ChangesOnlyInTrans(b0, bk, b1, {x}, c, {});
    OnlyWritesTrans(b0, bk, b1, Cell.No);
  }

  /**
   * The second loop of `AfterExactly`, from the last position down: position
   * `i` of `c` is set No against `y` when `i + n > lpc - 1`, or when `x` is No
   * at `i + n`.
   */
  method ExactlyBackwardSweep(g: Grid, x: Label, c: Category, y: Label, n: nat) returns (r: Option<bool>)
    requires g.Valid() && g.shape.Valid(x) && g.shape.Valid(y) && c.index < g.shape.categories
    modifies g, g.cells
    ensures g.Valid() && Progress(old(g.board), old(g.steps), g.board, g.steps)
    ensures r.Some? ==> (r.value <==> EmptyCount(g.board) < EmptyCount(old(g.board)))
    ensures r.Some? ==> ExactlyBackward(g.shape, old(g.board), g.board, x, c, y, n)
    ensures r.None? ==> ExactlyBackwardClash(g.shape, g.board, x, c, y, n)
    ensures OnlyWrites(old(g.board), g.board, Cell.No) && ChangesOnlyIn(old(g.board), g.board, {y}, c, {})
  {
    ghost var b0, st0 := g.board, g.steps;
    var s := g.shape;
    var changed := false;
    for i := s.perCategory downto 0
      invariant g.Valid() && g.shape == s && Progress(b0, st0, g.board, g.steps)
      invariant changed <==> EmptyCount(g.board) < EmptyCount(b0)
      invariant ExactlyBackwardSoFar(b0, g.board, x, c, y, n, i, s.perCategory)
    {
      ghost var bk, stk := g.board, g.steps;
      var t := ExactlyBackwardAt(g, x, c, y, n, i);
      ProgressTrans(b0, st0, bk, stk, g.board, g.steps);
      if t.None? { return None; }
      changed := changed || t.value;
      ExactlyBackwardSoFarNext(b0, bk, g.board, x, c, y, n, i, s.perCategory);
    }
    return Some(changed);
  }

  /** The second loop's counterpart of `ExactlyForwardSoFar`, from position `i` up. */
  ghost predicate ExactlyBackwardSoFar(b0: Board, b: Board, x: Label, c: Category, y: Label, n: nat, i: nat, lpc: nat) {
    (forall j: nat {:trigger CellAt(b, y, Label(c, j))} ::
      (i <= j < lpc && (j + n >= lpc || CellAt(b0, x, Label(c, j + n)) == Cell.No)) ==> CellAt(b, y, Label(c, j)) == Cell.No) &&
    OnlyWrites(b0, b, Cell.No) && ChangesOnlyIn(b0, b, {y}, c, {})
  }

  lemma ExactlyBackwardSoFarNext(b0: Board, bk: Board, b1: Board, x: Label, c: Category, y: Label, n: nat, i: nat, lpc: nat)
    requires ExactlyBackwardSoFar(b0, bk, x, c, y, n, i + 1, lpc) && i < lpc
    requires OnlyWrites(bk, b1, Cell.No) && ChangesOnlyIn(bk, b1, {y}, c, {})
    requires (i + n >= lpc || CellAt(bk, x, Label(c, i + n)) == Cell.No) ==> CellAt(b1, y, Label(c, i)) == Cell.No
    ensures ExactlyBackwardSoFar(b0, b1, x, c, y, n, i, lpc)
  {
    assert Extends(b0, bk) && Extends(bk, b1);
    ExtendsCell(b0, bk, x, Label(c, i + n));
    forall j: nat {:trigger CellAt(b1, y, Label(c, j))}
      | i <= j < lpc && (j + n >= lpc || CellAt(b0, x, Label(c, j + n)) == Cell.No)
      ensures CellAt(b1, y, Label(c, j)) == Cell.No
    {
      if j > i {
        ExtendsCell(bk, b1, y, Label(c, j));
      }
    }
    ChangesOnlyInTrans(b0, bk, b1, {y}, c, {});
    OnlyWritesTrans(b0, bk, b1, Cell.No);
  }

  /** One step of the first loop of `AfterExactly`, at position `i`. */
  method ExactlyForwardAt(g: Grid, x: Label, c: Category, y: Label, n: nat, i: nat) returns (r: Option<bool>)
    requires g.Valid() && g.shape.Valid(x) && g.shape.Valid(y) && c.index < g.shape.categories
    requires i < g.shape.perCategory
    modifies g, g.cells
    ensures g.Valid() && Progress(old(g.board), old(g.steps), g.board, g.steps)
    ensures r.Some? ==> (r.value <==> EmptyCount(g.board) < EmptyCount(old(g.board)))
    ensures (r.Some? && (i < n || CellAt(old(g.board), y, Label(c, i - n)) == Cell.No)) ==>
      CellAt(g.board, x, Label(c, i)) == Cell.No
    ensures r.None? ==> (i < n || CellAt(g.board, y, Label(c, i - n)) == Cell.No) && CellAt(g.board, x, Label(c, i)) == Cell.Yes
    ensures OnlyWrites(old(g.board), g.board, Cell.No) && ChangesOnlyIn(old(g.board), g.board, {x}, c, {})
  {
    ghost var b0 := g.board;
    r := Some(false);
    if i < n {
      r := g.Set(x, Label(c, i), Cell.No);
    } else if g.At(y, Label(c, i - n)) == Cell.No {
      r := g.Set(x, Label(c, i), Cell.No);
    }
    ChangesOnlyInStep(b0, b0, g.board, x, Label(c, i), Cell.No, {x}, c, {});
  }

  /** One step of the second loop of `AfterExactly`, at position `i`. */
  method ExactlyBackwardAt(g: Grid, x: Label, c: Category, y: Label, n: nat, i: nat) returns (r: Option<bool>)
    requires g.Valid() && g.shape.Valid(x) && g.shape.Valid(y) && c.index < g.shape.categories
    requires i < g.shape.perCategory
    modifies g, g.cells
    ensures g.Valid() && Progress(old(g.board), old(g.steps), g.board, g.steps)
    ensures r.Some? ==> (r.value <==> EmptyCount(g.board) < EmptyCount(old(g.board)))
    ensures (r.Some? && (i + n >= g.shape.perCategory || CellAt(old(g.board), x, Label(c, i + n)) == Cell.No)) ==>
      CellAt(g.board, y, Label(c, i)) == Cell.No
    ensures r.None? ==>
      (i + n >= g.shape.perCategory || CellAt(g.board, x, Label(c, i + n)) == Cell.No) && CellAt(g.board, y, Label(c, i)) == Cell.Yes
    ensures OnlyWrites(old(g.board), g.board, Cell.No) && ChangesOnlyIn(old(g.board), g.board, {y}, c, {})
  {
    ghost var b0 := g.board;
    r := Some(false);
    if i + n > g.shape.perCategory - 1 {
      r := g.Set(y, Label(c, i), Cell.No);
    } else if g.At(x, Label(c, i + n)) == Cell.No {
      r := g.Set(y, Label(c, i), Cell.No);
    }
    ChangesOnlyInStep(b0, b0, g.board, y, Label(c, i), Cell.No, {y}, c, {});
  }

  // ----- Distance -----

  lemma DistanceLowMono(s: Shape, b0': Board, b0: Board, b1: Board, b1': Board, x: Label, c: Category, y: Label, n: nat)
    requires Extends(b0', b0) && Extends(b1, b1') && DistanceLowEffect(s, b0, b1, x, c, y, n)
    ensures DistanceLowEffect(s, b0', b1', x, c, y, n)
  {
    forall i: nat {:trigger CellAt(b1', y, Label(c, i))}
      | i < n && i < s.perCategory && CellAt(b0', x, Label(c, i + n)) == Cell.No
      ensures CellAt(b1', y, Label(c, i)) == Cell.No
    {
      ExtendsCell(b0', b0, x, Label(c, i + n));
      ExtendsCell(b1, b1', y, Label(c, i));
    }
    forall i: nat {:trigger CellAt(b1', x, Label(c, i))}
      | i < n && i < s.perCategory && CellAt(b0', y, Label(c, i + n)) == Cell.No
      ensures CellAt(b1', x, Label(c, i)) == Cell.No
    {
      ExtendsCell(b0', b0, y, Label(c, i + n));
      ExtendsCell(b1, b1', x, Label(c, i));
    }
  }

  /**
   * `Distance(x, c, y, n)`, corrected: `x` and `y` are set apart, then for
   * each of the first `n` positions of `c` a No `n` positions higher is copied
   * down. Every write is reported.
   */
  method ApplyDistance(g: Grid, x: Label, c: Category, y: Label, n: nat) returns (r: Option<bool>)
    requires g.Valid() && g.shape.Valid(x) && g.shape.Valid(y) && c.index < g.shape.categories
    requires g.shape.perCategory == 0 || 2 * n <= g.shape.perCategory
    modifies g, g.cells
    ensures g.Valid() && Progress(old(g.board), old(g.steps), g.board, g.steps)
    ensures r.Some? ==> (r.value <==> g.board != old(g.board))
    ensures r.Some? ==> DistanceEffect(g.shape, old(g.board), g.board, x, c, y, n)
    ensures r.None? ==> DistanceClash(g.shape, g.board, x, c, y, n)
    ensures OnlyWrites(old(g.board), g.board, Cell.No) && ChangesOnlyIn(old(g.board), g.board, {x, y}, c, {Canon(x, y)})
  {
    ghost var b0, st0 := g.board, g.steps;
    var t := g.Set(x, y, Cell.No);
    ChangesOnlyInStep(b0, b0, g.board, x, y, Cell.No, {x, y}, c, {Canon(x, y)});
    if t.None? { return None; }
    var changed := t.value;
    ghost var b1, st1 := g.board, g.steps;
    t := DistanceSweep(g, x, c, y, n);
    ProgressTrans(b0, st0, b1, st1, g.board, g.steps);
    NoWritesWithin(b0, b1, g.board, {x, y}, c, {Canon(x, y)}, {x, y});
    if t.None? { return None; }
    changed := changed || t.value;
    ChangedIff(b0, st0, g.board, g.steps, changed);
    ExtendsCell(b1, g.board, x, y);
    DistanceLowMono(g.shape, b0, b1, g.board, g.board, x, c, y, n);
    return Some(changed);
  }

  /** The corrected sweep of `Distance` over the positions of `c`. */
  method DistanceSweep(g: Grid, x: Label, c: Category, y: Label, n: nat) returns (r: Option<bool>)
    requires g.Valid() && g.shape.Valid(x) && g.shape.Valid(y) && c.index < g.shape.categories
    requires g.shape.perCategory == 0 || 2 * n <= g.shape.perCategory
    modifies g, g.cells
    ensures g.Valid() && Progress(old(g.board), old(g.steps), g.board, g.steps)
    ensures r.Some? ==> (r.value <==> EmptyCount(g.board) < EmptyCount(old(g.board)))
    ensures r.Some? ==> DistanceLowEffect(g.shape, old(g.board), g.board, x, c, y, n)
    ensures r.None? ==> LowClash(g.shape, g.board, x, c, y, n) || LowClash(g.shape, g.board, y, c, x, n)
    ensures OnlyWrites(old(g.board), g.board, Cell.No) && ChangesOnlyIn(old(g.board), g.board, {x, y}, c, {})
  {
    ghost var b0, st0 := g.board, g.steps;
    var s := g.shape;
    var changed := false;
    for i := 0 to s.perCategory
      invariant g.Valid() && g.shape == s && Progress(b0, st0, g.board, g.steps)
      invariant changed <==> EmptyCount(g.board) < EmptyCount(b0)
      invariant LowNoUpTo(b0, g.board, x, c, y, n, i) && LowNoUpTo(b0, g.board, y, c, x, n, i)
      invariant OnlyWrites(b0, g.board, Cell.No) && ChangesOnlyIn(b0, g.board, {x, y}, c, {})
    {
      if i < n {
        ghost var bk, stk := g.board, g.steps;
        ExtendsCell(b0, bk, x, Label(c, i + n));
        ExtendsCell(b0, bk, y, Label(c, i + n));
        var t := DistanceAt(g, x, c, y, n, i);
        ProgressTrans(b0, st0, bk, stk, g.board, g.steps);
        NoWritesWithin(b0, bk, g.board, {x, y}, c, {}, {x, y});
        if t.None? { return None; }
        changed := changed || t.value;
        LowNoNext(b0, bk, g.board, x, c, y, n, i);
        LowNoNext(b0, bk, g.board, y, c, x, n, i);
      }
    }
    return Some(changed);
  }

  /**
   * For the first `i` positions `j < n` of `c`: where `u` was No with position
   * `j + n` on `b0`, `v` is No with position `j` on `b`.
   */
  ghost predicate LowNoUpTo(b0: Board, b: Board, u: Label, c: Category, v: Label, n: nat, i: nat) {
    forall j: nat {:trigger CellAt(b, v, Label(c, j))} ::
      (j < i && j < n && CellAt(b0, u, Label(c, j + n)) == Cell.No) ==> CellAt(b, v, Label(c, j)) == Cell.No
  }

  /** The step at position `i` extends the prefix by one; the earlier Nos stay. */
  lemma LowNoNext(b0: Board, bk: Board, b1: Board, u: Label, c: Category, v: Label, n: nat, i: nat)
    requires LowNoUpTo(b0, bk, u, c, v, n, i) && Extends(bk, b1) && i < n
    requires CellAt(b0, u, Label(c, i + n)) == Cell.No ==> CellAt(b1, v, Label(c, i)) == Cell.No
    ensures LowNoUpTo(b0, b1, u, c, v, n, i + 1)
  {
    forall j: nat | j < i && j < n && CellAt(b0, u, Label(c, j + n)) == Cell.No
      ensures CellAt(b1, v, Label(c, j)) == Cell.No
    {
      ExtendsCell(bk, b1, v, Label(c, j));
    }
  }

  /** One step of the corrected sweep of `Distance`, at a position `i < n`: both copies. */
  method DistanceAt(g: Grid, x: Label, c: Category, y: Label, n: nat, i: nat) returns (r: Option<bool>)
    requires g.Valid() && g.shape.Valid(x) && g.shape.Valid(y) && c.index < g.shape.categories
    requires i < n && i + n < g.shape.perCategory
    modifies g, g.cells
    ensures g.Valid() && Progress(old(g.board), old(g.steps), g.board, g.steps)
    ensures r.Some? ==> (r.value <==> EmptyCount(g.board) < EmptyCount(old(g.board)))
    ensures (r.Some? && CellAt(old(g.board), x, Label(c, i + n)) == Cell.No) ==> CellAt(g.board, y, Label(c, i)) == Cell.No
    ensures (r.Some? && CellAt(old(g.board), y, Label(c, i + n)) == Cell.No) ==> CellAt(g.board, x, Label(c, i)) == Cell.No
    ensures r.None? ==>
      (CellAt(g.board, x, Label(c, i + n)) == Cell.No && CellAt(g.board, y, Label(c, i)) == Cell.Yes) ||
      (CellAt(g.board, y, Label(c, i + n)) == Cell.No && CellAt(g.board, x, Label(c, i)) == Cell.Yes)
    ensures OnlyWrites(old(g.board), g.board, Cell.No) && ChangesOnlyIn(old(g.board), g.board, {x, y}, c, {})
  {
    ghost var b0, st0 := g.board, g.steps;
    r := LowNoAt(g, x, c, y, n, i);
    if r.Some? {
      ghost var bm, stm := g.board, g.steps;
      ExtendsCell(b0, bm, y, Label(c, i + n));
      var t := LowNoAt(g, y, c, x, n, i);
      ProgressTrans(b0, st0, bm, stm, g.board, g.steps);
      ExtendsCell(bm, g.board, y, Label(c, i));
      assert {y, x} == {x, y};
      NoWritesWithin(b0, bm, g.board, {x, y}, c, {}, {x, y});
      r := if t.None? then None else Some(r.value || t.value);
    }
  }

  /** Half a step of the corrected sweep: a No at `(u, c[i + n])` is copied to `(v, c[i])`. */
  method LowNoAt(g: Grid, u: Label, c: Category, v: Label, n: nat, i: nat) returns (r: Option<bool>)
    requires g.Valid() && g.shape.Valid(u) && g.shape.Valid(v) && c.index < g.shape.categories
    requires i < n && i + n < g.shape.perCategory
    modifies g, g.cells
    ensures g.Valid() && Progress(old(g.board), old(g.steps), g.board, g.steps)
    ensures r.Some? ==> (r.value <==> EmptyCount(g.board) < EmptyCount(old(g.board)))
    ensures (r.Some? && CellAt(old(g.board), u, Label(c, i + n)) == Cell.No) ==> CellAt(g.board, v, Label(c, i)) == Cell.No
    ensures r.None? ==> CellAt(g.board, u, Label(c, i + n)) == Cell.No && CellAt(g.board, v, Label(c, i)) == Cell.Yes
    ensures OnlyWrites(old(g.board), g.board, Cell.No) && ChangesOnlyIn(old(g.board), g.board, {u, v}, c, {})
  {
    ghost var b0 := g.board;
    r := Some(false);
    if g.At(u, Label(c, i + n)) == Cell.No {
      r := g.Set(v, Label(c, i), Cell.No);
      ChangesOnlyInStep(b0, b0, g.board, v, Label(c, i), Cell.No, {u, v}, c, {});
    }
  }

  lemma DistanceCopyMono(s: Shape, b0': Board, b0: Board, b1: Board, b1': Board, x: Label, c: Category, y: Label, n: nat)
    requires Extends(b0', b0) && Extends(b1, b1') && DistanceCopyEffect(s, b0, b1, x, c, y, n)
    ensures DistanceCopyEffect(s, b0', b1', x, c, y, n)
  {
    forall i: nat {:trigger CellAt(b1', y, Label(c, i))}
      | i < n && i < s.perCategory && CellAt(b0', x, Label(c, i + n)) != Cell.Empty
      ensures CellAt(b1', y, Label(c, i)) == CellAt(b0', x, Label(c, i + n))
    {
      ExtendsCell(b0', b0, x, Label(c, i + n));
      ExtendsCell(b1, b1', y, Label(c, i));
    }
    forall i: nat {:trigger CellAt(b1', x, Label(c, i))}
      | i < n && i < s.perCategory && CellAt(b0', y, Label(c, i + n)) != Cell.Empty
      ensures CellAt(b1', x, Label(c, i)) == CellAt(b0', y, Label(c, i + n)) ||
              (CellAt(b1', x, Label(c, i + n)) != Cell.Empty &&
               CellAt(b1', y, Label(c, i)) == CellAt(b1', x, Label(c, i + n)))
    {
      ExtendsCell(b0', b0, y, Label(c, i + n));
      ExtendsCell(b1, b1', x, Label(c, i));
      ExtendsCell(b1, b1', y, Label(c, i));
      ExtendsCell(b1, b1', x, Label(c, i + n));
    }
  }

  /**
   * `Distance(x, c, y, n)` as src/constraint.rs writes it: `x` and `y` are set
   * apart, then for each of the first `n` positions of `c` a decided cell `n`
   * positions higher, Yes or No, is copied down; the positions from `n` on are
   * left alone.
   */
  method ApplyDistanceAsWritten(g: Grid, x: Label, c: Category, y: Label, n: nat) returns (r: Option<bool>)
    requires g.Valid() && g.shape.Valid(x) && g.shape.Valid(y) && c.index < g.shape.categories
    requires g.shape.perCategory == 0 || 2 * n <= g.shape.perCategory
    modifies g, g.cells
    ensures g.Valid() && Progress(old(g.board), old(g.steps), g.board, g.steps)
    ensures r.Some? ==> (r.value <==> g.board != old(g.board))
    ensures r.Some? ==> DistanceAsWrittenEffect(g.shape, old(g.board), g.board, x, c, y, n)
    ensures r.None? ==> DistanceAsWrittenClash(g.shape, g.board, x, c, y, n)
    ensures ChangesOnlyIn(old(g.board), g.board, {x, y}, c, {Canon(x, y)})
  {
    ghost var b0, st0 := g.board, g.steps;
    var t := g.Set(x, y, Cell.No);
    ChangesOnlyInStep(b0, b0, g.board, x, y, Cell.No, {x, y}, c, {Canon(x, y)});
    if t.None? { return None; }
    var changed := t.value;
    ghost var b1, st1 := g.board, g.steps;
    t := DistanceCopySweep(g, x, c, y, n);
    ProgressTrans(b0, st0, b1, st1, g.board, g.steps);
    ChangesOnlyInWiden(b1, g.board, {x, y}, c, {}, {x, y}, {Canon(x, y)});
    ChangesOnlyInTrans(b0, b1, g.board, {x, y}, c, {Canon(x, y)});
    if t.None? { return None; }
    changed := changed || t.value;
    ChangedIff(b0, st0, g.board, g.steps, changed);
    ExtendsCell(b1, g.board, x, y);
    DistanceCopyMono(g.shape, b0, b1, g.board, g.board, x, c, y, n);
    return Some(changed);
  }

  /** The sweep of `Distance` over the positions of `c`, as written. */
  method DistanceCopySweep(g: Grid, x: Label, c: Category, y: Label, n: nat) returns (r: Option<bool>)
    requires g.Valid() && g.shape.Valid(x) && g.shape.Valid(y) && c.index < g.shape.categories
    requires g.shape.perCategory == 0 || 2 * n <= g.shape.perCategory
    modifies g, g.cells
    ensures g.Valid() && Progress(old(g.board), old(g.steps), g.board, g.steps)
    ensures r.Some? ==> (r.value <==> EmptyCount(g.board) < EmptyCount(old(g.board)))
    ensures r.Some? ==> DistanceCopyEffect(g.shape, old(g.board), g.board, x, c, y, n)
    ensures r.None? ==> CopyClash(g.shape, g.board, x, c, y, n)
    ensures ChangesOnlyIn(old(g.board), g.board, {x, y}, c, {})
  {
    ghost var b0, st0 := g.board, g.steps;
    var s := g.shape;
    var changed := false;
    for i := 0 to s.perCategory
      invariant g.Valid() && g.shape == s && Progress(b0, st0, g.board, g.steps)
      invariant changed <==> EmptyCount(g.board) < EmptyCount(b0)
      invariant CopyUpTo(b0, g.board, x, c, y, n, i)
      invariant ChangesOnlyIn(b0, g.board, {x, y}, c, {})
    {
      if i < n {
        ghost var bk, stk := g.board, g.steps;
        var t := DistanceCopyAt(g, x, c, y, n, i);
        ProgressTrans(b0, st0, bk, stk, g.board, g.steps);
        ChangesOnlyInTrans(b0, bk, g.board, {x, y}, c, {});
        if t.None? { return None; }
        changed := changed || t.value;
        CopyNext(b0, bk, g.board, x, c, y, n, i);
      }
    }
    return Some(changed);
  }

  /** `DistanceCopyEffect` on the first `i` positions of `c`. */
  ghost predicate CopyUpTo(b0: Board, b: Board, x: Label, c: Category, y: Label, n: nat, i: nat) {
    (forall j: nat {:trigger CellAt(b, y, Label(c, j))} ::
      (j < i && j < n && CellAt(b0, x, Label(c, j + n)) != Cell.Empty) ==>
      CellAt(b, y, Label(c, j)) == CellAt(b0, x, Label(c, j + n))) &&
    (forall j: nat {:trigger CellAt(b, x, Label(c, j))} ::
      (j < i && j < n && CellAt(b0, y, Label(c, j + n)) != Cell.Empty) ==>
      (CellAt(b, x, Label(c, j)) == CellAt(b0, y, Label(c, j + n)) ||
       (CellAt(b, x, Label(c, j + n)) != Cell.Empty &&
        CellAt(b, y, Label(c, j)) == CellAt(b, x, Label(c, j + n)))))
  }

  /** The copy made at position `i` extends the prefix by one; the earlier copies stay. */
  lemma CopyNext(b0: Board, bk: Board, b1: Board, x: Label, c: Category, y: Label, n: nat, i: nat)
    requires CopyUpTo(b0, bk, x, c, y, n, i) && Extends(b0, bk) && Extends(bk, b1) && i < n
    requires CellAt(bk, x, Label(c, i + n)) != Cell.Empty ==>
      CellAt(b1, y, Label(c, i)) == CellAt(bk, x, Label(c, i + n))
    requires CellAt(bk, y, Label(c, i + n)) != Cell.Empty ==>
      (CellAt(b1, x, Label(c, i)) == CellAt(bk, y, Label(c, i + n)) ||
       (CellAt(b1, x, Label(c, i + n)) != Cell.Empty &&
        CellAt(b1, y, Label(c, i)) == CellAt(b1, x, Label(c, i + n))))
    ensures CopyUpTo(b0, b1, x, c, y, n, i + 1)
  {
    ExtendsCell(b0, bk, x, Label(c, i + n));
    ExtendsCell(b0, bk, y, Label(c, i + n));
    forall j: nat {:trigger CellAt(b1, y, Label(c, j))}
      | j < i && j < n && CellAt(b0, x, Label(c, j + n)) != Cell.Empty
      ensures CellAt(b1, y, Label(c, j)) == CellAt(b0, x, Label(c, j + n))
    {
      ExtendsCell(bk, b1, y, Label(c, j));
    }
    forall j: nat {:trigger CellAt(b1, x, Label(c, j))}
      | j < i && j < n && CellAt(b0, y, Label(c, j + n)) != Cell.Empty
      ensures CellAt(b1, x, Label(c, j)) == CellAt(b0, y, Label(c, j + n)) ||
              (CellAt(b1, x, Label(c, j + n)) != Cell.Empty &&
               CellAt(b1, y, Label(c, j)) == CellAt(b1, x, Label(c, j + n)))
    {
      ExtendsCell(bk, b1, x, Label(c, j));
      ExtendsCell(bk, b1, y, Label(c, j));
      ExtendsCell(bk, b1, x, Label(c, j + n));
    }
  }

  /** One step of the sweep of `Distance` as written, at a position `i < n`. */
  method DistanceCopyAt(g: Grid, x: Label, c: Category, y: Label, n: nat, i: nat) returns (r: Option<bool>)
    requires g.Valid() && g.shape.Valid(x) && g.shape.Valid(y) && c.index < g.shape.categories
    requires i < n && i + n < g.shape.perCategory
    modifies g, g.cells
    ensures g.Valid() && Progress(old(g.board), old(g.steps), g.board, g.steps)
    ensures r.Some? ==> (r.value <==> EmptyCount(g.board) < EmptyCount(old(g.board)))
    ensures (r.Some? && CellAt(old(g.board), x, Label(c, i + n)) != Cell.Empty) ==>
      CellAt(g.board, y, Label(c, i)) == CellAt(old(g.board), x, Label(c, i + n))
    ensures (r.Some? && CellAt(old(g.board), y, Label(c, i + n)) != Cell.Empty) ==>
      (CellAt(g.board, x, Label(c, i)) == CellAt(old(g.board), y, Label(c, i + n)) ||
       (CellAt(g.board, x, Label(c, i + n)) != Cell.Empty &&
        CellAt(g.board, y, Label(c, i)) == CellAt(g.board, x, Label(c, i + n))))
    ensures r.None? ==>
      (CellAt(g.board, x, Label(c, i + n)) != Cell.Empty && Opposes(g.board, y, Label(c, i), CellAt(g.board, x, Label(c, i + n)))) ||
      (CellAt(g.board, y, Label(c, i + n)) != Cell.Empty && Opposes(g.board, x, Label(c, i), CellAt(g.board, y, Label(c, i + n))))
    ensures ChangesOnlyIn(old(g.board), g.board, {x, y}, c, {})
  {
    ghost var b0 := g.board;
    var cur := Label(c, i);
    var hiX := g.At(x, Label(c, i + n));
    var hiY := g.At(y, Label(c, i + n));
    r := Some(false);
    if hiX != Cell.Empty {
      r := g.Set(y, cur, hiX);
      ExtendsCell(b0, g.board, x, Label(c, i + n));
      ChangesOnlyInStep(b0, b0, g.board, y, cur, hiX, {x, y}, c, {});
    } else if hiY != Cell.Empty {
      r := g.Set(x, cur, hiY);
      ChangesOnlyInStep(b0, b0, g.board, x, cur, hiY, {x, y}, c, {});
    }
  }

  // ----- TwoByTwo, ExactlyOne, After -----

  /** `TwoByTwo(x1, x2, y1, y2)`: `No(x1, x2)`, `No(y1, y2)`, `Xor(x1, y1, y2)`, `Xor(x2, y1, y2)`. */
  method ApplyTwoByTwo(g: Grid, x1: Label, x2: Label, y1: Label, y2: Label) returns (r: Option<bool>)
    requires g.Valid() && g.shape.Valid(x1) && g.shape.Valid(x2) && g.shape.Valid(y1) && g.shape.Valid(y2)
    modifies g, g.cells
    ensures g.Valid() && Progress(old(g.board), old(g.steps), g.board, g.steps)
    ensures r.Some? ==> (r.value <==> g.board != old(g.board))
    ensures r.Some? ==> TwoByTwoEffect(g.shape, old(g.board), g.board, x1, x2, y1, y2)
    ensures r.None? ==> TwoByTwoClash(g.shape, g.board, x1, x2, y1, y2)
    ensures ChangesOnly(old(g.board), g.board, {x1, x2}, {Canon(y1, y2)})
  {
    ghost var b0, st0 := g.board, g.steps;
    var t := TwoByTwoApart(g, x1, x2, y1, y2);
    if t.None? { return None; }
    var changed := t.value;
    ghost var b2, st2 := g.board, g.steps;
    t := TwoByTwoXors(g, x1, x2, y1, y2);
    ProgressTrans(b0, st0, b2, st2, g.board, g.steps);
    ChangesOnlyTrans(b0, b2, g.board, {x1, x2}, {Canon(y1, y2)});
    if t.None? { return None; }
    changed := changed || t.value;
    EmptyCountExtends(b0, b2);
    EmptyCountExtends(b2, g.board);
    ChangedIff(b0, st0, g.board, g.steps, changed);
    ExtendsCell(b2, g.board, x1, x2);
    ExtendsCell(b2, g.board, y1, y2);
    XorMono(g.shape, b0, b2, g.board, g.board, x1, y1, y2);
    XorMono(g.shape, b0, b2, g.board, g.board, x2, y1, y2);
    return Some(changed);
  }

  /** The second half of `TwoByTwo`: `Xor(x1, y1, y2)`, then `Xor(x2, y1, y2)`. */
  method TwoByTwoXors(g: Grid, x1: Label, x2: Label, y1: Label, y2: Label) returns (r: Option<bool>)
    requires g.Valid() && g.shape.Valid(x1) && g.shape.Valid(x2) && g.shape.Valid(y1) && g.shape.Valid(y2)
    modifies g, g.cells
    ensures g.Valid() && Progress(old(g.board), old(g.steps), g.board, g.steps)
    ensures r.Some? ==> (r.value <==> EmptyCount(g.board) < EmptyCount(old(g.board)))
    ensures r.Some? ==> XorEffect(g.shape, old(g.board), g.board, x1, y1, y2)
    ensures r.Some? ==> XorEffect(g.shape, old(g.board), g.board, x2, y1, y2)
    ensures r.None? ==> XorClash(g.shape, g.board, x1, y1, y2) || XorClash(g.shape, g.board, x2, y1, y2)
    ensures ChangesOnly(old(g.board), g.board, {x1, x2}, {Canon(y1, y2)})
  {
    ghost var b0, st0 := g.board, g.steps;
    var t := ApplyXor(g, x1, y1, y2);
    ChangesOnlyWiden(b0, g.board, {x1}, {Canon(y1, y2)}, {x1, x2}, {Canon(y1, y2)});
    if t.None? { return None; }
    var changed := t.value;
    ghost var b1, st1 := g.board, g.steps;
    t := ApplyXor(g, x2, y1, y2);
    ProgressTrans(b0, st0, b1, st1, g.board, g.steps);
    ChangesOnlyWiden(b1, g.board, {x2}, {Canon(y1, y2)}, {x1, x2}, {Canon(y1, y2)});
    ChangesOnlyTrans(b0, b1, g.board, {x1, x2}, {Canon(y1, y2)});
    if t.None? { return None; }
    changed := changed || t.value;
    EmptyCountExtends(b0, b1);
    EmptyCountExtends(b1, g.board);
    XorMono(g.shape, b0, b0, b1, g.board, x1, y1, y2);
    XorMono(g.shape, b0, b1, g.board, g.board, x2, y1, y2);
    return Some(changed);
  }

  /** The first half of `TwoByTwo`: the two pairs that are different entities are set No. */
  method TwoByTwoApart(g: Grid, x1: Label, x2: Label, y1: Label, y2: Label) returns (r: Option<bool>)
    requires g.Valid() && g.shape.Valid(x1) && g.shape.Valid(x2) && g.shape.Valid(y1) && g.shape.Valid(y2)
    modifies g, g.cells
    ensures g.Valid() && Progress(old(g.board), old(g.steps), g.board, g.steps)
    ensures r.Some? ==> (r.value <==> EmptyCount(g.board) < EmptyCount(old(g.board)))
    ensures r.Some? ==> CellAt(g.board, x1, x2) == Cell.No && CellAt(g.board, y1, y2) == Cell.No
    ensures r.None? ==> CellAt(g.board, x1, x2) == Cell.Yes || CellAt(g.board, y1, y2) == Cell.Yes
    ensures OnlyWrites(old(g.board), g.board, Cell.No) && ChangesOnly(old(g.board), g.board, {x1, x2}, {Canon(y1, y2)})
  {
    ghost var b0, st0 := g.board, g.steps;
    var t := g.Set(x1, x2, Cell.No);
    ChangesOnlyStep(b0, b0, g.board, x1, x2, Cell.No, {x1, x2}, {Canon(y1, y2)});
    if t.None? { return None; }
    var changed := t.value;
    ghost var b1, st1 := g.board, g.steps;
    t := g.Set(y1, y2, Cell.No);
    ProgressTrans(b0, st0, b1, st1, g.board, g.steps);
    ChangesOnlyStep(b0, b1, g.board, y1, y2, Cell.No, {x1, x2}, {Canon(y1, y2)});
    OnlyWritesTrans(b0, b1, g.board, Cell.No);
    if t.None? { return None; }
    ExtendsCell(b1, g.board, x1, x2);
    return Some(changed || t.value);
  }

  /**
   * `ExactlyOne(ps)`: a scan for a Yes among the pairs that counts the No
   * pairs it passes; then, with a Yes, every other pair is set No, and
   * without one, if all but one pair are No, the Empty pair is set Yes. The
   * writes can never contradict, so the result is never `None`.
   */
  method ApplyExactlyOne(g: Grid, ps: seq<(Label, Label)>) returns (r: Option<bool>)
    requires g.Valid() && |ps| > 0
    requires forall i :: 0 <= i < |ps| ==> g.shape.Valid(ps[i].0) && g.shape.Valid(ps[i].1)
    modifies g, g.cells
    ensures g.Valid() && Progress(old(g.board), old(g.steps), g.board, g.steps)
    ensures r.Some? && (r.value <==> g.board != old(g.board))
    ensures ExactlyOneEffect(old(g.board), g.board, ps)
  {
    ghost var b0, st0 := g.board, g.steps;
    var foundYes := false;
    var numNo := 0;
    for k := 0 to |ps|
      invariant !foundYes ==> numNo == NoCount(b0, ps[..k])
      invariant !foundYes ==> forall i :: 0 <= i < k ==> CellAt(b0, ps[i].0, ps[i].1) != Cell.Yes
    {
      assert ps[..k + 1][..k] == ps[..k];
      match g.At(ps[k].0, ps[k].1)
      case Yes =>
        foundYes := true;
        assert SomeYes(b0, ps);
        break;
      case No =>
        numNo := numNo + 1;
      case Empty =>
    }
    var changed := false;
    if foundYes {
      changed := ForceNo(g, ps);
    } else {
      assert ps[..|ps|] == ps;
      if numNo == |ps| - 1 {
        changed := ForceYes(g, ps);
      }
    }
    ChangedIff(b0, st0, g.board, g.steps, changed);
    return Some(changed);
  }

  /** With a Yes among the pairs: every pair that is not Yes is set No. */
  method ForceNo(g: Grid, ps: seq<(Label, Label)>) returns (changed: bool)
    requires g.Valid()
    requires forall i :: 0 <= i < |ps| ==> g.shape.Valid(ps[i].0) && g.shape.Valid(ps[i].1)
    modifies g, g.cells
    ensures g.Valid() && Progress(old(g.board), old(g.steps), g.board, g.steps)
    ensures changed <==> EmptyCount(g.board) < EmptyCount(old(g.board))
    ensures forall k :: k in old(g.board) && k !in PairKeys(ps) ==> g.board[k] == old(g.board)[k]
    ensures forall i :: 0 <= i < |ps| ==>
      CellAt(g.board, ps[i].0, ps[i].1) == (if CellAt(old(g.board), ps[i].0, ps[i].1) == Cell.Yes then Cell.Yes else Cell.No)
  {
    ghost var b0, st0 := g.board, g.steps;
    var s := g.shape;
    changed := false;
    for k := 0 to |ps|
      invariant g.Valid() && g.shape == s && Progress(b0, st0, g.board, g.steps)
      invariant changed <==> EmptyCount(g.board) < EmptyCount(b0)
      invariant OnlyWrites(b0, g.board, Cell.No)
      invariant forall key :: key in b0 && key !in PairKeys(ps) ==> g.board[key] == b0[key]
      invariant ForcedNoUpTo(b0, g.board, ps, k)
    {
      ghost var bk, stk := g.board, g.steps;
      var x, y := ps[k].0, ps[k].1;
      assert Canon(x, y) in PairKeys(ps);
      ExtendsCell(b0, bk, x, y);
      if g.At(x, y) != Cell.Yes {
        var t := g.Set(x, y, Cell.No);
        assert t.Some?;
        changed := changed || t.value;
        ProgressTrans(b0, st0, bk, stk, g.board, g.steps);
        OnlyWritesTrans(b0, bk, g.board, Cell.No);
      }
      ForcedNoNext(b0, bk, g.board, ps, k);
    }
  }

  /** Each of the first `k` pairs is Yes on `b` if it was Yes on `b0`, and No otherwise. */
  ghost predicate ForcedNoUpTo(b0: Board, b: Board, ps: seq<(Label, Label)>, k: nat) {
    k <= |ps| &&
    forall i :: 0 <= i < k ==>
      CellAt(b, ps[i].0, ps[i].1) == (if CellAt(b0, ps[i].0, ps[i].1) == Cell.Yes then Cell.Yes else Cell.No)
  }

  /** Settling pair `k` extends the prefix by one; the earlier pairs, already decided, stay. */
  lemma ForcedNoNext(b0: Board, bk: Board, b1: Board, ps: seq<(Label, Label)>, k: nat)
    requires ForcedNoUpTo(b0, bk, ps, k) && k < |ps| && Extends(bk, b1)
    requires CellAt(b1, ps[k].0, ps[k].1) == (if CellAt(b0, ps[k].0, ps[k].1) == Cell.Yes then Cell.Yes else Cell.No)
    ensures ForcedNoUpTo(b0, b1, ps, k + 1)
  {
    forall i | 0 <= i < k
      ensures CellAt(b1, ps[i].0, ps[i].1) == (if CellAt(b0, ps[i].0, ps[i].1) == Cell.Yes then Cell.Yes else Cell.No)
    {
      ExtendsCell(bk, b1, ps[i].0, ps[i].1);
    }
  }

  /** With no Yes and all but one pair No: every Empty pair is set Yes. */
  method ForceYes(g: Grid, ps: seq<(Label, Label)>) returns (changed: bool)
    requires g.Valid()
    requires forall i :: 0 <= i < |ps| ==> g.shape.Valid(ps[i].0) && g.shape.Valid(ps[i].1)
    modifies g, g.cells
    ensures g.Valid() && Progress(old(g.board), old(g.steps), g.board, g.steps)
    ensures changed <==> EmptyCount(g.board) < EmptyCount(old(g.board))
    ensures forall k :: k in old(g.board) && k !in PairKeys(ps) ==> g.board[k] == old(g.board)[k]
    ensures forall i :: 0 <= i < |ps| ==>
      CellAt(g.board, ps[i].0, ps[i].1) ==
      (if CellAt(old(g.board), ps[i].0, ps[i].1) == Cell.Empty then Cell.Yes else CellAt(old(g.board), ps[i].0, ps[i].1))
  {
    ghost var b0, st0 := g.board, g.steps;
    var s := g.shape;
    changed := false;
    for k := 0 to |ps|
      invariant g.Valid() && g.shape == s && Progress(b0, st0, g.board, g.steps)
      invariant changed <==> EmptyCount(g.board) < EmptyCount(b0)
      invariant OnlyWrites(b0, g.board, Cell.Yes)
      invariant forall key :: key in b0 && key !in PairKeys(ps) ==> g.board[key] == b0[key]
      invariant forall i :: 0 <= i < k ==>
        CellAt(g.board, ps[i].0, ps[i].1) ==
        (if CellAt(b0, ps[i].0, ps[i].1) == Cell.Empty then Cell.Yes else CellAt(b0, ps[i].0, ps[i].1))
    {
      ghost var bk, stk := g.board, g.steps;
      var x, y := ps[k].0, ps[k].1;
      assert Canon(x, y) in PairKeys(ps);
      ExtendsCell(b0, bk, x, y);
      if g.At(x, y) == Cell.Empty {
        var t := g.Set(x, y, Cell.Yes);
        assert t.Some?;
        changed := changed || t.value;
        ProgressTrans(b0, st0, bk, stk, g.board, g.steps);
        OnlyWritesTrans(b0, bk, g.board, Cell.Yes);
      }
      forall i | 0 <= i < k + 1
        ensures CellAt(g.board, ps[i].0, ps[i].1) ==
          (if CellAt(b0, ps[i].0, ps[i].1) == Cell.Empty then Cell.Yes else CellAt(b0, ps[i].0, ps[i].1))
      {
        ExtendsCell(bk, g.board, ps[i].0, ps[i].1);
      }
    }
  }

  /** `After(x, c, y)` is `AfterAtLeast(x, c, y, 1)`. */
  method ApplyAfter(g: Grid, x: Label, c: Category, y: Label) returns (r: Option<bool>)
    requires g.Valid() && g.shape.Valid(x) && g.shape.Valid(y) && c.index < g.shape.categories
    modifies g, g.cells
    ensures g.Valid() && Progress(old(g.board), old(g.steps), g.board, g.steps)
    ensures r == Some(true) ==> g.board != old(g.board)
    ensures r.Some? ==> AfterAtLeastEffect(g.shape, old(g.board), g.board, x, c, y, 1)
    ensures r.None? ==> AfterAtLeastClash(g.shape, g.board, x, c, y, 1)
    ensures OnlyWrites(old(g.board), g.board, Cell.No) && ChangesOnlyIn(old(g.board), g.board, {x, y}, c, {Canon(x, y)})
  {
    r := ApplyAfterAtLeast(g, x, c, y, 1);
  }

  /**
   * `Rule::apply` for a constraint: `None` on a contradiction; otherwise the
   * kind's effect holds between the board before and after, a reported change
   * is a real one, and every kind but `After` and `AfterAtLeast` reports
   * every change. `ExactlyOne` never reports a contradiction.
   */
  method Apply(g: Grid, c: Constraint) returns (r: Option<bool>)
    requires g.Valid() && Admissible(g.shape, c)
    modifies g, g.cells
    ensures g.Valid() && Progress(old(g.board), old(g.steps), g.board, g.steps)
    ensures r == Some(true) ==> g.board != old(g.board)
    ensures (r.Some? && ReportsEveryChange(c)) ==> (r.value <==> g.board != old(g.board))
    ensures r.Some? ==> Propagated(g.shape, c, old(g.board), g.board)
    ensures r.None? ==> Contradicted(g.shape, c, g.board)
    ensures WritesWithin(c, old(g.board), g.board)
    ensures c.ExactlyOne? ==> r.Some?
  {
    match c
    case Yes(x, y) => r := ApplyYes(g, x, y);
    case No(x, y) => r := ApplyNo(g, x, y);
    case Or(x, y, z) => r := ApplyOr(g, x, y, z);
    case Xor(x, y, z) => r := ApplyXor(g, x, y, z);
    case After(x, cat, y) => r := ApplyAfter(g, x, cat, y);
    case AfterAtLeast(x, cat, y, n) => r := ApplyAfterAtLeast(g, x, cat, y, n);
    case AfterExactly(x, cat, y, n) => r := ApplyAfterExactly(g, x, cat, y, n);
    case Distance(x, cat, y, n) => r := ApplyDistance(g, x, cat, y, n);
    case TwoByTwo(x1, x2, y1, y2) => r := ApplyTwoByTwo(g, x1, x2, y1, y2);
    case ExactlyOne(ps) => r := ApplyExactlyOne(g, ps);
  }
}
