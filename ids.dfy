/**
 * Identifiers of the puzzle space (`Category`, `Label` in puzzle.rs) and the
 * dense numbering the grid uses for them: label `(c, l)` has index `lpc * c + l`
 * where `lpc` is the number of labels per category.
 */
module Ids {

  /** Index of a category, 0-based, in the order the categories were added. */
  datatype Category = Category(index: nat)

  /** A label: its category and its position inside that category (the source calls the
      position field `label`, a reserved word here). */
  datatype Label = Label(category: Category, position: nat)

  /** The size of the puzzle: how many categories, and how many labels each has. */
  datatype Shape = Shape(categories: nat, perCategory: nat)
  {
    /** Number of labels in the puzzle, also the side of the grid. */
    function Size(): nat { categories * perCategory }

    /** A label that names a real row of the grid. */
    predicate Valid(l: Label) {
      l.category.index < categories && l.position < perCategory
    }
  }

  /** Dense index of a label (the row/column the grid uses for it). */
  function Index(lpc: nat, l: Label): nat {
    lpc * l.category.index + l.position
  }

  /** The `i`-th label, `(i / lpc, i % lpc)`, as `Grid::labels` computes it. */
  function LabelAt(lpc: nat, i: nat): Label
    requires lpc > 0
  {
    Label(Category(i / lpc), i % lpc)
  }

  lemma MulMonotone(a: nat, b: nat, c: nat)
    requires b <= c
    ensures a * b <= a * c
  {
  }

  /** Euclidean division by `lpc` recovers the category and the position. */
  lemma DivModUnique(lpc: nat, q: nat, r: nat)
    requires r < lpc
    ensures (lpc * q + r) / lpc == q && (lpc * q + r) % lpc == r
  {
    var x := lpc * q + r;
    var q', r' := x / lpc, x % lpc;
    assert x == lpc * q' + r' && 0 <= r' < lpc;
    if q' < q {
      MulMonotone(lpc, q' + 1, q);
      assert false;
    } else if q < q' {
      MulMonotone(lpc, q + 1, q');
      assert false;
    }
  }

  /** A valid label's index is inside the grid. */
  lemma IndexInRange(s: Shape, l: Label)
    requires s.Valid(l)
    ensures Index(s.perCategory, l) < s.Size()
  {
    var c := l.category.index;
    MulMonotone(s.perCategory, c + 1, s.categories);
  }

  /** `LabelAt` undoes `Index`. */
  lemma LabelAtIndex(lpc: nat, l: Label)
    requires l.position < lpc
    ensures LabelAt(lpc, Index(lpc, l)) == l
  {
    DivModUnique(lpc, l.category.index, l.position);
  }

  /** `Index` undoes `LabelAt`, and every index of the grid names a valid label. */
  lemma IndexLabelAt(s: Shape, i: nat)
    requires i < s.Size()
    ensures s.perCategory > 0
    ensures s.Valid(LabelAt(s.perCategory, i)) && Index(s.perCategory, LabelAt(s.perCategory, i)) == i
  {
    var lpc := s.perCategory;
    assert i == lpc * (i / lpc) + i % lpc;
    if i / lpc >= s.categories {
      MulMonotone(lpc, s.categories, i / lpc);
    }
  }

  /** Distinct valid labels have distinct indices. */
  lemma IndexInjective(lpc: nat, a: Label, b: Label)
    requires a.position < lpc && b.position < lpc
    requires Index(lpc, a) == Index(lpc, b)
    ensures a == b
  {
    LabelAtIndex(lpc, a);
    LabelAtIndex(lpc, b);
  }
}
