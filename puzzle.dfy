/**
 * `Puzzle` (src/puzzle.rs, crates/gridsolve/src/puzzle.rs): the names of a
 * puzzle's categories and labels, the constraints its clues stand for, and
 * the reader that builds one from the text of a puzzle file.
 *
 * A puzzle file is a `[Categories]` line, then one block per category (its
 * name on a line, then its labels one per line up to a blank line), then a
 * `[Clues]` line, then one clue per line: a clue name, the clue kind and its
 * arguments, separated by commas.
 */
module Puzzle {
  import opened Ids
  import opened Wrappers
  import opened Text
  import opened BiMaps
  import opened Constraint

  /**
   * `Error` of src/puzzle.rs. File I/O errors are not modelled, and a
   * `ParseIntError` carries no detail here. `InvalidCategoryName` exists
   * only in the corrected `AddCategory` (see `AddCategoryAsWritten`).
   */
  datatype PuzzleError =
    | InvalidLabelName(name: string)
    | MissingCategories
    | MissingClues
    | InvalidClue(clue: string)
    | InvalidLabelCount(category: string, expected: nat, found: nat)
    | CategoryNotFound(name: string)
    | LabelNotFound(name: string)
    | InvalidInteger
    | InvalidCategoryName(name: string)

  /** A category block of a puzzle file: the name line and the label lines. */
  datatype Block = Block(name: string, labels: seq<string>)

  /** The categories of the map are exactly `Category(0) .. Category(len - 1)`. */
  ghost predicate Numbered(m: BiMap<Category, string>) {
    forall c :: c in m.left <==> c.index < m.Len()
  }

  /**
   * `m` is `m0` with the labels `0 .. k - 1` of the new category `c` added,
   * position `j` named `names[j]`.
   */
  ghost predicate AddsLabels(m0: map<Label, string>, m: map<Label, string>, c: Category, names: seq<string>, k: nat) {
    k <= |names| &&
    (forall l :: l in m <==> l in m0 || (l.category == c && l.position < k)) &&
    (forall l :: l in m0 ==> m[l] == m0[l]) &&
    (forall j :: 0 <= j < k ==> Label(c, j) in m && m[Label(c, j)] == names[j])
  }

  /** None of the first `k` names is already a label of `m`, and none repeats an earlier one. */
  ghost predicate FreshPrefix(m: BiMap<Label, string>, names: seq<string>, k: nat) {
    k <= |names| &&
    forall i :: 0 <= i < k ==> names[i] !in m.right && forall j :: 0 <= j < i ==> names[j] != names[i]
  }

  /** A fresh prefix stays fresh when shortened. */
  lemma FreshPrefixShrinks(m: BiMap<Label, string>, names: seq<string>, k: nat, j: nat)
    ensures FreshPrefix(m, names, k) && j <= k ==> FreshPrefix(m, names, j)
  {
  }

  /** No name of `names` is already a label of `m`, and no name repeats. */
  ghost predicate FreshNames(m: BiMap<Label, string>, names: seq<string>) {
    FreshPrefix(m, names, |names|)
  }

  /** A name not yet in use, after a fresh prefix whose labels are in `m`, extends the prefix by one. */
  lemma FreshOneMore(m0: BiMap<Label, string>, m: BiMap<Label, string>, c: Category, names: seq<string>, i: nat)
    requires m0.Valid() && m.Valid() && i < |names|
    requires FreshPrefix(m0, names, i) && AddsLabels(m0.left, m.left, c, names, i)
    requires names[i] !in m.right
    ensures FreshPrefix(m0, names, i + 1)
  {
    forall j | 0 <= j < i
      ensures names[j] != names[i]
    {
      assert m.left[Label(c, j)] == names[j];
    }
  }

  /** Naming label `i` of the new category with a name not yet in use adds that one label. */
  lemma LabelsOneMore(m0: map<Label, string>, m: BiMap<Label, string>, c: Category, names: seq<string>, i: nat)
    requires m.Valid() && i < |names| && AddsLabels(m0, m.left, c, names, i)
    requires names[i] !in m.right && Label(c, i) !in m.left
    ensures AddsLabels(m0, m.Insert(Label(c, i), names[i]).left, c, names, i + 1)
  {
    InsertFresh(m, Label(c, i), names[i]);
  }

  /**
   * The invariant of a puzzle's maps: both are one-to-one, the categories
   * are numbered from 0, and the labels are exactly positions `0 .. k - 1`
   * of every category, where `k` is the common category size.
   */
  ghost predicate ValidMaps(cm: BiMap<Category, string>, lm: BiMap<Label, string>, k: nat) {
    cm.Valid() && lm.Valid() && Numbered(cm) &&
    (forall l :: l in lm.left <==> l.category.index < cm.Len() && l.position < k) &&
    lm.Len() == Times(cm.Len(), k)
  }

  /**
   * Adding a category under the next index and a name not in use, with a
   * full set of labels of the common size, keeps the invariant.
   */
  lemma AddCategoryKeepsValid(cm: BiMap<Category, string>, lm0: BiMap<Label, string>, lm: BiMap<Label, string>,
                              k: nat, name: string, names: seq<string>)
    requires ValidMaps(cm, lm0, k) && lm.Valid()
    requires cm.Len() == 0 || |names| == k
    requires name !in cm.right
    requires AddsLabels(lm0.left, lm.left, Category(cm.Len()), names, |names|)
    requires lm.Len() == lm0.Len() + |names|
    ensures cm.Insert(Category(cm.Len()), name).left == cm.left[Category(cm.Len()) := name]
    ensures ValidMaps(cm.Insert(Category(cm.Len()), name), lm, |names|)
  {
    NumberedNext(cm, name);
    var k1 := |names|;
    if cm.Len() == 0 {
      assert forall l :: l !in lm0.left;
    }
    LabelsNext(cm.Len(), lm0.left, lm.left, k1, names);
    if cm.Len() > 0 {
      assert Times(cm.Len() + 1, k1) == Times(cm.Len(), k) + k1;
    }
  }

  /** `n` categories of `k` labels each: `n` times `k`, counted one category at a time. */
  function Times(n: nat, k: nat): nat {
    if n == 0 then 0 else Times(n - 1, k) + k
  }

  /** Counting one category at a time gives the product. */
  lemma {:induction false} TimesIsProduct(n: nat, k: nat)
    ensures Times(n, k) == n * k
  {
    if n > 0 {
      TimesIsProduct(n - 1, k);
    }
  }

  /** Inserting a fresh name under the next index keeps the categories numbered. */
  lemma NumberedNext(cm: BiMap<Category, string>, name: string)
    requires cm.Valid() && Numbered(cm) && name !in cm.right
    ensures cm.Insert(Category(cm.Len()), name).left == cm.left[Category(cm.Len()) := name]
    ensures cm.Insert(Category(cm.Len()), name).Len() == cm.Len() + 1
    ensures Numbered(cm.Insert(Category(cm.Len()), name))
  {
    assert Category(cm.Len()) !in cm.left;
    InsertFresh(cm, Category(cm.Len()), name);
  }

  /** The labels of `n` categories of size `k`, plus a category `n` of size `k`, are those of `n + 1` categories. */
  lemma LabelsNext(n: nat, m0: map<Label, string>, m: map<Label, string>, k: nat, names: seq<string>)
    requires forall l :: l in m0 <==> l.category.index < n && l.position < k
    requires AddsLabels(m0, m, Category(n), names, k)
    ensures forall l :: l in m <==> l.category.index < n + 1 && l.position < k
  {
  }

  /** The kind keyword of the clues that stand for `c`; no clue stands for a `Distance`. */
  function Keyword(c: Constraint): string {
    match c
    case Yes(_, _) => "yes"
    case No(_, _) => "no"
    case After(_, _, _) => "after"
    case AfterAtLeast(_, _, _, _) => "afteratleast"
    case AfterExactly(_, _, _, _) => "afterexactly"
    case Or(_, _, _) => "or"
    case Xor(_, _, _) => "xor"
    case Distance(_, _, _, _) => ""
    case TwoByTwo(_, _, _, _) => "twobytwo"
    case ExactlyOne(_) => "exactlyone"
  }

  /**
   * The fields pass the reader's guards: a kind it knows, as many fields as
   * the kind reads (with the corrected arity) and, for `exactlyone`, an even
   * number of arguments.
   */
  predicate WellShapedClue(f: seq<string>) {
    |f| >= 2 && KnownKind(f[0]) && |f| >= Arity(f[0]) && (f[0] == "exactlyone" ==> |f| % 2 == 1)
  }

  /** The clue kinds the reader knows. */
  predicate KnownKind(kind: string) {
    kind in {"yes", "no", "after", "afteratleast", "afterexactly", "or", "xor", "twobytwo", "exactlyone"}
  }

  /**
   * The fewest fields (kind included) each kind's guard accepts, as
   * src/puzzle.rs writes the guards: `afteratleast` and `afterexactly`
   * accept four fields although they read the fifth.
   */
  function ArityAsWritten(kind: string): nat {
    if kind == "yes" || kind == "no" then 3
    else if kind in {"after", "afteratleast", "afterexactly", "or", "xor"} then 4
    else if kind == "twobytwo" || kind == "exactlyone" then 5
    else 0
  }

  /** The guards' field counts, corrected: every kind reads only fields its guard admits. */
  function Arity(kind: string): nat {
    if kind == "afteratleast" || kind == "afterexactly" then 5 else ArityAsWritten(kind)
  }

  /**
   * A four-field `afteratleast` clue passes the guard as written, and its
   * count `parts[4]` is then read past the end of the fields.
   */
  lemma ShortAfterAtLeastPassesGuard()
    ensures var f := ["afteratleast", "Alice", "Seat", "Bob"];
      |f| >= ArityAsWritten(f[0]) && |f| <= 4 && |f| < Arity(f[0])
  {
  }

  // ----- what a clue line means -----

  /** `l` is the label named `name` in the label map `lm`. */
  ghost predicate NamesLabel(lm: BiMap<Label, string>, l: Label, name: string) {
    l in lm.left && lm.left[l] == name
  }

  /** `c` is the category named `name` in the category map `cm`. */
  ghost predicate NamesCategory(cm: BiMap<Category, string>, c: Category, name: string) {
    c in cm.left && cm.left[c] == name
  }

  /**
   * The shape of the grid for these maps: the number of categories, and
   * the number of labels over the number of categories (none when there
   * are no categories).
   */
  function ShapeOf(cm: BiMap<Category, string>, lm: BiMap<Label, string>): Shape {
    if cm.Len() == 0 then Ids.Shape(0, 0) else Ids.Shape(cm.Len(), lm.Len() / cm.Len())
  }

  /**
   * The arguments of the clue whose fields (kind first) are `f` are those
   * of `c`: every label and category argument is the one its field names,
   * and the count of `afteratleast` and `afterexactly` is the decimal
   * number of the fifth field and below the category size. Fields beyond
   * those a kind reads are ignored.
   */
  ghost predicate Reads(cm: BiMap<Category, string>, lm: BiMap<Label, string>, f: seq<string>, c: Constraint) {
    match c
    case Yes(x, y) => |f| >= 3 && NamesLabel(lm, x, f[1]) && NamesLabel(lm, y, f[2])
    case No(x, y) => |f| >= 3 && NamesLabel(lm, x, f[1]) && NamesLabel(lm, y, f[2])
    case After(x, cat, y) =>
      |f| >= 4 && NamesLabel(lm, x, f[1]) && NamesCategory(cm, cat, f[2]) && NamesLabel(lm, y, f[3])
    case AfterAtLeast(x, cat, y, n) =>
      |f| >= 5 && ParseUsize(f[4]) == Some(n) && n < ShapeOf(cm, lm).perCategory &&
      NamesLabel(lm, x, f[1]) && NamesCategory(cm, cat, f[2]) && NamesLabel(lm, y, f[3])
    case AfterExactly(x, cat, y, n) =>
      |f| >= 5 && ParseUsize(f[4]) == Some(n) && n < ShapeOf(cm, lm).perCategory &&
      NamesLabel(lm, x, f[1]) && NamesCategory(cm, cat, f[2]) && NamesLabel(lm, y, f[3])
    case Or(x, y, z) =>
      |f| >= 4 && NamesLabel(lm, x, f[1]) && NamesLabel(lm, y, f[2]) && NamesLabel(lm, z, f[3])
    case Xor(x, y, z) =>
      |f| >= 4 && NamesLabel(lm, x, f[1]) && NamesLabel(lm, y, f[2]) && NamesLabel(lm, z, f[3])
    case Distance(_, _, _, _) => false
    case TwoByTwo(x1, x2, y1, y2) =>
      |f| >= 5 && NamesLabel(lm, x1, f[1]) && NamesLabel(lm, x2, f[2]) &&
      NamesLabel(lm, y1, f[3]) && NamesLabel(lm, y2, f[4])
    case ExactlyOne(ps) => |f| >= 5 && NamesPairs(lm, f, ps)
  }

  /**
   * `ps` are the pairs the fields after the kind name, two by two: there is
   * an even number of them and pair `i` is named by fields `2i+1`, `2i+2`.
   */
  ghost predicate NamesPairs(lm: BiMap<Label, string>, f: seq<string>, ps: seq<(Label, Label)>) {
    |f| % 2 == 1 && |ps| == |f| / 2 &&
    forall i :: 0 <= i < |ps| ==> NamesLabel(lm, ps[i].0, f[2 * i + 1]) && NamesLabel(lm, ps[i].1, f[2 * i + 2])
  }

  /**
   * The clue whose fields are `f` stands for `c`: its kind is the keyword
   * of `c` and its arguments are those of `c`. No clue stands for a
   * `Distance`.
   */
  ghost predicate Denotes(cm: BiMap<Category, string>, lm: BiMap<Label, string>, f: seq<string>, c: Constraint) {
    |f| > 0 && f[0] == Keyword(c) && Reads(cm, lm, f, c)
  }

  /** A clue that stands for a constraint has the field count its kind needs. */
  lemma DenotesNeeds(cm: BiMap<Category, string>, lm: BiMap<Label, string>, f: seq<string>, c: Constraint)
    ensures Denotes(cm, lm, f, c) ==> WellShapedClue(f)
  {
  }

  /** Each of `cs` is the constraint its clue line (counting from `i0`) stands for. */
  ghost predicate ReadsClues(cm: BiMap<Category, string>, lm: BiMap<Label, string>,
                             lines: seq<string>, i0: nat, cs: seq<Constraint>) {
    i0 + |cs| <= |lines| &&
    forall t {:trigger cs[t]} :: 0 <= t < |cs| ==> Denotes(cm, lm, Fields(lines[i0 + t]), cs[t])
  }

  /** Appending the constraint of the next clue line keeps `ReadsClues`. */
  lemma ReadsCluesSnoc(cm: BiMap<Category, string>, lm: BiMap<Label, string>,
                       lines: seq<string>, i0: nat, cs: seq<Constraint>, line: string, c: Constraint)
    requires ReadsClues(cm, lm, lines, i0, cs) && i0 + |cs| < |lines| && lines[i0 + |cs|] == line
    requires Denotes(cm, lm, Fields(line), c)
    ensures ReadsClues(cm, lm, lines, i0, cs + [c])
  {
    var cs' := cs + [c];
    forall t | 0 <= t < |cs'| ensures Denotes(cm, lm, Fields(lines[i0 + t]), cs'[t]) {
      if t < |cs| {
        assert cs'[t] == cs[t];
      }
    }
  }

  /**
   * The maps hold exactly the blocks' categories, in order: category `k`
   * has the name of block `k` and its label `j` the `j`-th label line.
   */
  ghost predicate HasBlocks(cm: BiMap<Category, string>, lm: BiMap<Label, string>, blocks: seq<Block>) {
    cm.Len() == |blocks| &&
    (forall k :: 0 <= k < |blocks| ==> NamesCategory(cm, Category(k), blocks[k].name)) &&
    forall k, j :: 0 <= k < |blocks| && 0 <= j < |blocks[k].labels| ==>
      NamesLabel(lm, Label(Category(k), j), blocks[k].labels[j])
  }

  /** Adding the category of the next block, with its labels, extends `HasBlocks` by that block. */
  lemma HasBlocksNext(cm0: BiMap<Category, string>, lm0: BiMap<Label, string>,
                      cm: BiMap<Category, string>, lm: BiMap<Label, string>, blocks: seq<Block>, b: Block)
    requires HasBlocks(cm0, lm0, blocks)
    requires cm.left == cm0.left[Category(|blocks|) := b.name] && Category(|blocks|) !in cm0.left
    requires AddsLabels(lm0.left, lm.left, Category(|blocks|), b.labels, |b.labels|)
    ensures HasBlocks(cm, lm, blocks + [b])
  {
    var bs := blocks + [b];
    forall k, j | 0 <= k < |bs| && 0 <= j < |bs[k].labels|
      ensures NamesLabel(lm, Label(Category(k), j), bs[k].labels[j])
    {
      if k < |blocks| {
        assert NamesLabel(lm0, Label(Category(k), j), blocks[k].labels[j]);
      }
    }
  }

  /** Every block has `k` labels. */
  ghost predicate SizedBlocks(blocks: seq<Block>, k: nat) {
    forall i :: 0 <= i < |blocks| ==> |blocks[i].labels| == k
  }

  /**
   * The maps of a valid puzzle whose categories have `k` labels each hold
   * exactly the categories of `blocks`.
   */
  ghost predicate Describes(cm: BiMap<Category, string>, lm: BiMap<Label, string>, k: nat, blocks: seq<Block>) {
    ValidMaps(cm, lm, k) && HasBlocks(cm, lm, blocks) && SizedBlocks(blocks, k)
  }

  /**
   * `add_category` takes block `b` after the blocks `blocks`: it has as many
   * labels as the first block (if any), its name is no earlier block's
   * name, and none of its labels is a label of an earlier block or repeats
   * one of its own.
   */
  ghost predicate Accepts(blocks: seq<Block>, b: Block) {
    (|blocks| == 0 || |b.labels| == |blocks[0].labels|) &&
    (forall i :: 0 <= i < |blocks| ==> blocks[i].name != b.name) &&
    forall p :: 0 <= p < |b.labels| ==>
      (forall i, j :: 0 <= i < |blocks| && 0 <= j < |blocks[i].labels| ==> blocks[i].labels[j] != b.labels[p]) &&
      (forall q :: 0 <= q < p ==> b.labels[q] != b.labels[p])
  }

  /** Each block is taken after the blocks before it. */
  ghost predicate AllAccepted(blocks: seq<Block>) {
    forall i :: 0 <= i < |blocks| ==> Accepts(blocks[..i], blocks[i])
  }

  /** Taking one more block keeps every block taken. */
  lemma AllAcceptedSnoc(blocks: seq<Block>, b: Block)
    requires AllAccepted(blocks) && Accepts(blocks, b)
    ensures AllAccepted(blocks + [b])
  {
    var bs := blocks + [b];
    assert bs[..|blocks|] == blocks;
    forall i | 0 <= i < |bs| ensures Accepts(bs[..i], bs[i]) {
      if i < |blocks| {
        assert bs[..i] == blocks[..i];
      }
    }
  }

  /** A block that is not taken where it stands leaves the whole list not taken. */
  lemma RejectedBlock(blocks: seq<Block>, b: Block, rest: seq<Block>)
    requires !Accepts(blocks, b)
    ensures !AllAccepted(blocks + [b] + rest)
  {
    var bs := blocks + [b] + rest;
    assert bs[..|blocks|] == blocks && bs[|blocks|] == b;
  }

  /** The names of the described categories are those of the blocks. */
  lemma CategoryNamesOf(cm: BiMap<Category, string>, lm: BiMap<Label, string>, k: nat, blocks: seq<Block>, name: string)
    requires Describes(cm, lm, k, blocks)
    ensures name in cm.right <==> exists i :: 0 <= i < |blocks| && blocks[i].name == name
  {
    if name in cm.right {
      var c := cm.right[name];
      assert c == Category(c.index) && NamesCategory(cm, Category(c.index), blocks[c.index].name);
    }
    forall i | 0 <= i < |blocks| && blocks[i].name == name ensures name in cm.right {
      assert NamesCategory(cm, Category(i), blocks[i].name);
    }
  }

  /** The names of the described labels are those of the blocks' labels. */
  lemma LabelNamesOf(cm: BiMap<Category, string>, lm: BiMap<Label, string>, k: nat, blocks: seq<Block>, name: string)
    requires Describes(cm, lm, k, blocks)
    ensures name in lm.right <==>
      exists i, j :: 0 <= i < |blocks| && 0 <= j < |blocks[i].labels| && blocks[i].labels[j] == name
  {
    if name in lm.right {
      var l := lm.right[name];
      var i, j := l.category.index, l.position;
      assert l == Label(Category(i), j) && i < |blocks| && j < |blocks[i].labels|;
      assert NamesLabel(lm, Label(Category(i), j), blocks[i].labels[j]);
    }
    forall i, j | 0 <= i < |blocks| && 0 <= j < |blocks[i].labels| && blocks[i].labels[j] == name
      ensures name in lm.right
    {
      assert NamesLabel(lm, Label(Category(i), j), blocks[i].labels[j]);
    }
  }

  /**
   * On maps that describe `blocks`, the condition under which
   * `add_category` succeeds is that it takes the next block.
   */
  lemma AcceptsIff(cm: BiMap<Category, string>, lm: BiMap<Label, string>, k: nat, blocks: seq<Block>, b: Block)
    requires Describes(cm, lm, k, blocks)
    ensures Accepts(blocks, b) <==>
      (cm.Len() == 0 || |b.labels| == k) && b.name !in cm.right && FreshNames(lm, b.labels)
  {
    CategoryNamesOf(cm, lm, k, blocks, b.name);
    forall p | 0 <= p < |b.labels| {
      LabelNamesOf(cm, lm, k, blocks, b.labels[p]);
    }
  }

  /** A one-to-one map is determined by its left side. */
  lemma SameLeftSameMap<L(!new), R>(m: BiMap<L, R>, m': BiMap<L, R>)
    requires m.Valid() && m'.Valid() && m.left == m'.left
    ensures m == m'
  {
    forall r | r in m.right ensures r in m'.right && m'.right[r] == m.right[r] {
      assert m'.left[m.right[r]] == r;
    }
    forall r | r in m'.right ensures r in m.right {
      assert m.left[m'.right[r]] == r;
    }
  }

  /** Two category maps that hold the same blocks have the same left side. */
  lemma CategoriesUnique(cm: BiMap<Category, string>, cm': BiMap<Category, string>, lm: BiMap<Label, string>,
                         lm': BiMap<Label, string>, blocks: seq<Block>)
    requires Numbered(cm) && Numbered(cm') && HasBlocks(cm, lm, blocks) && HasBlocks(cm', lm', blocks)
    ensures cm.left == cm'.left
  {
    forall c | c in cm.left ensures c in cm'.left && cm'.left[c] == cm.left[c] {
      assert c == Category(c.index) && NamesCategory(cm', Category(c.index), blocks[c.index].name);
    }
    forall c | c in cm'.left ensures c in cm.left {
      assert c.index < |blocks|;
    }
  }

  /**
   * Every label of `lm`, whose labels lie within the blocks, is in `lm'`
   * with the same name when both hold the blocks.
   */
  lemma LabelsWithin(cm: BiMap<Category, string>, lm: BiMap<Label, string>, k: nat,
                     cm': BiMap<Category, string>, lm': BiMap<Label, string>, blocks: seq<Block>)
    requires forall l :: l in lm.left ==> l.category.index < |blocks| && l.position < k
    requires SizedBlocks(blocks, k) && HasBlocks(cm, lm, blocks) && HasBlocks(cm', lm', blocks)
    ensures forall l :: l in lm.left ==> l in lm'.left && lm'.left[l] == lm.left[l]
  {
    forall l | l in lm.left ensures l in lm'.left && lm'.left[l] == lm.left[l] {
      var i, j := l.category.index, l.position;
      assert l == Label(Category(i), j) && j < |blocks[i].labels|;
      assert NamesLabel(lm, Label(Category(i), j), blocks[i].labels[j]);
      assert NamesLabel(lm', Label(Category(i), j), blocks[i].labels[j]);
    }
  }

  /** Two pairs of maps that describe the same blocks are the same maps. */
  lemma DescribesUnique(cm: BiMap<Category, string>, lm: BiMap<Label, string>, k: nat,
                        cm': BiMap<Category, string>, lm': BiMap<Label, string>, k': nat, blocks: seq<Block>)
    requires Describes(cm, lm, k, blocks) && Describes(cm', lm', k', blocks)
    ensures cm == cm' && lm == lm'
  {
    CategoriesUnique(cm, cm', lm, lm', blocks);
    LabelsWithin(cm, lm, k, cm', lm', blocks);
    LabelsWithin(cm', lm', k', cm, lm, blocks);
    SameLeftSameMap(cm, cm');
    SameLeftSameMap(lm, lm');
  }

  /** Some constraint is what the clue line `line` stands for. */
  ghost predicate Readable(cm: BiMap<Category, string>, lm: BiMap<Label, string>, line: string) {
    exists c :: Denotes(cm, lm, Fields(line), c)
  }

  /** Every line from `i0` on stands for some constraint. */
  ghost predicate AllReadable(cm: BiMap<Category, string>, lm: BiMap<Label, string>, lines: seq<string>, i0: nat) {
    forall i :: i0 <= i < |lines| ==> Readable(cm, lm, lines[i])
  }

  /** Each line that `ReadsClues` has read stands for some constraint. */
  lemma ReadsCluesReadable(cm: BiMap<Category, string>, lm: BiMap<Label, string>,
                           lines: seq<string>, i0: nat, cs: seq<Constraint>)
    requires ReadsClues(cm, lm, lines, i0, cs)
    ensures forall i :: i0 <= i < i0 + |cs| ==> Readable(cm, lm, lines[i])
  {
    forall i | i0 <= i < i0 + |cs| ensures Readable(cm, lm, lines[i]) {
      assert Denotes(cm, lm, Fields(lines[i0 + (i - i0)]), cs[i - i0]);
    }
  }

  /**
   * A puzzle: its categories and its labels by name, and its constraints.
   * The ghost field `perCategory` is the common number of labels of every
   * category.
   */
  class Puzzle {
    var categoryMap: BiMap<Category, string>
    var labelMap: BiMap<Label, string>
    var constraints: seq<Constraint>
    ghost var perCategory: nat

    /**
     * Both maps are one-to-one, the categories are numbered from 0, and the
     * labels are exactly `perCategory` positions of every category.
     */
    ghost predicate Valid()
      reads this`categoryMap, this`labelMap, this`perCategory
    {
      ValidMaps(categoryMap, labelMap, perCategory)
    }

    /** `Puzzle::new`: no categories, no labels, no constraints. */
    constructor ()
      ensures Valid() && categoryMap.Len() == 0 && labelMap.Len() == 0 && constraints == []
    {
      categoryMap := Empty();
      labelMap := Empty();
      constraints := [];
      perCategory := 0;
    }

    /** `Puzzle::num_categories`. */
    function NumCategories(): nat
      reads this`categoryMap, this`labelMap, this`perCategory
    {
      categoryMap.Len()
    }

    /** `Puzzle::categories`: every category of the puzzle, in index order. */
    function Categories(): (cs: seq<Category>)
      reads this`categoryMap, this`labelMap, this`perCategory
      requires Valid()
      ensures forall c :: c in cs <==> c in categoryMap.left
      ensures forall i :: 0 <= i < |cs| ==> cs[i].index == i
    {
      var cs := seq(NumCategories(), (i: int) requires 0 <= i => Category(i));
      assert forall c :: c in categoryMap.left ==> cs[c.index] == c;
      cs
    }

    /**
     * `Puzzle::labels_per_category`: the number of labels over the number of
     * categories (which must not be zero), the size of every category.
     */
    function LabelsPerCategory(): nat
      reads this`categoryMap, this`labelMap, this`perCategory
      requires NumCategories() > 0
    {
      labelMap.Len() / NumCategories()
    }

    /** In a valid puzzle, the number of labels per category is the common category size. */
    lemma LabelsPerCategoryIsSize()
      requires Valid() && NumCategories() > 0
      ensures LabelsPerCategory() == perCategory
    {
      TimesIsProduct(NumCategories(), perCategory);
      DivModUnique(NumCategories(), perCategory, 0);
    }

    /** The shape of the grid the puzzle needs. */
    function Shape(): Shape
      reads this`categoryMap, this`labelMap, this`perCategory
    {
      ShapeOf(categoryMap, labelMap)
    }

    /** The labels the grid has rows for are the labels of the puzzle. */
    lemma ShapeLabels()
      requires Valid()
      ensures forall l :: Shape().Valid(l) <==> l in labelMap.left
      ensures forall c: Category :: c.index < Shape().categories <==> c in categoryMap.left
    {
      if NumCategories() > 0 {
        LabelsPerCategoryIsSize();
      }
    }

    /** `Puzzle::category`: the category with this name, or `CategoryNotFound`. */
    function CategoryByName(name: string): (r: Result<Category, PuzzleError>)
      reads this`categoryMap, this`labelMap, this`perCategory
      requires categoryMap.Valid()
      ensures r.Ok? ==> r.value in categoryMap.left && categoryMap.left[r.value] == name
      ensures r.Err? ==> r.error == CategoryNotFound(name) && name !in categoryMap.right
    {
      match categoryMap.GetByRight(name)
      case None => Err(CategoryNotFound(name))
      case Some(c) => Ok(c)
    }

    /** `Puzzle::lookup_category`: the name of a category the puzzle has. */
    function LookupCategory(c: Category): (name: string)
      reads this`categoryMap, this`labelMap, this`perCategory
      requires categoryMap.Valid() && c in categoryMap.left
      ensures CategoryByName(name) == Ok(c)
    {
      categoryMap.left[c]
    }

    /** `Puzzle::label`: the label with this name, or `LabelNotFound`. */
    function LabelByName(name: string): (r: Result<Label, PuzzleError>)
      reads this`categoryMap, this`labelMap, this`perCategory
      requires labelMap.Valid()
      ensures r.Ok? ==> r.value in labelMap.left && labelMap.left[r.value] == name
      ensures r.Err? ==> r.error == LabelNotFound(name) && name !in labelMap.right
    {
      match labelMap.GetByRight(name)
      case None => Err(LabelNotFound(name))
      case Some(l) => Ok(l)
    }

    /** `Puzzle::lookup_label`: the name of a label the puzzle has. */
    function LookupLabel(l: Label): (name: string)
      reads this`categoryMap, this`labelMap, this`perCategory
      requires labelMap.Valid() && l in labelMap.left
      ensures LabelByName(name) == Ok(l)
    {
      labelMap.left[l]
    }

    /** `Puzzle::add_constraint`. */
    method AddConstraint(c: Constraint)
      modifies this`constraints
      ensures constraints == old(constraints) + [c]
    {
      constraints := constraints + [c];
    }

    /**
     * The loop of `add_category` that names the labels of the new category
     * `c`, in order, stopping at the first name that is already taken (which
     * it returns). The labels named before that one stay.
     */
    method InsertLabels(c: Category, names: seq<string>) returns (taken: Option<nat>)
      requires labelMap.Valid()
      requires forall j :: Label(c, j) !in labelMap.left
      modifies this`labelMap
      ensures labelMap.Valid()
      ensures taken.None? <==> FreshNames(old(labelMap), names)
      ensures taken.None? ==>
        AddsLabels(old(labelMap.left), labelMap.left, c, names, |names|) &&
        labelMap.Len() == old(labelMap.Len()) + |names|
      ensures taken.Some? ==>
        var k := taken.value;
        k < |names| && FreshPrefix(old(labelMap), names, k) && !FreshPrefix(old(labelMap), names, k + 1) &&
        AddsLabels(old(labelMap.left), labelMap.left, c, names, k)
    {
      ghost var m0 := labelMap;
      for i := 0 to |names|
        invariant labelMap.Valid()
        invariant FreshPrefix(m0, names, i)
        invariant AddsLabels(m0.left, labelMap.left, c, names, i)
        invariant labelMap.Len() == m0.Len() + i
      {
        var found := LabelByName(names[i]);
        if found.Ok? {
          var l := found.value;
          if l in m0.left {
            assert names[i] in m0.right;
          } else {
            assert names[l.position] == names[i];
          }
          return Some(i);
        }
        assert Label(c, i) !in labelMap.left;
        InsertFresh(labelMap, Label(c, i), names[i]);
        FreshOneMore(m0, labelMap, c, names, i);
        LabelsOneMore(m0.left, labelMap, c, names, i);
        labelMap := labelMap.Insert(Label(c, i), names[i]);
      }
      taken := None;
    }

    /**
     * `Puzzle::add_category`, corrected: a label count other than that of
     * the existing categories, a category name already in use, or a label
     * name already in use or repeated is an error. On success the category
     * takes the next index, its labels take positions `0 ..` in the listed
     * order, and the puzzle stays valid. A wrong count or a taken category
     * name changes nothing; a taken label name keeps the labels named before
     * it.
     */
    method AddCategory(name: string, labelNames: seq<string>) returns (r: Result<Category, PuzzleError>)
      requires Valid()
      modifies this`categoryMap, this`labelMap, this`perCategory
      ensures r.Ok? <==>
        (old(NumCategories()) == 0 || |labelNames| == old(perCategory)) &&
        name !in old(categoryMap.right) && FreshNames(old(labelMap), labelNames)
      ensures r.Ok? ==>
        Valid() && r.value == Category(old(NumCategories())) &&
        categoryMap.left == old(categoryMap.left)[r.value := name] &&
        AddsLabels(old(labelMap.left), labelMap.left, r.value, labelNames, |labelNames|) &&
        perCategory == |labelNames|
      ensures old(NumCategories()) > 0 && |labelNames| != old(perCategory) ==>
        r == Err(InvalidLabelCount(name, old(perCategory), |labelNames|)) && unchanged(this)
      ensures r.Err? ==>
        categoryMap == old(categoryMap) &&
        (r.error.InvalidLabelCount? || r.error.InvalidCategoryName? || r.error.InvalidLabelName?)
      ensures r.Err? && r.error.InvalidCategoryName? ==> unchanged(this)
    {
      if NumCategories() != 0 && |labelNames| != LabelsPerCategory() {
        LabelsPerCategoryIsSize();
        return Err(InvalidLabelCount(name, LabelsPerCategory(), |labelNames|));
      }
      if NumCategories() != 0 {
        LabelsPerCategoryIsSize();
      }
      if CategoryByName(name).Ok? {
        return Err(InvalidCategoryName(name));
      }
      var category := Category(categoryMap.Len());
      assert forall j :: Label(category, j) !in labelMap.left;
      ghost var labels0 := labelMap;
      assert labels0 == old(labelMap) && categoryMap == old(categoryMap);
      var taken := InsertLabels(category, labelNames);
      if taken.Some? {
        assert !FreshNames(labels0, labelNames) by {
          FreshPrefixShrinks(labels0, labelNames, |labelNames|, taken.value + 1);
        }
        return Err(InvalidLabelName(labelNames[taken.value]));
      }
      ghost var labels1 := labelMap;
      assert AddsLabels(labels0.left, labels1.left, category, labelNames, |labelNames|);
      AddCategoryKeepsValid(categoryMap, labels0, labels1, perCategory, name, labelNames);
      categoryMap := categoryMap.Insert(category, name);
      perCategory := |labelNames|;
      assert labelMap == labels1;
      r := Ok(category);
    }

    /**
     * `Puzzle::add_category` as written: the category name is not checked,
     * so a name already in use is inserted into the bimap anyway, which
     * evicts the category that had it (see `DuplicateCategoryBreaksNumbering`).
     */
    method AddCategoryAsWritten(name: string, labelNames: seq<string>) returns (r: Result<Category, PuzzleError>)
      requires Valid()
      modifies this`categoryMap, this`labelMap, this`perCategory
      ensures r.Ok? <==>
        (old(NumCategories()) == 0 || |labelNames| == old(perCategory)) && FreshNames(old(labelMap), labelNames)
      ensures r.Ok? ==>
        r.value == Category(old(NumCategories())) &&
        categoryMap == old(categoryMap).Insert(r.value, name) &&
        AddsLabels(old(labelMap.left), labelMap.left, r.value, labelNames, |labelNames|)
      ensures r.Err? ==> categoryMap == old(categoryMap)
    {
      if NumCategories() != 0 && |labelNames| != LabelsPerCategory() {
        LabelsPerCategoryIsSize();
        return Err(InvalidLabelCount(name, LabelsPerCategory(), |labelNames|));
      }
      if NumCategories() != 0 {
        LabelsPerCategoryIsSize();
      }
      var category := Category(categoryMap.Len());
      var taken := InsertLabels(category, labelNames);
      if taken.Some? {
        return Err(InvalidLabelName(labelNames[taken.value]));
      }
      categoryMap := categoryMap.Insert(category, name);
      r := Ok(category);
    }

    /** A constraint a clue stands for fits the puzzle's grid. */
    lemma DenotesAdmissible(f: seq<string>, c: Constraint)
      requires Valid() && Denotes(categoryMap, labelMap, f, c)
      ensures Admissible(Shape(), c)
    {
      ShapeLabels();
    }

    /** The `yes` and `no` arms: two labels. */
    method ReadYesNo(f: seq<string>) returns (r: Result<Constraint, PuzzleError>)
      requires labelMap.Valid() && |f| >= 3 && (f[0] == "yes" || f[0] == "no")
      ensures forall c :: Denotes(categoryMap, labelMap, f, c) ==> r == Ok(c)
      ensures r.Ok? ==> Denotes(categoryMap, labelMap, f, r.value)
      ensures r.Err? ==> r.error.LabelNotFound? && r.error.name !in labelMap.right
    {
      var x :- LabelByName(f[1]);
      var y :- LabelByName(f[2]);
      r := Ok(if f[0] == "yes" then Yes(x, y) else No(x, y));
    }

    /** The `after` arm: a label, a category, a label. */
    method ReadAfter(f: seq<string>) returns (r: Result<Constraint, PuzzleError>)
      requires labelMap.Valid() && categoryMap.Valid() && |f| >= 4 && f[0] == "after"
      ensures forall c :: Denotes(categoryMap, labelMap, f, c) ==> r == Ok(c)
      ensures r.Ok? ==> Denotes(categoryMap, labelMap, f, r.value)
      ensures r.Err? && r.error.LabelNotFound? ==> r.error.name !in labelMap.right
      ensures r.Err? && r.error.CategoryNotFound? ==> r.error.name !in categoryMap.right
      ensures r.Err? ==> r.error.LabelNotFound? || r.error.CategoryNotFound?
    {
      var x :- LabelByName(f[1]);
      var cat :- CategoryByName(f[2]);
      var y :- LabelByName(f[3]);
      r := Ok(After(x, cat, y));
    }

    /**
     * The `afteratleast` and `afterexactly` arms: the count is parsed first
     * (`InvalidInteger` if it is not a `usize`) and must be below the
     * category size (`InvalidClue` otherwise), then the names are looked up.
     */
    method ReadCount(line: string, f: seq<string>) returns (r: Result<Constraint, PuzzleError>)
      requires labelMap.Valid() && categoryMap.Valid() && |f| >= 5
      requires f[0] == "afteratleast" || f[0] == "afterexactly"
      ensures forall c :: Denotes(categoryMap, labelMap, f, c) ==> r == Ok(c)
      ensures r.Ok? ==> Denotes(categoryMap, labelMap, f, r.value)
      ensures ParseUsize(f[4]).None? ==> r == Err(InvalidInteger)
      ensures ParseUsize(f[4]).Some? && ParseUsize(f[4]).value >= Shape().perCategory ==> r == Err(InvalidClue(line))
      ensures r.Err? && r.error.LabelNotFound? ==> r.error.name !in labelMap.right
      ensures r.Err? && r.error.CategoryNotFound? ==> r.error.name !in categoryMap.right
      ensures r.Err? ==>
        r.error.InvalidInteger? || r.error.InvalidClue? || r.error.LabelNotFound? || r.error.CategoryNotFound?
    {
      var n := ParseUsize(f[4]);
      if n.None? {
        return Err(InvalidInteger);
      }
      if n.value >= Shape().perCategory {
        return Err(InvalidClue(line));
      }
      r := ReadCountNames(f, n.value);
    }

    /** The name lookups of `ReadCount`, once the count `n` is known to be in range. */
    method ReadCountNames(f: seq<string>, n: nat) returns (r: Result<Constraint, PuzzleError>)
      requires labelMap.Valid() && categoryMap.Valid() && |f| >= 5
      requires f[0] == "afteratleast" || f[0] == "afterexactly"
      requires ParseUsize(f[4]) == Some(n) && n < Shape().perCategory
      ensures forall c :: Denotes(categoryMap, labelMap, f, c) ==> r == Ok(c)
      ensures r.Ok? ==> Denotes(categoryMap, labelMap, f, r.value)
      ensures r.Err? && r.error.LabelNotFound? ==> r.error.name !in labelMap.right
      ensures r.Err? && r.error.CategoryNotFound? ==> r.error.name !in categoryMap.right
      ensures r.Err? ==> r.error.LabelNotFound? || r.error.CategoryNotFound?
    {
      var x :- LabelByName(f[1]);
      var cat :- CategoryByName(f[2]);
      var y :- LabelByName(f[3]);
      r := Ok(if f[0] == "afteratleast" then AfterAtLeast(x, cat, y, n) else AfterExactly(x, cat, y, n));
    }

    /** The `or` and `xor` arms: three labels. */
    method ReadOrXor(f: seq<string>) returns (r: Result<Constraint, PuzzleError>)
      requires labelMap.Valid() && |f| >= 4 && (f[0] == "or" || f[0] == "xor")
      ensures forall c :: Denotes(categoryMap, labelMap, f, c) ==> r == Ok(c)
      ensures r.Ok? ==> Denotes(categoryMap, labelMap, f, r.value)
      ensures r.Err? ==> r.error.LabelNotFound? && r.error.name !in labelMap.right
    {
      var x :- LabelByName(f[1]);
      var y :- LabelByName(f[2]);
      var z :- LabelByName(f[3]);
      r := Ok(if f[0] == "or" then Or(x, y, z) else Xor(x, y, z));
    }

    /** The `twobytwo` arm: four labels. */
    method ReadTwoByTwo(f: seq<string>) returns (r: Result<Constraint, PuzzleError>)
      requires labelMap.Valid() && |f| >= 5 && f[0] == "twobytwo"
      ensures forall c :: Denotes(categoryMap, labelMap, f, c) ==> r == Ok(c)
      ensures r.Ok? ==> Denotes(categoryMap, labelMap, f, r.value)
      ensures r.Err? ==> r.error.LabelNotFound? && r.error.name !in labelMap.right
    {
      var x1 :- LabelByName(f[1]);
      var x2 :- LabelByName(f[2]);
      var y1 :- LabelByName(f[3]);
      var y2 :- LabelByName(f[4]);
      r := Ok(TwoByTwo(x1, x2, y1, y2));
    }

    /** The loop of the `exactlyone` arm: the pairs named by the fields after the kind, in order. */
    method ReadPairs(f: seq<string>) returns (r: Result<seq<(Label, Label)>, PuzzleError>)
      requires labelMap.Valid() && |f| % 2 == 1
      ensures forall ps :: NamesPairs(labelMap, f, ps) ==> r == Ok(ps)
      ensures r.Ok? ==> NamesPairs(labelMap, f, r.value)
      ensures r.Err? ==> r.error.LabelNotFound? && r.error.name !in labelMap.right
    {
      var pairs: seq<(Label, Label)> := [];
      for i := 0 to |f| / 2
        invariant |pairs| == i
        invariant forall j :: 0 <= j < i ==> NamesLabel(labelMap, pairs[j].0, f[2 * j + 1]) && NamesLabel(labelMap, pairs[j].1, f[2 * j + 2])
        invariant forall ps :: NamesPairs(labelMap, f, ps) ==> ps[..i] == pairs
      {
        forall ps: seq<(Label, Label)> | NamesPairs(labelMap, f, ps)
          ensures f[2 * i + 1] in labelMap.right && f[2 * i + 2] in labelMap.right
        {
          assert NamesLabel(labelMap, ps[i].0, f[2 * i + 1]) && NamesLabel(labelMap, ps[i].1, f[2 * i + 2]);
        }
        var a :- LabelByName(f[2 * i + 1]);
        var b :- LabelByName(f[2 * i + 2]);
        pairs := pairs + [(a, b)];
      }
      forall ps: seq<(Label, Label)> | NamesPairs(labelMap, f, ps)
        ensures ps == pairs
      {
        assert ps[..|ps|] == ps;
      }
      r := Ok(pairs);
    }

    /** The `exactlyone` arm. */
    method ReadExactlyOne(f: seq<string>) returns (r: Result<Constraint, PuzzleError>)
      requires labelMap.Valid() && |f| >= 5 && |f| % 2 == 1 && f[0] == "exactlyone"
      ensures forall c :: Denotes(categoryMap, labelMap, f, c) ==> r == Ok(c)
      ensures r.Ok? ==> Denotes(categoryMap, labelMap, f, r.value)
      ensures r.Err? ==> r.error.LabelNotFound? && r.error.name !in labelMap.right
    {
      var pairs :- ReadPairs(f);
      r := Ok(ExactlyOne(pairs));
    }

    /**
     * The clue-line arm of src/puzzle.rs `from_file`, with the guards of
     * `afteratleast` and `afterexactly` corrected to five fields. A clue
     * that stands for some constraint is read as exactly that constraint;
     * whatever it returns otherwise is the constraint the clue stands for,
     * and that constraint fits the grid. Fewer than two fields, an unknown
     * kind, too few fields for the kind or an odd number of `exactlyone`
     * arguments is `InvalidClue`; a name that is not in the puzzle is
     * reported as not found.
     */
    method ParseClue(line: string) returns (r: Result<Constraint, PuzzleError>)
      requires Valid()
      ensures forall c :: Denotes(categoryMap, labelMap, Fields(line), c) ==> r == Ok(c)
      ensures r.Ok? ==> Denotes(categoryMap, labelMap, Fields(line), r.value) && Admissible(Shape(), r.value)
      ensures !WellShapedClue(Fields(line)) ==> r == Err(InvalidClue(line))
      ensures r.Err? && r.error.LabelNotFound? ==> r.error.name !in labelMap.right
      ensures r.Err? && r.error.CategoryNotFound? ==> r.error.name !in categoryMap.right
      ensures r.Err? ==>
        r.error.InvalidClue? || r.error.InvalidInteger? || r.error.LabelNotFound? || r.error.CategoryNotFound?
    {
      var f := Fields(line);
      // The source tests `parts.len() < 2`, then each kind's own guard; all of
      // them answer `InvalidClue`, as does an unknown kind.
      if !WellShapedClue(f) {
        forall c
          ensures !Denotes(categoryMap, labelMap, f, c)
        {
          DenotesNeeds(categoryMap, labelMap, f, c);
        }
        return Err(InvalidClue(line));
      }
      r := ReadArgs(line, f);
      if r.Ok? {
        DenotesAdmissible(f, r.value);
      }
    }

    /** The arm of the clue's kind, for fields that pass the guards. */
    method ReadArgs(line: string, f: seq<string>) returns (r: Result<Constraint, PuzzleError>)
      requires labelMap.Valid() && categoryMap.Valid() && WellShapedClue(f)
      ensures forall c :: Denotes(categoryMap, labelMap, f, c) ==> r == Ok(c)
      ensures r.Ok? ==> Denotes(categoryMap, labelMap, f, r.value)
      ensures r.Err? && r.error.LabelNotFound? ==> r.error.name !in labelMap.right
      ensures r.Err? && r.error.CategoryNotFound? ==> r.error.name !in categoryMap.right
      ensures r.Err? ==>
        r.error.InvalidClue? || r.error.InvalidInteger? || r.error.LabelNotFound? || r.error.CategoryNotFound?
    {
      var kind := f[0];
      if kind == "yes" || kind == "no" {
        r := ReadYesNo(f);
      } else if kind == "after" {
        r := ReadAfter(f);
      } else if kind == "afteratleast" || kind == "afterexactly" {
        r := ReadCount(line, f);
      } else if kind == "or" || kind == "xor" {
        r := ReadOrXor(f);
      } else if kind == "twobytwo" {
        r := ReadTwoByTwo(f);
      } else {
        r := ReadExactlyOne(f);
      }
    }

    /**
     * The category loop of `Puzzle::parse`, from line `i0` of a puzzle
     * that has no categories yet: each block up to the `[Clues]` line is
     * added in turn. It succeeds exactly when the blocks up to `[Clues]` are
     * there and each is taken after those before it; the puzzle then has
     * exactly the blocks' categories and the result is the first clue line.
     * The lines running out is `MissingClues`, and a block `AddCategory`
     * rejects is its error.
     */
    method AddBlocks(lines: seq<string>, i0: nat) returns (r: Result<nat, PuzzleError>)
      requires Valid() && NumCategories() == 0 && i0 <= |lines|
      modifies this`categoryMap, this`labelMap, this`perCategory
      ensures r.Ok? <==> ReadBlocks(lines, i0).Ok? && AllAccepted(ReadBlocks(lines, i0).value.0)
      ensures r == Err(MissingClues) ==> ReadBlocks(lines, i0) == Err(MissingClues)
      ensures r.Err? ==> r.error != MissingCategories
      ensures r.Ok? ==>
        Valid() && ReadBlocks(lines, i0).Ok? && r.value == ReadBlocks(lines, i0).value.1 &&
        Describes(categoryMap, labelMap, perCategory, ReadBlocks(lines, i0).value.0)
    {
      var i := i0;
      ghost var blocks: seq<Block> := [];
      PrependNil(ReadBlocks(lines, i0));
      while true
        invariant i <= |lines|
        invariant Describes(categoryMap, labelMap, perCategory, blocks)
        invariant AllAccepted(blocks)
        invariant BlocksBefore(lines, i0, blocks, i)
        decreases |lines| - i
      {
        var done, name, labels, next;
        done, r, name, labels, next := NextBlock(lines, i0, blocks, i);
        if done {
          return;
        }
        var failed := AddBlock(blocks, name, labels);
        if failed.Some? {
          var rest := ReadBlocks(lines, next);
          if rest.Ok? {
            RejectedBlock(blocks, Block(name, labels), rest.value.0);
          }
          return Err(failed.value);
        }
        AllAcceptedSnoc(blocks, Block(name, labels));
        blocks := blocks + [Block(name, labels)];
        i := next;
      }
    }

    /**
     * One category block of `Puzzle::parse`: the category is added with
     * its labels. It succeeds exactly when the block is taken after the
     * blocks already added, and the maps then hold one more block.
     */
    method AddBlock(ghost blocks: seq<Block>, name: string, labels: seq<string>) returns (failed: Option<PuzzleError>)
      requires Describes(categoryMap, labelMap, perCategory, blocks)
      modifies this`categoryMap, this`labelMap, this`perCategory
      ensures failed.None? <==> Accepts(blocks, Block(name, labels))
      ensures failed.Some? ==>
        failed.value.InvalidLabelCount? || failed.value.InvalidCategoryName? || failed.value.InvalidLabelName?
      ensures failed.None? ==> Describes(categoryMap, labelMap, perCategory, blocks + [Block(name, labels)])
    {
      ghost var cm0, lm0, k0 := categoryMap, labelMap, perCategory;
      AcceptsIff(cm0, lm0, k0, blocks, Block(name, labels));
      var added := AddCategory(name, labels);
      if added.Err? {
        return Some(added.error);
      }
      HasBlocksNext(cm0, lm0, categoryMap, labelMap, blocks, Block(name, labels));
      failed := None;
    }

    /**
     * The clue loop of `Puzzle::parse`: every line from `i0` on is read as
     * a clue and its constraint added, and the first clue that cannot be
     * read stops the loop with its error. It succeeds exactly when every
     * line from `i0` on stands for some constraint. The constraints added
     * are those the lines before the stop stand for, in order; without an
     * error there is one per line, each fitting the grid.
     */
    method AddClues(lines: seq<string>, i0: nat) returns (failed: Option<PuzzleError>)
      requires Valid() && constraints == [] && i0 <= |lines|
      modifies this`constraints
      ensures failed.None? <==> AllReadable(categoryMap, labelMap, lines, i0)
      ensures failed.Some? ==> failed.value != MissingCategories && failed.value != MissingClues
      ensures ReadsClues(categoryMap, labelMap, lines, i0, constraints)
      ensures failed.Some? ==>
        i0 + |constraints| < |lines| && !Readable(categoryMap, labelMap, lines[i0 + |constraints|])
      ensures failed.None? ==> |constraints| == |lines| - i0
    {
      for k := i0 to |lines|
        invariant |constraints| == k - i0
        invariant ReadsClues(categoryMap, labelMap, lines, i0, constraints)
      {
        failed := AddClue(lines, i0);
        if failed.Some? {
          return;
        }
      }
      ReadsCluesReadable(categoryMap, labelMap, lines, i0, constraints);
      failed := None;
    }

    /**
     * One step of the clue loop: the next clue line, `lines[i0 + |constraints|]`,
     * is read and, exactly when it stands for some constraint, that
     * constraint is appended.
     */
    method AddClue(lines: seq<string>, i0: nat) returns (failed: Option<PuzzleError>)
      requires Valid() && ReadsClues(categoryMap, labelMap, lines, i0, constraints)
      requires i0 + |constraints| < |lines|
      modifies this`constraints
      ensures failed.Some? <==> !Readable(categoryMap, labelMap, lines[i0 + |old(constraints)|])
      ensures failed.Some? ==> failed.value != MissingCategories && failed.value != MissingClues
      ensures failed.Some? ==> constraints == old(constraints)
      ensures failed.None? ==>
        |constraints| == |old(constraints)| + 1 && ReadsClues(categoryMap, labelMap, lines, i0, constraints)
    {
      ghost var cs := constraints;
      var line := lines[i0 + |constraints|];
      var c := ParseClue(line);
      if c.Err? {
        return Some(c.error);
      }
      ReadsCluesSnoc(categoryMap, labelMap, lines, i0, cs, line, c.value);
      AddConstraint(c.value);
      failed := None;
    }

    /** In a valid puzzle, every constraint its clue lines stand for fits the grid. */
    lemma ReadsCluesAdmissible(lines: seq<string>, i0: nat, cs: seq<Constraint>)
      requires Valid() && ReadsClues(categoryMap, labelMap, lines, i0, cs)
      ensures forall t :: 0 <= t < |cs| ==> Admissible(Shape(), cs[t])
    {
      forall t | 0 <= t < |cs|
        ensures Admissible(Shape(), cs[t])
      {
        DenotesAdmissible(Fields(lines[i0 + t]), cs[t]);
      }
    }
  }

  /**
   * A duplicate category name breaks the numbering of the categories: the
   * insert evicts the earlier category, so the count stays the same while
   * the new category takes the index just past it.
   */
  lemma DuplicateCategoryBreaksNumbering(m: BiMap<Category, string>, name: string)
    requires m.Valid() && Numbered(m) && name in m.right
    ensures !Numbered(m.Insert(Category(m.Len()), name))
  {
    assert Category(m.Len()) !in m.left;
    InsertEvicts(m, Category(m.Len()), name);
  }

  // ----- the layout of a puzzle file -----

  /**
   * The label lines of a block, from line `i` up to the first blank line,
   * which is returned; `None` when the lines run out first.
   */
  method ReadLabelLines(lines: seq<string>, i: nat) returns (labels: seq<string>, blank: Option<nat>)
    requires i <= |lines|
    ensures blank == BlankAt(lines, i)
    ensures blank.Some? ==> labels == lines[i..blank.value]
  {
    labels := [];
    var j := i;
    while true
      invariant i <= j <= |lines|
      invariant labels == lines[i..j]
      invariant BlankAt(lines, i) == BlankAt(lines, j)
      decreases |lines| - j
    {
      if j == |lines| {
        return labels, None;
      }
      if Trim(lines[j]) == "" {
        return labels, Some(j);
      }
      assert BlankAt(lines, j) == BlankAt(lines, j + 1);
      assert lines[i..j + 1] == lines[i..j] + [lines[j]];
      labels := labels + [lines[j]];
      j := j + 1;
    }
  }

  /** One past the first line at or after `i` that trims to `marker`, if there is one. */
  function SkipPast(lines: seq<string>, i: nat, marker: string): (r: Option<nat>)
    ensures r.Some? ==> i < r.value <= |lines| && Trim(lines[r.value - 1]) == marker
    ensures forall j :: i <= j < (if r.Some? then r.value - 1 else |lines|) ==> Trim(lines[j]) != marker
    decreases |lines| - i
  {
    if i >= |lines| then None
    else if Trim(lines[i]) == marker then Some(i + 1)
    else SkipPast(lines, i + 1, marker)
  }

  /** The first line at or after `i` that is blank once trimmed, if there is one. */
  function BlankAt(lines: seq<string>, i: nat): (r: Option<nat>)
    ensures r.Some? ==> i <= r.value < |lines| && Trim(lines[r.value]) == ""
    ensures forall j :: i <= j < (if r.Some? then r.value else |lines|) ==> Trim(lines[j]) != ""
    decreases |lines| - i
  {
    if i >= |lines| then None
    else if Trim(lines[i]) == "" then Some(i)
    else BlankAt(lines, i + 1)
  }

  /**
   * The category blocks from line `i` up to the `[Clues]` line, and the
   * index of the first clue line; `MissingClues` when the lines run out
   * first, inside a block or between blocks.
   */
  function ReadBlocks(lines: seq<string>, i: nat): (r: Result<(seq<Block>, nat), PuzzleError>)
    ensures r.Ok? ==> i < r.value.1 <= |lines|
    ensures r.Err? ==> r.error == MissingClues
    decreases |lines| - i
  {
    if i >= |lines| then Err(MissingClues)
    else if Trim(lines[i]) == "[Clues]" then Ok(([], i + 1))
    else match BlankAt(lines, i + 1)
      case None => Err(MissingClues)
      case Some(j) =>
        match ReadBlocks(lines, j + 1)
        case Err(e) => Err(e)
        case Ok(rest) => Ok(([Block(lines[i], lines[i + 1..j])] + rest.0, rest.1))
  }

  /** A block that ends in a blank line is the first block of `ReadBlocks`, before those after the blank. */
  lemma ReadBlocksStep(lines: seq<string>, i: nat, j: nat)
    requires i < |lines| && Trim(lines[i]) != "[Clues]" && BlankAt(lines, i + 1) == Some(j)
    ensures ReadBlocks(lines, i) == Prepend([Block(lines[i], lines[i + 1..j])], ReadBlocks(lines, j + 1))
  {
    var b := Block(lines[i], lines[i + 1..j]);
    match ReadBlocks(lines, j + 1)
    case Err(e) =>
    case Ok(rest) =>
      assert ReadBlocks(lines, i) == Ok(([b] + rest.0, rest.1));
  }

  /** Reading blocks from `i0` finds `blocks` before those read from `i`. */
  ghost predicate BlocksBefore(lines: seq<string>, i0: nat, blocks: seq<Block>, i: nat) {
    ReadBlocks(lines, i0) == Prepend(blocks, ReadBlocks(lines, i))
  }

  /** The blocks read so far, followed by the block from line `i` to the blank line `j`. */
  lemma ReadBlocksNext(lines: seq<string>, i0: nat, blocks: seq<Block>, i: nat, j: nat, b: Block)
    requires BlocksBefore(lines, i0, blocks, i)
    requires i < |lines| && Trim(lines[i]) != "[Clues]" && BlankAt(lines, i + 1) == Some(j)
    requires b == Block(lines[i], lines[i + 1..j])
    ensures BlocksBefore(lines, i0, blocks + [b], j + 1)
  {
    ReadBlocksStep(lines, i, j);
    PrependAppend(blocks, b, ReadBlocks(lines, j + 1));
  }

  /**
   * One pass of the category loop of `Puzzle::parse` at line `i`, after
   * `blocks` have been read: the lines running out and the `[Clues]` line
   * end the loop (`done`, with the first clue line or `MissingClues`);
   * otherwise the next block is the name line `i` and the label lines up to
   * the next blank line, and reading goes on after that blank line.
   */
  method NextBlock(lines: seq<string>, ghost i0: nat, ghost blocks: seq<Block>, i: nat)
    returns (done: bool, r: Result<nat, PuzzleError>, name: string, labels: seq<string>, next: nat)
    requires i <= |lines| && BlocksBefore(lines, i0, blocks, i)
    ensures !done ==> i < next <= |lines| && BlocksBefore(lines, i0, blocks + [Block(name, labels)], next)
    ensures done && r.Ok? ==> ReadBlocks(lines, i0) == Ok((blocks, r.value))
    ensures done && r.Err? ==> r == Err(MissingClues) && ReadBlocks(lines, i0) == Err(MissingClues)
  {
    done, r, name, labels, next := true, Err(MissingClues), "", [], i;
    if i == |lines| {
      BlocksRunOut(lines, i0, blocks, i);
      return;
    }
    name := lines[i];
    if Trim(name) == "[Clues]" {
      BlocksEnd(lines, i0, blocks, i);
      r := Ok(i + 1);
      return;
    }
    var blank;
    labels, blank := ReadLabelLines(lines, i + 1);
    if blank.None? {
      BlocksRunOut(lines, i0, blocks, i);
      return;
    }
    var j := blank.value;
    done, next := false, j + 1;
    ReadBlocksNext(lines, i0, blocks, i, j, Block(name, labels));
  }

  /** Reading blocks ends at a `[Clues]` line: the blocks read so far are all of them. */
  lemma BlocksEnd(lines: seq<string>, i0: nat, blocks: seq<Block>, i: nat)
    requires BlocksBefore(lines, i0, blocks, i)
    requires i < |lines| && Trim(lines[i]) == "[Clues]"
    ensures ReadBlocks(lines, i0) == Ok((blocks, i + 1))
  {
    assert ReadBlocks(lines, i) == Ok(([], i + 1));
    assert blocks + [] == blocks;
  }

  /** Reading blocks that runs out of lines before a `[Clues]` line fails. */
  lemma BlocksRunOut(lines: seq<string>, i0: nat, blocks: seq<Block>, i: nat)
    requires BlocksBefore(lines, i0, blocks, i)
    requires i >= |lines| || (Trim(lines[i]) != "[Clues]" && BlankAt(lines, i + 1).None?)
    ensures ReadBlocks(lines, i0) == Err(MissingClues)
  {
  }

  /**
   * The layout of a puzzle file's lines: the category blocks and the index
   * of the first clue line, or the marker that is missing.
   */
  function Layout(lines: seq<string>): (r: Result<(seq<Block>, nat), PuzzleError>)
    ensures r.Ok? ==> r.value.1 <= |lines|
    ensures r.Err? ==> r.error == MissingCategories || r.error == MissingClues
  {
    match SkipPast(lines, 0, "[Categories]")
    case None => Err(MissingCategories)
    case Some(i) => ReadBlocks(lines, i)
  }

  /**
   * The lines make a puzzle: the blocks up to `[Clues]` are there and each
   * is taken after those before it, and on the maps those blocks build
   * every clue line stands for some constraint.
   */
  ghost predicate Parses(lines: seq<string>) {
    Layout(lines).Ok? && AllAccepted(Layout(lines).value.0) &&
    exists cm, lm, k :: Describes(cm, lm, k, Layout(lines).value.0) && AllReadable(cm, lm, lines, Layout(lines).value.1)
  }

  /** `bs` in front of the blocks of `r`, if `r` has any. */
  function Prepend(bs: seq<Block>, r: Result<(seq<Block>, nat), PuzzleError>): Result<(seq<Block>, nat), PuzzleError> {
    match r
    case Err(e) => Err(e)
    case Ok(v) => Ok((bs + v.0, v.1))
  }

  lemma PrependNil(r: Result<(seq<Block>, nat), PuzzleError>)
    ensures Prepend([], r) == r
  {
    if r.Ok? {
      assert [] + r.value.0 == r.value.0;
    }
  }

  lemma PrependAppend(bs: seq<Block>, b: Block, r: Result<(seq<Block>, nat), PuzzleError>)
    ensures Prepend(bs, Prepend([b], r)) == Prepend(bs + [b], r)
  {
    if r.Ok? {
      assert bs + ([b] + r.value.0) == (bs + [b]) + r.value.0;
    }
  }

  /**
   * The scan of `Puzzle::parse` for the `[Categories]` line: one past the
   * first line that trims to it, if there is one.
   */
  method FindCategories(lines: seq<string>) returns (start: Option<nat>)
    ensures start == SkipPast(lines, 0, "[Categories]")
  {
    var i := 0;
    while i < |lines| && Trim(lines[i]) != "[Categories]"
      invariant i <= |lines|
      invariant SkipPast(lines, 0, "[Categories]") == SkipPast(lines, i, "[Categories]")
    {
      i := i + 1;
    }
    start := if i == |lines| then None else Some(i + 1);
  }

  /**
   * `Puzzle::parse`: the text is trimmed and cut into lines; everything up
   * to the `[Categories]` line is skipped; each category block is added in
   * turn; every line after `[Clues]` is a clue. It succeeds exactly when
   * the lines make a puzzle (`Parses`). A missing `[Categories]`
   * line is `MissingCategories` and nothing else is; a missing `[Clues]`
   * line is an error, `MissingClues` unless a block before it was already
   * rejected. A puzzle read without error is valid, has exactly the
   * categories of the blocks, and one constraint per clue line, each the
   * constraint its line stands for and each fitting the grid.
   */
  method Parse(text: string) returns (r: Result<Puzzle, PuzzleError>)
    ensures r.Ok? <==> Parses(Lines(Trim(text)))
    ensures var lines := Lines(Trim(text));
      (r == Err(MissingCategories) <==> Layout(lines) == Err(MissingCategories)) &&
      (Layout(lines).Err? ==> r.Err?) &&
      (r == Err(MissingClues) ==> Layout(lines) == Err(MissingClues))
    ensures r.Ok? ==> fresh(r.value) && r.value.Valid()
    ensures r.Ok? ==> var lines := Lines(Trim(text));
      Layout(lines).Ok? && HasBlocks(r.value.categoryMap, r.value.labelMap, Layout(lines).value.0) &&
      |r.value.constraints| == |lines| - Layout(lines).value.1 &&
      ReadsClues(r.value.categoryMap, r.value.labelMap, lines, Layout(lines).value.1, r.value.constraints) &&
      forall t :: 0 <= t < |r.value.constraints| ==> Admissible(r.value.Shape(), r.value.constraints[t])
  {
    var lines := Lines(Trim(text));
    var puzzle := new Puzzle();
    var start := FindCategories(lines);
    if start.None? {
      return Err(MissingCategories);
    }
    var clues := puzzle.AddBlocks(lines, start.value);
    if clues.Err? {
      return Err(clues.error);
    }
    ghost var blocks := Layout(lines).value.0;
    var failed := puzzle.AddClues(lines, clues.value);
    if failed.Some? {
      forall cm, lm, k | Describes(cm, lm, k, blocks)
        ensures !AllReadable(cm, lm, lines, clues.value)
      {
        DescribesUnique(cm, lm, k, puzzle.categoryMap, puzzle.labelMap, puzzle.perCategory, blocks);
      }
      return Err(failed.value);
    }
    puzzle.ReadsCluesAdmissible(lines, clues.value, puzzle.constraints);
    r := Ok(puzzle);
  }
}
