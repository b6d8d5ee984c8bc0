# gridsolve in Dafny

gridsolve solves "zebra" logic puzzles by propagation. A puzzle has a number
of categories (people, houses, pets, …), each with the same number of labels.
The solver keeps a grid with one cell for every pair of labels. Each cell is
Empty, Yes (the two labels belong to the same entity) or No. The grid starts
with Yes on the diagonal and No between distinct labels of one category.
Every clue propagates its consequences into the grid, and so do four general
rules: ElimOthers, OnlyEmpty, Transitivity and NoByProxy. This repeats until
a whole pass changes nothing, or a write contradicts a decided cell. The
answer is one row per label of the first category, holding the label of
every other category that was found Yes with it.

The modules follow the source:

- `Ids`: labels, categories, the shape of a puzzle, and the numbering of
  labels `category * perCategory + position` used for the cell matrix.
- `Board`: the mathematical contents of the grid. It is a map from canonical
  label pairs (lower category first) to cells. The module also defines
  extension (decided cells stay decided), the count of Empty cells, and the
  outcome of one write.
- `Grid`: the `Grid` of crates/gridsolve/src/solver.rs. It is a class with a
  two-dimensional `cells` array and a step log, and it is tied to a `Board`
  by its `Valid()` invariant. It provides `at`, `set_impl`, `set` and
  `set_with_callback`.
- `Constraint`: the ten clue kinds of src/constraint.rs and their `apply`,
  one method per kind. Each method is proved against an effect relation
  between the board before and the board after.
- `Rules`: the four rules of crates/gridsolve/src/rule.rs. Each rule has
  the following proved:
  - it writes only one value, and each written cell is justified by a
    relation: `EliminationsJustified` and `OnlyCandidatesSet` on the board it
    starts from, and `ProxiesJustified` and `SharesJustified` on the board it
    leaves;
  - a pass that reports no change leaves a board closed under the rule.

  For `ElimOthers`, `OnlyEmpty` and `Transitivity`, a pass over a closed
  board is also proved to change nothing.
- `Solver`: the solver loop, its termination (the Empty count falls) and the
  projection into a solution.
- `Text`, `BiMaps`, `Puzzle`: the puzzle reader. `Text` holds the `str`
  operations it uses, `BiMaps` the `bimap` crate's one-to-one map, and
  `Puzzle` the name maps, `add_category`, the clue grammar and the file
  layout, together with the exact condition under which a text is read
  without error (`Parses`).
- `Semantics`: what a board means for the entities of a puzzle. It states
  soundness. It shows that every contradiction a clue reports is true of no
  solution of that clue, and it is used to show the Distance finding below.

The `Puzzle` module follows both src/puzzle.rs and
crates/gridsolve/src/puzzle.rs. From crates/gridsolve/src/puzzle.rs it takes
the text-based `parse`: skip to `[Categories]`, read the blocks, and read
every line after `[Clues]` as a clue. Each clue line is read with the field
grammar of src/puzzle.rs `from_file`. The older src/solver.rs and src/rule.rs
behave like their crates/gridsolve counterparts minus the step log, so the
same members model them.

## Model

| member | source | states |
|---|---|---|
| Ids.LabelAtIndex | crates/gridsolve/src/solver.rs:104-116 | a label's matrix index, divided and reduced by the category size, gives the label back |
| Ids.IndexLabelAt | crates/gridsolve/src/solver.rs:200-208 | every index below `categories * perCategory` is the index of exactly the valid label `labels()` yields there |
| Ids.IndexInjective | crates/gridsolve/src/solver.rs:104-116 | two labels with positions in range and the same matrix index are the same label |
| Ids.IndexInRange | crates/gridsolve/src/solver.rs:104-116 | a valid label's index lies inside the `categories * perCategory` matrix |
| Board.Canon | crates/gridsolve/src/solver.rs:104-116 | `indices` swaps the labels so that the lower category comes first; the result is the pair or its swap |
| Board.IndicesCanonical | crates/gridsolve/src/solver.rs:104-116 | for labels of different categories the matrix coordinates do not depend on argument order, and the row's category is never above the column's |
| Board.Symmetric | crates/gridsolve/src/solver.rs:118-121 | on a well-formed board the cell of `(x, y)` is the cell of `(y, x)` |
| Board.Initial | crates/gridsolve/src/solver.rs:71-100 | the fresh board has a cell for exactly the canonical pairs of the shape |
| Board.InitialSeeded | crates/gridsolve/src/solver.rs:71-100 | the fresh board is well formed: Yes for a label with itself, No for two labels of one category, Empty across categories |
| Board.CanonicalPairsExact | crates/gridsolve/src/solver.rs:71-100 | the set of pairs the fresh board covers is exactly the canonical pairs |
| Board.SetOutcomeFacts | crates/gridsolve/src/solver.rs:129-157 | one write: Empty becomes the value and reports a change; the same value reports no change and leaves the board; the other value is a contradiction and leaves the board; the Empty count falls by one exactly on a change |
| Board.ExtendsWellFormed | crates/gridsolve/src/solver.rs:129-157 | writes that only fill Empty cells keep the board well formed |
| Board.ExtendsCell | crates/gridsolve/src/solver.rs:129-157 | a decided cell keeps its value on every board that extends this one |
| Board.EmptyCountExtends | crates/gridsolve/src/solver.rs:254-263 | extending a board never adds Empty cells, and an extension with as many Empty cells is the same board (the solver loop's measure) |
| Board.EmptyCountWrite | crates/gridsolve/src/solver.rs:129-157 | deciding one Empty cell lowers the Empty count by exactly one |
| Board.ExtendsTrans | crates/gridsolve/src/solver.rs:254-263 | extension is transitive across successive writes |
| Board.LabelsEnumerate | crates/gridsolve/src/solver.rs:200-208 | `labels()` lists every valid label once, at its own index, and nothing else |
| Board.CellPairsExact | crates/gridsolve/src/solver.rs:213-226 | `cells()` lists each cross-category pair, lower category first, exactly once, and no same-category pair |
| Board.ProductMember | crates/gridsolve/src/solver.rs:213-226 | a pair is in the filtered product exactly when its labels come from the two lists and its first category is the lower |
| Grid.Grid.constructor | crates/gridsolve/src/solver.rs:71-100 | a new grid is valid, holds the fresh board of its shape with an empty step log, and its array is square with side `categories * perCategory` and holds the seeded cell at each index pair |
| Grid.Grid.At | crates/gridsolve/src/solver.rs:118-121 | `at` reads the board's cell of the pair through the canonical matrix coordinates |
| Grid.Grid.AtSymmetric | crates/gridsolve/src/solver.rs:118-121 | `at(x, y)` equals `at(y, x)` |
| Grid.Grid.SetImpl | crates/gridsolve/src/solver.rs:129-157 | the result is the write's outcome on the old cell; only a change alters the board, which then holds the value; the step log is untouched |
| Grid.Grid.Set | crates/gridsolve/src/solver.rs:164-172 | as `set_impl`, and exactly a change appends one step with an empty description |
| Grid.Grid.SetWithCallback | crates/gridsolve/src/solver.rs:177-191 | as `set_impl`, and exactly a change appends one step with the callback's description |
| Grid.ProgressTrans | crates/gridsolve/src/solver.rs:254-263 | board extension with a growing step log composes across calls |
| Constraint.ApplyYes | src/constraint.rs:46-48 | the result is the outcome of writing Yes to `(x, y)`: on success the cell is Yes and a change is reported exactly when the board changed; a contradiction means the cell already held No; the board differs from before by that one write at most |
| Constraint.ApplyNo | src/constraint.rs:50-52 | the result is the outcome of writing No to `(x, y)`: on success the cell is No and a change is reported exactly when the board changed; a contradiction means the cell already held Yes; the board differs from before by that one write at most |
| Constraint.ApplyOr | src/constraint.rs:141-164 | without a contradiction, a No on one branch forces Yes on the other, every label No with both branches becomes No with `x`, and a change is reported exactly when the board changed; a contradiction leaves on the board both branches No, or a label No with both branches and Yes with `x`; only cells of `x` change |
| Constraint.YesExchange | src/constraint.rs:143-147 | a No against one branch becomes Yes against the other, `y` read first; a contradiction leaves both branches No; only cells of `x` change |
| Constraint.EliminateNeither | src/constraint.rs:151-163 | every label of the grid that is No with `y` and with `z` is set No with `x`; a contradiction leaves such a label Yes with `x`; only cells of `x` change |
| Constraint.EliminateNeitherAt | src/constraint.rs:152-162 | one label of the loop: it is set No with `x` when it is No with `y` and with `z` (same category, other position, counts as No); a contradiction leaves it No with both and Yes with `x` |
| Constraint.ApplyXor | src/constraint.rs:166-199 | without a contradiction, `y` and `z` are apart, No or Yes on one branch forces the opposite on the other, and a label outside `x`'s category that `y` and `z` agree on (both No or both Yes) is No with `x`; a change is reported exactly when the board changed; a contradiction leaves `y` Yes with `z`, both branches No, both Yes, or a label `y` and `z` agree on Yes with `x`; only `(y, z)` and cells of `x` change |
| Constraint.XorExchange | src/constraint.rs:170-181 | the No exchange followed by the Yes exchange of the two branches; a contradiction leaves both branches No or both Yes; only cells of `x` change |
| Constraint.NoExchange | src/constraint.rs:170-174 | a No against one branch becomes Yes against the other; a contradiction leaves both branches Yes; only cells of `x` change |
| Constraint.EliminateUnlike | src/constraint.rs:185-198 | every label outside `x`'s category on which `y` and `z` agree is set No with `x`; a contradiction leaves such a label Yes with `x`; only cells of `x` change |
| Constraint.EliminateUnlikeAt | src/constraint.rs:186-197 | one label `w` outside `x`'s category: set No with `x` when `y` and `z` are both No or both Yes with it; a contradiction leaves that agreement and `w` Yes with `x` |
| Constraint.ApplyAfterAtLeast | src/constraint.rs:58-89 | without a contradiction, `x` and `y` are apart, `x` holds no position unless `y` may hold one at least `n` lower, and `y` holds no position unless `x` may hold one at least `n` higher; a reported change is a real one; a contradiction leaves `x` Yes with `y`, or `x` Yes at a position `i` with `y` No at all of `0 .. i - n`, or `y` Yes at `i` with `x` No at all of `i + n ..`; only No is written, and only to `(x, y)` and to cells between `x` or `y` and category `c` |
| Constraint.AtLeastForwardSweep | src/constraint.rs:63-74 | the forward loop leaves `x` No at every position `i` for which `y` is No at all of `0 .. i - n`; a contradiction leaves `x` Yes at such a position; only No is written, between `x` and `c` |
| Constraint.AtLeastForwardAt | src/constraint.rs:64-73 | one step of the forward loop: the `break` is taken exactly when `i >= n` and `y` is not No at `i - n`, and then nothing is written; otherwise `x` is No at `i`, or a contradiction leaves it Yes; a reported change is a real one; only No is written, between `x` and `c` |
| Constraint.ForwardStops | src/constraint.rs:67-72 | where the forward loop breaks, no later position is asked of `x`, so the loop's effect is complete |
| Constraint.AtLeastBackwardSweep | src/constraint.rs:77-88 | the backward loop leaves `y` No at every position `i` for which `x` is No at all of `i + n ..`; a contradiction leaves `y` Yes at such a position; only No is written, between `y` and `c` |
| Constraint.AtLeastBackwardAt | src/constraint.rs:78-87 | one step of the backward loop: the `break` is taken exactly when `i + n` is in range and `x` is not No there, and then nothing is written; otherwise `y` is No at `i`, or a contradiction leaves it Yes; a reported change is a real one; only No is written, between `y` and `c` |
| Constraint.BackwardStops | src/constraint.rs:81-86 | where the backward loop breaks, no lower position is asked of `y`, so the loop's effect is complete |
| Constraint.ApplyAfter | src/constraint.rs:54-56 | `After` has the effect, the contradiction witness and the write bounds of `AfterAtLeast` with `n = 1` |
| Constraint.ApplyAfterExactly | src/constraint.rs:91-113 | without a contradiction, `x` and `y` are apart, `x` is No at `i` when `i < n` or `y` is No at `i - n`, and `y` is No at `i` when `i + n` is out of range or `x` is No there; a change is reported exactly when the board changed; a contradiction leaves `x` Yes with `y`, or one of those cells Yes with its condition still true; only No is written, and only to `(x, y)` and to cells between `x` or `y` and `c` |
| Constraint.ExactlyForwardSweep | src/constraint.rs:93-102 | the forward loop leaves `x` No at every position `i` with `i < n` or `y` No at `i - n`; a contradiction leaves `x` Yes at such a position; only No is written, between `x` and `c` |
| Constraint.ExactlyForwardAt | src/constraint.rs:94-101 | one step of the forward loop: `x` becomes No at `i` when `i < n` or `y` is No at `i - n`; a contradiction leaves it Yes with that condition true |
| Constraint.ExactlyBackwardSweep | src/constraint.rs:103-112 | the backward loop leaves `y` No at every position `i` with `i + n` out of range or `x` No at `i + n`; a contradiction leaves `y` Yes at such a position; only No is written, between `y` and `c` |
| Constraint.ExactlyBackwardAt | src/constraint.rs:104-111 | one step of the backward loop: `y` becomes No at `i` when `i + n` is out of range or `x` is No there; a contradiction leaves it Yes with that condition true |
| Constraint.ApplyDistance | src/constraint.rs:115-139 | corrected `Distance`: without a contradiction, `x` and `y` are apart, and for each `i < n` a No at `(x, c[i + n])` becomes a No at `(y, c[i])` and symmetrically; a change is reported exactly when the board changed; a contradiction leaves `x` Yes with `y`, or such a No facing a Yes at `i`; only No is written, to `(x, y)` and between `x` or `y` and `c` |
| Constraint.DistanceSweep | src/constraint.rs:117-138 | the corrected loop copies only No values from position `i + n` to position `i` for the first `n` positions; a contradiction leaves a No at `i + n` facing a Yes at `i`; only No is written, between `x` or `y` and `c` |
| Constraint.DistanceAt | src/constraint.rs:119-132 | one corrected step at `i < n`: a No at `(x, c[i + n])` becomes a No at `(y, c[i])`, then symmetrically; a contradiction leaves one such No facing a Yes |
| Constraint.LowNoAt | src/constraint.rs:128-131 | half a corrected step: a No at `(u, c[i + n])` is copied to `(v, c[i])`; a contradiction leaves that No facing a Yes |
| Constraint.ApplyDistanceAsWritten | src/constraint.rs:115-139 | `Distance` as written: a decided `(x, c[i + n])`, Yes or No, is copied to `(y, c[i])`, or else a decided `(y, c[i + n])` to `(x, c[i])`; a contradiction leaves `x` Yes with `y`, or a decided cell at `i + n` facing the other value at `i`; only `(x, y)` and cells between `x` or `y` and `c` change |
| Constraint.DistanceCopySweep | src/constraint.rs:119-132 | the as-written loop's copy, Yes as well as No, for each of the first `n` positions; a contradiction leaves a decided cell at `i + n` facing the other value at `i`; only cells between `x` or `y` and `c` change |
| Constraint.DistanceCopyAt | src/constraint.rs:118-132 | one as-written step: a decided `(x, c[i + n])` is copied to `(y, c[i])`, or else a decided `(y, c[i + n])` to `(x, c[i])`; a contradiction leaves the decided cell facing the other value |
| Constraint.ApplyTwoByTwo | src/constraint.rs:201-207 | without a contradiction, `x1`/`x2` and `y1`/`y2` are apart and both `Xor(x1, y1, y2)` and `Xor(x2, y1, y2)` have their effect; a change is reported exactly when the board changed; a contradiction leaves one of the two pairs Yes or one of the Xors contradicted; only `(y1, y2)` and cells of `x1` or `x2` change |
| Constraint.TwoByTwoApart | src/constraint.rs:203-204 | the two No writes of `TwoByTwo`; a contradiction leaves one of the two pairs Yes; only No is written |
| Constraint.TwoByTwoXors | src/constraint.rs:205-206 | the two Xors of `TwoByTwo`, each keeping its effect; a contradiction leaves one of them contradicted |
| Constraint.ApplyExactlyOne | src/constraint.rs:209-244 | never a contradiction; with a Yes among the pairs every other pair becomes No; with no Yes and all but one pair No, the open pair becomes Yes; otherwise nothing; no cell outside the pairs changes; a change is reported exactly when the board changed |
| Constraint.ForceNo | src/constraint.rs:226-235 | every listed pair that is not Yes becomes No, nothing else changes, and a change is reported exactly when the Empty count fell |
| Constraint.ForceYes | src/constraint.rs:236-242 | every listed Empty pair becomes Yes, nothing else changes, and a change is reported exactly when the Empty count fell |
| Constraint.Apply | src/constraint.rs:43-247 | without a contradiction each kind has its effect; a reported change is a real one; every kind except `After` and `AfterAtLeast` reports every change; a contradiction leaves the kind's witness on the board (`Contradicted`), and `ExactlyOne` never reports one; each kind writes only the cells it names (`WritesWithin`) |
| Rules.EliminateRow | crates/gridsolve/src/rule.rs:19-38 | for a Yes pair, every other label of `p`'s category is set No with `a`, and no cell outside that row changes; it fails only when one of them was already Yes |
| Rules.ElimOthersAt | crates/gridsolve/src/rule.rs:14-63 | a pair that is not Yes leaves the board alone; a Yes pair eliminates both its row and its column, each write justified by the Yes |
| Rules.ElimOthers | crates/gridsolve/src/rule.rs:14-63 | it succeeds exactly when no label is Yes with two labels of one category; it then leaves every Yes with the rest of its category No; every write is a No justified by a Yes on the board it started from |
| Rules.ElimClosed | crates/gridsolve/src/rule.rs:14-63 | once every pair of `cells()` has been eliminated the board is closed under ElimOthers |
| Rules.ElimOthersSettled | crates/gridsolve/src/rule.rs:14-63 | idempotence: on a well-formed board closed under ElimOthers, a run that writes only justified No cells leaves the board unchanged |
| Rules.NotEliminable | crates/gridsolve/src/rule.rs:14-63 | on a well-formed board closed under ElimOthers, no Empty pair has a Yes with another label of its category to eliminate it |
| Rules.EliminatedExclusive | crates/gridsolve/src/rule.rs:14-63 | a board closed under ElimOthers has no label Yes with two labels of one category |
| Rules.ExclusiveSameYes | crates/gridsolve/src/rule.rs:14-63 | adding No cells does not change whether a board is exclusive |
| Rules.OthersNoExtends | crates/gridsolve/src/rule.rs:19-38 | a row that is all No except one label stays so on every extension |
| Rules.RowAllNo | crates/gridsolve/src/rule.rs:76-100 | the scan answers true exactly when every other label of `p`'s category is No with `a` |
| Rules.OnlyEmptyAt | crates/gridsolve/src/rule.rs:69-134 | an Empty pair whose row or column is otherwise all No becomes Yes, and nothing else changes |
| Rules.OnlyEmpty | crates/gridsolve/src/rule.rs:69-134 | never a contradiction; writes only Yes, each on a pair that was the last candidate of its row or column; leaves no Empty cell that is the last candidate; a change is reported exactly when the board changed |
| Rules.OnlyEmptySettled | crates/gridsolve/src/rule.rs:69-134 | idempotence: on a well-formed board closed under OnlyEmpty, a run that sets only last candidates leaves the board unchanged |
| Rules.OnlyEmptyFromPairs | crates/gridsolve/src/rule.rs:72-131 | once every pair of `cells()` has been visited the board is closed under OnlyEmpty |
| Rules.TransitiveVia | crates/gridsolve/src/rule.rs:146-173 | for a Yes pair and a third label, a Yes with one becomes a Yes with the other; it fails exactly when one is Yes and the other No; only the two cells of that label change, each justified by a label Yes with both of its labels; when the two already agree, nothing changes |
| Rules.ShareWrite | crates/gridsolve/src/rule.rs:149-163 | writing Yes to an Empty pair whose labels are both Yes with a label of another category is a justified write |
| Rules.SharesTrans | crates/gridsolve/src/rule.rs:146-173 | justified writes compose along a run of writes |
| Rules.AgreeKept | crates/gridsolve/src/rule.rs:146-173 | a later label's writes do not disturb the agreement already reached on earlier labels |
| Rules.TransitivityAt | crates/gridsolve/src/rule.rs:140-178 | only Yes is written, only to cells of `x` and `y`, and each written pair shares a Yes label (`SharesJustified`); a pair that is not Yes is left alone; for a Yes pair the two labels end with identical rows, and no change means they already had them; a pair whose rows already agree changes nothing; a contradiction leaves a label Yes with one of a Yes pair and No with the other |
| Rules.TransitiveAll | crates/gridsolve/src/rule.rs:146-173 | the loop over every label of the grid for one Yes pair: it leaves `x` and `y` with identical rows, changes only their cells, justifies every write, and changes nothing when the rows already agree |
| Rules.AgreeAll | crates/gridsolve/src/rule.rs:146-173 | once every label agrees on Yes for the two labels of a pair, the two have the same row |
| Rules.Transitivity | crates/gridsolve/src/rule.rs:140-178 | writes only Yes, each to a pair of labels that share a Yes label on the board it leaves (`SharesJustified`); with no change, every Yes pair has identical rows; on a board already closed it changes nothing and reports no change; a contradiction leaves a witness that is Yes with one label of a Yes pair and No with the other |
| Rules.TransitivityFromPairs | crates/gridsolve/src/rule.rs:143-176 | once every pair of `cells()` has identical rows when Yes, the board is closed under Transitivity |
| Rules.HasPath | crates/gridsolve/src/rule.rs:203-212 | the scan answers true exactly when some label of the category is not No with `x` and not No with `y` |
| Rules.NoByProxyAt | crates/gridsolve/src/rule.rs:191-227 | a pair for which some third category offers no shared label is set No |
| Rules.NoByProxy | crates/gridsolve/src/rule.rs:188-231 | writes only No, each on a pair no third category can reconcile; with no change every such pair is No; a contradiction leaves a Yes pair that cannot be reconciled |
| Rules.ProxyFromPairs | crates/gridsolve/src/rule.rs:191-227 | once every pair of `cells()` has been visited the board is closed under NoByProxy |
| Rules.ReconcilableExtends | crates/gridsolve/src/rule.rs:196-227 | paths only disappear as the board is extended |
| Rules.ReconcilableSymmetric | crates/gridsolve/src/rule.rs:196-227 | whether a pair can be reconciled does not depend on the order of its labels |
| Solver.Solver.constructor | crates/gridsolve/src/solver.rs:235-238 | a solver starts from the fresh board of the puzzle's shape with its clues and no steps |
| Solver.Solver.ApplyClues | crates/gridsolve/src/solver.rs:256-258 | the clues in order; a reported change decided a cell; when every clue reports its changes, no reported change means the board is unchanged and a fixpoint of every clue; a contradiction leaves some clue contradicted on the board |
| Solver.Solver.ApplyRules | crates/gridsolve/src/solver.rs:260-262 | the four rules in order; a change is reported exactly when a cell was decided; no change means the board is closed under all four rules; a contradiction leaves the board with a label Yes with two labels of one category, a broken Transitivity triple, or a Yes pair that is not Reconcilable |
| Solver.Solver.Solve | crates/gridsolve/src/solver.rs:241-265 | the loop ends; a result comes from a board closed under the rules, and under every clue when each reports its changes, and it projects that board with the steps taken; no result means the final board contradicts a clue or breaks one of the rules |
| Solver.Solver.BuildSolution | crates/gridsolve/src/solver.rs:268-302 | one row per label of category 0, holding that label and, for each other category, the first label found Yes with it, or none |
| Solver.Solver.FindYes | crates/gridsolve/src/solver.rs:280-293 | the lowest position of the category that is Yes with the label, or none when no position is |
| Solver.FirstYesUnique | crates/gridsolve/src/solver.rs:277-296 | the projection of a label into a category is determined by the board |
| Solver.FirstYesOnly | crates/gridsolve/src/solver.rs:277-296 | on a board closed under ElimOthers the label found is the only candidate: every other label of the category is No |
| Solver.Solve | crates/gridsolve/src/solver.rs:305-308 | a solution is the projection of a well-formed board that extends the fresh one and is closed under the rules (and the clues when each reports its changes), with one step per decided cell; no solution means some well-formed board reached from the fresh one contradicts a clue or breaks a rule |
| Text.TrimStartSpec | crates/gridsolve/src/puzzle.rs:89 | `trim_start` removes a prefix that is all whitespace, and what is left does not start with whitespace |
| Text.TrimEndSpec | crates/gridsolve/src/puzzle.rs:89 | `trim_end` removes a suffix that is all whitespace, and what is left does not end with whitespace |
| Text.TrimSpec | crates/gridsolve/src/puzzle.rs:89 | `trim` gives the empty string exactly on an all-whitespace string, and otherwise starts and ends with non-whitespace |
| Text.TrimIdempotent | src/puzzle.rs:130-135 | trimming a trimmed field changes nothing |
| Text.Split | src/puzzle.rs:130-135 | `split(',')` has at least one piece, no piece holds the separator, and joining the pieces gives the string back |
| Text.SplitJoin | src/puzzle.rs:130-135 | splitting a join of separator-free pieces gives the pieces back |
| Text.Lines | crates/gridsolve/src/puzzle.rs:89 | the empty text has no lines, there are no more lines than `\n`-pieces, and no line holds `\n` |
| Text.FieldsShape | src/puzzle.rs:130-135 | a clue line has one field fewer than it has comma pieces, and every field is trimmed and comma-free |
| Text.ParseUsize | src/puzzle.rs:172 | a parsed `usize` is below 2^64 and comes from a string that starts with a digit, or with `+` and more |
| Text.ParseDecimal | src/puzzle.rs:172 | parsing the decimal digits of any `usize` gives it back |
| BiMaps.BiMap.GetByLeft | src/puzzle.rs:278-280 | there is a result exactly when the left value is paired, and the right side maps it back |
| BiMaps.BiMap.GetByRight | src/puzzle.rs:282-290 | there is a result exactly when the right value is paired, and the left side maps it back |
| BiMaps.BiMap.Insert | src/puzzle.rs:264-274 | the map stays one-to-one, pairs the two values, and keeps exactly the other pairs that shared neither value |
| BiMaps.Empty | src/puzzle.rs:76-78 | the empty map is one-to-one and has no pairs |
| BiMaps.RoundTrip | src/puzzle.rs:278-304 | reading by left gives `r` exactly when reading by right gives `l` |
| BiMaps.InsertFresh | src/puzzle.rs:270-272 | inserting two unused values adds one pair and drops none |
| BiMaps.InsertEvicts | src/puzzle.rs:274 | inserting a used right value with a new left value evicts the old pair, and the size stays the same |
| Puzzle.Puzzle.constructor | src/puzzle.rs:76-78 | a new puzzle is valid, with no categories, labels or constraints |
| Puzzle.Puzzle.Categories | crates/gridsolve/src/puzzle.rs:205-207 | the categories are `0 .. n - 1`, exactly those of the category map |
| Puzzle.Puzzle.LabelsPerCategoryIsSize | src/puzzle.rs:314-317 | with at least one category, the label count over the category count is the size of each category |
| Puzzle.Puzzle.ShapeLabels | src/puzzle.rs:310-317 | a label is valid for the puzzle's shape exactly when it has a name, and a category exactly when it has a name |
| Puzzle.Puzzle.CategoryByName | src/puzzle.rs:282-290 | the category the name belongs to, or `CategoryNotFound` exactly when no category has the name |
| Puzzle.Puzzle.LookupCategory | src/puzzle.rs:278-280 | looking the name up again gives the category back |
| Puzzle.Puzzle.LabelByName | src/puzzle.rs:296-304 | the label the name belongs to, or `LabelNotFound` exactly when no label has the name |
| Puzzle.Puzzle.LookupLabel | src/puzzle.rs:292-294 | looking the name up again gives the label back |
| Puzzle.Puzzle.AddConstraint | src/puzzle.rs:306-308 | the constraint is appended |
| Puzzle.Puzzle.InsertLabels | src/puzzle.rs:265-273 | the names are given positions `0 ..` in order; it stops at the first name already in use and keeps the labels named before it |
| Puzzle.Puzzle.AddCategory | src/puzzle.rs:250-276 | corrected `add_category`: success exactly when the label count matches, the category name is new and the label names are new and distinct; the new category takes the next index and its labels positions `0 ..`; the puzzle stays valid; a wrong count changes nothing |
| Puzzle.Puzzle.AddCategoryAsWritten | src/puzzle.rs:250-276 | `add_category` as written: the category name is inserted without a check |
| Puzzle.DuplicateCategoryBreaksNumbering | src/puzzle.rs:274 | inserting a category name already in use leaves the categories no longer numbered `0 .. n - 1` |
| Puzzle.AddCategoryKeepsValid | src/puzzle.rs:265-274 | adding a category of fresh names keeps the category numbering, the label grid and the category size consistent |
| Puzzle.NumberedNext | src/puzzle.rs:264-274 | a new name under the next index adds one category and keeps the numbering |
| Puzzle.TimesIsProduct | src/puzzle.rs:314-317 | the label count is the category count times the category size |
| Puzzle.ShortAfterAtLeastPassesGuard | src/puzzle.rs:168-172 | a four-field `afteratleast` clue passes the guard as written but has no fifth field |
| Puzzle.Puzzle.ReadYesNo | src/puzzle.rs:140-157 | reads exactly the constraint the fields name; an unknown name is `LabelNotFound` |
| Puzzle.Puzzle.ReadAfter | src/puzzle.rs:158-167 | reads exactly the constraint the fields name; an unknown name is `LabelNotFound` or `CategoryNotFound` |
| Puzzle.Puzzle.ReadCount | src/puzzle.rs:168-197 | a count that is not a `usize` is `InvalidInteger`; a count not below the category size is `InvalidClue`; otherwise it reads exactly the constraint the fields name |
| Puzzle.Puzzle.ReadCountNames | src/puzzle.rs:174-182 | with a valid count, reads exactly the constraint the names name |
| Puzzle.Puzzle.ReadOrXor | src/puzzle.rs:198-217 | reads exactly the constraint the fields name; an unknown name is `LabelNotFound` |
| Puzzle.Puzzle.ReadTwoByTwo | src/puzzle.rs:218-228 | reads exactly the constraint the fields name; an unknown name is `LabelNotFound` |
| Puzzle.Puzzle.ReadPairs | src/puzzle.rs:235-240 | reads exactly the pairs the fields name, two by two |
| Puzzle.Puzzle.ReadExactlyOne | src/puzzle.rs:229-241 | reads exactly the constraint the fields name; an unknown name is `LabelNotFound` |
| Puzzle.Puzzle.ReadArgs | src/puzzle.rs:139-243 | dispatches on the kind and reads exactly the constraint the fields name |
| Puzzle.Puzzle.ParseClue | src/puzzle.rs:128-244 | a line that stands for a constraint is read as exactly that one; a constraint read is the one the line stands for and fits the grid; a malformed line is `InvalidClue` |
| Puzzle.DenotesNeeds | src/puzzle.rs:136-243 | a line can stand for a constraint only if it passes the guards |
| Puzzle.Puzzle.DenotesAdmissible | src/puzzle.rs:128-244 | a constraint a clue stands for names only labels and categories of the grid |
| Puzzle.Puzzle.AddClue | crates/gridsolve/src/puzzle.rs:133-138 | the next clue line fails exactly when it stands for no constraint (`Readable`), and then nothing is appended; otherwise the constraint it stands for is appended |
| Puzzle.Puzzle.AddClues | crates/gridsolve/src/puzzle.rs:133-138 | succeeds exactly when every line after `[Clues]` stands for some constraint (`AllReadable`), with one constraint per line, the one it stands for; on an error, the lines before the stop were all read and the stopping line stands for no constraint |
| Puzzle.ReadsCluesReadable | crates/gridsolve/src/puzzle.rs:133-138 | every line the clue loop has read stands for some constraint |
| Puzzle.Puzzle.ReadsCluesAdmissible | crates/gridsolve/src/puzzle.rs:133-138 | every constraint read fits the grid |
| Puzzle.ReadsCluesSnoc | crates/gridsolve/src/puzzle.rs:133-138 | the clues read so far extend by one clue line |
| Puzzle.SkipPast | crates/gridsolve/src/puzzle.rs:91-102 | the first line whose trim is the marker, and none before it |
| Puzzle.FindCategories | crates/gridsolve/src/puzzle.rs:91-102 | the loop finds the line after the first `[Categories]`, or none |
| Puzzle.BlankAt | crates/gridsolve/src/puzzle.rs:117-128 | the first blank line from here, and none before it |
| Puzzle.ReadLabelLines | crates/gridsolve/src/puzzle.rs:116-129 | the label lines of a block are the lines up to the first blank one |
| Puzzle.ReadBlocks | crates/gridsolve/src/puzzle.rs:104-131 | the blocks up to `[Clues]` and the first clue line, or `MissingClues` when the lines run out |
| Puzzle.ReadBlocksStep | crates/gridsolve/src/puzzle.rs:104-131 | one block is the name line and its labels up to the blank line |
| Puzzle.ReadBlocksNext | crates/gridsolve/src/puzzle.rs:104-131 | the blocks read so far extend by one block |
| Puzzle.BlocksEnd | crates/gridsolve/src/puzzle.rs:106-108 | reaching `[Clues]` ends the blocks |
| Puzzle.BlocksRunOut | crates/gridsolve/src/puzzle.rs:110-124 | lines that run out before `[Clues]` are `MissingClues` |
| Puzzle.Layout | crates/gridsolve/src/puzzle.rs:88-131 | the layout's errors are only `MissingCategories` and `MissingClues` |
| Puzzle.NextBlock | crates/gridsolve/src/puzzle.rs:104-131 | one turn of the block loop |
| Puzzle.Puzzle.AddBlock | crates/gridsolve/src/puzzle.rs:130 | succeeds exactly when the block is taken after the blocks already added (`Accepts`: the first block's label count, a new category name, new and distinct label names); the maps then describe one more block |
| Puzzle.AcceptsIff | crates/gridsolve/src/puzzle.rs:143-169 | on maps that describe a list of blocks, `add_category`'s success condition (count, fresh category name, fresh distinct labels) is `Accepts` on the blocks |
| Puzzle.CategoryNamesOf | crates/gridsolve/src/puzzle.rs:143-169 | the category names of maps that describe blocks are the blocks' names |
| Puzzle.LabelNamesOf | crates/gridsolve/src/puzzle.rs:143-169 | the label names of maps that describe blocks are the blocks' label lines |
| Puzzle.AllAcceptedSnoc | crates/gridsolve/src/puzzle.rs:104-131 | a block taken after all blocks so far keeps every block taken |
| Puzzle.RejectedBlock | crates/gridsolve/src/puzzle.rs:130 | a block not taken where it stands makes the whole list of blocks not taken |
| Puzzle.DescribesUnique | crates/gridsolve/src/puzzle.rs:104-131 | the maps that describe a list of blocks are unique, so whether a clue line is readable depends on the blocks alone |
| Puzzle.Puzzle.AddBlocks | crates/gridsolve/src/puzzle.rs:104-131 | succeeds exactly when the blocks up to `[Clues]` are there (`ReadBlocks` is Ok) and each is taken after those before it (`AllAccepted`); the puzzle then has exactly the blocks' categories and returns the first clue line; `MissingClues` only when the lines run out |
| Puzzle.HasBlocksNext | crates/gridsolve/src/puzzle.rs:130 | adding a block's category extends the categories read so far by that block |
| Puzzle.Parse | crates/gridsolve/src/puzzle.rs:88-141 | succeeds exactly when the lines make a puzzle (`Parses`: the layout is there, every block is taken in turn, and on the maps the blocks build every clue line stands for a constraint); `MissingCategories` exactly when the text has no `[Categories]` line; a broken layout is an error; a puzzle read is valid, has exactly the blocks' categories, and has one constraint per clue line, the one that line stands for, each fitting the grid |
| Semantics.DistanceSound | src/constraint.rs:115-139 | every cell the corrected `Distance` decides agrees with every solution that satisfies the constraint and the board it started from |
| Semantics.DistanceSymmetric | src/constraint.rs:115-139 | `Distance(x, c, y, n)` holds of a solution exactly when `Distance(y, c, x, n)` does |
| Semantics.OnlyAbove | src/constraint.rs:117-132 | with `y` at a position `i < n`, `x` can only be at `i + n` |
| Semantics.DistanceAsWrittenUnsound | src/constraint.rs:115-134 | a solution that satisfies the constraint and the board is refuted by every board the as-written `Distance` can leave |
| Semantics.ContradictedRefutes | src/constraint.rs:8-39 | the witness `apply` leaves when it gives up on a constraint (`Contradicted`) is true of no solution that agrees with the board and satisfies the constraint as `apply` reads it (`Holds`: for `After`, `AfterAtLeast`, `AfterExactly` and `Distance` this includes `x` and `y` on different entities) |
| Semantics.OrRefutes | src/constraint.rs:15-16 | an `Or` clash (both branches No, or a label No with both and Yes with `x`) refutes every solution with `x` at `y` or at `z` |
| Semantics.XorRefutes | src/constraint.rs:18-19 | an `Xor` clash (`y` Yes with `z`, both branches No, both Yes, or a label `y` and `z` agree on that is Yes with `x`) refutes every solution with `x` at exactly one of `y`, `z` |
| Semantics.AtLeastRefutes | src/constraint.rs:24-25 | an `AfterAtLeast` clash refutes every solution with `x` and `y` on different entities and `x` at least `n` positions after `y` |
| Semantics.AtLeastForwardRefutes | src/constraint.rs:64-73 | with `x` at `p` and `y` at `q <= p - n`, no position holding `x` has `y` ruled out below it |
| Semantics.AtLeastBackwardRefutes | src/constraint.rs:78-87 | with `y` at `q` and `x` at `p >= q + n`, no position holding `y` has `x` ruled out above it |
| Semantics.ExactlyRefutes | src/constraint.rs:27-28 | an `AfterExactly` clash refutes every solution with `x` and `y` on different entities and `x` exactly `n` positions after `y` |
| Semantics.ExactlyForwardRefutes | src/constraint.rs:94-101 | with `x` at `q + n` and `y` at `q`, the position holding `x` has `y` possible `n` below it |
| Semantics.ExactlyBackwardRefutes | src/constraint.rs:104-111 | with `y` at `q` and `x` at `q + n`, the position holding `y` has `x` possible `n` above it |
| Semantics.DistanceRefutes | src/constraint.rs:30-31 | a clash of the corrected `Distance` refutes every solution with `x` and `y` on different entities and `n` positions apart |
| Semantics.LowRefutes | src/constraint.rs:117-132 | a label at `i < n` in a solution has its partner possible at `i + n` |
| Semantics.ClueContradictedRefutes | crates/gridsolve/src/solver.rs:256-258 | when the solver stops at a clue, no solution that satisfies every clue agrees with the board it stopped on |
| Semantics.YesSame | crates/gridsolve/src/solver.rs:129-157 | a Yes on a board that agrees with a solution joins two labels of one entity |
| Semantics.NotNo | crates/gridsolve/src/solver.rs:129-157 | two labels of one entity are not No on a board that agrees with the solution |
| Semantics.SamePlace | src/constraint.rs:24-31 | a solution puts distinct positions of one category in distinct entities |
| Semantics.InitialAgrees | crates/gridsolve/src/solver.rs:71-100 | every solution agrees with the fresh board |
| Semantics.WriteAgrees | crates/gridsolve/src/solver.rs:129-157 | writing a value a solution agrees with keeps the board in agreement |

## Left out

- Rules.Transitivity: its writes are justified on the board it leaves (`SharesJustified`), not on the board it starts from, because a Yes written for one pair can justify a later one in the same pass.
- Rules.NoByProxy: idempotence is not stated as a lemma. Its writes are justified on the board it leaves (`ProxiesJustified`), which is too weak to show that a closed board stays unchanged.
- Constraint.ApplyAfterAtLeast: the result states only that a reported change is a real one. The source does not OR the sweeps' writes into its result (src/constraint.rs:69, :83), so `Some(false)` does not mean nothing changed.
- Constraint.ApplyAfter: the same weaker report as `AfterAtLeast`, of which it is the `n = 1` case.
- Constraint.Apply: the result of `After` and `AfterAtLeast` is the weaker report above.
- Constraint.Apply: `Distance` is dispatched to the corrected `Constraint.ApplyDistance`. The copy of Yes values that src/constraint.rs:128-132 makes is modelled only by `Constraint.ApplyDistanceAsWritten` (see Findings).
- Puzzle.Puzzle.AddBlock: it uses the corrected `Puzzle.Puzzle.AddCategory`, so a category name already in use is `InvalidCategoryName`. The source accepts the name, and the earlier category loses it (src/puzzle.rs:264-274, modelled as written by `Puzzle.Puzzle.AddCategoryAsWritten`; see Findings).
- Puzzle.Puzzle.AddBlocks: the same corrected treatment of a repeated category name as `Puzzle.Puzzle.AddBlock`.
- Puzzle.Parse: the same corrected treatment of a repeated category name. Clue lines go through the corrected `Puzzle.Puzzle.ParseClue`, so an `afteratleast` or `afterexactly` line of four fields is `InvalidClue`; the source indexes past the end of the fields and panics (src/puzzle.rs:168-172, :183-187; see Findings).
- Solver.Solver.ApplyClues: the clues are shown to be fixpoints only when no clue is `After` or `AfterAtLeast`, because those can change the board and still report no change.
- Solver.Solver.Solve: the clues hold on the final board only under the same condition. Otherwise the loop can stop while one of those clues still has something to write.
- Solver.Solve: the same condition as `Solver.Solver.Solve`.
- Semantics.ContradictedRefutes: `Holds` reads `After`, `AfterAtLeast`, `AfterExactly` and `Distance` as `apply` does, with `x` and `y` on different entities, because `apply` first writes No on `(x, y)` (src/constraint.rs:60, :92, :116). The enum's comments (src/constraint.rs:20-31) would also allow one entity when `n = 0`, and the reader accepts `n = 0` (for example the line `c, afterexactly, Alice, House, Red, 0`). On such a clue `apply` refutes the solutions the comment allows, and the refutation lemmas (`AtLeastRefutes`, `ExactlyRefutes`, `DistanceRefutes`) say nothing about them.
- Semantics.DistanceSound: assumes `n > 0`. With `n = 0`, the write of No to `(x, y)` contradicts the constraint itself.
- The doc comments of `Yes` and `No` in src/constraint.rs:9 and :12 say the opposite of what `apply` does. The model follows `apply`.
- `Distance` reads position `i + n` for every `i < n`. With `2n` above the category size it reads out of range. The model requires `2n <= perCategory` through `Admissible`. No clue kind of the reader produces a `Distance`.
- `ExactlyOne` computes `len - 1` on an unsigned length. The model requires at least one pair. The reader always produces at least two.
- `labels_per_category` divides by the number of categories. The solver requires at least one category (`Solver.Solver.constructor`).
- Puzzle.Puzzle.ReadCount: on a puzzle without categories the source's `labels_per_category` divides by zero and panics (src/puzzle.rs:173, :314-316). The model's shape then has no labels, so every count is out of range and the clue is `InvalidClue`.
- `afteratleast`/`afterexactly` compare the count with `labels_per_category() - 1`. With no labels this underflows. The model compares `n < perCategory` instead.
- `InvalidLabelName` leaves the labels inserted before the taken name in the label map, as the source does. No later operation is modelled on such a puzzle.
- The step descriptions that rules format with `format!` are opaque. Each rule takes a `describe` function of the labels its text names (`Solver.Describers`).
- The crates/gridsolve version of `Grid::set` logs a step with an empty description. src/solver.rs logs through `info!` instead. Logging is not modelled.
- The clue lines of crates/gridsolve/src/puzzle.rs go through `Constraint::from_str`, which is not part of this model. The model reads them with the field grammar of src/puzzle.rs. The line-number context that `with_context` adds to a clue error is not modelled.
- src/puzzle.rs `from_file` reads a file line by line. File I/O and its `io::Error` are not modelled. The text-based `parse` of crates/gridsolve/src/puzzle.rs stands for both.
- `ParseIntError` detail is reduced to `InvalidInteger`, and `usize` is taken as 64 bits.
- The solution maps category names to label names in a `HashMap`. The model keeps the categories and labels that `lookup_category`/`lookup_label` would turn into names (`Puzzle.Puzzle.LookupLabel` shows those lookups are exact).
- The `Display` of a solution, the CLI, the web front end and the wasm bindings are not part of this model.

## Findings

| source | as written | input that shows it | evidently intended | confidence | as-written member | corrected member |
|---|---|---|---|---|---|---|
| src/constraint.rs:115-134 | for `i < n`, `Distance` copies the cell `(x, c[i + n])` to `(y, c[i])` and `(y, c[i + n])` to `(x, c[i])` whatever its value, Yes as well as No | two categories of three labels; `Distance(X, C, Y, 1)` with `X`, `Y` in category 0 and `(X, C[1])` Yes: the copy makes `(Y, C[0])` Yes, though `Y` at `C[2]` satisfies the clue | copy only No, since `y` at `i < n` can have `x` only at `i + n` | not executed | Constraint.ApplyDistanceAsWritten, Semantics.DistanceAsWrittenUnsound | Constraint.ApplyDistance, Semantics.DistanceSound |
| src/puzzle.rs:168-172 | the `afteratleast` and `afterexactly` guards reject fewer than four fields, then read the fifth (`parts[4]`) | the clue line `c, afteratleast, Alice, Seat, Bob` passes the guard and indexes past the end | reject fewer than five fields | not executed | Puzzle.ArityAsWritten, Puzzle.ShortAfterAtLeastPassesGuard | Puzzle.Puzzle.ParseClue |
| src/puzzle.rs:264-274 | `add_category` inserts the category name without checking that it is new, so a repeated name evicts the earlier category from the bimap | a puzzle whose category blocks are both named `Color`: the first category loses its name, and the second takes index 1 while only one category is left | reject a category name already in use | not executed | Puzzle.Puzzle.AddCategoryAsWritten, Puzzle.DuplicateCategoryBreaksNumbering | Puzzle.Puzzle.AddCategory |
