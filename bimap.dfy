/**
 * `bimap::BiMap<L, R>`, the store behind a puzzle's names: a one-to-one
 * relation between left and right values that can be read from either side.
 */
module BiMaps {
  import opened Wrappers

  datatype BiMap<L(!new), R> = BiMap(left: map<L, R>, right: map<R, L>)
  {
    /** The two directions describe the same set of pairs. */
    ghost predicate Valid() {
      (forall l :: l in left ==> left[l] in right && right[left[l]] == l) &&
      (forall r :: r in right ==> right[r] in left && left[right[r]] == r)
    }

    /** `BiMap::len`: the number of pairs. */
    function Len(): nat {
      |left|
    }

    /** `BiMap::get_by_left`: the right value paired with `l`, if any. */
    function GetByLeft(l: L): (r: Option<R>)
      requires Valid()
      ensures r.Some? <==> l in left
      ensures r.Some? ==> r.value in right && right[r.value] == l
    {
      if l in left then Some(left[l]) else None
    }

    /** `BiMap::get_by_right`: the left value paired with `r`, if any. */
    function GetByRight(r: R): (l: Option<L>)
      requires Valid()
      ensures l.Some? <==> r in right
      ensures l.Some? ==> l.value in left && left[l.value] == r
    {
      if r in right then Some(right[r]) else None
    }

    /** `BiMap::remove_by_left`: the pair whose left value is `l` removed. */
    function RemoveByLeft(l: L): BiMap<L, R> {
      if l in left then BiMap(left - {l}, right - {left[l]}) else this
    }

    /** `BiMap::remove_by_right`: the pair whose right value is `r` removed. */
    function RemoveByRight(r: R): BiMap<L, R> {
      if r in right then BiMap(left - {right[r]}, right - {r}) else this
    }

    /**
     * `BiMap::insert`: the pair whose left value is `l` and the pair whose
     * right value is `r` are removed, then `(l, r)` is added. The result is
     * still one-to-one, pairs `l` with `r`, and keeps exactly the other pairs
     * that shared neither value.
     */
    function Insert(l: L, r: R): (m: BiMap<L, R>)
      requires Valid()
      ensures m.Valid()
      ensures l in m.left && m.left[l] == r && r in m.right && m.right[r] == l
      ensures forall a :: a in m.left <==> a == l || (a in left && left[a] != r)
      ensures forall a :: a in m.left && a != l ==> m.left[a] == left[a]
    {
      var m := RemoveByLeft(l).RemoveByRight(r);
      BiMap(m.left[l := r], m.right[r := l])
    }
  }

  /** The empty bimap, `BiMap::new`. */
  function Empty<L(!new), R>(): (m: BiMap<L, R>)
    ensures m.Valid() && m.Len() == 0
  {
    BiMap(map[], map[])
  }

  /** Reading one side and then the other comes back to where it started. */
  lemma RoundTrip<L(!new), R>(m: BiMap<L, R>, l: L, r: R)
    requires m.Valid()
    ensures m.GetByLeft(l) == Some(r) <==> m.GetByRight(r) == Some(l)
  {
  }

  /** Inserting a pair whose values are both new adds one pair and drops none. */
  lemma InsertFresh<L(!new), R>(m: BiMap<L, R>, l: L, r: R)
    requires m.Valid() && l !in m.left && r !in m.right
    ensures m.Insert(l, r).left == m.left[l := r]
    ensures m.Insert(l, r).Len() == m.Len() + 1
  {
  }

  /**
   * Inserting a new left value with a right value that is already paired
   * evicts that pair: the number of pairs stays the same.
   */
  lemma {:induction false} InsertEvicts<L(!new), R>(m: BiMap<L, R>, l: L, r: R)
    requires m.Valid() && l !in m.left && r in m.right
    ensures m.right[r] !in m.Insert(l, r).left
    ensures m.Insert(l, r).Len() == m.Len()
  {
    var evicted := m.right[r];
    var n := m.Insert(l, r);
    assert n.left == (m.left - {evicted})[l := r];
    assert (m.left - {evicted}).Keys == m.left.Keys - {evicted};
  }
}
