/** Sets with a count for each element (HashCountedSet.h). */
module CountedSets {

  function Count<T>(m: map<T, nat>, x: T): nat {
    if x in m then m[x] else 0
  }

  /** One more occurrence. */
  function Add<T>(m: map<T, nat>, x: T): map<T, nat> {
    m[x := Count(m, x) + 1]
  }

  /** One occurrence less; nothing if there is none. */
  function Remove<T>(m: map<T, nat>, x: T): map<T, nat> {
    if x !in m then m else if m[x] <= 1 then m - {x} else m[x := m[x] - 1]
  }

  /** The counts are positive, so that membership is a positive count. */
  ghost predicate Positive<T(!new)>(m: map<T, nat>) {
    forall x :: x in m ==> m[x] > 0
  }

  lemma Counts<T(!new)>(m: map<T, nat>, x: T)
    requires Positive(m)
    ensures Positive(Add(m, x)) && Positive(Remove(m, x))
    ensures (Count(m, x) == 0 <==> x !in m) && (Count(m, x) == 1 <==> x in m && m[x] == 1)
    ensures forall y :: Count(Add(m, x), y) == Count(m, y) + if y == x then 1 else 0
    ensures forall y :: Count(Remove(m, x), y) == Count(m, y) - if y == x && x in m then 1 else 0
    ensures forall y :: y in Add(m, x) <==> y in m || y == x
    ensures forall y :: y in Remove(m, x) <==> y in m && !(y == x && m[x] == 1)
  {}

  lemma AddThenRemove<T(!new)>(m: map<T, nat>, x: T)
    requires Positive(m)
    ensures Remove(Add(m, x), x) == m
  {
    if x !in m {
      assert m[x := 1] - {x} == m;
    } else {
      assert m[x := m[x] + 1][x := m[x]] == m;
    }
  }
}
