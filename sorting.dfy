/** Python's list.sort() and sorted(): a stable sort. A comparison is
    given as a strict "goes before" relation `lt`; sorting with
    reverse=True is the same stable sort with the relation flipped. */
module Sorting {

  /** No later element goes strictly before an earlier one. */
  ghost predicate SortedBy<T>(s: seq<T>, lt: (T, T) -> bool)
  {
    forall i, j :: 0 <= i < j < |s| ==> !lt(s[j], s[i])
  }

  /** `lt` is a strict order: irreflexive and transitive. */
  ghost predicate StrictOrder<T(!new)>(lt: (T, T) -> bool)
  {
    && (forall a :: !lt(a, a))
    && (forall a, b, c :: lt(a, b) && lt(b, c) ==> lt(a, c))
  }

  /** Puts x after every element of t that x does not strictly precede,
      so that x lands behind the elements equal to it. */
  function Insert<T>(t: seq<T>, x: T, lt: (T, T) -> bool): (r: seq<T>)
    ensures multiset(r) == multiset(t) + multiset{x}
    ensures |r| == |t| + 1
  {
    if t == [] || lt(x, t[0]) then [x] + t
    else
      assert t == [t[0]] + t[1..];
      [t[0]] + Insert(t[1..], x, lt)
  }

  /** Insertion sort, from the front: each element is inserted behind
      the equal elements that came before it (see SortStable). */
  function Sort<T>(s: seq<T>, lt: (T, T) -> bool): (r: seq<T>)
    ensures multiset(r) == multiset(s)
    ensures |r| == |s|
  {
    if s == [] then []
    else
      assert s == s[..|s| - 1] + [s[|s| - 1]];
      Insert(Sort(s[..|s| - 1], lt), s[|s| - 1], lt)
  }

  lemma {:induction false} InsertSorted<T(!new)>(t: seq<T>, x: T, lt: (T, T) -> bool)
    requires StrictOrder(lt)
    requires SortedBy(t, lt)
    ensures SortedBy(Insert(t, x, lt), lt)
  {
    var r := Insert(t, x, lt);
    if t == [] {
    } else if lt(x, t[0]) {
      forall i, j | 0 <= i < j < |r| ensures !lt(r[j], r[i]) {
        if i == 0 {
          // r[j] does not precede t[0], which x precedes
          assert r[j] == t[j - 1] && !lt(t[j - 1], t[0]);
        }
      }
    } else {
      var rest := Insert(t[1..], x, lt);
      InsertSorted(t[1..], x, lt);
      forall i, j | 0 <= i < j < |r| ensures !lt(r[j], r[i]) {
        if i == 0 {
          assert r[j] in multiset(rest);
          assert r[j] == x || r[j] in multiset(t[1..]);
          if r[j] != x {
            var k :| 0 <= k < |t[1..]| && t[1..][k] == r[j];
            assert t[k + 1] == r[j];
          }
        } else {
          assert r[i] == rest[i - 1] && r[j] == rest[j - 1];
        }
      }
    }
  }

  /** The result of Sort is ordered by any strict order. */
  lemma {:induction false} SortSorted<T(!new)>(s: seq<T>, lt: (T, T) -> bool)
    requires StrictOrder(lt)
    ensures SortedBy(Sort(s, lt), lt)
  {
    if s != [] {
      SortSorted(s[..|s| - 1], lt);
      InsertSorted(Sort(s[..|s| - 1], lt), s[|s| - 1], lt);
    }
  }

  // ---------------------------------------------------------------- stability

  /** A strict order under which "neither goes before the other" is an
      equivalence: whatever a goes before, each c either follows a or
      precedes b. Comparing one key of each element gives such an order. */
  ghost predicate StrictWeakOrder<T(!new)>(lt: (T, T) -> bool)
  {
    && StrictOrder(lt)
    && (forall a, b, c :: lt(a, b) ==> lt(a, c) || lt(c, b))
  }

  /** The elements of s that `keep` selects, in their order in s. */
  function Filter<T(!new)>(s: seq<T>, keep: T -> bool): (r: seq<T>)
    ensures |r| <= |s|
    ensures forall x :: x in r <==> x in s && keep(x)
  {
    if s == [] then [] else (if keep(s[0]) then [s[0]] else []) + Filter(s[1..], keep)
  }

  /** Elements after one that a tied element strictly precedes are not
      tied with it. */
  lemma {:induction false} NoTiesAfter<T(!new)>(t: seq<T>, x: T, lt: (T, T) -> bool, tie: T -> bool)
    requires StrictWeakOrder(lt) && SortedBy(t, lt)
    requires forall a, b :: tie(a) && tie(b) ==> !lt(a, b)
    requires t != [] && lt(x, t[0]) && tie(x)
    ensures Filter(t, tie) == []
  {
    if |t| > 1 {
      assert !lt(t[1], t[0]);
      assert lt(x, t[1]);
      NoTiesAfter(t[1..], x, lt, tie);
    }
    assert !tie(t[0]);
  }

  /** Insert puts x behind the elements tied with it. */
  lemma {:induction false} InsertStable<T(!new)>(t: seq<T>, x: T, lt: (T, T) -> bool, tie: T -> bool)
    requires StrictWeakOrder(lt) && SortedBy(t, lt)
    requires forall a, b :: tie(a) && tie(b) ==> !lt(a, b)
    ensures Filter(Insert(t, x, lt), tie) == Filter(t, tie) + if tie(x) then [x] else []
  {
    if t == [] {
    } else if lt(x, t[0]) {
      var r := [x] + t;
      assert r[1..] == t;
      if tie(x) {
        NoTiesAfter(t, x, lt, tie);
      }
    } else {
      var rest := Insert(t[1..], x, lt);
      assert [t[0]] + rest == Insert(t, x, lt);
      assert ([t[0]] + rest)[1..] == rest;
      assert SortedBy(t[1..], lt) by {
        forall i, j | 0 <= i < j < |t[1..]| ensures !lt(t[1..][j], t[1..][i]) {
          assert t[1..][j] == t[j + 1] && t[1..][i] == t[i + 1];
        }
      }
      InsertStable(t[1..], x, lt, tie);
      assert Filter(t, tie) == (if tie(t[0]) then [t[0]] else []) + Filter(t[1..], tie);
    }
  }

  lemma {:induction false} FilterAppendOne<T(!new)>(s: seq<T>, x: T, keep: T -> bool)
    ensures Filter(s + [x], keep) == Filter(s, keep) + if keep(x) then [x] else []
  {
    if s != [] {
      assert (s + [x])[1..] == s[1..] + [x];
      FilterAppendOne(s[1..], x, keep);
    } else {
      assert [x][1..] == [];
    }
  }

  /** Sort is stable: the elements of one class of ties, which `lt`
      does not order among themselves, come out in their input order. */
  lemma {:induction false} SortStable<T(!new)>(s: seq<T>, lt: (T, T) -> bool, tie: T -> bool)
    requires StrictWeakOrder(lt)
    requires forall a, b :: tie(a) && tie(b) ==> !lt(a, b)
    ensures Filter(Sort(s, lt), tie) == Filter(s, tie)
  {
    if s != [] {
      var init, last := s[..|s| - 1], s[|s| - 1];
      assert s == init + [last];
      SortStable(init, lt, tie);
      SortSorted(init, lt);
      InsertStable(Sort(init, lt), last, lt, tie);
      FilterAppendOne(init, last, tie);
    }
  }

  // ------------------------------------------------- sequences without repeats

  ghost predicate Distinct<T>(s: seq<T>)
  {
    forall i, j :: 0 <= i < j < |s| ==> s[i] != s[j]
  }

  /** A sequence without repeats has as many elements as its set. */
  lemma {:induction false} DistinctCardinality<T>(s: seq<T>)
    requires Distinct(s)
    ensures |set x | x in s| == |s|
  {
    if s != [] {
      var init := s[..|s| - 1];
      DistinctCardinality(init);
      assert (set x | x in s) == (set x | x in init) + {s[|s| - 1]};
      assert s[|s| - 1] !in init;
    }
  }

  lemma {:induction false} DistinctCountsAtMostOne<T>(s: seq<T>)
    requires Distinct(s)
    ensures forall x :: multiset(s)[x] <= 1
  {
    if s != [] {
      var rest := s[1..];
      assert s == [s[0]] + rest;
      DistinctCountsAtMostOne(rest);
      assert s[0] !in rest;
    }
  }

  /** A sequence without repeats whose only value is x is [x]. */
  lemma SingletonDistinct<T>(s: seq<T>, x: T)
    requires Distinct(s)
    requires forall y :: y in s <==> y == x
    ensures s == [x]
  {
    DistinctCardinality(s);
    assert (set y | y in s) == {x};
    assert s[0] == x;
  }

  /** Reordering keeps a sequence free of repeats. */
  lemma DistinctPermutation<T>(a: seq<T>, b: seq<T>)
    requires Distinct(a) && multiset(a) == multiset(b)
    ensures Distinct(b)
  {
    DistinctCountsAtMostOne(a);
    forall i, j | 0 <= i < j < |b| ensures b[i] != b[j] {
      var x := b[i];
      assert b == b[..i] + [b[i]] + b[i + 1..j] + [b[j]] + b[j + 1..];
      assert multiset(b)[x] >= multiset{b[i], b[j]}[x];
    }
  }

  /** A sorted sequence without repeats is strictly ordered when the
      order relates any two different elements. */
  lemma SortedDistinctStrict<T>(s: seq<T>, lt: (T, T) -> bool)
    requires SortedBy(s, lt) && Distinct(s)
    requires forall a, b :: a != b ==> lt(a, b) || lt(b, a)
    ensures forall i, j :: 0 <= i < j < |s| ==> lt(s[i], s[j])
  {
  }

  lemma {:induction false} SubsetCardinality<T>(a: set<T>, b: set<T>)
    requires a <= b
    ensures |a| <= |b|
  {
    if a != {} {
      var x :| x in a;
      SubsetCardinality(a - {x}, b - {x});
    }
  }
}
