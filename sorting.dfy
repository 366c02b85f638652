/** `Array.prototype.sort` with a comparator, as a stable insertion sort run in place on an
    array. JavaScript fixes the result only when the comparator is a consistent total
    preorder; this model fixes one stable algorithm for every comparator, and proves the
    promised properties under that condition. */
module Sorting {
  import Seqs

  /** Inserts x behind t, moving it left past every element the comparator orders strictly
      after it. */
  function InsertBack<T>(cmp: (T, T) -> int, t: seq<T>, x: T): seq<T>
    decreases |t|
  {
    if t == [] then [x]
    else if cmp(t[|t| - 1], x) > 0 then InsertBack(cmp, t[..|t| - 1], x) + [t[|t| - 1]]
    else t + [x]
  }

  /** The result of sorting s: each element in turn inserted behind the sorted prefix. */
  function InsertionSorted<T>(cmp: (T, T) -> int, s: seq<T>): seq<T>
    decreases |s|
  {
    if s == [] then [] else InsertBack(cmp, InsertionSorted(cmp, s[..|s| - 1]), s[|s| - 1])
  }

  /** No element is ordered strictly before an element that precedes it. */
  ghost predicate SortedBy<T>(cmp: (T, T) -> int, s: seq<T>)
  {
    forall i, j :: 0 <= i < j < |s| ==> cmp(s[i], s[j]) <= 0
  }

  /** On the elements of dom the comparator is total: of two elements one is not after the other. */
  ghost predicate TotalOn<T>(cmp: (T, T) -> int, dom: seq<T>)
  {
    forall x, y :: x in dom && y in dom ==> cmp(x, y) <= 0 || cmp(y, x) <= 0
  }

  /** On the elements of dom "not after" is transitive. */
  ghost predicate TransitiveOn<T>(cmp: (T, T) -> int, dom: seq<T>)
  {
    forall x, y, z :: x in dom && y in dom && z in dom && cmp(x, y) <= 0 && cmp(y, z) <= 0 ==> cmp(x, z) <= 0
  }

  ghost predicate TotalPreorderOn<T>(cmp: (T, T) -> int, dom: seq<T>)
  {
    TotalOn(cmp, dom) && TransitiveOn(cmp, dom)
  }

  /** The elements the comparator puts level with y (neither is after the other). */
  function LevelWith<T>(cmp: (T, T) -> int, y: T): T -> bool
  {
    e => cmp(e, y) == 0 && cmp(y, e) == 0
  }

  lemma {:induction false} InsertBackPermutes<T>(cmp: (T, T) -> int, t: seq<T>, x: T)
    ensures multiset(InsertBack(cmp, t, x)) == multiset(t) + multiset{x}
    decreases |t|
  {
    if t != [] && cmp(t[|t| - 1], x) > 0 {
      InsertBackPermutes(cmp, t[..|t| - 1], x);
      assert t == t[..|t| - 1] + [t[|t| - 1]];
    }
  }

  /** Sorting only reorders: the result is a permutation of the input. */
  lemma {:induction false} SortPermutes<T>(cmp: (T, T) -> int, s: seq<T>)
    ensures multiset(InsertionSorted(cmp, s)) == multiset(s)
    ensures |InsertionSorted(cmp, s)| == |s|
    decreases |s|
  {
    if s != [] {
      SortPermutes(cmp, s[..|s| - 1]);
      InsertBackPermutes(cmp, InsertionSorted(cmp, s[..|s| - 1]), s[|s| - 1]);
      assert s == s[..|s| - 1] + [s[|s| - 1]];
    }
    assert |multiset(InsertionSorted(cmp, s))| == |multiset(s)|;
  }

  lemma InsertBackSorted<T>(cmp: (T, T) -> int, t: seq<T>, x: T, dom: seq<T>)
    requires SortedBy(cmp, t)
    requires TotalPreorderOn(cmp, dom)
    requires x in dom && forall e :: e in t ==> e in dom
    ensures SortedBy(cmp, InsertBack(cmp, t, x))
    decreases |t|
  {
    if t != [] {
      if cmp(t[|t| - 1], x) > 0 {
        InsertBackSortedPast(cmp, t, x, dom);
      } else {
        AppendSorted(cmp, t, x, dom);
      }
    }
  }

  /** x is not ordered before the last element: appending keeps t sorted. */
  lemma AppendSorted<T>(cmp: (T, T) -> int, t: seq<T>, x: T, dom: seq<T>)
    requires t != [] && SortedBy(cmp, t) && cmp(t[|t| - 1], x) <= 0
    requires TransitiveOn(cmp, dom)
    requires x in dom && forall e :: e in t ==> e in dom
    ensures SortedBy(cmp, t + [x])
  {
    var last := t[|t| - 1];
    var r := t + [x];
    forall i, j | 0 <= i < j < |r| ensures cmp(r[i], r[j]) <= 0 {
      if j < |t| {
        assert r[i] == t[i] && r[j] == t[j];
      } else if i < |t| - 1 {
        assert r[i] == t[i] && t[i] in t && last in t;
        assert cmp(t[i], last) <= 0;
        UseTransitive(cmp, dom, t[i], last, x);
      }
    }
  }

  lemma UseTransitive<T>(cmp: (T, T) -> int, dom: seq<T>, x: T, y: T, z: T)
    requires TransitiveOn(cmp, dom)
    requires x in dom && y in dom && z in dom && cmp(x, y) <= 0 && cmp(y, z) <= 0
    ensures cmp(x, z) <= 0
  {
  }

  /** x moves past the last element, which then ends the result. */
  lemma {:induction false} InsertBackSortedPast<T>(cmp: (T, T) -> int, t: seq<T>, x: T, dom: seq<T>)
    requires t != [] && SortedBy(cmp, t) && cmp(t[|t| - 1], x) > 0
    requires TotalPreorderOn(cmp, dom)
    requires x in dom && forall e :: e in t ==> e in dom
    ensures SortedBy(cmp, InsertBack(cmp, t, x))
    decreases |t|, 0
  {
    var last := t[|t| - 1];
    var init := t[..|t| - 1];
    assert last in t;
    forall e | e in init ensures e in dom && cmp(e, last) <= 0 {
      var i :| 0 <= i < |init| && init[i] == e;
      assert t[i] == e;
    }
    assert SortedBy(cmp, init) by {
      forall i, j | 0 <= i < j < |init| ensures cmp(init[i], init[j]) <= 0 {
        assert init[i] == t[i] && init[j] == t[j];
      }
    }
    InsertBackSorted(cmp, init, x, dom);
    var u := InsertBack(cmp, init, x);
    InsertBackPermutes(cmp, init, x);
    assert cmp(x, last) <= 0 by {
      assert x in dom && last in dom;
    }
    forall e | e in u ensures cmp(e, last) <= 0 {
      assert e in multiset(u);
      assert e in multiset(init) || e == x;
    }
    var r := u + [last];
    forall i, j | 0 <= i < j < |r| ensures cmp(r[i], r[j]) <= 0 {
      if j < |u| {
        assert r[i] == u[i] && r[j] == u[j];
      } else {
        assert r[i] in u;
      }
    }
  }

  /** With a comparator that is a total preorder on the input, the result is sorted. */
  lemma {:induction false} SortSorts<T>(cmp: (T, T) -> int, s: seq<T>)
    requires TotalPreorderOn(cmp, s)
    ensures SortedBy(cmp, InsertionSorted(cmp, s))
    decreases |s|
  {
    if s != [] {
      var init := s[..|s| - 1];
      forall x, y | x in init && y in init ensures x in s && y in s { }
      assert TotalPreorderOn(cmp, init) by {
        forall x, y, z | x in init && y in init && z in init ensures x in s && y in s && z in s { }
      }
      SortSorts(cmp, init);
      SortPermutes(cmp, init);
      forall e | e in InsertionSorted(cmp, init) ensures e in s {
        assert e in multiset(InsertionSorted(cmp, init));
        assert e in init;
      }
      InsertBackSorted(cmp, InsertionSorted(cmp, init), s[|s| - 1], s);
    }
  }

  /** Inserting x keeps the elements level with y in order, provided no element of t level
      with y is ordered after x when x is level with y too. */
  lemma {:induction false} InsertBackKeepsLevelOrder<T>(cmp: (T, T) -> int, t: seq<T>, x: T, y: T)
    requires LevelWith(cmp, y)(x) ==> forall e :: e in t && LevelWith(cmp, y)(e) ==> cmp(e, x) <= 0
    ensures Seqs.Filter(LevelWith(cmp, y), InsertBack(cmp, t, x))
         == Seqs.Filter(LevelWith(cmp, y), t) + Seqs.Filter(LevelWith(cmp, y), [x])
    decreases |t|
  {
    var p := LevelWith(cmp, y);
    if t == [] {
    } else {
      var last := t[|t| - 1];
      var init := t[..|t| - 1];
      assert t == init + [last];
      Seqs.FilterConcat(p, init, [last]);
      if cmp(last, x) > 0 {
        assert last in t;
        forall e | e in init ensures e in t {
        }
        InsertBackKeepsLevelOrder(cmp, init, x, y);
        Seqs.FilterConcat(p, InsertBack(cmp, init, x), [last]);
        assert Seqs.Filter(p, [x]) == [] || Seqs.Filter(p, [last]) == [];
      } else {
        Seqs.FilterConcat(p, t, [x]);
      }
    }
  }

  /** The sort is stable: elements level with one another keep their relative order. */
  lemma {:induction false} SortIsStable<T>(cmp: (T, T) -> int, s: seq<T>, y: T)
    requires TransitiveOn(cmp, s + [y])
    ensures Seqs.Filter(LevelWith(cmp, y), InsertionSorted(cmp, s)) == Seqs.Filter(LevelWith(cmp, y), s)
    decreases |s|
  {
    if s != [] {
      var init := s[..|s| - 1];
      var x := s[|s| - 1];
      assert s == init + [x];
      assert TransitiveOn(cmp, init + [y]) by {
        forall a, b, c | a in init + [y] && b in init + [y] && c in init + [y]
          ensures a in s + [y] && b in s + [y] && c in s + [y]
        {
        }
      }
      SortIsStable(cmp, init, y);
      SortPermutes(cmp, init);
      var p := LevelWith(cmp, y);
      if p(x) {
        forall e | e in InsertionSorted(cmp, init) && p(e) ensures cmp(e, x) <= 0 {
          assert e in multiset(InsertionSorted(cmp, init));
          assert e in init;
          UseTransitive(cmp, s + [y], e, y, x);
        }
      }
      InsertBackKeepsLevelOrder(cmp, InsertionSorted(cmp, init), x, y);
      Seqs.FilterConcat(LevelWith(cmp, y), init, [x]);
    }
  }

  /** Where x lands: behind the last element not ordered after it, past all later ones. */
  lemma {:induction false} InsertBackAt<T>(cmp: (T, T) -> int, t: seq<T>, x: T, j: nat)
    requires j <= |t| && (j == 0 || cmp(t[j - 1], x) <= 0)
    requires forall k :: j <= k < |t| ==> cmp(t[k], x) > 0
    ensures InsertBack(cmp, t, x) == t[..j] + [x] + t[j..]
    decreases |t|
  {
    if j < |t| {
      var init := t[..|t| - 1];
      InsertBackAt(cmp, init, x, j);
      assert init[..j] == t[..j];
      assert init[j..] + [t[|t| - 1]] == t[j..];
    }
  }

  lemma InsertionSortedStep<T>(cmp: (T, T) -> int, s: seq<T>, i: nat)
    requires i < |s|
    ensures InsertionSorted(cmp, s[..i + 1]) == InsertBack(cmp, InsertionSorted(cmp, s[..i]), s[i])
  {
    assert s[..i + 1][..i] == s[..i];
  }

  /** Sorts a in place; the result is the insertion-sorted sequence of the old contents. */
  method SortInPlace<T>(a: array<T>, cmp: (T, T) -> int)
    modifies a
    ensures a[..] == InsertionSorted(cmp, old(a[..]))
  {
    ghost var s := a[..];
    var i := 0;
    while i < a.Length
      invariant 0 <= i <= a.Length
      invariant a[..i] == InsertionSorted(cmp, s[..i])
      invariant a[i..] == s[i..]
    {
      assert a[i] == s[i];
      InsertLast(a, i, cmp);
      InsertionSortedStep(cmp, s, i);
      assert a[i + 1..] == old(a[..])[i + 1..] == s[i + 1..];
      i := i + 1;
    }
    assert s[..a.Length] == s;
  }

  /** One pass of the sort: a[i] is inserted into the sorted prefix a[..i]. */
  method InsertLast<T>(a: array<T>, i: nat, cmp: (T, T) -> int)
    requires i < a.Length
    modifies a
    ensures a[..i + 1] == InsertBack(cmp, old(a[..i]), old(a[i]))
    ensures a[i + 1..] == old(a[i + 1..])
  {
    var x := a[i];
    ghost var sorted := a[..i];
    ghost var rest := a[i + 1..];
    var j := i;
    while j > 0 && cmp(a[j - 1], x) > 0
      invariant 0 <= j <= i
      invariant forall k :: 0 <= k < j ==> a[k] == sorted[k]
      invariant forall k :: j < k <= i ==> a[k] == sorted[k - 1]
      invariant forall k :: j <= k < i ==> cmp(sorted[k], x) > 0
      invariant a[i + 1..] == rest
    {
      a[j] := a[j - 1];
      j := j - 1;
    }
    a[j] := x;
    InsertBackAt(cmp, sorted, x, j);
    ShiftedInsert(a[..i + 1], sorted, x, j);
  }

  /** A sequence that agrees with sorted before j, holds x at j and sorted shifted by one
      after j is sorted with x inserted at j. */
  lemma ShiftedInsert<T>(b: seq<T>, sorted: seq<T>, x: T, j: nat)
    requires j < |b| && |b| == |sorted| + 1
    requires forall k :: 0 <= k < j ==> b[k] == sorted[k]
    requires b[j] == x
    requires forall k :: j < k < |b| ==> b[k] == sorted[k - 1]
    ensures b == sorted[..j] + [x] + sorted[j..]
  {
  }
}
