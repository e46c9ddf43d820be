/**
 * `Array.prototype.sort(compareFn)`: a stable sort driven by a comparator
 * callback (negative: first argument first; positive: second first; zero:
 * a tie, kept in input order). The specification is a functional insertion
 * sort; the method sorts an array in place and is proved equal to it.
 */
module Sorting {

  /** The comparator's contract: antisymmetric in sign and transitive, so it orders totally up to ties. */
  ghost predicate TotalPreorder<T(!new)>(cmp: (T, T) -> int) {
    && (forall a, b :: cmp(a, b) < 0 <==> cmp(b, a) > 0)
    && (forall a, b, c :: cmp(a, b) <= 0 && cmp(b, c) <= 0 ==> cmp(a, c) <= 0)
  }

  predicate Sorted<T>(s: seq<T>, cmp: (T, T) -> int) {
    forall i, j :: 0 <= i < j < |s| ==> cmp(s[i], s[j]) <= 0
  }

  /**
   * Insertion of x into t from the right: x goes after every element that
   * does not compare greater than it.
   */
  function Insert<T>(t: seq<T>, x: T, cmp: (T, T) -> int): (r: seq<T>)
    ensures |r| == |t| + 1
  {
    if t == [] then [x]
    else if cmp(t[|t| - 1], x) > 0 then Insert(t[..|t| - 1], x, cmp) + [t[|t| - 1]]
    else t + [x]
  }

  lemma {:induction false} InsertPermutes<T>(t: seq<T>, x: T, cmp: (T, T) -> int)
    ensures multiset(Insert(t, x, cmp)) == multiset(t) + multiset{x}
  {
    if t != [] {
      var init, y := t[..|t| - 1], t[|t| - 1];
      assert t == init + [y];
      if cmp(y, x) > 0 {
        InsertPermutes(init, x, cmp);
      }
    }
  }

  lemma InsertMembers<T>(t: seq<T>, x: T, cmp: (T, T) -> int)
    ensures forall i :: 0 <= i < |Insert(t, x, cmp)| ==> Insert(t, x, cmp)[i] in t + [x]
  {
    InsertPermutes(t, x, cmp);
    var r := Insert(t, x, cmp);
    forall i | 0 <= i < |r|
      ensures r[i] in t + [x]
    {
      assert r[i] in multiset(r);
      assert r[i] in multiset(t + [x]);
    }
  }

  function InsertionSort<T>(s: seq<T>, cmp: (T, T) -> int): (r: seq<T>)
    ensures |r| == |s|
  {
    if s == [] then []
    else Insert(InsertionSort(s[..|s| - 1], cmp), s[|s| - 1], cmp)
  }

  /** The result is a permutation of the input. */
  lemma {:induction false} InsertionSortPermutes<T>(s: seq<T>, cmp: (T, T) -> int)
    ensures multiset(InsertionSort(s, cmp)) == multiset(s)
  {
    if s != [] {
      var init, x := s[..|s| - 1], s[|s| - 1];
      assert s == init + [x];
      InsertionSortPermutes(init, cmp);
      InsertPermutes(InsertionSort(init, cmp), x, cmp);
    }
  }

  lemma {:induction false} InsertSorted<T(!new)>(t: seq<T>, x: T, cmp: (T, T) -> int)
    requires TotalPreorder(cmp) && Sorted(t, cmp)
    ensures Sorted(Insert(t, x, cmp), cmp)
  {
    if t != [] {
      var init, y := t[..|t| - 1], t[|t| - 1];
      if cmp(y, x) > 0 {
        InsertSorted(init, x, cmp);
        var u := Insert(init, x, cmp);
        InsertMembers(init, x, cmp);
        forall i | 0 <= i < |u|
          ensures cmp(u[i], y) <= 0
        {
          if u[i] != x {
            assert u[i] in init;
          }
        }
      }
    }
  }

  /** The result is sorted by the comparator. */
  lemma {:induction false} InsertionSortSorted<T(!new)>(s: seq<T>, cmp: (T, T) -> int)
    requires TotalPreorder(cmp)
    ensures Sorted(InsertionSort(s, cmp), cmp)
  {
    if s != [] {
      InsertionSortSorted(s[..|s| - 1], cmp);
      InsertSorted(InsertionSort(s[..|s| - 1], cmp), s[|s| - 1], cmp);
    }
  }

  /** The elements of s that tie with e, in the order of s. */
  function Ties<T>(s: seq<T>, e: T, cmp: (T, T) -> int): seq<T>
  {
    if s == [] then []
    else Ties(s[..|s| - 1], e, cmp) + (if cmp(s[|s| - 1], e) == 0 then [s[|s| - 1]] else [])
  }

  lemma {:induction false} InsertStable<T(!new)>(t: seq<T>, x: T, e: T, cmp: (T, T) -> int)
    requires TotalPreorder(cmp)
    ensures Ties(Insert(t, x, cmp), e, cmp) == Ties(t, e, cmp) + Ties([x], e, cmp)
  {
    if t != [] {
      var init, y := t[..|t| - 1], t[|t| - 1];
      if cmp(y, x) > 0 {
        var u := Insert(init, x, cmp);
        InsertStable(init, x, e, cmp);
        assert (u + [y])[..|u + [y]| - 1] == u;
        assert Ties([x], e, cmp) == [] || Ties([y], e, cmp) == [];
      } else {
        assert (t + [x])[..|t + [x]| - 1] == t;
      }
    }
  }

  /** Stability: elements that tie keep their input order. */
  lemma {:induction false} InsertionSortStable<T(!new)>(s: seq<T>, e: T, cmp: (T, T) -> int)
    requires TotalPreorder(cmp)
    ensures Ties(InsertionSort(s, cmp), e, cmp) == Ties(s, e, cmp)
  {
    if s != [] {
      var init, x := s[..|s| - 1], s[|s| - 1];
      InsertionSortStable(init, e, cmp);
      InsertStable(InsertionSort(init, cmp), x, e, cmp);
    }
  }

  /** Three elements the comparator strictly orders a, b, c have one sorted arrangement. */
  lemma SortedThree<T(!new)>(r: seq<T>, a: T, b: T, c: T, cmp: (T, T) -> int)
    requires TotalPreorder(cmp)
    requires Sorted(r, cmp) && multiset(r) == multiset{a, b, c}
    requires cmp(b, a) > 0 && cmp(c, b) > 0 && cmp(c, a) > 0
    ensures r == [a, b, c]
  {
    ThreeMembers(r, a, b, c);
    var ia :| 0 <= ia < |r| && r[ia] == a;
    var ib :| 0 <= ib < |r| && r[ib] == b;
    var ic :| 0 <= ic < |r| && r[ic] == c;
    SortedBefore(r, ia, ib, cmp);
    SortedBefore(r, ib, ic, cmp);
    assert ia == 0 && ib == 1 && ic == 2;
    Spelled(r, a, b, c);
  }

  lemma Spelled<T>(r: seq<T>, a: T, b: T, c: T)
    requires |r| == 3 && r[0] == a && r[1] == b && r[2] == c
    ensures r == [a, b, c]
  {
  }

  lemma ThreeMembers<T>(r: seq<T>, a: T, b: T, c: T)
    requires multiset(r) == multiset{a, b, c}
    ensures |r| == 3 && a in r && b in r && c in r
  {
    assert |multiset(r)| == |r|;
    assert a in multiset(r) && b in multiset(r) && c in multiset(r);
  }

  /** In a sorted sequence an element that compares greater comes later. */
  lemma SortedBefore<T(!new)>(r: seq<T>, i: int, j: int, cmp: (T, T) -> int)
    requires TotalPreorder(cmp) && Sorted(r, cmp)
    requires 0 <= i < |r| && 0 <= j < |r| && cmp(r[j], r[i]) > 0
    ensures i < j
  {
  }

  lemma InsertPrefixStep<T>(t: seq<T>, x: T, j: int, cmp: (T, T) -> int)
    requires 0 < j <= |t| && cmp(t[j - 1], x) > 0
    ensures Insert(t[..j], x, cmp) == Insert(t[..j - 1], x, cmp) + [t[j - 1]]
  {
    assert t[..j][..j - 1] == t[..j - 1];
  }

  lemma Regroup<T>(whole: seq<T>, front: seq<T>, inner: seq<T>, y: T, back: seq<T>, tail: seq<T>)
    requires whole == front + back && front == inner + [y] && tail == [y] + back
    ensures whole == inner + tail
  {
  }

  lemma InsertShifts<T>(t: seq<T>, x: T, j: int, cmp: (T, T) -> int)
    requires 0 < j <= |t| && cmp(t[j - 1], x) > 0
    requires Insert(t, x, cmp) == Insert(t[..j], x, cmp) + t[j..]
    ensures Insert(t, x, cmp) == Insert(t[..j - 1], x, cmp) + t[j - 1..]
  {
    InsertPrefixStep(t, x, j, cmp);
    assert t[j - 1..] == [t[j - 1]] + t[j..];
    Regroup(Insert(t, x, cmp), Insert(t[..j], x, cmp), Insert(t[..j - 1], x, cmp), t[j - 1], t[j..], t[j - 1..]);
  }

  lemma InsertPrefixStop<T>(t: seq<T>, x: T, j: int, cmp: (T, T) -> int)
    requires 0 <= j <= |t| && (j == 0 || cmp(t[j - 1], x) <= 0)
    ensures Insert(t[..j], x, cmp) == t[..j] + [x]
  {
    if j > 0 {
      assert t[..j][|t[..j]| - 1] == t[j - 1];
    }
  }

  lemma InsertStops<T>(t: seq<T>, x: T, j: int, cmp: (T, T) -> int)
    requires 0 <= j <= |t| && (j == 0 || cmp(t[j - 1], x) <= 0)
    requires Insert(t, x, cmp) == Insert(t[..j], x, cmp) + t[j..]
    ensures Insert(t, x, cmp) == t[..j] + [x] + t[j..]
  {
    InsertPrefixStop(t, x, j, cmp);
  }

  lemma InsertionSortPrefix<T>(s: seq<T>, i: int, cmp: (T, T) -> int)
    requires 0 <= i < |s|
    ensures InsertionSort(s[..i + 1], cmp) == Insert(InsertionSort(s[..i], cmp), s[i], cmp)
  {
    assert s[..i + 1][..i] == s[..i];
  }

  /**
   * Shifts one place right the elements of the sorted prefix a[..i] that
   * compare greater than x, leaving the gap at j.
   */
  method ShiftGreater<T>(a: array<T>, i: int, x: T, cmp: (T, T) -> int) returns (j: int)
    requires 0 <= i < a.Length
    modifies a
    ensures 0 <= j <= i && (j == 0 || cmp(old(a[j - 1]), x) <= 0)
    ensures a[..] == old(a[..j]) + [a[j]] + old(a[j..i]) + old(a[i + 1..])
    ensures Insert(old(a[..i]), x, cmp) == Insert(old(a[..j]), x, cmp) + old(a[j..i])
  {
    ghost var t := a[..i];
    ghost var rest := a[i + 1..];
    j := i;
    assert t[..j] == t && t[j..] == [];
    assert a[..] == t[..j] + [a[j]] + t[j..] + rest;
    while j > 0 && cmp(a[j - 1], x) > 0
      invariant 0 <= j <= i
      invariant a[..] == t[..j] + [a[j]] + t[j..] + rest
      invariant Insert(t, x, cmp) == Insert(t[..j], x, cmp) + t[j..]
    {
      ghost var before := a[..];
      GapNeighbour(before, t, rest, j);
      InsertShifts(t, x, j, cmp);
      a[j] := a[j - 1];
      assert a[..] == before[j := before[j - 1]];
      ShiftStep(before, t, rest, j);
      j := j - 1;
    }
    GapNeighbour(a[..], t, rest, j);
    assert t[..j] == old(a[..j]) && t[j..] == old(a[j..i]);
  }

  /** Left of the gap, a shifted copy agrees with the original. */
  lemma GapNeighbour<T>(b: seq<T>, t: seq<T>, rest: seq<T>, j: int)
    requires 0 <= j <= |t| && |b| == |t| + 1 + |rest|
    requires b == t[..j] + [b[j]] + t[j..] + rest
    ensures j > 0 ==> b[j - 1] == t[j - 1]
  {
    if j > 0 {
      assert b[j - 1] == (t[..j] + [b[j]] + t[j..] + rest)[j - 1];
    }
  }

  /** Copying the element left of the gap into it moves the gap one place left. */
  lemma ShiftStep<T>(b: seq<T>, t: seq<T>, rest: seq<T>, j: int)
    requires 0 < j <= |t| && |b| == |t| + 1 + |rest|
    requires b == t[..j] + [b[j]] + t[j..] + rest
    ensures b[j := b[j - 1]] == t[..j - 1] + [b[j - 1]] + t[j - 1..] + rest
  {
    GapNeighbour(b, t, rest, j);
    assert t[..j] == t[..j - 1] + [t[j - 1]];
    assert t[j - 1..] == [t[j - 1]] + t[j..];
  }

  /** One pass: moves a[i] left past the elements of the sorted prefix that compare greater. */
  method InsertLast<T>(a: array<T>, i: int, cmp: (T, T) -> int)
    requires 0 <= i < a.Length
    modifies a
    ensures a[..i + 1] == Insert(old(a[..i]), old(a[i]), cmp)
    ensures a[i + 1..] == old(a[i + 1..])
  {
    var x := a[i];
    ghost var t := a[..i];
    ghost var rest := a[i + 1..];
    var j := ShiftGreater(a, i, x, cmp);
    assert t[..j] == old(a[..j]) && t[j..] == old(a[j..i]);
    assert j > 0 ==> t[j - 1] == old(a[j - 1]);
    InsertStops(t, x, j, cmp);
    ghost var b := a[..];
    a[j] := x;
    assert a[..] == b[j := x];
    FillGap(b, t, rest, j, x);
  }

  /** Writing x into the gap at j yields t with x inserted at j, followed by the untouched rest. */
  lemma FillGap<T>(b: seq<T>, t: seq<T>, rest: seq<T>, j: int, x: T)
    requires 0 <= j <= |t| && |b| == |t| + 1 + |rest|
    requires b == t[..j] + [b[j]] + t[j..] + rest
    ensures b[j := x][..|t| + 1] == t[..j] + [x] + t[j..]
    ensures b[j := x][|t| + 1..] == rest
  {
    assert b[j := x] == (t[..j] + [x] + t[j..]) + rest;
  }

  /** The sort, in place. */
  method SortInPlace<T>(a: array<T>, cmp: (T, T) -> int)
    modifies a
    ensures a[..] == InsertionSort(old(a[..]), cmp)
  {
    ghost var s := a[..];
    var i := 0;
    while i < a.Length
      invariant 0 <= i <= a.Length
      invariant a[..i] == InsertionSort(s[..i], cmp)
      invariant a[i..] == s[i..]
    {
      assert a[i] == s[i] by {
        assert a[i..][0] == s[i..][0];
      }
      InsertLast(a, i, cmp);
      assert a[i + 1..] == s[i + 1..] by {
        assert s[i..][1..] == s[i + 1..];
      }
      InsertionSortPrefix(s, i, cmp);
      i := i + 1;
    }
    assert s[..a.Length] == s;
  }
}
