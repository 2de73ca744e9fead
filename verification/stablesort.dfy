/**
 * A stable sort driven by a three-way comparator, as `Array.prototype.sort`
 * is: `cmp(a, b) > 0` puts `b` first, anything else keeps `a` first.
 */
module StableSort {

  /** `cmp` behaves like a comparator of a total preorder. */
  ghost predicate IsTotalPreorder<T(!new)>(cmp: (T, T) -> int) {
    && (forall a, b :: cmp(a, b) > 0 <==> cmp(b, a) < 0)
    && (forall a, b, c :: cmp(a, b) <= 0 && cmp(b, c) <= 0 ==> cmp(a, c) <= 0)
  }

  /** Every element is ordered no later than every element after it. */
  ghost predicate IsSorted<T>(s: seq<T>, cmp: (T, T) -> int) {
    forall i, j :: 0 <= i < j < |s| ==> cmp(s[i], s[j]) <= 0
  }

  /** The elements of `s` that compare equal to `y`, in their order in `s`. */
  function EquivalentTo<T>(s: seq<T>, y: T, cmp: (T, T) -> int): seq<T> {
    if |s| == 0 then []
    else (if cmp(s[0], y) == 0 then [s[0]] else []) + EquivalentTo(s[1..], y, cmp)
  }

  /** Insert `x` before the first element it is not ordered after. */
  function Insert<T>(x: T, s: seq<T>, cmp: (T, T) -> int): (r: seq<T>)
    ensures multiset(r) == multiset(s) + multiset{x}
  {
    if |s| == 0 then [x]
    else if cmp(x, s[0]) <= 0 then [x] + s
    else
      assert s == [s[0]] + s[1..];
      [s[0]] + Insert(x, s[1..], cmp)
  }

  /** Insertion sort from the back, each element placed ahead of the equal ones already sorted. */
  function Sort<T>(s: seq<T>, cmp: (T, T) -> int): (r: seq<T>)
    ensures multiset(r) == multiset(s)
    ensures |r| == |s|
  {
    if |s| == 0 then []
    else
      assert s == [s[0]] + s[1..];
      Insert(s[0], Sort(s[1..], cmp), cmp)
  }

  lemma {:induction false} InsertSorted<T(!new)>(x: T, s: seq<T>, cmp: (T, T) -> int)
    requires IsTotalPreorder(cmp)
    requires IsSorted(s, cmp)
    ensures IsSorted(Insert(x, s, cmp), cmp)
    decreases |s|
  {
    if |s| == 0 {
    } else if cmp(x, s[0]) <= 0 {
      forall j | 0 <= j < |s|
        ensures cmp(x, s[j]) <= 0
      {
        if j > 0 {
          Transitive(cmp, x, s[0], s[j]);
        }
      }
      PrependSorted(x, s, cmp);
    } else {
      var rest := Insert(x, s[1..], cmp);
      assert IsSorted(rest, cmp) by {
        InsertSorted(x, s[1..], cmp);
      }
      assert cmp(s[0], x) < 0;
      InsertBound(s[0], x, s[1..], cmp);
      PrependSorted(s[0], rest, cmp);
    }
  }

  /** Putting an element ordered before all of a sorted sequence in front keeps it sorted. */
  lemma PrependSorted<T>(x: T, s: seq<T>, cmp: (T, T) -> int)
    requires IsSorted(s, cmp)
    requires forall j :: 0 <= j < |s| ==> cmp(x, s[j]) <= 0
    ensures IsSorted([x] + s, cmp)
  {
    var r := [x] + s;
    forall i, j | 0 <= i < j < |r|
      ensures cmp(r[i], r[j]) <= 0
    {
      assert r[j] == s[j - 1];
      if i > 0 {
        assert r[i] == s[i - 1];
      }
    }
  }

  /** A lower bound of `x` and of all of `s` is a lower bound of all of `Insert(x, s)`. */
  lemma {:induction false} InsertBound<T>(b: T, x: T, s: seq<T>, cmp: (T, T) -> int)
    requires cmp(b, x) <= 0
    requires forall j :: 0 <= j < |s| ==> cmp(b, s[j]) <= 0
    ensures forall j :: 0 <= j < |Insert(x, s, cmp)| ==> cmp(b, Insert(x, s, cmp)[j]) <= 0
    decreases |s|
  {
    if |s| > 0 && cmp(x, s[0]) > 0 {
      InsertBound(b, x, s[1..], cmp);
      var r := Insert(x, s, cmp);
      var rest := Insert(x, s[1..], cmp);
      assert r == [s[0]] + rest;
      forall j | 0 <= j < |r|
        ensures cmp(b, r[j]) <= 0
      {
        if j > 0 {
          assert r[j] == rest[j - 1];
        }
      }
    } else if |s| > 0 {
      var r := Insert(x, s, cmp);
      assert r == [x] + s;
      forall j | 0 <= j < |r|
        ensures cmp(b, r[j]) <= 0
      {
        if j > 0 {
          assert r[j] == s[j - 1];
        }
      }
    }
  }

  lemma Transitive<T(!new)>(cmp: (T, T) -> int, a: T, b: T, c: T)
    requires IsTotalPreorder(cmp)
    requires cmp(a, b) <= 0 && cmp(b, c) <= 0
    ensures cmp(a, c) <= 0
  {
  }

  lemma InsertEquivalent<T(!new)>(x: T, s: seq<T>, y: T, cmp: (T, T) -> int)
    requires IsTotalPreorder(cmp)
    ensures EquivalentTo(Insert(x, s, cmp), y, cmp) ==
            (if cmp(x, y) == 0 then [x] else []) + EquivalentTo(s, y, cmp)
  {
    forall j | 0 <= j < |s| && cmp(x, s[j]) > 0
      ensures !(cmp(x, y) == 0 && cmp(s[j], y) == 0)
    {
      NotBothEquivalent(cmp, x, s[j], y);
    }
    InsertEquivalentPassing(x, s, y, cmp);
  }

  /**
   * The induction behind `InsertEquivalent`: it needs only that `x` never
   * passes an element equivalent to `y` while being equivalent to `y` itself.
   */
  lemma {:induction false} InsertEquivalentPassing<T>(x: T, s: seq<T>, y: T, cmp: (T, T) -> int)
    requires forall j :: 0 <= j < |s| && cmp(x, s[j]) > 0 ==> !(cmp(x, y) == 0 && cmp(s[j], y) == 0)
    ensures EquivalentTo(Insert(x, s, cmp), y, cmp) ==
            (if cmp(x, y) == 0 then [x] else []) + EquivalentTo(s, y, cmp)
    decreases |s|
  {
    var hx: seq<T> := if cmp(x, y) == 0 then [x] else [];
    if |s| == 0 {
    } else if cmp(x, s[0]) <= 0 {
      EquivalentCons(x, s, y, cmp);
    } else {
      var rest := Insert(x, s[1..], cmp);
      var hs: seq<T> := if cmp(s[0], y) == 0 then [s[0]] else [];
      var tail := EquivalentTo(s[1..], y, cmp);
      assert EquivalentTo(rest, y, cmp) == hx + tail by {
        forall j | 0 <= j < |s[1..]| && cmp(x, s[1..][j]) > 0
          ensures !(cmp(x, y) == 0 && cmp(s[1..][j], y) == 0)
        {
          assert s[1..][j] == s[j + 1];
        }
        InsertEquivalentPassing(x, s[1..], y, cmp);
      }
      assert EquivalentTo(Insert(x, s, cmp), y, cmp) == hs + (hx + tail) by {
        EquivalentCons(s[0], rest, y, cmp);
      }
      assert hx == [] || hs == [];
      if hx == [] {
        assert hx + (hs + tail) == hs + tail;
        assert hx + tail == tail;
      } else {
        assert hs + (hx + tail) == hx + tail;
        assert hs + tail == tail;
      }
    }
  }

  lemma EquivalentCons<T>(a: T, s: seq<T>, y: T, cmp: (T, T) -> int)
    ensures EquivalentTo([a] + s, y, cmp) == (if cmp(a, y) == 0 then [a] else []) + EquivalentTo(s, y, cmp)
  {
    assert ([a] + s)[1..] == s;
  }

  /** Two elements that are strictly ordered cannot both be equivalent to a third. */
  lemma NotBothEquivalent<T(!new)>(cmp: (T, T) -> int, a: T, b: T, y: T)
    requires IsTotalPreorder(cmp)
    requires cmp(a, b) > 0
    ensures !(cmp(a, y) == 0 && cmp(b, y) == 0)
  {
    if cmp(a, y) == 0 && cmp(b, y) == 0 {
      Transitive(cmp, a, y, b);
    }
  }

  /** The result is ordered by `cmp`. */
  lemma {:induction false} SortSorted<T(!new)>(s: seq<T>, cmp: (T, T) -> int)
    requires IsTotalPreorder(cmp)
    ensures IsSorted(Sort(s, cmp), cmp)
    decreases |s|
  {
    if |s| > 0 {
      SortSorted(s[1..], cmp);
      InsertSorted(s[0], Sort(s[1..], cmp), cmp);
    }
  }

  /** Stability: the elements of each equivalence class keep their input order. */
  lemma {:induction false} SortStable<T(!new)>(s: seq<T>, y: T, cmp: (T, T) -> int)
    requires IsTotalPreorder(cmp)
    ensures EquivalentTo(Sort(s, cmp), y, cmp) == EquivalentTo(s, y, cmp)
    decreases |s|
  {
    if |s| > 0 {
      SortStable(s[1..], y, cmp);
      InsertEquivalent(s[0], Sort(s[1..], cmp), y, cmp);
    }
  }
}
