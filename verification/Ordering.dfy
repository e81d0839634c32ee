/** The order Python gives byte strings and text, and sorting by it. */
module Ordering {
  import opened Bytes

  /** `cmp(a, b)` on numbers */
  function Cmp(a: int, b: int): int {
    if a < b then -1 else if a > b then 1 else 0
  }

  /** `cmp(a, b)` on byte strings, or on text as code points: lexicographic, a
      proper prefix first. */
  function Compare(a: seq<int>, b: seq<int>): int {
    if a == [] then (if b == [] then 0 else -1)
    else if b == [] then 1
    else if a[0] != b[0] then Cmp(a[0], b[0])
    else Compare(a[1..], b[1..])
  }

  lemma {:induction false} CompareZero(a: seq<int>, b: seq<int>)
    ensures Compare(a, b) == 0 <==> a == b
  {
    if a != [] && b != [] {
      CompareZero(a[1..], b[1..]);
      if a[0] == b[0] && a[1..] == b[1..] {
        assert a == [a[0]] + a[1..] == b;
      }
    }
  }

  /** Where a string departs from another at `i`: it ends there or has the lesser element. */
  predicate Departs(a: seq<int>, b: seq<int>, i: nat) {
    i <= |a| && i < |b| && a[..i] == b[..i] && (i == |a| || a[i] < b[i])
  }

  lemma SameHead(a: seq<int>, b: seq<int>, i: nat)
    requires Departs(a, b, i)
    ensures i > 0 ==> a[0] == b[0]
  {
    assert i > 0 ==> a[..i][0] == b[..i][0];
  }

  lemma {:induction false} CompareIff(a: seq<int>, b: seq<int>)
    ensures Compare(a, b) < 0 <==> exists i :: Departs(a, b, i)
  {
    if a == [] {
      assert b != [] ==> Departs(a, b, 0);
    } else if b != [] && a[0] != b[0] {
      assert a[0] < b[0] ==> Departs(a, b, 0);
      forall i: nat | Departs(a, b, i) ensures i == 0 {
        SameHead(a, b, i);
      }
    } else if b != [] {
      CompareIff(a[1..], b[1..]);
      forall i: nat | Departs(a, b, i) ensures i > 0 && Departs(a[1..], b[1..], i - 1) {
        assert i > 0;
        assert a[1..][..i - 1] == a[..i][1..] && b[1..][..i - 1] == b[..i][1..];
      }
      forall i: nat | Departs(a[1..], b[1..], i) ensures Departs(a, b, i + 1) {
        assert a[..i + 1] == [a[0]] + a[1..][..i] && b[..i + 1] == [b[0]] + b[1..][..i];
      }
    }
  }

  lemma {:induction false} CompareFlips(a: seq<int>, b: seq<int>)
    ensures Compare(a, b) == -Compare(b, a)
  {
    if a != [] && b != [] {
      CompareFlips(a[1..], b[1..]);
    }
  }

  lemma {:induction false} CompareTransitive(a: seq<int>, b: seq<int>, c: seq<int>)
    requires Compare(a, b) <= 0 && Compare(b, c) <= 0
    ensures Compare(a, c) <= 0
    ensures Compare(a, b) < 0 || Compare(b, c) < 0 ==> Compare(a, c) < 0
  {
    if a != [] && b != [] && c != [] && a[0] == b[0] == c[0] {
      CompareTransitive(a[1..], b[1..], c[1..]);
    }
  }

  /** A common beginning does not matter. */
  lemma {:induction false} ComparePrefix(p: seq<int>, a: seq<int>, b: seq<int>)
    ensures Compare(p + a, p + b) == Compare(a, b)
  {
    if p == [] {
      assert p + a == a && p + b == b;
    } else {
      ComparePrefix(p[1..], a, b);
      assert (p + a)[1..] == p[1..] + a && (p + b)[1..] == p[1..] + b;
    }
  }

  /** Parts of equal length are compared first, what follows them second. */
  lemma {:induction false} CompareParts(a: seq<int>, x: seq<int>, b: seq<int>, y: seq<int>)
    requires |a| == |b|
    ensures Compare(a + x, b + y) == if Compare(a, b) != 0 then Compare(a, b) else Compare(x, y)
  {
    if a == [] {
      assert a + x == x && b + y == y;
    } else {
      CompareParts(a[1..], x, b[1..], y);
      assert (a + x)[1..] == a[1..] + x && (b + y)[1..] == b[1..] + y;
    }
  }

  /** On digit strings of equal length, lexicographic order is numeric order. */
  lemma {:induction false} CompareIsNumeric(base: nat, a: seq<int>, b: seq<int>)
    requires |a| == |b| && Digits(base, a) && Digits(base, b)
    ensures Compare(a, b) == Cmp(Value(base, a), Value(base, b))
  {
    if |a| > 0 {
      var n := |a| - 1;
      CompareIsNumeric(base, a[..n], b[..n]);
      assert a == a[..n] + [a[n]] && b == b[..n] + [b[n]];
      CompareParts(a[..n], [a[n]], b[..n], [b[n]]);
      assert Compare([a[n]], [b[n]]) == Cmp(a[n], b[n]);
      LastDigit(base, Value(base, a[..n]), a[n], Value(base, b[..n]), b[n]);
    }
  }

  lemma LastDigit(base: nat, v: int, x: int, w: int, y: int)
    requires 0 <= x < base && 0 <= y < base
    ensures Cmp(base * v + x, base * w + y) == if v != w then Cmp(v, w) else Cmp(x, y)
  {
    if v < w {
      MulAtMost(base, v + 1, w);
      assert base * (v + 1) == base * v + base;
    } else if w < v {
      MulAtMost(base, w + 1, v);
      assert base * (w + 1) == base * w + base;
    }
  }

  // ----- Sorting -----

  /** Elements in order, none after one it is less than. */
  ghost predicate Sorted<T(!new)>(less: (T, T) -> bool, s: seq<T>) {
    forall i, j :: 0 <= i < j < |s| ==> !less(s[j], s[i])
  }

  /** A strict order in which "not after" is transitive, ties included. */
  ghost predicate StrictOrder<T(!new)>(less: (T, T) -> bool) {
    && (forall a, b :: less(a, b) ==> !less(b, a))
    && (forall a, b, c :: !less(b, a) && !less(c, b) ==> !less(c, a))
  }

  /** Where a stable sort puts `x`: after everything it is not less than. */
  function Insert<T>(less: (T, T) -> bool, x: T, s: seq<T>): seq<T> {
    if s == [] then [x]
    else if less(x, s[|s| - 1]) then Insert(less, x, s[..|s| - 1]) + [s[|s| - 1]]
    else s + [x]
  }

  /** `sorted`: the stable sort, elements taken in order. */
  function Sort<T>(less: (T, T) -> bool, s: seq<T>): (r: seq<T>)
  {
    if s == [] then [] else Insert(less, s[|s| - 1], Sort(less, s[..|s| - 1]))
  }

  lemma {:induction false} InsertSorted<T(!new)>(less: (T, T) -> bool, x: T, s: seq<T>)
    requires StrictOrder(less) && Sorted(less, s)
    ensures Sorted(less, Insert(less, x, s))
    ensures forall y :: y in Insert(less, x, s) <==> y == x || y in s
  {
    if s != [] {
      var init, last := s[..|s| - 1], s[|s| - 1];
      assert s == init + [last];
      if less(x, last) {
        InsertSorted(less, x, init);
        var r := Insert(less, x, init);
        forall i | 0 <= i < |r| ensures !less(last, r[i]) {
          assert r[i] in r;
        }
      } else {
        forall i | 0 <= i < |s| ensures !less(x, s[i]) {
          assert i < |init| ==> !less(last, s[i]);
        }
      }
    }
  }

  /** The sorted list is in order and holds what the list held. */
  lemma {:induction false} SortSorted<T(!new)>(less: (T, T) -> bool, s: seq<T>)
    requires StrictOrder(less)
    ensures Sorted(less, Sort(less, s))
    ensures forall y :: y in Sort(less, s) <==> y in s
  {
    if s != [] {
      var init, last := s[..|s| - 1], s[|s| - 1];
      assert s == init + [last];
      SortSorted(less, init);
      InsertSorted(less, last, Sort(less, init));
    }
  }

  /** What is in order already is left as it is. */
  lemma {:induction false} SortFixed<T(!new)>(less: (T, T) -> bool, s: seq<T>)
    requires Sorted(less, s)
    ensures Sort(less, s) == s
  {
    if s != [] {
      SortFixed(less, s[..|s| - 1]);
      assert s == s[..|s| - 1] + [s[|s| - 1]];
    }
  }

  lemma {:induction false} InsertElements<T>(less: (T, T) -> bool, x: T, s: seq<T>)
    ensures multiset(Insert(less, x, s)) == multiset(s) + multiset{x}
  {
    if s != [] && less(x, s[|s| - 1]) {
      InsertElements(less, x, s[..|s| - 1]);
      assert s == s[..|s| - 1] + [s[|s| - 1]];
    }
  }

  lemma {:induction false} SortElements<T>(less: (T, T) -> bool, s: seq<T>)
    ensures multiset(Sort(less, s)) == multiset(s)
  {
    if s != [] {
      var init, last := s[..|s| - 1], s[|s| - 1];
      assert s == init + [last];
      SortElements(less, init);
      InsertElements(less, last, Sort(less, init));
      hide Insert;
    }
  }
}
