/** Vocabulary shared by the whole model: optional values, Go's string order and `sort.Slice`. */
module Common {

  datatype Option<+T> = None | Some(value: T)

  function Min(a: int, b: int): int {
    if a <= b then a else b
  }

  /** Go's `<` on strings: lexicographic. */
  predicate Less(a: string, b: string) {
    b != [] && (a == [] || a[0] < b[0] || (a[0] == b[0] && Less(a[1..], b[1..])))
  }

  lemma {:induction false} LessTotal(a: string, b: string)
    ensures Less(a, b) || a == b || Less(b, a)
    ensures !(Less(a, b) && Less(b, a))
    ensures Less(a, b) || Less(b, a) ==> a != b
  {
    if a != [] && b != [] && a[0] == b[0] {
      LessTotal(a[1..], b[1..]);
      assert a == [a[0]] + a[1..] && b == [b[0]] + b[1..];
    }
  }

  lemma SamePrefix(a: string, b: string, i: nat)
    requires 0 < i <= |a| && i <= |b| && a[..i] == b[..i]
    ensures a[0] == b[0]
  {
    assert a[..i][0] == b[..i][0];
  }

  /** The first difference decides; a proper prefix comes first. */
  lemma {:induction false} LessAtFirstDifference(a: string, b: string)
    ensures Less(a, b) <==> exists i | 0 <= i <= |a| && i < |b| :: a[..i] == b[..i] && (i == |a| || a[i] < b[i])
  {
    if a != [] && b != [] && a[0] == b[0] {
      LessAtFirstDifference(a[1..], b[1..]);
      var x, y := a[1..], b[1..];
      if i :| 0 <= i <= |x| && i < |y| && x[..i] == y[..i] && (i == |x| || x[i] < y[i]) {
        assert a[..i + 1] == [a[0]] + x[..i] && b[..i + 1] == [b[0]] + y[..i];
      }
      if i :| 0 <= i <= |a| && i < |b| && a[..i] == b[..i] && (i == |a| || a[i] < b[i]) {
        assert i > 0;
        assert x[..i - 1] == a[..i][1..] && y[..i - 1] == b[..i][1..];
      }
    } else if a != [] && b != [] {
      if i :| 0 <= i <= |a| && i < |b| && a[..i] == b[..i] && (i == |a| || a[i] < b[i]) {
        assert i == 0 by { if i > 0 { SamePrefix(a, b, i); } }
      }
      if a[0] < b[0] { assert a[..0] == b[..0]; }
    } else if b != [] {
      assert a[..0] == b[..0];
    }
  }

  lemma {:induction false} LessTransitive(a: string, b: string, c: string)
    requires Less(a, b) && Less(b, c)
    ensures Less(a, c)
  {
    if a != [] && a[0] == b[0] == c[0] {
      LessTransitive(a[1..], b[1..], c[1..]);
    }
  }

  /** What `sort.Slice` asks of its comparison. */
  ghost predicate StrictWeakOrder<T(!new)>(less: (T, T) -> bool) {
    && (forall x, y :: less(x, y) ==> !less(y, x))
    && (forall x, y, z :: !less(x, y) && !less(y, z) ==> !less(x, z))
  }

  ghost predicate SortedBy<T>(less: (T, T) -> bool, s: seq<T>) {
    forall i, j | 0 <= i < j < |s| :: !less(s[j], s[i])
  }

  lemma InsertKeepsSorted<T(!new)>(less: (T, T) -> bool, r: seq<T>, i: nat, x: T)
    requires StrictWeakOrder(less) && SortedBy(less, r) && i <= |r|
    requires forall j | 0 <= j < i :: !less(x, r[j])
    requires i < |r| ==> less(x, r[i])
    ensures SortedBy(less, r[..i] + [x] + r[i..])
  {
    var t := r[..i] + [x] + r[i..];
    forall a, b | 0 <= a < b < |t|
      ensures !less(t[b], t[a])
    {
      if b == i {
        assert t[a] == r[a];
      } else if a == i {
        assert t[b] == r[b - 1] && !less(r[i], x);
        assert i < b - 1 ==> !less(r[b - 1], r[i]);
      } else {
        assert t[a] == r[if a < i then a else a - 1] && t[b] == r[if b < i then b else b - 1];
      }
    }
  }

  /** Stands for `sort.Slice`, which is not stable: callers learn only that the result is
      some sorted arrangement of the input, never which one among equal elements. */
  method SortSlice<T(!new)>(s: seq<T>, less: (T, T) -> bool) returns (r: seq<T>)
    requires StrictWeakOrder(less)
    ensures multiset(r) == multiset(s)
    ensures SortedBy(less, r)
  {
    r := [];
    for n := 0 to |s|
      invariant multiset(r) == multiset(s[..n])
      invariant SortedBy(less, r)
    {
      var x, i := s[n], 0;
      while i < |r| && !less(x, r[i])
        invariant 0 <= i <= |r|
        invariant forall j | 0 <= j < i :: !less(x, r[j])
      {
        i := i + 1;
      }
      InsertKeepsSorted(less, r, i, x);
      InsertAddsOne(r, i, x);
      assert s[..n + 1] == s[..n] + [x];
      r := r[..i] + [x] + r[i..];
    }
    assert s[..|s|] == s;
  }

  lemma InsertAddsOne<T>(r: seq<T>, i: nat, x: T)
    requires i <= |r|
    ensures multiset(r[..i] + [x] + r[i..]) == multiset(r) + multiset{x}
  {
    assert r == r[..i] + r[i..];
  }

  lemma InsertionPoint<T(!new)>(less: (T, T) -> bool, r: seq<T>, x: T) returns (i: nat)
    ensures i <= |r| && (forall j | 0 <= j < i :: !less(x, r[j])) && (i < |r| ==> less(x, r[i]))
  {
    i := 0;
    while i < |r| && !less(x, r[i])
      invariant 0 <= i <= |r|
      invariant forall j | 0 <= j < i :: !less(x, r[j])
    {
      i := i + 1;
    }
  }

  lemma InsertSorted<T(!new)>(less: (T, T) -> bool, r: seq<T>, x: T) returns (t: seq<T>)
    requires StrictWeakOrder(less) && SortedBy(less, r)
    ensures multiset(t) == multiset(r) + multiset{x} && SortedBy(less, t)
  {
    var i := InsertionPoint(less, r, x);
    InsertKeepsSorted(less, r, i, x);
    InsertAddsOne(r, i, x);
    t := r[..i] + [x] + r[i..];
  }

  lemma {:induction false} SortedArrangement<T(!new)>(s: seq<T>, less: (T, T) -> bool) returns (r: seq<T>)
    requires StrictWeakOrder(less)
    ensures multiset(r) == multiset(s) && SortedBy(less, r)
  {
    if s == [] {
      r := [];
    } else {
      var front := SortedArrangement(s[..|s| - 1], less);
      r := InsertSorted(less, front, s[|s| - 1]);
      assert s == s[..|s| - 1] + [s[|s| - 1]];
    }
  }

  lemma {:induction false} SetOfDistinct<T>(s: seq<T>)
    requires forall i, j | 0 <= i < j < |s| :: s[i] != s[j]
    ensures |set x | x in s| == |s|
  {
    if s != [] {
      var t := s[..|s| - 1];
      SetOfDistinct(t);
      assert s == t + [s[|s| - 1]];
      assert (set x | x in s) == (set x | x in t) + {s[|s| - 1]};
    }
  }

  lemma SubsetOfSize<T>(a: set<T>, b: set<T>)
    requires a <= b
    ensures |a| <= |b|
    ensures |a| == |b| ==> a == b
  {
    assert b == a + (b - a);
    assert |b| == |a| + |b - a|;
    assert b - a == {} ==> a == b;
  }
}
