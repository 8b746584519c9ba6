/** Sorted containers: `lower_bound`, `addUniqueDataAndSort` of include/gutil.h and the standard
    algorithms the network relies on. The order is any strict total order `lt`. */
module SortedLists {

  ghost predicate StrictOrder<T(!new)>(lt: (T, T) -> bool) {
    && (forall a :: !lt(a, a))
    && (forall a, b, c :: lt(a, b) && lt(b, c) ==> lt(a, c))
    && forall a, b :: a == b || lt(a, b) || lt(b, a)
  }

  ghost predicate StrictlySorted<T>(s: seq<T>, lt: (T, T) -> bool) {
    forall i, j :: 0 <= i < j < |s| ==> lt(s[i], s[j])
  }

  /** First position whose element is not below `x`. */
  function LowerBound<T>(s: seq<T>, x: T, lt: (T, T) -> bool): (k: nat)
    ensures k <= |s|
    ensures forall i :: 0 <= i < k ==> lt(s[i], x)
    ensures k < |s| ==> !lt(s[k], x)
  {
    if s == [] || !lt(s[0], x) then 0
    else
      var k := LowerBound(s[1..], x, lt);
      assert forall i :: 1 <= i < k + 1 ==> s[i] == s[1..][i - 1];
      1 + k
  }

  /** Insert unless present. */
  function Inserted<T(==)>(s: seq<T>, x: T, lt: (T, T) -> bool): seq<T> {
    var k := LowerBound(s, x, lt);
    if k < |s| && s[k] == x then s else s[..k] + [x] + s[k..]
  }

  lemma InsertedIsSorted<T(!new)>(s: seq<T>, x: T, lt: (T, T) -> bool)
    requires StrictOrder(lt) && StrictlySorted(s, lt)
    ensures StrictlySorted(Inserted(s, x, lt), lt)
    ensures forall y :: y in Inserted(s, x, lt) <==> y == x || y in s
    ensures |Inserted(s, x, lt)| == |s| + if x in s then 0 else 1
  {
    var k := LowerBound(s, x, lt);
    var r := Inserted(s, x, lt);
    if x in s {
      var j :| 0 <= j < |s| && s[j] == x;
      assert j >= k;
      assert j == k;
    } else {
      assert k < |s| ==> lt(x, s[k]);
      forall i, j | 0 <= i < j < |r|
        ensures lt(r[i], r[j])
      {
        assert r[i] == if i < k then s[i] else if i == k then x else s[i - 1];
        assert r[j] == if j < k then s[j] else if j == k then x else s[j - 1];
      }
      assert s == s[..k] + s[k..];
    }
  }

  function Filtered<T(==,!new)>(s: seq<T>, x: T): (r: seq<T>)
    ensures forall y :: y in r <==> y in s && y != x
    ensures |r| <= |s|
    ensures x !in s ==> r == s
  {
    if s == [] then []
    else
      assert s == [s[0]] + s[1..];
      if s[0] == x then Filtered(s[1..], x) else [s[0]] + Filtered(s[1..], x)
  }

  lemma {:induction false} FilteredIsSorted<T(!new)>(s: seq<T>, x: T, lt: (T, T) -> bool)
    requires StrictlySorted(s, lt)
    ensures StrictlySorted(Filtered(s, x), lt)
  {
    if s != [] {
      FilteredIsSorted(s[1..], x, lt);
      var f := Filtered(s[1..], x);
      forall j | 0 <= j < |f|
        ensures lt(s[0], f[j])
      {
        assert f[j] in f && f[j] in s[1..];
        var i :| 0 <= i < |s[1..]| && s[1..][i] == f[j];
        assert s[i + 1] == f[j];
      }
    }
  }

  lemma {:induction false} FilteredLength<T(!new)>(s: seq<T>, x: T, lt: (T, T) -> bool)
    requires StrictOrder(lt) && StrictlySorted(s, lt) && x in s
    ensures |Filtered(s, x)| == |s| - 1
  {
    assert s == [s[0]] + s[1..];
    if s[0] == x {
      assert x !in s[1..];
    } else {
      FilteredLength(s[1..], x, lt);
    }
  }

  /** `addUniqueDataAndSort`: reports whether the element was there already. */
  method AddUniqueDataAndSort<T(==)>(dest: seq<T>, src: T, lt: (T, T) -> bool) returns (exist: bool, dest': seq<T>)
    ensures dest' == Inserted(dest, src, lt)
    ensures exist ==> src in dest
    ensures !exist ==> |dest'| == |dest| + 1
  {
    var ptr := 0;
    while ptr < |dest| && lt(dest[ptr], src)
      invariant ptr <= |dest| && forall i :: 0 <= i < ptr ==> lt(dest[i], src)
    {
      ptr := ptr + 1;
    }
    assert ptr == LowerBound(dest, src, lt);
    if ptr == |dest| || dest[ptr] != src {
      return false, dest[..ptr] + [src] + dest[ptr..];
    }
    return true, dest;
  }

  /** `set_intersection` of two sorted lists. */
  method Intersect(a: seq<nat>, b: seq<nat>) returns (c: seq<nat>)
    requires StrictlySorted(a, LessThan) && StrictlySorted(b, LessThan)
    ensures StrictlySorted(c, LessThan)
    ensures forall x :: x in c <==> x in a && x in b
  {
    var i, j := 0, 0;
    c := [];
    while i < |a| && j < |b|
      invariant i <= |a| && j <= |b|
      invariant StrictlySorted(c, LessThan)
      invariant forall x :: x in c <==> x in a[..i] && x in b[..j]
      invariant forall x :: x in c ==> (i < |a| ==> x < a[i]) && (j < |b| ==> x < b[j])
      invariant forall p :: 0 <= p < i && j < |b| ==> a[p] < b[j]
      invariant forall q :: 0 <= q < j && i < |a| ==> b[q] < a[i]
    {
      if a[i] < b[j] {
        i := i + 1;
      } else if b[j] < a[i] {
        j := j + 1;
      } else {
        assert forall k :: 0 <= k < |c| ==> c[k] in c;
        c := c + [a[i]];
        i, j := i + 1, j + 1;
      }
    }
  }

  predicate LessThan(a: nat, b: nat) {
    a < b
  }

  lemma LessThanIsOrder()
    ensures StrictOrder(LessThan)
  {
  }
}
