/** The assignment solver of src/operand/algorithms/Hungarian.cpp.

  Doubles are modelled as reals and INFINITY as a constructor of its own. The
  covering of one round is described by the list of lines it strikes, in order;
  the methods keep the four work matrices of the source and are proved to
  compute exactly what that list says.
 */
module Assignment {
  import opened Basics

  datatype Cell = Fin(value: real) | Infinity
  datatype Line = Row(index: nat) | Col(index: nat)
  type Grid<T> = seq<seq<T>>
  type Matrix = Grid<real>

  ghost predicate Square<T>(m: Grid<T>, n: nat) {
    |m| == n && forall i :: 0 <= i < n ==> |m[i]| == n
  }

  function Build<T>(n: nat, f: (nat, nat) --> T): (m: Grid<T>)
    requires forall i: nat, j: nat :: i < n && j < n ==> f.requires(i, j)
    ensures Square(m, n)
    ensures forall i, j :: 0 <= i < n && 0 <= j < n ==> m[i][j] == f(i, j)
  {
    seq(n, i requires 0 <= i < n => seq(n, j requires 0 <= j < n => f(i, j)))
  }

  function Column<T>(m: Grid<T>, n: nat, j: nat): (c: seq<T>)
    requires Square(m, n) && j < n
    ensures |c| == n && forall i :: 0 <= i < n ==> c[i] == m[i][j]
  {
    seq(n, i requires 0 <= i < n => m[i][j])
  }

  lemma GridsEqual<T>(a: Grid<T>, b: Grid<T>, n: nat)
    requires Square(a, n) && Square(b, n)
    requires forall i, j :: 0 <= i < n && 0 <= j < n ==> a[i][j] == b[i][j]
    ensures a == b
  {
    forall i | 0 <= i < n
      ensures a[i] == b[i]
    {
    }
  }

  // ---------------------------------------------------------------- reduction

  function MinOf(s: seq<real>): (r: real)
    requires |s| > 0
    ensures r in s
    ensures forall k :: 0 <= k < |s| ==> r <= s[k]
  {
    if |s| == 1 then s[0]
    else
      var r := MinOf(s[1..]);
      assert forall k :: 1 <= k < |s| ==> s[k] == s[1..][k - 1];
      if s[0] <= r then s[0] else r
  }

  function RowMins(m: Matrix, n: nat): (u: seq<real>)
    requires n > 0 && Square(m, n)
    ensures |u| == n && forall i :: 0 <= i < n ==> u[i] == MinOf(m[i])
  {
    seq(n, i requires 0 <= i < n => MinOf(m[i]))
  }

  function ColMins(m: Matrix, n: nat): (v: seq<real>)
    requires n > 0 && Square(m, n)
    ensures |v| == n && forall j :: 0 <= j < n ==> v[j] == MinOf(Column(m, n, j))
  {
    seq(n, j requires 0 <= j < n => MinOf(Column(m, n, j)))
  }

  function MinusRows(m: Matrix, n: nat, u: seq<real>): (r: Matrix)
    requires Square(m, n) && |u| == n
    ensures Square(r, n)
    ensures forall i, j :: 0 <= i < n && 0 <= j < n ==> r[i][j] == m[i][j] - u[i]
  {
    Build(n, (i: nat, j: nat) requires i < n && j < n => m[i][j] - u[i])
  }

  function MinusCols(m: Matrix, n: nat, v: seq<real>): (r: Matrix)
    requires Square(m, n) && |v| == n
    ensures Square(r, n)
    ensures forall i, j :: 0 <= i < n && 0 <= j < n ==> r[i][j] == m[i][j] - v[j]
  {
    Build(n, (i: nat, j: nat) requires i < n && j < n => m[i][j] - v[j])
  }

  function Reduce(input: Matrix, n: nat): (r: Matrix)
    requires n > 0 && Square(input, n)
    ensures Square(r, n)
  {
    var m1 := MinusRows(input, n, RowMins(input, n));
    MinusCols(m1, n, ColMins(m1, n))
  }

  ghost predicate NonNegative(m: Matrix, n: nat)
    requires Square(m, n)
  {
    forall i, j :: 0 <= i < n && 0 <= j < n ==> m[i][j] >= 0.0
  }

  ghost predicate RowHasZero(m: Matrix, n: nat, i: nat)
    requires Square(m, n) && i < n
  {
    exists j :: 0 <= j < n && m[i][j] == 0.0
  }

  ghost predicate ColHasZero(m: Matrix, n: nat, j: nat)
    requires Square(m, n) && j < n
  {
    exists i :: 0 <= i < n && m[i][j] == 0.0
  }

  ghost predicate EveryLineHasZero(m: Matrix, n: nat)
    requires Square(m, n)
  {
    && (forall i: nat :: i < n ==> RowHasZero(m, n, i))
    && (forall j: nat :: j < n ==> ColHasZero(m, n, j))
  }

  /** `m` is `input` less a row potential and a column potential. */
  ghost predicate Potentials(input: Matrix, m: Matrix, n: nat, u: seq<real>, v: seq<real>)
    requires Square(input, n) && Square(m, n)
  {
    && |u| == n && |v| == n
    && forall i, j :: 0 <= i < n && 0 <= j < n ==> m[i][j] == input[i][j] - u[i] - v[j]
  }

  ghost predicate Shifted(input: Matrix, m: Matrix, n: nat)
    requires Square(input, n) && Square(m, n)
  {
    exists u, v :: Potentials(input, m, n, u, v)
  }

  lemma ColMinsOfReducedRows(input: Matrix, n: nat, j: nat)
    requires n > 0 && Square(input, n) && j < n
    ensures ColMins(MinusRows(input, n, RowMins(input, n)), n)[j] >= 0.0
    ensures ColHasZero(Reduce(input, n), n, j)
    ensures forall i :: 0 <= i < n ==> Reduce(input, n)[i][j] >= 0.0
  {
    var u := RowMins(input, n);
    var m1 := MinusRows(input, n, u);
    var c := Column(m1, n, j);
    var i :| 0 <= i < n && c[i] == MinOf(c);
    assert input[i][j] >= u[i];
    assert Reduce(input, n)[i][j] == 0.0;
    forall i | 0 <= i < n
      ensures Reduce(input, n)[i][j] >= 0.0
    {
      assert c[i] >= MinOf(c);
    }
  }

  lemma ReducedRowHasZero(input: Matrix, n: nat, i: nat)
    requires n > 0 && Square(input, n) && i < n
    ensures RowHasZero(Reduce(input, n), n, i)
  {
    var m1 := MinusRows(input, n, RowMins(input, n));
    var j :| 0 <= j < n && input[i][j] == MinOf(input[i]);
    ColMinsOfReducedRows(input, n, j);
    assert Column(m1, n, j)[i] == 0.0;
    assert Reduce(input, n)[i][j] == 0.0;
  }

  /** Reduction subtracts potentials, leaves no negative entry and puts a zero in every line. */
  lemma ReduceKeeps(input: Matrix, n: nat)
    requires n > 0 && Square(input, n)
    ensures NonNegative(Reduce(input, n), n)
    ensures EveryLineHasZero(Reduce(input, n), n)
    ensures Shifted(input, Reduce(input, n), n)
  {
    var u := RowMins(input, n);
    var v := ColMins(MinusRows(input, n, u), n);
    assert Potentials(input, Reduce(input, n), n, u, v);
    forall j: nat | j < n
      ensures ColHasZero(Reduce(input, n), n, j)
      ensures forall i :: 0 <= i < n ==> Reduce(input, n)[i][j] >= 0.0
    {
      ColMinsOfReducedRows(input, n, j);
    }
    forall i: nat | i < n
      ensures RowHasZero(Reduce(input, n), n, i)
    {
      ReducedRowHasZero(input, n, i);
    }
  }

  // ------------------------------------------------------------ picking lines

  /** `stable_sort` of the indexes by value, largest first. */
  function SortIndexes(v: seq<nat>): (s: seq<nat>)
    ensures |s| == |v|
  {
    SortFirst(v, |v|)
  }

  function SortFirst(v: seq<nat>, k: nat): (s: seq<nat>)
    requires k <= |v|
    ensures |s| == k
    ensures forall a :: 0 <= a < k ==> s[a] < k
  {
    if k == 0 then [] else InsertIndex(v, SortFirst(v, k - 1), k - 1)
  }

  function InsertIndex(v: seq<nat>, s: seq<nat>, k: nat): (r: seq<nat>)
    requires k < |v|
    requires forall a :: 0 <= a < |s| ==> s[a] < k
    ensures |r| == |s| + 1
    ensures forall a :: 0 <= a < |r| ==> r[a] <= k
    ensures forall x :: x in r <==> x == k || x in s
  {
    if s == [] then [k]
    else if v[s[0]] >= v[k] then
      assert s == [s[0]] + s[1..];
      assert forall x :: x in s <==> x == s[0] || x in s[1..];
      [s[0]] + InsertIndex(v, s[1..], k)
    else [k] + s
  }

  /** Position `a` sorts before `b`: a larger value, or the same value at a smaller index. */
  ghost predicate Before(v: seq<nat>, a: nat, b: nat)
    requires a < |v| && b < |v|
  {
    v[a] > v[b] || (v[a] == v[b] && a < b)
  }

  ghost predicate StablySorted(v: seq<nat>, s: seq<nat>) {
    && (forall a :: 0 <= a < |s| ==> s[a] < |v|)
    && forall a, b :: 0 <= a < b < |s| ==> Before(v, s[a], s[b])
  }

  lemma InsertSorted(v: seq<nat>, s: seq<nat>, k: nat)
    requires k < |v| && StablySorted(v, s)
    requires forall a :: 0 <= a < |s| ==> s[a] < k
    ensures StablySorted(v, InsertIndex(v, s, k))
  {
    if s != [] && v[s[0]] >= v[k] {
      InsertSorted(v, s[1..], k);
      var r := InsertIndex(v, s[1..], k);
      forall b | 0 <= b < |r|
        ensures Before(v, s[0], r[b])
      {
        assert r[b] in r;
        if r[b] in s[1..] {
          var c :| 0 <= c < |s[1..]| && s[1..][c] == r[b];
          assert Before(v, s[0], s[c + 1]);
        }
      }
    } else if s != [] {
      forall b | 0 <= b < |s|
        ensures Before(v, k, s[b])
      {
        assert b == 0 || Before(v, s[0], s[b]);
      }
    }
  }

  lemma {:induction false} SortFirstSorted(v: seq<nat>, k: nat)
    requires k <= |v|
    ensures StablySorted(v, SortFirst(v, k))
    ensures forall x: nat :: x < k ==> x in SortFirst(v, k)
  {
    hide StablySorted, InsertIndex;
    if k > 0 {
      SortFirstSorted(v, k - 1);
      InsertSorted(v, SortFirst(v, k - 1), k - 1);
    } else {
      NothingSorted(v);
    }
  }

  lemma NothingSorted(v: seq<nat>)
    ensures StablySorted(v, [])
  {
  }

  /** The index list is a permutation of the indexes in stable descending order. */
  lemma SortIndexesSorts(v: seq<nat>)
    ensures |SortIndexes(v)| == |v|
    ensures StablySorted(v, SortIndexes(v))
    ensures forall x: nat :: x < |v| ==> x in SortIndexes(v)
  {
    SortFirstSorted(v, |v|);
  }

  /** The one entry the solver uses: the smallest index of a largest value. */
  lemma FirstIsLargest(v: seq<nat>)
    requires |v| > 0
    ensures var k := SortIndexes(v)[0];
            && k < |v|
            && (forall x :: 0 <= x < |v| ==> v[x] <= v[k])
            && (forall x :: 0 <= x < k ==> v[x] < v[k])
  {
    SortIndexesSorts(v);
    var s := SortIndexes(v);
    forall x | 0 <= x < |v|
      ensures v[x] <= v[s[0]]
      ensures x < s[0] ==> v[x] < v[s[0]]
    {
      assert x in s;
      var b :| 0 <= b < |s| && s[b] == x;
      assert b == 0 || Before(v, s[0], s[b]);
    }
  }

  function ZerosTo(s: seq<Cell>, k: nat): nat
    requires k <= |s|
  {
    if k == 0 then 0 else ZerosTo(s, k - 1) + (if s[k - 1] == Fin(0.0) then 1 else 0)
  }

  function ZeroCount(s: seq<Cell>): nat {
    ZerosTo(s, |s|)
  }

  lemma {:induction false} ZerosToPositive(s: seq<Cell>, k: nat)
    requires k <= |s|
    ensures ZerosTo(s, k) > 0 <==> exists i :: 0 <= i < k && s[i] == Fin(0.0)
  {
    if k > 0 {
      ZerosToPositive(s, k - 1);
    }
  }

  lemma ZeroCountPositive(s: seq<Cell>)
    ensures ZeroCount(s) > 0 <==> Fin(0.0) in s
  {
    ZerosToPositive(s, |s|);
  }

  function RowCounts(t: Grid<Cell>, n: nat): (c: seq<nat>)
    requires Square(t, n)
    ensures |c| == n && forall i :: 0 <= i < n ==> c[i] == ZeroCount(t[i])
  {
    seq(n, i requires 0 <= i < n => ZeroCount(t[i]))
  }

  function ColCounts(t: Grid<Cell>, n: nat): (c: seq<nat>)
    requires Square(t, n)
    ensures |c| == n && forall j :: 0 <= j < n ==> c[j] == ZeroCount(Column(t, n, j))
  {
    seq(n, j requires 0 <= j < n => ZeroCount(Column(t, n, j)))
  }

  predicate HasZero(t: Grid<Cell>, n: nat)
    requires Square(t, n)
  {
    exists i, j :: 0 <= i < n && 0 <= j < n && t[i][j] == Fin(0.0)
  }

  /** The fullest row if it beats the fullest column, otherwise that column. */
  function Pick(t: Grid<Cell>, n: nat): (l: Line)
    requires n > 0 && Square(t, n)
    ensures l.index < n
  {
    var rc, cc := RowCounts(t, n), ColCounts(t, n);
    FirstIsLargest(rc);
    FirstIsLargest(cc);
    var r, c := SortIndexes(rc)[0], SortIndexes(cc)[0];
    if rc[r] > cc[c] then Row(r) else Col(c)
  }

  function On(l: Line, i: nat, j: nat): bool {
    match l
    case Row(r) => i == r
    case Col(c) => j == c
  }

  /** Zeros on the line become infinite. */
  function Strike(t: Grid<Cell>, n: nat, l: Line): (t': Grid<Cell>)
    requires Square(t, n)
    ensures Square(t', n)
    ensures forall i, j :: 0 <= i < n && 0 <= j < n ==>
              t'[i][j] == if On(l, i, j) && t[i][j] == Fin(0.0) then Infinity else t[i][j]
  {
    Build(n, (i: nat, j: nat) requires i < n && j < n =>
      if On(l, i, j) && t[i][j] == Fin(0.0) then Infinity else t[i][j])
  }

  ghost predicate Live(t: Grid<Cell>, n: nat, l: Line)
    requires Square(t, n)
  {
    exists i, j :: 0 <= i < n && 0 <= j < n && On(l, i, j) && t[i][j] == Fin(0.0)
  }

  ghost function LiveLines(t: Grid<Cell>, n: nat): set<Line>
    requires Square(t, n)
  {
    (set i: nat | i < n && Live(t, n, Row(i)) :: Row(i)) +
    (set j: nat | j < n && Live(t, n, Col(j)) :: Col(j))
  }

  lemma PickIsLive(t: Grid<Cell>, n: nat)
    requires n > 0 && Square(t, n) && HasZero(t, n)
    ensures Live(t, n, Pick(t, n))
  {
    var i, j :| 0 <= i < n && 0 <= j < n && t[i][j] == Fin(0.0);
    var rc, cc := RowCounts(t, n), ColCounts(t, n);
    FirstIsLargest(rc);
    FirstIsLargest(cc);
    ZeroCountPositive(t[i]);
    assert Column(t, n, j)[i] == Fin(0.0);
    ZeroCountPositive(Column(t, n, j));
    assert rc[i] > 0 && cc[j] > 0;
    match Pick(t, n) {
      case Row(r) =>
        ZeroCountPositive(t[r]);
        assert Fin(0.0) in t[r];
        var k :| 0 <= k < n && t[r][k] == Fin(0.0);
        assert On(Row(r), r, k);
      case Col(c) =>
        var s := Column(t, n, c);
        ZeroCountPositive(s);
        assert Fin(0.0) in s;
        var k :| 0 <= k < n && s[k] == Fin(0.0);
        assert On(Col(c), k, c);
    }
  }

  lemma StrikeShrinks(t: Grid<Cell>, n: nat, l: Line)
    requires Square(t, n) && l.index < n && Live(t, n, l)
    ensures LiveLines(Strike(t, n, l), n) < LiveLines(t, n)
  {
    var t' := Strike(t, n, l);
    assert l in LiveLines(t, n) && l !in LiveLines(t', n);
    forall k | k in LiveLines(t', n)
      ensures k in LiveLines(t, n)
    {
      var i, j :| 0 <= i < n && 0 <= j < n && On(k, i, j) && t'[i][j] == Fin(0.0);
      assert t[i][j] == Fin(0.0);
    }
  }

  /** The lines one round strikes, in order: pick, strike, repeat while a zero is left. */
  function Cover(t: Grid<Cell>, n: nat): (lines: seq<Line>)
    requires n > 0 && Square(t, n)
    ensures |lines| > 0
    decreases LiveLines(t, n)
  {
    var l := Pick(t, n);
    var t' := Strike(t, n, l);
    if HasZero(t', n) then
      assert HasZero(t, n);
      PickIsLive(t, n);
      StrikeShrinks(t, n, l);
      [l] + Cover(t', n)
    else [l]
  }

  // ----------------------------------------------------------- what was struck

  /** The lines are distinct and within the matrix. */
  ghost predicate Proper(lines: seq<Line>, n: nat) {
    && (forall k :: 0 <= k < |lines| ==> lines[k].index < n)
    && forall k, l :: 0 <= k < l < |lines| ==> lines[k] != lines[l]
  }

  function Crossings(lines: seq<Line>, i: nat, j: nat): (c: nat) {
    (if Row(i) in lines then 1 else 0) + (if Col(j) in lines then 1 else 0)
  }

  ghost predicate CoversZeros(t: Grid<Cell>, n: nat, lines: seq<Line>)
    requires Square(t, n)
  {
    forall i, j :: 0 <= i < n && 0 <= j < n && t[i][j] == Fin(0.0) ==> Crossings(lines, i, j) > 0
  }

  lemma StrikeOnlyRemoves(t: Grid<Cell>, n: nat, l: Line)
    requires Square(t, n)
    ensures HasZero(Strike(t, n, l), n) ==> HasZero(t, n)
    ensures !Live(Strike(t, n, l), n, l)
    ensures forall k :: Live(Strike(t, n, l), n, k) ==> Live(t, n, k)
  {
    var t' := Strike(t, n, l);
    forall i, j | 0 <= i < n && 0 <= j < n && t'[i][j] == Fin(0.0)
      ensures t[i][j] == Fin(0.0) && !On(l, i, j)
    {
    }
    forall k | Live(t', n, k)
      ensures Live(t, n, k)
    {
      var i, j :| 0 <= i < n && 0 <= j < n && On(k, i, j) && t'[i][j] == Fin(0.0);
      assert t[i][j] == Fin(0.0);
    }
  }

  lemma {:induction false} CoverStaysLive(t: Grid<Cell>, n: nat)
    requires n > 0 && Square(t, n) && HasZero(t, n)
    ensures forall l :: l in Cover(t, n) ==> Live(t, n, l)
    decreases LiveLines(t, n)
  {
    hide Pick, Strike, Build;
    var l := Pick(t, n);
    var t' := Strike(t, n, l);
    PickIsLive(t, n);
    StrikeOnlyRemoves(t, n, l);
    if HasZero(t', n) {
      StrikeShrinks(t, n, l);
      CoverStaysLive(t', n);
      assert Cover(t, n) == [l] + Cover(t', n);
    }
  }

  lemma ProperCons(l: Line, rest: seq<Line>, n: nat)
    requires Proper(rest, n) && l.index < n && l !in rest
    ensures Proper([l] + rest, n)
  {
    forall k, j | 0 <= k < j < |[l] + rest|
      ensures ([l] + rest)[k] != ([l] + rest)[j]
    {
      assert ([l] + rest)[j] == rest[j - 1];
    }
  }

  /** No line is struck twice, and when the covering loop ends every zero lies on a struck line. */
  lemma {:induction false} CoverIsProper(t: Grid<Cell>, n: nat)
    requires n > 0 && Square(t, n)
    ensures Proper(Cover(t, n), n)
    ensures CoversZeros(t, n, Cover(t, n))
    decreases LiveLines(t, n)
  {
    var l := Pick(t, n);
    var t' := Strike(t, n, l);
    StrikeOnlyRemoves(t, n, l);
    if HasZero(t', n) {
      PickIsLive(t, n);
      StrikeShrinks(t, n, l);
      CoverStaysLive(t', n);
      CoverIsProper(t', n);
      var rest := Cover(t', n);
      assert Cover(t, n) == [l] + rest;
      ProperCons(l, rest, n);
      CoversZerosCons(t, n, l, rest);
    } else {
      assert Cover(t, n) == [l] + [];
      CoversZerosCons(t, n, l, []);
    }
  }

  lemma CoversZerosCons(t: Grid<Cell>, n: nat, l: Line, rest: seq<Line>)
    requires Square(t, n) && CoversZeros(Strike(t, n, l), n, rest)
    ensures CoversZeros(t, n, [l] + rest)
  {
    forall i: nat, j: nat | i < n && j < n && t[i][j] == Fin(0.0)
      ensures Crossings([l] + rest, i, j) > 0
    {
      if !On(l, i, j) {
        assert Strike(t, n, l)[i][j] == Fin(0.0);
        assert Crossings(rest, i, j) > 0;
        assert Row(i) in rest ==> Row(i) in [l] + rest;
        assert Col(j) in rest ==> Col(j) in [l] + rest;
      } else {
        assert l in [l] + rest;
      }
    }
  }

  function RowsBelow(lines: seq<Line>, k: nat): nat {
    if k == 0 then 0 else RowsBelow(lines, k - 1) + (if Row(k - 1) in lines then 1 else 0)
  }

  function ColsBelow(lines: seq<Line>, k: nat): nat {
    if k == 0 then 0 else ColsBelow(lines, k - 1) + (if Col(k - 1) in lines then 1 else 0)
  }

  lemma {:induction false} CountsCons(l: Line, rest: seq<Line>, k: nat)
    requires l !in rest
    ensures RowsBelow([l] + rest, k) == RowsBelow(rest, k) + (if l.Row? && l.index < k then 1 else 0)
    ensures ColsBelow([l] + rest, k) == ColsBelow(rest, k) + (if l.Col? && l.index < k then 1 else 0)
  {
    if k > 0 {
      CountsCons(l, rest, k - 1);
      assert forall x :: x in [l] + rest <==> x == l || x in rest;
    }
  }

  lemma {:induction false} CountsOfNone(k: nat)
    ensures RowsBelow([], k) == 0 && ColsBelow([], k) == 0
  {
    if k > 0 {
      CountsOfNone(k - 1);
    }
  }

  lemma {:induction false} CountsAddUp(lines: seq<Line>, n: nat)
    requires Proper(lines, n)
    ensures RowsBelow(lines, n) + ColsBelow(lines, n) == |lines|
  {
    if lines == [] {
      CountsOfNone(n);
    } else {
      assert lines == [lines[0]] + lines[1..];
      CountsCons(lines[0], lines[1..], n);
      CountsAddUp(lines[1..], n);
    }
  }

  lemma {:induction false} FreeLines(lines: seq<Line>, k: nat)
    ensures RowsBelow(lines, k) < k ==> exists i: nat :: i < k && Row(i) !in lines
    ensures ColsBelow(lines, k) < k ==> exists j: nat :: j < k && Col(j) !in lines
    ensures RowsBelow(lines, k) > 0 ==> exists i: nat :: i < k && Row(i) in lines
    ensures ColsBelow(lines, k) > 0 ==> exists j: nat :: j < k && Col(j) in lines
  {
    if k > 0 {
      FreeLines(lines, k - 1);
      if RowsBelow(lines, k) < k && Row(k - 1) in lines {
        var i: nat :| i < k - 1 && Row(i) !in lines;
      }
      if ColsBelow(lines, k) < k && Col(k - 1) in lines {
        var j: nat :| j < k - 1 && Col(j) !in lines;
      }
    }
  }

  /** Fewer than n distinct lines leave some cell uncovered. */
  lemma UncoveredCell(lines: seq<Line>, n: nat)
    requires Proper(lines, n) && |lines| < n
    ensures exists i: nat, j: nat :: i < n && j < n && Crossings(lines, i, j) == 0
  {
    CountsAddUp(lines, n);
    FreeLines(lines, n);
    var i: nat :| i < n && Row(i) !in lines;
    var j: nat :| j < n && Col(j) !in lines;
    assert Crossings(lines, i, j) == 0;
  }

  // --------------------------------------------------------------- one round

  function Cells(m: Matrix, n: nat): (t: Grid<Cell>)
    requires Square(m, n)
    ensures Square(t, n)
    ensures forall i, j :: 0 <= i < n && 0 <= j < n ==> t[i][j] == Fin(m[i][j])
  {
    Build(n, (i: nat, j: nat) requires i < n && j < n => Fin(m[i][j]))
  }

  predicate AtMost(a: Cell, b: Cell) {
    b.Infinity? || (a.Fin? && a.value <= b.value)
  }

  function LeastOf(s: seq<Cell>): (c: Cell)
    requires |s| > 0
    ensures c in s
    ensures forall k :: 0 <= k < |s| ==> AtMost(c, s[k])
  {
    if |s| == 1 then s[0]
    else
      var c := LeastOf(s[1..]);
      assert forall k :: 1 <= k < |s| ==> s[k] == s[1..][k - 1];
      if AtMost(s[0], c) then s[0] else c
  }

  /** `minCoeff` of a matrix with infinite entries. */
  function Least(t: Grid<Cell>, n: nat): (c: Cell)
    requires n > 0 && Square(t, n)
    ensures exists i, j :: 0 <= i < n && 0 <= j < n && t[i][j] == c
    ensures forall i, j :: 0 <= i < n && 0 <= j < n ==> AtMost(c, t[i][j])
  {
    var rows := seq(n, i requires 0 <= i < n => LeastOf(t[i]));
    var c := LeastOf(rows);
    assert exists i, j :: 0 <= i < n && 0 <= j < n && t[i][j] == c by {
      var i :| 0 <= i < n && rows[i] == c;
      var j :| 0 <= j < n && t[i][j] == rows[i];
    }
    assert forall i :: 0 <= i < n ==> AtMost(c, rows[i]) && rows[i] == LeastOf(t[i]);
    c
  }

  /** The entries off the struck lines; everything on them is infinite. */
  function OffLines(m: Matrix, n: nat, lines: seq<Line>): (t: Grid<Cell>)
    requires Square(m, n)
    ensures Square(t, n)
    ensures forall i, j :: 0 <= i < n && 0 <= j < n ==>
              t[i][j] == if Crossings(lines, i, j) == 0 then Fin(m[i][j]) else Infinity
  {
    Build(n, (i: nat, j: nat) requires i < n && j < n =>
      if Crossings(lines, i, j) == 0 then Fin(m[i][j]) else Infinity)
  }

  function LeastUncovered(m: Matrix, n: nat, lines: seq<Line>): (x: real)
    requires n > 0 && Square(m, n) && Proper(lines, n) && |lines| < n
    ensures Least(OffLines(m, n, lines), n) == Fin(x)
    ensures exists i, j :: 0 <= i < n && 0 <= j < n && Crossings(lines, i, j) == 0 && m[i][j] == x
    ensures forall i, j :: 0 <= i < n && 0 <= j < n && Crossings(lines, i, j) == 0 ==> x <= m[i][j]
  {
    var t := OffLines(m, n, lines);
    UncoveredCell(lines, n);
    assert forall i, j :: 0 <= i < n && 0 <= j < n ==> AtMost(Least(t, n), t[i][j]);
    Least(t, n).value
  }

  predicate BothAxes(lines: seq<Line>) {
    (exists k :: 0 <= k < |lines| && lines[k].Row?) && (exists k :: 0 <= k < |lines| && lines[k].Col?)
  }

  /** Largest number of struck lines through one cell. */
  function MostCrossings(lines: seq<Line>): nat {
    if BothAxes(lines) then 2 else 1
  }

  function Adjust(m: Matrix, n: nat, lines: seq<Line>, x: real): (r: Matrix)
    requires Square(m, n)
    ensures Square(r, n)
    ensures forall i, j :: 0 <= i < n && 0 <= j < n ==>
              r[i][j] == m[i][j] - (if Crossings(lines, i, j) == 0 then x else 0.0)
                         + (if Crossings(lines, i, j) == MostCrossings(lines) then x else 0.0)
  {
    Build(n, (i: nat, j: nat) requires i < n && j < n =>
      m[i][j] - (if Crossings(lines, i, j) == 0 then x else 0.0)
      + (if Crossings(lines, i, j) == MostCrossings(lines) then x else 0.0))
  }

  /** One pass of the outer loop: None when it breaks out with at least n lines. */
  function Round(m: Matrix, n: nat): (r: Option<Matrix>)
    requires n > 0 && Square(m, n)
    ensures r.Some? ==> Square(r.value, n)
  {
    var lines := Cover(Cells(m, n), n);
    CoverIsProper(Cells(m, n), n);
    if |lines| >= n then None else Some(Adjust(m, n, lines, LeastUncovered(m, n, lines)))
  }

  lemma MinimumIsPositive(m: Matrix, n: nat)
    requires n > 0 && Square(m, n) && NonNegative(m, n)
    requires |Cover(Cells(m, n), n)| < n
    ensures Proper(Cover(Cells(m, n), n), n)
    ensures LeastUncovered(m, n, Cover(Cells(m, n), n)) > 0.0
  {
    hide Cover, Cells, LeastUncovered, Build;
    var lines := Cover(Cells(m, n), n);
    CoverIsProper(Cells(m, n), n);
    var x := LeastUncovered(m, n, lines);
    var i, j :| 0 <= i < n && 0 <= j < n && Crossings(lines, i, j) == 0 && m[i][j] == x;
    assert Cells(m, n)[i][j] == Fin(m[i][j]);
  }

  function RowShift(lines: seq<Line>, x: real, i: nat): real {
    if BothAxes(lines) then (if Row(i) in lines then 0.0 else x)
    else if exists k :: 0 <= k < |lines| && lines[k].Row? then (if Row(i) in lines then -x else x)
    else 0.0
  }

  function ColShift(lines: seq<Line>, x: real, j: nat): real {
    if BothAxes(lines) then (if Col(j) in lines then -x else 0.0)
    else if exists k :: 0 <= k < |lines| && lines[k].Row? then 0.0
    else (if Col(j) in lines then -x else x)
  }

  lemma AdjustIsShift(m: Matrix, n: nat, lines: seq<Line>, x: real, i: nat, j: nat)
    requires Square(m, n) && i < n && j < n && lines != []
    ensures Adjust(m, n, lines, x)[i][j] == m[i][j] - RowShift(lines, x, i) - ColShift(lines, x, j)
  {
    if BothAxes(lines) {
    } else if exists k :: 0 <= k < |lines| && lines[k].Row? {
      assert Col(j) !in lines;
    } else {
      assert lines[0].Col?;
      assert Row(i) !in lines;
    }
  }

  /** Each round shifts the matrix by a strictly positive, finite minimum: it stays free of
      negative entries, keeps a zero, and differs by a row plus a column potential. */
  lemma RoundKeeps(m: Matrix, n: nat)
    requires n > 0 && Square(m, n) && NonNegative(m, n)
    requires Round(m, n).Some?
    ensures NonNegative(Round(m, n).value, n)
    ensures exists i: nat :: i < n && RowHasZero(Round(m, n).value, n, i)
    ensures Shifted(m, Round(m, n).value, n)
  {
    hide Cover, Cells, LeastUncovered, Build, Adjust, RowShift, ColShift, Crossings;
    var lines := Cover(Cells(m, n), n);
    MinimumIsPositive(m, n);
    var x := LeastUncovered(m, n, lines);
    var r := Round(m, n).value;
    var i: nat, j: nat :| i < n && j < n && Crossings(lines, i, j) == 0 && m[i][j] == x;
    assert r[i][j] == 0.0;
    assert RowHasZero(r, n, i);
    var u := seq(n, i requires 0 <= i < n => RowShift(lines, x, i));
    var v := seq(n, j requires 0 <= j < n => ColShift(lines, x, j));
    forall i, j | 0 <= i < n && 0 <= j < n
      ensures r[i][j] == m[i][j] - u[i] - v[j]
    {
      AdjustIsShift(m, n, lines, x, i, j);
    }
    assert Potentials(m, r, n, u, v);
  }

  lemma ShiftsCompose(a: Matrix, b: Matrix, c: Matrix, n: nat)
    requires Square(a, n) && Square(b, n) && Square(c, n)
    requires Shifted(a, b, n) && Shifted(b, c, n)
    ensures Shifted(a, c, n)
  {
    var u, v :| Potentials(a, b, n, u, v);
    var u', v' :| Potentials(b, c, n, u', v');
    var u2 := seq(n, i requires 0 <= i < n => u[i] + u'[i]);
    var v2 := seq(n, j requires 0 <= j < n => v[j] + v'[j]);
    assert Potentials(a, c, n, u2, v2);
  }

  // -------------------------------------------------------- total of a matrix

  function RowTotal(m: Matrix, n: nat, i: nat, k: nat): real
    requires Square(m, n) && i < n && k <= n
  {
    if k == 0 then 0.0 else RowTotal(m, n, i, k - 1) + m[i][k - 1]
  }

  function TotalOfRows(m: Matrix, n: nat, k: nat): real
    requires Square(m, n) && k <= n
  {
    if k == 0 then 0.0 else TotalOfRows(m, n, k - 1) + RowTotal(m, n, k - 1, n)
  }

  function Total(m: Matrix, n: nat): real
    requires Square(m, n)
  {
    TotalOfRows(m, n, n)
  }

  function Scaled(x: real, k: int): real {
    x * k as real
  }

  lemma ScaledSum(x: real, d: int, g: int)
    ensures Scaled(x, d + g) == Scaled(x, d) + Scaled(x, g)
    ensures Scaled(x, 0) == 0.0 && Scaled(x, 1) == x && Scaled(x, -1) == -x
  {
  }

  lemma {:induction false} RowTotalAdjusted(m: Matrix, n: nat, lines: seq<Line>, x: real, i: nat, k: nat)
    requires Square(m, n) && i < n && k <= n && BothAxes(lines)
    ensures RowTotal(Adjust(m, n, lines, x), n, i, k)
         == RowTotal(m, n, i, k) + Scaled(x, ColsBelow(lines, k) - (if Row(i) in lines then 0 else k))
  {
    hide Adjust, Build, Scaled;
    if k == 0 {
      ScaledSum(x, 0, 0);
    } else {
      RowTotalAdjusted(m, n, lines, x, i, k - 1);
      var d := ColsBelow(lines, k - 1) - (if Row(i) in lines then 0 else k - 1);
      ScaledSum(x, d, Crossings(lines, i, k - 1) - 1);
    }
  }

  /** How many crossings, less one each, the first k rows hold. */
  function Excess(lines: seq<Line>, n: nat, k: nat): int {
    k * ColsBelow(lines, n) - n * (k - RowsBelow(lines, k))
  }

  lemma ExcessStep(lines: seq<Line>, n: nat, k: nat)
    ensures Excess(lines, n, 0) == 0
    ensures Excess(lines, n, k + 1)
         == Excess(lines, n, k) + (ColsBelow(lines, n) - (if Row(k) in lines then 0 else n))
  {
    var c, r := ColsBelow(lines, n), RowsBelow(lines, k);
    assert (k + 1) * c == k * c + c;
    if Row(k) in lines {
      assert k + 1 - RowsBelow(lines, k + 1) == k - r;
    } else {
      assert n * (k + 1 - r) == n * (k - r) + n;
    }
  }

  lemma {:induction false} TotalAdjusted(m: Matrix, n: nat, lines: seq<Line>, x: real, k: nat)
    requires Square(m, n) && k <= n && BothAxes(lines)
    ensures TotalOfRows(Adjust(m, n, lines, x), n, k)
         == TotalOfRows(m, n, k) + Scaled(x, Excess(lines, n, k))
  {
    hide Adjust, Build, Excess, ColsBelow, RowsBelow, BothAxes, Scaled;
    if k == 0 {
      ExcessStep(lines, n, 0);
      ScaledSum(x, 0, 0);
    } else {
      TotalAdjusted(m, n, lines, x, k - 1);
      RowTotalAdjusted(m, n, lines, x, k - 1, n);
      var g := ColsBelow(lines, n) - (if Row(k - 1) in lines then 0 else n);
      ExcessStep(lines, n, k - 1);
      ScaledSum(x, Excess(lines, n, k - 1), g);
    }
  }

  lemma FinalExcess(lines: seq<Line>, n: nat)
    requires RowsBelow(lines, n) + ColsBelow(lines, n) == |lines|
    ensures Excess(lines, n, n) == -(n * (n - |lines|))
  {
    var c, r := ColsBelow(lines, n), RowsBelow(lines, n);
    assert n * (n - (r + c)) == n * (n - r) - n * c;
  }

  /** While every row and every column still holds a zero, fewer than n lines cannot all be rows
      or all be columns. */
  lemma FullLinesStrikeBothAxes(m: Matrix, n: nat)
    requires n > 0 && Square(m, n) && EveryLineHasZero(m, n)
    requires |Cover(Cells(m, n), n)| < n
    ensures BothAxes(Cover(Cells(m, n), n))
  {
    hide Cover, Cells, Build;
    var t := Cells(m, n);
    var lines := Cover(t, n);
    CoverIsProper(t, n);
    UncoveredCell(lines, n);
    var i: nat, j: nat :| i < n && j < n && Crossings(lines, i, j) == 0;
    assert RowHasZero(m, n, i) && ColHasZero(m, n, j);
    var c :| 0 <= c < n && m[i][c] == 0.0;
    var r :| 0 <= r < n && m[r][j] == 0.0;
    assert t[i][c] == Fin(0.0) && t[r][j] == Fin(0.0);
    assert Crossings(lines, i, c) > 0 && Crossings(lines, r, j) > 0;
    assert Col(c) in lines && Row(r) in lines;
  }

  /** When rows and columns were both struck, the matrix total drops by exactly
      minimum * n * (n - lines). */
  lemma RoundDropsTotal(m: Matrix, n: nat)
    requires n > 0 && Square(m, n) && Round(m, n).Some?
    requires BothAxes(Cover(Cells(m, n), n))
    ensures var lines := Cover(Cells(m, n), n);
            && Proper(lines, n) && |lines| < n
            && Total(Round(m, n).value, n)
               == Total(m, n) - Scaled(LeastUncovered(m, n, lines), n * (n - |lines|))
  {
    hide Cover, Cells, LeastUncovered, Build, Adjust, TotalOfRows, Crossings, BothAxes, Scaled, Excess;
    var lines := Cover(Cells(m, n), n);
    CoverIsProper(Cells(m, n), n);
    CountsAddUp(lines, n);
    var x := LeastUncovered(m, n, lines);
    TotalAdjusted(m, n, lines, x, n);
    FinalExcess(lines, n);
    var d := n * (n - |lines|);
    ScaledSum(x, d, -d);
    ScaledSum(x, 0, 0);
  }

  // ---------------------------------------------------- extracting a matching

  /** `p` sends row `row + k` to column `p[k]`, on zeros, in distinct columns outside `used`. */
  ghost predicate Completes(m: Matrix, n: nat, row: nat, used: set<nat>, p: seq<nat>)
    requires Square(m, n) && row <= n
  {
    && |p| == n - row
    && (forall k :: 0 <= k < |p| ==> p[k] < n && p[k] !in used && m[row + k][p[k]] == 0.0)
    && forall k, l :: 0 <= k < l < |p| ==> p[k] != p[l]
  }

  function Pairs(p: seq<nat>, row: nat): (s: seq<(nat, nat)>)
    ensures |s| == |p| && forall k :: 0 <= k < |p| ==> s[k] == (row + k, p[k])
  {
    seq(|p|, k requires 0 <= k < |p| => (row + k, p[k]))
  }

  lemma CompletesTail(m: Matrix, n: nat, row: nat, used: set<nat>, p: seq<nat>)
    requires Square(m, n) && row < n && Completes(m, n, row, used, p)
    ensures Completes(m, n, row + 1, used + {p[0]}, p[1..])
  {
    forall k | 0 <= k < |p[1..]|
      ensures p[1..][k] !in used + {p[0]}
    {
      assert p[1..][k] == p[k + 1] != p[0];
    }
  }

  lemma CompletesCons(m: Matrix, n: nat, row: nat, used: set<nat>, col: nat, p: seq<nat>)
    requires Square(m, n) && row < n && col < n && col !in used && m[row][col] == 0.0
    requires Completes(m, n, row + 1, used + {col}, p)
    ensures Completes(m, n, row, used, [col] + p)
  {
  }

  lemma CompletesAtEnd(m: Matrix, n: nat, used: set<nat>)
    requires Square(m, n)
    ensures Completes(m, n, n, used, [])
  {
  }

  lemma CompletesRange(m: Matrix, n: nat, row: nat, used: set<nat>)
    requires Square(m, n) && row < n
    ensures forall p :: Completes(m, n, row, used, p) ==> |p| > 0 && 0 <= p[0] < n
  {
  }

  lemma NoneStartsAt(m: Matrix, n: nat, row: nat, used: set<nat>, col: nat, next: nat, more: set<nat>)
    requires Square(m, n) && row < n && col < n && next == row + 1 && more == used + {col}
    requires col in used || m[row][col] != 0.0 || !exists p :: Completes(m, n, next, more, p)
    ensures forall p :: Completes(m, n, row, used, p) ==> |p| > 0 && p[0] != col
  {
    forall p | Completes(m, n, row, used, p)
      ensures p[0] != col
    {
      assert m[row + 0][p[0]] == 0.0;
      CompletesTail(m, n, row, used, p);
    }
  }

  lemma PushFront(m: Matrix, n: nat, row: nat, used: set<nat>, col: nat, next: nat, more: set<nat>,
                  rest: seq<(nat, nat)>, result: seq<(nat, nat)>)
    requires Square(m, n) && row < n && col < n && col !in used && m[row][col] == 0.0
    requires next == row + 1 && more == used + {col}
    requires exists p :: Completes(m, n, next, more, p) && rest == Pairs(p, next) + result
    ensures exists p :: Completes(m, n, row, used, p) && [(row, col)] + rest == Pairs(p, row) + result
  {
    hide Completes;
    var p :| Completes(m, n, next, more, p) && rest == Pairs(p, next) + result;
    CompletesCons(m, n, row, used, col, p);
    assert [(row, col)] + rest == Pairs([col] + p, row) + result;
  }

  /** The backtracking search: succeeds exactly when the zeros of the remaining rows admit an
      assignment to distinct unused columns, and then pushes that assignment in row order. */
  method FindNew(m: Matrix, n: nat, row: nat, used: set<nat>, result: seq<(nat, nat)>)
    returns (found: bool, out: seq<(nat, nat)>)
    requires Square(m, n) && row <= n && |used| == row && forall c :: c in used ==> c < n
    ensures found ==> exists p :: Completes(m, n, row, used, p) && out == Pairs(p, row) + result
    ensures !found ==> out == result && !exists p :: Completes(m, n, row, used, p)
    decreases n - row
  {
    hide Completes;
    if row == n && |used| == n {
      CompletesAtEnd(m, n, used);
      assert Pairs([], row) + result == result;
      return true, result;
    }
    CompletesRange(m, n, row, used);
    var usedCols := used;
    var col := 0;
    while col < n
      invariant col <= n && usedCols == used
      invariant forall p :: Completes(m, n, row, used, p) ==> |p| > 0 && p[0] >= col
    {
      if col !in usedCols && m[row][col] == 0.0 {
        usedCols := usedCols + {col};
        var ok, rest := FindNew(m, n, row + 1, usedCols, result);
        if ok {
          PushFront(m, n, row, used, col, row + 1, usedCols, rest, result);
          return true, [(row, col)] + rest;
        }
        usedCols := usedCols - {col};
      }
      NoneStartsAt(m, n, row, used, col, row + 1, used + {col});
      col := col + 1;
    }
    return false, result;
  }

  // -------------------------------------------------------------- weak duality

  /** One distinct column for every row. */
  ghost predicate Permutation(p: seq<nat>, n: nat) {
    && |p| == n
    && (forall k :: 0 <= k < n ==> p[k] < n)
    && forall k, l :: 0 <= k < l < n ==> p[k] != p[l]
  }

  function Cost(m: Matrix, n: nat, p: seq<nat>, k: nat): real
    requires Square(m, n) && |p| == n && k <= n
    requires forall i :: 0 <= i < n ==> p[i] < n
  {
    if k == 0 then 0.0 else Cost(m, n, p, k - 1) + m[k - 1][p[k - 1]]
  }

  function At(v: seq<real>, x: nat): real {
    if x < |v| then v[x] else 0.0
  }

  function SumAt(v: seq<real>, p: seq<nat>): real {
    if p == [] then 0.0 else SumAt(v, p[..|p| - 1]) + At(v, p[|p| - 1])
  }

  function SumTo(u: seq<real>, k: nat): real
    requires k <= |u|
  {
    if k == 0 then 0.0 else SumTo(u, k - 1) + u[k - 1]
  }

  lemma {:induction false} SumAtRemove(v: seq<real>, p: seq<nat>, k: nat)
    requires k < |p|
    ensures SumAt(v, p) == SumAt(v, p[..k] + p[k + 1..]) + At(v, p[k])
  {
    var last := |p| - 1;
    if k == last {
      assert p[..k] + p[k + 1..] == p[..last];
    } else {
      SumAtRemove(v, p[..last], k);
      assert p[..last][..k] == p[..k];
      var q := p[..k] + p[k + 1..];
      assert q[..|q| - 1] == p[..last][..k] + p[..last][k + 1..];
      assert q[|q| - 1] == p[last];
    }
  }

  ghost predicate Distinct(p: seq<nat>) {
    forall k, l :: 0 <= k < l < |p| ==> p[k] != p[l]
  }

  lemma RemoveFromDistinct(q: seq<nat>, k: nat)
    requires k < |q| && Distinct(q)
    ensures Distinct(q[..k] + q[k + 1..])
    ensures forall y: nat :: y in q[..k] + q[k + 1..] <==> y in q && y != q[k]
  {
    var q' := q[..k] + q[k + 1..];
    forall y: nat
      ensures y in q' <==> y in q && y != q[k]
    {
      if y in q' {
        var j :| 0 <= j < |q'| && q'[j] == y;
        assert y == q[if j < k then j else j + 1];
      }
      if y in q && y != q[k] {
        var j :| 0 <= j < |q| && q[j] == y;
        assert q'[if j < k then j else j - 1] == y;
      }
    }
  }

  lemma LastRemoved(p: seq<nat>)
    requires |p| > 0 && Distinct(p)
    ensures Distinct(p[..|p| - 1])
    ensures forall y: nat :: y in p[..|p| - 1] <==> y in p && y != p[|p| - 1]
  {
    var last := |p| - 1;
    RemoveFromDistinct(p, last);
    assert p[..last] + p[last + 1..] == p[..last];
  }

  /** A column potential contributes the same to every permutation. */
  lemma {:induction false} SumAtSameElements(v: seq<real>, p: seq<nat>, q: seq<nat>)
    requires Distinct(p) && Distinct(q) && |p| == |q|
    requires forall x: nat :: x in p <==> x in q
    ensures SumAt(v, p) == SumAt(v, q)
  {
    hide Distinct;
    if p != [] {
      var x := p[|p| - 1];
      assert x in q;
      var k :| 0 <= k < |q| && q[k] == x;
      SumAtRemove(v, q, k);
      RemoveFromDistinct(q, k);
      LastRemoved(p);
      var p', q' := p[..|p| - 1], q[..k] + q[k + 1..];
      forall y: nat
        ensures y in p' <==> y in q'
      {
        assert y in p' <==> y in p && y != x;
        assert y in q' <==> y in q && y != x;
      }
      SumAtSameElements(v, p', q');
    }
  }

  ghost function Below(n: nat): (s: set<nat>)
    ensures |s| == n && forall x: nat :: x in s <==> x < n
  {
    if n == 0 then {} else Below(n - 1) + {n - 1}
  }

  ghost function Elements(p: seq<nat>): (s: set<nat>)
    ensures forall x :: x in s <==> x in p
  {
    set x | x in p
  }

  lemma {:induction false} ElementsOfDistinct(p: seq<nat>)
    requires Distinct(p)
    ensures |Elements(p)| == |p|
  {
    if p != [] {
      var last := |p| - 1;
      ElementsOfDistinct(p[..last]);
      assert p == p[..last] + [p[last]];
      assert Elements(p) == Elements(p[..last]) + {p[last]};
    }
  }

  /** A permutation reaches every column. */
  lemma InRange(p: seq<nat>, n: nat)
    requires Permutation(p, n)
    ensures forall x: nat :: x < n ==> x in p
  {
    ElementsOfDistinct(p);
    var a, b := Elements(p), Below(n);
    assert a <= b;
    assert b == a + (b - a);
    assert |b| == |a| + |b - a|;
    assert b - a == {};
  }

  lemma {:induction false} CostSplits(input: Matrix, m: Matrix, n: nat, u: seq<real>, v: seq<real>, p: seq<nat>, k: nat)
    requires Square(input, n) && Square(m, n) && Potentials(input, m, n, u, v)
    requires |p| == n && k <= n && (forall i :: 0 <= i < n ==> p[i] < n)
    ensures Cost(input, n, p, k) == Cost(m, n, p, k) + SumTo(u, k) + SumAt(v, p[..k])
  {
    if k > 0 {
      CostSplits(input, m, n, u, v, p, k - 1);
      assert p[..k][..k - 1] == p[..k - 1];
    }
  }

  lemma {:induction false} CostSign(m: Matrix, n: nat, p: seq<nat>, k: nat)
    requires Square(m, n) && NonNegative(m, n)
    requires |p| == n && k <= n && forall i :: 0 <= i < n ==> p[i] < n
    ensures Cost(m, n, p, k) >= 0.0
    ensures (forall i :: 0 <= i < k ==> m[i][p[i]] == 0.0) ==> Cost(m, n, p, k) == 0.0
  {
    if k > 0 {
      CostSign(m, n, p, k - 1);
    }
  }

  /** Weak duality: a zero assignment of a shifted matrix is a cheapest permutation of the input. */
  lemma ZeroAssignmentIsCheapest(input: Matrix, m: Matrix, n: nat, p: seq<nat>, q: seq<nat>)
    requires Square(input, n) && Square(m, n) && NonNegative(m, n) && Shifted(input, m, n)
    requires Permutation(p, n) && (forall i :: 0 <= i < n ==> m[i][p[i]] == 0.0)
    requires Permutation(q, n)
    ensures Cost(input, n, p, n) <= Cost(input, n, q, n)
  {
    var u, v :| Potentials(input, m, n, u, v);
    CostSplits(input, m, n, u, v, p, n);
    CostSplits(input, m, n, u, v, q, n);
    CostSign(m, n, p, n);
    CostSign(m, n, q, n);
    InRange(p, n);
    InRange(q, n);
    assert p[..n] == p && q[..n] == q;
    SumAtSameElements(v, p, q);
  }

  // ------------------------------------------------------------- whole solver

  /** The outer loop after k passes: stopped on a matrix, or still running. */
  datatype Progress = Stopped(matrix: Matrix) | Running(matrix: Matrix)

  function Passes(m: Matrix, n: nat, k: nat): (r: Progress)
    requires n > 0 && Square(m, n)
    ensures Square(r.matrix, n)
    decreases k
  {
    hide Round;
    if k == 0 then Running(m)
    else
      match Round(m, n)
      case None => Stopped(m)
      case Some(m') => Passes(m', n, k - 1)
  }

  lemma {:induction false} PassesKeep(input: Matrix, m: Matrix, n: nat, k: nat)
    requires n > 0 && Square(input, n) && Square(m, n) && NonNegative(m, n) && Shifted(input, m, n)
    ensures NonNegative(Passes(m, n, k).matrix, n)
    ensures Shifted(input, Passes(m, n, k).matrix, n)
    decreases k
  {
    hide Round;
    if k > 0 && Round(m, n).Some? {
      var m' := Round(m, n).value;
      RoundKeeps(m, n);
      ShiftsCompose(input, m, m', n);
      PassesKeep(input, m', n, k - 1);
    }
  }

  /** A cheapest permutation of the input, as (row, column) pairs in row order. */
  ghost predicate CheapestPairs(input: Matrix, n: nat, pairs: seq<(nat, nat)>)
    requires Square(input, n)
  {
    exists p ::
      && Permutation(p, n)
      && pairs == Pairs(p, 0)
      && forall q :: Permutation(q, n) ==> Cost(input, n, p, n) <= Cost(input, n, q, n)
  }

  lemma CompletedIsCheapest(input: Matrix, m: Matrix, n: nat, p: seq<nat>)
    requires Square(input, n) && Square(m, n) && NonNegative(m, n) && Shifted(input, m, n)
    requires Completes(m, n, 0, {}, p)
    ensures |p| == n && CheapestPairs(input, n, Pairs(p, 0))
  {
    assert Permutation(p, n);
    assert forall i :: 0 <= i < n ==> m[0 + i][p[i]] == 0.0;
    forall q | Permutation(q, n)
      ensures Cost(input, n, p, n) <= Cost(input, n, q, n)
    {
      ZeroAssignmentIsCheapest(input, m, n, p, q);
    }
  }

  // ------------------------------------------------------------ the procedure

  lemma CrossingsSnoc(lines: seq<Line>, l: Line, i: nat, j: nat)
    requires l !in lines
    ensures Crossings(lines + [l], i, j) == Crossings(lines, i, j) + (if On(l, i, j) then 1 else 0)
  {
    assert forall k :: k in lines + [l] <==> k in lines || k == l;
  }

  /** The original values on the struck lines, zero elsewhere. */
  ghost predicate IsLineGrid(g: Matrix, m: Matrix, n: nat, lines: seq<Line>)
    requires Square(m, n)
  {
    && Square(g, n)
    && forall i, j :: 0 <= i < n && 0 <= j < n ==>
         g[i][j] == if Crossings(lines, i, j) > 0 then m[i][j] else 0.0
  }

  ghost predicate IsCrossGrid(g: Grid<nat>, n: nat, lines: seq<Line>) {
    Square(g, n) && forall i, j :: 0 <= i < n && 0 <= j < n ==> g[i][j] == Crossings(lines, i, j)
  }

  ghost predicate IsOffGrid(g: Grid<Cell>, m: Matrix, n: nat, lines: seq<Line>)
    requires Square(m, n)
  {
    && Square(g, n)
    && forall i, j :: 0 <= i < n && 0 <= j < n ==>
         g[i][j] == if Crossings(lines, i, j) == 0 then Fin(m[i][j]) else Infinity
  }

  /** Overwrite one line of a grid by the entries of another. */
  function SetLine<T>(g: Grid<T>, n: nat, l: Line, h: Grid<T>): (r: Grid<T>)
    requires Square(g, n) && Square(h, n)
    ensures Square(r, n)
    ensures forall i, j :: 0 <= i < n && 0 <= j < n ==> r[i][j] == if On(l, i, j) then h[i][j] else g[i][j]
  {
    Build(n, (i: nat, j: nat) requires i < n && j < n => if On(l, i, j) then h[i][j] else g[i][j])
  }

  function Filled<T>(n: nat, x: T): (r: Grid<T>)
    ensures Square(r, n)
    ensures forall i, j :: 0 <= i < n && 0 <= j < n ==> r[i][j] == x
  {
    Build(n, (i: nat, j: nat) => x)
  }

  function BumpLine(g: Grid<nat>, n: nat, l: Line): (r: Grid<nat>)
    requires Square(g, n)
    ensures Square(r, n)
    ensures forall i, j :: 0 <= i < n && 0 <= j < n ==> r[i][j] == g[i][j] + if On(l, i, j) then 1 else 0
  {
    Build(n, (i: nat, j: nat) requires i < n && j < n => g[i][j] + if On(l, i, j) then 1 else 0)
  }

  lemma GridsStep(m: Matrix, n: nat, lines: seq<Line>, l: Line, sub: Grid<Cell>, line: Matrix, cross: Grid<nat>)
    requires Square(m, n) && l !in lines
    requires IsOffGrid(sub, m, n, lines) && IsLineGrid(line, m, n, lines) && IsCrossGrid(cross, n, lines)
    ensures IsOffGrid(SetLine(sub, n, l, Filled(n, Infinity)), m, n, lines + [l])
    ensures IsLineGrid(SetLine(line, n, l, m), m, n, lines + [l])
    ensures IsCrossGrid(BumpLine(cross, n, l), n, lines + [l])
  {
    hide Build, Crossings, SetLine, Filled, BumpLine;
    forall i: nat, j: nat | i < n && j < n
      ensures Crossings(lines + [l], i, j) == Crossings(lines, i, j) + (if On(l, i, j) then 1 else 0)
    {
      CrossingsSnoc(lines, l, i, j);
    }
  }

  method CountZeros(t: Grid<Cell>, n: nat) returns (rows: seq<nat>, cols: seq<nat>)
    requires Square(t, n)
    ensures rows == RowCounts(t, n) && cols == ColCounts(t, n)
  {
    rows, cols := [], [];
    for row := 0 to n
      invariant rows == RowCounts(t, n)[..row]
    {
      rows := rows + [ZeroCount(t[row])];
    }
    for col := 0 to n
      invariant cols == ColCounts(t, n)[..col]
    {
      cols := cols + [ZeroCount(Column(t, n, col))];
    }
  }

  /** One pass of the inner loop: the picked line is struck in all four work matrices. */
  method StrikePicked(result: Matrix, n: nat, temp: Grid<Cell>, sub: Grid<Cell>, line: Matrix, cross: Grid<nat>,
                      ghost lines: seq<Line>)
    returns (temp': Grid<Cell>, sub': Grid<Cell>, line': Matrix, cross': Grid<nat>)
    requires n > 0 && Square(result, n) && Square(temp, n) && Pick(temp, n) !in lines
    requires IsOffGrid(sub, result, n, lines) && IsLineGrid(line, result, n, lines) && IsCrossGrid(cross, n, lines)
    ensures temp' == Strike(temp, n, Pick(temp, n))
    ensures IsOffGrid(sub', result, n, lines + [Pick(temp, n)])
    ensures IsLineGrid(line', result, n, lines + [Pick(temp, n)])
    ensures IsCrossGrid(cross', n, lines + [Pick(temp, n)])
  {
    hide Build, Strike, Crossings, SetLine, Filled, BumpLine, SortIndexes, RowCounts, ColCounts;
    GridsStep(result, n, lines, Pick(temp, n), sub, line, cross);
    var vRowCounts, vColCounts := CountZeros(temp, n);
    FirstIsLargest(vRowCounts);
    FirstIsLargest(vColCounts);
    var vRows, vCols := SortIndexes(vRowCounts), SortIndexes(vColCounts);
    if vRowCounts[vRows[0]] > vColCounts[vCols[0]] {
      var r := Row(vRows[0]);
      temp' := Strike(temp, n, r);
      sub' := SetLine(sub, n, r, Filled(n, Infinity));
      line' := SetLine(line, n, r, result);
      cross' := BumpLine(cross, n, r);
    } else {
      var c := Col(vCols[0]);
      temp' := Strike(temp, n, c);
      sub' := SetLine(sub, n, c, Filled(n, Infinity));
      line' := SetLine(line, n, c, result);
      cross' := BumpLine(cross, n, c);
    }
  }

  lemma NothingStruck(result: Matrix, n: nat)
    requires Square(result, n)
    ensures IsOffGrid(Cells(result, n), result, n, [])
    ensures IsLineGrid(Filled(n, 0.0), result, n, [])
    ensures IsCrossGrid(Filled(n, 0), n, [])
  {
  }

  lemma CoverUnfolds(t: Grid<Cell>, n: nat)
    requires n > 0 && Square(t, n)
    ensures Cover(t, n)
         == [Pick(t, n)] + if HasZero(Strike(t, n, Pick(t, n)), n) then Cover(Strike(t, n, Pick(t, n)), n) else []
  {
    hide Pick, Strike, Build, HasZero;
  }

  lemma NotYetStruck(all: seq<Line>, n: nat, lines: seq<Line>, l: Line, rest: seq<Line>)
    requires Proper(all, n) && all == lines + ([l] + rest)
    ensures l !in lines
  {
    assert all[..|lines|] == lines && all[|lines|] == l;
  }

  /** The inner loop with its four work matrices: they record exactly the lines of `Cover`. */
  method CoverZeros(result: Matrix, n: nat)
    returns (times: nat, sub: Grid<Cell>, line: Matrix, cross: Grid<nat>)
    requires n > 0 && Square(result, n)
    ensures times == |Cover(Cells(result, n), n)|
    ensures IsOffGrid(sub, result, n, Cover(Cells(result, n), n))
    ensures IsLineGrid(line, result, n, Cover(Cells(result, n), n))
    ensures IsCrossGrid(cross, n, Cover(Cells(result, n), n))
  {
    hide Build, Pick, Strike, Cover, Filled, Cells, HasZero, Proper, IsOffGrid, IsLineGrid, IsCrossGrid;
    var temp := Cells(result, n);
    ghost var all := Cover(temp, n);
    CoverIsProper(temp, n);
    times, sub, line, cross := 0, temp, Filled(n, 0.0), Filled(n, 0);
    ghost var lines: seq<Line> := [];
    NothingStruck(result, n);
    var again := true;
    while again
      invariant Square(temp, n)
      invariant all == lines + if again then Cover(temp, n) else []
      invariant times == |lines|
      invariant IsOffGrid(sub, result, n, lines)
      invariant IsLineGrid(line, result, n, lines)
      invariant IsCrossGrid(cross, n, lines)
      decreases |all| - |lines|, again
    {
      ghost var l := Pick(temp, n);
      CoverUnfolds(temp, n);
      NotYetStruck(all, n, lines, l, Cover(temp, n)[1..]);
      temp, sub, line, cross := StrikePicked(result, n, temp, sub, line, cross, lines);
      times := times + 1;
      again := HasZero(temp, n);
      lines := lines + [l];
    }
    assert all == lines;
  }

  function LargestOf(s: seq<nat>): (x: nat)
    requires |s| > 0
    ensures x in s
    ensures forall k :: 0 <= k < |s| ==> s[k] <= x
  {
    if |s| == 1 then s[0]
    else
      var x := LargestOf(s[1..]);
      assert forall k :: 1 <= k < |s| ==> s[k] == s[1..][k - 1];
      if s[0] >= x then s[0] else x
  }

  /** `maxCoeff`. */
  function Largest(g: Grid<nat>, n: nat): (x: nat)
    requires n > 0 && Square(g, n)
    ensures exists i, j :: 0 <= i < n && 0 <= j < n && g[i][j] == x
    ensures forall i, j :: 0 <= i < n && 0 <= j < n ==> g[i][j] <= x
  {
    var rows := seq(n, i requires 0 <= i < n => LargestOf(g[i]));
    var x := LargestOf(rows);
    assert exists i, j :: 0 <= i < n && 0 <= j < n && g[i][j] == x by {
      var i :| 0 <= i < n && rows[i] == x;
      var j :| 0 <= j < n && g[i][j] == rows[i];
    }
    assert forall i :: 0 <= i < n ==> rows[i] <= x && rows[i] == LargestOf(g[i]);
    x
  }

  lemma LargestIsMostCrossings(g: Grid<nat>, n: nat, lines: seq<Line>)
    requires n > 0 && Proper(lines, n) && lines != [] && IsCrossGrid(g, n, lines)
    ensures Largest(g, n) == MostCrossings(lines)
  {
    hide Largest;
    if BothAxes(lines) {
      var a :| 0 <= a < |lines| && lines[a].Row?;
      var b :| 0 <= b < |lines| && lines[b].Col?;
      assert g[lines[a].index][lines[b].index] == 2;
    } else {
      var x := lines[0].index;
      assert lines[0] in lines;
      assert g[x][x] >= 1;
      forall i, j | 0 <= i < n && 0 <= j < n
        ensures g[i][j] <= 1
      {
        assert !(Row(i) in lines && Col(j) in lines);
      }
    }
  }

  /** The matrix the source assembles at the end of a round. */
  method NextMatrix(n: nat, sub: Grid<Cell>, line: Matrix, cross: Grid<nat>, ghost result: Matrix,
                    ghost lines: seq<Line>)
    returns (next: Matrix)
    requires n > 0 && Square(result, n) && Proper(lines, n) && 0 < |lines| < n
    requires IsOffGrid(sub, result, n, lines) && IsLineGrid(line, result, n, lines) && IsCrossGrid(cross, n, lines)
    ensures next == Adjust(result, n, lines, LeastUncovered(result, n, lines))
  {
    hide Build, OffLines, Adjust, Least, Largest, LeastUncovered, MostCrossings;
    LargestIsMostCrossings(cross, n, lines);
    GridsEqual(sub, OffLines(result, n, lines), n);
    ghost var x := LeastUncovered(result, n, lines);
    var minimal := Least(sub, n).value;
    var maximal := Largest(cross, n);
    var lowered := Build(n, (i: nat, j: nat) requires i < n && j < n =>
      match sub[i][j] case Infinity => Infinity case Fin(v) => Fin(v - minimal));
    var finite := Build(n, (i: nat, j: nat) requires i < n && j < n =>
      match lowered[i][j] case Infinity => 0.0 case Fin(v) => v);
    var plus := Build(n, (i: nat, j: nat) requires i < n && j < n =>
      if cross[i][j] == maximal then minimal else 0.0);
    next := Build(n, (i: nat, j: nat) requires i < n && j < n => finite[i][j] + line[i][j] + plus[i][j]);
    GridsEqual(next, Adjust(result, n, lines, x), n);
  }

  lemma PassesBegin(m: Matrix, n: nat)
    requires n > 0 && Square(m, n)
    ensures Passes(m, n, 0) == Running(m)
  {
  }

  lemma PassesStep(m: Matrix, n: nat, k: nat)
    requires n > 0 && Square(m, n) && k > 0
    ensures var lines := Cover(Cells(m, n), n);
            && Proper(lines, n)
            && Passes(m, n, k) == if |lines| >= n then Stopped(m)
                                  else Passes(Adjust(m, n, lines, LeastUncovered(m, n, lines)), n, k - 1)
  {
    hide Build, Adjust, Cover, Cells, LeastUncovered;
    CoverIsProper(Cells(m, n), n);
  }

  /** The whole solver, for at most `maxRounds` passes of its outer loop. It stops exactly when
      the passes stop; it then matches a cheapest permutation if the zeros it stopped on admit one,
      and matches nothing otherwise. */
  method Solve(input: Matrix, n: nat, maxRounds: nat) returns (stopped: bool, matched: seq<(nat, nat)>)
    requires n > 0 && Square(input, n)
    ensures stopped <==> Passes(Reduce(input, n), n, maxRounds).Stopped?
    ensures stopped ==>
              (matched != [] <==> exists p :: Completes(Passes(Reduce(input, n), n, maxRounds).matrix, n, 0, {}, p))
    ensures matched != [] ==> CheapestPairs(input, n, matched)
  {
    hide Build, Adjust, Cover, Cells, LeastUncovered, CheapestPairs, Reduce, Completes, Passes, Round, Shifted,
         NonNegative, EveryLineHasZero, Proper, IsOffGrid, IsLineGrid, IsCrossGrid;
    var result := Reduce(input, n);
    ghost var start := result;
    ReduceKeeps(input, n);
    PassesKeep(input, start, n, maxRounds);
    var k := 0;
    while k < maxRounds
      invariant k <= maxRounds && Square(result, n)
      invariant Passes(start, n, maxRounds) == Passes(result, n, maxRounds - k)
    {
      PassesStep(result, n, maxRounds - k);
      var times, sub, line, cross := CoverZeros(result, n);
      if times >= n {
        var found, out := FindNew(result, n, 0, {}, []);
        if found {
          ghost var p :| Completes(result, n, 0, {}, p) && out == Pairs(p, 0) + [];
          assert out == Pairs(p, 0);
          CompletedIsCheapest(input, result, n, p);
        }
        return true, out;
      }
      result := NextMatrix(n, sub, line, cross, result, Cover(Cells(result, n), n));
      k := k + 1;
    }
    PassesBegin(result, n);
    return false, [];
  }

  /** The overload that returns a weight: the total of a cheapest permutation. */
  method SolveWeight(input: Matrix, n: nat, maxRounds: nat) returns (matches: nat, weight: real)
    requires n > 0 && Square(input, n)
    ensures matches > 0 ==> exists p :: Permutation(p, n) && weight == Cost(input, n, p, n)
    ensures matches > 0 ==> forall q :: Permutation(q, n) ==> weight <= Cost(input, n, q, n)
    ensures matches > 0 <==> && Passes(Reduce(input, n), n, maxRounds).Stopped?
                             && exists p :: Completes(Passes(Reduce(input, n), n, maxRounds).matrix, n, 0, {}, p)
    ensures matches == 0 ==> weight == 0.0
  {
    hide Build, Reduce, Passes;
    var stopped, pairs := Solve(input, n, maxRounds);
    weight := 0.0;
    matches := |pairs|;
    if !stopped || pairs == [] {
      return 0, 0.0;
    }
    ghost var p :|
      && Permutation(p, n)
      && pairs == Pairs(p, 0)
      && forall q :: Permutation(q, n) ==> Cost(input, n, p, n) <= Cost(input, n, q, n);
    for k := 0 to |pairs|
      invariant weight == Cost(input, n, p, k)
    {
      weight := weight + input[pairs[k].0][pairs[k].1];
    }
  }

  // ------------------------------------------------- rounds that never finish

  /** A picked line is fixed by being fullest, rows only winning outright and lower indexes winning ties. */
  lemma PickIs(t: Grid<Cell>, n: nat, l: Line)
    requires n > 0 && Square(t, n) && l.index < n
    requires l.Row? ==>
               var c := RowCounts(t, n)[l.index];
               && (forall i :: 0 <= i < n ==> RowCounts(t, n)[i] <= c && (i < l.index ==> RowCounts(t, n)[i] < c))
               && forall j :: 0 <= j < n ==> ColCounts(t, n)[j] < c
    requires l.Col? ==>
               var c := ColCounts(t, n)[l.index];
               && (forall j :: 0 <= j < n ==> ColCounts(t, n)[j] <= c && (j < l.index ==> ColCounts(t, n)[j] < c))
               && forall i :: 0 <= i < n ==> RowCounts(t, n)[i] <= c
    ensures Pick(t, n) == l
  {
    hide RowCounts, ColCounts, SortIndexes;
    FirstIsLargest(RowCounts(t, n));
    FirstIsLargest(ColCounts(t, n));
  }

  ghost predicate OnlyColumn(t: Grid<Cell>, n: nat, c: nat)
    requires Square(t, n)
  {
    && HasZero(t, n)
    && forall i, j :: 0 <= i < n && 0 <= j < n && t[i][j] == Fin(0.0) ==> j == c
  }

  lemma {:induction false} ZerosToAtMost(s: seq<Cell>, k: nat, c: nat)
    requires k <= |s| && forall j :: 0 <= j < k && s[j] == Fin(0.0) ==> j == c
    ensures ZerosTo(s, k) <= if c < k then 1 else 0
  {
    if k > 0 {
      ZerosToAtMost(s, k - 1, c);
    }
  }

  /** If all zeros stand in one column, the round strikes that column alone. */
  lemma CoverOfOneColumn(t: Grid<Cell>, n: nat, c: nat)
    requires n > 0 && Square(t, n) && c < n && OnlyColumn(t, n, c)
    ensures Cover(t, n) == [Col(c)]
  {
    hide Pick, Strike, RowCounts, ColCounts, Build;
    forall i | 0 <= i < n
      ensures RowCounts(t, n)[i] <= 1
    {
      ZerosToAtMost(t[i], n, c);
    }
    forall j | 0 <= j < n
      ensures j != c ==> ColCounts(t, n)[j] == 0
      ensures j == c ==> ColCounts(t, n)[j] > 0
    {
      ZeroCountPositive(Column(t, n, j));
    }
    PickIs(t, n, Col(c));
  }

  /** The round struck every column but `c`, and no row. */
  ghost predicate AllColumnsBut(lines: seq<Line>, n: nat, c: nat) {
    && c < n
    && forall l :: l in lines <==> l.Col? && l.index < n && l.index != c
  }

  lemma {:induction false} ColumnsBelow(lines: seq<Line>, n: nat, c: nat, k: nat)
    requires AllColumnsBut(lines, n, c) && k <= n
    ensures RowsBelow(lines, k) == 0
    ensures ColsBelow(lines, k) == if k <= c then k else k - 1
  {
    if k > 0 {
      ColumnsBelow(lines, n, c, k - 1);
    }
  }

  /** Such a round raises every other column by its minimum and lowers `c` by it. */
  lemma ColumnRound(m: Matrix, n: nat, c: nat) returns (x: real)
    requires n > 1 && Square(m, n) && AllColumnsBut(Cover(Cells(m, n), n), n, c)
    ensures Round(m, n).Some?
    ensures exists i :: 0 <= i < n && m[i][c] == x
    ensures forall i :: 0 <= i < n ==> m[i][c] >= x
    ensures forall i, j :: 0 <= i < n && 0 <= j < n ==>
              Round(m, n).value[i][j] == if j == c then m[i][j] - x else m[i][j] + x
  {
    hide Cover, Cells, LeastUncovered, Build, Adjust;
    var lines := Cover(Cells(m, n), n);
    CoverIsProper(Cells(m, n), n);
    CountsAddUp(lines, n);
    ColumnsBelow(lines, n, c, n);
    x := LeastUncovered(m, n, lines);
    assert !BothAxes(lines) by {
      assert forall k :: 0 <= k < |lines| ==> lines[k] in lines;
    }
    forall i: nat, j: nat | i < n && j < n
      ensures Crossings(lines, i, j) == if j == c then 0 else 1
    {
    }
    var i, j :| 0 <= i < n && 0 <= j < n && Crossings(lines, i, j) == 0 && m[i][j] == x;
    assert m[i][c] == x;
  }

  /** The mirror round: only column `c` struck. */
  lemma BackRound(m: Matrix, n: nat, c: nat, x: real)
    requires n > 1 && Square(m, n) && c < n && Cover(Cells(m, n), n) == [Col(c)]
    requires exists i, j :: 0 <= i < n && 0 <= j < n && j != c && m[i][j] == x
    requires forall i, j :: 0 <= i < n && 0 <= j < n && j != c ==> m[i][j] >= x
    ensures Round(m, n).Some?
    ensures forall i, j :: 0 <= i < n && 0 <= j < n ==>
              Round(m, n).value[i][j] == if j == c then m[i][j] + x else m[i][j] - x
  {
    hide Cover, Cells, LeastUncovered, Build, Adjust;
    var lines := [Col(c)];
    CoverIsProper(Cells(m, n), n);
    forall i: nat, j: nat | i < n && j < n
      ensures Crossings(lines, i, j) == if j == c then 1 else 0
    {
    }
    assert !BothAxes(lines);
    assert LeastUncovered(m, n, lines) == x;
  }

  /** Once a round strikes every column but one and no row, the next round undoes it. */
  lemma ColumnRoundIsUndone(m: Matrix, n: nat, c: nat)
    requires n > 1 && Square(m, n) && NonNegative(m, n)
    requires AllColumnsBut(Cover(Cells(m, n), n), n, c) && HasZero(Cells(m, n), n)
    ensures Round(m, n).Some? && Round(Round(m, n).value, n) == Some(m)
  {
    hide Cover, Cells, Build, Round;
    var x := ColumnRound(m, n, c);
    var r := Round(m, n).value;
    var lines := Cover(Cells(m, n), n);
    CoverIsProper(Cells(m, n), n);
    forall i | 0 <= i < n
      ensures m[i][c] != 0.0
    {
      assert Cells(m, n)[i][c] == Fin(m[i][c]);
      assert Crossings(lines, i, c) == 0;
    }
    var p, q :| 0 <= p < n && 0 <= q < n && Cells(m, n)[p][q] == Fin(0.0);
    assert m[p][q] == 0.0 && q != c && r[p][q] == x;
    var i :| 0 <= i < n && m[i][c] == x;
    assert r[i][c] == 0.0 && Cells(r, n)[i][c] == Fin(r[i][c]);
    assert OnlyColumn(Cells(r, n), n, c);
    CoverOfOneColumn(Cells(r, n), n, c);
    BackRound(r, n, c, x);
    GridsEqual(Round(r, n).value, m, n);
  }

  /** Two rounds that undo each other are repeated for ever: the outer loop never ends. */
  lemma {:induction false} TwoCycleNeverStops(a: Matrix, b: Matrix, n: nat, k: nat)
    requires n > 0 && Square(a, n) && Square(b, n)
    requires Round(a, n) == Some(b) && Round(b, n) == Some(a)
    ensures Passes(a, n, k).Running? && Passes(b, n, k).Running?
    decreases k
  {
    hide Round;
    if k > 0 {
      TwoCycleNeverStops(a, b, n, k - 1);
    }
  }

  // ------------------------------------------------------------ checking runs

  /** Bit k of a 7-bit mask. */
  predicate Bit(x: bv7, k: nat) {
    if k == 0 then x & 1 != 0
    else if k == 1 then x & 2 != 0
    else if k == 2 then x & 4 != 0
    else if k == 3 then x & 8 != 0
    else if k == 4 then x & 16 != 0
    else if k == 5 then x & 32 != 0
    else k == 6 && x & 64 != 0
  }

  function Without(x: bv7, k: nat): (y: bv7)
    ensures forall b: nat :: Bit(y, b) <==> Bit(x, b) && b != k
  {
    if k == 0 then x & 126
    else if k == 1 then x & 125
    else if k == 2 then x & 123
    else if k == 3 then x & 119
    else if k == 4 then x & 111
    else if k == 5 then x & 95
    else if k == 6 then x & 63
    else x
  }

  function Pop(x: bv7): nat {
    (if x & 1 != 0 then 1 else 0) + (if x & 2 != 0 then 1 else 0) + (if x & 4 != 0 then 1 else 0)
    + (if x & 8 != 0 then 1 else 0) + (if x & 16 != 0 then 1 else 0) + (if x & 32 != 0 then 1 else 0)
    + (if x & 64 != 0 then 1 else 0)
  }

  lemma BitAnd(x: bv7, y: bv7, k: nat)
    ensures Bit(x & y, k) <==> Bit(x, k) && Bit(y, k)
  {
  }

  function PopTo(x: bv7, k: nat): nat {
    if k == 0 then 0 else PopTo(x, k - 1) + if Bit(x, k - 1) then 1 else 0
  }

  lemma PopToIsPop(x: bv7)
    ensures PopTo(x, 7) == Pop(x)
  {
    assert PopTo(x, 1) == if Bit(x, 0) then 1 else 0;
    assert PopTo(x, 2) == PopTo(x, 1) + if Bit(x, 1) then 1 else 0;
    assert PopTo(x, 3) == PopTo(x, 2) + if Bit(x, 2) then 1 else 0;
    assert PopTo(x, 4) == PopTo(x, 3) + if Bit(x, 3) then 1 else 0;
    assert PopTo(x, 5) == PopTo(x, 4) + if Bit(x, 4) then 1 else 0;
    assert PopTo(x, 6) == PopTo(x, 5) + if Bit(x, 5) then 1 else 0;
  }

  /** The zeros still live in one round: row masks, their transpose, and the unstruck rows and columns. */
  datatype LiveZeros = LiveZeros(rows: seq<bv7>, cols: seq<bv7>, freeRows: bv7, freeCols: bv7)

  ghost predicate WellFormed(z: LiveZeros, n: nat) {
    && n <= 7 && |z.rows| == n && |z.cols| == n
    && (forall i: nat, j: nat :: i < n && j < n ==> (Bit(z.rows[i], j) <==> Bit(z.cols[j], i)))
    && (forall k: nat :: n <= k ==> !Bit(z.freeRows, k) && !Bit(z.freeCols, k))
  }

  ghost predicate ZeroAt(t: Grid<Cell>, n: nat, i: nat, j: nat)
    requires Square(t, n) && i < n && j < n
  {
    t[i][j] == Fin(0.0)
  }

  ghost predicate LiveAt(z: LiveZeros, n: nat, i: nat, j: nat)
    requires WellFormed(z, n) && i < n && j < n
  {
    Bit(z.rows[i], j) && Bit(z.freeRows, i) && Bit(z.freeCols, j)
  }

  ghost predicate Shows(t: Grid<Cell>, n: nat, z: LiveZeros)
    requires Square(t, n)
  {
    && WellFormed(z, n)
    && forall i: nat, j: nat :: i < n && j < n ==> (ZeroAt(t, n, i, j) <==> LiveAt(z, n, i, j))
  }

  function Fullness(z: LiveZeros, l: Line): nat
    requires l.index < |z.rows| && l.index < |z.cols|
  {
    match l
    case Row(i) => if Bit(z.freeRows, i) then Pop(z.rows[i] & z.freeCols) else 0
    case Col(j) => if Bit(z.freeCols, j) then Pop(z.cols[j] & z.freeRows) else 0
  }

  lemma {:induction false} ZerosAreBits(s: seq<Cell>, x: bv7, k: nat, n: nat)
    requires k <= 7 && n == |s| <= 7
    requires forall j: nat :: j < n ==> (s[j] == Fin(0.0) <==> Bit(x, j))
    requires forall j: nat :: n <= j ==> !Bit(x, j)
    ensures PopTo(x, k) == ZerosTo(s, if k <= n then k else n)
  {
    if k > 0 {
      ZerosAreBits(s, x, k - 1, n);
    }
  }

  lemma MaskedZeros(s: seq<Cell>, n: nat, x: bv7, free: bv7, on: bool)
    requires n == |s| <= 7
    requires forall j: nat :: j < n ==> (s[j] == Fin(0.0) <==> Bit(x, j) && on && Bit(free, j))
    requires forall j: nat :: n <= j ==> !Bit(free, j)
    ensures ZeroCount(s) == if on then Pop(x & free) else 0
  {
    hide Bit, Pop, PopTo, ZerosTo;
    var y := if on then x & free else 0;
    forall b: nat
      ensures Bit(y, b) <==> on && Bit(x, b) && Bit(free, b)
    {
      BitAnd(x, free, b);
      NoBits(b);
    }
    ZerosAreBits(s, y, 7, n);
    PopToIsPop(y);
    NoBits(0);
  }

  lemma RowFullness(t: Grid<Cell>, n: nat, z: LiveZeros, k: nat)
    requires Square(t, n) && Shows(t, n, z) && k < n
    ensures RowCounts(t, n)[k] == Fullness(z, Row(k))
  {
    hide Bit, Pop, ZeroCount, RowCounts, WellFormed;
    Sized(z, n);
    forall j: nat | j < n
      ensures t[k][j] == Fin(0.0) <==> Bit(z.rows[k], j) && Bit(z.freeRows, k) && Bit(z.freeCols, j)
    {
      assert ZeroAt(t, n, k, j) <==> LiveAt(z, n, k, j);
    }
    MaskedZeros(t[k], n, z.rows[k], z.freeCols, Bit(z.freeRows, k));
  }

  lemma ColFullness(t: Grid<Cell>, n: nat, z: LiveZeros, k: nat)
    requires Square(t, n) && Shows(t, n, z) && k < n
    ensures ColCounts(t, n)[k] == Fullness(z, Col(k))
  {
    hide Bit, Pop, ZeroCount, ColCounts, WellFormed;
    Sized(z, n);
    forall i: nat | i < n
      ensures Column(t, n, k)[i] == Fin(0.0) <==> Bit(z.cols[k], i) && Bit(z.freeCols, k) && Bit(z.freeRows, i)
    {
      assert ZeroAt(t, n, i, k) <==> LiveAt(z, n, i, k);
      Transposed(z, n, i, k);
    }
    MaskedZeros(Column(t, n, k), n, z.cols[k], z.freeRows, Bit(z.freeCols, k));
  }

  lemma Sized(z: LiveZeros, n: nat)
    requires WellFormed(z, n)
    ensures n <= 7 && |z.rows| == n && |z.cols| == n
    ensures forall k: nat :: n <= k ==> !Bit(z.freeRows, k) && !Bit(z.freeCols, k)
  {
  }

  lemma Transposed(z: LiveZeros, n: nat, i: nat, j: nat)
    requires WellFormed(z, n) && i < n && j < n
    ensures Bit(z.rows[i], j) <==> Bit(z.cols[j], i)
  {
  }

  lemma NoBits(b: nat)
    ensures !Bit(0, b) && Pop(0) == 0
  {
  }

  /** `l` is preferred to every row and column below i. */
  predicate BeatsBelow(z: LiveZeros, l: Line, i: nat)
    requires l.index < |z.rows| == |z.cols| && i <= |z.rows|
    decreases i
  {
    i == 0 ||
    (&& (if l.Row? && i - 1 < l.index then Fullness(z, Row(i - 1)) < Fullness(z, l)
         else Fullness(z, Row(i - 1)) <= Fullness(z, l))
     && (if l.Row? || i - 1 < l.index then Fullness(z, Col(i - 1)) < Fullness(z, l)
         else Fullness(z, Col(i - 1)) <= Fullness(z, l))
     && BeatsBelow(z, l, i - 1))
  }

  lemma {:induction false} Beaten(z: LiveZeros, l: Line, i: nat, x: nat)
    requires l.index < |z.rows| == |z.cols| && x < i <= |z.rows| && BeatsBelow(z, l, i)
    ensures if l.Row? && x < l.index then Fullness(z, Row(x)) < Fullness(z, l)
            else Fullness(z, Row(x)) <= Fullness(z, l)
    ensures if l.Row? || x < l.index then Fullness(z, Col(x)) < Fullness(z, l)
            else Fullness(z, Col(x)) <= Fullness(z, l)
  {
    hide Fullness;
    if x < i - 1 {
      Beaten(z, l, i - 1, x);
    }
  }

  function StrikeLine(z: LiveZeros, l: Line): LiveZeros {
    match l
    case Row(i) => z.(freeRows := Without(z.freeRows, i))
    case Col(j) => z.(freeCols := Without(z.freeCols, j))
  }

  lemma ShowsStruck(t: Grid<Cell>, n: nat, z: LiveZeros, l: Line)
    requires Square(t, n) && Shows(t, n, z) && l.index < n
    ensures Shows(Strike(t, n, l), n, StrikeLine(z, l))
  {
    hide Bit, Without, Strike;
    var t', z' := Strike(t, n, l), StrikeLine(z, l);
    assert WellFormed(z', n);
    forall i: nat, j: nat | i < n && j < n
      ensures ZeroAt(t', n, i, j) <==> LiveAt(z', n, i, j)
    {
      assert ZeroAt(t, n, i, j) <==> LiveAt(z, n, i, j);
    }
  }

  lemma CheckedPick(t: Grid<Cell>, n: nat, z: LiveZeros, l: Line)
    requires n > 0 && Square(t, n) && Shows(t, n, z) && l.index < n && BeatsBelow(z, l, n)
    ensures Pick(t, n) == l
  {
    hide BeatsBelow, Fullness, Pick, RowCounts, ColCounts, Bit;
    forall x: nat | x < n
      ensures RowCounts(t, n)[x] == Fullness(z, Row(x)) && ColCounts(t, n)[x] == Fullness(z, Col(x))
      ensures if l.Row? && x < l.index then Fullness(z, Row(x)) < Fullness(z, l)
              else Fullness(z, Row(x)) <= Fullness(z, l)
      ensures if l.Row? || x < l.index then Fullness(z, Col(x)) < Fullness(z, l)
              else Fullness(z, Col(x)) <= Fullness(z, l)
    {
      RowFullness(t, n, z, x);
      ColFullness(t, n, z, x);
      Beaten(z, l, n, x);
    }
    PickIs(t, n, l);
  }

  predicate NoneLive(z: LiveZeros, i: nat)
    requires i <= |z.rows| == |z.cols|
    decreases i
  {
    i == 0 || (Fullness(z, Row(i - 1)) == 0 && NoneLive(z, i - 1))
  }

  /** From position k on, each line is the one picked, a zero is live at every pick, and none at the end. */
  predicate RunFrom(z: LiveZeros, n: nat, lines: seq<Line>, k: nat)
    requires |z.rows| == |z.cols| == n
    decreases |lines| - k
  {
    && k < |lines| && lines[k].index < n
    && BeatsBelow(z, lines[k], n)
    && Fullness(z, lines[k]) > 0
    && if k + 1 == |lines| then NoneLive(StrikeLine(z, lines[k]), n)
       else RunFrom(StrikeLine(z, lines[k]), n, lines, k + 1)
  }

  /** The picks from position k up to another leave these zeros live. */
  predicate StepsTo(z: LiveZeros, n: nat, lines: seq<Line>, k: nat, to: nat, left: LiveZeros)
    requires |z.rows| == |z.cols| == n && to <= |lines|
    decreases |lines| - k
  {
    if k >= to then z == left
    else
      && lines[k].index < n
      && BeatsBelow(z, lines[k], n)
      && Fullness(z, lines[k]) > 0
      && StepsTo(StrikeLine(z, lines[k]), n, lines, k + 1, to, left)
  }

  lemma {:induction false} StepsThenRun(z: LiveZeros, n: nat, lines: seq<Line>, k: nat, to: nat, left: LiveZeros)
    requires |z.rows| == |z.cols| == |left.rows| == |left.cols| == n && k <= to < |lines|
    requires StepsTo(z, n, lines, k, to, left) && RunFrom(left, n, lines, to)
    ensures RunFrom(z, n, lines, k)
    decreases |lines| - k
  {
    hide BeatsBelow, Fullness, StrikeLine, NoneLive;
    if k < to {
      SameSize(z, lines[k]);
      StepsThenRun(StrikeLine(z, lines[k]), n, lines, k + 1, to, left);
    }
  }

  lemma {:induction false} NoneLeft(t: Grid<Cell>, n: nat, z: LiveZeros, k: nat)
    requires Square(t, n) && Shows(t, n, z) && k <= n == |z.rows| == |z.cols| && NoneLive(z, k)
    ensures forall i, j :: 0 <= i < k && 0 <= j < n ==> t[i][j] != Fin(0.0)
  {
    hide Shows, Fullness, ZeroCount;
    if k > 0 {
      NoneLeft(t, n, z, k - 1);
      RowFullness(t, n, z, k - 1);
      ZeroCountPositive(t[k - 1]);
    }
  }

  lemma SomeLeft(t: Grid<Cell>, n: nat, z: LiveZeros, l: Line)
    requires Square(t, n) && Shows(t, n, z) && l.index < n == |z.rows| == |z.cols| && Fullness(z, l) > 0
    ensures HasZero(t, n)
  {
    hide Shows, Fullness, ZeroCount;
    match l {
      case Row(i) =>
        RowFullness(t, n, z, i);
        ZeroCountPositive(t[i]);
      case Col(j) =>
        ColFullness(t, n, z, j);
        ZeroCountPositive(Column(t, n, j));
    }
  }

  /** A checked run strikes exactly the lines of `Cover`. */
  lemma {:induction false} RunIsCover(t: Grid<Cell>, n: nat, z: LiveZeros, lines: seq<Line>, k: nat)
    requires n > 0 && Square(t, n) && Shows(t, n, z) && n == |z.rows| == |z.cols| && RunFrom(z, n, lines, k)
    ensures HasZero(t, n) && Cover(t, n) == lines[k..]
    decreases |lines| - k
  {
    hide Shows, BeatsBelow, StrikeLine, Fullness, Pick, Strike, Build, HasZero, NoneLive;
    var l := lines[k];
    var t', z' := Strike(t, n, l), StrikeLine(z, l);
    SameSize(z, l);
    CheckedPick(t, n, z, l);
    SomeLeft(t, n, z, l);
    ShowsStruck(t, n, z, l);
    if k + 1 == |lines| {
      NoneLeft(t', n, z', n);
      NoZero(t', n);
      assert lines[k..] == [l];
    } else {
      RunIsCover(t', n, z', lines, k + 1);
      assert lines[k..] == [l] + lines[k + 1..];
    }
  }

  lemma SameSize(z: LiveZeros, l: Line)
    ensures StrikeLine(z, l).rows == z.rows && StrikeLine(z, l).cols == z.cols
  {
  }

  lemma NoZero(t: Grid<Cell>, n: nat)
    requires Square(t, n) && forall i, j :: 0 <= i < n && 0 <= j < n ==> t[i][j] != Fin(0.0)
    ensures !HasZero(t, n)
  {
  }

  lemma ReducedIsFixed(m: Matrix, n: nat)
    requires n > 0 && Square(m, n) && NonNegative(m, n) && EveryLineHasZero(m, n)
    ensures Reduce(m, n) == m
  {
    hide Build, MinusRows, MinusCols;
    forall i: nat | i < n
      ensures RowMins(m, n)[i] == 0.0
    {
      assert RowHasZero(m, n, i);
    }
    var m1 := MinusRows(m, n, RowMins(m, n));
    GridsEqual(m1, m, n);
    forall j: nat | j < n
      ensures ColMins(m, n)[j] == 0.0
    {
      assert ColHasZero(m, n, j);
      var i :| 0 <= i < n && m[i][j] == 0.0;
      assert Column(m, n, j)[i] == 0.0;
    }
    var r := MinusCols(m, n, ColMins(m, n));
    forall i, j | 0 <= i < n && 0 <= j < n
      ensures r[i][j] == m[i][j]
    {
      assert r[i][j] == m[i][j] - ColMins(m, n)[j];
    }
    GridsEqual(r, m, n);
  }

  /** A 4x4 input on which the solver stops at once with no matching at all: the greedy cover
      struck four lines where three would do. */
  const UNMATCHED: Matrix := [[0.0, 2.0, 1.0, 1.0], [3.0, 1.0, 0.0, 0.0], [0.0, 4.0, 4.0, 3.0], [4.0, 0.0, 1.0, 0.0]]

  lemma UnmatchedReduced()
    ensures Square(UNMATCHED, 4)
    ensures Reduce(UNMATCHED, 4) == UNMATCHED
  {
    hide Build, Reduce;
    forall i: nat | i < 4
      ensures RowHasZero(UNMATCHED, 4, i) && ColHasZero(UNMATCHED, 4, i)
    {
      assert UNMATCHED[i][[0, 2, 0, 1][i]] == 0.0;
      assert UNMATCHED[[0, 3, 1, 1][i]][i] == 0.0;
    }
    ReducedIsFixed(UNMATCHED, 4);
  }

  lemma UnmatchedCover()
    ensures Square(UNMATCHED, 4)
    ensures Cover(Cells(UNMATCHED, 4), 4) == [Col(0), Col(3), Col(1), Col(2)]
  {
    assert RunFrom(LiveZeros([1, 12, 1, 10], [5, 8, 2, 10], 15, 15), 4, [Col(0), Col(3), Col(1), Col(2)], 0);
    hide RunFrom, Build, Cover, Cells, Shows;
    var r, c: seq<bv7> := [1, 12, 1, 10], [5, 8, 2, 10];
    UnmatchedZeros(Cells(UNMATCHED, 4), r, c);
    RunIsCover(Cells(UNMATCHED, 4), 4, LiveZeros(r, c, 15, 15), [Col(0), Col(3), Col(1), Col(2)], 0);
  }

  lemma UnmatchedZeros(t: Grid<Cell>, r: seq<bv7>, c: seq<bv7>)
    requires Square(UNMATCHED, 4) && t == Cells(UNMATCHED, 4)
    requires r == [1, 12, 1, 10] && c == [5, 8, 2, 10]
    ensures Shows(t, 4, LiveZeros(r, c, 15, 15))
  {
    hide Build, Cells;
    assert forall k: nat :: Bit(15, k) <==> k < 4;
    var z := LiveZeros(r, c, 15, 15);
    assert forall i: nat, j: nat :: i < 4 && j < 4 ==> (Bit(r[i], j) <==> Bit(c[j], i));
    forall i: nat, j: nat | i < 4 && j < 4
      ensures ZeroAt(t, 4, i, j) <==> LiveAt(z, 4, i, j)
    {
      assert t[i][j] == Fin(UNMATCHED[i][j]);
    }
  }

  lemma NotBothInColumnZero(p: seq<nat>)
    ensures |p| == 4 && p[0] < 4 && p[2] < 4 && p[0] != p[2] ==> UNMATCHED[0][p[0]] != 0.0 || UNMATCHED[2][p[2]] != 0.0
  {
  }

  lemma UnmatchedHasNone()
    ensures Square(UNMATCHED, 4)
    ensures !exists p :: Completes(UNMATCHED, 4, 0, {}, p)
  {
    forall p
      ensures !Completes(UNMATCHED, 4, 0, {}, p)
    {
      NotBothInColumnZero(p);
    }
  }

  /** A 7x7 input on which the solver never returns. Its second round strikes every column but
      the last and no row, which the third undoes. */
  const ENDLESS: Matrix :=
    [[2.0, 0.0, 1.0, 2.0, 3.0, 3.0, 2.0],
     [0.0, 0.0, 1.0, 1.0, 0.0, 0.0, 0.0],
     [3.0, 0.0, 3.0, 1.0, 2.0, 1.0, 2.0],
     [0.0, 0.0, 0.0, 1.0, 1.0, 3.0, 0.0],
     [3.0, 0.0, 3.0, 2.0, 3.0, 3.0, 1.0],
     [3.0, 0.0, 3.0, 0.0, 0.0, 1.0, 0.0],
     [1.0, 3.0, 0.0, 0.0, 1.0, 0.0, 0.0]]

  const AFTER_ONE: Matrix :=
    [[1.0, 0.0, 0.0, 1.0, 2.0, 2.0, 2.0],
     [0.0, 1.0, 1.0, 1.0, 0.0, 0.0, 1.0],
     [2.0, 0.0, 2.0, 0.0, 1.0, 0.0, 2.0],
     [0.0, 1.0, 0.0, 1.0, 1.0, 3.0, 1.0],
     [2.0, 0.0, 2.0, 1.0, 2.0, 2.0, 1.0],
     [3.0, 1.0, 3.0, 0.0, 0.0, 1.0, 1.0],
     [1.0, 4.0, 0.0, 0.0, 1.0, 0.0, 1.0]]

  lemma EndlessReduced()
    ensures Square(ENDLESS, 7)
    ensures Reduce(ENDLESS, 7) == ENDLESS
  {
    hide Build, Reduce;
    forall i: nat | i < 7
      ensures RowHasZero(ENDLESS, 7, i) && ColHasZero(ENDLESS, 7, i)
    {
      assert ENDLESS[i][[1, 0, 1, 0, 1, 1, 2][i]] == 0.0;
      assert ENDLESS[[1, 0, 3, 5, 1, 1, 1][i]][i] == 0.0;
    }
    ReducedIsFixed(ENDLESS, 7);
  }

  lemma EndlessZeros(t: Grid<Cell>, r: seq<bv7>, c: seq<bv7>)
    requires Square(ENDLESS, 7) && t == Cells(ENDLESS, 7)
    requires r == [2, 115, 2, 71, 2, 90, 108] && c == [10, 63, 72, 96, 34, 66, 106]
    ensures Shows(t, 7, LiveZeros(r, c, 127, 127))
  {
    hide Build, Cells;
    assert forall k: nat :: Bit(127, k) <==> k < 7;
    var z := LiveZeros(r, c, 127, 127);
    assert forall i: nat, j: nat :: i < 7 && j < 7 ==> (Bit(r[i], j) <==> Bit(c[j], i));
    forall i: nat, j: nat | i < 7 && j < 7
      ensures ZeroAt(t, 7, i, j) <==> LiveAt(z, 7, i, j)
    {
      assert t[i][j] == Fin(ENDLESS[i][j]);
    }
  }

  lemma AfterOneZeros(t: Grid<Cell>, r: seq<bv7>, c: seq<bv7>)
    requires Square(AFTER_ONE, 7) && t == Cells(AFTER_ONE, 7)
    requires r == [6, 49, 42, 5, 2, 24, 44] && c == [10, 21, 73, 100, 34, 70, 0]
    ensures Shows(t, 7, LiveZeros(r, c, 127, 127))
  {
    hide Build, Cells;
    assert forall k: nat :: Bit(127, k) <==> k < 7;
    var z := LiveZeros(r, c, 127, 127);
    assert forall i: nat, j: nat :: i < 7 && j < 7 ==> (Bit(r[i], j) <==> Bit(c[j], i));
    forall i: nat, j: nat | i < 7 && j < 7
      ensures ZeroAt(t, 7, i, j) <==> LiveAt(z, 7, i, j)
    {
      assert t[i][j] == Fin(AFTER_ONE[i][j]);
    }
  }

  lemma EndlessHead()
    ensures StepsTo(LiveZeros([2, 115, 2, 71, 2, 90, 108], [10, 63, 72, 96, 34, 66, 106], 127, 127), 7,
                    [Col(1), Col(6), Row(1), Row(6), Row(3), Row(5)], 0, 3,
                    LiveZeros([2, 115, 2, 71, 2, 90, 108], [10, 63, 72, 96, 34, 66, 106], 125, 61))
  {
  }

  lemma EndlessTail()
    ensures RunFrom(LiveZeros([2, 115, 2, 71, 2, 90, 108], [10, 63, 72, 96, 34, 66, 106], 125, 61), 7,
                    [Col(1), Col(6), Row(1), Row(6), Row(3), Row(5)], 3)
  {
  }

  lemma EndlessRun()
    ensures RunFrom(LiveZeros([2, 115, 2, 71, 2, 90, 108], [10, 63, 72, 96, 34, 66, 106], 127, 127), 7,
                    [Col(1), Col(6), Row(1), Row(6), Row(3), Row(5)], 0)
  {
    hide RunFrom, StepsTo;
    EndlessHead();
    EndlessTail();
    var r, c, lines := [2, 115, 2, 71, 2, 90, 108], [10, 63, 72, 96, 34, 66, 106],
        [Col(1), Col(6), Row(1), Row(6), Row(3), Row(5)];
    StepsThenRun(LiveZeros(r, c, 127, 127), 7, lines, 0, 3, LiveZeros(r, c, 125, 61));
  }

  lemma AfterOneHead()
    ensures StepsTo(LiveZeros([6, 49, 42, 5, 2, 24, 44], [10, 21, 73, 100, 34, 70, 0], 127, 127), 7,
                    [Col(1), Col(2), Col(3), Col(5), Col(0), Col(4)], 0, 3,
                    LiveZeros([6, 49, 42, 5, 2, 24, 44], [10, 21, 73, 100, 34, 70, 0], 127, 113))
  {
  }

  lemma AfterOneTail()
    ensures RunFrom(LiveZeros([6, 49, 42, 5, 2, 24, 44], [10, 21, 73, 100, 34, 70, 0], 127, 113), 7,
                    [Col(1), Col(2), Col(3), Col(5), Col(0), Col(4)], 3)
  {
  }

  lemma AfterOneRun()
    ensures RunFrom(LiveZeros([6, 49, 42, 5, 2, 24, 44], [10, 21, 73, 100, 34, 70, 0], 127, 127), 7,
                    [Col(1), Col(2), Col(3), Col(5), Col(0), Col(4)], 0)
  {
    hide RunFrom, StepsTo;
    AfterOneHead();
    AfterOneTail();
    var r, c, lines := [6, 49, 42, 5, 2, 24, 44], [10, 21, 73, 100, 34, 70, 0],
        [Col(1), Col(2), Col(3), Col(5), Col(0), Col(4)];
    StepsThenRun(LiveZeros(r, c, 127, 127), 7, lines, 0, 3, LiveZeros(r, c, 127, 113));
  }

  lemma EndlessCover()
    ensures Square(ENDLESS, 7)
    ensures Cover(Cells(ENDLESS, 7), 7) == [Col(1), Col(6), Row(1), Row(6), Row(3), Row(5)]
  {
    hide RunFrom, Build, Cover, Cells, Shows;
    EndlessRun();
    var r, c: seq<bv7> := [2, 115, 2, 71, 2, 90, 108], [10, 63, 72, 96, 34, 66, 106];
    EndlessZeros(Cells(ENDLESS, 7), r, c);
    RunIsCover(Cells(ENDLESS, 7), 7, LiveZeros(r, c, 127, 127), [Col(1), Col(6), Row(1), Row(6), Row(3), Row(5)], 0);
  }

  lemma AfterOneCover()
    ensures Square(AFTER_ONE, 7) && HasZero(Cells(AFTER_ONE, 7), 7)
    ensures Cover(Cells(AFTER_ONE, 7), 7) == [Col(1), Col(2), Col(3), Col(5), Col(0), Col(4)]
  {
    hide RunFrom, Build, Cover, Cells, Shows;
    AfterOneRun();
    var r, c: seq<bv7> := [6, 49, 42, 5, 2, 24, 44], [10, 21, 73, 100, 34, 70, 0];
    AfterOneZeros(Cells(AFTER_ONE, 7), r, c);
    RunIsCover(Cells(AFTER_ONE, 7), 7, LiveZeros(r, c, 127, 127), [Col(1), Col(2), Col(3), Col(5), Col(0), Col(4)], 0);
  }

  /** A round with both axes struck, recognised by its minimum and its entries. */
  lemma RoundByShift(m: Matrix, r: Matrix, n: nat, lines: seq<Line>, x: real, least: nat, at: nat)
    requires n > 0 && Square(m, n) && Square(r, n) && Cover(Cells(m, n), n) == lines && |lines| < n && BothAxes(lines)
    requires least < n && at < n && Crossings(lines, least, at) == 0 && m[least][at] == x
    requires forall i, j :: 0 <= i < n && 0 <= j < n && Crossings(lines, i, j) == 0 ==> m[i][j] >= x
    requires forall i, j :: 0 <= i < n && 0 <= j < n ==>
               r[i][j] == m[i][j] - (if Row(i) in lines then 0.0 else x) + (if Col(j) in lines then x else 0.0)
    ensures Round(m, n) == Some(r)
  {
    hide Build, Cover, Cells, Adjust, LeastUncovered, BothAxes, Crossings;
    CoverIsProper(Cells(m, n), n);
    assert LeastUncovered(m, n, lines) == x;
    forall i: nat, j: nat | i < n && j < n
      ensures Adjust(m, n, lines, x)[i][j] == r[i][j]
    {
      AdjustIsShift(m, n, lines, x, i, j);
    }
    GridsEqual(Adjust(m, n, lines, x), r, n);
  }

  /** The entry the first round leaves, from which of the lines through it were struck. */
  lemma EndlessShift(lines: seq<Line>, i: nat, j: nat)
    requires Square(ENDLESS, 7) && Square(AFTER_ONE, 7) && i < 7 && j < 7
    requires lines == [Col(1), Col(6), Row(1), Row(6), Row(3), Row(5)]
    ensures Row(i) in lines <==> i in [1, 3, 5, 6]
    ensures Col(j) in lines <==> j in [1, 6]
    ensures AFTER_ONE[i][j] == ENDLESS[i][j] - (if i in [1, 3, 5, 6] then 0.0 else 1.0)
              + (if j in [1, 6] then 1.0 else 0.0)
    ensures i !in [1, 3, 5, 6] && j !in [1, 6] ==> ENDLESS[i][j] >= 1.0
  {
  }
}
