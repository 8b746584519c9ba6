/** When the assignment solver ends and when it finds an assignment: what each round keeps, and how far that
    reaches. */
module AssignmentLimits {
  import opened Basics
  import opened Assignment

  // --------------------------------------------------- an assignment needs n lines

  ghost function LineSet(lines: seq<Line>): (s: set<Line>)
    ensures forall l :: l in s <==> l in lines
  {
    set l | l in lines
  }

  lemma {:induction false} LineSetSize(lines: seq<Line>)
    ensures |LineSet(lines)| <= |lines|
  {
    if lines != [] {
      var rest := lines[1..];
      LineSetSize(rest);
      assert lines == [lines[0]] + rest;
      assert LineSet(lines) == LineSet(rest) + {lines[0]};
    }
  }

  lemma SetFits(s: set<Line>, lines: seq<Line>)
    requires forall l :: l in s ==> l in lines
    ensures |s| <= |lines|
  {
    LineSetSize(lines);
    SubsetIsSmaller(s, LineSet(lines));
  }

  lemma SubsetIsSmaller<T>(a: set<T>, b: set<T>)
    requires a <= b
    ensures |a| <= |b|
  {
    assert b == a + (b - a);
    assert |b| == |a| + |b - a|;
  }

  /** A struck line through the zero an assignment has in row i. */
  function LineThrough(lines: seq<Line>, p: seq<nat>, i: nat): Line
    requires i < |p|
  {
    if Row(i) in lines then Row(i) else Col(p[i])
  }

  ghost function LinesThrough(lines: seq<Line>, p: seq<nat>, k: nat): set<Line>
    requires k <= |p|
  {
    if k == 0 then {} else LinesThrough(lines, p, k - 1) + {LineThrough(lines, p, k - 1)}
  }

  lemma {:induction false} LinesThroughMember(lines: seq<Line>, p: seq<nat>, k: nat, l: Line)
    requires k <= |p| && l in LinesThrough(lines, p, k)
    ensures exists i: nat :: i < k && LineThrough(lines, p, i) == l
  {
    hide LineThrough;
    if l in LinesThrough(lines, p, k - 1) {
      LinesThroughMember(lines, p, k - 1, l);
    }
  }

  lemma {:induction false} LinesThroughSize(lines: seq<Line>, p: seq<nat>, k: nat)
    requires k <= |p| && Distinct(p)
    ensures |LinesThrough(lines, p, k)| == k
  {
    if k > 0 {
      var l := LineThrough(lines, p, k - 1);
      LinesThroughSize(lines, p, k - 1);
      forall i: nat | i < k - 1
        ensures LineThrough(lines, p, i) != l
      {
        assert p[i] != p[k - 1];
      }
      if l in LinesThrough(lines, p, k - 1) {
        LinesThroughMember(lines, p, k - 1, l);
      }
    }
  }

  /** Zeros that admit an assignment cannot be covered by fewer than n lines, so the round stops on them. */
  lemma AssignmentStopsRound(m: Matrix, n: nat, p: seq<nat>)
    requires n > 0 && Square(m, n) && Completes(m, n, 0, {}, p)
    ensures |Cover(Cells(m, n), n)| >= n && Round(m, n) == None
  {
    hide Cover, Cells, Build, LeastUncovered, Adjust;
    var lines := Cover(Cells(m, n), n);
    CoverIsProper(Cells(m, n), n);
    LinesThroughSize(lines, p, n);
    forall i: nat | i < n
      ensures LineThrough(lines, p, i) in lines
    {
      assert m[0 + i][p[i]] == 0.0;
      assert Cells(m, n)[i][p[i]] == Fin(0.0);
      assert Crossings(lines, i, p[i]) > 0;
    }
    forall l | l in LinesThrough(lines, p, n)
      ensures l in lines
    {
      LinesThroughMember(lines, p, n, l);
    }
    SetFits(LinesThrough(lines, p, n), lines);
  }

  // ------------------------------------------------------- runs that find an assignment

  ghost predicate Assignable(m: Matrix, n: nat)
    requires Square(m, n)
  {
    exists p :: Completes(m, n, 0, {}, p)
  }

  /** The run stops on a matrix whose zeros admit an assignment. */
  ghost predicate Matches(m: Matrix, n: nat, k: nat)
    requires n > 0 && Square(m, n)
  {
    Passes(m, n, k).Stopped? && Assignable(Passes(m, n, k).matrix, n)
  }

  lemma AssignableStops(m: Matrix, n: nat)
    requires n > 0 && Square(m, n) && Assignable(m, n)
    ensures Round(m, n) == None
  {
    hide Completes, Round;
    var p :| Completes(m, n, 0, {}, p);
    AssignmentStopsRound(m, n, p);
  }

  /** The first matrix of a run whose zeros admit an assignment stops it. */
  lemma {:induction false} FirstAssignableStops(m: Matrix, n: nat, j: nat, k: nat)
    requires n > 0 && Square(m, n) && j < k
    requires Assignable(Passes(m, n, j).matrix, n)
    ensures Passes(m, n, k) == Stopped(Passes(m, n, j).matrix)
    decreases k
  {
    hide Round, Assignable;
    if j == 0 {
      AssignableStops(m, n);
    } else if Round(m, n).Some? {
      FirstAssignableStops(Round(m, n).value, n, j - 1, k - 1);
    }
  }

  /** A run of k rounds finds an assignment exactly if the zeros of some matrix it passes through admit one. */
  lemma {:induction false} MatchesExactly(m: Matrix, n: nat, k: nat)
    requires n > 0 && Square(m, n)
    ensures Matches(m, n, k) <==> exists j: nat :: j < k && Assignable(Passes(m, n, j).matrix, n)
    decreases k
  {
    hide Round, Assignable;
    if j: nat :| j < k && Assignable(Passes(m, n, j).matrix, n) {
      FirstAssignableStops(m, n, j, k);
    }
    if Matches(m, n, k) {
      StoppedBefore(m, n, k);
    }
  }

  lemma {:induction false} StoppedBefore(m: Matrix, n: nat, k: nat)
    requires n > 0 && Square(m, n) && Passes(m, n, k).Stopped?
    ensures exists j: nat :: j < k && Passes(m, n, j).matrix == Passes(m, n, k).matrix
    decreases k
  {
    hide Round;
    if Round(m, n).None? {
      assert Passes(m, n, 0).matrix == m;
    } else {
      var m' := Round(m, n).value;
      StoppedBefore(m', n, k - 1);
      var j: nat :| j < k - 1 && Passes(m', n, j).matrix == Passes(m', n, k - 1).matrix;
      assert Passes(m, n, j + 1).matrix == Passes(m', n, j).matrix;
    }
  }

  /** If the zeros of the reduced matrix admit an assignment, one pass returns a cheapest permutation. */
  lemma ReducedAssignable(input: Matrix, n: nat)
    requires n > 0 && Square(input, n) && Assignable(Reduce(input, n), n)
    ensures Passes(Reduce(input, n), n, 1) == Stopped(Reduce(input, n))
    ensures exists p :: Completes(Reduce(input, n), n, 0, {}, p) && CheapestPairs(input, n, Pairs(p, 0))
  {
    hide Round, Reduce, Completes, CheapestPairs, Shifted, NonNegative, EveryLineHasZero;
    AssignableStops(Reduce(input, n), n);
    ReduceKeeps(input, n);
    var p :| Completes(Reduce(input, n), n, 0, {}, p);
    CompletedIsCheapest(input, Reduce(input, n), n, p);
  }

  // ------------------------------------------------------------------ runs that end

  /** A whole multiple of a unit, as every double is of some power of two. */
  ghost predicate Multiple(x: real, unit: real) {
    exists z: int :: x == Scaled(unit, z)
  }

  ghost predicate Multiples(m: Matrix, n: nat, unit: real)
    requires Square(m, n)
  {
    unit > 0.0 && forall i, j :: 0 <= i < n && 0 <= j < n ==> Multiple(m[i][j], unit)
  }

  lemma MultipleSum(x: real, y: real, unit: real)
    requires Multiple(x, unit) && Multiple(y, unit)
    ensures Multiple(x + y, unit) && Multiple(x - y, unit)
  {
    var a: int :| x == Scaled(unit, a);
    var b: int :| y == Scaled(unit, b);
    assert x + y == Scaled(unit, a + b);
    assert x - y == Scaled(unit, a - b);
  }

  lemma PositiveMultiple(x: real, unit: real)
    requires unit > 0.0 && Multiple(x, unit) && x > 0.0
    ensures x >= unit
  {
    var z: int :| x == Scaled(unit, z);
    assert z > 0;
    assert unit * (z - 1) as real >= 0.0;
  }

  lemma ReduceKeepsMultiples(input: Matrix, n: nat, unit: real)
    requires n > 0 && Square(input, n) && Multiples(input, n, unit)
    ensures Multiples(Reduce(input, n), n, unit)
  {
    hide Build, Multiple, MinusRows, MinusCols, RowMins, ColMins;
    var m1 := MinusRows(input, n, RowMins(input, n));
    MinusRowsMultiples(input, n, unit);
    MinusColsMultiples(m1, n, unit);
  }

  lemma MinusRowsMultiples(m: Matrix, n: nat, unit: real)
    requires n > 0 && Square(m, n) && Multiples(m, n, unit)
    ensures Multiples(MinusRows(m, n, RowMins(m, n)), n, unit)
  {
    hide Build, Multiple, MinusRows, RowMins, MinOf;
    var u := RowMins(m, n);
    var r := MinusRows(m, n, u);
    forall i, j | 0 <= i < n && 0 <= j < n
      ensures Multiple(r[i][j], unit)
    {
      assert u[i] in m[i];
      MultipleSum(m[i][j], u[i], unit);
    }
  }

  lemma MinusColsMultiples(m: Matrix, n: nat, unit: real)
    requires n > 0 && Square(m, n) && Multiples(m, n, unit)
    ensures Multiples(MinusCols(m, n, ColMins(m, n)), n, unit)
  {
    hide Build, Multiple, MinusCols, ColMins, MinOf;
    var v := ColMins(m, n);
    var r := MinusCols(m, n, v);
    forall i, j | 0 <= i < n && 0 <= j < n
      ensures Multiple(r[i][j], unit)
    {
      assert v[j] in Column(m, n, j);
      MultipleSum(m[i][j], v[j], unit);
    }
  }

  lemma RoundKeepsMultiples(m: Matrix, n: nat, unit: real)
    requires n > 0 && Square(m, n) && Multiples(m, n, unit) && Round(m, n).Some?
    ensures Multiples(Round(m, n).value, n, unit)
  {
    hide Build, Multiple, Cover, Cells, LeastUncovered, Adjust, MostCrossings, Crossings;
    var lines := Cover(Cells(m, n), n);
    CoverIsProper(Cells(m, n), n);
    var x := LeastUncovered(m, n, lines);
    var r := Round(m, n).value;
    forall i, j | 0 <= i < n && 0 <= j < n
      ensures Multiple(r[i][j], unit)
    {
      MultipleSum(m[i][j], x, unit);
      MultipleSum(m[i][j] - x, x, unit);
    }
  }

  /** The first k rounds each strike rows and columns, or stop. */
  ghost predicate StrikesBoth(m: Matrix, n: nat, k: nat)
    requires n > 0 && Square(m, n)
    decreases k
  {
    k == 0 || Round(m, n).None? || (BothAxes(Cover(Cells(m, n), n)) && StrikesBoth(Round(m, n).value, n, k - 1))
  }

  lemma {:induction false} RowTotalSign(m: Matrix, n: nat, i: nat, k: nat)
    requires Square(m, n) && NonNegative(m, n) && i < n && k <= n
    ensures RowTotal(m, n, i, k) >= 0.0
  {
    if k > 0 {
      RowTotalSign(m, n, i, k - 1);
    }
  }

  lemma {:induction false} TotalSign(m: Matrix, n: nat, k: nat)
    requires Square(m, n) && NonNegative(m, n) && k <= n
    ensures TotalOfRows(m, n, k) >= 0.0
  {
    if k > 0 {
      TotalSign(m, n, k - 1);
      RowTotalSign(m, n, k - 1, n);
    }
  }

  lemma ScaledAtLeast(x: real, unit: real, n: nat, d: int)
    requires x >= unit > 0.0 && d >= 1
    ensures Scaled(x, n * d) >= Scaled(unit, n)
  {
    assert n * d >= n;
    assert x * (n * d) as real >= unit * (n * d) as real >= unit * n as real;
  }

  /** A round that strikes both axes takes at least n units off the total. */
  lemma RoundDropsUnits(m: Matrix, n: nat, unit: real)
    requires n > 0 && Square(m, n) && NonNegative(m, n) && Multiples(m, n, unit)
    requires Round(m, n).Some? && BothAxes(Cover(Cells(m, n), n))
    ensures Total(Round(m, n).value, n) <= Total(m, n) - Scaled(unit, n)
  {
    hide Cover, Cells, LeastUncovered, Build, Adjust, TotalOfRows, Crossings, BothAxes, Scaled, Multiple;
    var lines := Cover(Cells(m, n), n);
    RoundDropsTotal(m, n);
    MinimumIsPositive(m, n);
    var x := LeastUncovered(m, n, lines);
    var i, j :| 0 <= i < n && 0 <= j < n && Crossings(lines, i, j) == 0 && m[i][j] == x;
    PositiveMultiple(x, unit);
    ScaledAtLeast(x, unit, n, n - |lines|);
  }

  /** Rounds that strike both axes cannot go on longer than the total lasts. */
  lemma {:induction false} BothAxesEnds(m: Matrix, n: nat, unit: real, k: nat)
    requires n > 0 && Square(m, n) && NonNegative(m, n) && Multiples(m, n, unit)
    requires StrikesBoth(m, n, k) && Total(m, n) < Scaled(unit, n * k)
    ensures Passes(m, n, k).Stopped?
    decreases k
  {
    hide Round, Total, NonNegative, BothAxes, Cover, Cells;
    if k == 0 {
      NothingBelowZero(m, n, unit);
    } else if Round(m, n).Some? {
      RoundDropsUnits(m, n, unit);
      RoundKeeps(m, n);
      RoundKeepsMultiples(m, n, unit);
      assert n * k == n * (k - 1) + n;
      ScaledSum(unit, n * (k - 1), n);
      BothAxesEnds(Round(m, n).value, n, unit, k - 1);
    }
  }

  lemma NothingBelowZero(m: Matrix, n: nat, unit: real)
    requires Square(m, n) && NonNegative(m, n)
    ensures Total(m, n) >= Scaled(unit, n * 0)
  {
    TotalSign(m, n, n);
  }

  /** Some number of rounds lasts longer than the total. */
  lemma EnoughRounds(total: real, unit: real, n: nat) returns (k: nat)
    requires unit > 0.0 && n > 0
    ensures total < Scaled(unit, n * k)
  {
    var ratio := total / unit;
    k := if ratio.Floor + 1 > 0 then ratio.Floor + 1 else 0;
    assert ratio < k as real && total == ratio * unit;
    assert n * k >= k;
    assert ratio * unit < k as real * unit <= (n * k) as real * unit;
  }

  /** The first k rounds each strike both axes, or every column save one and no row, or stop. */
  ghost predicate StrikesKnown(m: Matrix, n: nat, k: nat)
    requires n > 0 && Square(m, n)
    decreases k
  {
    var lines := Cover(Cells(m, n), n);
    || k == 0 || Round(m, n).None?
    || ((BothAxes(lines) || AllColumnsButOne(lines, n)) && StrikesKnown(Round(m, n).value, n, k - 1))
  }

  ghost predicate AllColumnsButOne(lines: seq<Line>, n: nat) {
    exists c: nat :: AllColumnsBut(lines, n, c)
  }

  lemma RoundKeepsZero(m: Matrix, n: nat)
    requires n > 0 && Square(m, n) && NonNegative(m, n) && Round(m, n).Some?
    ensures HasZero(Cells(Round(m, n).value, n), n) && NonNegative(Round(m, n).value, n)
  {
    hide Round, Build;
    RoundKeeps(m, n);
    var r := Round(m, n).value;
    var i: nat :| i < n && RowHasZero(r, n, i);
    var j: nat :| j < n && r[i][j] == 0.0;
    assert Cells(r, n)[i][j] == Fin(0.0);
  }

  lemma ZeroIsCovered(m: Matrix, n: nat)
    requires n > 0 && Square(m, n) && HasZero(Cells(m, n), n)
    ensures exists l :: l in Cover(Cells(m, n), n) && l.index < n
  {
    hide Cover, Build;
    CoverIsProper(Cells(m, n), n);
    var i: nat, j: nat :| i < n && j < n && Cells(m, n)[i][j] == Fin(0.0);
    assert Crossings(Cover(Cells(m, n), n), i, j) > 0;
    assert Row(i) in Cover(Cells(m, n), n) || Col(j) in Cover(Cells(m, n), n);
  }

  lemma ColumnRoundNeverStops(m: Matrix, n: nat, j: nat)
    requires n > 0 && Square(m, n) && NonNegative(m, n) && HasZero(Cells(m, n), n)
    requires AllColumnsButOne(Cover(Cells(m, n), n), n)
    ensures Passes(m, n, j).Running?
  {
    hide Cover, Cells, Round, HasZero, NonNegative;
    ZeroIsCovered(m, n);
    var c: nat :| AllColumnsBut(Cover(Cells(m, n), n), n, c);
    ColumnRoundIsUndone(m, n, c);
    TwoCycleNeverStops(m, Round(m, n).value, n, j);
  }

  /** One round of the second kind among those of the first, and the run never ends. */
  lemma {:induction false} OneColumnRoundIsEnough(m: Matrix, n: nat, k: nat, j: nat)
    requires n > 0 && Square(m, n) && NonNegative(m, n) && HasZero(Cells(m, n), n)
    requires StrikesKnown(m, n, k) && !StrikesBoth(m, n, k)
    ensures Passes(m, n, j).Running?
    decreases k
  {
    hide Cover, Cells, Round, HasZero, NonNegative, BothAxes, AllColumnsButOne;
    if !BothAxes(Cover(Cells(m, n), n)) {
      ColumnRoundNeverStops(m, n, j);
    } else if j > 0 {
      RoundKeepsZero(m, n);
      OneColumnRoundIsEnough(Round(m, n).value, n, k - 1, j - 1);
    }
  }

  ghost predicate Stops(m: Matrix, n: nat)
    requires n > 0 && Square(m, n)
  {
    exists k: nat :: Passes(m, n, k).Stopped?
  }

  ghost predicate AlwaysBoth(m: Matrix, n: nat)
    requires n > 0 && Square(m, n)
  {
    forall k: nat :: StrikesBoth(m, n, k)
  }

  lemma StopsOnBothAxes(m: Matrix, n: nat, unit: real)
    requires n > 0 && Square(m, n) && NonNegative(m, n) && Multiples(m, n, unit) && AlwaysBoth(m, n)
    ensures Stops(m, n)
  {
    hide Passes, NonNegative, Total, Multiple;
    var k := EnoughRounds(Total(m, n), unit, n);
    BothAxesEnds(m, n, unit, k);
  }

  /** Among runs of these two kinds of rounds, of every size, those end that strike both axes in every round. */
  lemma EndsExactlyOnBothAxes(m: Matrix, n: nat, unit: real)
    requires n > 0 && Square(m, n) && NonNegative(m, n) && HasZero(Cells(m, n), n) && Multiples(m, n, unit)
    requires forall k: nat :: StrikesKnown(m, n, k)
    ensures Stops(m, n) <==> AlwaysBoth(m, n)
  {
    hide HasZero, NonNegative, Multiple;
    if AlwaysBoth(m, n) {
      StopsOnBothAxes(m, n, unit);
    } else {
      var k: nat :| !StrikesBoth(m, n, k);
      assert StrikesKnown(m, n, k);
      forall j: nat
        ensures Passes(m, n, j).Running?
      {
        OneColumnRoundIsEnough(m, n, k, j);
      }
    }
  }

  // -------------------------------------------------------- the covering, step by step

  /** The zeros that are live after some lines were struck. */
  ghost predicate LiveAfter(t0: Grid<Cell>, t: Grid<Cell>, n: nat, done: seq<Line>)
    requires Square(t0, n) && Square(t, n)
  {
    forall i, j :: 0 <= i < n && 0 <= j < n ==>
        (t[i][j] == Fin(0.0) <==> t0[i][j] == Fin(0.0) && Crossings(done, i, j) == 0)
  }

  /** The grid before the line at position s was picked. */
  ghost predicate IsGridAt(t0: Grid<Cell>, n: nat, s: nat, t: Grid<Cell>)
    requires n > 0 && Square(t0, n) && Square(t, n)
  {
    && s < |Cover(t0, n)| && HasZero(t, n)
    && LiveAfter(t0, t, n, Cover(t0, n)[..s]) && Cover(t, n) == Cover(t0, n)[s..]
    && Pick(t, n) == Cover(t0, n)[s]
  }

  lemma CoverUnfoldsHere(t: Grid<Cell>, n: nat)
    requires n > 0 && Square(t, n)
    ensures Cover(t, n)[0] == Pick(t, n)
    ensures |Cover(t, n)| > 1 <==> HasZero(Strike(t, n, Pick(t, n)), n)
    ensures |Cover(t, n)| > 1 ==> Cover(t, n)[1..] == Cover(Strike(t, n, Pick(t, n)), n)
  {
    hide Pick, Strike, Build;
  }

  lemma {:induction false} GridAt(t0: Grid<Cell>, n: nat, s: nat) returns (t: Grid<Cell>)
    requires n > 0 && Square(t0, n) && HasZero(t0, n) && s < |Cover(t0, n)|
    ensures Square(t, n) && IsGridAt(t0, n, s, t)
  {
    hide Cover, Pick, Strike, Build, HasZero, Crossings;
    var lines := Cover(t0, n);
    if s == 0 {
      t := t0;
      CoverUnfoldsHere(t0, n);
      NoCrossings();
      assert lines[..0] == [];
    } else {
      var before := GridAt(t0, n, s - 1);
      CoverUnfoldsHere(before, n);
      var l := Pick(before, n);
      t := Strike(before, n, l);
      CoverUnfoldsHere(t, n);
      CoverIsProper(t0, n);
      assert lines[s - 1..][1..] == lines[s..];
      assert lines[..s] == lines[..s - 1] + [l];
      assert l !in lines[..s - 1];
      StrikeGoesOn(t0, before, n, lines[..s - 1], l);
    }
  }

  lemma NoCrossings()
    ensures forall i: nat, j: nat :: Crossings([], i, j) == 0
  {
  }

  lemma StrikeGoesOn(t0: Grid<Cell>, t: Grid<Cell>, n: nat, done: seq<Line>, l: Line)
    requires Square(t0, n) && Square(t, n) && LiveAfter(t0, t, n, done) && l !in done
    ensures LiveAfter(t0, Strike(t, n, l), n, done + [l])
  {
    hide Crossings, Build;
    forall i: nat, j: nat | i < n && j < n
      ensures Crossings(done + [l], i, j) == 0 <==> Crossings(done, i, j) == 0 && !On(l, i, j)
    {
      CrossingsSnoc(done, l, i, j);
    }
  }

  // ------------------------------------------------------- lines that lose every zero

  ghost function RowZeros(t: Grid<Cell>, n: nat, i: nat): (s: set<nat>)
    requires Square(t, n) && i < n
    ensures forall j: nat :: j in s <==> j < n && t[i][j] == Fin(0.0)
  {
    set j: nat | j < n && t[i][j] == Fin(0.0)
  }

  ghost function ColZeros(t: Grid<Cell>, n: nat, j: nat): (s: set<nat>)
    requires Square(t, n) && j < n
    ensures forall i: nat :: i in s <==> i < n && t[i][j] == Fin(0.0)
  {
    set i: nat | i < n && t[i][j] == Fin(0.0)
  }

  ghost function ZeroPlaces(s: seq<Cell>, k: nat): (p: set<nat>)
    requires k <= |s|
    ensures forall i: nat :: i in p <==> i < k && s[i] == Fin(0.0)
  {
    set i: nat | i < k && s[i] == Fin(0.0)
  }

  lemma {:induction false} PlacesAreCounted(s: seq<Cell>, k: nat)
    requires k <= |s|
    ensures |ZeroPlaces(s, k)| == ZerosTo(s, k)
  {
    if k > 0 {
      PlacesAreCounted(s, k - 1);
      if s[k - 1] == Fin(0.0) {
        assert ZeroPlaces(s, k) == ZeroPlaces(s, k - 1) + {k - 1};
      } else {
        assert ZeroPlaces(s, k) == ZeroPlaces(s, k - 1);
      }
    }
  }

  lemma CountsAreSizes(t: Grid<Cell>, n: nat, k: nat)
    requires Square(t, n) && k < n
    ensures |RowZeros(t, n, k)| == RowCounts(t, n)[k] && |ColZeros(t, n, k)| == ColCounts(t, n)[k]
  {
    PlacesAreCounted(t[k], n);
    PlacesAreCounted(Column(t, n, k), n);
    assert RowZeros(t, n, k) == ZeroPlaces(t[k], n);
    assert ColZeros(t, n, k) == ZeroPlaces(Column(t, n, k), n);
  }

  ghost function ZerosOn(t: Grid<Cell>, n: nat, l: Line): set<nat>
    requires Square(t, n) && l.index < n
  {
    match l
    case Row(i) => RowZeros(t, n, i)
    case Col(j) => ColZeros(t, n, j)
  }

  /** The picked line is a fullest one, and a row only if it is fuller than every column. */
  lemma PickIsFullest(t: Grid<Cell>, n: nat, k: nat)
    requires n > 0 && Square(t, n) && k < n
    ensures |RowZeros(t, n, k)| <= |ZerosOn(t, n, Pick(t, n))|
    ensures |ColZeros(t, n, k)| <= |ZerosOn(t, n, Pick(t, n))|
    ensures Pick(t, n).Row? ==> |ColZeros(t, n, k)| < |ZerosOn(t, n, Pick(t, n))|
  {
    hide SortIndexes, RowZeros, ColZeros;
    FirstIsLargest(RowCounts(t, n));
    FirstIsLargest(ColCounts(t, n));
    CountsAreSizes(t, n, k);
    CountsAreSizes(t, n, Pick(t, n).index);
  }

  lemma LiveSize(t: Grid<Cell>, n: nat, i: nat, j: nat)
    requires Square(t, n) && i < n && j < n && t[i][j] == Fin(0.0)
    ensures |RowZeros(t, n, i)| > 0 && |ColZeros(t, n, j)| > 0
  {
    assert j in RowZeros(t, n, i) && i in ColZeros(t, n, j);
  }

  /** A row that is picked, then or later, holds at least two zeros. */
  lemma PickedRowIsLong(t: Grid<Cell>, n: nat, i: nat)
    requires n > 0 && Square(t, n) && HasZero(t, n) && i < n && Row(i) in Cover(t, n)
    ensures |RowZeros(t, n, i)| >= 2
  {
    hide Cover, Pick, RowZeros, ColZeros;
    var lines := Cover(t, n);
    var s: nat :| s < |lines| && lines[s] == Row(i);
    var g := GridAt(t, n, s);
    var a: nat, b: nat :| a < n && b < n && g[a][b] == Fin(0.0);
    LiveSize(g, n, a, b);
    PickIsFullest(g, n, b);
    assert RowZeros(g, n, i) <= RowZeros(t, n, i);
    SubsetIsSmaller(RowZeros(g, n, i), RowZeros(t, n, i));
  }

  /** What is live before the line at position s is struck, and after. */
  lemma StruckAt(t0: Grid<Cell>, n: nat, s: nat) returns (t: Grid<Cell>, t1: Grid<Cell>)
    requires n > 0 && Square(t0, n) && HasZero(t0, n) && s < |Cover(t0, n)|
    ensures Square(t, n) && Square(t1, n) && IsGridAt(t0, n, s, t)
    ensures forall i, j :: 0 <= i < n && 0 <= j < n ==>
              (t1[i][j] == Fin(0.0) <==> t[i][j] == Fin(0.0) && !On(Cover(t0, n)[s], i, j))
    ensures s + 1 < |Cover(t0, n)| ==> HasZero(t1, n) && Cover(t1, n) == Cover(t0, n)[s + 1..]
  {
    hide Cover, Pick, Strike, Build, HasZero, Crossings;
    t := GridAt(t0, n, s);
    CoverUnfoldsHere(t, n);
    t1 := Strike(t, n, Pick(t, n));
    assert Cover(t0, n)[s..][1..] == Cover(t0, n)[s + 1..];
  }

  /** Every row and every column holds a zero, but fewer than n lines cover them. */
  ghost predicate Short(t0: Grid<Cell>, n: nat)
    requires n > 0 && Square(t0, n)
  {
    && (forall k: nat :: k < n ==> RowZeros(t0, n, k) != {} && ColZeros(t0, n, k) != {})
    && |Cover(t0, n)| < n
  }

  /** Every zero of a line is covered by a line across as well. */
  ghost predicate Loses(t0: Grid<Cell>, n: nat, l: Line)
    requires n > 0 && Square(t0, n)
  {
    && l in Cover(t0, n) && l.index < n
    && match l
       case Row(i) => forall j: nat :: j in RowZeros(t0, n, i) ==> Col(j) in Cover(t0, n)
       case Col(j) => forall i: nat :: i in ColZeros(t0, n, j) ==> Row(i) in Cover(t0, n)
  }

  lemma ShortHasZero(t0: Grid<Cell>, n: nat)
    requires n > 0 && Square(t0, n) && Short(t0, n)
    ensures HasZero(t0, n)
  {
    var j: nat :| j in RowZeros(t0, n, 0);
  }

  /** There is a second line along the one that loses its zeros: one through a line across that is not struck. */
  lemma SecondLine(t0: Grid<Cell>, n: nat, l: Line) returns (other: Line)
    requires n > 0 && Square(t0, n) && Short(t0, n) && Loses(t0, n, l)
    ensures other in Cover(t0, n) && other != l && other.Row? == l.Row? && other.index < n
  {
    hide Cover;
    var lines := Cover(t0, n);
    CoverIsProper(t0, n);
    UncoveredCell(lines, n);
    var i: nat, j: nat :| i < n && j < n && Crossings(lines, i, j) == 0;
    if l.Row? {
      var r: nat :| r in ColZeros(t0, n, j);
      other := Row(r);
      assert Crossings(lines, r, j) > 0;
    } else {
      var c: nat :| c in RowZeros(t0, n, i);
      other := Col(c);
      assert Crossings(lines, i, c) > 0;
    }
  }

  ghost function Across(l: Line, ends: set<nat>): (s: set<Line>)
    ensures forall k :: k in s <==> k.Row? == l.Col? && k.index in ends
    ensures |s| == |ends|
    decreases |ends|
  {
    if ends == {} then {}
    else
      var e :| e in ends;
      Across(l, ends - {e}) + {if l.Row? then Col(e) else Row(e)}
  }

  /** With both lines along and those across it, the cover has two lines more than the zeros it lost. */
  lemma CoverHolds(t0: Grid<Cell>, n: nat, l: Line, ends: set<nat>)
    requires n > 0 && Square(t0, n) && Short(t0, n) && Loses(t0, n, l)
    requires forall e :: e in ends ==> e in ZerosOn(t0, n, l)
    ensures |ends| + 2 <= |Cover(t0, n)|
  {
    hide Cover, RowZeros, ColZeros;
    var other := SecondLine(t0, n, l);
    SetFits(Across(l, ends) + {l, other}, Cover(t0, n));
  }

  lemma TakeThree(s: set<nat>) returns (a: nat, b: nat, c: nat)
    requires |s| == 3
    ensures a != b && b != c && a != c && s == {a, b, c}
  {
    a :| a in s;
    assert |s - {a}| == 2;
    b :| b in s - {a};
    assert s - {a} - {b} == s - {a, b} && |s - {a, b}| == 1;
    c :| c in s - {a, b};
    assert s - {a, b} - {c} == s - {a, b, c} && |s - {a, b, c}| == 0;
  }

  function LineAcross(l: Line, e: nat): Line {
    if l.Row? then Col(e) else Row(e)
  }

  /** The moment the losing line is struck: its live zeros are covered later. */
  ghost predicate Losing(t0: Grid<Cell>, n: nat, l: Line, s: nat, t: Grid<Cell>, t1: Grid<Cell>)
    requires n > 0 && Square(t0, n) && Square(t, n) && Square(t1, n)
  {
    && Short(t0, n) && Loses(t0, n, l) && s + 1 < |Cover(t0, n)| && Cover(t0, n)[s] == l
    && IsGridAt(t0, n, s, t)
    && HasZero(t1, n) && Cover(t1, n) == Cover(t0, n)[s + 1..]
    && (forall i, j :: 0 <= i < n && 0 <= j < n ==> (t1[i][j] == Fin(0.0) <==> t[i][j] == Fin(0.0) && !On(l, i, j)))
    && ZerosOn(t, n, l) != {}
    && forall e: nat :: e in ZerosOn(t, n, l) ==> LineAcross(l, e) in Cover(t1, n)
  }

  lemma LosingAt(t0: Grid<Cell>, n: nat, l: Line) returns (s: nat, t: Grid<Cell>, t1: Grid<Cell>)
    requires n > 0 && Square(t0, n) && Short(t0, n) && Loses(t0, n, l)
    ensures Square(t, n) && Square(t1, n) && Losing(t0, n, l, s, t, t1)
  {
    hide Cover, Pick, RowZeros, ColZeros, Crossings, HasZero;
    var lines := Cover(t0, n);
    ShortHasZero(t0, n);
    s :| s < |lines| && lines[s] == l;
    t, t1 := StruckAt(t0, n, s);
    LiveOnPick(t, n);
    forall e: nat | e in ZerosOn(t, n, l)
      ensures LineAcross(l, e) in lines[s + 1..]
    {
      LaterAcross(t0, n, l, s, t, e);
    }
  }

  lemma LiveOnPick(t: Grid<Cell>, n: nat)
    requires n > 0 && Square(t, n) && HasZero(t, n)
    ensures exists e: nat :: e in ZerosOn(t, n, Pick(t, n))
  {
    hide Pick;
    PickIsLive(t, n);
    var i, j :| 0 <= i < n && 0 <= j < n && On(Pick(t, n), i, j) && t[i][j] == Fin(0.0);
    assert (if Pick(t, n).Row? then j else i) in ZerosOn(t, n, Pick(t, n));
  }

  lemma LaterAcross(t0: Grid<Cell>, n: nat, l: Line, s: nat, t: Grid<Cell>, e: nat)
    requires n > 0 && Square(t0, n) && Square(t, n) && Loses(t0, n, l)
    requires IsGridAt(t0, n, s, t) && Cover(t0, n)[s] == l && e in ZerosOn(t, n, l)
    ensures LineAcross(l, e) in Cover(t0, n)[s + 1..]
  {
    hide Cover, Pick, HasZero;
    var lines, x := Cover(t0, n), LineAcross(l, e);
    var i, j := if l.Row? then l.index else e, if l.Row? then e else l.index;
    assert t[i][j] == Fin(0.0) && Crossings(lines[..s], i, j) == 0;
    assert x in lines && x !in lines[..s] && x != l;
    assert lines == lines[..s] + [l] + lines[s + 1..];
  }

  /** A column that loses its zeros loses at least three, each in a row with two more. */
  lemma LosingColumn(t0: Grid<Cell>, n: nat, j: nat, s: nat, t: Grid<Cell>, t1: Grid<Cell>)
    requires n > 0 && Square(t0, n) && Square(t, n) && Square(t1, n) && j < n && Losing(t0, n, Col(j), s, t, t1)
    ensures |ColZeros(t, n, j)| >= 3
    ensures forall i: nat :: i in ColZeros(t, n, j) ==> |RowZeros(t1, n, i)| < |ColZeros(t, n, j)|
  {
    hide Cover, Pick, HasZero, Short, Loses;
    forall i: nat | i in ColZeros(t, n, j)
      ensures 2 <= |RowZeros(t1, n, i)| < |ColZeros(t, n, j)|
    {
      PickedRowIsLong(t1, n, i);
      PickIsFullest(t, n, i);
      assert RowZeros(t, n, i) == RowZeros(t1, n, i) + {j};
    }
  }

  /** A row that loses its zeros loses at least three, more than any column holds. */
  lemma LosingRow(t0: Grid<Cell>, n: nat, i: nat, s: nat, t: Grid<Cell>, t1: Grid<Cell>)
    requires n > 0 && Square(t0, n) && Square(t, n) && Square(t1, n) && i < n && Losing(t0, n, Row(i), s, t, t1)
    ensures |RowZeros(t, n, i)| >= 3
    ensures forall j: nat :: j < n ==> |ColZeros(t, n, j)| < |RowZeros(t, n, i)|
  {
    hide Cover, Pick, HasZero, Short, Loses;
    forall j: nat | j < n
      ensures |ColZeros(t, n, j)| < |RowZeros(t, n, i)|
    {
      PickIsFullest(t, n, j);
    }
    var j: nat :| j in RowZeros(t, n, i);
    CoverStaysLive(t1, n);
    assert Live(t1, n, Col(j));
    var r: nat, c: nat :| r < n && c < n && On(Col(j), r, c) && t1[r][c] == Fin(0.0);
    assert {i, r} <= ColZeros(t, n, j);
    SubsetIsSmaller({i, r}, ColZeros(t, n, j));
  }

  /** The first position from s on that holds one of three rows, one of which is there. */
  lemma {:induction false} FirstOf(lines: seq<Line>, s: nat, rows: set<nat>, i: nat) returns (k: nat)
    requires s <= |lines| && i in rows && Row(i) in lines[s..]
    ensures s <= k < |lines| && lines[k].Row? && lines[k].index in rows
    ensures forall a: nat :: a in rows && Row(a) in lines[s..] ==> Row(a) in lines[k..]
    decreases |lines| - s
  {
    if lines[s].Row? && lines[s].index in rows {
      k := s;
    } else {
      assert lines[s..] == [lines[s]] + lines[s + 1..];
      k := FirstOf(lines, s + 1, rows, i);
    }
  }

  /** Three rows of two zeros each, in columns of one zero each and none in column j, need seven columns. */
  lemma SevenColumns(g: Grid<Cell>, n: nat, j: nat, a: nat, b: nat, c: nat)
    requires Square(g, n) && j < n && a < n && b < n && c < n && a != b && b != c && a != c
    requires |RowZeros(g, n, a)| >= 2 && |RowZeros(g, n, b)| >= 2 && |RowZeros(g, n, c)| >= 2
    requires ColZeros(g, n, j) == {} && forall k: nat :: k < n ==> |ColZeros(g, n, k)| <= 1
    ensures n >= 7
  {
    var x, y, z := RowZeros(g, n, a), RowZeros(g, n, b), RowZeros(g, n, c);
    NoneInColumn(g, n, j, a);
    NoneInColumn(g, n, j, b);
    NoneInColumn(g, n, j, c);
    hide RowZeros, ColZeros;
    OneRowEach(g, n, a, b);
    OneRowEach(g, n, a, c);
    OneRowEach(g, n, b, c);
    SevenApart(x, y, z, j, n);
  }

  lemma NoneInColumn(g: Grid<Cell>, n: nat, j: nat, i: nat)
    requires Square(g, n) && j < n && i < n && ColZeros(g, n, j) == {}
    ensures j !in RowZeros(g, n, i) && forall k: nat :: k in RowZeros(g, n, i) ==> k < n
  {
    assert i !in ColZeros(g, n, j);
  }

  lemma SevenApart(x: set<nat>, y: set<nat>, z: set<nat>, j: nat, n: nat)
    requires |x| >= 2 && |y| >= 2 && |z| >= 2 && x !! y && x !! z && y !! z
    requires j !in x && j !in y && j !in z
    requires j < n && forall k: nat :: k in x || k in y || k in z ==> k < n
    ensures n >= 7
  {
    assert |x + y| == |x| + |y|;
    assert |x + y + z| == |x + y| + |z|;
    assert |x + y + z + {j}| == |x + y + z| + 1;
    SubsetIsSmaller(x + y + z + {j}, Below(n));
  }

  lemma OneRowEach(g: Grid<Cell>, n: nat, a: nat, b: nat)
    requires Square(g, n) && a < n && b < n && a != b
    requires forall k: nat :: k < n ==> |ColZeros(g, n, k)| <= 1
    ensures RowZeros(g, n, a) !! RowZeros(g, n, b)
  {
    forall k: nat | k in RowZeros(g, n, a)
      ensures k !in RowZeros(g, n, b)
    {
      if k in RowZeros(g, n, b) {
        assert {a, b} <= ColZeros(g, n, k);
        SubsetIsSmaller({a, b}, ColZeros(g, n, k));
      }
    }
  }

  lemma LosingColumnNeedsSeven(t0: Grid<Cell>, n: nat, j: nat)
    requires n > 0 && Square(t0, n) && j < n && Short(t0, n) && Loses(t0, n, Col(j))
    ensures n >= 7
  {
    hide Cover, Pick, HasZero, RowZeros, Crossings;
    var s, t, t1 := LosingAt(t0, n, Col(j));
    LosingColumn(t0, n, j, s, t, t1);
    var rows := ColZeros(t, n, j);
    CoverHolds(t0, n, Col(j), rows);
    if |rows| == 3 {
      var a, b, c := TakeThree(rows);
      var g := ThreeRowsLeft(t0, n, j, s, t, t1, rows, a);
      SevenColumns(g, n, j, a, b, c);
    }
  }

  /** When the first of the three rows is picked, no column holds more than one zero. */
  lemma ThreeRowsLeft(t0: Grid<Cell>, n: nat, j: nat, s: nat, t: Grid<Cell>, t1: Grid<Cell>, rows: set<nat>, a: nat)
    returns (g: Grid<Cell>)
    requires n > 0 && Square(t0, n) && Square(t, n) && Square(t1, n) && j < n && Losing(t0, n, Col(j), s, t, t1)
    requires rows == ColZeros(t, n, j) && |rows| == 3 && a in rows
    ensures Square(g, n) && ColZeros(g, n, j) == {}
    ensures forall k: nat :: k < n ==> |ColZeros(g, n, k)| <= 1
    ensures forall i: nat :: i in rows ==> |RowZeros(g, n, i)| >= 2
  {
    hide Cover, Pick, HasZero, Short, Loses, Crossings, RowZeros;
    LosingColumn(t0, n, j, s, t, t1);
    var later := Cover(t1, n);
    assert later[0..] == later;
    var k := FirstOf(later, 0, rows, a);
    var b := later[k].index;
    g := GridAt(t1, n, k);
    assert RowZeros(g, n, b) <= RowZeros(t1, n, b);
    SubsetIsSmaller(RowZeros(g, n, b), RowZeros(t1, n, b));
    forall c: nat | c < n
      ensures |ColZeros(g, n, c)| <= 1
    {
      PickIsFullest(g, n, c);
    }
    forall i: nat | i in rows
      ensures |RowZeros(g, n, i)| >= 2
    {
      PickedRowIsLong(g, n, i);
    }
    assert ColZeros(g, n, j) == {};
  }

  /** The rows that are not struck but hold a zero in one of three columns, of at most two zeros each: at most
      three of them, if each column holds one in a struck row. */
  lemma RowsOutside(t: Grid<Cell>, n: nat, i: nat, cols: set<nat>, outside: set<nat>)
    requires Square(t, n) && i < n && |cols| == 3
    requires forall c: nat :: c in cols ==> c < n && i in ColZeros(t, n, c) && |ColZeros(t, n, c)| <= 2
    requires forall q: nat :: q in outside ==> q != i && exists c: nat :: c in cols && q in ColZeros(t, n, c)
    ensures |outside| <= 3
  {
    hide ColZeros;
    var a, b, c := TakeThree(cols);
    var x, y, z := ColZeros(t, n, a) - {i}, ColZeros(t, n, b) - {i}, ColZeros(t, n, c) - {i};
    assert |x| <= 1 && |y| <= 1 && |z| <= 1;
    assert outside <= x + y + z;
    ThreeSmall(x, y, z, outside);
  }

  lemma ThreeSmall(x: set<nat>, y: set<nat>, z: set<nat>, s: set<nat>)
    requires |x| <= 1 && |y| <= 1 && |z| <= 1 && s <= x + y + z
    ensures |s| <= 3
  {
    SubsetIsSmaller(s, x + y + z);
    assert |x + y + z| <= |x + y| + |z| <= |x| + |y| + |z|;
  }

  lemma LosingRowNeedsSeven(t0: Grid<Cell>, n: nat, i: nat)
    requires n > 0 && Square(t0, n) && i < n && Short(t0, n) && Loses(t0, n, Row(i))
    ensures n >= 7
  {
    hide Cover, Pick, HasZero, RowZeros, ColZeros, Crossings;
    var s, t, t1 := LosingAt(t0, n, Row(i));
    LosingRow(t0, n, i, s, t, t1);
    var cols := RowZeros(t, n, i);
    CoverHolds(t0, n, Row(i), cols);
    if n == 6 {
      var other := SecondLine(t0, n, Row(i));
      var outside := Below(n) - {i, other.index};
      TwoLess(Below(n), i, other.index);
      forall q: nat | q in outside
        ensures exists c: nat :: c in cols && q in ColZeros(t, n, c)
      {
        var c := OutsideZero(t0, n, i, other, s, t, t1, q);
      }
      LosingCols(t, n, i, cols);
      RowsOutside(t, n, i, cols, outside);
    }
  }

  lemma TwoLess(s: set<nat>, a: nat, b: nat)
    requires a in s && b in s && a != b
    ensures |s - {a, b}| == |s| - 2
  {
    assert |s - {a}| == |s| - 1 && |s - {a} - {b}| == |s| - 2;
    assert s - {a, b} == s - {a} - {b};
  }

  lemma LosingCols(t: Grid<Cell>, n: nat, i: nat, cols: set<nat>)
    requires Square(t, n) && i < n && cols == RowZeros(t, n, i)
    ensures forall c: nat :: c in cols ==> c < n && i in ColZeros(t, n, c)
  {
  }

  /** With five lines, those are the two rows and three columns: another row's zero is in one of the columns. */
  lemma OutsideZero(t0: Grid<Cell>, n: nat, i: nat, other: Line, s: nat, t: Grid<Cell>, t1: Grid<Cell>, q: nat)
      returns (c: nat)
    requires n == 6 && Square(t0, n) && Square(t, n) && Square(t1, n) && i < n && Losing(t0, n, Row(i), s, t, t1)
    requires |RowZeros(t, n, i)| >= 3
    requires other in Cover(t0, n) && other.Row? && other != Row(i) && q < n && q != i && q != other.index
    ensures c in RowZeros(t, n, i) && q in ColZeros(t, n, c)
  {
    hide Cover, Pick, HasZero, RowZeros;
    OnlyThoseStruck(t0, n, i, other, s, t, t1);
    c := SomeZero(t0, n, q);
    CoverIsProper(t0, n);
    assert Crossings(Cover(t0, n), q, c) > 0;
    LiveOutside(t0, n, i, s, t, t1, q, c);
  }

  lemma SomeZero(t0: Grid<Cell>, n: nat, q: nat) returns (c: nat)
    requires n > 0 && Square(t0, n) && q < n && Short(t0, n)
    ensures c < n && t0[q][c] == Fin(0.0)
  {
    c :| c in RowZeros(t0, n, q);
  }

  lemma TwoMore(s: set<Line>, a: Line, b: Line)
    requires a !in s && b !in s && a != b
    ensures |s + {a} + {b}| == |s| + 2
  {
    assert |s + {a}| == |s| + 1;
  }

  lemma OnlyThoseStruck(t0: Grid<Cell>, n: nat, i: nat, other: Line, s: nat, t: Grid<Cell>, t1: Grid<Cell>)
    requires n == 6 && Square(t0, n) && Square(t, n) && Square(t1, n) && i < n && Losing(t0, n, Row(i), s, t, t1)
    requires |RowZeros(t, n, i)| >= 3
    requires other in Cover(t0, n) && other.Row? && other != Row(i)
    ensures forall l :: l in Cover(t0, n) ==> l == Row(i) || l == other || (l.Col? && l.index in RowZeros(t, n, i))
  {
    hide Cover, Pick, HasZero, RowZeros;
    var lines, cols := Cover(t0, n), RowZeros(t, n, i);
    forall e: nat | e in cols
      ensures Col(e) in lines
    {
      LaterAcross(t0, n, Row(i), s, t, e);
    }
    var across := Across(Row(i), cols);
    TwoMore(across, Row(i), other);
    OnlyKnown(lines, across + {Row(i)} + {other});
  }

  lemma LiveOutside(t0: Grid<Cell>, n: nat, i: nat, s: nat, t: Grid<Cell>, t1: Grid<Cell>, q: nat, c: nat)
    requires n > 0 && Square(t0, n) && Square(t, n) && Square(t1, n) && i < n && Losing(t0, n, Row(i), s, t, t1)
    requires q < n && c < n && t0[q][c] == Fin(0.0) && Row(q) !in Cover(t0, n) && c in RowZeros(t, n, i)
    ensures q in ColZeros(t, n, c)
  {
    hide Cover, Pick, HasZero;
    var done := Cover(t0, n)[..s];
    assert Crossings(done, i, c) == 0;
    assert Row(q) !in done;
    assert Crossings(done, q, c) == 0;
  }

  lemma OnlyKnown(lines: seq<Line>, known: set<Line>)
    requires forall l :: l in known ==> l in lines
    requires |lines| <= |known|
    ensures forall l :: l in lines ==> l in known
  {
    LineSetSize(lines);
    var all := LineSet(lines);
    assert all == known + (all - known);
    assert |all| == |known| + |all - known|;
    assert all - known == {};
  }

  // ------------------------------------------------------------ up to size six

  lemma FullIsShort(m: Matrix, n: nat)
    requires n > 0 && Square(m, n) && EveryLineHasZero(m, n) && |Cover(Cells(m, n), n)| < n
    ensures Short(Cells(m, n), n)
  {
    hide Cover, Build;
    forall k: nat | k < n
      ensures RowZeros(Cells(m, n), n, k) != {} && ColZeros(Cells(m, n), n, k) != {}
    {
      assert RowHasZero(m, n, k) && ColHasZero(m, n, k);
      var j: nat :| j < n && m[k][j] == 0.0;
      var i: nat :| i < n && m[i][k] == 0.0;
      assert j in RowZeros(Cells(m, n), n, k) && i in ColZeros(Cells(m, n), n, k);
    }
  }

  lemma NoneLoses(t0: Grid<Cell>, n: nat, l: Line)
    requires 0 < n <= 6 && Square(t0, n) && Short(t0, n) && l.index < n
    ensures !Loses(t0, n, l)
  {
    hide Short, Loses;
    if Loses(t0, n, l) {
      match l {
        case Row(i) => LosingRowNeedsSeven(t0, n, i);
        case Col(j) => LosingColumnNeedsSeven(t0, n, j);
      }
    }
  }

  /** Up to size six every line keeps a zero that is covered once only. */
  lemma OnceCovered(t0: Grid<Cell>, n: nat, l: Line) returns (i: nat, j: nat)
    requires 0 < n <= 6 && Square(t0, n) && Short(t0, n) && l.index < n
    ensures i < n && j < n && On(l, i, j) && t0[i][j] == Fin(0.0) && Crossings(Cover(t0, n), i, j) == 1
  {
    hide Cover;
    var lines := Cover(t0, n);
    CoverIsProper(t0, n);
    NoneLoses(t0, n, l);
    match l {
      case Row(r) =>
        i := r;
        j :| j in RowZeros(t0, n, r) && (l in lines ==> Col(j) !in lines);
      case Col(c) =>
        j := c;
        i :| i in ColZeros(t0, n, c) && (l in lines ==> Row(i) !in lines);
    }
    assert Crossings(lines, i, j) > 0;
  }

  lemma RoundStaysFull(m: Matrix, n: nat)
    requires 0 < n <= 6 && Square(m, n) && EveryLineHasZero(m, n) && Round(m, n).Some?
    ensures EveryLineHasZero(Round(m, n).value, n)
  {
    hide Cover, Cells, Build, LeastUncovered, Adjust, Short, Crossings, BothAxes;
    var r := Round(m, n).value;
    FullIsShort(m, n);
    FullLinesStrikeBothAxes(m, n);
    forall k: nat | k < n
      ensures RowHasZero(r, n, k) && ColHasZero(r, n, k)
    {
      var i, j := OnceCovered(Cells(m, n), n, Row(k));
      assert r[i][j] == 0.0;
      var a, b := OnceCovered(Cells(m, n), n, Col(k));
      assert r[a][b] == 0.0;
    }
  }

  lemma {:induction false} FullStrikesBoth(m: Matrix, n: nat, k: nat)
    requires 0 < n <= 6 && Square(m, n) && EveryLineHasZero(m, n)
    ensures StrikesBoth(m, n, k)
    ensures EveryLineHasZero(Passes(m, n, k).matrix, n)
    decreases k
  {
    hide Cover, Cells, BothAxes, EveryLineHasZero, Round;
    if k > 0 && Round(m, n).Some? {
      FullRound(m, n);
      FullStrikesBoth(Round(m, n).value, n, k - 1);
    }
  }

  lemma FullRound(m: Matrix, n: nat)
    requires 0 < n <= 6 && Square(m, n) && EveryLineHasZero(m, n) && Round(m, n).Some?
    ensures BothAxes(Cover(Cells(m, n), n)) && EveryLineHasZero(Round(m, n).value, n)
  {
    RoundStaysFull(m, n);
    hide Cover, Cells, BothAxes, EveryLineHasZero, Adjust;
    FullLinesStrikeBothAxes(m, n);
  }

  /** Up to size six the solver ends on every input. */
  lemma EndsUpToSix(input: Matrix, n: nat, unit: real) returns (k: nat)
    requires 0 < n <= 6 && Square(input, n) && Multiples(input, n, unit)
    ensures Passes(Reduce(input, n), n, k).Stopped?
    ensures EveryLineHasZero(Passes(Reduce(input, n), n, k).matrix, n)
  {
    hide Reduce, Round, Passes, StrikesBoth, EveryLineHasZero, Total, NonNegative, Shifted, Multiple;
    var m := Reduce(input, n);
    ReduceKeeps(input, n);
    ReduceKeepsMultiples(input, n, unit);
    k := EnoughRounds(Total(m, n), unit, n);
    FullStrikesBoth(m, n, k);
    BothAxesEnds(m, n, unit, k);
  }

  // -------------------------------------------------------------- inputs of every size

  /** The zeros of a smaller grid, and a diagonal of zeros beyond it. */
  ghost predicate Padded(t: Grid<Cell>, a: nat, tn: Grid<Cell>, n: nat)
    requires Square(t, a) && Square(tn, n)
  {
    && a <= n
    && forall i: nat, j: nat :: i < n && j < n ==>
         (tn[i][j] == Fin(0.0) <==> (i < a && j < a && t[i][j] == Fin(0.0)) || (i == j && i >= a))
  }

  function ColsFrom(a: nat, n: nat): (s: seq<Line>)
    requires a <= n
    ensures |s| == n - a && forall l :: l in s <==> l.Col? && a <= l.index < n
    decreases n - a
  {
    if a == n then [] else [Col(a)] + ColsFrom(a + 1, n)
  }

  lemma PickFacts(t: Grid<Cell>, n: nat, k: nat)
    requires n > 0 && Square(t, n) && k < n
    ensures
      match Pick(t, n)
      case Row(r) =>
        && |RowZeros(t, n, k)| <= |RowZeros(t, n, r)| && (k < r ==> |RowZeros(t, n, k)| < |RowZeros(t, n, r)|)
        && |ColZeros(t, n, k)| < |RowZeros(t, n, r)|
      case Col(c) =>
        && |ColZeros(t, n, k)| <= |ColZeros(t, n, c)| && (k < c ==> |ColZeros(t, n, k)| < |ColZeros(t, n, c)|)
        && |RowZeros(t, n, k)| <= |ColZeros(t, n, c)|
  {
    hide SortIndexes, RowZeros, ColZeros;
    FirstIsLargest(RowCounts(t, n));
    FirstIsLargest(ColCounts(t, n));
    CountsAreSizes(t, n, k);
    CountsAreSizes(t, n, Pick(t, n).index);
  }

  /** The same facts fix the pick. */
  ghost predicate Fullest(t: Grid<Cell>, n: nat, l: Line)
    requires Square(t, n) && l.index < n
  {
    forall k: nat :: k < n ==>
      match l
      case Row(r) =>
        && |RowZeros(t, n, k)| <= |RowZeros(t, n, r)| && (k < r ==> |RowZeros(t, n, k)| < |RowZeros(t, n, r)|)
        && |ColZeros(t, n, k)| < |RowZeros(t, n, r)|
      case Col(c) =>
        && |ColZeros(t, n, k)| <= |ColZeros(t, n, c)| && (k < c ==> |ColZeros(t, n, k)| < |ColZeros(t, n, c)|)
        && |RowZeros(t, n, k)| <= |ColZeros(t, n, c)|
  }

  lemma FullestIsPicked(t: Grid<Cell>, n: nat, l: Line)
    requires n > 0 && Square(t, n) && l.index < n && Fullest(t, n, l)
    ensures Pick(t, n) == l
  {
    hide Pick, RowZeros, ColZeros, RowCounts, ColCounts;
    CountsAreSizes(t, n, l.index);
    forall k: nat | k < n
      ensures RowCounts(t, n)[k] == |RowZeros(t, n, k)| && ColCounts(t, n)[k] == |ColZeros(t, n, k)|
    {
      CountsAreSizes(t, n, k);
    }
    PickIs(t, n, l);
  }

  lemma PaddedZeros(t: Grid<Cell>, a: nat, tn: Grid<Cell>, n: nat, k: nat)
    requires Square(t, a) && Square(tn, n) && Padded(t, a, tn, n) && k < n
    ensures RowZeros(tn, n, k) == if k < a then RowZeros(t, a, k) else {k}
    ensures ColZeros(tn, n, k) == if k < a then ColZeros(t, a, k) else {k}
  {
  }

  lemma PaddedPick(t: Grid<Cell>, a: nat, tn: Grid<Cell>, n: nat)
    requires a > 0 && Square(t, a) && Square(tn, n) && Padded(t, a, tn, n) && HasZero(t, a)
    ensures Pick(tn, n) == Pick(t, a)
  {
    assert a <= n;
    hide Pick, RowZeros, ColZeros, Padded, HasZero;
    var l := Pick(t, a);
    SomeLiveLine(t, a);
    PaddedZeros(t, a, tn, n, l.index);
    forall k: nat | k < n
      ensures |RowZeros(tn, n, k)| == if k < a then |RowZeros(t, a, k)| else 1
      ensures |ColZeros(tn, n, k)| == if k < a then |ColZeros(t, a, k)| else 1
    {
      PaddedZeros(t, a, tn, n, k);
    }
    forall k: nat | k < a
      ensures |RowZeros(t, a, k)| <= |ZerosOn(t, a, l)| && |ColZeros(t, a, k)| <= |ZerosOn(t, a, l)|
    {
      PickFacts(t, a, k);
    }
    assert Fullest(tn, n, l) by {
      forall k: nat | k < a {
        PickFacts(t, a, k);
      }
    }
    FullestIsPicked(tn, n, l);
  }

  /** The pick holds a zero, and a picked row two. */
  lemma SomeLiveLine(t: Grid<Cell>, n: nat)
    requires n > 0 && Square(t, n) && HasZero(t, n)
    ensures |ZerosOn(t, n, Pick(t, n))| > if Pick(t, n).Row? then 1 else 0
  {
    hide Pick, RowZeros, ColZeros;
    var i: nat, j: nat :| i < n && j < n && t[i][j] == Fin(0.0);
    LiveSize(t, n, i, j);
    PickIsFullest(t, n, j);
  }

  lemma PaddedStrike(t: Grid<Cell>, a: nat, tn: Grid<Cell>, n: nat, l: Line)
    requires Square(t, a) && Square(tn, n) && Padded(t, a, tn, n) && l.index < a
    ensures Padded(Strike(t, a, l), a, Strike(tn, n, l), n)
  {
    hide Build;
  }

  /** Zeros on the diagonal from k on are covered by their columns, in order. */
  lemma {:induction false} DiagonalCover(t: Grid<Cell>, n: nat, k: nat)
    requires k < n && Square(t, n)
    requires forall i: nat, j: nat :: i < n && j < n ==> (t[i][j] == Fin(0.0) <==> i == j && i >= k)
    ensures Cover(t, n) == ColsFrom(k, n)
    decreases n - k
  {
    hide Cover, Pick, Strike, Build;
    forall i: nat | i < n
      ensures RowZeros(t, n, i) == (if i >= k then {i} else {}) && ColZeros(t, n, i) == (if i >= k then {i} else {})
    {
    }
    assert Fullest(t, n, Col(k));
    FullestIsPicked(t, n, Col(k));
    CoverUnfoldsHere(t, n);
    var t' := Strike(t, n, Col(k));
    if k + 1 < n {
      assert t'[k + 1][k + 1] == Fin(0.0);
      DiagonalCover(t', n, k + 1);
    }
    assert Cover(t, n) == [Cover(t, n)[0]] + Cover(t, n)[1..];
  }

  /** A padded grid is covered like the smaller one, and then along the diagonal. */
  lemma {:induction false} PaddedCover(t: Grid<Cell>, a: nat, tn: Grid<Cell>, n: nat)
    requires a > 0 && Square(t, a) && Square(tn, n) && Padded(t, a, tn, n) && HasZero(t, a)
    ensures Cover(tn, n) == Cover(t, a) + ColsFrom(a, n)
    decreases LiveLines(t, a)
  {
    hide Cover, Pick, Strike, Build;
    PaddedPick(t, a, tn, n);
    var l := Pick(t, a);
    var t', tn' := Strike(t, a, l), Strike(tn, n, l);
    PaddedStrike(t, a, tn, n, l);
    CoverUnfoldsHere(t, a);
    CoverUnfoldsHere(tn, n);
    assert Cover(tn, n) == [l] + Cover(tn, n)[1..] && Cover(t, a) == [l] + Cover(t, a)[1..];
    if HasZero(t', a) {
      PaddedHasZero(t', a, tn', n);
      PickIsLive(t, a);
      StrikeShrinks(t, a, l);
      PaddedCover(t', a, tn', n);
    } else if a < n {
      assert tn'[a][a] == Fin(0.0);
      DiagonalCover(tn', n, a);
    }
  }

  lemma PaddedHasZero(t: Grid<Cell>, a: nat, tn: Grid<Cell>, n: nat)
    requires Square(t, a) && Square(tn, n) && Padded(t, a, tn, n) && HasZero(t, a)
    ensures HasZero(tn, n)
  {
    var i: nat, j: nat :| i < a && j < a && t[i][j] == Fin(0.0);
    assert tn[i][j] == Fin(0.0);
  }

  /** A matrix set into a larger one, with zeros on the rest of the diagonal and a filling elsewhere. */
  function Pad(m: Matrix, a: nat, n: nat, fill: real): (r: Matrix)
    requires Square(m, a) && a <= n
    ensures Square(r, n)
    ensures forall i, j :: 0 <= i < n && 0 <= j < n ==>
              r[i][j] == if i < a && j < a then m[i][j] else if i == j then 0.0 else fill
  {
    Build(n, (i: nat, j: nat) requires i < n && j < n =>
      if i < a && j < a then m[i][j] else if i == j then 0.0 else fill)
  }

  lemma PadKeeps(m: Matrix, a: nat, n: nat, fill: real)
    requires 0 < a <= n && Square(m, a) && NonNegative(m, a) && EveryLineHasZero(m, a) && fill > 0.0
    ensures NonNegative(Pad(m, a, n, fill), n) && EveryLineHasZero(Pad(m, a, n, fill), n)
    ensures Reduce(Pad(m, a, n, fill), n) == Pad(m, a, n, fill)
    ensures Padded(Cells(m, a), a, Cells(Pad(m, a, n, fill), n), n)
  {
    hide Pad, Build, Reduce;
    var r := Pad(m, a, n, fill);
    forall k: nat | k < n
      ensures RowHasZero(r, n, k) && ColHasZero(r, n, k)
    {
      if k < a {
        assert RowHasZero(m, a, k) && ColHasZero(m, a, k);
        var j: nat :| j < a && m[k][j] == 0.0;
        var i: nat :| i < a && m[i][k] == 0.0;
        assert r[k][j] == 0.0 && r[i][k] == 0.0;
      } else {
        assert r[k][k] == 0.0;
      }
    }
    ReducedIsFixed(r, n);
  }

  lemma PadMultiples(m: Matrix, a: nat, n: nat, fill: int)
    requires a <= n && Square(m, a) && Multiples(m, a, 1.0)
    ensures Multiples(Pad(m, a, n, fill as real), n, 1.0)
  {
    hide Pad, Build;
    assert 0.0 == Scaled(1.0, 0) && fill as real == Scaled(1.0, fill);
  }

  // ----------------------------------------------------- no assignment from size four

  lemma WholeEntries()
    ensures Square(UNMATCHED, 4) && Multiples(UNMATCHED, 4, 1.0)
    ensures Square(ENDLESS, 7) && Multiples(ENDLESS, 7, 1.0)
  {
    hide Multiple;
    assert forall z: int :: Scaled(1.0, z) == z as real;
    forall i: nat, j: nat | i < 4 && j < 4
      ensures Multiple(UNMATCHED[i][j], 1.0)
    {
      WholeIsMultiple(UNMATCHED[i][j]);
    }
    forall i: nat, j: nat | i < 7 && j < 7
      ensures Multiple(ENDLESS[i][j], 1.0)
    {
      WholeIsMultiple(ENDLESS[i][j]);
    }
  }

  lemma WholeIsMultiple(x: real)
    requires x == x.Floor as real
    ensures Multiple(x, 1.0)
  {
    assert x == Scaled(1.0, x.Floor);
  }

  lemma FullHasZero(m: Matrix, n: nat)
    requires n > 0 && Square(m, n) && EveryLineHasZero(m, n)
    ensures HasZero(Cells(m, n), n)
  {
    hide Build;
    assert RowHasZero(m, n, 0);
    var j: nat :| j < n && m[0][j] == 0.0;
    assert Cells(m, n)[0][j] == Fin(0.0);
  }

  lemma UnmatchedFacts()
    ensures Square(UNMATCHED, 4) && NonNegative(UNMATCHED, 4) && EveryLineHasZero(UNMATCHED, 4)
    ensures HasZero(Cells(UNMATCHED, 4), 4) && |Cover(Cells(UNMATCHED, 4), 4)| == 4
    ensures !Assignable(UNMATCHED, 4)
  {
    hide *;
    UnmatchedReduced();
    UnmatchedCover();
    ReduceKeeps(UNMATCHED, 4);
    FullHasZero(UNMATCHED, 4);
    UnmatchedIsNotAssignable();
  }

  lemma UnmatchedIsNotAssignable()
    ensures Square(UNMATCHED, 4) && !Assignable(UNMATCHED, 4)
  {
    hide Completes;
    UnmatchedHasNone();
  }

  /** From size four on there is an input on which the solver stops at once with nothing to match. */
  lemma UnmatchedFromFour(n: nat)
    requires n >= 4
    ensures Square(UNMATCHED, 4)
    ensures
      var input := Pad(UNMATCHED, 4, n, 1.0);
      && Multiples(input, n, 1.0)
      && Passes(Reduce(input, n), n, 1) == Stopped(Reduce(input, n))
      && !Assignable(Reduce(input, n), n)
  {
    hide *;
    UnmatchedFacts();
    WholeEntries();
    var input := Pad(UNMATCHED, 4, n, 1.0);
    PadKeeps(UNMATCHED, 4, n, 1.0);
    PadMultiples(UNMATCHED, 4, n, 1);
    PaddedCover(Cells(UNMATCHED, 4), 4, Cells(input, n), n);
    StopsOnCover(input, n);
    PadAssignable(UNMATCHED, 4, n, 1.0);
  }

  lemma StopsOnCover(m: Matrix, n: nat)
    requires n > 0 && Square(m, n) && |Cover(Cells(m, n), n)| >= n
    ensures Round(m, n) == None && Passes(m, n, 1) == Stopped(m)
  {
  }

  lemma PadAssignable(m: Matrix, a: nat, n: nat, fill: real)
    requires a <= n && Square(m, a) && fill > 0.0
    ensures Assignable(Pad(m, a, n, fill), n) ==> Assignable(m, a)
  {
    hide Pad, Build, Completes;
    var r := Pad(m, a, n, fill);
    if Assignable(r, n) {
      var p :| Completes(r, n, 0, {}, p);
      HeadCompletes(m, a, n, fill, p);
    }
  }

  lemma HeadCompletes(m: Matrix, a: nat, n: nat, fill: real, p: seq<nat>)
    requires a <= n && Square(m, a) && fill > 0.0 && Completes(Pad(m, a, n, fill), n, 0, {}, p)
    ensures |p| == n && Completes(m, a, 0, {}, p[..a])
  {
    hide Pad, Build;
    var r := Pad(m, a, n, fill);
    forall i: nat | i < n
      ensures r[i][p[i]] == 0.0
    {
      assert r[0 + i][p[i]] == 0.0;
    }
    assert forall j: nat :: a <= j < n ==> p[j] == j;
    forall i: nat | i < a
      ensures p[i] < a
    {
      var j := p[i];
      assert j < n && (j == i || p[j] != p[i]);
    }
  }

  // ----------------------------------------------------- endless runs from size seven

  predicate FirstRow(i: nat) {
    i == 1 || i == 3 || i == 5 || i == 6
  }

  predicate FirstCol(j: nat) {
    j == 1 || j == 6
  }

  /** The lines the first round strikes. */
  function EndlessLines(n: nat): (s: seq<Line>)
    requires n >= 7
    ensures |s| == n - 1 && BothAxes(s)
    ensures forall i: nat :: Row(i) in s <==> FirstRow(i)
    ensures forall j: nat :: Col(j) in s <==> FirstCol(j) || 7 <= j < n
  {
    var s := [Col(1), Col(6), Row(1), Row(6), Row(3), Row(5)];
    assert (s + ColsFrom(7, n))[0] == Col(1) && (s + ColsFrom(7, n))[2] == Row(1);
    s + ColsFrom(7, n)
  }

  /** What the first round leaves of the padded matrix. */
  function Moved(m: Matrix, n: nat): (r: Matrix)
    requires n >= 7 && Square(m, n)
    ensures Square(r, n)
    ensures forall i, j :: 0 <= i < n && 0 <= j < n ==>
              r[i][j] == m[i][j] - (if Row(i) in EndlessLines(n) then 0.0 else 1.0)
                                 + (if Col(j) in EndlessLines(n) then 1.0 else 0.0)
  {
    Build(n, (i: nat, j: nat) requires i < n && j < n =>
      m[i][j] - (if Row(i) in EndlessLines(n) then 0.0 else 1.0) + (if Col(j) in EndlessLines(n) then 1.0 else 0.0))
  }

  lemma EndlessEntry(i: nat, j: nat)
    requires i < 7 && j < 7
    ensures Square(ENDLESS, 7) && Square(AFTER_ONE, 7)
    ensures AFTER_ONE[i][j]
         == ENDLESS[i][j] - (if FirstRow(i) then 0.0 else 1.0) + (if FirstCol(j) then 1.0 else 0.0)
    ensures !FirstRow(i) && !FirstCol(j) ==> ENDLESS[i][j] >= 1.0
    ensures ENDLESS[0][2] == 1.0
  {
    EndlessShift([Col(1), Col(6), Row(1), Row(6), Row(3), Row(5)], i, j);
  }

  lemma MovedEntry(n: nat, i: nat, j: nat)
    requires n >= 7 && i < n && j < n
    ensures Square(ENDLESS, 7) && Square(AFTER_ONE, 7)
    ensures
      var r := Moved(Pad(ENDLESS, 7, n, 2.0), n)[i][j];
      && (i < 7 && j < 7 ==> r == AFTER_ONE[i][j])
      && (i >= 7 || j >= 7 ==> if i == j then r == 0.0 else r > 0.0)
    ensures Row(i) !in EndlessLines(n) && Col(j) !in EndlessLines(n) ==> Pad(ENDLESS, 7, n, 2.0)[i][j] >= 1.0
  {
    EndlessEntry(if i < 7 then i else 0, if j < 7 then j else 0);
    hide Build, Pad, Moved, EndlessLines, Square;
    var m := Pad(ENDLESS, 7, n, 2.0);
    assert Moved(m, n)[i][j] == m[i][j] - (if FirstRow(i) then 0.0 else 1.0)
                                        + (if FirstCol(j) || 7 <= j then 1.0 else 0.0);
  }

  lemma MovedIsPadded(n: nat)
    requires n >= 7
    ensures Square(ENDLESS, 7) && Square(AFTER_ONE, 7)
    ensures Padded(Cells(AFTER_ONE, 7), 7, Cells(Moved(Pad(ENDLESS, 7, n, 2.0), n), n), n)
  {
    hide Build, Pad, Moved, EndlessLines;
    EndlessEntry(0, 0);
    forall i: nat, j: nat | i < n && j < n
      ensures Cells(Moved(Pad(ENDLESS, 7, n, 2.0), n), n)[i][j] == Fin(0.0)
         <==> (i < 7 && j < 7 && Cells(AFTER_ONE, 7)[i][j] == Fin(0.0)) || (i == j && i >= 7)
    {
      MovedEntry(n, i, j);
    }
  }

  lemma EndlessFacts()
    ensures Square(ENDLESS, 7) && NonNegative(ENDLESS, 7) && EveryLineHasZero(ENDLESS, 7)
    ensures HasZero(Cells(ENDLESS, 7), 7)
  {
    hide *;
    EndlessReduced();
    ReduceKeeps(ENDLESS, 7);
    FullHasZero(ENDLESS, 7);
  }

  lemma EndlessInput(n: nat)
    requires n >= 7
    ensures Square(ENDLESS, 7)
    ensures
      var input := Pad(ENDLESS, 7, n, 2.0);
      && Multiples(input, n, 1.0) && Reduce(input, n) == input && NonNegative(input, n)
      && Cover(Cells(input, n), n) == EndlessLines(n)
  {
    assert EndlessLines(n) == [Col(1), Col(6), Row(1), Row(6), Row(3), Row(5)] + ColsFrom(7, n);
    hide *;
    EndlessFacts();
    EndlessCover();
    WholeEntries();
    var input := Pad(ENDLESS, 7, n, 2.0);
    PadKeeps(ENDLESS, 7, n, 2.0);
    PadMultiples(ENDLESS, 7, n, 2);
    PaddedCover(Cells(ENDLESS, 7), 7, Cells(input, n), n);
  }

  lemma EndlessLeast(n: nat, i: nat, j: nat)
    requires n >= 7 && i < n && j < n
    ensures Square(ENDLESS, 7)
    ensures Crossings(EndlessLines(n), i, j) == 0 ==> Pad(ENDLESS, 7, n, 2.0)[i][j] >= 1.0
    ensures Crossings(EndlessLines(n), 0, 2) == 0 && Pad(ENDLESS, 7, n, 2.0)[0][2] == 1.0
  {
    hide Build, Pad, Moved, EndlessLines;
    EndlessEntry(0, 2);
    MovedEntry(n, i, j);
  }

  lemma PaddedFirstRound(n: nat)
    requires n >= 7
    ensures Square(ENDLESS, 7)
    ensures var input := Pad(ENDLESS, 7, n, 2.0); Round(input, n) == Some(Moved(input, n))
  {
    hide Build, Pad, Moved, EndlessLines, Cover, Cells, Round, Reduce, Multiples, NonNegative, Crossings, BothAxes;
    EndlessInput(n);
    var input := Pad(ENDLESS, 7, n, 2.0);
    forall i: nat, j: nat | i < n && j < n
      ensures Crossings(EndlessLines(n), i, j) == 0 ==> input[i][j] >= 1.0
    {
      EndlessLeast(n, i, j);
    }
    EndlessLeast(n, 0, 2);
    RoundByShift(input, Moved(input, n), n, EndlessLines(n), 1.0, 0, 2);
  }

  lemma MovedFacts(n: nat)
    requires n >= 7
    ensures Square(ENDLESS, 7)
    ensures
      var m := Moved(Pad(ENDLESS, 7, n, 2.0), n);
      && NonNegative(m, n) && HasZero(Cells(m, n), n)
      && Cover(Cells(m, n), n) == [Col(1), Col(2), Col(3), Col(5), Col(0), Col(4)] + ColsFrom(7, n)
  {
    hide *;
    EndlessInput(n);
    PaddedFirstRound(n);
    RoundKeeps(Pad(ENDLESS, 7, n, 2.0), n);
    var m := Moved(Pad(ENDLESS, 7, n, 2.0), n);
    AfterOneCover();
    MovedIsPadded(n);
    PaddedCover(Cells(AFTER_ONE, 7), 7, Cells(m, n), n);
    PaddedHasZero(Cells(AFTER_ONE, 7), 7, Cells(m, n), n);
  }

  lemma ColumnsButSix(lines: seq<Line>, n: nat)
    requires n >= 7 && lines == [Col(1), Col(2), Col(3), Col(5), Col(0), Col(4)] + ColsFrom(7, n)
    ensures AllColumnsBut(lines, n, 6)
  {
    hide ColsFrom;
    var a := [Col(1), Col(2), Col(3), Col(5), Col(0), Col(4)];
    forall l
      ensures l in lines <==> l in a || l in ColsFrom(7, n)
    {
    }
    forall l
      ensures l in a <==> l.Col? && l.index < 6
    {
      OneToFive(a, l);
    }
  }

  lemma OneToFive(a: seq<Line>, l: Line)
    requires a == [Col(1), Col(2), Col(3), Col(5), Col(0), Col(4)]
    ensures l in a <==> l.Col? && l.index < 6
  {
  }

  lemma PaddedSecondRound(n: nat)
    requires n >= 7
    ensures Square(ENDLESS, 7)
    ensures
      var m := Moved(Pad(ENDLESS, 7, n, 2.0), n);
      && Round(m, n).Some? && Round(Round(m, n).value, n) == Some(m)
  {
    hide *;
    MovedFacts(n);
    var m := Moved(Pad(ENDLESS, 7, n, 2.0), n);
    ColumnsButSix(Cover(Cells(m, n), n), n);
    ColumnRoundIsUndone(m, n, 6);
  }

  /** From size seven on there is an input on which the solver is still running after any number of rounds. */
  lemma EndlessFromSeven(n: nat, k: nat)
    requires n >= 7
    ensures Square(ENDLESS, 7) && Multiples(Pad(ENDLESS, 7, n, 2.0), n, 1.0)
    ensures Passes(Reduce(Pad(ENDLESS, 7, n, 2.0), n), n, k).Running?
  {
    hide Build, Pad, Moved, EndlessLines, Cover, Cells, Round, Reduce, Multiples, NonNegative;
    EndlessInput(n);
    PaddedFirstRound(n);
    PaddedSecondRound(n);
    var input := Pad(ENDLESS, 7, n, 2.0);
    var m := Moved(input, n);
    if k > 0 {
      TwoCycleNeverStops(m, Round(m, n).value, n, k - 1);
    }
  }

  // ------------------------------------------------- an assignment up to size three

  /** Zeros all along row r and column c, except perhaps where they cross, and nowhere else. */
  ghost predicate Cross(t: Grid<Cell>, n: nat, r: nat, c: nat)
    requires Square(t, n)
  {
    && r < n && c < n
    && forall i: nat, j: nat :: i < n && j < n && (i != r || j != c) ==> (t[i][j] == Fin(0.0) <==> i == r || j == c)
  }

  lemma BelowLess(n: nat, c: nat)
    requires c < n
    ensures |Below(n)| == n && |Below(n) - {c}| == n - 1
  {
  }

  lemma CrossZeros(t: Grid<Cell>, n: nat, r: nat, c: nat)
    requires Square(t, n) && Cross(t, n, r, c)
    ensures forall k: nat :: k < n && k != r ==> RowZeros(t, n, k) == {c}
    ensures forall k: nat :: k < n && k != c ==> ColZeros(t, n, k) == {r}
    ensures |RowZeros(t, n, r)| == |ColZeros(t, n, c)| >= n - 1
  {
    BelowLess(n, c);
    BelowLess(n, r);
    if t[r][c] == Fin(0.0) {
      assert RowZeros(t, n, r) == Below(n) && ColZeros(t, n, c) == Below(n);
    } else {
      assert RowZeros(t, n, r) == Below(n) - {c} && ColZeros(t, n, c) == Below(n) - {r};
    }
  }

  /** A cross is covered by its two lines. */
  lemma CrossCover(t: Grid<Cell>, n: nat, r: nat, c: nat)
    requires n >= 3 && Square(t, n) && Cross(t, n, r, c)
    ensures |Cover(t, n)| == 2
  {
    assert r < n && c < n;
    hide Cover, Pick, Strike, Build, RowZeros, ColZeros, Cross;
    CrossZeros(t, n, r, c);
    FullestColumn(t, n, r, c);
    FullestIsPicked(t, n, Col(c));
    CoverUnfoldsHere(t, n);
    var t' := Strike(t, n, Col(c));
    CrossStruck(t, n, r, c);
    OneRowCover(t', n, r, c);
  }

  lemma FullestColumn(t: Grid<Cell>, n: nat, r: nat, c: nat)
    requires n >= 3 && Square(t, n) && r < n && c < n
    requires forall k: nat :: k < n && k != r ==> RowZeros(t, n, k) == {c}
    requires forall k: nat :: k < n && k != c ==> ColZeros(t, n, k) == {r}
    requires |RowZeros(t, n, r)| == |ColZeros(t, n, c)| >= n - 1
    ensures Fullest(t, n, Col(c))
  {
    hide RowZeros, ColZeros;
    forall k: nat | k < n
      ensures |ColZeros(t, n, k)| <= |ColZeros(t, n, c)| && (k < c ==> |ColZeros(t, n, k)| < |ColZeros(t, n, c)|)
      ensures |RowZeros(t, n, k)| <= |ColZeros(t, n, c)|
    {
      assert k != c ==> ColZeros(t, n, k) == {r} && |ColZeros(t, n, k)| == 1;
      assert k != r ==> RowZeros(t, n, k) == {c} && |RowZeros(t, n, k)| == 1;
    }
  }

  lemma CrossStruck(t: Grid<Cell>, n: nat, r: nat, c: nat)
    requires n >= 3 && Square(t, n) && Cross(t, n, r, c)
    ensures forall i: nat, j: nat :: i < n && j < n ==> (Strike(t, n, Col(c))[i][j] == Fin(0.0) <==> i == r && j != c)
  {
    hide Build;
  }

  lemma FullestRow(t: Grid<Cell>, n: nat, r: nat)
    requires n >= 3 && Square(t, n) && r < n && |RowZeros(t, n, r)| >= 2
    requires forall k: nat :: k < n && k != r ==> RowZeros(t, n, k) == {}
    requires forall k: nat :: k < n ==> ColZeros(t, n, k) == {} || ColZeros(t, n, k) == {r}
    ensures Fullest(t, n, Row(r))
  {
    hide RowZeros, ColZeros;
    forall k: nat | k < n
      ensures |RowZeros(t, n, k)| <= |RowZeros(t, n, r)| && (k < r ==> |RowZeros(t, n, k)| < |RowZeros(t, n, r)|)
      ensures |ColZeros(t, n, k)| < |RowZeros(t, n, r)|
    {
      assert |ColZeros(t, n, k)| <= 1;
    }
  }

  lemma OneRowCover(t: Grid<Cell>, n: nat, r: nat, c: nat)
    requires n >= 3 && Square(t, n) && r < n && c < n
    requires forall i: nat, j: nat :: i < n && j < n ==> (t[i][j] == Fin(0.0) <==> i == r && j != c)
    ensures HasZero(t, n) && |Cover(t, n)| == 1
  {
    hide Cover, Pick, Strike, Build;
    BelowLess(n, c);
    assert RowZeros(t, n, r) == Below(n) - {c};
    forall k: nat | k < n
      ensures (k != r ==> RowZeros(t, n, k) == {}) && ColZeros(t, n, k) == (if k == c then {} else {r})
    {
    }
    FullestRow(t, n, r);
    FullestIsPicked(t, n, Row(r));
    CoverUnfoldsHere(t, n);
    assert t[r][if c == 0 then 1 else 0] == Fin(0.0);
  }

  /** Nine places, one taken at least in every row and column, hold three in distinct rows and columns or form a
      cross. */
  lemma NinePlaces(a: seq<bool>, b: seq<bool>, c: seq<bool>)
    requires |a| == |b| == |c| == 3
    requires (a[0] || a[1] || a[2]) && (b[0] || b[1] || b[2]) && (c[0] || c[1] || c[2])
    requires (a[0] || b[0] || c[0]) && (a[1] || b[1] || c[1]) && (a[2] || b[2] || c[2])
    requires forall i: nat, j: nat, k: nat :: i < 3 && j < 3 && k < 3 && i != j && j != k && i != k ==>
               !(a[i] && b[j] && c[k])
    ensures exists r: nat, s: nat :: r < 3 && s < 3 && CrossOf([a, b, c], r, s)
  {
    assert !(a[0] && b[1] && c[2]) && !(a[0] && b[2] && c[1]) && !(a[1] && b[0] && c[2]);
    assert !(a[1] && b[2] && c[0]) && !(a[2] && b[0] && c[1]) && !(a[2] && b[1] && c[0]);
    assert CrossOf([a, b, c], 0, 0) || CrossOf([a, b, c], 0, 1) || CrossOf([a, b, c], 0, 2) ||
           CrossOf([a, b, c], 1, 0) || CrossOf([a, b, c], 1, 1) || CrossOf([a, b, c], 1, 2) ||
           CrossOf([a, b, c], 2, 0) || CrossOf([a, b, c], 2, 1) || CrossOf([a, b, c], 2, 2);
  }

  ghost predicate CrossOf(z: seq<seq<bool>>, r: nat, s: nat) {
    && |z| == 3 && |z[0]| == |z[1]| == |z[2]| == 3
    && forall i: nat, j: nat :: i < 3 && j < 3 && (i != r || j != s) ==> (z[i][j] <==> i == r || j == s)
  }

  function ZeroTable(m: Matrix): (z: seq<seq<bool>>)
    requires Square(m, 3)
    ensures |z| == 3 && |z[0]| == |z[1]| == |z[2]| == 3
    ensures forall i: nat, j: nat :: i < 3 && j < 3 ==> (z[i][j] <==> m[i][j] == 0.0)
  {
    seq(3, i requires 0 <= i < 3 => seq(3, j requires 0 <= j < 3 => m[i][j] == 0.0))
  }

  lemma CrossOfZeros(m: Matrix, r: nat, c: nat)
    requires Square(m, 3) && r < 3 && c < 3 && CrossOf(ZeroTable(m), r, c)
    ensures Cross(Cells(m, 3), 3, r, c)
  {
    hide Build, ZeroTable;
  }

  lemma AssignableOrCross(m: Matrix) returns (r: nat, c: nat)
    requires Square(m, 3) && EveryLineHasZero(m, 3) && !Assignable(m, 3)
    ensures Cross(Cells(m, 3), 3, r, c)
  {
    hide ZeroTable, Cross, CrossOf, Build;
    var z := ZeroTable(m);
    forall k: nat | k < 3
      ensures (z[k][0] || z[k][1] || z[k][2]) && (z[0][k] || z[1][k] || z[2][k])
    {
      assert RowHasZero(m, 3, k) && ColHasZero(m, 3, k);
    }
    forall i: nat, j: nat, k: nat | i < 3 && j < 3 && k < 3 && i != j && j != k && i != k
      ensures !(z[0][i] && z[1][j] && z[2][k])
    {
      assert !Completes(m, 3, 0, {}, [i, j, k]);
    }
    NinePlaces(z[0], z[1], z[2]);
    assert z == [z[0], z[1], z[2]];
    r, c :| r < 3 && c < 3 && CrossOf(z, r, c);
    CrossOfZeros(m, r, c);
  }

  lemma AssignableUpToTwo(m: Matrix, n: nat)
    requires 0 < n <= 2 && Square(m, n) && EveryLineHasZero(m, n)
    ensures Assignable(m, n)
  {
    assert RowHasZero(m, n, 0) && RowHasZero(m, n, n - 1) && ColHasZero(m, n, 0) && ColHasZero(m, n, n - 1);
    if n == 1 {
      assert Completes(m, n, 0, {}, [0]);
    } else if m[0][0] == 0.0 && m[1][1] == 0.0 {
      assert Completes(m, n, 0, {}, [0, 1]);
    } else {
      assert Completes(m, n, 0, {}, [1, 0]);
    }
  }

  /** Up to size three a run that stops has an assignment. */
  lemma StopsAssignable(m: Matrix, n: nat)
    requires 0 < n <= 3 && Square(m, n) && EveryLineHasZero(m, n) && Round(m, n).None?
    ensures Assignable(m, n)
  {
    hide Assignable, Cells, Cover;
    if n <= 2 {
      AssignableUpToTwo(m, n);
    } else if !Assignable(m, n) {
      var r, c := AssignableOrCross(m);
      CrossCover(Cells(m, n), n, r, c);
    }
  }

  // ------------------------------------------------------------- exactly how far

  ghost predicate Commensurable(input: Matrix, n: nat)
    requires Square(input, n)
  {
    exists unit :: Multiples(input, n, unit)
  }

  ghost predicate FindsAssignment(input: Matrix, n: nat)
    requires n > 0 && Square(input, n)
  {
    exists k: nat :: Matches(Reduce(input, n), n, k)
  }

  /** On matrices of size one and two the first pass stops, with an assignment. */
  lemma StopsAtOnce(input: Matrix, n: nat)
    requires 0 < n <= 2 && Square(input, n)
    ensures Round(Reduce(input, n), n) == None && Assignable(Reduce(input, n), n)
  {
    hide *;
    ReduceKeeps(input, n);
    AssignableUpToTwo(Reduce(input, n), n);
    AssignableStops(Reduce(input, n), n);
  }

  /** The solver ends on all inputs of a size exactly up to size six. */
  lemma EndsExactlyUpToSix(n: nat)
    requires n > 0
    ensures (forall input :: Square(input, n) && Commensurable(input, n) ==> Stops(Reduce(input, n), n)) <==> n <= 6
  {
    hide Build, Pad, Reduce, Passes, Multiples, EveryLineHasZero;
    if n <= 6 {
      forall input | Square(input, n) && Commensurable(input, n)
        ensures Stops(Reduce(input, n), n)
      {
        var unit :| Multiples(input, n, unit);
        var k := EndsUpToSix(input, n, unit);
      }
    } else {
      EndlessFromSeven(n, 0);
      var input := Pad(ENDLESS, 7, n, 2.0);
      forall k: nat
        ensures !Passes(Reduce(input, n), n, k).Stopped?
      {
        EndlessFromSeven(n, k);
      }
      assert Commensurable(input, n) && !Stops(Reduce(input, n), n);
    }
  }

  lemma {:induction false} StoppedRound(m: Matrix, n: nat, k: nat)
    requires n > 0 && Square(m, n) && Passes(m, n, k).Stopped?
    ensures Round(Passes(m, n, k).matrix, n) == None
    decreases k
  {
    hide Round;
    if Round(m, n).Some? {
      StoppedRound(Round(m, n).value, n, k - 1);
    }
  }

  lemma FindsWhenMatched(input: Matrix, n: nat, k: nat)
    requires n > 0 && Square(input, n)
    requires Passes(Reduce(input, n), n, k).Stopped? && Assignable(Passes(Reduce(input, n), n, k).matrix, n)
    ensures FindsAssignment(input, n)
  {
    hide Passes, Reduce, Assignable;
    assert Matches(Reduce(input, n), n, k);
  }

  lemma FindsUpToThree(input: Matrix, n: nat, unit: real)
    requires 0 < n <= 3 && Square(input, n) && Multiples(input, n, unit)
    ensures FindsAssignment(input, n)
  {
    hide *;
    var k := EndsUpToSix(input, n, unit);
    StoppedRound(Reduce(input, n), n, k);
    StopsAssignable(Passes(Reduce(input, n), n, k).matrix, n);
    FindsWhenMatched(input, n, k);
  }

  lemma MissesFromFour(n: nat)
    requires n >= 4
    ensures Square(UNMATCHED, 4) && Multiples(Pad(UNMATCHED, 4, n, 1.0), n, 1.0)
    ensures !FindsAssignment(Pad(UNMATCHED, 4, n, 1.0), n)
  {
    hide Build, Pad, Reduce, Passes, Multiples, Assignable;
    UnmatchedFromFour(n);
    var input := Pad(UNMATCHED, 4, n, 1.0);
    forall k: nat
      ensures !Matches(Reduce(input, n), n, k)
    {
      StaysStopped(Reduce(input, n), n, k);
    }
  }

  lemma StoppedFirst(m: Matrix, n: nat)
    requires n > 0 && Square(m, n)
    ensures Passes(m, n, 1).Stopped? <==> Round(m, n).None?
  {
    hide Round;
  }

  lemma StaysStopped(m: Matrix, n: nat, k: nat)
    requires n > 0 && Square(m, n) && Passes(m, n, 1) == Stopped(m)
    ensures Passes(m, n, k).matrix == m
  {
    StoppedFirst(m, n);
    hide Round;
  }

  /** The solver finds an assignment for all inputs of a size exactly up to size three. */
  lemma FindsExactlyUpToThree(n: nat)
    requires n > 0
    ensures (forall input :: Square(input, n) && Commensurable(input, n) ==> FindsAssignment(input, n)) <==> n <= 3
  {
    hide Build, Pad, Reduce, Passes, Multiples, FindsAssignment;
    if n <= 3 {
      forall input | Square(input, n) && Commensurable(input, n)
        ensures FindsAssignment(input, n)
      {
        var unit :| Multiples(input, n, unit);
        FindsUpToThree(input, n, unit);
      }
    } else {
      MissesFromFour(n);
      assert Commensurable(Pad(UNMATCHED, 4, n, 1.0), n);
    }
  }
}
