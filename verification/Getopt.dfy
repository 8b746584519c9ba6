/** Argument scanning of tool/getopt.c: short options, in the mode that permutes the arguments so that the
    options come first. The specification reads the original arguments once, left to right; the class keeps
    the source's indices across calls and rotates the array in place. */
module Getopt {
  import opened Basics

  // -------------------------------------------------------------------- option letters

  datatype Kind = Unknown | Plain | Optional | Required

  /** Position of a character in a string, or its length. */
  function Position(c: char, s: string): (k: nat)
    ensures k <= |s| && (k < |s| ==> s[k] == c)
  {
    if s == "" || s[0] == c then 0 else 1 + Position(c, s[1..])
  }

  predicate ColonAt(s: string, k: nat) {
    k < |s| && s[k] == ':'
  }

  function KindOf(c: char, opts: string): Kind {
    var k := Position(c, opts);
    if k == |opts| || c == ':' then Unknown
    else if !ColonAt(opts, k + 1) then Plain
    else if ColonAt(opts, k + 2) then Optional
    else Required
  }

  // -------------------------------------------------------------------- one reading of the arguments

  /** What one call reports: the character returned, the argument and, for an error, the offending option. */
  datatype Found = Found(c: char, arg: Option<string>, culprit: Option<char>)

  /** A report, with the characters of the current element and the elements that are then left. The current
      element is the first of the elements as long as it has characters left. */
  datatype Move = Move(found: Found, cur: string, args: seq<string>)

  predicate NonOption(e: string) {
    |e| < 2 || e[0] != '-'
  }

  function MissingCode(opts: string): char {
    if ColonAt(opts, 0) then ':' else '?'
  }

  function Letter(cur: string, args: seq<string>, opts: string): (m: Move)
    requires cur != "" && args != []
    ensures |m.args| < |args| || (m.args == args && m.cur != "" && |m.cur| < |cur|)
    ensures m.cur != "" ==> m.args == args
  {
    var c, tail := cur[0], cur[1..];
    var after := if tail == "" then args[1..] else args;
    match KindOf(c, opts)
    case Unknown => Move(Found('?', None, Some(c)), tail, after)
    case Plain => Move(Found(c, None, None), tail, after)
    case Optional => Move(Found(c, if tail == "" then None else Some(tail), None), "", args[1..])
    case Required =>
      if tail != "" then Move(Found(c, Some(tail), None), "", args[1..])
      else if |args| == 1 then Move(Found(MissingCode(opts), None, Some(c)), "", args[1..])
      else Move(Found(c, Some(args[1]), None), "", args[2..])
  }

  function WithoutNonoptions(args: seq<string>): (rest: seq<string>)
    ensures rest != [] ==> !NonOption(rest[0])
  {
    if args != [] && NonOption(args[0]) then WithoutNonoptions(args[1..]) else args
  }

  /** The next report, skipping non-options; none at the end or at the element "--". */
  function Next(cur: string, args: seq<string>, opts: string): Option<Move>
    requires cur != "" ==> args != []
  {
    if cur != "" then Some(Letter(cur, args, opts))
    else
      var rest := WithoutNonoptions(args);
      if rest == [] || rest[0] == "--" then None else Some(Letter(rest[0][1..], rest, opts))
  }

  /** The arguments told apart: option elements with the elements they take as arguments and "--", the
      non-options before "--", and everything after it. */
  datatype Sorting = Sorting(options: seq<string>, skipped: seq<string>, rest: seq<string>)

  function Sorted(cur: string, args: seq<string>, opts: string): Sorting
    requires cur != "" ==> args != []
    decreases |args|, if cur == "" then 1 else 0, |cur|
  {
    if cur != "" then
      var m := Letter(cur, args, opts);
      After(args[..|args| - |m.args|], [], Sorted(m.cur, m.args, opts))
    else if args == [] then Sorting([], [], [])
    else if args[0] == "--" then Sorting(["--"], [], args[1..])
    else if NonOption(args[0]) then After([], [args[0]], Sorted("", args[1..], opts))
    else Sorted(args[0][1..], args, opts)
  }

  function After(options: seq<string>, skipped: seq<string>, s: Sorting): Sorting {
    Sorting(options + s.options, skipped + s.skipped, s.rest)
  }

  /** Every character returned, with its argument, in order. */
  function Reports(cur: string, args: seq<string>, opts: string): seq<(char, Option<string>)>
    requires cur != "" ==> args != []
    decreases |args|, if cur == "" then 1 else 0, |cur|
  {
    if cur != "" then
      var m := Letter(cur, args, opts);
      [(m.found.c, m.found.arg)] + Reports(m.cur, m.args, opts)
    else if args == [] || args[0] == "--" then []
    else if NonOption(args[0]) then Reports("", args[1..], opts)
    else Reports(args[0][1..], args, opts)
  }

  lemma {:induction false} NextReports(cur: string, args: seq<string>, opts: string)
    requires cur != "" ==> args != []
    ensures
      match Next(cur, args, opts)
      case None => Reports(cur, args, opts) == []
      case Some(m) =>
        && (m.cur != "" ==> m.args != [])
        && Reports(cur, args, opts) == [(m.found.c, m.found.arg)] + Reports(m.cur, m.args, opts)
        && Less(m.cur, m.args, cur, args)
    decreases |args|
  {
    hide Letter;
    if cur == "" && args != [] && NonOption(args[0]) {
      NextReports("", args[1..], opts);
    }
  }

  // -------------------------------------------------------------------- what the option string says

  /** The first character of an element's rest, read by the option string: at its first place there, a colon behind
      it says that the option has an argument, and a second one that the argument may be missing. */
  ghost predicate Stands(opts: string, cur: string, args: seq<string>, m: Move)
    requires cur != "" && args != []
  {
    var x, tail := cur[0], cur[1..];
    if x == ':' || x !in opts then
      m == Move(Found('?', None, Some(x)), tail, if tail == "" then args[1..] else args)
    else
      exists k: nat :: k < |opts| && opts[k] == x && x !in opts[..k] && StandsAt(opts, k, tail, args, m)
  }

  predicate StandsAt(opts: string, k: nat, tail: string, args: seq<string>, m: Move)
    requires k < |opts| && args != []
  {
    var x := opts[k];
    if k + 1 == |opts| || opts[k + 1] != ':' then
      m == Move(Found(x, None, None), tail, if tail == "" then args[1..] else args)
    else if tail != "" then
      m == Move(Found(x, Some(tail), None), "", args[1..])
    else if k + 2 < |opts| && opts[k + 2] == ':' then
      m == Move(Found(x, None, None), "", args[1..])
    else if |args| == 1 then
      m == Move(Found(if opts[0] == ':' then ':' else '?', None, Some(x)), "", [])
    else
      m == Move(Found(x, Some(args[1]), None), "", args[2..])
  }

  /** An element with option syntax. */
  predicate Dashed(e: string) {
    |e| >= 2 && e[0] == '-'
  }

  /** What a call gives: the elements without option syntax are passed by, up to the end or "--". */
  ghost predicate Gives(opts: string, cur: string, args: seq<string>, next: Option<Move>)
    requires cur != "" ==> args != []
  {
    if cur != "" then next.Some? && Stands(opts, cur, args, next.value)
    else
      exists k: nat ::
        && k <= |args| && PassedBy(args, k)
        && if k == |args| || args[k] == "--" then next == None
           else Dashed(args[k]) && next.Some? && Stands(opts, args[k][1..], args[k..], next.value)
  }

  predicate PassedBy(args: seq<string>, k: nat)
    requires k <= |args|
  {
    forall j :: 0 <= j < k ==> !Dashed(args[j])
  }

  lemma {:induction false} PositionIsFirst(c: char, s: string)
    ensures Position(c, s) == |s| <==> c !in s
    ensures c !in s[..Position(c, s)]
  {
    if s != "" && s[0] != c {
      PositionIsFirst(c, s[1..]);
      var k := Position(c, s);
      assert s == [s[0]] + s[1..] && s[..k] == [s[0]] + s[1..][..k - 1];
    }
  }

  /** The reading of the model is that of the option string. */
  lemma LetterStands(cur: string, args: seq<string>, opts: string)
    requires cur != "" && args != []
    ensures Stands(opts, cur, args, Letter(cur, args, opts))
  {
    hide Position;
    PositionIsFirst(cur[0], opts);
    assert |args| == 1 ==> args[1..] == [];
    var k := Position(cur[0], opts);
    assert k < |opts| && cur[0] != ':' ==> StandsAt(opts, k, cur[1..], args, Letter(cur, args, opts));
  }

  lemma {:induction false} PassesBy(args: seq<string>) returns (k: nat)
    ensures k <= |args| && PassedBy(args, k) && WithoutNonoptions(args) == args[k..]
    ensures k < |args| ==> Dashed(args[k])
    ensures forall opts :: Sorted("", args, opts) == After([], args[..k], Sorted("", args[k..], opts))
    ensures forall opts :: Reports("", args, opts) == Reports("", args[k..], opts)
  {
    hide Letter;
    k := 0;
    assert args[0..] == args;
    if args != [] && NonOption(args[0]) {
      var rest := args[1..];
      k := PassesBy(rest);
      assert rest[k..] == args[k + 1..] && args[..k + 1] == [args[0]] + rest[..k];
      forall opts
        ensures Sorted("", args, opts) == After([], args[..k + 1], Sorted("", args[k + 1..], opts))
      {
        var t := Sorted("", args[k + 1..], opts);
        assert [] + ([] + t.options) == [] + t.options;
        assert [args[0]] + (rest[..k] + t.skipped) == args[..k + 1] + t.skipped;
      }
      forall j | 0 <= j < k + 1
        ensures !Dashed(args[j])
      {
        assert j > 0 ==> args[j] == rest[j - 1];
      }
      k := k + 1;
    } else {
      forall opts
        ensures Sorted("", args, opts) == After([], [], Sorted("", args, opts))
      {
        var t := Sorted("", args, opts);
        assert [] + t.options == t.options && [] + t.skipped == t.skipped;
      }
      assert args[..0] == [];
    }
  }

  lemma NextGives(cur: string, args: seq<string>, opts: string)
    requires cur != "" ==> args != []
    ensures Gives(opts, cur, args, Next(cur, args, opts))
  {
    hide Letter, Stands, Sorted, Reports;
    if cur != "" {
      LetterStands(cur, args, opts);
    } else {
      var k := PassesBy(args);
      if k < |args| && args[k] != "--" {
        LetterStands(args[k][1..], args[k..], opts);
      }
    }
  }

  /** A whole reading: what is reported, and how the elements are told apart. */
  ghost predicate Reading(opts: string, cur: string, args: seq<string>, seen: seq<(char, Option<string>)>, s: Sorting)
    requires cur != "" ==> args != []
    decreases |seen|, 2
  {
    if cur != "" then ReadingOn(opts, cur, args, [], seen, s)
    else exists k: nat :: k <= |args| && ReadingPast(opts, args, k, seen, s)
  }

  /** The first k elements are passed by. */
  ghost predicate ReadingPast(opts: string, args: seq<string>, k: nat, seen: seq<(char, Option<string>)>, s: Sorting)
    requires k <= |args|
    decreases |seen|, 1
  {
    && PassedBy(args, k)
    && if k == |args| then seen == [] && s == Sorting([], args, [])
       else if args[k] == "--" then seen == [] && s == Sorting(["--"], args[..k], args[k + 1..])
       else Dashed(args[k]) && ReadingOn(opts, args[k][1..], args[k..], args[..k], seen, s)
  }

  /** A report, and the reading of what it leaves; the elements it takes join the options. */
  ghost predicate ReadingOn(opts: string, cur: string, args: seq<string>, skipped: seq<string>,
                            seen: seq<(char, Option<string>)>, s: Sorting)
    requires cur != "" && args != []
    decreases |seen|, 0
  {
    && seen != []
    && exists m: Move, t: Sorting ::
         && Stands(opts, cur, args, m) && seen[0] == (m.found.c, m.found.arg)
         && |m.args| <= |args| && (m.cur != "" ==> m.args != [])
         && Reading(opts, m.cur, m.args, seen[1..], t)
         && s == Sorting(args[..|args| - |m.args|] + t.options, skipped + t.skipped, t.rest)
  }

  lemma OnHolds(cur: string, args: seq<string>, skipped: seq<string>, opts: string)
    requires cur != "" && args != []
    requires
      var m := Letter(cur, args, opts);
      Reading(opts, m.cur, m.args, Reports(m.cur, m.args, opts), Sorted(m.cur, m.args, opts))
    ensures ReadingOn(opts, cur, args, skipped, Reports(cur, args, opts), After([], skipped, Sorted(cur, args, opts)))
  {
    hide Letter, Stands, Reading;
    LetterStands(cur, args, opts);
    var m := Letter(cur, args, opts);
    var t := Sorted(m.cur, m.args, opts);
    var p := args[..|args| - |m.args|];
    assert [] + (p + t.options) == p + t.options && skipped + ([] + t.skipped) == skipped + t.skipped;
    assert Reports(cur, args, opts)[1..] == Reports(m.cur, m.args, opts);
  }

  /** The reports and the sorting of the model are those of a reading. */
  lemma {:induction false} ReadingHolds(cur: string, args: seq<string>, opts: string)
    requires cur != "" ==> args != []
    ensures Reading(opts, cur, args, Reports(cur, args, opts), Sorted(cur, args, opts))
    decreases |args|, if cur == "" then 1 else 0, |cur|
  {
    hide Letter, Stands, ReadingOn;
    if cur != "" {
      var m := Letter(cur, args, opts);
      ReadingHolds(m.cur, m.args, opts);
      OnHolds(cur, args, [], opts);
      NothingSkipped(Sorted(cur, args, opts));
    } else {
      var k := PassesBy(args);
      if k == |args| {
        assert args[k..] == [] && args[..k] + [] == args;
        assert Sorted("", args, opts) == Sorting([], args, []) && Reports("", args, opts) == [];
      } else if args[k] == "--" {
        assert args[k..][0] == "--" && args[k..][1..] == args[k + 1..] && args[..k] + [] == args[..k];
        assert Sorted("", args, opts) == Sorting(["--"], args[..k], args[k + 1..]) && Reports("", args, opts) == [];
      } else {
        var first := args[k][1..];
        assert args[k..][0] == args[k];
        var m := Letter(first, args[k..], opts);
        ReadingHolds(m.cur, m.args, opts);
        OnHolds(first, args[k..], args[..k], opts);
      }
      assert ReadingPast(opts, args, k, Reports("", args, opts), Sorted("", args, opts));
    }
  }

  lemma NothingSkipped(s: Sorting)
    ensures After([], [], s) == s
  {
    assert [] + s.options == s.options && [] + s.skipped == s.skipped;
  }

  /** Less is left to read. */
  predicate Less(cur: string, args: seq<string>, oldCur: string, oldArgs: seq<string>) {
    |args| < |oldArgs| || (args == oldArgs && cur != "" && (oldCur == "" || |cur| < |oldCur|))
  }

  /** z holds x and y, each in its own order. */
  ghost predicate Interleaved(x: seq<string>, y: seq<string>, z: seq<string>)
    decreases |z|
  {
    if z == [] then x == [] && y == []
    else
      || (x != [] && x[0] == z[0] && Interleaved(x[1..], y, z[1..]))
      || (y != [] && y[0] == z[0] && Interleaved(x, y[1..], z[1..]))
  }

  lemma {:induction false} InterleavedLeft(p: seq<string>, x: seq<string>, y: seq<string>, z: seq<string>)
    requires Interleaved(x, y, z)
    ensures Interleaved(p + x, y, p + z)
    decreases |p|
  {
    if p == [] {
      assert p + x == x && p + z == z;
    } else {
      InterleavedLeft(p[1..], x, y, z);
      assert (p + x)[1..] == p[1..] + x && (p + z)[1..] == p[1..] + z;
    }
  }

  lemma {:induction false} InterleavedKeepsElements(x: seq<string>, y: seq<string>, z: seq<string>)
    requires Interleaved(x, y, z)
    ensures multiset(x) + multiset(y) == multiset(z)
    decreases |z|
  {
    if z != [] {
      assert z == [z[0]] + z[1..];
      if x != [] && x[0] == z[0] && Interleaved(x[1..], y, z[1..]) {
        InterleavedKeepsElements(x[1..], y, z[1..]);
        assert x == [x[0]] + x[1..];
      } else {
        InterleavedKeepsElements(x, y[1..], z[1..]);
        assert y == [y[0]] + y[1..];
      }
    }
  }

  /** Whether the sorting tells apart the elements scanned, with the rest after them. */
  ghost predicate TellsApart(s: Sorting, scanned: seq<string>, args: seq<string>) {
    args == scanned + s.rest && Interleaved(s.options, s.skipped, scanned)
  }

  lemma OptionsFirst(p: seq<string>, t: Sorting, scanned: seq<string>, args: seq<string>)
    requires TellsApart(t, scanned, args)
    ensures TellsApart(After(p, [], t), p + scanned, p + args)
  {
    InterleavedLeft(p, t.options, t.skipped, scanned);
    assert [] + t.skipped == t.skipped;
    assert p + args == p + scanned + t.rest;
  }

  lemma SkippedFirst(e: string, t: Sorting, scanned: seq<string>, args: seq<string>)
    requires TellsApart(t, scanned, args)
    ensures TellsApart(After([], [e], t), [e] + scanned, [e] + args)
  {
    InterleavedRight(e, t.options, t.skipped, scanned);
    assert [] + t.options == t.options;
    assert [e] + args == [e] + scanned + t.rest;
  }

  lemma EndTellsApart(rest: seq<string>)
    ensures TellsApart(Sorting([], [], []), [], [])
    ensures TellsApart(Sorting(["--"], [], rest), ["--"], ["--"] + rest)
  {
    OneInterleaved("--");
  }

  /** Telling the arguments apart keeps the order on both sides, and the rest is their end. */
  lemma {:induction false} SortedKeepsOrder(cur: string, args: seq<string>, opts: string) returns (scanned: seq<string>)
    requires cur != "" ==> args != []
    ensures TellsApart(Sorted(cur, args, opts), scanned, args)
    decreases |args|, if cur == "" then 1 else 0, |cur|
  {
    hide Letter, TellsApart, After;
    if cur != "" {
      var m := Letter(cur, args, opts);
      LetterTakesPrefix(cur, args, opts);
      var more := SortedKeepsOrder(m.cur, m.args, opts);
      var p := args[..|args| - |m.args|];
      OptionsFirst(p, Sorted(m.cur, m.args, opts), more, m.args);
      scanned := p + more;
    } else if args == [] {
      EndTellsApart([]);
      scanned := [];
    } else {
      assert args == [args[0]] + args[1..];
      if args[0] == "--" {
        EndTellsApart(args[1..]);
        scanned := ["--"];
      } else if NonOption(args[0]) {
        var more := SortedKeepsOrder("", args[1..], opts);
        SkippedFirst(args[0], Sorted("", args[1..], opts), more, args[1..]);
        scanned := [args[0]] + more;
      } else {
        scanned := SortedKeepsOrder(args[0][1..], args, opts);
      }
    }
  }

  lemma LetterTakesPrefix(cur: string, args: seq<string>, opts: string)
    requires cur != "" && args != []
    ensures
      var m := Letter(cur, args, opts);
      args == args[..|args| - |m.args|] + m.args
  {
  }

  lemma OneInterleaved(e: string)
    ensures Interleaved([e], [], [e])
  {
    assert [e][1..] == [];
  }

  lemma InterleavedRight(e: string, x: seq<string>, y: seq<string>, z: seq<string>)
    requires Interleaved(x, y, z)
    ensures Interleaved(x, [e] + y, [e] + z)
  {
    assert ([e] + y)[1..] == y && ([e] + z)[1..] == z;
  }

  /** What is done so far, with the sorting of what remains, is the sorting of all the arguments. */
  ghost predicate Progress(all: seq<string>, options: seq<string>, skipped: seq<string>, cur: string,
                           args: seq<string>, opts: string) {
    && (cur != "" ==> args != [])
    && Sorted("", all, opts) == After(options, skipped, Sorted(cur, args, opts))
  }

  lemma SkippingProgresses(all: seq<string>, options: seq<string>, skipped: seq<string>, args: seq<string>,
                           opts: string)
    requires args != [] && NonOption(args[0]) && Progress(all, options, skipped, "", args, opts)
    ensures Progress(all, options, skipped + [args[0]], "", args[1..], opts)
  {
    var t := Sorted("", args[1..], opts);
    assert skipped + ([args[0]] + t.skipped) == skipped + [args[0]] + t.skipped;
    assert options + ([] + t.options) == options + t.options;
  }

  // -------------------------------------------------------------------- rotation

  /** The array with the segments [bottom, middle) and [middle, top) exchanged. */
  function Exchanged(a: seq<string>, bottom: nat, middle: nat, top: nat): seq<string>
    requires bottom <= middle <= top <= |a|
  {
    a[..bottom] + a[middle..top] + a[bottom..middle] + a[top..]
  }

  /** b is a with the equally long blocks at x and y exchanged. */
  ghost predicate Swapped(a: seq<string>, b: seq<string>, x: nat, y: nat, len: nat) {
    && |a| == |b| && x + len <= y && y + len <= |a|
    && b == a[..x] + a[y..y + len] + a[x + len..y] + a[x..x + len] + a[y + len..]
  }

  lemma ShortBottom(a: seq<string>, b: seq<string>, bottom: nat, middle: nat, top: nat)
    requires bottom <= middle <= top <= |a| && middle - bottom < top - middle
    requires Swapped(a, b, bottom, top - (middle - bottom), middle - bottom)
    ensures Exchanged(b, bottom, middle, top - (middle - bottom)) == Exchanged(a, bottom, middle, top)
  {
    var len := middle - bottom;
    assert b[..bottom] == a[..bottom];
    assert b[middle..top - len] == a[middle..top - len];
    assert b[bottom..middle] == a[top - len..top];
    assert b[top - len..] == a[bottom..middle] + a[top..];
    assert a[middle..top] == a[middle..top - len] + a[top - len..top];
  }

  lemma ShortTop(a: seq<string>, b: seq<string>, bottom: nat, middle: nat, top: nat)
    requires bottom <= middle <= top <= |a| && top - middle <= middle - bottom
    requires Swapped(a, b, bottom, middle, top - middle)
    ensures Exchanged(b, bottom + (top - middle), middle, top) == Exchanged(a, bottom, middle, top)
  {
    var len := top - middle;
    assert b[..bottom + len] == a[..bottom] + a[middle..top];
    assert b[middle..top] == a[bottom..bottom + len];
    assert b[bottom + len..middle] == a[bottom + len..middle];
    assert b[top..] == a[top..];
    assert a[bottom..middle] == a[bottom..bottom + len] + a[bottom + len..middle];
  }

  /** The first `done` entries of two blocks of b are exchanged, the rest is as in a. */
  ghost predicate Swapping(a: seq<string>, b: seq<string>, x: nat, y: nat, done: nat) {
    && |a| == |b| && x + done <= y && y + done <= |a|
    && (forall k :: 0 <= k < |a| ==>
          b[k] == a[if x <= k < x + done then k + (y - x) else if y <= k < y + done then k - (y - x) else k])
  }

  lemma SwappingSwaps(a: seq<string>, b: seq<string>, x: nat, y: nat, len: nat)
    requires Swapping(a, b, x, y, len)
    ensures Swapped(a, b, x, y, len)
  {
    var c := a[..x] + a[y..y + len] + a[x + len..y] + a[x..x + len] + a[y + len..];
    assert |b| == |c| && forall k :: 0 <= k < |b| ==> b[k] == c[k];
  }

  lemma SwappingStarts(a: seq<string>, x: nat, y: nat)
    requires x <= y <= |a|
    ensures Swapping(a, a, x, y, 0)
  {
  }

  lemma SwappingGoesOn(a: seq<string>, b: seq<string>, c: seq<string>, x: nat, y: nat, i: nat)
    requires Swapping(a, b, x, y, i) && x + i + 1 <= y && y + i + 1 <= |a|
    requires c == b[x + i := b[y + i]][y + i := b[x + i]]
    ensures Swapping(a, c, x, y, i + 1)
  {
  }

  /** The swapping loop of both branches of `exchange`. */
  method SwapBlocks(argv: array<string>, x: nat, y: nat, len: nat)
    requires x + len <= y && y + len <= argv.Length
    modifies argv
    ensures Swapped(old(argv[..]), argv[..], x, y, len)
  {
    hide Swapping, Swapped;
    ghost var was := argv[..];
    SwappingStarts(was, x, y);
    for i := 0 to len
      invariant Swapping(was, argv[..], x, y, i)
    {
      ghost var before := argv[..];
      var tem := argv[x + i];
      argv[x + i] := argv[y + i];
      argv[y + i] := tem;
      SwappingGoesOn(was, before, argv[..], x, y, i);
    }
    SwappingSwaps(was, argv[..], x, y, len);
  }

  /** The loop of `exchange`: the shorter segment is swapped with the far end of the longer one until one of
      them is used up. */
  method Rotate(argv: array<string>, first: nat, last: nat, next: nat)
    requires first <= last <= next <= argv.Length
    modifies argv
    ensures argv[..] == Exchanged(old(argv[..]), first, last, next)
  {
    hide Exchanged, Swapped;
    ghost var goal := Exchanged(argv[..], first, last, next);
    var bottom: nat, middle: nat, top: nat := first, last, next;
    while top > middle && middle > bottom
      invariant bottom <= middle <= top <= argv.Length
      invariant Exchanged(argv[..], bottom, middle, top) == goal
      decreases top - bottom
    {
      ghost var was := argv[..];
      if top - middle > middle - bottom {
        var len := middle - bottom;
        SwapBlocks(argv, bottom, top - (middle - bottom), len);
        ShortBottom(was, argv[..], bottom, middle, top);
        top := top - len;
      } else {
        var len := top - middle;
        SwapBlocks(argv, bottom, middle, len);
        ShortTop(was, argv[..], bottom, middle, top);
        bottom := bottom + len;
      }
    }
    NothingToExchange(argv[..], bottom, middle, top);
  }

  // -------------------------------------------------------------------- the scanner

  /** The array holds what stood before the scan, the options, the non-options and the rest; k is where the
      latter two begin. */
  ghost predicate Ended(original: seq<string>, base: nat, a: seq<string>, k: int, opts: string) {
    && base <= |original| == |a|
    && var s := Sorted("", original[base..], opts);
    && a == original[..base] + s.options + s.skipped + s.rest
    && k == base + |s.options|
  }

  lemma LaidOut(original: seq<string>, base: nat, a: seq<string>, first: nat, next: nat,
                options: seq<string>, skipped: seq<string>, rest: seq<string>, opts: string)
    requires |original| == |a| && base <= first <= next <= |a| && a[..base] == original[..base]
    requires Sorted("", original[base..], opts) == Sorting(options, skipped, rest)
    requires a[base..first] == options && a[first..next] == skipped && a[next..] == rest
    ensures Ended(original, base, a, first, opts)
  {
    hide Sorted;
    assert a == a[..base] + a[base..first] + a[first..next] + a[next..];
  }

  /** The array and the reports are those of one reading of the original arguments, with k behind the options. */
  ghost predicate ReadOut(was: seq<string>, a: seq<string>, k: int, seen: seq<(char, Option<string>)>, opts: string)
    requires was != []
  {
    exists s: Sorting ::
      Reading(opts, "", was[1..], seen, s) && a == [was[0]] + s.options + s.skipped + s.rest && k == 1 + |s.options|
  }

  lemma EndedReading(was: seq<string>, a: seq<string>, k: int, opts: string)
    requires was != [] && Ended(was, 1, a, k, opts)
    ensures ReadOut(was, a, k, Reports("", was[1..], opts), opts)
  {
    hide Sorted, Reports, Reading;
    ReadingHolds("", was[1..], opts);
    assert was[..1] == [was[0]];
  }

  /** The scanned elements outside the window of non-options. */
  function OptionsOf(a: seq<string>, base: nat, first: nat, last: nat, next: nat): seq<string>
    requires base <= first <= last <= next <= |a|
  {
    a[base..first] + a[last..next]
  }

  datatype Returned = Done | Option(c: char)

  /** The source's static variables, and the argument array they index. */
  class Scanner {
    const argv: array<string>
    var optind: int
    var firstNonopt: int
    var lastNonopt: int
    var nextchar: Option<string>
    var initialized: bool
    var optarg: Option<string>
    var optopt: char
    /** The arguments as they were when the scan began, and where it began. */
    ghost var original: seq<string>
    ghost var base: nat
    /** The last call returned -1. */
    ghost var over: bool

    constructor (argv: array<string>)
      ensures this.argv == argv && Starting()
    {
      this.argv := argv;
      optind, firstNonopt, lastNonopt := 1, 0, 0;
      nextchar, initialized, optarg, optopt := None, false, None, '?';
      original, base, over := [], 1, false;
    }

    /** The next call begins a scan: it is the first one, or the caller has set optind to zero. */
    predicate Starting()
      reads this
    {
      optind == 0 || (optind == 1 && !initialized)
    }

    function Cur(): string
      reads this
    {
      if nextchar.Some? then nextchar.value else ""
    }

    ghost predicate Windowed()
      reads this
    {
      1 <= base <= firstNonopt <= lastNonopt <= optind <= argv.Length
    }

    /** The option elements done so far: those before the window of non-options and those after it. */
    ghost function OptionsSoFar(): seq<string>
      requires Windowed()
      reads this, argv
    {
      OptionsOf(argv[..], base, firstNonopt, lastNonopt, optind)
    }

    ghost function SkippedSoFar(): seq<string>
      requires Windowed()
      reads this, argv
    {
      argv[..][firstNonopt..lastNonopt]
    }

    /** Between calls: the window splits what is scanned, what is not scanned is untouched, and what is done
        so far with the sorting of what remains is the sorting of the original arguments. */
    ghost predicate Scanning(opts: string)
      reads this, argv
    {
      && initialized && !over && Windowed()
      && |original| == argv.Length && argv[..][..base] == original[..base] && argv[..][optind..] == original[optind..]
      && (Cur() != "" ==> optind < argv.Length)
      && Progress(original[base..], OptionsSoFar(), SkippedSoFar(), Cur(), argv[..][optind..], opts)
    }

    /** After the call that returns -1: options, then non-options and the rest, from optind on. */
    ghost predicate Finished(opts: string)
      reads this, argv
    {
      && Ended(original, base, argv[..], optind, opts)
      && initialized && over && Cur() == "" && 1 <= optind == firstNonopt <= lastNonopt == argv.Length
    }

    method Exchange()
      requires Windowed()
      modifies `firstNonopt, `lastNonopt, argv
      ensures argv[..] == Exchanged(old(argv[..]), old(firstNonopt), old(lastNonopt), optind)
      ensures firstNonopt == old(firstNonopt) + (optind - old(lastNonopt)) && lastNonopt == optind
      ensures Windowed() && OptionsSoFar() == old(OptionsSoFar()) && SkippedSoFar() == old(SkippedSoFar())
      ensures argv[..][..base] == old(argv[..])[..base] && argv[..][optind..] == old(argv[..])[optind..]
    {
      hide Exchanged, OptionsOf;
      Rotate(argv, firstNonopt, lastNonopt, optind);
      ExchangedParts(old(argv[..]), base, argv[..], firstNonopt, lastNonopt, optind);
      firstNonopt := firstNonopt + (optind - lastNonopt);
      lastNonopt := optind;
    }

    /** What a call will read: the characters left of the current element, and the elements from it on. */
    ghost function PendingCur(): string
      reads this
    {
      if Starting() then "" else Cur()
    }

    ghost function PendingArgs(): seq<string>
      requires argv.Length > 0 && (Starting() || 0 <= optind <= argv.Length)
      reads this, argv
    {
      if Starting() then argv[..][1..] else argv[..][optind..]
    }

    /** What that gives, by the option string. */
    ghost function PendingNext(opts: string): (next: Option<Move>)
      requires argv.Length > 0 && (Starting() || 0 <= optind <= argv.Length)
      requires PendingCur() != "" ==> PendingArgs() != []
      reads this, argv
      ensures next == Next(PendingCur(), PendingArgs(), opts)
      ensures Gives(opts, PendingCur(), PendingArgs(), next)
    {
      NextGives(PendingCur(), PendingArgs(), opts);
      Next(PendingCur(), PendingArgs(), opts)
    }

    /** `_getopt_initialize`, for an option string that selects the permuting mode. */
    method Initialize(opts: string)
      requires optind == 1 <= argv.Length
      modifies `firstNonopt, `lastNonopt, `nextchar, `initialized, `original, `base, `over
      ensures original == argv[..] && base == 1 && Scanning(opts) && Cur() == ""
    {
      firstNonopt, lastNonopt := optind, optind;
      nextchar := None;
      initialized := true;
      original, base, over := argv[..], optind, false;
      NothingDone(argv[..], optind, opts);
    }

    /** The values made rational again: after -1 the window ends behind `optind`, and shrinks to nothing there. A
        call after -1 so begins a scan of what stands from `optind` on. */
    method Normalize(opts: string)
      requires Cur() == "" && (Scanning(opts) || Finished(opts))
      modifies `firstNonopt, `lastNonopt, `original, `base, `over
      ensures Scanning(opts)
      ensures if old(over) then original == argv[..] && base == optind
              else original == old(original) && base == old(base)
    {
      hide Progress, OptionsOf, Ended;
      lastNonopt := if lastNonopt > optind then optind else lastNonopt;
      firstNonopt := if firstNonopt > optind then optind else firstNonopt;
      if over {
        original, base, over := argv[..], optind, false;
        NothingDone(argv[..], optind, opts);
      }
    }

    /** Moves the options just processed before the non-options skipped earlier. */
    method GatherOptions()
      requires Windowed()
      modifies `firstNonopt, `lastNonopt, argv
      ensures base <= firstNonopt <= optind
      ensures argv[..][base..firstNonopt] == old(OptionsSoFar()) && argv[..][firstNonopt..optind] == old(SkippedSoFar())
      ensures argv[..][..base] == old(argv[..])[..base] && argv[..][optind..] == old(argv[..])[optind..]
    {
      hide OptionsOf, Exchanged;
      if firstNonopt != lastNonopt && lastNonopt != optind {
        Exchange();
      } else if lastNonopt != optind {
        EmptyWindow(argv[..], base, firstNonopt, optind);
        firstNonopt := optind;
      }
      ClosedWindow(argv[..], base, firstNonopt, optind);
    }

    /** The scan moves on to the next element that is not a non-option. */
    method SkipNonoptions(opts: string)
      requires Scanning(opts) && Cur() == ""
      modifies `optind, `firstNonopt, `lastNonopt, argv
      ensures Scanning(opts) && lastNonopt == optind
      ensures argv[..][optind..] == WithoutNonoptions(old(argv[..][optind..]))
    {
      hide OptionsOf, Progress, NonOption, WithoutNonoptions;
      ghost var options := OptionsSoFar();
      ghost var all := original[base..];
      GatherOptions();
      ghost var a, first := argv[..], firstNonopt;
      while optind < argv.Length && NonOption(argv[optind])
        invariant base <= firstNonopt == first <= optind <= argv.Length && argv[..] == a && Cur() == "" && initialized
        invariant unchanged(`original) && !over && |original| == |a| && original[optind..] == a[optind..]
        invariant Progress(all, options, a[first..optind], "", a[optind..], opts)
        invariant WithoutNonoptions(a[optind..]) == WithoutNonoptions(old(argv[..][optind..]))
        decreases argv.Length - optind
      {
        SkipOne(all, options, a, first, optind, opts);
        SameEnds(original, a, optind, optind + 1);
        optind := optind + 1;
      }
      lastNonopt := optind;
      NothingToSkip(a, optind);
      ClosedWindow(argv[..], base, firstNonopt, optind);
    }

    /** The element "--": moved like an option, and everything after it skipped. */
    method EndOptions(opts: string)
      requires Scanning(opts) && Cur() == "" && lastNonopt == optind < argv.Length && argv[optind] == "--"
      modifies `optind, `firstNonopt, `lastNonopt, argv
      ensures Ended(original, base, argv[..], firstNonopt, opts)
      ensures 1 <= firstNonopt <= lastNonopt == optind == argv.Length
    {
      hide OptionsOf, Exchanged, Sorted, Progress, Ended;
      ghost var options, skipped, rest := OptionsSoFar(), SkippedSoFar(), argv[..][optind + 1..];
      EndProgresses(original[base..], options, skipped, rest, argv[..][optind..], opts);
      TakenOptions(argv[..], base, firstNonopt, lastNonopt, optind, optind + 1);
      assert argv[..][optind..optind + 1] == ["--"];
      optind := optind + 1;
      if firstNonopt != lastNonopt && lastNonopt != optind {
        Exchange();
        ClosedWindow(argv[..], base, firstNonopt, optind);
      } else if firstNonopt == lastNonopt {
        EmptyWindow(argv[..], base, firstNonopt, optind);
        firstNonopt := optind;
      }
      LaidOut(original, base, argv[..], firstNonopt, optind, options + ["--"], skipped, rest, opts);
      lastNonopt := argv.Length;
      optind := argv.Length;
    }

    ghost function HeadLetter(opts: string): Move
      requires 0 <= optind < argv.Length && Cur() != ""
      reads this, argv
    {
      Letter(Cur(), argv[..][optind..], opts)
    }

    /** The returned character and the state are what the move says. */
    ghost predicate Did(m: Move, c: char, culprit: char)
      requires 0 <= optind <= argv.Length
      reads this, argv
    {
      && c == m.found.c && optarg == m.found.arg
      && optopt == (if m.found.culprit.Some? then m.found.culprit.value else culprit)
      && Cur() == m.cur && argv[..][optind..] == m.args && optind == argv.Length - |m.args|
    }

    /** Decodes the next character of the current element. */
    method Decode(opts: string) returns (c: char)
      requires 0 <= optind < argv.Length && Cur() != "" && optarg == None
      modifies `optind, `nextchar, `optarg, `optopt
      ensures 0 <= optind <= argv.Length
      ensures Did(old(HeadLetter(opts)), c, old(optopt))
    {
      hide Position, KindOf, Letter;
      LetterAt(Cur(), argv[..], optind, opts);
      c := nextchar.value[0];
      nextchar := Some(nextchar.value[1..]);
      var temp := MyIndex(opts, c);
      if nextchar.value == "" {
        optind := optind + 1;
      }
      if temp == |opts| || c == ':' {
        optopt := c;
        return '?';
      }
      if ColonAt(opts, temp + 1) {
        if ColonAt(opts, temp + 2) {
          if nextchar.value != "" {
            optarg := nextchar;
            optind := optind + 1;
          }
          nextchar := None;
        } else {
          if nextchar.value != "" {
            optarg := nextchar;
            optind := optind + 1;
          } else if optind == argv.Length {
            optopt := c;
            c := if ColonAt(opts, 0) then ':' else '?';
          } else {
            optarg := Some(argv[optind]);
            optind := optind + 1;
          }
          nextchar := None;
        }
      }
    }

    /** Decoding within a scan. */
    method NextLetter(opts: string) returns (c: char)
      requires 0 <= optind < argv.Length && Cur() != "" && optarg == None
      requires Scanning(opts)
      modifies `optind, `nextchar, `optarg, `optopt
      ensures Scanning(opts) && Did(old(HeadLetter(opts)), c, old(optopt))
    {
      hide Progress, OptionsOf, Letter;
      ghost var a, from, m := argv[..], optind, Letter(Cur(), argv[..][optind..], opts);
      LetterProgresses(original[base..], a, base, firstNonopt, lastNonopt, optind, Cur(), opts);
      c := Decode(opts);
      assert argv[..] == a && optind == |a| - |m.args|;
      SameEnds(original, a, from, optind);
    }

    /** The arguments run out: the window of non-options is what is left. */
    ghost method SettleAtEnd(opts: string)
      requires Scanning(opts) && Cur() == "" && lastNonopt == optind == argv.Length
      ensures Ended(original, base, argv[..], firstNonopt, opts)
    {
      hide OptionsOf, Ended;
      ClosedWindow(argv[..], base, firstNonopt, optind);
      assert argv[..][optind..] == [];
      LaidOut(original, base, argv[..], firstNonopt, optind, OptionsSoFar(), SkippedSoFar(), [], opts);
    }

    /** Goes on from the window as it is to the next element that is not a non-option. */
    method ReachElement(opts: string)
      requires Cur() == "" && (Scanning(opts) || Finished(opts))
      modifies `optind, `firstNonopt, `lastNonopt, `original, `base, `over, argv
      ensures original == if old(over) then old(argv[..]) else old(original)
      ensures base == if old(over) then old(optind) else old(base)
      ensures Scanning(opts) && lastNonopt == optind
      ensures argv[..][optind..] == WithoutNonoptions(old(argv[..][optind..]))
    {
      hide Progress, OptionsOf, WithoutNonoptions, NonOption, Ended;
      Normalize(opts);
      SkipNonoptions(opts);
    }

    /** Moves to the next option element, or ends the scan. */
    method Advance(opts: string) returns (more: bool)
      requires Cur() == "" && (Scanning(opts) || Finished(opts))
      modifies `optind, `firstNonopt, `lastNonopt, `nextchar, `original, `base, `over, argv
      ensures original == if old(over) then old(argv[..]) else old(original)
      ensures base == if old(over) then old(optind) else old(base)
      ensures !more ==> Finished(opts) && old(Next("", argv[..][optind..], opts)) == None
      ensures more ==> Scanning(opts) && Cur() != ""
      ensures more ==> old(Next("", argv[..][optind..], opts)) == Some(Letter(Cur(), argv[..][optind..], opts))
    {
      hide Progress, OptionsOf, WithoutNonoptions, Sorted, Letter, Ended;
      ReachElement(opts);
      if optind != argv.Length && argv[optind] == "--" {
        EndOptions(opts);
      } else if optind == argv.Length {
        SettleAtEnd(opts);
      }
      if optind == argv.Length {
        if firstNonopt != lastNonopt {
          optind := firstNonopt;
        }
        over := true;
        return false;
      }
      DashProgresses(original[base..], OptionsSoFar(), SkippedSoFar(), argv[..][optind..], opts);
      nextchar := Some(argv[optind][1..]);
      return true;
    }

    /** One call of `getopt`. Called again after it returned -1 it scans what stands from `optind` on. */
    method Getopt(opts: string) returns (r: Returned)
      requires argv.Length > 0 && Permuting(opts) && NoLongForm(opts)
      requires Starting() || Scanning(opts) || Finished(opts)
      modifies this, argv
      ensures original == if old(Starting() || over) then old(argv[..]) else old(original)
      ensures base == if old(Starting()) then 1 else if old(over) then old(optind) else old(base)
      ensures
        match old(PendingNext(opts))
        case None => r == Done && Finished(opts)
        case Some(m) => r.Option? && Scanning(opts) && Did(m, r.c, old(optopt))
    {
      hide Gives, Progress, OptionsOf, Sorted, Letter, Next, Ended, Did;
      ghost var next := Next(PendingCur(), PendingArgs(), opts);
      optarg := None;
      if optind == 0 || !initialized {
        if optind == 0 {
          optind := 1;
        }
        Initialize(opts);
      }
      assert Next(Cur(), argv[..][optind..], opts) == next;
      if nextchar == None || nextchar == Some("") {
        var more := Advance(opts);
        if !more {
          return Done;
        }
      } else {
        NextOfCurrent(Cur(), argv[..][optind..], opts);
      }
      var c := NextLetter(opts);
      r := Option(c);
    }

    /** The loop of a caller: `getopt` until it returns -1. */
    method GetAll(opts: string) returns (seen: seq<(char, Option<string>)>)
      requires argv.Length > 0 && Permuting(opts) && NoLongForm(opts) && Starting()
      modifies this, argv
      ensures Ended(old(argv[..]), 1, argv[..], optind, opts) && Finished(opts)
      ensures seen == Reports("", old(argv[..])[1..], opts)
      ensures ReadOut(old(argv[..]), argv[..], optind, seen, opts)
    {
      hide Progress, OptionsOf, Sorted, Reports, Ended, Reading, Gives, ReadOut;
      ghost var was := argv[..];
      seen := [];
      ghost var cur, args := "", was[1..];
      NextReports(cur, args, opts);
      var o := Getopt(opts);
      while o != Done
        invariant original == was && base == 1 && (cur != "" ==> args != [])
        invariant if o == Done then Next(cur, args, opts) == None && Finished(opts)
                  else Read(Next(cur, args, opts), o.c, opts)
        invariant Reports("", was[1..], opts) == seen + Reports(cur, args, opts)
        decreases |args|, if cur == "" then 1 else 0, |cur|
      {
        NextReports(cur, args, opts);
        seen := seen + [(o.c, optarg)];
        cur, args := Cur(), argv[..][optind..];
        o := Getopt(opts);
      }
      NextReports(cur, args, opts);
      EndedReading(was, argv[..], optind, opts);
    }

    /** The last call made that move, and the scan goes on. */
    ghost predicate Read(next: Option<Move>, c: char, opts: string)
      reads this, argv
    {
      && next.Some? && !Starting() && Scanning(opts)
      && c == next.value.found.c && optarg == next.value.found.arg
      && Cur() == next.value.cur && argv[..][optind..] == next.value.args
    }
  }

  /** The letter's move, by the tests the decoder makes. */
  lemma LetterAt(cur: string, a: seq<string>, at: nat, opts: string)
    requires cur != "" && at < |a|
    ensures
      var m, c, tail := Letter(cur, a[at..], opts), cur[0], cur[1..];
      var after := if tail == "" then a[at + 1..] else a[at..];
      var k := Position(c, opts);
      if k == |opts| || c == ':' then m == Move(Found('?', None, Some(c)), tail, after)
      else if !ColonAt(opts, k + 1) then m == Move(Found(c, None, None), tail, after)
      else if tail != "" then m == Move(Found(c, Some(tail), None), "", a[at + 1..])
      else if ColonAt(opts, k + 2) then m == Move(Found(c, None, None), "", a[at + 1..])
      else if at + 1 == |a| then m == Move(Found(MissingCode(opts), None, Some(c)), "", a[at + 1..])
      else m == Move(Found(c, Some(a[at + 1]), None), "", a[at + 2..])
  {
    hide Position;
    assert a[at..][1..] == a[at + 1..];
    assert at + 1 < |a| ==> a[at..][2..] == a[at + 2..] && a[at..][1] == a[at + 1];
  }

  lemma SkipOne(all: seq<string>, options: seq<string>, a: seq<string>, first: nat, at: nat, opts: string)
    requires first <= at < |a| && NonOption(a[at]) && Progress(all, options, a[first..at], "", a[at..], opts)
    ensures Progress(all, options, a[first..at + 1], "", a[at + 1..], opts)
    ensures WithoutNonoptions(a[at..]) == WithoutNonoptions(a[at + 1..])
  {
    hide Progress;
    SkippingProgresses(all, options, a[first..at], a[at..], opts);
    assert a[at..][1..] == a[at + 1..] && a[first..at] + [a[at]] == a[first..at + 1];
  }

  lemma NothingToSkip(a: seq<string>, at: nat)
    requires at <= |a| && (at == |a| || !NonOption(a[at]))
    ensures WithoutNonoptions(a[at..]) == a[at..]
  {
  }

  lemma SameEnds(a: seq<string>, b: seq<string>, from: nat, to: nat)
    requires |a| == |b| && from <= to <= |a| && a[from..] == b[from..]
    ensures a[to..] == b[to..]
  {
    assert a[to..] == a[from..][to - from..] && b[to..] == b[from..][to - from..];
  }

  lemma NextOfCurrent(cur: string, args: seq<string>, opts: string)
    requires cur != "" && args != []
    ensures Next(cur, args, opts) == Some(Letter(cur, args, opts))
  {
  }

  /** No leading '-' or '+', which select the other orderings. */
  predicate Permuting(opts: string) {
    opts == "" || (opts[0] != '-' && opts[0] != '+')
  }

  lemma NothingDone(a: seq<string>, base: nat, opts: string)
    requires base <= |a|
    ensures Progress(a[base..], OptionsOf(a, base, base, base, base), a[base..base], "", a[base..], opts)
  {
    var s := Sorted("", a[base..], opts);
    assert OptionsOf(a, base, base, base, base) == [] == a[base..base];
    assert [] + s.options == s.options && [] + s.skipped == s.skipped;
  }

  lemma DashProgresses(all: seq<string>, options: seq<string>, skipped: seq<string>, args: seq<string>, opts: string)
    requires args != [] && !NonOption(args[0]) && args[0] != "--" && Progress(all, options, skipped, "", args, opts)
    ensures Progress(all, options, skipped, args[0][1..], args, opts)
  {
  }

  method MyIndex(str: string, chr: char) returns (k: nat)
    ensures k == Position(chr, str)
  {
    k := 0;
    while k < |str|
      invariant k <= |str|
      invariant Position(chr, str) == k + Position(chr, str[k..])
    {
      if str[k] == chr {
        return;
      }
      k := k + 1;
    }
  }

  /** The form "W;" hands over to long options, which plain `getopt` has none of. */
  predicate NoLongForm(opts: string) {
    forall k :: 0 <= k < |opts| - 1 && opts[k] == 'W' && 'W' !in opts[..k] ==> opts[k + 1] != ';'
  }

  lemma EndProgresses(all: seq<string>, options: seq<string>, skipped: seq<string>, rest: seq<string>,
                      args: seq<string>, opts: string)
    requires args != [] && args[0] == "--" && rest == args[1..] && Progress(all, options, skipped, "", args, opts)
    ensures Sorted("", all, opts) == Sorting(options + ["--"], skipped, rest)
  {
    assert skipped + [] == skipped;
  }

  lemma TakenOptions(a: seq<string>, base: nat, first: nat, last: nat, next: nat, to: nat)
    requires base <= first <= last <= next <= to <= |a|
    ensures OptionsOf(a, base, first, last, to) == OptionsOf(a, base, first, last, next) + a[next..to]
  {
    assert a[last..to] == a[last..next] + a[next..to];
  }

  lemma TakingProgresses(all: seq<string>, options: seq<string>, skipped: seq<string>, cur: string,
                         args: seq<string>, opts: string)
    requires cur != "" && Progress(all, options, skipped, cur, args, opts)
    ensures
      var m := Letter(cur, args, opts);
      Progress(all, options + args[..|args| - |m.args|], skipped, m.cur, m.args, opts)
  {
    hide Letter;
    var m := Letter(cur, args, opts);
    var s := Sorted(m.cur, m.args, opts);
    var p := args[..|args| - |m.args|];
    assert options + (p + s.options) == options + p + s.options;
    assert [] + s.skipped == s.skipped;
  }

  /** Decoding a character goes on: what it takes from the elements joins the options. */
  lemma LetterProgresses(all: seq<string>, a: seq<string>, base: nat, first: nat, last: nat, next: nat, cur: string,
                         opts: string)
    requires base <= first <= last <= next < |a| && cur != ""
    requires Progress(all, OptionsOf(a, base, first, last, next), a[first..last], cur, a[next..], opts)
    ensures
      var m := Letter(cur, a[next..], opts);
      var to := |a| - |m.args|;
      && next <= to <= |a| && m.args == a[to..]
      && Progress(all, OptionsOf(a, base, first, last, to), a[first..last], m.cur, m.args, opts)
  {
    hide Letter, OptionsOf, Progress;
    var m, args := Letter(cur, a[next..], opts), a[next..];
    var to := |a| - |m.args|;
    LetterTakesPrefix(cur, args, opts);
    TakenOptions(a, base, first, last, next, to);
    TakingProgresses(all, OptionsOf(a, base, first, last, next), a[first..last], cur, args, opts);
    assert args[..|args| - |m.args|] == a[next..to];
  }

  lemma EmptyWindow(a: seq<string>, base: nat, at: nat, next: nat)
    requires base <= at <= next <= |a|
    ensures OptionsOf(a, base, at, at, next) == a[base..next] && a[next..next] == a[at..at] == []
  {
    assert a[base..at] + a[at..next] == a[base..next];
  }

  lemma ClosedWindow(a: seq<string>, base: nat, first: nat, next: nat)
    requires base <= first <= next <= |a|
    ensures OptionsOf(a, base, first, next, next) == a[base..first]
  {
  }

  lemma NothingToExchange(a: seq<string>, bottom: nat, middle: nat, top: nat)
    requires bottom <= middle <= top <= |a| && (top == middle || middle == bottom)
    ensures Exchanged(a, bottom, middle, top) == a
  {
  }

  lemma ExchangedParts(a: seq<string>, base: nat, b: seq<string>, bottom: nat, middle: nat, top: nat)
    requires base <= bottom <= middle <= top <= |a| && b == Exchanged(a, bottom, middle, top)
    ensures |b| == |a| && b[..base] == a[..base] && b[top..] == a[top..]
    ensures OptionsOf(b, base, bottom + (top - middle), top, top) == OptionsOf(a, base, bottom, middle, top)
    ensures b[bottom + (top - middle)..top] == a[bottom..middle]
  {
    assert b[base..bottom + (top - middle)] == a[base..bottom] + a[middle..top];
  }

  // -------------------------------------------------------------------- permutation

  ghost function Elements(s: Sorting): multiset<string> {
    multiset(s.options) + multiset(s.skipped) + multiset(s.rest)
  }

  lemma SortedKeepsElements(cur: string, args: seq<string>, opts: string)
    requires cur != "" ==> args != []
    ensures Elements(Sorted(cur, args, opts)) == multiset(args)
  {
    hide Sorted;
    var scanned := SortedKeepsOrder(cur, args, opts);
    var s := Sorted(cur, args, opts);
    InterleavedKeepsElements(s.options, s.skipped, scanned);
  }

  lemma {:induction false} SkippedAreNonoptions(cur: string, args: seq<string>, opts: string)
    requires cur != "" ==> args != []
    ensures forall e :: e in Sorted(cur, args, opts).skipped ==> NonOption(e)
    decreases |args|, if cur == "" then 1 else 0, |cur|
  {
    hide Letter;
    if cur != "" {
      var m := Letter(cur, args, opts);
      SkippedAreNonoptions(m.cur, m.args, opts);
    } else if args != [] && args[0] != "--" {
      if NonOption(args[0]) {
        SkippedAreNonoptions("", args[1..], opts);
      } else {
        SkippedAreNonoptions(args[0][1..], args, opts);
      }
    }
  }

  lemma SplitElements(a: seq<string>, k: nat)
    requires k <= |a|
    ensures multiset(a) == multiset(a[..k]) + multiset(a[k..])
  {
    assert a == a[..k] + a[k..];
  }

  lemma WindowElements(a: seq<string>, base: nat, first: nat, last: nat, next: nat)
    requires base <= first <= last <= next <= |a|
    ensures multiset(a[base..]) == multiset(OptionsOf(a, base, first, last, next)) + multiset(a[first..last])
              + multiset(a[next..])
  {
    assert a[base..] == a[base..first] + a[first..last] + a[last..next] + a[next..];
  }

  /** Between any two calls the array is a permutation of the original one. */
  lemma ScanningPermutes(s: Scanner, opts: string)
    requires s.Scanning(opts)
    ensures multiset(s.argv[..]) == multiset(s.original)
  {
    hide OptionsOf, Sorted;
    var a := s.argv[..];
    WindowElements(a, s.base, s.firstNonopt, s.lastNonopt, s.optind);
    SplitElements(a, s.base);
    SplitElements(s.original, s.base);
    SortedKeepsElements("", s.original[s.base..], opts);
    SortedKeepsElements(s.Cur(), a[s.optind..], opts);
  }

  /** At the end it is too: the options keep their order before `k`; from it on stand the non-options, in
      their order, and everything after "--". */
  lemma EndedPermutes(original: seq<string>, base: nat, a: seq<string>, k: int, opts: string)
      returns (scanned: seq<string>)
    requires Ended(original, base, a, k, opts)
    ensures
      var s := Sorted("", original[base..], opts);
      && base <= k <= |a| && a[..base] == original[..base] && a[base..k] == s.options && a[k..] == s.skipped + s.rest
      && original[base..] == scanned + s.rest && Interleaved(a[base..k], s.skipped, scanned)
      && (forall e :: e in s.skipped ==> NonOption(e))
    ensures multiset(a) == multiset(original)
  {
    hide Sorted, Interleaved, NonOption;
    scanned := SortedKeepsOrder("", original[base..], opts);
    SkippedAreNonoptions("", original[base..], opts);
    EndedParts(original, base, a, k, opts);
  }

  lemma EndedParts(original: seq<string>, base: nat, a: seq<string>, k: int, opts: string)
    requires Ended(original, base, a, k, opts)
    ensures
      var s := Sorted("", original[base..], opts);
      base <= k <= |a| && a[..base] == original[..base] && a[base..k] == s.options && a[k..] == s.skipped + s.rest
    ensures multiset(a) == multiset(original)
  {
    hide Sorted;
    SortedKeepsElements("", original[base..], opts);
    SplitElements(original, base);
  }

  // -------------------------------------------------------------------- calls after the last

  lemma {:induction false} SkippedLeaveRest(skipped: seq<string>, rest: seq<string>)
    requires forall e :: e in skipped ==> NonOption(e)
    ensures WithoutNonoptions(skipped + rest) == WithoutNonoptions(rest)
  {
    hide NonOption;
    if skipped == [] {
      assert skipped + rest == rest;
    } else {
      SkippedLeaveRest(skipped[1..], rest);
      assert (skipped + rest)[1..] == skipped[1..] + rest;
    }
  }

  lemma {:induction false} NextSkips(args: seq<string>, opts: string)
    ensures Next("", args, opts) == Next("", WithoutNonoptions(args), opts)
    decreases |args|
  {
    hide Letter;
    if args != [] && NonOption(args[0]) {
      NextSkips(args[1..], opts);
    }
  }

  /** A call after -1 reads what followed "--" as options again: it returns -1 exactly if a new scan of that would. */
  lemma NextAfterEnd(original: seq<string>, base: nat, a: seq<string>, k: int, opts: string)
    requires Ended(original, base, a, k, opts)
    ensures base <= k <= |a| && Next("", a[k..], opts) == Next("", Sorted("", original[base..], opts).rest, opts)
  {
    hide Sorted, Next, NonOption, WithoutNonoptions;
    var s := Sorted("", original[base..], opts);
    EndedParts(original, base, a, k, opts);
    SkippedAreNonoptions("", original[base..], opts);
    SkippedLeaveRest(s.skipped, s.rest);
    NextSkips(s.skipped + s.rest, opts);
    NextSkips(s.rest, opts);
  }
}
