/** Neighbour lookup of src/Type/Hash.cpp: a string recursion over tables that steps one cell on the
    interleaved longitude and latitude bits. */
module GeoHash {
  import opened Basics

  datatype Direction = North | East | South | West

  const CHAR_MAP: string := "0123456789bcdefghjkmnpqrstuvwxyz"

  /** First position of a character, or -1. */
  function FirstIndex(c: char, s: string, from: nat): (k: int)
    requires from <= |s|
    ensures k == -1 || (from <= k < |s| && s[k] == c && forall i :: from <= i < k ==> s[i] != c)
    ensures k == -1 ==> forall i :: from <= i < |s| ==> s[i] != c
    decreases |s| - from
  {
    if from == |s| then -1 else if s[from] == c then from else FirstIndex(c, s, from + 1)
  }

  method IndexChar(c: char, str: string) returns (k: int)
    ensures k == FirstIndex(c, str, 0)
  {
    for idx := 0 to |str|
      invariant FirstIndex(c, str, 0) == FirstIndex(c, str, idx)
    {
      if c == str[idx] {
        return idx;
      }
    }
    return -1;
  }

  // The source's table for even lengths holds the same strings as the one for odd lengths, with the axes
  // exchanged: each is the table of one axis, of three bits or two, and of one way along it.
  const THREE_FORWARD_TABLE: string := "p0r21436x8zb9dcf5h7kjnmqesgutwvy"
  const TWO_FORWARD_TABLE: string := "bc01fg45238967deuvhjyznpkmstqrwx"
  const THREE_BACKWARD_TABLE: string := "14365h7k9dcfesgujnmqp0r2twvyx8zb"
  const TWO_BACKWARD_TABLE: string := "238967debc01fg45kmstqrwxuvhjyznp"
  const THREE_FORWARD_BORDER: string := "prxz"
  const TWO_FORWARD_BORDER: string := "bcfguvyz"
  const THREE_BACKWARD_BORDER: string := "028b"
  const TWO_BACKWARD_BORDER: string := "0145hjnp"

  function Neighbors(isOdd: bool, d: Direction): string {
    if isOdd then
      match d
      case North => TWO_FORWARD_TABLE
      case East => THREE_FORWARD_TABLE
      case South => TWO_BACKWARD_TABLE
      case West => THREE_BACKWARD_TABLE
    else
      match d
      case North => THREE_FORWARD_TABLE
      case East => TWO_FORWARD_TABLE
      case South => THREE_BACKWARD_TABLE
      case West => TWO_BACKWARD_TABLE
  }

  function Borders(isOdd: bool, d: Direction): string {
    if isOdd then
      match d
      case North => TWO_FORWARD_BORDER
      case East => THREE_FORWARD_BORDER
      case South => TWO_BACKWARD_BORDER
      case West => THREE_BACKWARD_BORDER
    else
      match d
      case North => THREE_FORWARD_BORDER
      case East => TWO_FORWARD_BORDER
      case South => THREE_BACKWARD_BORDER
      case West => TWO_BACKWARD_BORDER
  }

  /** The neighbour's hash. None where the source reads outside a string: on the empty hash, which a
      step across the edge of the world recurses into, and on a character outside the alphabet. */
  function GetNeighbor(hash: string, d: Direction): (r: Option<string>)
    decreases |hash|
  {
    if hash == "" then None
    else
      var last := hash[|hash| - 1];
      var isOdd := |hash| % 2 == 1;
      var base := hash[..|hash| - 1];
      var moved := if FirstIndex(last, Borders(isOdd, d), 0) != -1 then GetNeighbor(base, d) else Some(base);
      var k := FirstIndex(last, Neighbors(isOdd, d), 0);
      if moved.None? || k == -1 || k >= |CHAR_MAP| then None else Some(moved.value + [CHAR_MAP[k]])
  }

  // -------------------------------------------------------------------- cells

  /** The five bits of a character's value b4 b3 b2 b1 b0, dealt to the two axes: b4 b2 b0 to the one that
      comes first in the character, b3 b1 to the other. */
  datatype Code = Code(three: nat, two: nat)

  predicate ProperCode(c: Code) {
    c.three < 8 && c.two < 4
  }

  function Deal(v: nat): (c: Code)
    requires v < 32
    ensures ProperCode(c) && Gather(c) == v
  {
    var v3 := if v >= 16 then v - 16 else v;
    var v2 := if v3 >= 8 then v3 - 8 else v3;
    var v1 := if v2 >= 4 then v2 - 4 else v2;
    var v0 := if v1 >= 2 then v1 - 2 else v1;
    Code((if v >= 16 then 4 else 0) + (if v2 >= 4 then 2 else 0) + v0, (if v3 >= 8 then 2 else 0) + if v1 >= 2 then 1
      else 0)
  }

  function Gather(c: Code): nat
    requires ProperCode(c)
  {
    var t := if c.three >= 4 then c.three - 4 else c.three;
    var w := if c.two >= 2 then c.two - 2 else c.two;
    (if c.three >= 4 then 16 else 0) + (if c.two >= 2 then 8 else 0) + (if t >= 2 then 4 else 0)
    + w * 2 + if t >= 2 then t - 2 else t
  }

  lemma GatheredIsDealt(c: Code)
    requires ProperCode(c)
    ensures Gather(c) < 32 && Deal(Gather(c)) == c
  {
  }

  predicate InAlphabet(c: char) {
    c in CHAR_MAP
  }

  predicate ValidHash(h: string) {
    forall i :: 0 <= i < |h| ==> InAlphabet(h[i])
  }

  function Value(c: char): (v: nat)
    requires InAlphabet(c)
    ensures v < 32 && CHAR_MAP[v] == c
  {
    FirstIndex(c, CHAR_MAP, 0)
  }

  /** The cell a hash names: longitude and latitude with the bits of the hash dealt alternately to them. */
  datatype Cell = Cell(lon: nat, lat: nat)

  function CellOf(h: string): Cell
    requires ValidHash(h)
    decreases |h|
  {
    if h == "" then Cell(0, 0) else Refined(CellOf(h[..|h| - 1]), Deal(Value(h[|h| - 1])), |h| % 2 == 1)
  }

  function Refined(base: Cell, code: Code, isOdd: bool): Cell {
    if isOdd then Cell(base.lon * 8 + code.three, base.lat * 4 + code.two)
    else Cell(base.lon * 4 + code.two, base.lat * 8 + code.three)
  }

  /** Number of cells along each axis for hashes of length n. */
  function Extent(n: nat): (e: Cell)
    ensures e.lon > 0 && e.lat > 0
  {
    if n == 0 then Cell(1, 1)
    else
      var e := Extent(n - 1);
      if n % 2 == 1 then Cell(e.lon * 8, e.lat * 4) else Cell(e.lon * 4, e.lat * 8)
  }

  predicate OnEdge(c: Cell, n: nat, d: Direction) {
    match d
    case North => c.lat + 1 == Extent(n).lat
    case East => c.lon + 1 == Extent(n).lon
    case South => c.lat == 0
    case West => c.lon == 0
  }

  /** The cell next to one that is not on the edge in that direction. */
  function Stepped(c: Cell, d: Direction): Cell
    requires d == South ==> c.lat > 0
    requires d == West ==> c.lon > 0
  {
    match d
    case North => c.(lat := c.lat + 1)
    case East => c.(lon := c.lon + 1)
    case South => c.(lat := c.lat - 1)
    case West => c.(lon := c.lon - 1)
  }

  function Opposite(d: Direction): Direction {
    match d
    case North => South
    case East => West
    case South => North
    case West => East
  }

  // -------------------------------------------------------------------- tables

  /** Whether the direction moves along the axis that has three bits in the last character. */
  predicate MovesThree(isOdd: bool, d: Direction) {
    isOdd == (d == East || d == West)
  }

  predicate Forward(d: Direction) {
    d == North || d == East
  }

  /** One step along an axis of a character's code, wrapping round within the character. */
  function Turn(c: Code, three: bool, forward: bool): (t: Code)
    requires ProperCode(c)
    ensures ProperCode(t)
  {
    if three then
      c.(three := if forward then (if c.three == 7 then 0 else c.three + 1) else if c.three == 0 then 7
        else c.three - 1)
    else
      c.(two := if forward then (if c.two == 3 then 0 else c.two + 1) else if c.two == 0 then 3 else c.two - 1)
  }

  /** Whether that step wraps. */
  predicate Wraps(c: Code, three: bool, forward: bool) {
    if three then c.three == (if forward then 7 else 0) else c.two == (if forward then 3 else 0)
  }

  predicate Ascends(k: nat)
    requires k < 31
  {
    CHAR_MAP[k] < CHAR_MAP[k + 1]
  }

  lemma AlphabetAscends(k: nat)
    requires k < 31
    ensures Ascends(k)
  {
  }

  lemma {:induction false} AlphabetIsDistinct(i: nat, j: nat)
    requires i < j < 32
    ensures CHAR_MAP[i] < CHAR_MAP[j]
  {
    AlphabetAscends(j - 1);
    if i < j - 1 {
      AlphabetIsDistinct(i, j - 1);
    }
  }

  /** Value v steps to value t along an axis. */
  predicate TurnsTo(v: nat, t: nat, three: bool, forward: bool) {
    v < 32 && t < 32 && t == Gather(Turn(Deal(v), three, forward))
  }

  predicate SameChar(table: string, k: nat, alphabet: string, v: nat) {
    k < |table| && v < |alphabet| && table[k] == alphabet[v]
  }

  // Each table spells a permutation of the values: its entry k is the character of the value one step back from
  // k. The permutations, that they are these steps, that the tables spell them, and the border strings follow.

  const THREE_FORWARD: seq<nat> :=
    [21, 0, 23, 2, 1, 4, 3, 6, 29, 8, 31, 10, 9, 12, 11, 14,
     5, 16, 7, 18, 17, 20, 19, 22, 13, 24, 15, 26, 25, 28, 27, 30]

  lemma ThreeForwardValues()
    ensures TurnsTo(0, 21, true, false) && TurnsTo(1, 0, true, false) && TurnsTo(2, 23, true, false)
    ensures TurnsTo(3, 2, true, false) && TurnsTo(4, 1, true, false) && TurnsTo(5, 4, true, false)
    ensures TurnsTo(6, 3, true, false) && TurnsTo(7, 6, true, false) && TurnsTo(8, 29, true, false)
    ensures TurnsTo(9, 8, true, false) && TurnsTo(10, 31, true, false) && TurnsTo(11, 10, true, false)
    ensures TurnsTo(12, 9, true, false) && TurnsTo(13, 12, true, false) && TurnsTo(14, 11, true, false)
    ensures TurnsTo(15, 14, true, false) && TurnsTo(16, 5, true, false) && TurnsTo(17, 16, true, false)
    ensures TurnsTo(18, 7, true, false) && TurnsTo(19, 18, true, false) && TurnsTo(20, 17, true, false)
    ensures TurnsTo(21, 20, true, false) && TurnsTo(22, 19, true, false) && TurnsTo(23, 22, true, false)
    ensures TurnsTo(24, 13, true, false) && TurnsTo(25, 24, true, false) && TurnsTo(26, 15, true, false)
    ensures TurnsTo(27, 26, true, false) && TurnsTo(28, 25, true, false) && TurnsTo(29, 28, true, false)
    ensures TurnsTo(30, 27, true, false) && TurnsTo(31, 30, true, false)
  {
  }

  lemma ThreeForwardTurns(k: nat)
    requires k < 32
    ensures TurnsTo(k, THREE_FORWARD[k], true, false)
  {
    hide TurnsTo, Turn, Gather, Deal, ProperCode;
    ThreeForwardValues();
  }

  lemma ThreeForwardSpells(k: nat)
    requires k < 32
    ensures SameChar(THREE_FORWARD_TABLE, k, CHAR_MAP, THREE_FORWARD[k])
  {
  }

  lemma ThreeForwardRim(v: nat)
    requires v < 32
    ensures CHAR_MAP[v] in THREE_FORWARD_BORDER <==> Wraps(Deal(v), true, true)
  {
  }

  const TWO_FORWARD: seq<nat> :=
    [10, 11, 0, 1, 14, 15, 4, 5, 2, 3, 8, 9, 6, 7, 12, 13,
     26, 27, 16, 17, 30, 31, 20, 21, 18, 19, 24, 25, 22, 23, 28, 29]

  lemma TwoForwardValues()
    ensures TurnsTo(0, 10, false, false) && TurnsTo(1, 11, false, false) && TurnsTo(2, 0, false, false)
    ensures TurnsTo(3, 1, false, false) && TurnsTo(4, 14, false, false) && TurnsTo(5, 15, false, false)
    ensures TurnsTo(6, 4, false, false) && TurnsTo(7, 5, false, false) && TurnsTo(8, 2, false, false)
    ensures TurnsTo(9, 3, false, false) && TurnsTo(10, 8, false, false) && TurnsTo(11, 9, false, false)
    ensures TurnsTo(12, 6, false, false) && TurnsTo(13, 7, false, false) && TurnsTo(14, 12, false, false)
    ensures TurnsTo(15, 13, false, false) && TurnsTo(16, 26, false, false) && TurnsTo(17, 27, false, false)
    ensures TurnsTo(18, 16, false, false) && TurnsTo(19, 17, false, false) && TurnsTo(20, 30, false, false)
    ensures TurnsTo(21, 31, false, false) && TurnsTo(22, 20, false, false) && TurnsTo(23, 21, false, false)
    ensures TurnsTo(24, 18, false, false) && TurnsTo(25, 19, false, false) && TurnsTo(26, 24, false, false)
    ensures TurnsTo(27, 25, false, false) && TurnsTo(28, 22, false, false) && TurnsTo(29, 23, false, false)
    ensures TurnsTo(30, 28, false, false) && TurnsTo(31, 29, false, false)
  {
  }

  lemma TwoForwardTurns(k: nat)
    requires k < 32
    ensures TurnsTo(k, TWO_FORWARD[k], false, false)
  {
    hide TurnsTo, Turn, Gather, Deal, ProperCode;
    TwoForwardValues();
  }

  lemma TwoForwardSpells(k: nat)
    requires k < 32
    ensures SameChar(TWO_FORWARD_TABLE, k, CHAR_MAP, TWO_FORWARD[k])
  {
  }

  lemma TwoForwardRim(v: nat)
    requires v < 32
    ensures CHAR_MAP[v] in TWO_FORWARD_BORDER <==> Wraps(Deal(v), false, true)
  {
  }

  const THREE_BACKWARD: seq<nat> :=
    [1, 4, 3, 6, 5, 16, 7, 18, 9, 12, 11, 14, 13, 24, 15, 26,
     17, 20, 19, 22, 21, 0, 23, 2, 25, 28, 27, 30, 29, 8, 31, 10]

  lemma ThreeBackwardValues()
    ensures TurnsTo(0, 1, true, true) && TurnsTo(1, 4, true, true) && TurnsTo(2, 3, true, true)
    ensures TurnsTo(3, 6, true, true) && TurnsTo(4, 5, true, true) && TurnsTo(5, 16, true, true)
    ensures TurnsTo(6, 7, true, true) && TurnsTo(7, 18, true, true) && TurnsTo(8, 9, true, true)
    ensures TurnsTo(9, 12, true, true) && TurnsTo(10, 11, true, true) && TurnsTo(11, 14, true, true)
    ensures TurnsTo(12, 13, true, true) && TurnsTo(13, 24, true, true) && TurnsTo(14, 15, true, true)
    ensures TurnsTo(15, 26, true, true) && TurnsTo(16, 17, true, true) && TurnsTo(17, 20, true, true)
    ensures TurnsTo(18, 19, true, true) && TurnsTo(19, 22, true, true) && TurnsTo(20, 21, true, true)
    ensures TurnsTo(21, 0, true, true) && TurnsTo(22, 23, true, true) && TurnsTo(23, 2, true, true)
    ensures TurnsTo(24, 25, true, true) && TurnsTo(25, 28, true, true) && TurnsTo(26, 27, true, true)
    ensures TurnsTo(27, 30, true, true) && TurnsTo(28, 29, true, true) && TurnsTo(29, 8, true, true)
    ensures TurnsTo(30, 31, true, true) && TurnsTo(31, 10, true, true)
  {
  }

  lemma ThreeBackwardTurns(k: nat)
    requires k < 32
    ensures TurnsTo(k, THREE_BACKWARD[k], true, true)
  {
    hide TurnsTo, Turn, Gather, Deal, ProperCode;
    ThreeBackwardValues();
  }

  lemma ThreeBackwardSpells(k: nat)
    requires k < 32
    ensures SameChar(THREE_BACKWARD_TABLE, k, CHAR_MAP, THREE_BACKWARD[k])
  {
  }

  lemma ThreeBackwardRim(v: nat)
    requires v < 32
    ensures CHAR_MAP[v] in THREE_BACKWARD_BORDER <==> Wraps(Deal(v), true, false)
  {
  }

  const TWO_BACKWARD: seq<nat> :=
    [2, 3, 8, 9, 6, 7, 12, 13, 10, 11, 0, 1, 14, 15, 4, 5,
     18, 19, 24, 25, 22, 23, 28, 29, 26, 27, 16, 17, 30, 31, 20, 21]

  lemma TwoBackwardValues()
    ensures TurnsTo(0, 2, false, true) && TurnsTo(1, 3, false, true) && TurnsTo(2, 8, false, true)
    ensures TurnsTo(3, 9, false, true) && TurnsTo(4, 6, false, true) && TurnsTo(5, 7, false, true)
    ensures TurnsTo(6, 12, false, true) && TurnsTo(7, 13, false, true) && TurnsTo(8, 10, false, true)
    ensures TurnsTo(9, 11, false, true) && TurnsTo(10, 0, false, true) && TurnsTo(11, 1, false, true)
    ensures TurnsTo(12, 14, false, true) && TurnsTo(13, 15, false, true) && TurnsTo(14, 4, false, true)
    ensures TurnsTo(15, 5, false, true) && TurnsTo(16, 18, false, true) && TurnsTo(17, 19, false, true)
    ensures TurnsTo(18, 24, false, true) && TurnsTo(19, 25, false, true) && TurnsTo(20, 22, false, true)
    ensures TurnsTo(21, 23, false, true) && TurnsTo(22, 28, false, true) && TurnsTo(23, 29, false, true)
    ensures TurnsTo(24, 26, false, true) && TurnsTo(25, 27, false, true) && TurnsTo(26, 16, false, true)
    ensures TurnsTo(27, 17, false, true) && TurnsTo(28, 30, false, true) && TurnsTo(29, 31, false, true)
    ensures TurnsTo(30, 20, false, true) && TurnsTo(31, 21, false, true)
  {
  }

  lemma TwoBackwardTurns(k: nat)
    requires k < 32
    ensures TurnsTo(k, TWO_BACKWARD[k], false, true)
  {
    hide TurnsTo, Turn, Gather, Deal, ProperCode;
    TwoBackwardValues();
  }

  lemma TwoBackwardSpells(k: nat)
    requires k < 32
    ensures SameChar(TWO_BACKWARD_TABLE, k, CHAR_MAP, TWO_BACKWARD[k])
  {
  }

  lemma TwoBackwardRim(v: nat)
    requires v < 32
    ensures CHAR_MAP[v] in TWO_BACKWARD_BORDER <==> Wraps(Deal(v), false, false)
  {
  }

  // -------------------------------------------------------------------- lookups

  /** Whether entry k of a table is the character of the value that k steps back to. */
  predicate StepsBack(table: string, three: bool, forward: bool, k: nat) {
    k < 32 && SameChar(table, k, CHAR_MAP, Gather(Turn(Deal(k), three, !forward)))
  }

  lemma TablesStepBack(k: nat, isOdd: bool, d: Direction)
    requires k < 32
    ensures StepsBack(Neighbors(isOdd, d), MovesThree(isOdd, d), Forward(d), k)
  {
    hide SameChar, Gather, Deal, Turn;
    if MovesThree(isOdd, d) {
      if Forward(d) {
        ThreeForwardTurns(k);
        ThreeForwardSpells(k);
      } else {
        ThreeBackwardTurns(k);
        ThreeBackwardSpells(k);
      }
    } else if Forward(d) {
      TwoForwardTurns(k);
      TwoForwardSpells(k);
    } else {
      TwoBackwardTurns(k);
      TwoBackwardSpells(k);
    }
  }

  lemma BordersAreRims(v: nat, isOdd: bool, d: Direction)
    requires v < 32
    ensures CHAR_MAP[v] in Borders(isOdd, d) <==> Wraps(Deal(v), MovesThree(isOdd, d), Forward(d))
  {
    hide Wraps, Deal;
    if MovesThree(isOdd, d) {
      if Forward(d) {
        ThreeForwardRim(v);
      } else {
        ThreeBackwardRim(v);
      }
    } else if Forward(d) {
      TwoForwardRim(v);
    } else {
      TwoBackwardRim(v);
    }
  }

  lemma TurnsUndo(c: Code, three: bool, forward: bool)
    requires ProperCode(c)
    ensures Turn(Turn(c, three, forward), three, !forward) == c
  {
  }

  /** The tables step: a character is found at the position whose code is one step on, and it is a border
      character exactly when that step wraps. */
  lemma LookupSteps(c: char, isOdd: bool, d: Direction)
    requires InAlphabet(c)
    ensures
      var code := Deal(Value(c));
      var k := FirstIndex(c, Neighbors(isOdd, d), 0);
      && 0 <= k < 32
      && Deal(k) == Turn(code, MovesThree(isOdd, d), Forward(d))
      && (FirstIndex(c, Borders(isOdd, d), 0) != -1 <==> Wraps(code, MovesThree(isOdd, d), Forward(d)))
  {
    hide Gather, Deal, Turn, Wraps, Neighbors, Borders;
    var three, forward, table := MovesThree(isOdd, d), Forward(d), Neighbors(isOdd, d);
    var v := Value(c);
    var code := Turn(Deal(v), three, forward);
    var at := Gather(code);
    BordersAreRims(v, isOdd, d);
    GatheredIsDealt(code);
    TurnsUndo(Deal(v), three, forward);
    TablesStepBack(at, isOdd, d);
    assert table[at] == c;
    var k := FirstIndex(c, table, 0);
    assert 0 <= k <= at;
    TablesStepBack(k, isOdd, d);
    var back := Turn(Deal(k), three, !forward);
    var w := Gather(back);
    GatheredIsDealt(back);
    assert CHAR_MAP[w] == c;
    if w < v {
      AlphabetIsDistinct(w, v);
    } else if v < w {
      AlphabetIsDistinct(v, w);
    }
    TurnsUndo(Deal(k), three, !forward);
  }

  lemma ValueOfLetter(k: nat)
    requires k < 32
    ensures InAlphabet(CHAR_MAP[k]) && Value(CHAR_MAP[k]) == k
  {
    var v := Value(CHAR_MAP[k]);
    if v < k {
      AlphabetIsDistinct(v, k);
    } else if k < v {
      AlphabetIsDistinct(k, v);
    }
  }

  // -------------------------------------------------------------------- neighbours

  lemma {:induction false} CellInside(h: string)
    requires ValidHash(h)
    ensures CellOf(h).lon < Extent(|h|).lon && CellOf(h).lat < Extent(|h|).lat
    decreases |h|
  {
    hide Deal, Gather, Value, InAlphabet;
    if h != "" {
      CellInside(h[..|h| - 1]);
    }
  }

  /** On the edge after one more character: on it before, and the character's step wraps. */
  lemma EdgeOfRefined(base: Cell, code: Code, n: nat, d: Direction)
    requires ProperCode(code) && base.lon < Extent(n).lon && base.lat < Extent(n).lat
    ensures
      var isOdd := (n + 1) % 2 == 1;
      OnEdge(Refined(base, code, isOdd), n + 1, d) <==>
      OnEdge(base, n, d) && Wraps(code, MovesThree(isOdd, d), Forward(d))
  {
    assert Extent(n + 1) == if (n + 1) % 2 == 1 then Cell(Extent(n).lon * 8, Extent(n).lat * 4)
                            else Cell(Extent(n).lon * 4, Extent(n).lat * 8);
  }

  /** A step within a character keeps the cell's leading bits; a step that wraps also steps them. */
  lemma StepOfRefined(base: Cell, code: Code, isOdd: bool, n: nat, d: Direction)
    requires ProperCode(code)
    requires !Wraps(code, MovesThree(isOdd, d), Forward(d)) || !OnEdge(base, n, d)
    ensures
      var wraps := Wraps(code, MovesThree(isOdd, d), Forward(d));
      var moved := if wraps then Stepped(base, d) else base;
      && (d == South ==> Refined(base, code, isOdd).lat > 0)
      && (d == West ==> Refined(base, code, isOdd).lon > 0)
      && Refined(moved, Turn(code, MovesThree(isOdd, d), Forward(d)), isOdd) == Stepped(Refined(base, code, isOdd), d)
  {
  }

  ghost predicate IsNeighbor(r: Option<string>, h: string, d: Direction)
    requires ValidHash(h)
  {
    if OnEdge(CellOf(h), |h|, d) then r == None
    else r.Some? && ValidHash(r.value) && |r.value| == |h| && NextTo(CellOf(r.value), CellOf(h), d)
  }

  /** Cell b is a, one step on. */
  predicate NextTo(b: Cell, a: Cell, d: Direction) {
    && (d == South ==> a.lat > 0)
    && (d == West ==> a.lon > 0)
    && b == Stepped(a, d)
  }

  lemma AppendedCell(base: string, k: nat)
    requires ValidHash(base) && k < 32
    ensures
      var h := base + [CHAR_MAP[k]];
      ValidHash(h) && CellOf(h) == Refined(CellOf(base), Deal(k), |h| % 2 == 1)
  {
    hide Deal, Refined, InAlphabet, Value;
    ValueOfLetter(k);
    var h := base + [CHAR_MAP[k]];
    assert h[..|h| - 1] == base;
  }

  /** One level of the recursion, with the tables read as steps. */
  lemma NeighborOfExtended(h: string, d: Direction) returns (k: nat)
    requires ValidHash(h) && h != ""
    ensures
      var n, isOdd := |h| - 1, |h| % 2 == 1;
      var code := Deal(Value(h[n]));
      var moved := if Wraps(code, MovesThree(isOdd, d), Forward(d)) then GetNeighbor(h[..n], d) else Some(h[..n]);
      && k < 32 && Deal(k) == Turn(code, MovesThree(isOdd, d), Forward(d))
      && GetNeighbor(h, d) == if moved.None? then None else Some(moved.value + [CHAR_MAP[k]])
  {
    hide Deal, Value, Wraps, Turn, Neighbors, Borders, MovesThree, Forward;
    LookupSteps(h[|h| - 1], |h| % 2 == 1, d);
    k := FirstIndex(h[|h| - 1], Neighbors(|h| % 2 == 1, d), 0);
  }

  /** The neighbour of every well-formed hash, of any length: none exactly on the edge of the world, and
      otherwise the hash of the same length whose cell is one step away in that direction. */
  lemma {:induction false} NeighborIsNextCell(h: string, d: Direction)
    requires ValidHash(h)
    ensures IsNeighbor(GetNeighbor(h, d), h, d)
    decreases |h|
  {
    hide IsNeighbor, InAlphabet;
    if h == "" {
      EdgeOfNothing(d);
    } else {
      NeighborIsNextCell(h[..|h| - 1], d);
      NextCellOfExtended(h, d);
    }
  }

  lemma NextCellOfExtended(h: string, d: Direction)
    requires ValidHash(h) && h != ""
    requires IsNeighbor(GetNeighbor(h[..|h| - 1], d), h[..|h| - 1], d)
    ensures IsNeighbor(GetNeighbor(h, d), h, d)
  {
    hide GetNeighbor, Deal, Refined, InAlphabet, Value, Wraps, Turn, OnEdge, Stepped, MovesThree, Forward;
    var n := |h| - 1;
    var base, code, isOdd := h[..n], Deal(Value(h[n])), |h| % 2 == 1;
    var k := NeighborOfExtended(h, d);
    CellInside(base);
    EdgeOfRefined(CellOf(base), code, n, d);
    if !OnEdge(CellOf(h), |h|, d) {
      StepOfRefined(CellOf(base), code, isOdd, n, d);
      AppendedCell(if Wraps(code, MovesThree(isOdd, d), Forward(d)) then GetNeighbor(base, d).value else base, k);
    }
  }

  lemma EdgeOfNothing(d: Direction)
    ensures IsNeighbor(GetNeighbor("", d), "", d)
  {
    assert OnEdge(Cell(0, 0), 0, d);
  }

  lemma RefinedTellsApart(a: Cell, c: Code, b: Cell, d: Code, isOdd: bool)
    requires ProperCode(c) && ProperCode(d) && Refined(a, c, isOdd) == Refined(b, d, isOdd)
    ensures a == b && c == d
  {
  }

  lemma {:induction false} CellsTellHashesApart(a: string, b: string)
    requires ValidHash(a) && ValidHash(b) && |a| == |b| && CellOf(a) == CellOf(b)
    ensures a == b
    decreases |a|
  {
    hide Deal, Value, InAlphabet, Gather, Refined;
    if a != "" {
      var n := |a| - 1;
      RefinedTellsApart(CellOf(a[..n]), Deal(Value(a[n])), CellOf(b[..n]), Deal(Value(b[n])), |a| % 2 == 1);
      CellsTellHashesApart(a[..n], b[..n]);
      assert Value(a[n]) == Gather(Deal(Value(a[n]))) && Value(b[n]) == Gather(Deal(Value(b[n])));
      assert a == a[..n] + [a[n]] && b == b[..n] + [b[n]];
    }
  }

  lemma SteppingBack(a: Cell, b: Cell, n: nat, d: Direction)
    requires a.lon < Extent(n).lon && a.lat < Extent(n).lat && NextTo(b, a, d)
    ensures !OnEdge(b, n, Opposite(d))
    ensures forall c: Cell :: NextTo(c, b, Opposite(d)) ==> c == a
  {
  }

  /** Stepping back in the opposite direction restores the hash. */
  lemma OppositeRestores(h: string, d: Direction)
    requires ValidHash(h)
    requires !OnEdge(CellOf(h), |h|, d)
    ensures GetNeighbor(h, d).Some?
    ensures GetNeighbor(GetNeighbor(h, d).value, Opposite(d)) == Some(h)
  {
    hide GetNeighbor, CellOf, OnEdge, NextTo, Opposite, InAlphabet;
    NeighborIsNextCell(h, d);
    var r := GetNeighbor(h, d).value;
    NeighborIsNextCell(r, Opposite(d));
    CellInside(h);
    SteppingBack(CellOf(h), CellOf(r), |h|, d);
    CellsTellHashesApart(GetNeighbor(r, Opposite(d)).value, h);
  }
}
