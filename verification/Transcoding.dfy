/** What the six converters of tool/ConvertUTF.cpp have in common: a loop that reads a character, may ask for
    room, and writes it. A converter is described by its step; this module describes the loop. */
module Transcoding {
  datatype Result = ConversionOK | SourceExhausted | TargetExhausted | SourceIllegal
  datatype Flags = Strict | Lenient

  /** What a converter does at the head of its source. `need` is the room it asks for before that: it stops
      there with a result, or takes units, puts units and may record that they were illegal. */
  datatype Step<T> = Halt(need: nat, result: Result) | Emit(need: nat, take: nat, put: seq<T>, illegal: bool)

  predicate Proper<T>(e: Step<T>, length: nat) {
    match e
    case Halt(need, result) => need <= 1 && (result == SourceIllegal || result == SourceExhausted)
    case Emit(need, take, put, _) => 1 <= take <= length && |put| <= need <= |put| + 1
  }

  ghost predicate Lawful<S(!new), T>(step: seq<S> -> Step<T>) {
    forall src: seq<S> :: src != [] ==> Proper(step(src), |src|)
  }

  /** What a call did: the units taken and put, its result, and the value the result variable had before a full
      target overwrote it. */
  datatype Outcome<T> = Outcome(taken: nat, out: seq<T>, result: Result, before: Result)

  function After<T>(taken: nat, out: seq<T>, o: Outcome<T>): Outcome<T> {
    Outcome(taken + o.taken, out + o.out, o.result, o.before)
  }

  function Recorded<T>(e: Step<T>, res: Result): Result {
    if e.Emit? && e.illegal then SourceIllegal else res
  }

  /** The loop with room for so many units, entered with the result variable at res. */
  ghost function Run<S(!new), T>(step: seq<S> -> Step<T>, src: seq<S>, room: nat, res: Result): Outcome<T>
    requires Lawful(step)
    decreases |src|
  {
    if src == [] then Outcome(0, [], res, res)
    else
      var e := step(src);
      assert Proper(e, |src|);
      if room < e.need then Outcome(0, [], TargetExhausted, res)
      else if e.Halt? then Outcome(0, [], e.result, res)
      else After(e.take, e.put, Run(step, src[e.take..], room - |e.put|, Recorded(e, res)))
  }

  /** The loop with unlimited room. */
  ghost function Whole<S(!new), T>(step: seq<S> -> Step<T>, src: seq<S>, res: Result): Outcome<T>
    requires Lawful(step)
    decreases |src|
  {
    if src == [] then Outcome(0, [], res, res)
    else
      var e := step(src);
      assert Proper(e, |src|);
      if e.Halt? then Outcome(0, [], e.result, res)
      else After(e.take, e.put, Whole(step, src[e.take..], Recorded(e, res)))
  }

  lemma {:induction false} RunStays<S(!new), T>(step: seq<S> -> Step<T>, src: seq<S>, room: nat, res: Result)
    requires Lawful(step)
    ensures Run(step, src, room, res).taken <= |src|
    ensures |Run(step, src, room, res).out| <= room
    decreases |src|
  {
    if src != [] {
      var e := step(src);
      if e.Emit? && room >= e.need {
        assert Proper(e, |src|);
        RunStays(step, src[e.take..], room - |e.put|, Recorded(e, res));
      }
    }
  }

  /** Unless the target fills up, the room makes no difference. */
  lemma {:induction false} RunIsWhole<S(!new), T>(step: seq<S> -> Step<T>, src: seq<S>, room: nat, res: Result)
    requires Lawful(step)
    requires res != TargetExhausted
    ensures Run(step, src, room, res).result != TargetExhausted ==> Run(step, src, room, res) == Whole(step, src, res)
    ensures room > |Whole(step, src, res).out| ==> Run(step, src, room, res).result != TargetExhausted
    decreases |src|
  {
    if src != [] {
      var e := step(src);
      assert Proper(e, |src|);
      if e.Emit? && room >= e.need {
        RunIsWhole(step, src[e.take..], room - |e.put|, Recorded(e, res));
      }
    }
  }

  lemma RunEmits<S(!new), T>(step: seq<S> -> Step<T>, src: seq<S>, room: nat, res: Result)
    requires Lawful(step)
    requires src != [] && step(src).Emit? && step(src).need <= room
    ensures
      var e := step(src);
      && 1 <= e.take <= |src| && |e.put| <= room
      && Run(step, src, room, res) == After(e.take, e.put, Run(step, src[e.take..], room - |e.put|, Recorded(e, res)))
  {
    assert Proper(step(src), |src|);
  }

  function EndResult<S, T>(step: seq<S> -> Step<T>, src: seq<S>, room: nat, res: Result): Result
    requires src == [] || room < step(src).need || step(src).Halt?
  {
    if src == [] then res else if room < step(src).need then TargetExhausted else step(src).result
  }

  lemma RunEnds<S(!new), T>(step: seq<S> -> Step<T>, src: seq<S>, room: nat, res: Result)
    requires Lawful(step)
    requires src == [] || room < step(src).need || step(src).Halt?
    ensures Run(step, src, room, res)
         == Outcome(0, [], EndResult(step, src, room, res), res)
  {
  }

  lemma RunFills<S(!new), T>(step: seq<S> -> Step<T>, src: seq<S>, room: nat, res: Result)
    requires Lawful(step)
    requires Run(step, src, room, res).result == TargetExhausted && res != TargetExhausted
    ensures src != []
    ensures room < step(src).need ==> Run(step, src, room, res) == Outcome(0, [], TargetExhausted, res)
    ensures step(src).need <= room ==> step(src).Emit?
  {
    if src != [] {
      assert Proper(step(src), |src|);
    }
  }

  /** Restart: after a full target, a call on the rest of the source with more room completes the output that one
      call with all that room gives. Source and target stand at a character boundary. */
  lemma {:induction false} RunRestarts<S(!new), T>(step: seq<S> -> Step<T>, src: seq<S>, room: nat, res: Result,
                                         more: nat)
    requires Lawful(step) && res != TargetExhausted
    requires Run(step, src, room, res).result == TargetExhausted
    requires |Run(step, src, room, res).out| + more >= room
    ensures
      var r := Run(step, src, room, res);
      && r.taken <= |src|
      && Run(step, src, |r.out| + more, res) == After(r.taken, r.out, Run(step, src[r.taken..], more, r.before))
    decreases |src|
  {
    hide Run, Lawful;
    var r, e := Run(step, src, room, res), step(src);
    RunFills(step, src, room, res);
    if room < e.need {
      assert src[0..] == src;
      assert [] + Run(step, src, more, res).out == Run(step, src, more, res).out;
    } else {
      var left, now := room - |e.put|, Recorded(e, res);
      RunEmits(step, src, room, res);
      var rest := src[e.take..];
      var t := Run(step, rest, left, now);
      RunRestarts(step, rest, left, now, more);
      RunEmits(step, src, |r.out| + more, res);
      assert rest[t.taken..] == src[r.taken..];
      AfterAfter(e.take, e.put, t.taken, t.out, Run(step, src[r.taken..], more, t.before));
    }
  }

  lemma AfterAfter<T>(a: nat, x: seq<T>, b: nat, y: seq<T>, o: Outcome<T>)
    ensures After(a, x, After(b, y, o)) == After(a + b, x + y, o)
  {
    assert x + (y + o.out) == x + y + o.out;
  }

  /** The result variable only changes the result where nothing else decides it. */
  lemma {:induction false} RunEntered<S(!new), T>(step: seq<S> -> Step<T>, src: seq<S>, room: nat, res: Result)
    requires Lawful(step)
    requires res == ConversionOK || res == SourceIllegal
    ensures
      var r, o := Run(step, src, room, res), Run(step, src, room, ConversionOK);
      && r.taken == o.taken && r.out == o.out
      && r.result == if o.result == ConversionOK then res else o.result
    decreases |src|
  {
    if src != [] {
      var e := step(src);
      assert Proper(e, |src|);
      if e.Emit? && room >= e.need {
        RunEntered(step, src[e.take..], room - |e.put|, Recorded(e, res));
        RunEntered(step, src[e.take..], room - |e.put|, Recorded(e, ConversionOK));
      }
    }
  }

  /** A caller restarts with a fresh result variable: the output is that of one call with all the room, and so
      is the result, except that an illegal unit the first call passed over is not reported again. */
  lemma FreshRestart<S(!new), T>(step: seq<S> -> Step<T>, src: seq<S>, room: nat, more: nat)
    requires Lawful(step)
    requires Run(step, src, room, ConversionOK).result == TargetExhausted
    requires |Run(step, src, room, ConversionOK).out| + more >= room
    ensures
      var r := Run(step, src, room, ConversionOK);
      && r.taken <= |src|
      && var again, once := Run(step, src[r.taken..], more, ConversionOK), Run(step, src, |r.out| + more, ConversionOK);
      && once.taken == r.taken + again.taken && once.out == r.out + again.out
      && once.result == if again.result == ConversionOK then r.before else again.result
  {
    hide Run, Lawful;
    var r := Run(step, src, room, ConversionOK);
    RunRestarts(step, src, room, ConversionOK, more);
    BeforeIsPlain(step, src, room, ConversionOK);
    RunEntered(step, src[r.taken..], more, r.before);
  }

  lemma {:induction false} BeforeIsPlain<S(!new), T>(step: seq<S> -> Step<T>, src: seq<S>, room: nat, res: Result)
    requires Lawful(step)
    requires res == ConversionOK || res == SourceIllegal
    ensures Run(step, src, room, res).before == ConversionOK || Run(step, src, room, res).before == SourceIllegal
    decreases |src|
  {
    if src != [] {
      var e := step(src);
      assert Proper(e, |src|);
      if e.Emit? && room >= e.need {
        BeforeIsPlain(step, src[e.take..], room - |e.put|, Recorded(e, res));
      }
    }
  }

  /** One more character, in a loop over positions of the source. */
  lemma RunGoesOn<S(!new), T>(step: seq<S> -> Step<T>, src: seq<S>, s: nat, room: nat, res: Result, o: Outcome<T>,
                    taken: nat, out: seq<T>)
    requires Lawful(step) && s < |src|
    requires step(src[s..]).Emit? && step(src[s..]).need <= room
    requires o == After(taken, out, Run(step, src[s..], room, res))
    ensures
      var e := step(src[s..]);
      && s + e.take <= |src| && |e.put| <= room
      && o == After(taken + e.take, out + e.put, Run(step, src[s + e.take..], room - |e.put|, Recorded(e, res)))
  {
    var e := step(src[s..]);
    assert Proper(e, |src[s..]|);
    assert src[s..][e.take..] == src[s + e.take..];
    AfterAfter(taken, out, e.take, e.put, Run(step, src[s + e.take..], room - |e.put|, Recorded(e, res)));
  }

  /** The loop stops at a position. */
  lemma RunStops<S(!new), T>(step: seq<S> -> Step<T>, src: seq<S>, s: nat, room: nat, res: Result, o: Outcome<T>,
                   taken: nat, out: seq<T>)
    requires Lawful(step) && s <= |src|
    requires s < |src| ==> room < step(src[s..]).need || step(src[s..]).Halt?
    requires o == After(taken, out, Run(step, src[s..], room, res))
    ensures o.taken == taken && o.out == out
    ensures o.result == if s == |src| then res else if room < step(src[s..]).need then TargetExhausted
            else step(src[s..]).result
  {
  }

  lemma WholeOfPrefix<S(!new), T>(step: seq<S> -> Step<T>, p: seq<S>, rest: seq<S>, res: Result)
    requires Lawful(step) && p != []
    requires step(p + rest).Emit? && step(p + rest).take == |p|
    ensures
      var e := step(p + rest);
      Whole(step, p + rest, res) == After(|p|, e.put, Whole(step, rest, Recorded(e, res)))
  {
    assert (p + rest)[|p|..] == rest;
  }

  // -------------------------------------------------------------------- buffers

  /** The call did what the outcome says, on a target that was `was` and is `now`. */
  predicate Converted<T(==)>(o: Outcome<T>, sourceStart: nat, targetStart: nat, was: seq<T>, now: seq<T>, s: nat,
                        t: nat, result: Result) {
    && s == sourceStart + o.taken && t == targetStart + |o.out| && result == o.result
    && t <= |was| == |now| && now == was[..targetStart] + o.out + was[t..]
  }

  /** Between two characters: what is written is the output so far, and the loop has the rest to do. */
  ghost predicate Amid<S(!new), T>(step: seq<S> -> Step<T>, source: seq<S>, was: seq<T>, now: seq<T>,
                                   o: Outcome<T>, sourceStart: nat, targetStart: nat, s: nat, t: nat, result: Result)
    requires Lawful(step)
  {
    && sourceStart <= s <= |source| && targetStart <= t <= |now| == |was|
    && now[..targetStart] == was[..targetStart] && now[t..] == was[t..]
    && o == After(s - sourceStart, now[targetStart..t], Run(step, source[s..], |now| - t, result))
  }

  lemma Starts<S(!new), T>(step: seq<S> -> Step<T>, source: seq<S>, was: seq<T>, sourceStart: nat, targetStart: nat)
      returns (o: Outcome<T>)
    requires Lawful(step) && sourceStart <= |source| && targetStart <= |was|
    ensures o == Run(step, source[sourceStart..], |was| - targetStart, ConversionOK)
    ensures Amid(step, source, was, was, o, sourceStart, targetStart, sourceStart, targetStart, ConversionOK)
  {
    hide Run;
    o := Run(step, source[sourceStart..], |was| - targetStart, ConversionOK);
    assert was[targetStart..targetStart] == [] && [] + o.out == o.out;
  }

  lemma GoesOn<S(!new), T>(step: seq<S> -> Step<T>, source: seq<S>, was: seq<T>, now: seq<T>, next: seq<T>,
                           o: Outcome<T>, sourceStart: nat, targetStart: nat, s: nat, t: nat, result: Result)
    requires Lawful(step) && Amid(step, source, was, now, o, sourceStart, targetStart, s, t, result) && s < |source|
    requires step(source[s..]).Emit? && step(source[s..]).need <= |now| - t
    requires var put := step(source[s..]).put; t + |put| <= |now| && next == now[..t] + put + now[t + |put|..]
    ensures
      var e := step(source[s..]);
      Amid(step, source, was, next, o, sourceStart, targetStart, s + e.take, t + |e.put|, Recorded(e, result))
  {
    hide Run, Lawful;
    var e := step(source[s..]);
    RunGoesOn(step, source, s, |now| - t, result, o, s - sourceStart, now[targetStart..t]);
    var u := t + |e.put|;
    assert next[targetStart..u] == now[targetStart..t] + e.put;
    assert next[..targetStart] == now[..targetStart];
    assert next[u..] == now[u..] == now[t..][|e.put|..] && was[u..] == was[t..][|e.put|..];
  }

  lemma Stops<S(!new), T>(step: seq<S> -> Step<T>, source: seq<S>, was: seq<T>, now: seq<T>,
                          o: Outcome<T>, sourceStart: nat, targetStart: nat, s: nat, t: nat, result: Result,
                          last: Result)
    requires Lawful(step) && Amid(step, source, was, now, o, sourceStart, targetStart, s, t, result)
    requires s < |source| ==> |now| - t < step(source[s..]).need || step(source[s..]).Halt?
    requires last == if s == |source| then result else if |now| - t < step(source[s..]).need then TargetExhausted
             else step(source[s..]).result
    ensures Converted(o, sourceStart, targetStart, was, now, s, t, last)
  {
    hide Run, Lawful;
    RunStops(step, source, s, |now| - t, result, o, s - sourceStart, now[targetStart..t]);
    assert now == now[..targetStart] + now[targetStart..t] + now[t..];
  }

  /** One turn of a converter's loop did what its step says, from positions s and t on. */
  predicate Turned<T(==)>(e: Step<T>, s: nat, t: nat, was: seq<T>, before: Result,
                          now: seq<T>, s1: nat, t1: nat, result: Result, go: bool) {
    if t > |was| then false
    else if |was| - t < e.need then !go && result == TargetExhausted && s1 == s && t1 == t && now == was
    else if e.Halt? then !go && result == e.result && s1 == s && t1 == t && now == was
    else
      && go && result == Recorded(e, before) && s1 == s + e.take && t1 == t + |e.put| <= |was|
      && now == was[..t] + e.put + was[t1..]
  }

  lemma Turns<S(!new), T>(step: seq<S> -> Step<T>, source: seq<S>, was: seq<T>, now: seq<T>, next: seq<T>,
                          o: Outcome<T>, sourceStart: nat, targetStart: nat, s: nat, t: nat, before: Result,
                          s1: nat, t1: nat, result: Result, go: bool)
    requires Lawful(step) && Amid(step, source, was, now, o, sourceStart, targetStart, s, t, before) && s < |source|
    requires Turned(step(source[s..]), s, t, now, before, next, s1, t1, result, go)
    ensures go ==> s < s1 && Amid(step, source, was, next, o, sourceStart, targetStart, s1, t1, result)
    ensures !go ==> Converted(o, sourceStart, targetStart, was, next, s1, t1, result) && s1 <= |source|
  {
    hide Run, Amid, Converted;
    assert Proper(step(source[s..]), |source[s..]|);
    if go {
      GoesOn(step, source, was, now, next, o, sourceStart, targetStart, s, t, before);
    } else {
      Stops(step, source, was, now, o, sourceStart, targetStart, s, t, before, result);
    }
  }

  method PutOne<T>(target: array<T>, t: nat, x: T, ghost e: Step<T>, ghost s: nat, ghost before: Result)
    requires e.Emit? && e.put == [x] && t + e.need <= target.Length && e.need > 0
    modifies target
    ensures Turned(e, s, t, old(target[..]), before, target[..], s + e.take, t + 1, Recorded(e, before), true)
  {
    target[t] := x;
  }

  method PutTwo<T>(target: array<T>, t: nat, x: T, y: T, ghost e: Step<T>, ghost s: nat, ghost before: Result)
    requires e.Emit? && e.put == [x, y] && t + e.need <= target.Length && e.need >= 2
    modifies target
    ensures Turned(e, s, t, old(target[..]), before, target[..], s + e.take, t + 2, Recorded(e, before), true)
  {
    target[t] := x;
    target[t + 1] := y;
  }
}
