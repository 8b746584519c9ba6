/** Where the converters leave the source when they report an illegal value. The header promises that it then
    stands at the value that caused the problem. */
module ConvertUtfErrors {
  import opened Transcoding
  import opened ConvertUtf
  import opened ConvertUtfLaws

  // -------------------------------------------------------------------- from UTF-32

  predicate Large(ch: bv32) {
    ch > 0x10FFFF
  }

  predicate Faulty(ch: bv32, flags: Flags) {
    Large(ch) || (flags == Strict && Surrogate(ch))
  }

  ghost predicate NoneLarge(s: seq<bv32>) {
    forall k: nat :: k < |s| ==> !Large(s[k])
  }

  /** The promise: on SourceIllegal the source stands at the first faulty value. */
  ghost predicate PointsAtFault(src: seq<bv32>, flags: Flags, r: Outcome)
  {
    r.result == SourceIllegal ==>
      && r.taken < |src| && Faulty(src[r.taken], flags)
      && forall k: nat :: k < r.taken ==> !Faulty(src[k], flags)
  }

  /** The values before the first that is an error at once. */
  function Reached(src: seq<bv32>, flags: Flags): (n: nat)
    ensures n <= |src|
    ensures flags == Lenient ==> n == |src|
    ensures n < |src| ==> Surrogate(src[n])
    ensures flags == Strict ==> forall k: nat :: k < n ==> !Surrogate(src[k])
  {
    if src == [] || (flags == Strict && Surrogate(src[0])) then 0 else 1 + Reached(src[1..], flags)
  }

  /** A step over UTF-32 that stops only at a surrogate, and goes on past large values, of which it may keep a
      record. */
  ghost predicate Encodes<T>(step: seq<bv32> -> Step<T>, flags: Flags, records: bool) {
    forall src: seq<bv32> :: src != [] ==>
      match step(src)
      case Halt(_, result) => result == SourceIllegal && flags == Strict && Surrogate(src[0])
      case Emit(_, take, _, illegal) =>
        take == 1 && !(flags == Strict && Surrogate(src[0])) && (illegal <==> records && Large(src[0]))
  }

  lemma BothEncode(flags: Flags)
    ensures Encodes(To8From32(flags), flags, true)
    ensures Encodes(To16From32(flags), flags, flags == Strict)
  {
    hide Bytes, Width, Units;
  }

  /** Whatever the source, the room and the flag: how far such a run comes, and what it reports. */
  lemma {:induction false} EncoderStops<T>(step: seq<bv32> -> Step<T>, flags: Flags, records: bool, src: seq<bv32>,
                                           room: nat, res: Result)
    requires Lawful(step) && Encodes(step, flags, records) && (res == ConversionOK || res == SourceIllegal)
    ensures
      var r := Run(step, src, room, res);
      && r.taken <= Reached(src, flags)
      && (r.result != TargetExhausted ==> r.taken == Reached(src, flags))
      && r.before == (if records && !NoneLarge(src[..r.taken]) then SourceIllegal else res)
      && (r.result == TargetExhausted || r.result == if r.taken < |src| then SourceIllegal else r.before)
    decreases |src|
  {
    hide Large, Surrogate, Run, Lawful;
    if src == [] || room < step(src).need || step(src).Halt? {
      RunEnds(step, src, room, res);
    } else {
      var e, rest := step(src), src[1..];
      RunEmits(step, src, room, res);
      var left, now := room - |e.put|, Recorded(e, res);
      EncoderStops(step, flags, records, rest, left, now);
      OneMore(src, Run(step, rest, left, now).taken);
    }
  }

  lemma OneMore(src: seq<bv32>, taken: nat)
    requires src != [] && taken < |src|
    ensures NoneLarge(src[..1 + taken]) <==> !Large(src[0]) && NoneLarge(src[1..][..taken])
  {
    assert src[..1 + taken] == [src[0]] + src[1..][..taken];
  }

  /** A call that reports an illegal value keeps the promise exactly if it took no large value. */
  lemma PointsAtFaultExactly<T>(step: seq<bv32> -> Step<T>, flags: Flags, src: seq<bv32>, room: nat)
    requires Lawful(step) && Encodes(step, flags, true)
    ensures
      var r := Run(step, src, room, ConversionOK);
      && r.taken <= |src|
      && (r.result == SourceIllegal ==> (PointsAtFault(src, flags, r) <==> NoneLarge(src[..r.taken])))
  {
    hide Large, Surrogate, Run;
    EncoderStops(step, flags, true, src, room, ConversionOK);
  }

  /** Whatever the room, the promise is kept on exactly the sources with no large value before the first
      surrogate, or none at all where surrogates are let through. */
  lemma PromiseKeptExactly<T>(step: seq<bv32> -> Step<T>, flags: Flags, src: seq<bv32>)
    requires Lawful(step) && Encodes(step, flags, true)
    ensures (forall room: nat :: PointsAtFault(src, flags, Run(step, src, room, ConversionOK)))
       <==> NoneLarge(src[..Reached(src, flags)])
  {
    hide Large, Surrogate, Run, Whole, Lawful, Encodes, PointsAtFault, NoneLarge;
    if NoneLarge(src[..Reached(src, flags)]) {
      forall room: nat
        ensures PointsAtFault(src, flags, Run(step, src, room, ConversionOK))
      {
        PointsWhenNoneLarge(step, flags, src, room);
      }
    } else {
      var room := |Whole(step, src, ConversionOK).out| + 1;
      RunIsWhole(step, src, room, ConversionOK);
      PassesLarge(step, flags, src, room);
    }
  }

  lemma PointsWhenNoneLarge<T>(step: seq<bv32> -> Step<T>, flags: Flags, src: seq<bv32>, room: nat)
    requires Lawful(step) && Encodes(step, flags, true) && NoneLarge(src[..Reached(src, flags)])
    ensures PointsAtFault(src, flags, Run(step, src, room, ConversionOK))
  {
    hide Large, Surrogate, Run;
    EncoderStops(step, flags, true, src, room, ConversionOK);
    PointsAtFaultExactly(step, flags, src, room);
  }

  lemma PassesLarge<T>(step: seq<bv32> -> Step<T>, flags: Flags, src: seq<bv32>, room: nat)
    requires Lawful(step) && Encodes(step, flags, true) && !NoneLarge(src[..Reached(src, flags)])
    requires Run(step, src, room, ConversionOK).result != TargetExhausted
    ensures !PointsAtFault(src, flags, Run(step, src, room, ConversionOK))
  {
    hide Large, Surrogate, Run;
    EncoderStops(step, flags, true, src, room, ConversionOK);
    PointsAtFaultExactly(step, flags, src, room);
  }

  /** The encoders that report illegal values, on every source, and call by call with every room. */
  lemma EncodersPointAtFault(src: seq<bv32>, flags: Flags, room: nat)
    ensures (forall room: nat :: PointsAtFault(src, flags, Run(To8From32(flags), src, room, ConversionOK)))
       <==> NoneLarge(src[..Reached(src, flags)])
    ensures (forall room: nat :: PointsAtFault(src, Strict, Run(To16From32(Strict), src, room, ConversionOK)))
       <==> NoneLarge(src[..Reached(src, Strict)])
    ensures
      var r := Run(To8From32(flags), src, room, ConversionOK);
      r.result == SourceIllegal ==> r.taken <= |src| && (PointsAtFault(src, flags, r) <==> NoneLarge(src[..r.taken]))
    ensures
      var r := Run(To16From32(Strict), src, room, ConversionOK);
      r.result == SourceIllegal ==> r.taken <= |src| && (PointsAtFault(src, Strict, r) <==> NoneLarge(src[..r.taken]))
  {
    hide *;
    BothEncode(flags);
    BothEncode(Strict);
    PromiseKeptExactly(To8From32(flags), flags, src);
    PromiseKeptExactly(To16From32(Strict), Strict, src);
    PointsAtFaultExactly(To8From32(flags), flags, src, room);
    PointsAtFaultExactly(To16From32(Strict), Strict, src, room);
  }

  /** A source whose large value the encoders pass over, and then report from behind it. */
  lemma LargeIsPassedOver(flags: Flags)
    ensures exists room: nat :: !PointsAtFault([0x110000, 0x41], flags,
              Run(To8From32(flags), [0x110000, 0x41], room, ConversionOK))
    ensures exists room: nat :: !PointsAtFault([0x110000, 0x41], Strict,
              Run(To16From32(Strict), [0x110000, 0x41], room, ConversionOK))
  {
    var src: seq<bv32> := [0x110000, 0x41];
    assert !Surrogate(src[0]) && Large(src[0]);
    assert Reached(src, flags) > 0 && Reached(src, Strict) > 0;
    assert !NoneLarge(src[..Reached(src, flags)]) && !NoneLarge(src[..Reached(src, Strict)]);
    hide *;
    EncodersPointAtFault(src, flags, 0);
  }

  /** What the strict encoder to UTF-16 and both encoders to UTF-8 report: an illegal value exactly if they stop at
      a surrogate or, having taken the whole source, took a large value. The lenient one to UTF-16 reports none. */
  lemma EncodersReport(src: seq<bv32>, flags: Flags, room: nat)
    ensures
      var r := Run(To8From32(flags), src, room, ConversionOK);
      && r.taken <= |src|
      && (r.result == SourceIllegal && r.taken < |src| ==> flags == Strict && Surrogate(src[r.taken]))
      && (r.result != TargetExhausted && r.taken == |src| ==> (r.result == SourceIllegal <==> !NoneLarge(src)))
    ensures
      var r := Run(To16From32(flags), src, room, ConversionOK);
      && r.taken <= |src|
      && (r.result == SourceIllegal && r.taken < |src| ==> flags == Strict && Surrogate(src[r.taken]))
      && (r.result != TargetExhausted && r.taken == |src| ==>
          (r.result == SourceIllegal <==> flags == Strict && !NoneLarge(src)))
  {
    hide Large, Surrogate, Run, To8From32, To16From32, NoneLarge, Encodes;
    BothEncode(flags);
    EncoderStops(To8From32(flags), flags, true, src, room, ConversionOK);
    EncoderStops(To16From32(flags), flags, flags == Strict, src, room, ConversionOK);
    assert src[..|src|] == src;
  }

  // -------------------------------------------------------------------- large values

  ghost function Replaced(src: seq<bv32>): (s: seq<bv32>)
    ensures |s| == |src|
  {
    if src == [] then [] else [if Large(src[0]) then 0xFFFD else src[0]] + Replaced(src[1..])
  }

  ghost function WithoutLarge(src: seq<bv32>): seq<bv32> {
    if src == [] then []
    else if Large(src[0]) then WithoutLarge(src[1..])
    else [src[0]] + WithoutLarge(src[1..])
  }

  lemma ReplacementBytes()
    ensures Bytes(0xFFFD) == [0xEF, 0xBF, 0xBD]
  {
  }

  lemma StepReplaced(src: seq<bv32>, flags: Flags)
    requires src != []
    ensures
      var e, f := To8From32(flags)(src), To8From32(flags)(Replaced(src));
      && e.need == f.need && e.Halt? == f.Halt?
      && if e.Halt? then e.result == f.result else e.take == f.take == 1 && e.put == f.put
  {
    ReplacementBytes();
    hide Bytes, Width;
    assert Replaced(src)[0] == if Large(src[0]) then 0xFFFD else src[0];
    assert !Surrogate(0xFFFD);
  }

  lemma RestReplaced(src: seq<bv32>)
    requires src != []
    ensures Replaced(src)[1..] == Replaced(src[1..])
  {
  }

  lemma NothingReplaced(flags: Flags, room: nat, res: Result, res': Result)
    ensures Replaced([]) == []
    ensures Run(To8From32(flags), [], room, res) == Outcome(0, [], res, res)
    ensures Run(To8From32(flags), [], room, res') == Outcome(0, [], res', res')
  {
  }

  /** The encoder to UTF-8 does to every source what it does to one with U+FFFD for every large value, its report
      apart. */
  lemma {:induction false} LargeAreReplaced(src: seq<bv32>, flags: Flags, room: nat, res: Result, res': Result)
    ensures
      var r, o := Run(To8From32(flags), src, room, res), Run(To8From32(flags), Replaced(src), room, res');
      r.taken == o.taken && r.out == o.out
    decreases |src|
  {
    hide To8From32, Run, Lawful, Replaced, Large;
    if src == [] {
      NothingReplaced(flags, room, res, res');
    } else {
      StepReplaced(src, flags);
      RestReplaced(src);
      var e, f := To8From32(flags)(src), To8From32(flags)(Replaced(src));
      if e.Emit? && room >= e.need {
        RunEmits(To8From32(flags), src, room, res);
        RunEmits(To8From32(flags), Replaced(src), room, res');
        LargeAreReplaced(src[1..], flags, room - |e.put|, Recorded(e, res), Recorded(f, res'));
      } else {
        RunEnds(To8From32(flags), src, room, res);
        RunEnds(To8From32(flags), Replaced(src), room, res');
      }
    }
  }

  /** The strict encoder to UTF-16 writes for every source what it writes for the source without its large values. */
  lemma {:induction false} LargeAreLeftOut(src: seq<bv32>, res: Result, res': Result)
    ensures Whole(To16From32(Strict), src, res).out == Whole(To16From32(Strict), WithoutLarge(src), res').out
    decreases |src|
  {
    hide To16From32, Large, Lawful;
    if src != [] {
      StepLeftOut(src);
      var e := To16From32(Strict)(src);
      if Large(src[0]) {
        LargeAreLeftOut(src[1..], Recorded(e, res), res');
      } else if e.Emit? {
        assert WithoutLarge(src)[1..] == WithoutLarge(src[1..]);
        LargeAreLeftOut(src[1..], Recorded(e, res), Recorded(e, res'));
      }
    }
  }

  lemma StepLeftOut(src: seq<bv32>)
    requires src != []
    ensures
      var e := To16From32(Strict)(src);
      if Large(src[0]) then e == Emit(1, 1, [], true)
      else WithoutLarge(src) != [] && e == To16From32(Strict)(WithoutLarge(src)) && (e.Emit? ==> e.take == 1)
  {
    hide Units;
  }

  /** U+FFFD for each surrogate and each large value. */
  ghost function AllReplaced(src: seq<bv32>): (s: seq<bv32>)
    ensures |s| == |src|
    ensures forall k :: 0 <= k < |src| ==> s[k] == if Large(src[k]) || Surrogate(src[k]) then 0xFFFD else src[k]
    ensures forall k :: 0 <= k < |src| ==> Scalar(s[k])
  {
    if src == [] then []
    else
      var first: bv32 := if Large(src[0]) || Surrogate(src[0]) then 0xFFFD else src[0];
      [first] + AllReplaced(src[1..])
  }

  lemma StepAllReplaced(src: seq<bv32>)
    requires src != []
    ensures To16From32(Lenient)(src) == To16From32(Lenient)(AllReplaced(src))
    ensures To16From32(Lenient)(src).Emit? && To16From32(Lenient)(src).take == 1
    ensures AllReplaced(src)[1..] == AllReplaced(src[1..])
  {
    ReplacementUnit();
    hide Units;
    assert AllReplaced(src)[0] == if Large(src[0]) || Surrogate(src[0]) then 0xFFFD else src[0];
  }

  lemma ReplacementUnit()
    ensures Units(0xFFFD) == [0xFFFD] && !Surrogate(0xFFFD)
  {
  }

  /** The lenient encoder to UTF-16 does to every source what it does to the one with U+FFFD for every surrogate and
      every large value, with every room. */
  lemma {:induction false} AllAreReplaced(src: seq<bv32>, room: nat, res: Result)
    ensures Run(To16From32(Lenient), src, room, res) == Run(To16From32(Lenient), AllReplaced(src), room, res)
    decreases |src|
  {
    hide To16From32, Large, Surrogate, Scalar, Run, Lawful, AllReplaced;
    if src == [] {
      NoneReplaced(room, res);
    } else {
      StepAllReplaced(src);
      var e := To16From32(Lenient)(src);
      if room >= e.need {
        RunEmits(To16From32(Lenient), src, room, res);
        RunEmits(To16From32(Lenient), AllReplaced(src), room, res);
        AllAreReplaced(src[1..], room - |e.put|, Recorded(e, res));
      } else {
        RunEnds(To16From32(Lenient), src, room, res);
        RunEnds(To16From32(Lenient), AllReplaced(src), room, res);
      }
    }
  }

  lemma NoneReplaced(room: nat, res: Result)
    ensures AllReplaced([]) == []
  {
  }

  /** So with room enough it writes the UTF-16 of those scalar values. */
  lemma LenientWrites(src: seq<bv32>)
    ensures
      Whole(To16From32(Lenient), src, ConversionOK)
      == Outcome(|src|, Encoded16(AllReplaced(src)), ConversionOK, ConversionOK)
  {
    hide To16From32, Large, Surrogate, Scalar, Run, Whole, Lawful, Encoded16;
    var all := AllReplaced(src);
    var room := |Whole(To16From32(Lenient), src, ConversionOK).out|
        + |Whole(To16From32(Lenient), all, ConversionOK).out| + 1;
    RunIsWhole(To16From32(Lenient), src, room, ConversionOK);
    RunIsWhole(To16From32(Lenient), all, room, ConversionOK);
    AllAreReplaced(src, room, ConversionOK);
    EncodesTo16(all, Lenient, ConversionOK);
  }

  // -------------------------------------------------------------------- from UTF-16 and UTF-8

  /** The other four converters stop at whatever they report: before it all is as it should be. */
  lemma {:induction false} StopsAtMalformed8<T>(step: seq<bv8> -> Step<T>, b: seq<bv8>, room: nat)
    requires Lawful(step) && Decodes8(step)
    ensures
      var r := Run(step, b, room, ConversionOK);
      && r.taken <= |b| && Accepted8(b[..r.taken]) && r.before == ConversionOK
      && (r.result == SourceIllegal ==> r.taken < |b| && Read8(b[r.taken..]) == Stop(SourceIllegal))
    decreases |b|
  {
    hide Read8, Accepted8, Lawful, Run;
    if b == [] || room < step(b).need || step(b).Halt? {
      RunEnds(step, b, room, ConversionOK);
      NoneTaken8(b);
      assert b[0..] == b;
    } else {
      var e := step(b);
      RunEmits(step, b, room, ConversionOK);
      var rest := b[e.take..];
      StopsAtMalformed8(step, rest, room - |e.put|);
      var taken := Run(step, rest, room - |e.put|, ConversionOK).taken;
      AcceptsOneMore(b, e.take, taken);
      assert rest[taken..] == b[e.take + taken..];
    }
  }

  lemma NoneTaken8(b: seq<bv8>)
    ensures Accepted8(b[..0])
  {
  }

  ghost predicate Decodes8<T>(step: seq<bv8> -> Step<T>) {
    forall b: seq<bv8> :: b != [] ==>
      match Read8(b)
      case Stop(result) => step(b) == Halt(0, result)
      case Char(_, take) => step(b).Emit? && step(b).take == take && !step(b).illegal
  }

  lemma BothDecode8(flags: Flags)
    ensures Decodes8(To32From8(flags)) && Decodes8(To16From8(flags))
  {
    hide To32From8, To16From8, Read8, Units;
    forall b: seq<bv8> | b != [] {
      SameReading8(b, flags);
    }
  }

  lemma AcceptsOneMore(b: seq<bv8>, n: nat, taken: nat)
    requires b != [] && Read8(b).Char? && n == Read8(b).take && n + taken <= |b| && Accepted8(b[n..][..taken])
    ensures Accepted8(b[..n + taken])
  {
    hide Read8, WellFormed, LooseSecond;
    ReadAccepts(b);
    var a := b[..n + taken];
    assert a[..n] == b[..n] && a[n..] == b[n..][..taken];
  }

  /** A whole sequence, neither well-formed nor let through with a loose second byte. */
  predicate Malformed(b: seq<bv8>)
    requires b != []
  {
    var n := Trailing(b[0]) + 1;
    n <= |b| && !WellFormed(b[..n]) && !LooseSecond(b[..n])
  }

  lemma FaultIsMalformed(b: seq<bv8>)
    requires b != []
    ensures Read8(b) == Stop(SourceIllegal) <==> Malformed(b)
  {
    hide IsLegal, WellFormed, LooseSecond, Payload;
    var n := Trailing(b[0]) + 1;
    if n <= |b| {
      LegalExactly(b[..n]);
    }
  }

  /** UTF-8 decoders keep the promise always: they stand at a malformed sequence, and take none. */
  lemma DecodersPointAtFault8(b: seq<bv8>, flags: Flags, room: nat)
    ensures
      var r := Run(To32From8(flags), b, room, ConversionOK);
      && r.taken <= |b| && Accepted8(b[..r.taken])
      && (r.result == SourceIllegal ==> r.taken < |b| && Malformed(b[r.taken..]))
    ensures
      var r := Run(To16From8(flags), b, room, ConversionOK);
      && r.taken <= |b| && Accepted8(b[..r.taken])
      && (r.result == SourceIllegal ==> r.taken < |b| && Malformed(b[r.taken..]))
  {
    hide *;
    BothDecode8(flags);
    forall rest: seq<bv8> | rest != []
      ensures Read8(rest) == Stop(SourceIllegal) <==> Malformed(rest)
    {
      FaultIsMalformed(rest);
    }
    StopsAtMalformed8(To32From8(flags), b, room);
    StopsAtMalformed8(To16From8(flags), b, room);
  }

  ghost predicate Decodes16<T>(step: seq<bv16> -> Step<T>, flags: Flags) {
    forall u: seq<bv16> :: u != [] ==>
      match Read16(u, flags)
      case Stop(result) => step(u) == Halt(0, result)
      case Char(_, take) => step(u).Emit? && step(u).take == take && !step(u).illegal
  }

  lemma BothDecode16(flags: Flags)
    ensures Decodes16(To32From16(flags), flags) && Decodes16(To8From16(flags), flags)
  {
    hide To32From16, To8From16, Read16, Bytes, Width;
    forall u: seq<bv16> | u != [] {
      SameReading16(u, flags);
    }
  }

  lemma PairsOneMore(u: seq<bv16>, n: nat, taken: nat)
    requires u != [] && Read16(u, Strict).Char? && n == Read16(u, Strict).take && n + taken <= |u|
    requires WellFormed16(u[n..][..taken])
    ensures WellFormed16(u[..n + taken])
  {
    hide Paired;
    var a := u[..n + taken];
    assert a[n..] == u[n..][..taken];
  }

  lemma {:induction false} StopsAtMalformed16<T>(step: seq<bv16> -> Step<T>, u: seq<bv16>, flags: Flags, room: nat)
    requires Lawful(step) && Decodes16(step, flags)
    ensures
      var r := Run(step, u, room, ConversionOK);
      && r.taken <= |u| && (flags == Strict ==> WellFormed16(u[..r.taken])) && r.before == ConversionOK
      && (r.result == SourceIllegal ==> r.taken < |u| && Read16(u[r.taken..], flags) == Stop(SourceIllegal))
    decreases |u|
  {
    hide Read16, WellFormed16, Lawful, Run;
    if u == [] || room < step(u).need || step(u).Halt? {
      RunEnds(step, u, room, ConversionOK);
      NoneTaken16(u);
      assert u[0..] == u;
    } else {
      var e := step(u);
      RunEmits(step, u, room, ConversionOK);
      var rest := u[e.take..];
      StopsAtMalformed16(step, rest, flags, room - |e.put|);
      var taken := Run(step, rest, room - |e.put|, ConversionOK).taken;
      if flags == Strict {
        PairsOneMore(u, e.take, taken);
      }
      assert rest[taken..] == u[e.take + taken..];
    }
  }

  lemma NoneTaken16(u: seq<bv16>)
    ensures WellFormed16(u[..0])
  {
  }

  /** A surrogate with nothing to pair it with. */
  predicate Unpaired(u: seq<bv16>)
    requires u != []
  {
    Low(u[0]) || (High(u[0]) && |u| > 1 && !Low(u[1]))
  }

  lemma FaultIsUnpaired(u: seq<bv16>, flags: Flags)
    requires u != []
    ensures Read16(u, flags) == Stop(SourceIllegal) <==> flags == Strict && Unpaired(u)
  {
  }

  /** UTF-16 decoders keep the promise always: they stand at an unpaired surrogate, and when strict take none. */
  lemma DecodersPointAtFault16(u: seq<bv16>, flags: Flags, room: nat)
    ensures
      var r := Run(To32From16(flags), u, room, ConversionOK);
      && r.taken <= |u| && (flags == Strict ==> WellFormed16(u[..r.taken]))
      && (r.result == SourceIllegal ==> flags == Strict && r.taken < |u| && Unpaired(u[r.taken..]))
    ensures
      var r := Run(To8From16(flags), u, room, ConversionOK);
      && r.taken <= |u| && (flags == Strict ==> WellFormed16(u[..r.taken]))
      && (r.result == SourceIllegal ==> flags == Strict && r.taken < |u| && Unpaired(u[r.taken..]))
  {
    hide *;
    BothDecode16(flags);
    forall rest: seq<bv16> | rest != []
      ensures Read16(rest, flags) == Stop(SourceIllegal) <==> flags == Strict && Unpaired(rest)
    {
      FaultIsUnpaired(rest, flags);
    }
    StopsAtMalformed16(To32From16(flags), u, flags, room);
    StopsAtMalformed16(To8From16(flags), u, flags, room);
  }

  // -------------------------------------------------------------------- a full target

  /** A step asks for the room of what it writes, and for one unit if it writes nothing. */
  predicate Tight<T>(e: Step<T>) {
    e.Emit? ==> e.need == |e.put| || (e.put == [] && e.need == 1)
  }

  ghost predicate AllTight<S(!new), T>(step: seq<S> -> Step<T>) {
    forall src: seq<S> :: src != [] ==> Tight(step(src))
  }

  lemma ConvertersAreTight(flags: Flags)
    ensures AllTight(To16From32(flags)) && AllTight(To8From32(flags))
    ensures AllTight(To32From16(flags)) && AllTight(To8From16(flags))
    ensures AllTight(To32From8(flags)) && AllTight(To16From8(flags))
  {
    hide Read16, Read8, Bytes, Width, Units;
    forall src: seq<bv32> | src != []
      ensures Tight(To8From32(flags)(src))
    {
      ReplacementBytes();
      WidthIsLength(src[0]);
    }
    forall u: seq<bv16> | u != []
      ensures Tight(To32From16(flags)(u)) && Tight(To8From16(flags)(u))
    {
      SameReading16(u, flags);
      if Read16(u, flags).Char? {
        WidthIsLength(Read16(u, flags).ch);
      }
    }
    forall b: seq<bv8> | b != []
      ensures Tight(To32From8(flags)(b)) && Tight(To16From8(flags)(b))
    {
      SameReading8(b, flags);
    }
  }

  lemma WidthIsLength(ch: bv32)
    ensures ch <= 0x10FFFF ==> |Bytes(ch)| == Width(ch)
  {
  }

  /** A call reports a full target only where the next character does not fit, or nothing does. */
  lemma {:induction false} FullTarget<S(!new), T>(step: seq<S> -> Step<T>, src: seq<S>, room: nat, res: Result)
    requires Lawful(step) && AllTight(step) && res != TargetExhausted
    ensures
      var r := Run(step, src, room, res);
      r.result == TargetExhausted ==>
        && r.taken < |src| && |r.out| <= room
        && var e := step(src[r.taken..]);
           room == |r.out| || (e.Emit? && room - |r.out| < |e.put|)
    decreases |src|
  {
    hide Run, Lawful;
    if src == [] || room < step(src).need || step(src).Halt? {
      RunEnds(step, src, room, res);
      assert src[0..] == src;
      if src != [] {
        NeedsLittle(step, src);
      }
    } else {
      var e := step(src);
      RunEmits(step, src, room, res);
      var rest := src[e.take..];
      FullTarget(step, rest, room - |e.put|, Recorded(e, res));
      var t := Run(step, rest, room - |e.put|, Recorded(e, res));
      assert t.taken <= |rest| ==> rest[t.taken..] == src[e.take + t.taken..];
    }
  }

  lemma NeedsLittle<S(!new), T>(step: seq<S> -> Step<T>, src: seq<S>)
    requires Lawful(step) && AllTight(step) && src != []
    ensures step(src).Halt? ==> step(src).need <= 1 && step(src).result != TargetExhausted
    ensures step(src).Emit? ==> step(src).need <= 1 || step(src).need == |step(src).put|
  {
    assert Proper(step(src), |src|) && Tight(step(src));
  }

  /** At an illegal value with no room left, the encoder to UTF-16 reports the full target, the others the value. */
  lemma FullBeforeIllegal(src: seq<bv32>, flags: Flags)
    requires src != []
    ensures Run(To16From32(flags), src, 0, ConversionOK) == Outcome(0, [], TargetExhausted, ConversionOK)
    ensures Surrogate(src[0]) && flags == Strict ==>
              Run(To8From32(flags), src, 0, ConversionOK) == Outcome(0, [], SourceIllegal, ConversionOK)
  {
    hide Units, Bytes;
    RunEnds(To16From32(flags), src, 0, ConversionOK);
  }

  lemma IllegalBeforeFull(b: seq<bv8>, u: seq<bv16>, flags: Flags)
    ensures b != [] && Malformed(b) ==>
              && Run(To32From8(flags), b, 0, ConversionOK) == Outcome(0, [], SourceIllegal, ConversionOK)
              && Run(To16From8(flags), b, 0, ConversionOK) == Outcome(0, [], SourceIllegal, ConversionOK)
    ensures u != [] && flags == Strict && Unpaired(u) ==>
              && Run(To32From16(flags), u, 0, ConversionOK) == Outcome(0, [], SourceIllegal, ConversionOK)
              && Run(To8From16(flags), u, 0, ConversionOK) == Outcome(0, [], SourceIllegal, ConversionOK)
  {
    hide Read16, Read8, Malformed, Unpaired, To32From8, To16From8, To32From16, To8From16, Lawful;
    if b != [] {
      FaultIsMalformed(b);
      SameReading8(b, flags);
    }
    if u != [] {
      FaultIsUnpaired(u, flags);
      SameReading16(u, flags);
    }
  }
}
