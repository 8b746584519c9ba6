/** The converters of tool/ConvertUTF.cpp between UTF-8, UTF-16 and UTF-32, after RFC 3629 and RFC 2781. */
module ConvertUtf {
  import opened Transcoding


  predicate Surrogate(ch: bv32) {
    0xD800 <= ch <= 0xDFFF
  }

  predicate Scalar(ch: bv32) {
    ch <= 0x10FFFF && !Surrogate(ch)
  }

  predicate High(w: bv16) {
    0xD800 <= w <= 0xDBFF
  }

  predicate Low(w: bv16) {
    0xDC00 <= w <= 0xDFFF
  }

  // -------------------------------------------------------------------- characters

  /** Section 2.1 of RFC 2781. */
  function HighOf(ch: bv32): bv16
    requires 0xFFFF < ch <= 0x10FFFF
  {
    (((ch - 0x10000) >> 10) + 0xD800) as bv16
  }

  function LowOf(ch: bv32): bv16
    requires 0xFFFF < ch <= 0x10FFFF
  {
    (((ch - 0x10000) & 0x3FF) + 0xDC00) as bv16
  }

  function Units(ch: bv32): (u: seq<bv16>)
    requires ch <= 0x10FFFF
    ensures 1 <= |u| <= 2
  {
    if ch <= 0xFFFF then [ch as bv16] else [HighOf(ch), LowOf(ch)]
  }

  /** Section 2.2 of RFC 2781. */
  function Paired(high: bv16, low: bv16): bv32 {
    ((high as bv32 - 0xD800) << 10) + (low as bv32 - 0xDC00) + 0x10000
  }

  /** Section 3 of RFC 3629: a continuation byte carries six bits. */
  function Tail(x: bv32): bv8 {
    (0x80 + (x & 0x3F)) as bv8
  }

  /** The lead byte of a sequence of n bytes carries the bits above the continuation bytes'. */
  function Lead(ch: bv32, n: nat): bv8
    requires 1 <= n <= 4 && ch <= 0x10FFFF && n == Width(ch)
  {
    if n == 1 then ch as bv8
    else if n == 2 then (0xC0 + (ch >> 6)) as bv8
    else if n == 3 then (0xE0 + (ch >> 12)) as bv8
    else (0xF0 + (ch >> 18)) as bv8
  }

  function Width(ch: bv32): (n: nat)
    ensures 1 <= n <= 4
  {
    if ch < 0x80 then 1 else if ch < 0x800 then 2 else if ch < 0x10000 then 3 else 4
  }

  function Bytes(ch: bv32): (b: seq<bv8>)
    requires ch <= 0x10FFFF
    ensures |b| == Width(ch)
  {
    var n := Width(ch);
    if n == 1 then [Lead(ch, n)]
    else if n == 2 then [Lead(ch, n), Tail(ch)]
    else if n == 3 then [Lead(ch, n), Tail(ch >> 6), Tail(ch)]
    else [Lead(ch, n), Tail(ch >> 12), Tail(ch >> 6), Tail(ch)]
  }

  function Two(a: bv8, b: bv8): bv32 {
    (a as bv32 - 0xC0) * 0x40 + (b as bv32 - 0x80)
  }

  function Three(a: bv8, b: bv8, c: bv8): bv32 {
    (a as bv32 - 0xE0) * 0x1000 + (b as bv32 - 0x80) * 0x40 + (c as bv32 - 0x80)
  }

  function Four(a: bv8, b: bv8, c: bv8, d: bv8): bv32 {
    (a as bv32 - 0xF0) * 0x40000 + (b as bv32 - 0x80) * 0x1000 + (c as bv32 - 0x80) * 0x40 + (d as bv32 - 0x80)
  }

  /** The bits of a sequence put together, with 32-bit wrap-around where a byte is below its marker. */
  function Payload(s: seq<bv8>): bv32
    requires 1 <= |s| <= 4
  {
    if |s| == 1 then s[0] as bv32
    else if |s| == 2 then Two(s[0], s[1])
    else if |s| == 3 then Three(s[0], s[1], s[2])
    else Four(s[0], s[1], s[2], s[3])
  }

  predicate IsTail(b: bv8) {
    0x80 <= b <= 0xBF
  }

  /** Section 4 of RFC 3629. */
  predicate WellFormed(s: seq<bv8>) {
    if |s| == 1 then s[0] <= 0x7F
    else if |s| == 2 then 0xC2 <= s[0] <= 0xDF && IsTail(s[1])
    else if |s| == 3 then
      && IsTail(s[2])
      && (|| (s[0] == 0xE0 && 0xA0 <= s[1] <= 0xBF)
          || (0xE1 <= s[0] <= 0xEC && IsTail(s[1]))
          || (s[0] == 0xED && 0x80 <= s[1] <= 0x9F)
          || (0xEE <= s[0] <= 0xEF && IsTail(s[1])))
    else
      && |s| == 4 && IsTail(s[2]) && IsTail(s[3])
      && (|| (s[0] == 0xF0 && 0x90 <= s[1] <= 0xBF)
          || (0xF1 <= s[0] <= 0xF3 && IsTail(s[1]))
          || (s[0] == 0xF4 && 0x80 <= s[1] <= 0x8F))
  }

  /** `trailingBytesForUTF8`, by ranges of its index. */
  function Trailing(lead: bv8): nat {
    if lead < 0xC0 then 0 else if lead < 0xE0 then 1 else if lead < 0xF0 then 2 else if lead < 0xF8 then 3
    else if lead < 0xFC then 4 else 5
  }

  /** A lead byte has one bit set for each byte of its sequence, before the first clear one; others stand alone. */
  lemma TrailingBits(lead: bv8)
    ensures lead & 0x80 == 0 || lead & 0xC0 == 0x80 ==> Trailing(lead) == 0
    ensures lead & 0xE0 == 0xC0 ==> Trailing(lead) == 1
    ensures lead & 0xF0 == 0xE0 ==> Trailing(lead) == 2
    ensures lead & 0xF8 == 0xF0 ==> Trailing(lead) == 3
    ensures lead & 0xFC == 0xF8 ==> Trailing(lead) == 4
    ensures lead & 0xFC == 0xFC ==> Trailing(lead) == 5
  {
  }

  predicate SecondByte(lead: bv8, a: bv8) {
    if lead == 0xE0 then a >= 0xA0
    else if lead == 0xED then a <= 0x9F
    else if lead == 0xF0 then a >= 0x90
    else if lead == 0xF4 then a <= 0x8F
    else a >= 0x80
  }

  /** `isLegalUTF8`, on a sequence of the given length. */
  predicate IsLegal(s: seq<bv8>)
    requires s != []
  {
    && |s| <= 4
    && (|s| == 4 ==> IsTail(s[3]))
    && (|s| >= 3 ==> IsTail(s[2]))
    && (|s| >= 2 ==> s[1] <= 0xBF && SecondByte(s[0], s[1]))
    && !(s[0] >= 0x80 && s[0] < 0xC2)
    && !(s[0] > 0xF4)
  }

  /** What the check lets through beside the well-formed sequences: it gives the second byte after ED and F4 no
      lower bound. */
  predicate LooseSecond(s: seq<bv8>) {
    || (|s| == 3 && s[0] == 0xED && s[1] < 0x80 && IsTail(s[2]))
    || (|s| == 4 && s[0] == 0xF4 && s[1] < 0x80 && IsTail(s[2]) && IsTail(s[3]))
  }

  lemma LegalExactly(s: seq<bv8>)
    requires s != [] && |s| == Trailing(s[0]) + 1
    ensures IsLegal(s) <==> WellFormed(s) || LooseSecond(s)
    ensures !(WellFormed(s) && LooseSecond(s))
  {
  }

  lemma LooseIsScalar(s: seq<bv8>)
    requires LooseSecond(s)
    ensures Scalar(Payload(s))
  {
    if |s| == 3 {
      LooseThree(s[1], s[2]);
    } else {
      LooseFour(s[1], s[2], s[3]);
    }
  }

  lemma LooseThree(b: bv8, c: bv8)
    requires b < 0x80 && IsTail(c)
    ensures 0xB000 <= Three(0xED, b, c) <= 0xCFFF
  {
  }

  lemma LooseFour(b: bv8, c: bv8, d: bv8)
    requires b < 0x80 && IsTail(c) && IsTail(d)
    ensures 0x80000 <= Four(0xF4, b, c, d) <= 0xFFFFF
  {
  }

  /** A loose sequence is not the encoding of the character it is read as. */
  lemma LooseIsNotEncoding(s: seq<bv8>)
    requires LooseSecond(s)
    ensures Scalar(Payload(s)) && Bytes(Payload(s)) != s
  {
    assert |s| == 3 || |s| == 4;
    hide LooseSecond, Bytes, Payload, WellFormed, Trailing, Scalar;
    LooseIsScalar(s);
    EncodedIsWellFormed(Payload(s));
    LooseIsNotWellFormed(s);
  }

  lemma LooseIsNotWellFormed(s: seq<bv8>)
    ensures LooseSecond(s) ==> !WellFormed(s)
  {
  }

  lemma EncodedIsWellFormed(ch: bv32)
    requires Scalar(ch)
    ensures WellFormed(Bytes(ch)) && Trailing(Bytes(ch)[0]) + 1 == |Bytes(ch)|
  {
  }

  lemma TwoRoundTrip(ch: bv32)
    requires 0x80 <= ch < 0x800
    ensures Two(Lead(ch, 2), Tail(ch)) == ch
  {
  }

  lemma ThreeRoundTrip(ch: bv32)
    requires 0x800 <= ch < 0x10000
    ensures Three(Lead(ch, 3), Tail(ch >> 6), Tail(ch)) == ch
  {
  }

  lemma FourRoundTrip(ch: bv32)
    requires 0x10000 <= ch <= 0x10FFFF
    ensures Four(Lead(ch, 4), Tail(ch >> 12), Tail(ch >> 6), Tail(ch)) == ch
  {
  }

  lemma EncodedDecodes(ch: bv32)
    requires ch <= 0x10FFFF
    ensures Payload(Bytes(ch)) == ch
  {
    hide Two, Three, Four, Tail;
    var n := Width(ch);
    if n == 1 {
      assert (ch as bv8) as bv32 == ch;
    } else if n == 2 {
      TwoRoundTrip(ch);
    } else if n == 3 {
      ThreeRoundTrip(ch);
    } else {
      FourRoundTrip(ch);
    }
  }

  lemma OneDecoded(a: bv8)
    requires WellFormed([a])
    ensures a as bv32 < 0x80 && Lead(a as bv32, 1) == a && Trailing(a) == 0
  {
  }

  lemma TwoDecoded(a: bv8, b: bv8)
    requires WellFormed([a, b])
    ensures 0x80 <= Two(a, b) < 0x800 && Lead(Two(a, b), 2) == a && Tail(Two(a, b)) == b && Trailing(a) == 1
  {
  }

  lemma ThreeDecoded(a: bv8, b: bv8, c: bv8)
    requires WellFormed([a, b, c])
    ensures 0x800 <= Three(a, b, c) < 0x10000 && !Surrogate(Three(a, b, c)) && Trailing(a) == 2
    ensures Lead(Three(a, b, c), 3) == a && Tail(Three(a, b, c) >> 6) == b && Tail(Three(a, b, c)) == c
  {
  }

  lemma FourDecoded(a: bv8, b: bv8, c: bv8, d: bv8)
    requires WellFormed([a, b, c, d])
    ensures 0x10000 <= Four(a, b, c, d) <= 0x10FFFF && Trailing(a) == 3
    ensures Lead(Four(a, b, c, d), 4) == a && Tail(Four(a, b, c, d) >> 12) == b
    ensures Tail(Four(a, b, c, d) >> 6) == c && Tail(Four(a, b, c, d)) == d
  {
  }

  lemma ThreeEncodes(a: bv8, b: bv8, c: bv8)
    requires WellFormed([a, b, c])
    ensures Bytes(Three(a, b, c)) == [a, b, c]
  {
    ThreeDecoded(a, b, c);
    hide Three, Tail, Lead, WellFormed;
  }

  lemma FourEncodes(a: bv8, b: bv8, c: bv8, d: bv8)
    requires WellFormed([a, b, c, d])
    ensures Bytes(Four(a, b, c, d)) == [a, b, c, d]
  {
    FourDecoded(a, b, c, d);
    hide Four, Tail, Lead, WellFormed;
  }

  lemma DecodedEncodes(s: seq<bv8>)
    requires WellFormed(s)
    ensures Scalar(Payload(s)) && Bytes(Payload(s)) == s && |s| == Trailing(s[0]) + 1
  {
    WellFormedLength(s);
    hide Two, Three, Four, Tail, Lead, WellFormed, Trailing;
    if |s| == 1 {
      assert s == [s[0]];
      OneDecoded(s[0]);
    } else if |s| == 2 {
      assert s == [s[0], s[1]];
      TwoDecoded(s[0], s[1]);
    } else {
      hide Bytes;
      if |s| == 3 {
        assert s == [s[0], s[1], s[2]];
        ThreeDecoded(s[0], s[1], s[2]);
        ThreeEncodes(s[0], s[1], s[2]);
      } else {
        assert s == [s[0], s[1], s[2], s[3]];
        FourDecoded(s[0], s[1], s[2], s[3]);
        FourEncodes(s[0], s[1], s[2], s[3]);
      }
    }
  }

  /** Every sequence the check passes decodes to a scalar value, the loose ones too. */
  lemma LegalIsScalar(s: seq<bv8>)
    requires s != [] && |s| == Trailing(s[0]) + 1 && IsLegal(s)
    ensures Scalar(Payload(s))
  {
    hide Payload;
    LegalExactly(s);
    if WellFormed(s) {
      DecodedEncodes(s);
    } else {
      LooseIsScalar(s);
    }
  }

  lemma WellFormedLength(s: seq<bv8>)
    requires WellFormed(s)
    ensures 1 <= |s| <= 4
  {
  }

  lemma PairIsSurrogates(ch: bv32)
    requires 0xFFFF < ch <= 0x10FFFF
    ensures High(HighOf(ch)) && Low(LowOf(ch))
  {
  }

  lemma PairRoundTrip(ch: bv32)
    requires 0xFFFF < ch <= 0x10FFFF
    ensures Paired(HighOf(ch), LowOf(ch)) == ch
  {
  }

  lemma UnitsRoundTrip(h: bv16, l: bv16)
    requires High(h) && Low(l)
    ensures 0xFFFF < Paired(h, l) <= 0x10FFFF
    ensures HighOf(Paired(h, l)) == h && LowOf(Paired(h, l)) == l
  {
  }

  // -------------------------------------------------------------------- steps

  datatype Read = Stop(result: Result) | Char(ch: bv32, take: nat)

  /** A unit by itself, unpaired surrogates included. */
  function Plain(w: bv16): bv32 {
    w as bv32
  }

  /** Reading a UTF-16 character, unpaired surrogates included when lenient. */
  function Read16(src: seq<bv16>, flags: Flags): Read
    requires src != []
  {
    if High(src[0]) then
      if |src| == 1 then Stop(SourceExhausted)
      else if Low(src[1]) then Char(Paired(src[0], src[1]), 2)
      else if flags == Strict then Stop(SourceIllegal)
      else Char(Plain(src[0]), 1)
    else if Low(src[0]) && flags == Strict then Stop(SourceIllegal)
    else Char(Plain(src[0]), 1)
  }

  /** Reading a UTF-8 character. */
  function Read8(src: seq<bv8>): Read
    requires src != []
  {
    var n := Trailing(src[0]) + 1;
    if |src| < n then Stop(SourceExhausted)
    else if !IsLegal(src[..n]) then Stop(SourceIllegal)
    else Char(Payload(src[..n]), n)
  }

  function Step32To16(src: seq<bv32>, flags: Flags): (e: Step<bv16>)
    requires src != []
    ensures Proper(e, |src|)
  {
    var ch := src[0];
    if Surrogate(ch) then if flags == Strict then Halt(1, SourceIllegal) else Emit(1, 1, [0xFFFD], false)
    else if ch > 0x10FFFF then if flags == Strict then Emit(1, 1, [], true) else Emit(1, 1, [0xFFFD], false)
    else Emit(|Units(ch)|, 1, Units(ch), false)
  }

  function Step16To32(src: seq<bv16>, flags: Flags): (e: Step<bv32>)
    requires src != []
    ensures Proper(e, |src|)
  {
    Read16Bounded(src, flags);
    match Read16(src, flags)
    case Stop(result) => Halt(0, result)
    case Char(ch, take) => Emit(1, take, [ch], false)
  }

  lemma Read16Bounded(src: seq<bv16>, flags: Flags)
    requires src != []
    ensures
      match Read16(src, flags)
      case Stop(result) => result == SourceExhausted || result == SourceIllegal
      case Char(ch, take) => ch <= 0x10FFFF && 1 <= take <= |src| && (flags == Strict ==> Scalar(ch))
  {
    if High(src[0]) && |src| > 1 && Low(src[1]) {
      UnitsRoundTrip(src[0], src[1]);
    }
  }

  function Step16To8(src: seq<bv16>, flags: Flags): (e: Step<bv8>)
    requires src != []
    ensures Proper(e, |src|)
  {
    Read16Bounded(src, flags);
    match Read16(src, flags)
    case Stop(result) => Halt(0, result)
    case Char(ch, take) => Emit(Width(ch), take, Bytes(ch), false)
  }

  function Step32To8(src: seq<bv32>, flags: Flags): (e: Step<bv8>)
    requires src != []
    ensures Proper(e, |src|)
  {
    var ch := src[0];
    if Surrogate(ch) && flags == Strict then Halt(0, SourceIllegal)
    else if ch <= 0x10FFFF then Emit(Width(ch), 1, Bytes(ch), false)
    else Emit(3, 1, Bytes(0xFFFD), true)
  }

  function Step8To32(src: seq<bv8>, flags: Flags): (e: Step<bv32>)
    requires src != []
    ensures Proper(e, |src|)
  {
    match Read8(src)
    case Stop(result) => Halt(0, result)
    case Char(ch, take) =>
      if Surrogate(ch) then if flags == Strict then Halt(1, SourceIllegal) else Emit(1, take, [0xFFFD], false)
      else if ch <= 0x10FFFF then Emit(1, take, [ch], false)
      else Emit(1, take, [0xFFFD], true)
  }

  function Step8To16(src: seq<bv8>, flags: Flags): (e: Step<bv16>)
    requires src != []
    ensures Proper(e, |src|)
  {
    match Read8(src)
    case Stop(result) => Halt(0, result)
    case Char(ch, take) =>
      if Surrogate(ch) || ch > 0x10FFFF then
        if flags == Strict then Halt(1, SourceIllegal) else Emit(1, take, [0xFFFD], false)
      else Emit(|Units(ch)|, take, Units(ch), false)
  }

  function To16From32(flags: Flags): (f: seq<bv32> -> Step<bv16>)
    ensures Lawful(f)
  {
    src => if src == [] then Halt(0, SourceIllegal) else Step32To16(src, flags)
  }

  function To32From16(flags: Flags): (f: seq<bv16> -> Step<bv32>)
    ensures Lawful(f)
  {
    src => if src == [] then Halt(0, SourceIllegal) else Step16To32(src, flags)
  }

  function To8From16(flags: Flags): (f: seq<bv16> -> Step<bv8>)
    ensures Lawful(f)
  {
    src => if src == [] then Halt(0, SourceIllegal) else Step16To8(src, flags)
  }

  function To8From32(flags: Flags): (f: seq<bv32> -> Step<bv8>)
    ensures Lawful(f)
  {
    src => if src == [] then Halt(0, SourceIllegal) else Step32To8(src, flags)
  }

  function To32From8(flags: Flags): (f: seq<bv8> -> Step<bv32>)
    ensures Lawful(f)
  {
    src => if src == [] then Halt(0, SourceIllegal) else Step8To32(src, flags)
  }

  function To16From8(flags: Flags): (f: seq<bv8> -> Step<bv16>)
    ensures Lawful(f)
  {
    src => if src == [] then Halt(0, SourceIllegal) else Step8To16(src, flags)
  }

  // -------------------------------------------------------------------- converters

  lemma Is32To16(source: seq<bv32>, s: nat, flags: Flags)
    requires s < |source|
    ensures To16From32(flags)(source[s..]) == Step32To16(source[s..], flags)
  {
    hide Step32To16;
  }

  lemma UnitsOfBmp(ch: bv32)
    requires ch <= 0xFFFF
    ensures Units(ch) == [ch as bv16]
  {
  }

  lemma UnitsOfPair(ch: bv32)
    requires 0xFFFF < ch <= 0x10FFFF
    ensures Units(ch) == [HighOf(ch), LowOf(ch)]
  {
    hide HighOf, LowOf;
  }

  /** The loop body of ConvertUTF32toUTF16. */
  method Turn32To16(source: seq<bv32>, s: nat, target: array<bv16>, t: nat, flags: Flags, before: Result)
    returns (s1: nat, t1: nat, result: Result, go: bool)
    requires s < |source| && t <= target.Length
    modifies target
    ensures Turned(Step32To16(source[s..], flags), s, t, old(target[..]), before, target[..], s1, t1, result, go)
  {
    hide Surrogate, Units, HighOf, LowOf;
    s1, t1, result, go := s, t, before, false;
    ghost var e := Step32To16(source[s..], flags);
    if t >= target.Length {
      result := TargetExhausted;
      return;
    }
    var ch := source[s];
    if ch <= 0xFFFF {
      if Surrogate(ch) {
        if flags == Strict {
          result := SourceIllegal;
          return;
        } else {
          PutOne(target, t, 0xFFFD, e, s, before);
          t1 := t + 1;
        }
      } else {
        UnitsOfBmp(ch);
        PutOne(target, t, ch as bv16, e, s, before);
        t1 := t + 1;
      }
    } else if ch > 0x10FFFF {
      LargeIsNoSurrogate(ch);
      if flags == Strict {
        result := SourceIllegal;
      } else {
        PutOne(target, t, 0xFFFD, e, s, before);
        t1 := t + 1;
      }
    } else {
      LargeIsNoSurrogate(ch);
      UnitsOfPair(ch);
      if t + 1 >= target.Length {
        result := TargetExhausted;
        return;
      }
      PutTwo(target, t, HighOf(ch), LowOf(ch), e, s, before);
      t1 := t + 2;
    }
    s1, go := s + 1, true;
  }

  lemma LargeIsNoSurrogate(ch: bv32)
    requires ch > 0xFFFF
    ensures !Surrogate(ch)
  {
  }

  lemma ReadsAs(src: seq<bv16>, flags: Flags)
    requires src != []
    ensures High(src[0]) && |src| == 1 ==> Read16(src, flags) == Stop(SourceExhausted)
    ensures High(src[0]) && |src| > 1 && Low(src[1]) ==> Read16(src, flags) == Char(Paired(src[0], src[1]), 2)
    ensures High(src[0]) && |src| > 1 && !Low(src[1]) ==>
              Read16(src, flags) == if flags == Strict then Stop(SourceIllegal) else Char(Plain(src[0]), 1)
    ensures !High(src[0]) ==>
              Read16(src, flags) == if Low(src[0]) && flags == Strict then Stop(SourceIllegal)
                else Char(Plain(src[0]), 1)
  {
    hide Paired, High, Low, Plain;
  }

  lemma UnitsAt(source: seq<bv16>, s: nat)
    requires s < |source|
    ensures source[s..] != [] && source[s..][0] == source[s]
    ensures |source[s..]| > 1 <==> s + 1 < |source|
    ensures s + 1 < |source| ==> source[s..][1] == source[s + 1]
  {
  }

  /** The head of both loops that read UTF-16. */
  method Fetch16(source: seq<bv16>, s: nat, flags: Flags) returns (r: Read)
    requires s < |source|
    ensures r == Read16(source[s..], flags)
  {
    hide Paired, High, Low, Plain, Read16;
    UnitsAt(source, s);
    ReadsAs(source[s..], flags);
    var w := source[s];
    if High(w) {
      if s + 1 < |source| {
        var w2 := source[s + 1];
        if Low(w2) {
          return Char(Paired(w, w2), 2);
        } else if flags == Strict {
          return Stop(SourceIllegal);
        }
      } else {
        return Stop(SourceExhausted);
      }
    } else if flags == Strict {
      if Low(w) {
        return Stop(SourceIllegal);
      }
    }
    return Char(Plain(w), 1);
  }

  /** The switch that folds the bytes of a sequence, its cases falling through, and the offset that takes the
      markers off, one expression for each number of bytes. */
  function Folded(s: seq<bv8>): bv32
    requires 1 <= |s| <= 4
  {
    if |s| == 1 then FoldedOne(s[0])
    else if |s| == 2 then FoldedTwo(s[0], s[1])
    else if |s| == 3 then FoldedThree(s[0], s[1], s[2])
    else FoldedFour(s[0], s[1], s[2], s[3])
  }

  function FoldedOne(a: bv8): bv32 {
    a as bv32 - 0x00000000
  }

  function FoldedTwo(a: bv8, b: bv8): bv32 {
    (((a as bv32) << 6) + b as bv32) - 0x00003080
  }

  function FoldedThree(a: bv8, b: bv8, c: bv8): bv32 {
    (((((a as bv32) << 6) + b as bv32) << 6) + c as bv32) - 0x000E2080
  }

  function FoldedFour(a: bv8, b: bv8, c: bv8, d: bv8): bv32 {
    (((((((a as bv32) << 6) + b as bv32) << 6) + c as bv32) << 6) + d as bv32) - 0x03C82080
  }

  /** The offsets are right: what remains are the bits of the bytes. */
  lemma FoldedIsPayload(s: seq<bv8>)
    requires 1 <= |s| <= 4
    ensures Folded(s) == Payload(s)
  {
    hide FoldedOne, FoldedTwo, FoldedThree, FoldedFour, Two, Three, Four;
    if |s| == 1 {
      OffsetOne(s[0]);
    } else if |s| == 2 {
      OffsetTwo(s[0], s[1]);
    } else if |s| == 3 {
      OffsetThree(s[0], s[1], s[2]);
    } else {
      OffsetFour(s[0], s[1], s[2], s[3]);
    }
  }

  lemma OffsetOne(a: bv8)
    ensures FoldedOne(a) == a as bv32
  {
  }

  lemma OffsetTwo(a: bv8, b: bv8)
    ensures FoldedTwo(a, b) == Two(a, b)
  {
  }

  lemma OffsetThree(a: bv8, b: bv8, c: bv8)
    ensures FoldedThree(a, b, c) == Three(a, b, c)
  {
  }

  lemma OffsetFour(a: bv8, b: bv8, c: bv8, d: bv8)
    ensures FoldedFour(a, b, c, d) == Four(a, b, c, d)
  {
  }

  /** The head of both loops that read UTF-8. */
  method Fetch8(source: seq<bv8>, s: nat) returns (r: Read)
    requires s < |source|
    ensures r == Read8(source[s..])
  {
    hide Payload, Folded, SecondByte, IsTail;
    var extra := Trailing(source[s]);
    if s + extra >= |source| {
      return Stop(SourceExhausted);
    }
    assert source[s..][..extra + 1] == source[s..s + extra + 1];
    if !IsLegal(source[s..s + extra + 1]) {
      return Stop(SourceIllegal);
    }
    FoldedIsPayload(source[s..s + extra + 1]);
    return Char(Folded(source[s..s + extra + 1]), extra + 1);
  }

  function Masked(c: bv32): bv8 {
    ((c | 0x80) & 0xBF) as bv8
  }

  function Marked(c: bv32, mark: bv32): bv8 {
    ((c | mark) & 0xFF) as bv8
  }

  function Down(c: bv32): bv32 {
    c >> 6
  }

  const FIRST_BYTE_MARK: seq<bv32> := [0x00, 0x00, 0xC0, 0xE0, 0xF0, 0xF8, 0xFC]

  lemma MaskedIsTail(c: bv32)
    ensures Masked(c) == Tail(c) && Masked(Down(c)) == Tail(c >> 6) && Masked(Down(Down(c))) == Tail(c >> 12)
  {
  }

  lemma MarkedIsLead(ch: bv32)
    requires ch <= 0x10FFFF
    ensures ch < 0x80 ==> Marked(ch, 0) == Lead(ch, 1)
    ensures 0x80 <= ch < 0x800 ==> Marked(Down(ch), 0xC0) == Lead(ch, 2)
    ensures 0x800 <= ch < 0x10000 ==> Marked(Down(Down(ch)), 0xE0) == Lead(ch, 3)
    ensures 0x10000 <= ch ==> Marked(Down(Down(Down(ch))), 0xF0) == Lead(ch, 4)
  {
  }

  /** The last k bytes of a sequence, for a character whose bits are shifted down to ch. */
  function Front(ch: bv32, k: nat, mark: bv32): seq<bv8>
    requires k > 0
  {
    if k == 1 then [Marked(ch, mark)] else Front(Down(ch), k - 1, mark) + [Masked(ch)]
  }

  lemma FrontIsBytes(c: bv32)
    requires c <= 0x10FFFF
    ensures Front(c, Width(c), FIRST_BYTE_MARK[Width(c)]) == Bytes(c)
  {
    MaskedIsTail(c);
    MarkedIsLead(c);
    hide Masked, Marked, Down, Tail, Lead;
    var n := Width(c);
    if n == 2 {
      assert Front(c, 2, 0xC0) == Front(Down(c), 1, 0xC0) + [Masked(c)];
    } else if n == 3 {
      assert Front(c, 3, 0xE0) == Front(Down(Down(c)), 1, 0xE0) + [Masked(Down(c))] + [Masked(c)];
    } else if n == 4 {
      assert Front(Down(Down(c)), 2, 0xF0) == Front(Down(Down(Down(c))), 1, 0xF0) + [Masked(Down(Down(c)))];
      assert Front(c, 4, 0xF0) == Front(Down(Down(c)), 2, 0xF0) + [Masked(Down(c))] + [Masked(c)];
    }
  }

  lemma FrontPeels(ch: bv32, k: nat, mark: bv32, bytes: seq<bv8>)
    requires k > 1
    ensures Front(ch, k, mark) + bytes == Front(Down(ch), k - 1, mark) + ([Masked(ch)] + bytes)
  {
    hide Masked, Down;
  }

  lemma FrontEnds(ch: bv32, mark: bv32)
    ensures Front(ch, 1, mark) == [Marked(ch, mark)]
  {
  }

  /** The target is as it was, but for these bytes from p on. */
  predicate Holds(now: seq<bv8>, was: seq<bv8>, p: nat, bytes: seq<bv8>) {
    p + |bytes| <= |was| && now == was[..p] + bytes + was[p + |bytes|..]
  }

  /** The source's `*--target = x`. */
  method PutBefore(target: array<bv8>, p: nat, x: bv8, ghost was: seq<bv8>, ghost bytes: seq<bv8>) returns (q: nat)
    requires 0 < p && Holds(target[..], was, p, bytes)
    modifies target
    ensures q == p - 1 && Holds(target[..], was, q, [x] + bytes)
  {
    q := p - 1;
    target[q] := x;
  }

  /** The switch that writes the bytes of a character from the last to the first; the loop it unrolls. */
  method Spread(target: array<bv8>, t: nat, c: bv32, n: nat)
    requires c <= 0x10FFFF && n == Width(c) && t + n <= target.Length
    modifies target
    ensures Holds(target[..], old(target[..]), t, Bytes(c))
  {
    hide Bytes, Width, Masked, Marked, Down, Holds, Front;
    ghost var was, bytes := target[..], [];
    var ch, p, mark := c, t + n, FIRST_BYTE_MARK[n];
    NothingHeld(was, p);
    while p > t + 1
      invariant t < p <= t + n <= target.Length
      invariant Holds(target[..], was, p, bytes)
      invariant Front(c, n, mark) == Front(ch, p - t, mark) + bytes
    {
      FrontPeels(ch, p - t, mark, bytes);
      p := PutBefore(target, p, Masked(ch), was, bytes);
      bytes := [Masked(ch)] + bytes;
      ch := Down(ch);
    }
    FrontEnds(ch, mark);
    p := PutBefore(target, p, Marked(ch, mark), was, bytes);
    FrontIsBytes(c);
  }

  lemma NothingHeld(was: seq<bv8>, p: nat)
    requires p <= |was|
    ensures Holds(was, was, p, [])
  {
  }

  /** The loop body of ConvertUTF16toUTF32. */
  method Turn16To32(source: seq<bv16>, s: nat, target: array<bv32>, t: nat, flags: Flags, before: Result)
    returns (s1: nat, t1: nat, result: Result, go: bool)
    requires s < |source| && t <= target.Length
    modifies target
    ensures Turned(Step16To32(source[s..], flags), s, t, old(target[..]), before, target[..], s1, t1, result, go)
  {
    hide Read16;
    var r := Fetch16(source, s, flags);
    if r.Stop? {
      return s, t, r.result, false;
    }
    if t >= target.Length {
      return s, t, TargetExhausted, false;
    }
    PutOne(target, t, r.ch, Step16To32(source[s..], flags), s, before);
    return s + r.take, t + 1, before, true;
  }

  /** The loop body of ConvertUTF16toUTF8. The case above 0x10FFFF cannot come up: see Read16Bounded. */
  method Turn16To8(source: seq<bv16>, s: nat, target: array<bv8>, t: nat, flags: Flags, before: Result)
    returns (s1: nat, t1: nat, result: Result, go: bool)
    requires s < |source| && t <= target.Length
    modifies target
    ensures Turned(Step16To8(source[s..], flags), s, t, old(target[..]), before, target[..], s1, t1, result, go)
  {
    hide Read16, Bytes, Width;
    var r := Fetch16(source, s, flags);
    if r.Stop? {
      return s, t, r.result, false;
    }
    Read16Bounded(source[s..], flags);
    var bytesToWrite := Width(r.ch);
    if t + bytesToWrite > target.Length {
      return s, t, TargetExhausted, false;
    }
    Spread(target, t, r.ch, bytesToWrite);
    return s + r.take, t + bytesToWrite, before, true;
  }

  /** The loop body of ConvertUTF32toUTF8. */
  method Turn32To8(source: seq<bv32>, s: nat, target: array<bv8>, t: nat, flags: Flags, before: Result)
    returns (s1: nat, t1: nat, result: Result, go: bool)
    requires s < |source| && t <= target.Length
    modifies target
    ensures Turned(Step32To8(source[s..], flags), s, t, old(target[..]), before, target[..], s1, t1, result, go)
  {
    hide Bytes, Width, Surrogate;
    s1, t1, result, go := s, t, before, false;
    var ch := source[s];
    if flags == Strict && Surrogate(ch) {
      result := SourceIllegal;
      return;
    }
    var bytesToWrite: nat;
    if ch <= 0x10FFFF {
      bytesToWrite := Width(ch);
    } else {
      bytesToWrite := 3;
      ch := 0xFFFD;
      WidthOfReplacement(ch);
      result := SourceIllegal;
    }
    if t + bytesToWrite > target.Length {
      result := TargetExhausted;
      return;
    }
    Spread(target, t, ch, bytesToWrite);
    s1, t1, go := s + 1, t + bytesToWrite, true;
  }

  lemma WidthOfReplacement(ch: bv32)
    requires ch == 0xFFFD
    ensures Width(ch) == 3
  {
  }

  /** The loop body of ConvertUTF8toUTF32. */
  method Turn8To32(source: seq<bv8>, s: nat, target: array<bv32>, t: nat, flags: Flags, before: Result)
    returns (s1: nat, t1: nat, result: Result, go: bool)
    requires s < |source| && t <= target.Length
    modifies target
    ensures Turned(Step8To32(source[s..], flags), s, t, old(target[..]), before, target[..], s1, t1, result, go)
  {
    hide Read8;
    s1, t1, result, go := s, t, before, false;
    ghost var e := Step8To32(source[s..], flags);
    var r := Fetch8(source, s);
    if r.Stop? {
      result := r.result;
      return;
    }
    if t >= target.Length {
      result := TargetExhausted;
      return;
    }
    if r.ch <= 0x10FFFF {
      if Surrogate(r.ch) {
        if flags == Strict {
          result := SourceIllegal;
          return;
        } else {
          PutOne(target, t, 0xFFFD, e, s, before);
        }
      } else {
        PutOne(target, t, r.ch, e, s, before);
      }
    } else {
      result := SourceIllegal;
      PutOne(target, t, 0xFFFD, e, s, before);
    }
    s1, t1, go := s + r.take, t + 1, true;
  }

  /** The loop body of ConvertUTF8toUTF16. */
  method Turn8To16(source: seq<bv8>, s: nat, target: array<bv16>, t: nat, flags: Flags, before: Result)
    returns (s1: nat, t1: nat, result: Result, go: bool)
    requires s < |source| && t <= target.Length
    modifies target
    ensures Turned(Step8To16(source[s..], flags), s, t, old(target[..]), before, target[..], s1, t1, result, go)
  {
    hide Read8, HighOf, LowOf, Surrogate, Units;
    s1, t1, result, go := s, t, before, false;
    ghost var e := Step8To16(source[s..], flags);
    var r := Fetch8(source, s);
    if r.Stop? {
      result := r.result;
      return;
    }
    if t >= target.Length {
      result := TargetExhausted;
      return;
    }
    if Surrogate(r.ch) || r.ch > 0x10FFFF {
      if flags == Strict {
        result := SourceIllegal;
        return;
      } else {
        PutOne(target, t, 0xFFFD, e, s, before);
        s1, t1, go := s + r.take, t + 1, true;
      }
    } else if r.ch <= 0xFFFF {
      UnitsOfBmp(r.ch);
      PutOne(target, t, r.ch as bv16, e, s, before);
      s1, t1, go := s + r.take, t + 1, true;
    } else {
      UnitsOfPair(r.ch);
      if t + 1 >= target.Length {
        result := TargetExhausted;
        return;
      }
      PutTwo(target, t, HighOf(r.ch), LowOf(r.ch), e, s, before);
      s1, t1, go := s + r.take, t + 2, true;
    }
  }

  method ConvertUtf32ToUtf16(source: seq<bv32>, sourceStart: nat, target: array<bv16>, targetStart: nat, flags: Flags)
    returns (s: nat, t: nat, result: Result)
    requires sourceStart <= |source| && targetStart <= target.Length
    modifies target
    ensures Converted(Run(To16From32(flags), source[sourceStart..], target.Length - targetStart, ConversionOK),
                      sourceStart, targetStart, old(target[..]), target[..], s, t, result)
  {
    hide Run, Lawful, Converted, To16From32, Step32To16;
    ghost var step, was := To16From32(flags), target[..];
    ghost var o := Starts(step, source, was, sourceStart, targetStart);
    s, t, result := sourceStart, targetStart, ConversionOK;
    var go := true;
    while go && s < |source|
      invariant s <= |source| && t <= target.Length
      invariant go ==> Amid(step, source, was, target[..], o, sourceStart, targetStart, s, t, result)
      invariant !go ==> Converted(o, sourceStart, targetStart, was, target[..], s, t, result)
      decreases |source| - s, go
    {
      Is32To16(source, s, flags);
      ghost var now, s0, t0, before := target[..], s, t, result;
      s, t, result, go := Turn32To16(source, s, target, t, flags, result);
      Turns(step, source, was, now, target[..], o, sourceStart, targetStart, s0, t0, before, s, t, result, go);
    }
    if go {
      Stops(step, source, was, target[..], o, sourceStart, targetStart, s, t, result, result);
    }
  }

  method ConvertUtf16ToUtf32(source: seq<bv16>, sourceStart: nat, target: array<bv32>, targetStart: nat, flags: Flags)
    returns (s: nat, t: nat, result: Result)
    requires sourceStart <= |source| && targetStart <= target.Length
    modifies target
    ensures Converted(Run(To32From16(flags), source[sourceStart..], target.Length - targetStart, ConversionOK),
                      sourceStart, targetStart, old(target[..]), target[..], s, t, result)
  {
    hide Run, Lawful, Converted, To32From16, Step16To32;
    ghost var step, was := To32From16(flags), target[..];
    ghost var o := Starts(step, source, was, sourceStart, targetStart);
    s, t, result := sourceStart, targetStart, ConversionOK;
    var go := true;
    while go && s < |source|
      invariant s <= |source| && t <= target.Length
      invariant go ==> Amid(step, source, was, target[..], o, sourceStart, targetStart, s, t, result)
      invariant !go ==> Converted(o, sourceStart, targetStart, was, target[..], s, t, result)
      decreases |source| - s, go
    {
      Is16To32(source, s, flags);
      ghost var now, s0, t0, before := target[..], s, t, result;
      s, t, result, go := Turn16To32(source, s, target, t, flags, result);
      Turns(step, source, was, now, target[..], o, sourceStart, targetStart, s0, t0, before, s, t, result, go);
    }
    if go {
      Stops(step, source, was, target[..], o, sourceStart, targetStart, s, t, result, result);
    }
  }

  lemma Is16To32(source: seq<bv16>, s: nat, flags: Flags)
    requires s < |source|
    ensures To32From16(flags)(source[s..]) == Step16To32(source[s..], flags)
  {
    hide Step16To32;
  }

  method ConvertUtf16ToUtf8(source: seq<bv16>, sourceStart: nat, target: array<bv8>, targetStart: nat, flags: Flags)
    returns (s: nat, t: nat, result: Result)
    requires sourceStart <= |source| && targetStart <= target.Length
    modifies target
    ensures Converted(Run(To8From16(flags), source[sourceStart..], target.Length - targetStart, ConversionOK),
                      sourceStart, targetStart, old(target[..]), target[..], s, t, result)
  {
    hide Run, Lawful, Converted, To8From16, Step16To8;
    ghost var step, was := To8From16(flags), target[..];
    ghost var o := Starts(step, source, was, sourceStart, targetStart);
    s, t, result := sourceStart, targetStart, ConversionOK;
    var go := true;
    while go && s < |source|
      invariant s <= |source| && t <= target.Length
      invariant go ==> Amid(step, source, was, target[..], o, sourceStart, targetStart, s, t, result)
      invariant !go ==> Converted(o, sourceStart, targetStart, was, target[..], s, t, result)
      decreases |source| - s, go
    {
      Is16To8(source, s, flags);
      ghost var now, s0, t0, before := target[..], s, t, result;
      s, t, result, go := Turn16To8(source, s, target, t, flags, result);
      Turns(step, source, was, now, target[..], o, sourceStart, targetStart, s0, t0, before, s, t, result, go);
    }
    if go {
      Stops(step, source, was, target[..], o, sourceStart, targetStart, s, t, result, result);
    }
  }

  lemma Is16To8(source: seq<bv16>, s: nat, flags: Flags)
    requires s < |source|
    ensures To8From16(flags)(source[s..]) == Step16To8(source[s..], flags)
  {
    hide Step16To8;
  }

  method ConvertUtf32ToUtf8(source: seq<bv32>, sourceStart: nat, target: array<bv8>, targetStart: nat, flags: Flags)
    returns (s: nat, t: nat, result: Result)
    requires sourceStart <= |source| && targetStart <= target.Length
    modifies target
    ensures Converted(Run(To8From32(flags), source[sourceStart..], target.Length - targetStart, ConversionOK),
                      sourceStart, targetStart, old(target[..]), target[..], s, t, result)
  {
    hide Run, Lawful, Converted, To8From32, Step32To8;
    ghost var step, was := To8From32(flags), target[..];
    ghost var o := Starts(step, source, was, sourceStart, targetStart);
    s, t, result := sourceStart, targetStart, ConversionOK;
    var go := true;
    while go && s < |source|
      invariant s <= |source| && t <= target.Length
      invariant go ==> Amid(step, source, was, target[..], o, sourceStart, targetStart, s, t, result)
      invariant !go ==> Converted(o, sourceStart, targetStart, was, target[..], s, t, result)
      decreases |source| - s, go
    {
      Is32To8(source, s, flags);
      ghost var now, s0, t0, before := target[..], s, t, result;
      s, t, result, go := Turn32To8(source, s, target, t, flags, result);
      Turns(step, source, was, now, target[..], o, sourceStart, targetStart, s0, t0, before, s, t, result, go);
    }
    if go {
      Stops(step, source, was, target[..], o, sourceStart, targetStart, s, t, result, result);
    }
  }

  lemma Is32To8(source: seq<bv32>, s: nat, flags: Flags)
    requires s < |source|
    ensures To8From32(flags)(source[s..]) == Step32To8(source[s..], flags)
  {
    hide Step32To8;
  }

  method ConvertUtf8ToUtf32(source: seq<bv8>, sourceStart: nat, target: array<bv32>, targetStart: nat, flags: Flags)
    returns (s: nat, t: nat, result: Result)
    requires sourceStart <= |source| && targetStart <= target.Length
    modifies target
    ensures Converted(Run(To32From8(flags), source[sourceStart..], target.Length - targetStart, ConversionOK),
                      sourceStart, targetStart, old(target[..]), target[..], s, t, result)
  {
    hide Run, Lawful, Converted, To32From8, Step8To32;
    ghost var step, was := To32From8(flags), target[..];
    ghost var o := Starts(step, source, was, sourceStart, targetStart);
    s, t, result := sourceStart, targetStart, ConversionOK;
    var go := true;
    while go && s < |source|
      invariant s <= |source| && t <= target.Length
      invariant go ==> Amid(step, source, was, target[..], o, sourceStart, targetStart, s, t, result)
      invariant !go ==> Converted(o, sourceStart, targetStart, was, target[..], s, t, result)
      decreases |source| - s, go
    {
      Is8To32(source, s, flags);
      ghost var now, s0, t0, before := target[..], s, t, result;
      s, t, result, go := Turn8To32(source, s, target, t, flags, result);
      Turns(step, source, was, now, target[..], o, sourceStart, targetStart, s0, t0, before, s, t, result, go);
    }
    if go {
      Stops(step, source, was, target[..], o, sourceStart, targetStart, s, t, result, result);
    }
  }

  lemma Is8To32(source: seq<bv8>, s: nat, flags: Flags)
    requires s < |source|
    ensures To32From8(flags)(source[s..]) == Step8To32(source[s..], flags)
  {
    hide Step8To32;
  }

  method ConvertUtf8ToUtf16(source: seq<bv8>, sourceStart: nat, target: array<bv16>, targetStart: nat, flags: Flags)
    returns (s: nat, t: nat, result: Result)
    requires sourceStart <= |source| && targetStart <= target.Length
    modifies target
    ensures Converted(Run(To16From8(flags), source[sourceStart..], target.Length - targetStart, ConversionOK),
                      sourceStart, targetStart, old(target[..]), target[..], s, t, result)
  {
    hide Run, Lawful, Converted, To16From8, Step8To16;
    ghost var step, was := To16From8(flags), target[..];
    ghost var o := Starts(step, source, was, sourceStart, targetStart);
    s, t, result := sourceStart, targetStart, ConversionOK;
    var go := true;
    while go && s < |source|
      invariant s <= |source| && t <= target.Length
      invariant go ==> Amid(step, source, was, target[..], o, sourceStart, targetStart, s, t, result)
      invariant !go ==> Converted(o, sourceStart, targetStart, was, target[..], s, t, result)
      decreases |source| - s, go
    {
      Is8To16(source, s, flags);
      ghost var now, s0, t0, before := target[..], s, t, result;
      s, t, result, go := Turn8To16(source, s, target, t, flags, result);
      Turns(step, source, was, now, target[..], o, sourceStart, targetStart, s0, t0, before, s, t, result, go);
    }
    if go {
      Stops(step, source, was, target[..], o, sourceStart, targetStart, s, t, result, result);
    }
  }

  lemma Is8To16(source: seq<bv8>, s: nat, flags: Flags)
    requires s < |source|
    ensures To16From8(flags)(source[s..]) == Step8To16(source[s..], flags)
  {
    hide Step8To16;
  }
}
