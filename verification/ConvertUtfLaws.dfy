/** What the converters promise together: round trips, the two-step route, and what the decoders accept. */
module ConvertUtfLaws {
  import opened Transcoding
  import opened ConvertUtf

  ghost predicate AllScalar(s: seq<bv32>) {
    forall i :: 0 <= i < |s| ==> Scalar(s[i])
  }

  /** UTF-8 and UTF-16 of a sequence of scalar values, character by character. */
  ghost function Encoded8(s: seq<bv32>): seq<bv8>
    requires AllScalar(s)
  {
    if s == [] then [] else Bytes(s[0]) + Encoded8(s[1..])
  }

  ghost function Encoded16(s: seq<bv32>): seq<bv16>
    requires AllScalar(s)
  {
    if s == [] then [] else Units(s[0]) + Encoded16(s[1..])
  }

  /** The character sequences of section 4 of RFC 3629, one after the other. */
  ghost predicate WellFormed8(b: seq<bv8>)
    decreases |b|
  {
    b == [] ||
    (var n := Trailing(b[0]) + 1;
     n <= |b| && WellFormed(b[..n]) && WellFormed8(b[n..]))
  }

  /** No surrogate but in pairs, high before low. */
  ghost predicate WellFormed16(u: seq<bv16>)
    decreases |u|
  {
    u == [] ||
    if High(u[0]) then |u| > 1 && Low(u[1]) && WellFormed16(u[2..])
    else !Low(u[0]) && WellFormed16(u[1..])
  }

  // -------------------------------------------------------------------- one character

  lemma Writes8(ch: bv32, rest: seq<bv32>, flags: Flags)
    requires ch <= 0x10FFFF && (flags == Strict ==> Scalar(ch))
    ensures To8From32(flags)([ch] + rest) == Emit(Width(ch), 1, Bytes(ch), false)
  {
    Is32To8([ch] + rest, 0, flags);
    assert ([ch] + rest)[0..] == [ch] + rest;
    hide Bytes, Width, To8From32;
  }

  lemma Reads8(ch: bv32, rest: seq<bv8>, flags: Flags)
    requires Scalar(ch)
    ensures To32From8(flags)(Bytes(ch) + rest) == Emit(1, Width(ch), [ch], false)
    ensures To16From8(flags)(Bytes(ch) + rest) == Emit(|Units(ch)|, Width(ch), Units(ch), false)
  {
    hide Bytes, Width, Units, IsLegal, WellFormed, Payload, LooseSecond;
    var b := Bytes(ch);
    EncodedIsWellFormed(ch);
    EncodedDecodes(ch);
    LegalExactly(b);
    assert (b + rest)[..|b|] == b;
    assert Read8(b + rest) == Char(ch, |b|);
  }

  lemma Writes16(ch: bv32, rest: seq<bv32>, flags: Flags)
    requires Scalar(ch)
    ensures To16From32(flags)([ch] + rest) == Emit(|Units(ch)|, 1, Units(ch), false)
  {
    hide Units;
    assert ([ch] + rest)[0] == ch;
  }

  lemma Reads16(ch: bv32, rest: seq<bv16>, flags: Flags)
    requires Scalar(ch)
    ensures To32From16(flags)(Units(ch) + rest) == Emit(1, |Units(ch)|, [ch], false)
  {
    UnitsRead(ch, rest, flags);
    hide Units, Read16;
  }

  lemma UnitsRead(ch: bv32, rest: seq<bv16>, flags: Flags)
    requires Scalar(ch)
    ensures Read16(Units(ch) + rest, flags) == Char(ch, |Units(ch)|)
  {
    var u := Units(ch) + rest;
    if ch <= 0xFFFF {
      UnitsOfBmp(ch);
      BmpIsPlain(ch);
      hide Units, High, Low;
      assert u[0] == ch as bv16;
    } else {
      UnitsOfPair(ch);
      PairIsSurrogates(ch);
      PairRoundTrip(ch);
      hide Units, High, Low, HighOf, LowOf, Paired;
      assert u[0] == HighOf(ch) && u[1] == LowOf(ch);
    }
  }

  lemma BmpIsPlain(ch: bv32)
    requires Scalar(ch) && ch <= 0xFFFF
    ensures !High(ch as bv16) && !Low(ch as bv16) && (ch as bv16) as bv32 == ch
  {
  }

  // -------------------------------------------------------------------- round trips

  /** UTF-32 to UTF-8, on scalar values. */
  lemma {:induction false} EncodesTo8(s: seq<bv32>, flags: Flags, entered: Result)
    requires AllScalar(s)
    ensures Whole(To8From32(flags), s, entered) == Outcome(|s|, Encoded8(s), entered, entered)
  {
    hide Bytes, To8From32, Lawful;
    if s != [] {
      Writes8(s[0], s[1..], flags);
      assert [s[0]] + s[1..] == s;
      EncodesTo8(s[1..], flags, entered);
      WholeOfPrefix(To8From32(flags), [s[0]], s[1..], entered);
    }
  }

  /** UTF-8 back to UTF-32: together, the identity on every sequence of scalar values. */
  lemma {:induction false} DecodesFrom8(s: seq<bv32>, flags: Flags)
    requires AllScalar(s)
    ensures Whole(To32From8(flags), Encoded8(s), ConversionOK) == Outcome(|Encoded8(s)|, s, ConversionOK, ConversionOK)
  {
    hide Bytes, To32From8, Lawful;
    if s != [] {
      var p, rest := Bytes(s[0]), Encoded8(s[1..]);
      Reads8(s[0], rest, flags);
      DecodesFrom8(s[1..], flags);
      assert [s[0]] + s[1..] == s;
      WholeOfPrefix(To32From8(flags), p, rest, ConversionOK);
    }
  }

  /** UTF-32 to UTF-16, on scalar values. */
  lemma {:induction false} EncodesTo16(s: seq<bv32>, flags: Flags, entered: Result)
    requires AllScalar(s)
    ensures Whole(To16From32(flags), s, entered) == Outcome(|s|, Encoded16(s), entered, entered)
  {
    hide Units, To16From32, Lawful;
    if s != [] {
      Writes16(s[0], s[1..], flags);
      assert [s[0]] + s[1..] == s;
      EncodesTo16(s[1..], flags, entered);
      WholeOfPrefix(To16From32(flags), [s[0]], s[1..], entered);
    }
  }

  /** UTF-16 back to UTF-32: together, the identity on every sequence of scalar values. */
  lemma {:induction false} DecodesFrom16(s: seq<bv32>, flags: Flags)
    requires AllScalar(s)
    ensures Whole(To32From16(flags), Encoded16(s), ConversionOK)
              == Outcome(|Encoded16(s)|, s, ConversionOK, ConversionOK)
  {
    hide Units, To32From16, Lawful;
    if s != [] {
      var p, rest := Units(s[0]), Encoded16(s[1..]);
      Reads16(s[0], rest, flags);
      DecodesFrom16(s[1..], flags);
      assert [s[0]] + s[1..] == s;
      WholeOfPrefix(To32From16(flags), p, rest, ConversionOK);
    }
  }

  lemma {:induction false} EncodedIsWellFormed8(s: seq<bv32>)
    requires AllScalar(s)
    ensures WellFormed8(Encoded8(s))
  {
    hide Bytes, Trailing, WellFormed;
    if s != [] {
      var p, rest := Bytes(s[0]), Encoded8(s[1..]);
      EncodedIsWellFormed(s[0]);
      EncodedIsWellFormed8(s[1..]);
      assert (p + rest)[..|p|] == p && (p + rest)[|p|..] == rest;
    }
  }

  /** Every well-formed byte string is the encoding of scalar values. */
  lemma {:induction false} WellFormedIsEncoded8(b: seq<bv8>) returns (s: seq<bv32>)
    requires WellFormed8(b)
    ensures AllScalar(s) && Encoded8(s) == b
    decreases |b|
  {
    hide Bytes, Payload, WellFormed, Trailing;
    s := [];
    if b != [] {
      var n := Trailing(b[0]) + 1;
      DecodedEncodes(b[..n]);
      var ch := Payload(b[..n]);
      var rest := WellFormedIsEncoded8(b[n..]);
      s := [ch] + rest;
      assert s[1..] == rest;
      assert b == b[..n] + b[n..];
    }
  }

  /** UTF-8 to UTF-32 and back is the identity on every well-formed byte string. */
  lemma RoundTrip8(b: seq<bv8>, flags: Flags)
    requires WellFormed8(b)
    ensures
      var there := Whole(To32From8(flags), b, ConversionOK);
      && there.taken == |b| && there.result == ConversionOK && AllScalar(there.out)
      && Whole(To8From32(flags), there.out, ConversionOK) == Outcome(|there.out|, b, ConversionOK, ConversionOK)
  {
    hide To32From8, To8From32, WellFormed8, AllScalar, Whole, Lawful;
    var s := WellFormedIsEncoded8(b);
    DecodesFrom8(s, flags);
    EncodesTo8(s, flags, ConversionOK);
  }

  lemma {:induction false} EncodedIsWellFormed16(s: seq<bv32>)
    requires AllScalar(s)
    ensures WellFormed16(Encoded16(s))
  {
    hide Units, High, Low;
    if s != [] {
      var ch, rest := s[0], Encoded16(s[1..]);
      EncodedIsWellFormed16(s[1..]);
      var u := Units(ch) + rest;
      if ch <= 0xFFFF {
        UnitsOfBmp(ch);
        BmpIsPlain(ch);
        assert u[1..] == rest;
      } else {
        UnitsOfPair(ch);
        PairIsSurrogates(ch);
        assert u[0] == HighOf(ch) && u[1] == LowOf(ch) && u[2..] == rest;
      }
    }
  }

  /** The characters of a well-formed UTF-16 string. */
  lemma {:induction false} WellFormedIsEncoded16(u: seq<bv16>) returns (s: seq<bv32>)
    requires WellFormed16(u)
    ensures AllScalar(s) && Encoded16(s) == u
    decreases |u|
  {
    hide Units, High, Low, Paired;
    s := [];
    if u != [] {
      var n := if High(u[0]) then 2 else 1;
      var ch := UnitsOfHead(u);
      var rest := WellFormedIsEncoded16(u[n..]);
      s := [ch] + rest;
      assert s[1..] == rest;
      assert u == u[..n] + u[n..];
    }
  }

  lemma UnitsOfHead(u: seq<bv16>) returns (ch: bv32)
    requires u != [] && WellFormed16(u)
    ensures Scalar(ch) && Units(ch) == u[..if High(u[0]) then 2 else 1]
  {
    if High(u[0]) {
      ch := Paired(u[0], u[1]);
      UnitsRoundTrip(u[0], u[1]);
      UnitsOfPair(ch);
      hide Paired, Units, HighOf, LowOf, High, Low;
      assert Scalar(ch);
    } else {
      ch := u[0] as bv32;
      PlainIsBmp(u[0]);
      UnitsOfBmp(ch);
      hide Units;
    }
  }

  lemma PlainIsBmp(w: bv16)
    requires !High(w) && !Low(w)
    ensures Scalar(w as bv32) && w as bv32 <= 0xFFFF && (w as bv32) as bv16 == w
  {
  }

  /** UTF-16 to UTF-32 and back is the identity on every well-formed UTF-16 string. */
  lemma RoundTrip16(u: seq<bv16>, flags: Flags)
    requires WellFormed16(u)
    ensures
      var there := Whole(To32From16(flags), u, ConversionOK);
      && there.taken == |u| && there.result == ConversionOK && AllScalar(there.out)
      && Whole(To16From32(flags), there.out, ConversionOK) == Outcome(|there.out|, u, ConversionOK, ConversionOK)
  {
    hide To32From16, To16From32, WellFormed16, AllScalar, Whole, Lawful;
    var s := WellFormedIsEncoded16(u);
    DecodesFrom16(s, flags);
    EncodesTo16(s, flags, ConversionOK);
  }

  // -------------------------------------------------------------------- through UTF-32

  /** UTF-8 to UTF-16 takes, puts and reports what UTF-8 to UTF-32 and then UTF-32 to UTF-16 do, on every byte
      string and with either flag. */
  lemma {:induction false} DirectTo16(b: seq<bv8>, flags: Flags)
    ensures
      var first := Whole(To32From8(flags), b, ConversionOK);
      var second := Whole(To16From32(flags), first.out, ConversionOK);
      && second.result == ConversionOK
      && Whole(To16From8(flags), b, ConversionOK) == Outcome(first.taken, second.out, first.result, first.before)
    decreases |b|
  {
    hide To32From8, To16From8, To16From32, Units, Read8, Lawful;
    if b != [] {
      SameReading8(b, flags);
      var r := Read8(b);
      if r.Char? {
        DirectTo16(b[r.take..], flags);
        var rest := Whole(To32From8(flags), b[r.take..], ConversionOK).out;
        Writes16(r.ch, rest, flags);
        WholeOfPrefix(To16From32(flags), [r.ch], rest, ConversionOK);
      }
    }
  }

  lemma SameReading8(b: seq<bv8>, flags: Flags)
    requires b != []
    ensures
      match Read8(b)
      case Stop(result) => To32From8(flags)(b) == Halt(0, result) && To16From8(flags)(b) == Halt(0, result)
      case Char(ch, take) =>
        && 1 <= take <= |b| && Scalar(ch)
        && To32From8(flags)(b) == Emit(1, take, [ch], false)
        && To16From8(flags)(b) == Emit(|Units(ch)|, take, Units(ch), false)
  {
    hide IsLegal, Payload, Units;
    var n := Trailing(b[0]) + 1;
    if n <= |b| && IsLegal(b[..n]) {
      LegalIsScalar(b[..n]);
    }
  }

  /** Likewise UTF-16 to UTF-8 through UTF-32; with the lenient flag both carry unpaired surrogates along. */
  lemma {:induction false} DirectTo8(u: seq<bv16>, flags: Flags)
    ensures
      var first := Whole(To32From16(flags), u, ConversionOK);
      var second := Whole(To8From32(flags), first.out, ConversionOK);
      && second.result == ConversionOK
      && Whole(To8From16(flags), u, ConversionOK) == Outcome(first.taken, second.out, first.result, first.before)
    decreases |u|
  {
    hide To32From16, To8From16, To8From32, Bytes, Read16, Lawful;
    if u != [] {
      SameReading16(u, flags);
      var r := Read16(u, flags);
      if r.Char? {
        DirectTo8(u[r.take..], flags);
        var rest := Whole(To32From16(flags), u[r.take..], ConversionOK).out;
        Writes8(r.ch, rest, flags);
        WholeOfPrefix(To8From32(flags), [r.ch], rest, ConversionOK);
      }
    }
  }

  lemma SameReading16(u: seq<bv16>, flags: Flags)
    requires u != []
    ensures
      match Read16(u, flags)
      case Stop(result) => To32From16(flags)(u) == Halt(0, result) && To8From16(flags)(u) == Halt(0, result)
      case Char(ch, take) =>
        && 1 <= take <= |u| && ch <= 0x10FFFF && (flags == Strict ==> Scalar(ch))
        && To32From16(flags)(u) == Emit(1, take, [ch], false)
        && To8From16(flags)(u) == Emit(Width(ch), take, Bytes(ch), false)
  {
    hide Bytes, Width, Read16;
    Read16Bounded(u, flags);
  }

  // -------------------------------------------------------------------- unpaired surrogates

  ghost predicate AllPoints(s: seq<bv32>) {
    forall i :: 0 <= i < |s| ==> s[i] <= 0x10FFFF
  }

  ghost function BytesOf(s: seq<bv32>): seq<bv8>
    requires AllPoints(s)
  {
    if s == [] then [] else Bytes(s[0]) + BytesOf(s[1..])
  }

  ghost function UnitsOf(s: seq<bv32>): seq<bv16>
    requires AllPoints(s)
  {
    if s == [] then [] else Units(s[0]) + UnitsOf(s[1..])
  }

  /** The lenient encoder to UTF-8 writes surrogates like any other values. */
  lemma {:induction false} LenientEncodes8(s: seq<bv32>)
    requires AllPoints(s)
    ensures Whole(To8From32(Lenient), s, ConversionOK) == Outcome(|s|, BytesOf(s), ConversionOK, ConversionOK)
  {
    hide Bytes, To8From32, Lawful;
    if s != [] {
      Writes8(s[0], s[1..], Lenient);
      assert [s[0]] + s[1..] == s;
      LenientEncodes8(s[1..]);
      WholeOfPrefix(To8From32(Lenient), [s[0]], s[1..], ConversionOK);
    }
  }

  lemma ReadKeepsUnits(u: seq<bv16>, flags: Flags)
    requires u != []
    ensures
      match Read16(u, flags)
      case Stop(result) => flags == Lenient ==> result == SourceExhausted && |u| == 1 && High(u[0])
      case Char(ch, take) => ch <= 0x10FFFF && take <= |u| && Units(ch) == u[..take]
  {
    ReadsAs(u, flags);
    PlainUnits(u[0]);
    if |u| > 1 && High(u[0]) && Low(u[1]) {
      UnitsRoundTrip(u[0], u[1]);
      UnitsOfPair(Paired(u[0], u[1]));
      assert u[..2] == [u[0], u[1]];
    }
    hide Read16, Units, Paired, High, Low, Plain, HighOf, LowOf;
    assert u[..1] == [u[0]];
  }

  lemma PlainUnits(w: bv16)
    ensures Plain(w) <= 0xFFFF && Units(Plain(w)) == [w]
  {
  }

  lemma UnitsGrow(ch: bv32, s: seq<bv32>)
    requires ch <= 0x10FFFF && AllPoints(s)
    ensures AllPoints([ch] + s) && UnitsOf([ch] + s) == Units(ch) + UnitsOf(s)
  {
    hide Units;
    assert ([ch] + s)[1..] == s;
  }

  /** The units of the values written are those taken; a lenient call takes all but a high surrogate at the end. */
  ghost predicate KeepsUnits(u: seq<bv16>, r: Outcome<bv32>, flags: Flags) {
    && r.taken <= |u| && AllPoints(r.out) && UnitsOf(r.out) == u[..r.taken]
    && (flags == Lenient ==>
          || (r.result == ConversionOK && r.taken == |u|)
          || (r.result == SourceExhausted && r.taken + 1 == |u| && High(u[r.taken])))
  }

  lemma KeepsMore(u: seq<bv16>, ch: bv32, take: nat, t: Outcome<bv32>, flags: Flags)
    requires ch <= 0x10FFFF && take <= |u| && Units(ch) == u[..take] && KeepsUnits(u[take..], t, flags)
    ensures KeepsUnits(u, After(take, [ch], t), flags)
  {
    UnitsGrow(ch, t.out);
    hide Units, UnitsOf, AllPoints, High;
    assert u[..take] + u[take..][..t.taken] == u[..take + t.taken];
    assert t.taken < |u[take..]| ==> u[take..][t.taken] == u[take + t.taken];
  }

  /** Decoding UTF-16 keeps every unit. */
  lemma {:induction false} UnitsAreKept(u: seq<bv16>, flags: Flags)
    ensures KeepsUnits(u, Whole(To32From16(flags), u, ConversionOK), flags)
    decreases |u|
  {
    hide To32From16, Units, Read16, High, Lawful;
    if u != [] {
      SameReading16(u, flags);
      ReadKeepsUnits(u, flags);
      match Read16(u, flags)
      case Stop(_) =>
      case Char(ch, take) =>
        hide KeepsUnits;
        UnitsAreKept(u[take..], flags);
        KeepsMore(u, ch, take, Whole(To32From16(flags), u[take..], ConversionOK), flags);
    }
  }

  // -------------------------------------------------------------------- what is accepted

  /** The byte strings `isLegalUTF8` lets through: well-formed sequences and loose ones. */
  ghost predicate Accepted8(b: seq<bv8>)
    decreases |b|
  {
    b == [] ||
    (var n := Trailing(b[0]) + 1;
     n <= |b| && (WellFormed(b[..n]) || LooseSecond(b[..n])) && Accepted8(b[n..]))
  }

  /** Both decoders report success exactly on these. */
  lemma {:induction false} AcceptsExactly(b: seq<bv8>, flags: Flags)
    ensures Whole(To32From8(flags), b, ConversionOK).result == ConversionOK <==> Accepted8(b)
    decreases |b|
  {
    hide To32From8, To16From8, Units, Read8, Lawful, WellFormed, LooseSecond;
    if b != [] {
      SameReading8(b, flags);
      ReadAccepts(b);
      var r := Read8(b);
      if r.Char? {
        AcceptsExactly(b[r.take..], flags);
      }
    }
  }

  lemma ReadAccepts(b: seq<bv8>)
    requires b != []
    ensures
      var n := Trailing(b[0]) + 1;
      match Read8(b)
      case Stop(result) => result != ConversionOK && !(n <= |b| && (WellFormed(b[..n]) || LooseSecond(b[..n])))
      case Char(_, take) => take == n <= |b| && (WellFormed(b[..n]) || LooseSecond(b[..n]))
  {
    var n := Trailing(b[0]) + 1;
    if n <= |b| {
      LegalExactly(b[..n]);
    }
    hide IsLegal, WellFormed, LooseSecond;
  }

  /** So the decoders meet their documentation, that every illegal sequence is an error, exactly where no
      character has a loose second byte: here is a family of illegal strings that they accept. */
  lemma IllegalAccepted(second: bv8, third: bv8, flags: Flags)
    requires second < 0x80 && IsTail(third)
    ensures !WellFormed8([0xED, second, third])
    ensures Whole(To32From8(flags), [0xED, second, third], ConversionOK).result == ConversionOK
  {
    var b := [0xED, second, third];
    AcceptsExactly(b, flags);
    assert b[..3] == b && b[3..] == [];
    assert LooseSecond(b) && Trailing(b[0]) == 2;
    hide Whole, Lawful;
  }

  /** On strings without loose second bytes, success means well-formed. */
  lemma {:induction false} AcceptedIsWellFormed(b: seq<bv8>)
    ensures WellFormed8(b) <==> Accepted8(b) && NoneLoose(b)
    decreases |b|
  {
    hide WellFormed, LooseSecond, Trailing;
    if b != [] {
      var n := Trailing(b[0]) + 1;
      if n <= |b| {
        if WellFormed(b[..n]) {
          LooseIsNotWellFormed(b[..n]);
        }
        AcceptedIsWellFormed(b[n..]);
      }
    }
  }

  /** No character of the string has a loose second byte. */
  ghost predicate NoneLoose(b: seq<bv8>)
    decreases |b|
  {
    b == [] ||
    (var n := Trailing(b[0]) + 1;
     n <= |b| ==> !LooseSecond(b[..n]) && NoneLoose(b[n..]))
  }
}
