/** The base64 text of src/Type/Binary.cpp, after section 4 of RFC 4648. Masks and shifts of unsigned bytes are
    written with division and remainder. */
module Base64 {
  import opened Basics

  const UPPER: string := "ABCDEFGHIJKLMNOPQRSTUVWXYZ"
  const LOWER: string := "abcdefghijklmnopqrstuvwxyz"
  const OTHERS: string := "0123456789+/"
  const BASE64_CHARS: string := UPPER + LOWER + OTHERS

  // -------------------------------------------------------------------- alphabet

  predicate CodeOf(c: char, code: int) {
    c as int == code
  }

  lemma UpperCode(v: nat)
    requires v < 26
    ensures CodeOf(UPPER[v], 65 + v)
  {
  }

  lemma LowerCode(v: nat)
    requires v < 26
    ensures CodeOf(LOWER[v], 97 + v)
  {
  }

  lemma OtherCode(v: nat)
    requires v < 12
    ensures CodeOf(OTHERS[v], if v < 10 then 48 + v else if v == 10 then 43 else 47)
  {
  }

  lemma AlphabetLength()
    ensures |UPPER| == 26 && |LOWER| == 26 && |OTHERS| == 12 && |BASE64_CHARS| == 64
  {
  }

  function Letter(v: nat): char
    requires v < 64
  {
    AlphabetLength();
    BASE64_CHARS[v]
  }

  lemma LetterCode(v: nat)
    requires v < 64
    ensures
      CodeOf(Letter(v),
             if v < 26 then 65 + v
             else if v < 52 then 71 + v
             else if v < 62 then v - 4
             else if v == 62 then 43 else 47)
  {
    AlphabetLength();
    if v < 26 {
      UpperCode(v);
    } else if v < 52 {
      LowerCode(v - 26);
    } else {
      OtherCode(v - 52);
    }
  }

  /** `strchr` on the alphabet: the position of a character, or none. */
  function Find(c: char, from: nat): (k: Option<nat>)
    requires from <= 64
    ensures k.Some? ==> from <= k.value < 64 && Letter(k.value) == c
    ensures k.None? ==> forall v :: from <= v < 64 ==> Letter(v) != c
    decreases 64 - from
  {
    hide Letter;
    if from == 64 then None else if Letter(from) == c then Some(from) else Find(c, from + 1)
  }

  lemma LettersAreDistinct(v: nat, w: nat)
    requires v < 64 && w < 64 && Letter(v) == Letter(w)
    ensures v == w && Letter(v) != '='
  {
    hide Letter;
    LetterCode(v);
    LetterCode(w);
  }

  lemma FindsLetter(v: nat)
    requires v < 64
    ensures Find(Letter(v), 0) == Some(v) && Letter(v) != '='
  {
    hide Letter;
    LettersAreDistinct(v, v);
    var k := Find(Letter(v), 0);
    if k.Some? {
      LettersAreDistinct(k.value, v);
    }
  }

  predicate InAlphabet(c: char) {
    Find(c, 0).Some?
  }

  function Index(c: char): (v: nat)
    requires InAlphabet(c)
    ensures v < 64 && Letter(v) == c
  {
    Find(c, 0).value
  }

  // -------------------------------------------------------------------- groups

  /** Three bytes, and four groups of six bits, of a 24-bit number. */
  datatype Four = Four(x: nat, y: nat, z: nat, w: nat)
  datatype Three = Three(a: Byte, b: Byte, c: Byte)

  function OfBytes(t: Three): (n: nat)
    ensures n < 0x1000000
  {
    t.a * 0x10000 + t.b * 256 + t.c
  }

  predicate SixBits(f: Four) {
    f.x < 64 && f.y < 64 && f.z < 64 && f.w < 64
  }

  function OfSextets(f: Four): (n: nat)
    requires SixBits(f)
    ensures n < 0x1000000
  {
    f.x * 0x40000 + f.y * 0x1000 + f.z * 64 + f.w
  }

  lemma TimesGrows(m: nat, a: nat, b: nat)
    requires a < b
    ensures a * m + m <= b * m
  {
    var d := b - a - 1;
    assert b * m == (a + d + 1) * m == a * m + d * m + m;
  }

  lemma LeadingDigit(m: nat, a: nat, r: nat, b: nat, s: nat)
    requires r < m && s < m && a * m + r == b * m + s
    ensures a == b && r == s
  {
    if a < b {
      TimesGrows(m, a, b);
    } else if b < a {
      TimesGrows(m, b, a);
    }
  }

  lemma BytesAreDigits(t: Three, u: Three)
    requires OfBytes(t) == OfBytes(u)
    ensures t == u
  {
    LeadingDigit(0x10000, t.a, t.b * 256 + t.c, u.a, u.b * 256 + u.c);
    LeadingDigit(256, t.b, t.c, u.b, u.c);
  }

  lemma SextetsAreDigits(f: Four, g: Four)
    requires SixBits(f) && SixBits(g) && OfSextets(f) == OfSextets(g)
    ensures f == g
  {
    LeadingDigit(0x40000, f.x, f.y * 0x1000 + f.z * 64 + f.w, g.x, g.y * 0x1000 + g.z * 64 + g.w);
    LeadingDigit(0x1000, f.y, f.z * 64 + f.w, g.y, g.z * 64 + g.w);
    LeadingDigit(64, f.z, f.w, g.z, g.w);
  }

  /** The masks and shifts of the encoder. */
  function Regrouped(t: Three): Four {
    Four(t.a / 4, t.a % 4 * 16 + t.b / 16, t.b % 16 * 4 + t.c / 64, t.c % 64)
  }

  /** The masks and shifts of the decoder, on indices up to 64, in unsigned bytes. */
  function Unpacked(f: Four): Three {
    Three((f.x * 4 + f.y / 16 % 4) % 256, (f.y % 16 * 16 + f.z / 4 % 16) % 256, (f.z % 4 * 64 + f.w) % 256)
  }

  lemma RegroupedIsSextets(t: Three)
    ensures SixBits(Regrouped(t)) && OfSextets(Regrouped(t)) == OfBytes(t)
  {
  }

  lemma UnpackedIsOctets(f: Four)
    requires SixBits(f)
    ensures OfBytes(Unpacked(f)) == OfSextets(f)
  {
    var t := Unpacked(f);
    assert t.a == f.x * 4 + f.y / 16;
    assert t.b == f.y % 16 * 16 + f.z / 4;
    assert t.c == f.z % 4 * 64 + f.w;
    assert f.y == f.y / 16 * 16 + f.y % 16;
    assert f.z == f.z / 4 * 4 + f.z % 4;
  }

  /** An index of 64, which the decoder computes for a missing character, leaves the bytes before it as an
      index of zero does. */
  lemma PaddingIsZero(x: nat, y: nat, z: nat)
    requires x < 64 && y < 64 && z < 64
    ensures Unpacked(Four(x, y, 64, 64)).a == Unpacked(Four(x, y, 0, 0)).a
    ensures Unpacked(Four(x, y, z, 64)).a == Unpacked(Four(x, y, z, 0)).a
    ensures Unpacked(Four(x, y, z, 64)).b == Unpacked(Four(x, y, z, 0)).b
  {
  }

  lemma UnpackedInverts(t: Three)
    ensures Unpacked(Regrouped(t)) == t
  {
    hide Unpacked, Regrouped;
    RegroupedIsSextets(t);
    UnpackedIsOctets(Regrouped(t));
    BytesAreDigits(Unpacked(Regrouped(t)), t);
  }

  // -------------------------------------------------------------------- texts

  function Quad(f: Four): (q: string)
    requires SixBits(f)
    ensures |q| == 4
  {
    [Letter(f.x), Letter(f.y), Letter(f.z), Letter(f.w)]
  }

  function GroupOf(bin: seq<Byte>): Three
    requires bin != []
  {
    Three(bin[0], if |bin| > 1 then bin[1] else 0, if |bin| > 2 then bin[2] else 0)
  }

  function Encoded(bin: seq<Byte>): string {
    if bin == [] then ""
    else
      var f := Regrouped(GroupOf(bin));
      RegroupedIsSextets(GroupOf(bin));
      if |bin| == 1 then Quad(f)[..2] + "=="
      else if |bin| == 2 then Quad(f)[..3] + "="
      else Quad(f) + Encoded(bin[3..])
  }

  /** Section 4 of RFC 4648: 24-bit groups written as four characters of six bits each; a last group of one or
      two bytes is filled up with zero bits to two or three characters, and '=' to four. */
  ghost predicate IsEncoding(text: string, bin: seq<Byte>)
    decreases |bin|
  {
    if bin == [] then text == ""
    else
      && |text| >= 4
      && (exists f: Four :: Spells(text[..4], bin, f))
      && IsEncoding(text[4..], Rest(bin))
  }

  function Rest(bin: seq<Byte>): seq<Byte> {
    if |bin| < 3 then [] else bin[3..]
  }

  predicate Spells(group: string, bin: seq<Byte>, f: Four)
    requires bin != []
  {
    && SixBits(f) && OfSextets(f) == OfBytes(GroupOf(bin))
    && group == if |bin| == 1 then Quad(f)[..2] + "==" else if |bin| == 2 then Quad(f)[..3] + "=" else Quad(f)
  }

  lemma {:induction false} EncodedIsEncoding(bin: seq<Byte>)
    ensures IsEncoding(Encoded(bin), bin)
    decreases |bin|
  {
    hide Regrouped, OfBytes, OfSextets, Letter;
    if bin != [] {
      var f := Regrouped(GroupOf(bin));
      RegroupedIsSextets(GroupOf(bin));
      EncodedIsEncoding(Rest(bin));
      assert Encoded(bin)[4..] == Encoded(Rest(bin));
      assert Spells(Encoded(bin)[..4], bin, f);
    }
  }

  /** The standard leaves no choice: a text that follows it is the encoder's. */
  lemma {:induction false} EncodingIsUnique(text: string, bin: seq<Byte>)
    requires IsEncoding(text, bin)
    ensures text == Encoded(bin)
    decreases |bin|
  {
    hide Regrouped, OfBytes, OfSextets, Letter;
    if bin != [] {
      var f: Four :| Spells(text[..4], bin, f);
      RegroupedIsSextets(GroupOf(bin));
      SextetsAreDigits(f, Regrouped(GroupOf(bin)));
      EncodingIsUnique(text[4..], Rest(bin));
      assert text == text[..4] + text[4..];
    }
  }

  // -------------------------------------------------------------------- reading

  /** The text before the first '='. */
  function Unpadded(text: string): (p: string)
    ensures |p| <= |text|
  {
    if text == "" || text[0] == '=' then "" else [text[0]] + Unpadded(text[1..])
  }

  predicate AllLetters(p: string) {
    forall i :: 0 <= i < |p| ==> InAlphabet(p[i])
  }

  /** The index of character i of a group, and what stands for one that is missing. */
  function IndexAt(p: string, i: nat, missing: nat): (v: nat)
    requires AllLetters(p)
    ensures i < |p| ==> v < 64
  {
    if i < |p| then Index(p[i]) else missing
  }

  function Indices(p: string, missing: nat): Four
    requires AllLetters(p)
  {
    Four(IndexAt(p, 0, missing), IndexAt(p, 1, missing), IndexAt(p, 2, missing), IndexAt(p, 3, missing))
  }

  /** The bytes of groups of four characters, and of a last group one less than its characters. */
  function Decoded(p: string): seq<Byte>
    requires AllLetters(p)
  {
    if p == "" then []
    else
      var t := Unpacked(Indices(p, 0));
      if |p| == 1 then []
      else if |p| == 2 then [t.a]
      else if |p| == 3 then [t.a, t.b]
      else [t.a, t.b, t.c] + Decoded(p[4..])
  }

  lemma QuadIndices(f: Four, n: nat, rest: string)
    requires SixBits(f) && 2 <= n <= 4 && AllLetters(rest)
    requires n == 2 ==> f.z == 0
    requires n <= 3 ==> f.w == 0
    requires n < 4 ==> rest == ""
    ensures AllLetters(Quad(f)[..n] + rest) && Indices(Quad(f)[..n] + rest, 0) == f
  {
    hide Letter, Find;
    FindsLetter(f.x);
    FindsLetter(f.y);
    FindsLetter(f.z);
    FindsLetter(f.w);
  }

  lemma UnpaddedLetters(p: string, rest: string)
    requires AllLetters(p)
    requires rest == "" || rest[0] == '='
    ensures Unpadded(p + rest) == p
  {
    hide Letter, Find;
    if p != "" {
      var v := Index(p[0]);
      FindsLetter(v);
      UnpaddedLetters(p[1..], rest);
      assert (p + rest)[1..] == p[1..] + rest;
    }
  }

  /** The letters of an encoding, without the padding. */
  lemma {:induction false} EncodedDecodes(bin: seq<Byte>) returns (p: string, pad: string)
    ensures Encoded(bin) == p + pad && (pad == "" || pad[0] == '=')
    ensures AllLetters(p) && Decoded(p) == bin
    decreases |bin|
  {
    hide Letter, Find, Unpacked, Regrouped, Indices, Quad, AllLetters;
    if bin == [] {
      p, pad := "", "";
      NothingDecodes();
    } else if |bin| < 3 {
      p, pad := ShortDecodes(bin);
    } else {
      var q: string;
      q, pad := EncodedDecodes(bin[3..]);
      p := GroupDecodes(bin, q, pad);
    }
  }

  lemma NothingDecodes()
    ensures AllLetters("") && Decoded("") == []
  {
  }

  lemma ShortDecodes(bin: seq<Byte>) returns (p: string, pad: string)
    requires 0 < |bin| < 3
    ensures Encoded(bin) == p + pad && pad != "" && pad[0] == '='
    ensures AllLetters(p) && Decoded(p) == bin
  {
    hide Letter, Find, Unpacked, Regrouped, Indices, Quad;
    var t := GroupOf(bin);
    var f := Regrouped(t);
    RegroupedIsSextets(t);
    ShortGroups(t);
    UnpackedInverts(t);
    QuadIndices(f, |bin| + 1, "");
    p := Quad(f)[..|bin| + 1];
    assert p + "" == p;
    pad := if |bin| == 1 then "==" else "=";
  }

  lemma GroupDecodes(bin: seq<Byte>, q: string, pad: string) returns (p: string)
    requires |bin| >= 3 && Encoded(bin[3..]) == q + pad && AllLetters(q) && Decoded(q) == bin[3..]
    ensures Encoded(bin) == p + pad && AllLetters(p) && Decoded(p) == bin
  {
    hide Letter, Find, Unpacked, Regrouped, Indices, Quad, AllLetters;
    var t := GroupOf(bin);
    var f := Regrouped(t);
    RegroupedIsSextets(t);
    UnpackedInverts(t);
    QuadIndices(f, 4, q);
    p := Quad(f)[..4] + q;
    assert p[4..] == q && Quad(f)[..4] == Quad(f);
    assert bin == [bin[0], bin[1], bin[2]] + bin[3..];
  }

  lemma ShortGroups(t: Three)
    ensures t.c == 0 ==> Regrouped(t).w == 0
    ensures t.b == 0 && t.c == 0 ==> Regrouped(t).z == 0
  {
  }

  /** Decoding the encoding of any byte sequence gives it back. */
  lemma RoundTrip(bin: seq<Byte>)
    ensures AllLetters(Unpadded(Encoded(bin)))
    ensures Decoded(Unpadded(Encoded(bin))) == bin
  {
    hide Encoded, Decoded, AllLetters;
    var p, pad := EncodedDecodes(bin);
    UnpaddedLetters(p, pad);
  }

  lemma LetterIsNoNul(v: nat)
    requires v < 64
    ensures Letter(v) != '\0'
  {
    LetterCode(v);
    hide Letter;
  }

  lemma QuadHasNoNul(f: Four)
    requires SixBits(f)
    ensures '\0' !in Quad(f)
  {
    hide Letter;
    LetterIsNoNul(f.x);
    LetterIsNoNul(f.y);
    LetterIsNoNul(f.z);
    LetterIsNoNul(f.w);
  }

  /** The encoding is a C string, as the decoder needs. */
  lemma {:induction false} EncodedIsCString(bin: seq<Byte>)
    ensures '\0' !in Encoded(bin)
    decreases |bin|
  {
    hide Quad, Regrouped;
    if bin != [] {
      RegroupedIsSextets(GroupOf(bin));
      QuadHasNoNul(Regrouped(GroupOf(bin)));
      if |bin| > 2 {
        EncodedIsCString(bin[3..]);
      }
    }
  }

  // -------------------------------------------------------------------- loops

  /** Writes the four groups of three bytes to the work array. */
  method Regroup(three: array<Byte>, four: array<nat>)
    requires three.Length == 3 && four.Length == 4
    modifies four
    ensures Four(four[0], four[1], four[2], four[3]) == Regrouped(Three(three[0], three[1], three[2]))
  {
    four[0] := three[0] / 4;
    four[1] := three[0] % 4 * 16 + three[1] / 16;
    four[2] := three[1] % 16 * 4 + three[2] / 64;
    four[3] := three[2] % 64;
  }

  method PutLetters(four: array<nat>, n: nat, ret: string, ghost f: Four) returns (out: string)
    requires four.Length == 4 && n <= 4 && SixBits(f) && f == Four(four[0], four[1], four[2], four[3])
    ensures out == ret + Quad(f)[..n]
  {
    hide Letter;
    out := ret;
    for j := 0 to n
      invariant out == ret + Quad(f)[..j]
    {
      out := out + [Letter(four[j])];
    }
  }

  lemma EncodesGroup(bin: seq<Byte>)
    requires |bin| >= 3
    ensures SixBits(Regrouped(GroupOf(bin)))
    ensures Encoded(bin) == Quad(Regrouped(GroupOf(bin)))[..4] + Encoded(bin[3..])
  {
    hide Regrouped, Letter, OfBytes, OfSextets;
    RegroupedIsSextets(GroupOf(bin));
  }

  /** The bytes left over when the loop ends. */
  method Finish(three: array<Byte>, four: array<nat>, n: nat, ret: string, ghost group: seq<Byte>) returns (out: string)
    requires three.Length == 3 && four.Length == 4 && 0 < n < 3 && group == three[..n]
    modifies three, four
    ensures out == ret + Encoded(group)
  {
    hide Regrouped, Letter, Quad;
    ghost var f := Regrouped(GroupOf(group));
    for j := n to 3
      invariant three[..n] == group
      invariant forall k :: n <= k < j ==> three[k] == 0
    {
      three[j] := 0;
    }
    Regroup(three, four);
    assert three[0] == group[0] && (n == 2 ==> three[1] == group[1]);
    RegroupedIsSextets(GroupOf(group));
    out := PutLetters(four, n + 1, ret, f);
    var i := n;
    while i < 3
      invariant n <= i <= 3
      invariant out == ret + Quad(f)[..n + 1] + "=="[..i - n]
    {
      out := out + "=";
      i := i + 1;
    }
  }

  method Base64Encode(bin: seq<Byte>) returns (ret: string)
    ensures ret == Encoded(bin)
  {
    hide Regrouped, Encoded, Quad;
    ret := "";
    var three, four := new Byte[3], new nat[4];
    var i, offset := 0, 0;
    while offset < |bin|
      invariant offset <= |bin| && i < 3 && i <= offset
      invariant three[..i] == bin[offset - i..offset]
      invariant ret + Encoded(bin[offset - i..]) == Encoded(bin)
    {
      three[i] := bin[offset];
      offset := offset + 1;
      i := i + 1;
      if i == 3 {
        Regroup(three, four);
        ghost var group := bin[offset - 3..];
        assert three[..3] == group[..3];
        EncodesGroup(group);
        assert group[3..] == bin[offset..];
        ghost var q, before := Quad(Regrouped(GroupOf(group)))[..4], ret;
        ret := PutLetters(four, 4, ret, Regrouped(GroupOf(group)));
        assert before + (q + Encoded(group[3..])) == ret + Encoded(group[3..]);
        i := 0;
      }
    }
    if i > 0 {
      ret := Finish(three, four, i, ret, bin[offset - i..]);
    } else {
      assert bin[offset..] == [] && Encoded([]) == "" by { NothingEncodes(); }
    }
  }

  lemma NothingEncodes()
    ensures Encoded([]) == ""
  {
  }

  /** `strchr` on the alphabet, as a position: for a NUL it finds the end. */
  function StrChr(c: char): Option<nat> {
    if c == '\0' then Some(64) else Find(c, 0)
  }

  /** Writes the three bytes of four indices to the work array. */
  method Join(four: array<nat>, three: array<Byte>)
    requires four.Length == 4 && three.Length == 3
    modifies three
    ensures Three(three[0], three[1], three[2]) == Unpacked(Four(four[0], four[1], four[2], four[3]))
  {
    three[0] := (four[0] * 4 + four[1] / 16 % 4) % 256;
    three[1] := (four[1] % 16 * 16 + four[2] / 4 % 16) % 256;
    three[2] := (four[2] % 4 * 64 + four[3]) % 256;
  }

  /** Looks up n characters, and NULs in the place of missing ones, and writes the three bytes; fails where
      `strchr` finds no such character. */
  method Unpack(letters: array<char>, n: nat, four: array<nat>, three: array<Byte>) returns (ok: bool)
    requires letters.Length == 4 && four.Length == 4 && three.Length == 3 && n <= 4
    requires '\0' !in letters[..n] && forall j :: n <= j < 4 ==> letters[j] == '\0'
    modifies four, three
    ensures ok <==> AllLetters(letters[..n])
    ensures ok ==> Three(three[0], three[1], three[2]) == Unpacked(Indices(letters[..n], 64))
  {
    hide Find, Unpacked, Letter;
    for j := 0 to 4
      invariant forall k :: 0 <= k < j && k < n ==> InAlphabet(letters[k])
      invariant forall k :: 0 <= k < j ==> four[k] == if k < n then Index(letters[k]) else 64
    {
      var k := StrChr(letters[j]);
      if k.None? {
        assert letters[..n][j] == letters[j];
        return false;
      }
      four[j] := k.value;
    }
    Join(four, three);
    return true;
  }

  lemma {:induction false} UnpaddedIsPrefix(text: string)
    ensures
      var p := Unpadded(text);
      && |p| <= |text| && p == text[..|p|] && '=' !in p
      && (|p| < |text| ==> text[|p|] == '=')
  {
    if text != "" && text[0] != '=' {
      UnpaddedIsPrefix(text[1..]);
    }
  }

  function ThreeOf(t: Three): seq<Byte> {
    [t.a, t.b, t.c]
  }

  function DecodedFrom(p: string, at: nat): seq<Byte>
    requires at <= |p| && AllLetters(p)
  {
    Decoded(p[at..])
  }

  lemma DecodesGroup(p: string, at: nat)
    requires at + 4 <= |p| && AllLetters(p)
    ensures AllLetters(p[at..at + 4])
    ensures DecodedFrom(p, at) == ThreeOf(Unpacked(Indices(p[at..at + 4], 64))) + DecodedFrom(p, at + 4)
  {
    hide InAlphabet, Index, Unpacked;
    assert p[at..][4..] == p[at + 4..];
    assert Indices(p[at..at + 4], 64) == Indices(p[at..], 0);
  }

  lemma DecodesTail(p: string)
    requires 0 < |p| < 4 && AllLetters(p)
    ensures Decoded(p) == ThreeOf(Unpacked(Indices(p, 64)))[..|p| - 1]
  {
    hide InAlphabet, Index, Unpacked, Letter, Find;
    var f := Indices(p, 0);
    PaddingIsZero(f.x, f.y, f.z);
  }

  /** Appends the first n of the three bytes. */
  method PutBytes(three: array<Byte>, n: nat, out: seq<Byte>) returns (more: seq<Byte>)
    requires three.Length == 3 && n <= 3
    ensures more == out + ThreeOf(Three(three[0], three[1], three[2]))[..n]
  {
    more := out;
    for j := 0 to n
      invariant more == out + ThreeOf(Three(three[0], three[1], three[2]))[..j]
    {
      more := more + [three[j]];
    }
  }

  /** A full group of four characters. */
  method DecodeGroup(letters: array<char>, four: array<nat>, three: array<Byte>, out: seq<Byte>, ghost p: string,
                     ghost at: nat)
    returns (ok: bool, more: seq<Byte>)
    requires letters.Length == 4 && four.Length == 4 && three.Length == 3
    requires at + 4 <= |p| && letters[..4] == p[at..at + 4] && '\0' !in letters[..4]
    modifies four, three
    ensures ok <==> AllLetters(p[at..at + 4])
    ensures ok && AllLetters(p) ==> more + DecodedFrom(p, at + 4) == out + DecodedFrom(p, at)
  {
    hide AllLetters, Unpacked, Indices, DecodedFrom;
    ok := Unpack(letters, 4, four, three);
    more := out;
    if ok {
      more := PutBytes(three, 3, out);
      if AllLetters(p) {
        DecodesGroup(p, at);
        ghost var group := ThreeOf(Three(three[0], three[1], three[2]));
        assert out + (group + DecodedFrom(p, at + 4)) == more + DecodedFrom(p, at + 4);
      }
    }
  }

  /** The characters left over when the loop ends. */
  method FinishDecoding(letters: array<char>, n: nat, four: array<nat>, three: array<Byte>, out: seq<Byte>)
    returns (ret: Option<seq<Byte>>)
    requires letters.Length == 4 && four.Length == 4 && three.Length == 3 && 0 < n < 4
    requires '\0' !in letters[..n]
    modifies letters, four, three
    ensures
      var p := old(letters[..n]);
      ret == if AllLetters(p) then Some(out + Decoded(p)) else None
  {
    hide AllLetters, Unpacked, Decoded, Indices;
    ghost var p := letters[..n];
    for j := n to 4
      invariant letters[..n] == p
      invariant forall k :: n <= k < j ==> letters[k] == '\0'
    {
      letters[j] := '\0';
    }
    var ok := Unpack(letters, n, four, three);
    if !ok {
      return None;
    }
    DecodesTail(p);
    var more := PutBytes(three, n - 1, out);
    return Some(more);
  }

  lemma LettersGoOn(p: string, at: nat, to: nat)
    requires at <= to <= |p| && AllLetters(p[..at])
    ensures AllLetters(p[at..to]) <==> AllLetters(p[..to])
    ensures !AllLetters(p[..to]) ==> !AllLetters(p)
  {
    hide InAlphabet;
    assert forall k :: at <= k < to ==> p[at..to][k - at] == p[k];
    assert forall k :: 0 <= k < at ==> p[..at][k] == p[..to][k];
  }

  /** `base64_decode` of a C string. None where it subtracts from the null pointer that `strchr` gives for a
      character outside the alphabet. */
  method Base64Decode(base64: string) returns (ret: Option<seq<Byte>>)
    requires '\0' !in base64
    ensures ret == if AllLetters(Unpadded(base64)) then Some(Decoded(Unpadded(base64))) else None
  {
    hide AllLetters, Unpacked, Decoded, Indices, Unpadded, DecodedFrom;
    ghost var p := Unpadded(base64);
    UnpaddedIsPrefix(base64);
    var out: seq<Byte> := [];
    var letters, four, three := new char[4], new nat[4], new Byte[3];
    var i, at := 0, 0;
    DecodingStarts(p);
    while at < |base64| && base64[at] != '='
      invariant at <= |p| && i < 4 && i <= at
      invariant letters[..i] == p[at - i..at]
      invariant AllLetters(p[..at - i])
      invariant AllLetters(p) ==> out + DecodedFrom(p, at - i) == Decoded(p)
    {
      assert at < |p| && p[at] == base64[at];
      assert p[at - i..at + 1] == p[at - i..at] + [p[at]];
      letters[i] := base64[at];
      i := i + 1;
      at := at + 1;
      assert letters[..i] == letters[..i - 1] + [letters[i - 1]] == p[at - i..at];
      if i == 4 {
        LettersGoOn(p, at - 4, at);
        var ok;
        ok, out := DecodeGroup(letters, four, three, out, p, at - 4);
        if !ok {
          return None;
        }
        i := 0;
      }
    }
    WholePrefix(base64, p, at);
    LettersGoOn(p, at - i, at);
    DecodingEnds(p, at - i);
    if i > 0 {
      ret := FinishDecoding(letters, i, four, three, out);
    } else {
      assert out + [] == out;
      ret := Some(out);
    }
  }

  lemma WholePrefix(text: string, p: string, at: nat)
    requires |p| <= |text| && p == text[..|p|] && '=' !in p
    requires at <= |p| && (at == |text| || text[at] == '=')
    ensures at == |p|
  {
    assert forall j :: 0 <= j < |p| ==> p[j] == text[j] && text[j] in p;
  }

  lemma DecodingStarts(p: string)
    ensures AllLetters(p[..0])
    ensures AllLetters(p) ==> DecodedFrom(p, 0) == Decoded(p)
  {
    assert p[0..] == p;
  }

  lemma DecodingEnds(p: string, at: nat)
    requires at <= |p| && AllLetters(p[..at])
    ensures p[at..|p|] == p[at..] && p[..|p|] == p
    ensures AllLetters(p) ==> DecodedFrom(p, at) == Decoded(p[at..])
    ensures AllLetters(p) && at == |p| ==> DecodedFrom(p, at) == []
  {
  }
}
