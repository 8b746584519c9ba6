/** Packed edge keys of include/gutil.h and src/gutil.cpp: two bytes of bit fields, then the two endpoints. */
module EdgeId {
  import opened Basics

  type Word64 = x: nat | x < 0x1_0000_0000_0000_0000 witness 0

  /** An endpoint: a string or an integer. */
  datatype Key = Text(s: seq<Byte>) | Number(n: Word64)

  /** The bit-field structure. A type bit of 0 means integer. */
  datatype EdgeKey = EdgeKey(direction: bool, fromType: nat, toType: nat, fromLen: nat, len: nat, value: seq<Byte>)

  // -------------------------------------------------------------------- integers in memory

  /** The n lowest bytes of an integer, lowest first. */
  function ToBytes(v: nat, n: nat): (b: seq<Byte>)
    ensures |b| == n
  {
    if n == 0 then [] else [v % 256] + ToBytes(v / 256, n - 1)
  }

  function FromBytes(b: seq<Byte>): nat {
    if b == [] then 0 else b[0] + 256 * FromBytes(b[1..])
  }

  function Power(n: nat): nat {
    if n == 0 then 1 else 256 * Power(n - 1)
  }

  lemma {:induction false} BytesRoundTrip(v: nat, n: nat)
    requires v < Power(n)
    ensures FromBytes(ToBytes(v, n)) == v
  {
    if n > 0 {
      BytesRoundTrip(v / 256, n - 1);
      assert ToBytes(v, n)[1..] == ToBytes(v / 256, n - 1);
    }
  }

  lemma {:induction false} BytesBounded(b: seq<Byte>)
    ensures FromBytes(b) < Power(|b|)
  {
    if b != [] {
      BytesBounded(b[1..]);
    }
  }

  lemma EightBytes()
    ensures Power(8) == 0x1_0000_0000_0000_0000
  {
    assert Power(4) == 0x1_0000_0000;
  }

  function Memory(k: Key): seq<Byte> {
    match k
    case Text(s) => s
    case Number(n) => ToBytes(n, 8)
  }

  function TypeOf(k: Key): nat {
    if k.Text? then 1 else 0
  }

  // -------------------------------------------------------------------- keys

  /** `_from_len` has four bits: what of a length it keeps. */
  function KeptLength(k: Key): nat {
    |Memory(k)| % 16
  }

  /** The value buffer has as many bytes as `_len` says, so both copies stay inside it exactly here. */
  predicate Fits(from: Key, to: Key) {
    KeptLength(from) + |Memory(to)| < 256
  }

  predicate Proper(id: EdgeKey) {
    id.fromType < 2 && id.toType < 2 && id.fromLen < 16 && id.fromLen <= id.len < 256 && |id.value| == id.len
  }

  function Made(direction: bool, from: Key, to: Key): (id: EdgeKey)
    requires Fits(from, to)
    ensures Proper(id)
  {
    EdgeKey(direction, TypeOf(from), TypeOf(to), KeptLength(from), KeptLength(from) + |Memory(to)|,
            Memory(from)[..KeptLength(from)] + Memory(to))
  }

  /** `make_edge_id`. */
  method MakeEdgeId(direction: bool, from: Key, to: Key) returns (id: EdgeKey)
    requires Fits(from, to)
    ensures id == Made(direction, from, to)
  {
    hide Memory;
    var fromType, toType := TypeOf(from), TypeOf(to);
    var fromLen := |Memory(from)| % 16;
    var toLen := |Memory(to)|;
    var len := (toLen + fromLen) % 256;
    assert len == toLen + fromLen;
    var value := new Byte[len];
    MemCpy(value, 0, Memory(from), fromLen);
    assert value[..fromLen] == Memory(from)[..fromLen];
    MemCpy(value, fromLen, Memory(to), toLen);
    assert Memory(to)[..toLen] == Memory(to);
    assert value[fromLen..len] == Memory(to);
    assert value[..] == value[..fromLen] + value[fromLen..len];
    id := EdgeKey(direction, fromType, toType, fromLen, len, value[..]);
  }

  method MemCpy(dst: array<Byte>, at: nat, src: seq<Byte>, n: nat)
    requires n <= |src| && at + n <= dst.Length
    modifies dst
    ensures dst[at..at + n] == src[..n]
    ensures dst[..at] == old(dst[..at]) && dst[at + n..] == old(dst[at + n..])
  {
    for i := 0 to n
      invariant dst[at..at + i] == src[..i]
      invariant dst[..at] == old(dst[..at]) && dst[at + n..] == old(dst[at + n..])
    {
      dst[at + i] := src[i];
      assert dst[at..at + i + 1] == dst[at..at + i] + [src[i]];
    }
  }

  /** The first byte: direction in bit 0, the type bits in bits 1 and 2, four bits of length, a reserved bit. */
  function InfoByte(id: EdgeKey): Byte
    requires Proper(id)
  {
    (if id.direction then 1 else 0) + 2 * id.fromType + 4 * id.toType + 8 * id.fromLen
  }

  /** The bits of the first byte, field by field; the reserved one is clear. */
  lemma InfoBits(id: EdgeKey)
    requires Proper(id)
    ensures
      var b := InfoByte(id);
      && (b % 2 == 1 <==> id.direction)
      && b / 2 % 2 == id.fromType
      && b / 4 % 2 == id.toType
      && b / 8 == id.fromLen
  {
    var d := if id.direction then 1 else 0;
    assert InfoByte(id) == d + 2 * (id.fromType + 2 * (id.toType + 2 * id.fromLen));
  }

  function At(b: seq<Byte>, i: nat): int
    requires i < |b|
  {
    b[i]
  }

  /** Integers are stored lowest byte first. */
  lemma NumberBytes(n: Word64)
    ensures
      var b := Memory(Number(n));
      && |b| == 8
      && n == At(b, 0) + 0x100 * At(b, 1) + 0x1_0000 * At(b, 2) + 0x100_0000 * At(b, 3)
              + 0x1_0000_0000 * (At(b, 4) + 0x100 * At(b, 5) + 0x1_0000 * At(b, 6) + 0x100_0000 * At(b, 7))
  {
    EightBytes();
    BytesRoundTrip(n, 8);
    var b := ToBytes(n, 8);
    hide ToBytes;
    FourOf(b);
    FourOf(b[4..]);
    assert b[4..][4..] == [];
  }

  lemma FourOf(b: seq<Byte>)
    requires |b| >= 4
    ensures FromBytes(b) == At(b, 0) + 0x100 * At(b, 1) + 0x1_0000 * At(b, 2) + 0x100_0000 * At(b, 3)
                            + 0x1_0000_0000 * FromBytes(b[4..])
  {
    assert b[1..][1..] == b[2..] && b[2..][1..] == b[3..] && b[3..][1..] == b[4..];
    assert FromBytes(b[1..]) == At(b, 1) + 256 * FromBytes(b[2..]);
    assert FromBytes(b[2..]) == At(b, 2) + 256 * FromBytes(b[3..]);
  }

  /** The printed key of two endpoints, byte by byte: a type bit is clear for an integer. */
  lemma KeyLayout(direction: bool, from: Key, to: Key)
    requires Fits(from, to)
    ensures
      var s, kept := ToString(Made(direction, from, to)), |Memory(from)| % 16;
      && |s| == 2 + kept + |Memory(to)|
      && (s[0] % 2 == 1 <==> direction)
      && (s[0] / 2 % 2 == 0 <==> from.Number?)
      && (s[0] / 4 % 2 == 0 <==> to.Number?)
      && s[0] / 8 == kept && s[1] == kept + |Memory(to)|
      && s[2..2 + kept] == Memory(from)[..kept] && s[2 + kept..] == Memory(to)
  {
    var id := Made(direction, from, to);
    var kept := |Memory(from)| % 16;
    var s := ToString(id);
    assert id.fromType == (if from.Number? then 0 else 1) && id.toType == (if to.Number? then 0 else 1);
    assert id.value == Memory(from)[..kept] + Memory(to) && id.fromLen == kept && id.len == kept + |Memory(to)|;
    assert Proper(id) && id.direction == direction;
    hide Memory, InfoByte, Made;
    InfoBits(id);
    assert s[2..] == id.value;
    assert s[2..2 + kept] == id.value[..kept] && s[2 + kept..] == id.value[kept..];
  }

  lemma TextBytes(t: seq<Byte>)
    ensures Memory(Text(t)) == t
  {
  }

  function ToString(id: EdgeKey): seq<Byte>
    requires Proper(id)
  {
    [InfoByte(id), id.len] + id.value
  }

  /** `to_edge_id`; none where its assertion on the length fails. */
  function ToEdgeId(id: seq<Byte>): Option<EdgeKey> {
    if |id| < 2 || id[1] != |id| - 2 then None
    else Some(EdgeKey(id[0] % 2 == 1, id[0] / 2 % 2, id[0] / 4 % 2, id[0] / 8 % 16, id[1], id[2..]))
  }

  /** The typed endpoint that a run of bytes stands for; none where an integer is read past the buffer. */
  function GetValue(kind: nat, bytes: seq<Byte>, len: nat): Option<Key>
    requires len <= |bytes|
  {
    if kind == 0 then if |bytes| < 8 then None else Some(Number(EightOf(bytes)))
    else Some(Text(bytes[..len]))
  }

  function EightOf(bytes: seq<Byte>): Word64
    requires |bytes| >= 8
  {
    BytesBounded(bytes[..8]);
    EightBytes();
    FromBytes(bytes[..8])
  }

  function GetFromTo(id: EdgeKey): (Option<Key>, Option<Key>)
    requires Proper(id)
  {
    (GetValue(id.fromType, id.value, id.fromLen), GetValue(id.toType, id.value[id.fromLen..], id.len - id.fromLen))
  }

  // -------------------------------------------------------------------- round trips

  /** What `make_edge_id` keeps of the first endpoint: sixteen bytes or more lose all but the remainder. */
  function Kept(k: Key): Key {
    match k
    case Text(s) => Text(s[..|s| % 16])
    case Number(_) => k
  }

  lemma StringRoundTrip(id: EdgeKey)
    requires Proper(id)
    ensures ToEdgeId(ToString(id)) == Some(id)
  {
    assert ToString(id)[2..] == id.value;
  }

  lemma ValueRoundTrip(k: Key, more: seq<Byte>)
    ensures GetValue(TypeOf(k), Memory(k) + more, |Memory(k)|) == Some(k)
  {
    assert (Memory(k) + more)[..|Memory(k)|] == Memory(k);
    if k.Number? {
      EightBytes();
      BytesRoundTrip(k.n, 8);
    }
  }

  /** Making, printing, parsing and splitting a key gives the direction, the second endpoint, and the first one
      as far as it was kept. */
  lemma KeyRoundTrip(direction: bool, from: Key, to: Key)
    requires Fits(from, to)
    ensures
      var parsed := ToEdgeId(ToString(Made(direction, from, to)));
      && parsed == Some(Made(direction, from, to))
      && parsed.value.direction == direction
      && GetFromTo(parsed.value) == (Some(Kept(from)), Some(to))
  {
    hide GetFromTo, Made, ToEdgeId, ToString, Proper;
    StringRoundTrip(Made(direction, from, to));
    DirectionKept(direction, from, to);
    EndpointsKept(direction, from, to);
  }

  lemma DirectionKept(direction: bool, from: Key, to: Key)
    requires Fits(from, to)
    ensures Made(direction, from, to).direction == direction
  {
  }

  lemma EndpointsKept(direction: bool, from: Key, to: Key)
    requires Fits(from, to)
    ensures GetFromTo(Made(direction, from, to)) == (Some(Kept(from)), Some(to))
  {
    hide GetValue;
    var id := Made(direction, from, to);
    KeptMemory(from);
    ValueRoundTrip(Kept(from), Memory(to));
    ValueRoundTrip(to, []);
    assert id.value[id.fromLen..] == Memory(to) + [] == Memory(to);
  }

  lemma KeptMemory(k: Key)
    ensures Memory(Kept(k)) == Memory(k)[..KeptLength(k)] && TypeOf(Kept(k)) == TypeOf(k)
  {
  }

  /** The key is faithful exactly for a first endpoint of at most fifteen bytes. */
  lemma KeptExactly(k: Key)
    ensures Kept(k) == k <==> |Memory(k)| <= 15
  {
    if k.Text? && |k.s| > 15 {
      assert |k.s[..|k.s| % 16]| < |k.s|;
    } else if k.Text? {
      assert k.s[..|k.s|] == k.s;
    }
  }

  lemma MadeOfKept(d: bool, f: Key, t: Key)
    requires Fits(f, t)
    ensures Fits(Kept(f), t) && Made(d, f, t) == Made(d, Kept(f), t)
  {
    KeptMemory(f);
    assert Memory(Kept(f))[..KeptLength(Kept(f))] == Memory(Kept(f));
  }

  /** Two edges have the same key exactly when they agree in direction, second endpoint, and what is kept of the
      first: long names collide with their remainders. */
  lemma SameKeyExactly(d: bool, f: Key, t: Key, e: bool, g: Key, u: Key)
    requires Fits(f, t) && Fits(g, u)
    ensures ToString(Made(d, f, t)) == ToString(Made(e, g, u)) <==> d == e && Kept(f) == Kept(g) && t == u
  {
    hide Made, ToString, ToEdgeId, GetFromTo, Kept, Proper;
    KeyRoundTrip(d, f, t);
    KeyRoundTrip(e, g, u);
    MadeOfKept(d, f, t);
    MadeOfKept(e, g, u);
  }

  /** Distinct edges have distinct keys where the first endpoints are short enough. */
  lemma KeysTellEdgesApart(d: bool, f: Key, t: Key, e: bool, g: Key, u: Key)
    requires Fits(f, t) && Fits(g, u) && |Memory(f)| <= 15 && |Memory(g)| <= 15
    ensures ToString(Made(d, f, t)) == ToString(Made(e, g, u)) <==> d == e && f == g && t == u
  {
    hide Made, ToString;
    SameKeyExactly(d, f, t, e, g, u);
    KeptExactly(f);
    KeptExactly(g);
  }
}
