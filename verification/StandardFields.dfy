/** The fields of the Protocol Buffers Encoding specification (sections "Message Structure",
    "Length-Delimited Records" and "Groups") beside those the decoders accept: every standard
    field is accepted, and what is accepted beyond them is listed exactly. */
module StandardFields {
  import opened GoInt
  import opened Varint
  import opened Skip
  import opened Codec
  import opened Grammar
  import opened DeviationMessages

  /** Field numbers are 1 to 2^29 - 1. */
  const MAX_FIELD_NUMBER: nat := 0x1FFF_FFFF

  /** The section "Condensed Reference Card" writes the size of a length-delimited record as
      an int32. */
  const MAX_LENGTH: nat := 0x7FFF_FFFF

  function RawNumber(tag: seq<byte>): nat
    requires IsVarint(tag)
  {
    ReadVarint(tag).value.value / 8
  }

  /** (field_number << 3) | wire_type, with no bits above. */
  predicate StandardTag(tag: seq<byte>, wireType: nat) {
    && IsVarint(tag)
    && 1 <= RawNumber(tag) <= MAX_FIELD_NUMBER
    && ReadVarint(tag).value.value == 8 * RawNumber(tag) + wireType
  }

  /** A record of the standard; a group ends with the end tag of its own number. */
  predicate Standard(f: WireField) {
    match f
    case Scalar(tag, number) => StandardTag(tag, 0) && IsVarint(number)
    case Fixed64(tag, bytes) => StandardTag(tag, 1) && |bytes| == 8
    case Delimited(tag, length, payload) =>
      StandardTag(tag, 2) && IsVarint(length) && ReadVarint(length).value.value == |payload| <= MAX_LENGTH
    case Group(tag, fields, end) =>
      StandardTag(tag, 3) && StandardTag(end, 4) && RawNumber(end) == RawNumber(tag) && AllStandard(fields)
    case Fixed32(tag, bytes) => StandardTag(tag, 5) && |bytes| == 4
  }

  predicate AllStandard(fs: seq<WireField>) {
    fs == [] || (Standard(fs[0]) && AllStandard(fs[1..]))
  }

  /** What the decoders let pass: a number that is zero or too large for the standard, a
      length too large for it (or written with bits above the 64th, which are dropped), a group
      ended under another number, or such a field somewhere inside a group. */
  predicate Lax(f: WireField)
    requires WellFormed(f)
  {
    || RawNumber(f.tag) == 0
    || RawNumber(f.tag) > MAX_FIELD_NUMBER
    || (f.Delimited? && ReadVarint(f.length).value.value > MAX_LENGTH)
    || (f.Group? && (RawNumber(f.end) != RawNumber(f.tag) || AnyLax(f.fields)))
  }

  predicate AnyLax(fs: seq<WireField>)
    requires AllWellFormed(fs)
  {
    fs != [] && (Lax(fs[0]) || AnyLax(fs[1..]))
  }

  lemma TagIff(tag: seq<byte>, wireType: nat)
    requires wireType < 8
    ensures StandardTag(tag, wireType) <==> IsTag(tag, wireType) && 1 <= RawNumber(tag) <= MAX_FIELD_NUMBER
  {
    hide ReadVarint;
  }

  lemma LengthIff(length: seq<byte>, n: nat)
    requires IsVarint(length)
    ensures var raw := ReadVarint(length).value.value;
            raw == n <= MAX_LENGTH <==> LengthOf(raw) == n && raw <= MAX_LENGTH
  {
    hide ReadVarint;
  }

  /** The standard's fields are exactly the accepted ones that are not lax. */
  lemma {:induction false} StandardIff(f: WireField)
    ensures Standard(f) <==> WellFormed(f) && !Lax(f)
    decreases f
  {
    hide ReadVarint, StandardTag, LengthOf, RawNumber, IsVarint;
    match f
    case Scalar(tag, _) => TagIff(tag, 0);
    case Fixed64(tag, _) => TagIff(tag, 1);
    case Fixed32(tag, _) => TagIff(tag, 5);
    case Delimited(tag, length, payload) =>
      TagIff(tag, 2);
      if IsVarint(length) { LengthIff(length, |payload|); }
    case Group(tag, fields, end) =>
      TagIff(tag, 3);
      TagIff(end, 4);
      AllStandardIff(fields);
  }

  lemma {:induction false} AllStandardIff(fs: seq<WireField>)
    ensures AllStandard(fs) <==> AllWellFormed(fs) && !AnyLax(fs)
    decreases fs, 0
  {
    hide Standard, WellFormed, Lax;
    if fs != [] {
      StandardIff(fs[0]);
      AllStandardIff(fs[1..]);
    }
  }

  // ----- A buffer is read as at most one sequence of fields

  lemma SameVarint(v: seq<byte>, w: seq<byte>, r: seq<byte>, q: seq<byte>)
    requires IsVarint(v) && IsVarint(w) && v + r == w + q
    ensures v == w && r == q
  {
    hide ReadVarint;
    VarintAtFront(v, r);
    VarintAtFront(w, q);
    assert v == (v + r)[..|v|] && w == (w + q)[..|w|];
  }

  lemma SameLength(u: seq<byte>, v: seq<byte>, r: seq<byte>, q: seq<byte>)
    requires |u| == |v| && u + r == v + q
    ensures u == v && r == q
  {
    assert u == (u + r)[..|u|] && v == (v + q)[..|v|];
    assert r == (u + r)[|u|..] && q == (v + q)[|v|..];
  }

  /** What stands behind the tag. */
  function Body(f: WireField): seq<byte> {
    match f
    case Scalar(_, number) => number
    case Fixed64(_, bytes) => bytes
    case Delimited(_, length, payload) => length + payload
    case Group(_, fields, end) => BytesAll(fields) + end
    case Fixed32(_, bytes) => bytes
  }

  function TypeOf(f: WireField): nat {
    match f
    case Scalar(_, _) => 0
    case Fixed64(_, _) => 1
    case Delimited(_, _, _) => 2
    case Group(_, _, _) => 3
    case Fixed32(_, _) => 5
  }

  lemma TagAndBody(f: WireField, r: seq<byte>)
    requires WellFormed(f)
    ensures IsTag(f.tag, TypeOf(f)) && Bytes(f) + r == f.tag + (Body(f) + r)
  {
    hide IsTag, IsVarint, BytesAll;
  }

  /** The fields of the grammar are unambiguous: no bytes start with two different fields. */
  lemma {:induction false} FieldUnique(f: WireField, g: WireField, r: seq<byte>, q: seq<byte>)
    requires WellFormed(f) && WellFormed(g) && Bytes(f) + r == Bytes(g) + q
    ensures f == g && r == q
    decreases f
  {
    hide ReadVarint, WireType, IsVarint, Bytes, LengthOf, BytesAll;
    TagAndBody(f, r);
    TagAndBody(g, q);
    SameVarint(f.tag, g.tag, Body(f) + r, Body(g) + q);
    match f
    case Scalar(_, number) =>
      SameVarint(number, g.number, r, q);
    case Fixed64(_, bytes) =>
      SameLength(bytes, g.bytes, r, q);
    case Fixed32(_, bytes) =>
      SameLength(bytes, g.bytes, r, q);
    case Delimited(_, length, payload) =>
      assert length + payload + r == length + (payload + r);
      assert g.length + g.payload + q == g.length + (g.payload + q);
      SameVarint(length, g.length, payload + r, g.payload + q);
      SameLength(payload, g.payload, r, q);
    case Group(_, fields, end) =>
      assert BytesAll(fields) + end + r == BytesAll(fields) + (end + r);
      assert BytesAll(g.fields) + g.end + q == BytesAll(g.fields) + (g.end + q);
      FieldsUnique(fields, g.fields, end, g.end, r, q);
  }

  lemma {:induction false} FieldsUnique(fs: seq<WireField>, gs: seq<WireField>, end: seq<byte>, end': seq<byte>,
                                        r: seq<byte>, q: seq<byte>)
    requires AllWellFormed(fs) && AllWellFormed(gs) && IsTag(end, 4) && IsTag(end', 4)
    requires BytesAll(fs) + (end + r) == BytesAll(gs) + (end' + q)
    ensures fs == gs && end == end' && r == q
    decreases fs, 0
  {
    hide ReadVarint, WireType, IsVarint, WellFormed, Bytes;
    if fs == [] && gs == [] {
      assert BytesAll(fs) + (end + r) == end + r && BytesAll(gs) + (end' + q) == end' + q;
      SameVarint(end, end', r, q);
    } else if fs == [] {
      assert BytesAll(fs) + (end + r) == end + r;
      FieldIsNoEnd(gs[0], BytesAll(gs[1..]) + (end' + q), end, r) by { Regroup(gs, end' + q); }
    } else if gs == [] {
      assert BytesAll(gs) + (end' + q) == end' + q;
      FieldIsNoEnd(fs[0], BytesAll(fs[1..]) + (end + r), end', q) by { Regroup(fs, end + r); }
    } else {
      Regroup(fs, end + r);
      Regroup(gs, end' + q);
      FieldUnique(fs[0], gs[0], BytesAll(fs[1..]) + (end + r), BytesAll(gs[1..]) + (end' + q));
      FieldsUnique(fs[1..], gs[1..], end, end', r, q);
      assert fs == [fs[0]] + fs[1..] && gs == [gs[0]] + gs[1..];
    }
  }

  /** So a buffer is a sequence of such fields in one way only. */
  lemma {:induction false} BufferUnique(fs: seq<WireField>, gs: seq<WireField>)
    requires AllWellFormed(fs) && AllWellFormed(gs) && BytesAll(fs) == BytesAll(gs)
    ensures fs == gs
    decreases |fs|
  {
    hide WellFormed, Bytes;
    if fs != [] && gs != [] {
      FieldUnique(fs[0], gs[0], BytesAll(fs[1..]), BytesAll(gs[1..]));
      BufferUnique(fs[1..], gs[1..]);
      assert fs == [fs[0]] + fs[1..] && gs == [gs[0]] + gs[1..];
    }
  }

  lemma Regroup(fs: seq<WireField>, r: seq<byte>)
    requires fs != []
    ensures BytesAll(fs) + r == Bytes(fs[0]) + (BytesAll(fs[1..]) + r)
  {
    hide Bytes;
  }

  /** A field does not start with an end tag. */
  lemma FieldIsNoEnd(f: WireField, r: seq<byte>, end: seq<byte>, q: seq<byte>)
    requires WellFormed(f) && IsTag(end, 4)
    ensures Bytes(f) + r != end + q
  {
    hide ReadVarint, WireType, Bytes;
    TagInFront(f, r);
    VarintAtFront(end, q);
  }

  // ----- The decoders on standard fields

  /** skipGenerated moves over every standard field, whatever follows. */
  lemma StandardSkipped(f: WireField, rest: seq<byte>)
    requires Standard(f) && |Bytes(f)| + |rest| <= MAX_INT64
    ensures SkipFrom(0, Bytes(f) + rest, 0) == Ok(|Bytes(f)|)
  {
    hide SkipFrom, Standard, WellFormed, Lax;
    StandardIff(f);
    SkipsField(0, f, rest, 0);
  }

  /** A skip of n bytes is one the standard has no field for exactly when the one field
      those bytes are is lax. */
  lemma ExtraIffLax(b: seq<byte>, n: nat)
    requires |b| <= MAX_INT64 && n <= |b|
    ensures SkipFrom(0, b, 0) == Ok(n) && !(exists f :: Standard(f) && Bytes(f) == b[..n])
       <==> exists f :: WellFormed(f) && Lax(f) && Bytes(f) == b[..n]
  {
    hide SkipFrom, Standard, WellFormed, Lax, Bytes;
    SkipIffField(b, n);
    forall f, g | WellFormed(f) && WellFormed(g) && Bytes(f) == b[..n] && Bytes(g) == b[..n]
      ensures f == g
    {
      FieldUnique(f, g, [], []);
    }
    forall f ensures Standard(f) <==> WellFormed(f) && !Lax(f) { StandardIff(f); }
  }

  lemma {:induction false} AllowedWellFormed<M>(s: Schema<M>, fs: seq<WireField>)
    requires AllAllowed(s, fs)
    ensures AllWellFormed(fs)
  {
    hide WellFormed;
    if fs != [] { AllowedWellFormed(s, fs[1..]); }
  }

  /** The same for Unmarshal, of every message: a buffer it accepts has exactly one reading as
      fields of the decoders' grammar, and is no sequence of standard fields exactly when one
      of the fields read is lax - skipped or stored. */
  lemma AcceptedReading<M>(s: Schema<M>, m: M, b: seq<byte>) returns (fs: seq<WireField>)
    requires Decode(s, m, b).Ok?
    ensures AllAllowed(s, fs) && ApplyAll(s, m, fs) == Decode(s, m, b)
    ensures AllWellFormed(fs) && BytesAll(fs) == b
    ensures forall gs :: AllWellFormed(gs) && BytesAll(gs) == b ==> gs == fs
    ensures (exists gs :: AllStandard(gs) && BytesAll(gs) == b) <==> !AnyLax(fs)
  {
    hide DecodeFrom, AllAllowed, ApplyAll, AllWellFormed, AllStandard, BytesAll, AnyLax;
    fs := DecodedFields(s, m, 0, b);
    AllowedWellFormed(s, fs);
    forall gs | AllWellFormed(gs) && BytesAll(gs) == b
      ensures gs == fs
    {
      BufferUnique(gs, fs);
    }
    forall gs ensures AllStandard(gs) <==> AllWellFormed(gs) && !AnyLax(gs) { AllStandardIff(gs); }
  }

  /** The decoders' int32 is the number of every standard field. */
  lemma StandardNumber(f: WireField)
    requires Standard(f)
    ensures WellFormed(f) && NumberOf(f) == RawNumber(f.tag) > 0
  {
    hide ReadVarint;
    StandardIff(f);
  }

  // ----- Accepted, but not standard

  /** Start of group 1, end of group 2. */
  lemma MismatchedGroup()
    ensures var f := Group([0x0B], [], [0x14]);
            WellFormed(f) && !Standard(f) && SkipFrom(0, Bytes(f), 0) == Ok(2)
  {
    var f := Group([0x0B], [], [0x14]);
    assert IsTag([0x0B], 3) && IsTag([0x14], 4);
    SkipsField(0, f, [], 0);
    assert Bytes(f) + [] == Bytes(f) && |Bytes(f)| == 2;
  }

  /** A field numbered 0 inside a group. */
  lemma ZeroInGroup()
    ensures var f := Group([0x0B], [Scalar([0x00], [0x00])], [0x0C]);
            WellFormed(f) && !Standard(f) && SkipFrom(0, Bytes(f), 0) == Ok(4)
  {
    var inner := Scalar([0x00], [0x00]);
    var f := Group([0x0B], [inner], [0x0C]);
    assert IsTag([0x0B], 3) && IsTag([0x0C], 4) && IsTag([0x00], 0) && IsVarint([0x00]);
    assert [inner][1..] == [] && !StandardTag([0x00], 0);
    assert AllWellFormed([inner]) && BytesAll([inner]) == [0x00, 0x00];
    SkipsField(0, f, [], 0);
    assert Bytes(f) + [] == Bytes(f) && |Bytes(f)| == 4;
  }

  /** One more group of seven bits in front. */
  lemma MoreBits(low: byte, v: seq<byte>, raw: nat, budget: nat)
    requires low >= 128 && ReadVarint(v, budget) == Ok(Read(raw, |v|))
    ensures ReadVarint([low] + v, budget + 1) == Ok(Read(low % 128 + 128 * raw, 1 + |v|))
  {
    assert ([low] + v)[1..] == v;
  }

  lemma AliasedTag()
    ensures ReadVarint([0x8A, 0x80, 0x80, 0x80, 0x80, 0x01]) == Ok(Read(8 * (TWO_32 + 1) + 2, 6))
  {
    assert ReadVarint([0x01], 5) == Ok(Read(1, 1));
    hide ReadVarint;
    MoreBits(0x80, [0x01], 1, 5);
    MoreBits(0x80, [0x80, 0x01], 0x80, 6);
    MoreBits(0x80, [0x80, 0x80, 0x01], 0x4000, 7);
    MoreBits(0x80, [0x80, 0x80, 0x80, 0x01], 0x20_0000, 8);
    MoreBits(0x8A, [0x80, 0x80, 0x80, 0x80, 0x01], 0x1000_0000, 9);
  }

  const ALIASED := Delimited([0x8A, 0x80, 0x80, 0x80, 0x80, 0x01], [0x01], [0x78])

  lemma AliasedField()
    ensures WellFormed(ALIASED) && !Standard(ALIASED)
    ensures RawNumber(ALIASED.tag) == TWO_32 + 1 && NumberOf(ALIASED) == 1
  {
    AliasedTag();
    assert ReadVarint([0x01]) == Ok(Read(1, 1));
    hide ReadVarint;
  }

  /** The number 2^32 + 1, truncated to int32, is taken for field 1: a message that knows
      field 1 as a string stores the payload there. */
  lemma AliasedNumber<M>(s: Schema<M>, m: M)
    requires s.kind(1) == Payload
    ensures WellFormed(ALIASED) && !Standard(ALIASED) && RawNumber(ALIASED.tag) == TWO_32 + 1
    ensures Decode(s, m, Bytes(ALIASED)) == s.putText(m, 1, [0x78])
  {
    hide WellFormed, Standard, RawNumber, NumberOf, Decode, ReadVarint;
    AliasedField();
    AllowedAlone(s, m, ALIASED);
  }

  /** ConfigDeviation takes it for its path. */
  lemma AliasedPath()
    ensures Decode(DeviationSchema(), NO_DEVIATION, [0x8A, 0x80, 0x80, 0x80, 0x80, 0x01, 0x01, 0x78])
         == Ok(NO_DEVIATION.(path := [0x78]))
  {
    hide Decode, WellFormed, Standard, RawNumber;
    AliasedNumber(DeviationSchema(), NO_DEVIATION);
    assert Bytes(ALIASED) == [0x8A, 0x80, 0x80, 0x80, 0x80, 0x01, 0x01, 0x78];
  }
}
