/** ConfigDeviation and DeviationSpec: optional strings, and a repeated nested message. */
module DeviationMessages {
  import opened GoInt
  import opened Varint
  import opened Codec
  import opened Buffer

  // ----- ConfigDeviation

  datatype ConfigDeviation = ConfigDeviation(
    path: Text, desiredValue: Option<Text>, actualValue: Option<Text>, reason: Text)
  {
    /** The fields MarshalToSizedBuffer writes, in buffer order: a nil string is left
        out, an empty one is not. */
    function Fields(): seq<Field> {
      [TextField(1, path)] + OptionalText(2, desiredValue) + OptionalText(3, actualValue) + [TextField(4, reason)]
    }

    function Encoding(): seq<byte> {
      FieldsBytes(Fields())
    }

    method Size() returns (n: nat)
      ensures n == |Encoding()|
    {
      hide FieldBytes, Sov;
      n := 1 + |path| + Sov(|path|);
      if desiredValue != None {
        n := n + 1 + |desiredValue.value| + Sov(|desiredValue.value|);
      }
      if actualValue != None {
        n := n + 1 + |actualValue.value| + Sov(|actualValue.value|);
      }
      n := n + 1 + |reason| + Sov(|reason|);
      ghost var a, b, c := [TextField(1, path)], OptionalText(2, desiredValue), OptionalText(3, actualValue);
      FieldsBytesAppend(a + b + c, [TextField(4, reason)]);
      FieldsBytesAppend(a + b, c);
      FieldsBytesAppend(a, b);
      OneField(TextField(1, path));
      OneField(TextField(4, reason));
      if desiredValue != None { OneField(TextField(2, desiredValue.value)); }
      if actualValue != None { OneField(TextField(3, actualValue.value)); }
    }

    /** The encoding ends at dAtA[hi]; every other byte of dAtA keeps its value. */
    method MarshalToSizedBuffer(dAtA: array<byte>, hi: nat) returns (n: nat)
      requires |Encoding()| <= hi <= dAtA.Length
      modifies dAtA
      ensures n == |Encoding()| && dAtA[hi - n..hi] == Encoding()
      ensures OnlyWrote(dAtA, hi - n, hi)
    {
      hide FieldsBytes, FieldBytes, Holds;
      ghost var all := Fields();
      ghost var k := |all|;
      EmptyTail(dAtA, hi, all);
      var i := hi;
      i := PutText(dAtA, i, 4, reason, hi, all, k);
      k := k - 1;
      if actualValue != None {
        i := PutText(dAtA, i, 3, actualValue.value, hi, all, k);
        k := k - 1;
        assert OnlyWrote(dAtA, i, hi);
      }
      if desiredValue != None {
        i := PutText(dAtA, i, 2, desiredValue.value, hi, all, k);
        k := k - 1;
        assert OnlyWrote(dAtA, i, hi);
      }
      i := PutText(dAtA, i, 1, path, hi, all, k);
      assert OnlyWrote(dAtA, i, hi);
      AllWritten(dAtA, i, hi, all);
      return hi - i;
    }

    method Marshal() returns (out: seq<byte>)
      ensures out == Encoding()
    {
      var size := Size();
      var dAtA := new byte[size];
      var n := MarshalToSizedBuffer(dAtA, size);
      return dAtA[..n];
    }
  }

  /** Unmarshal of `m` into a message that holds `old`: a field that is written replaces,
      a nil one leaves what was there. */
  function MergeDeviation(held: ConfigDeviation, m: ConfigDeviation): ConfigDeviation {
    m.(desiredValue := if m.desiredValue == None then held.desiredValue else m.desiredValue,
       actualValue := if m.actualValue == None then held.actualValue else m.actualValue)
  }

  const NO_DEVIATION := ConfigDeviation([], None, None, [])

  function DeviationSchema(): Schema<ConfigDeviation> {
    Schema(
      (num: nat) => if 1 <= num <= 4 then Payload else Unknown,
      (m: ConfigDeviation, num: nat, p: Text) =>
        Ok(match num
           case 1 => m.(path := p)
           case 2 => m.(desiredValue := Some(p))
           case 3 => m.(actualValue := Some(p))
           case _ => m.(reason := p)),
      (m: ConfigDeviation, num: nat, p: Text) => m,
      (m: ConfigDeviation, num: nat, v: nat) => m)
  }

  class ConfigDeviationMessage {
    var path: Text
    var desiredValue: Option<Text>
    var actualValue: Option<Text>
    var reason: Text

    function Value(): ConfigDeviation
      reads this
    {
      ConfigDeviation(path, desiredValue, actualValue, reason)
    }

    constructor ()
      ensures Value() == NO_DEVIATION
    {
      path, desiredValue, actualValue, reason := [], None, None, [];
    }

    method Unmarshal(dAtA: seq<byte>) returns (err: Option<Error>)
      requires |dAtA| <= MAX_INT64
      modifies this
      ensures match Decode(DeviationSchema(), old(Value()), dAtA)
              case Ok(m) => err == None && Value() == m
              case Err(e) => err == Some(e) && Value() == Left(DeviationSchema(), old(Value()), dAtA)
    {
      hide ReadHead, TextSize, UnknownSize, DecodeFrom, LeftFrom;
      ghost var s := DeviationSchema();
      var l := |dAtA|;
      var iNdEx := 0;
      assert dAtA[0..] == dAtA;
      while iNdEx < l
        invariant iNdEx <= l
        invariant DecodeFrom(s, Value(), iNdEx, dAtA[iNdEx..]) == DecodeFrom(s, old(Value()), 0, dAtA)
        invariant LeftFrom(s, Value(), iNdEx, dAtA[iNdEx..]) == LeftFrom(s, old(Value()), 0, dAtA)
      {
        ghost var b := dAtA[iNdEx..];
        DecodeFromStep(s, Value(), iNdEx, b);
        var head := ReadTag(dAtA, iNdEx);
        if head.Err? { return Some(head.error); }
        var preIndex := iNdEx;
        iNdEx := iNdEx + head.value.size;
        assert dAtA[iNdEx..] == b[head.value.size..];
        if 1 <= head.value.num <= 4 {
          if head.value.wireType != 2 { return Some(WrongWireType); }
          var text := ReadText(dAtA, iNdEx);
          if text.Err? { return Some(text.error); }
          var (from, to) := text.value;
          var payload := dAtA[iNdEx + from..iNdEx + to];
          assert payload == dAtA[iNdEx..][from..to];
          match head.value.num {
            case 1 => path := payload;
            case 2 => desiredValue := Some(payload);
            case 3 => actualValue := Some(payload);
            case _ => reason := payload;
          }
          iNdEx := iNdEx + to;
        } else {
          iNdEx := preIndex;
          var skippy := SkipUnknown(dAtA, iNdEx);
          if skippy.Err? { return Some(skippy.error); }
          iNdEx := iNdEx + skippy.value;
        }
        assert dAtA[iNdEx..] == b[iNdEx - preIndex..];
      }
      assert dAtA[iNdEx..] == [];
      assert DecodeFrom(s, Value(), iNdEx, []) == Ok(Value()) by { DecodeNothing(s, Value(), iNdEx); }
      return None;
    }
  }

  lemma DeviationFits(m: ConfigDeviation)
    requires |m.Encoding()| <= MAX_INT64
    ensures AllFit(DeviationSchema(), m.Fields())
  {
    PayloadsFit(m.Fields());
  }

  lemma PutDeviationFields(held: ConfigDeviation, m: ConfigDeviation)
    ensures PutAll(DeviationSchema(), held, m.Fields()) == Ok(MergeDeviation(held, m))
  {
    var s := DeviationSchema();
    var a, b := [TextField(1, m.path)], OptionalText(2, m.desiredValue);
    var c, d := OptionalText(3, m.actualValue), [TextField(4, m.reason)];
    PutAllAppend(s, held, a + b + c, d);
    PutAllAppend(s, held, a + b, c);
    PutAllAppend(s, held, a, b);
  }

  lemma DeviationMerge(held: ConfigDeviation, m: ConfigDeviation)
    requires |m.Encoding()| <= MAX_INT64
    ensures Decode(DeviationSchema(), held, m.Encoding()) == Ok(MergeDeviation(held, m))
  {
    hide FieldsBytes, Decode;
    DeviationFits(m);
    DecodeEncoded(DeviationSchema(), held, m.Fields());
    PutDeviationFields(held, m);
  }

  /** The bytes on the wire, with the tag bytes of the four fields. */
  lemma DeviationWire(m: ConfigDeviation)
    ensures m.Encoding()
         == [0x0A] + Sized(m.path)
            + (if m.desiredValue == None then [] else [0x12] + Sized(m.desiredValue.value))
            + (if m.actualValue == None then [] else [0x1A] + Sized(m.actualValue.value))
            + ([0x22] + Sized(m.reason))
  {
    hide FieldsBytes, Sized;
    var d := [TextField(4, m.reason)];
    var c := OptionalText(3, m.actualValue) + d;
    var b := OptionalText(2, m.desiredValue) + c;
    TagByte(TextField(4, m.reason), []);
    NoFields();
    assert d == d + [];
    if m.actualValue != None { TagByte(TextField(3, m.actualValue.value), d); }
    if m.desiredValue != None { TagByte(TextField(2, m.desiredValue.value), c); }
    TagByte(TextField(1, m.path), b);
    assert m.Fields() == [TextField(1, m.path)] + b;
    assert m.actualValue == None ==> c == d;
    assert m.desiredValue == None ==> b == c;
  }

  lemma DeviationRoundTrip(m: ConfigDeviation)
    requires |m.Encoding()| <= MAX_INT64
    ensures Decode(DeviationSchema(), NO_DEVIATION, m.Encoding()) == Ok(m)
  {
    hide Decode, FieldsBytes;
    DeviationMerge(NO_DEVIATION, m);
  }

  // ----- DeviationSpec

  function Nested(ds: seq<ConfigDeviation>): (fs: seq<Field>)
    ensures |fs| == |ds| && forall i :: 0 <= i < |ds| ==> fs[i] == TextField(2, ds[i].Encoding())
  {
    seq(|ds|, i requires 0 <= i < |ds| => TextField(2, ds[i].Encoding()))
  }

  /** The nested block that writes one element of Deviations. */
  method PutDeviation(dAtA: array<byte>, i: nat, d: ConfigDeviation, ghost hi: nat, ghost all: seq<Field>, ghost k: nat)
    returns (j: nat)
    requires Holds(dAtA, i, hi, all, k)
    requires k >= 1 && all[k - 1] == TextField(2, d.Encoding())
    modifies dAtA
    ensures Holds(dAtA, j, hi, all, k - 1)
    ensures OnlyWrote(dAtA, j, i)
  {
    hide FieldsBytes, FieldBytes;
    RoomForPayload(dAtA, i, hi, all, k);
    var size := d.MarshalToSizedBuffer(dAtA, i);
    assert dAtA[i..hi] == old(dAtA[i..hi]);
    j := PutHeader(dAtA, i - size, 2, size, i, hi, all, k);
  }

  /** The loop over Deviations, last element first. */
  method PutDeviations(dAtA: array<byte>, hi: nat, deviations: seq<ConfigDeviation>,
                       ghost all: seq<Field>, ghost first: nat)
    returns (i: nat)
    requires Holds(dAtA, hi, hi, all, |all|)
    requires first <= |all| && all[first..] == Nested(deviations)
    modifies dAtA
    ensures Holds(dAtA, i, hi, all, first)
    ensures OnlyWrote(dAtA, i, hi)
  {
    hide FieldsBytes, FieldBytes;
    i := hi;
    var iNdEx := |deviations|;
    while iNdEx > 0
      invariant 0 <= iNdEx <= |deviations|
      invariant Holds(dAtA, i, hi, all, first + iNdEx)
      invariant OnlyWrote(dAtA, i, hi)
    {
      iNdEx := iNdEx - 1;
      assert all[first + iNdEx] == all[first..][iNdEx];
      i := PutDeviation(dAtA, i, deviations[iNdEx], hi, all, first + iNdEx + 1);
    }
  }

  datatype DeviationSpec = DeviationSpec(deviationType: Option<Text>, deviations: seq<ConfigDeviation>)
  {
    function Fields(): seq<Field> {
      OptionalText(1, deviationType) + Nested(deviations)
    }

    function Encoding(): seq<byte> {
      FieldsBytes(Fields())
    }

    method Size() returns (n: nat)
      ensures n == |Encoding()|
    {
      hide FieldBytes, FieldsBytes, Sov;
      n := 0;
      if deviationType != None {
        n := n + 1 + |deviationType.value| + Sov(|deviationType.value|);
        OneField(TextField(1, deviationType.value));
      }
      NoFields();
      assert OptionalText(1, deviationType) + Nested([]) == OptionalText(1, deviationType);
      for e := 0 to |deviations|
        invariant n == |FieldsBytes(OptionalText(1, deviationType) + Nested(deviations[..e]))|
      {
        var l := deviations[e].Size();
        n := n + 1 + l + Sov(l);
        ghost var f := TextField(2, deviations[e].Encoding());
        OneField(f);
        FieldsBytesAppend(OptionalText(1, deviationType) + Nested(deviations[..e]), [f]);
        assert Nested(deviations[..e + 1]) == Nested(deviations[..e]) + [f];
        assert OptionalText(1, deviationType) + Nested(deviations[..e + 1])
            == OptionalText(1, deviationType) + Nested(deviations[..e]) + [f];
      }
      assert deviations[..|deviations|] == deviations;
    }

    method MarshalToSizedBuffer(dAtA: array<byte>, hi: nat) returns (n: nat)
      requires |Encoding()| <= hi <= dAtA.Length
      modifies dAtA
      ensures n == |Encoding()| && dAtA[hi - n..hi] == Encoding()
      ensures OnlyWrote(dAtA, hi - n, hi)
    {
      hide FieldsBytes, FieldBytes, Sov, Holds;
      ghost var all := Fields();
      ghost var first := |OptionalText(1, deviationType)|;
      assert all[first..] == Nested(deviations);
      EmptyTail(dAtA, hi, all);
      var i := PutDeviations(dAtA, hi, deviations, all, first);
      if deviationType != None {
        i := PutText(dAtA, i, 1, deviationType.value, hi, all, first);
        assert OnlyWrote(dAtA, i, hi);
      }
      AllWritten(dAtA, i, hi, all);
      return hi - i;
    }

    method Marshal() returns (out: seq<byte>)
      ensures out == Encoding()
    {
      var size := Size();
      var dAtA := new byte[size];
      var n := MarshalToSizedBuffer(dAtA, size);
      return dAtA[..n];
    }
  }

  const NO_SPEC := DeviationSpec(None, [])

  function PutSpecText(m: DeviationSpec, num: nat, p: Text): Result<DeviationSpec> {
    if num == 1 then Ok(m.(deviationType := Some(p)))
    else
      match Decode(DeviationSchema(), NO_DEVIATION, p)
      case Err(e) => Err(e)
      case Ok(d) => Ok(m.(deviations := m.deviations + [d]))
  }

  /** The element was appended before it was decoded. */
  function LeftBySpecText(m: DeviationSpec, num: nat, p: Text): DeviationSpec {
    if num == 1 then m
    else m.(deviations := m.deviations + [Left(DeviationSchema(), NO_DEVIATION, p)])
  }

  function SpecSchema(): Schema<DeviationSpec> {
    Schema(
      (num: nat) => if 1 <= num <= 2 then Payload else Unknown,
      (m: DeviationSpec, num: nat, p: Text) => PutSpecText(m, num, p),
      (m: DeviationSpec, num: nat, p: Text) => LeftBySpecText(m, num, p),
      (m: DeviationSpec, num: nat, v: nat) => m)
  }

  class DeviationSpecMessage {
    var deviationType: Option<Text>
    var deviations: seq<ConfigDeviation>

    function Value(): DeviationSpec
      reads this
    {
      DeviationSpec(deviationType, deviations)
    }

    constructor ()
      ensures Value() == NO_SPEC
    {
      deviationType, deviations := None, [];
    }

    method Unmarshal(dAtA: seq<byte>) returns (err: Option<Error>)
      requires |dAtA| <= MAX_INT64
      modifies this
      ensures match Decode(SpecSchema(), old(Value()), dAtA)
              case Ok(m) => err == None && Value() == m
              case Err(e) => err == Some(e) && Value() == Left(SpecSchema(), old(Value()), dAtA)
    {
      hide ReadHead, TextSize, UnknownSize, DecodeFrom, LeftFrom;
      ghost var s := SpecSchema();
      var l := |dAtA|;
      var iNdEx := 0;
      assert dAtA[0..] == dAtA;
      while iNdEx < l
        invariant iNdEx <= l
        invariant DecodeFrom(s, Value(), iNdEx, dAtA[iNdEx..]) == DecodeFrom(s, old(Value()), 0, dAtA)
        invariant LeftFrom(s, Value(), iNdEx, dAtA[iNdEx..]) == LeftFrom(s, old(Value()), 0, dAtA)
      {
        ghost var b := dAtA[iNdEx..];
        DecodeFromStep(s, Value(), iNdEx, b);
        var head := ReadTag(dAtA, iNdEx);
        if head.Err? { return Some(head.error); }
        var preIndex := iNdEx;
        iNdEx := iNdEx + head.value.size;
        assert dAtA[iNdEx..] == b[head.value.size..];
        if 1 <= head.value.num <= 2 {
          if head.value.wireType != 2 { return Some(WrongWireType); }
          var text := ReadText(dAtA, iNdEx);
          if text.Err? { return Some(text.error); }
          var (from, to) := text.value;
          var payload := dAtA[iNdEx + from..iNdEx + to];
          assert payload == dAtA[iNdEx..][from..to];
          if head.value.num == 1 {
            deviationType := Some(payload);
          } else {
            var element := new ConfigDeviationMessage();
            var nested := element.Unmarshal(payload);
            deviations := deviations + [element.Value()];
            if nested != None { return nested; }
          }
          iNdEx := iNdEx + to;
        } else {
          iNdEx := preIndex;
          var skippy := SkipUnknown(dAtA, iNdEx);
          if skippy.Err? { return Some(skippy.error); }
          iNdEx := iNdEx + skippy.value;
        }
        assert dAtA[iNdEx..] == b[iNdEx - preIndex..];
      }
      assert dAtA[iNdEx..] == [];
      DecodeNothing(s, Value(), iNdEx);
      return None;
    }
  }

  /** The type is replaced if it is written; deviations are appended. */
  function MergeSpec(held: DeviationSpec, m: DeviationSpec): DeviationSpec {
    DeviationSpec(
      if m.deviationType == None then held.deviationType else m.deviationType,
      held.deviations + m.deviations)
  }

  lemma SpecFits(m: DeviationSpec)
    requires |m.Encoding()| <= MAX_INT64
    ensures AllFit(SpecSchema(), m.Fields())
  {
    hide FieldsBytes;
    PayloadsFit(m.Fields());
  }

  /** Each field holds bytes that decode to the deviation at its place. */
  predicate Deliver(fs: seq<Field>, ds: seq<ConfigDeviation>) {
    && |fs| == |ds|
    && forall i :: 0 <= i < |fs| ==>
         && fs[i].TextField? && fs[i].num == 2
         && Decode(DeviationSchema(), NO_DEVIATION, fs[i].payload) == Ok(ds[i])
  }

  lemma PutNested(held: DeviationSpec, fs: seq<Field>, ds: seq<ConfigDeviation>)
    requires Deliver(fs, ds)
    ensures PutAll(SpecSchema(), held, fs) == Ok(held.(deviations := held.deviations + ds))
  {
    hide FieldsBytes, Decode, PutAll;
    PutRepeated(SpecSchema(), fs, held.deviations, ds, ys => held.(deviations := ys));
  }

  lemma PutSpecFields(held: DeviationSpec, m: DeviationSpec, fs: seq<Field>)
    requires Deliver(fs, m.deviations)
    ensures PutAll(SpecSchema(), held, OptionalText(1, m.deviationType) + fs) == Ok(MergeSpec(held, m))
  {
    hide Deliver, PutAll;
    PutAllAppend(SpecSchema(), held, OptionalText(1, m.deviationType), fs);
    PutType(held, m.deviationType);
    PutNested(held.(deviationType := MergeSpec(held, m).deviationType), fs, m.deviations);
  }

  /** Decoding an encoding into a message that already holds a value merges field by field. */
  lemma SpecMerge(held: DeviationSpec, m: DeviationSpec)
    requires |m.Encoding()| <= MAX_INT64
    ensures Decode(SpecSchema(), held, m.Encoding()) == Ok(MergeSpec(held, m))
  {
    hide FieldsBytes, Decode, PutAll;
    SpecFits(m);
    DecodeEncoded(SpecSchema(), held, m.Fields());
    NestedFits(m);
    forall d | d in m.deviations { DeviationRoundTrip(d); }
    PutSpecFields(held, m, Nested(m.deviations));
  }

  lemma PutType(held: DeviationSpec, t: Option<Text>)
    ensures PutAll(SpecSchema(), held, OptionalText(1, t))
         == Ok(held.(deviationType := if t == None then held.deviationType else t))
  {
  }

  lemma NestedFits(m: DeviationSpec)
    requires |m.Encoding()| <= MAX_INT64
    ensures forall d <- m.deviations :: |d.Encoding()| <= MAX_INT64
  {
    hide FieldsBytes;
    var fs, k := m.Fields(), |OptionalText(1, m.deviationType)|;
    PayloadsFit(fs);
    forall i | 0 <= i < |m.deviations|
      ensures |m.deviations[i].Encoding()| <= MAX_INT64
    {
      assert fs[k + i] == TextField(2, m.deviations[i].Encoding());
    }
  }

  /** Marshal, then Unmarshal into a zero message: the value comes back, nil strings nil,
      empty strings empty, deviations in order. */
  lemma SpecRoundTrip(m: DeviationSpec)
    requires |m.Encoding()| <= MAX_INT64
    ensures Decode(SpecSchema(), NO_SPEC, m.Encoding()) == Ok(m)
  {
    hide FieldsBytes, DecodeFrom;
    SpecMerge(NO_SPEC, m);
    assert [] + m.deviations == m.deviations;
  }

  /** Two encodings one after the other decode to the merge of the two messages. */
  lemma SpecConcatenation(a: DeviationSpec, b: DeviationSpec)
    requires |a.Encoding()| + |b.Encoding()| <= MAX_INT64
    ensures Decode(SpecSchema(), NO_SPEC, a.Encoding() + b.Encoding()) == Ok(MergeSpec(a, b))
  {
    hide FieldsBytes, DecodeFrom;
    SpecRoundTrip(a);
    SpecMerge(a, b);
    DecodeAppend(SpecSchema(), NO_SPEC, a.Encoding(), b.Encoding());
  }

  /** f is a nested deviation as Marshal writes it, but with fields of numbers above 4 strewn in. */
  predicate Strewn(f: Field, inner: seq<Item>, d: ConfigDeviation) {
    && f == TextField(2, ItemsBytes(inner))
    && KnownFields(inner) == d.Fields()
    && forall i <- inner :: i.Foreign? ==> Above(i.wire, 4)
  }

  lemma StrewnDecodes(f: Field, inner: seq<Item>, d: ConfigDeviation)
    requires Strewn(f, inner, d) && |f.payload| <= MAX_INT64
    ensures Decode(DeviationSchema(), NO_DEVIATION, f.payload) == Ok(d)
  {
    hide DecodeFrom, Readable, Above;
    ItemsReadable(DeviationSchema(), inner, 4);
    DecodeItems(DeviationSchema(), NO_DEVIATION, 0, inner);
    PutDeviationFields(NO_DEVIATION, d);
  }

  /** Unknown fields anywhere - of numbers above 2 between the fields of an encoding and at the
      same time of numbers above 4 between the fields of every nested deviation - change
      nothing: the message is merged as usual. */
  lemma SpecWithUnknowns(held: DeviationSpec, m: DeviationSpec, items: seq<Item>,
                         nested: seq<Field>, inners: seq<seq<Item>>)
    requires KnownFields(items) == OptionalText(1, m.deviationType) + nested
    requires |nested| == |inners| == |m.deviations|
    requires forall k :: 0 <= k < |nested| ==> Strewn(nested[k], inners[k], m.deviations[k])
    requires forall i <- items :: i.Foreign? ==> Above(i.wire, 2)
    requires |ItemsBytes(items)| <= MAX_INT64
    ensures Decode(SpecSchema(), held, ItemsBytes(items)) == Ok(MergeSpec(held, m))
  {
    hide DecodeFrom, Strewn, Above;
    forall k | 0 <= k < |nested|
      ensures nested[k].TextField? && nested[k].num == 2
    {
      StrewnField(nested[k], inners[k], m.deviations[k]);
    }
    ItemsReadable(SpecSchema(), items, 2);
    forall k | 0 <= k < |nested|
      ensures Decode(DeviationSchema(), NO_DEVIATION, nested[k].payload) == Ok(m.deviations[k])
    {
      KnownIsRead(SpecSchema(), items, |OptionalText(1, m.deviationType)| + k);
      StrewnDecodes(nested[k], inners[k], m.deviations[k]);
    }
    hide Readable;
    DecodeItems(SpecSchema(), held, 0, items);
    PutSpecFields(held, m, nested);
  }

  lemma StrewnField(f: Field, inner: seq<Item>, d: ConfigDeviation)
    requires Strewn(f, inner, d)
    ensures f.TextField? && f.num == 2
  {
  }

  /** The bytes on the wire of a spec: its type, if set, then every deviation. */
  lemma SpecWire(m: DeviationSpec)
    ensures m.Encoding()
         == (if m.deviationType == None then [] else [0x0A] + Sized(m.deviationType.value))
            + Repeated(0x12, Encodings(m.deviations))
  {
    hide FieldsBytes, Sized, Repeated;
    RepeatedBytes(2, Nested(m.deviations), Encodings(m.deviations));
    if m.deviationType == None {
      assert m.Fields() == Nested(m.deviations);
    } else {
      TagByte(TextField(1, m.deviationType.value), Nested(m.deviations));
    }
  }

  /** Each element's own encoding, as DeviationWire spells it out. */
  function Encodings(ds: seq<ConfigDeviation>): (es: seq<seq<byte>>)
    ensures |es| == |ds| && forall i :: 0 <= i < |ds| ==> es[i] == ds[i].Encoding()
  {
    seq(|ds|, i requires 0 <= i < |ds| => ds[i].Encoding())
  }
}
