/** Which buffers Unmarshal accepts, and with what value, said without its loop: exactly the
    sequences of well-formed wire fields in which every field the message knows has the
    wire type it should have. */
module Grammar {
  import opened GoInt
  import opened Varint
  import opened Skip
  import opened Codec

  function NumberOf(f: WireField): int
    requires WellFormed(f)
  {
    FieldNumber(ReadVarint(f.tag).value.value)
  }

  /** The field may stand in a buffer of the message. */
  predicate Allowed<M>(s: Schema<M>, f: WireField) {
    && WellFormed(f)
    && NumberOf(f) > 0
    && match s.kind(NumberOf(f))
       case Unknown => true
       case Payload => f.Delimited?
       case Number => f.Scalar?
  }

  predicate AllAllowed<M>(s: Schema<M>, fs: seq<WireField>) {
    fs == [] || (Allowed(s, fs[0]) && AllAllowed(s, fs[1..]))
  }

  /** What one field does to the message. */
  function Apply<M>(s: Schema<M>, m: M, f: WireField): Result<M>
    requires Allowed(s, f)
  {
    match s.kind(NumberOf(f))
    case Unknown => Ok(m)
    case Payload => s.putText(m, NumberOf(f), f.payload)
    case Number => Ok(s.putNumber(m, NumberOf(f), ReadVarint(f.number).value.value % TWO_64))
  }

  function ApplyAll<M>(s: Schema<M>, m: M, fs: seq<WireField>): Result<M>
    requires AllAllowed(s, fs)
  {
    if fs == [] then Ok(m)
    else match Apply(s, m, fs[0])
         case Err(e) => Err(e)
         case Ok(m') => ApplyAll(s, m', fs[1..])
  }

  // ----- An allowed field is decoded as Apply says

  lemma HeadOf(f: WireField, rest: seq<byte>)
    requires WellFormed(f) && NumberOf(f) > 0
    ensures ReadHead(Bytes(f) + rest) == Ok(Head(NumberOf(f), WireType(ReadVarint(f.tag).value.value), |f.tag|))
    ensures (Bytes(f) + rest)[|f.tag|..] == Bytes(f)[|f.tag|..] + rest
  {
    hide ReadVarint, WireType, FieldNumber, Bytes;
    TagInFront(f, rest);
    TagSize(f);
  }

  lemma TagSize(f: WireField)
    requires WellFormed(f)
    ensures ReadVarint(f.tag).Ok? && ReadVarint(f.tag).value.size == |f.tag| <= |Bytes(f)|
  {
    hide ReadVarint;
  }

  lemma AllowedDecodes<M>(s: Schema<M>, m: M, at: nat, f: WireField, rest: seq<byte>)
    requires Allowed(s, f) && at + |Bytes(f)| + |rest| <= MAX_INT64
    ensures Apply(s, m, f).Ok? ==> DecodeField(s, m, at, Bytes(f) + rest) == Ok(Step(Apply(s, m, f).value, |Bytes(f)|))
    ensures Apply(s, m, f).Err? ==> DecodeField(s, m, at, Bytes(f) + rest) == Err(Apply(s, m, f).error)
  {
    hide ReadVarint, WireType, FieldNumber, ReadHead, SkipFrom, TextSize;
    HeadOf(f, rest);
    var b := Bytes(f) + rest;
    match s.kind(NumberOf(f))
    case Unknown =>
      SkipsField(0, f, rest, 0);
    case Payload =>
      DelimitedSize(at + |f.tag|, f, rest);
    case Number =>
      assert Bytes(f)[|f.tag|..] == f.number;
      VarintAtFront(f.number, rest);
  }

  lemma DelimitedSize(at: nat, f: WireField, rest: seq<byte>)
    requires WellFormed(f) && f.Delimited?
    requires at + |f.length| + |f.payload| + |rest| <= MAX_INT64
    ensures Bytes(f)[|f.tag|..] == f.length + f.payload
    ensures var b := f.length + f.payload + rest;
            && TextSize(at, b) == Ok((|f.length|, |f.length| + |f.payload|))
            && b[|f.length|..|f.length| + |f.payload|] == f.payload
  {
    hide ReadVarint;
    var b := f.length + f.payload + rest;
    assert b == f.length + (f.payload + rest);
    VarintAtFront(f.length, f.payload + rest);
  }

  // ----- A decoded field was an allowed one

  lemma DecodedIsAllowed<M>(s: Schema<M>, m: M, at: nat, b: seq<byte>) returns (f: WireField)
    requires at + |b| <= MAX_INT64 && DecodeField(s, m, at, b).Ok?
    ensures Decoded(s, m, f, b, DecodeField(s, m, at, b).value)
  {
    hide ReadVarint, WireType, FieldNumber, SkipFrom, DecodeValue;
    var num := ReadHead(b).value.num;
    match s.kind(num)
    case Unknown => f := DecodedUnknown(s, m, at, b);
    case Payload => f := DecodedPayload(s, m, at, b);
    case Number => f := DecodedNumber(s, m, at, b);
  }

  /** f is the allowed field that the turn's bytes are, and its effect is the turn's. */
  predicate Decoded<M(==)>(s: Schema<M>, m: M, f: WireField, b: seq<byte>, step: Step<M>) {
    && Allowed(s, f)
    && step.size <= |b| && Bytes(f) == b[..step.size]
    && Apply(s, m, f) == Ok(step.message)
  }

  lemma DecodedUnknown<M>(s: Schema<M>, m: M, at: nat, b: seq<byte>) returns (f: WireField)
    requires at + |b| <= MAX_INT64 && DecodeField(s, m, at, b).Ok?
    requires s.kind(ReadHead(b).value.num) == Unknown
    ensures Decoded(s, m, f, b, DecodeField(s, m, at, b).value)
  {
    hide ReadVarint, WireType, FieldNumber, SkipFrom, WellFormed, Bytes;
    f := SkippedField(0, b);
    SameTag(f, b);
  }

  lemma DecodedPayload<M>(s: Schema<M>, m: M, at: nat, b: seq<byte>) returns (f: WireField)
    requires at + |b| <= MAX_INT64 && DecodeField(s, m, at, b).Ok?
    requires s.kind(ReadHead(b).value.num) == Payload
    ensures Decoded(s, m, f, b, DecodeField(s, m, at, b).value)
  {
    hide ReadVarint, WireType, FieldNumber, LengthOf, SkipFrom, TextSize;
    var tag := CutVarint(b);
    var rest := b[|tag|..];
    var (from, to) := TextSize(at + |tag|, rest).value;
    var length := CutLength(at + |tag|, rest);
    f := Delimited(tag, length, rest[from..to]);
    assert b[..|tag| + to] == tag + rest[..to];
  }

  /** The length in front of an accepted payload. */
  lemma CutLength(at: nat, b: seq<byte>) returns (length: seq<byte>)
    requires at + |b| <= MAX_INT64 && TextSize(at, b).Ok?
    ensures var (from, to) := TextSize(at, b).value;
            && IsVarint(length) && LengthOf(ReadVarint(length).value.value) == to - from
            && b[..to] == length + b[from..to]
  {
    hide ReadVarint;
    length := CutVarint(b);
  }

  lemma DecodedNumber<M>(s: Schema<M>, m: M, at: nat, b: seq<byte>) returns (f: WireField)
    requires at + |b| <= MAX_INT64 && DecodeField(s, m, at, b).Ok?
    requires s.kind(ReadHead(b).value.num) == Number
    ensures Decoded(s, m, f, b, DecodeField(s, m, at, b).value)
  {
    hide ReadVarint, WireType, FieldNumber, SkipFrom;
    var tag := CutVarint(b);
    var rest := b[|tag|..];
    var number := CutVarint(rest);
    f := Scalar(tag, number);
    assert b[..|tag| + |number|] == tag + number;
  }

  /** The field in front of b starts with b's tag. */
  lemma SameTag(f: WireField, b: seq<byte>)
    requires WellFormed(f) && |Bytes(f)| <= |b| && Bytes(f) == b[..|Bytes(f)|]
    ensures ReadVarint(f.tag) == ReadVarint(b)
  {
    hide ReadVarint, Bytes, WellFormed;
    TagInFront(f, b[|Bytes(f)|..]);
    assert b == Bytes(f) + b[|Bytes(f)|..];
  }

  // ----- How a turn of the loop refuses what is in front of it

  lemma TagErrors<M>(s: Schema<M>, m: M, at: nat, b: seq<byte>)
    requires at + |b| <= MAX_INT64
    ensures ReadVarint(b).Err? ==> DecodeField(s, m, at, b) == Err(ReadVarint(b).error)
    ensures ReadVarint(b).Ok? ==>
              var raw := ReadVarint(b).value.value;
              var wireType, num := raw % 8, FieldNumber(raw);
              && (wireType == 4 ==> DecodeField(s, m, at, b) == Err(EndGroupOutsideGroup))
              && (wireType != 4 && num <= 0 ==> DecodeField(s, m, at, b) == Err(IllegalTag))
              && (wireType != 4 && num > 0 && s.kind(num) == Payload && wireType != 2 ==>
                    DecodeField(s, m, at, b) == Err(WrongWireType))
              && (wireType != 4 && num > 0 && s.kind(num) == Number && wireType != 0 ==>
                    DecodeField(s, m, at, b) == Err(WrongWireType))
  {
    hide ReadVarint, FieldNumber, TextSize, UnknownSize;
    if ReadVarint(b).Ok? { SameWireType(ReadVarint(b).value.value); }
  }

  /** The length of a payload: unreadable, negative, or leading past the end of the buffer, and
      there perhaps to an index that is not an int. */
  lemma LengthErrors(at: nat, b: seq<byte>)
    requires at + |b| <= MAX_INT64
    ensures ReadVarint(b).Err? ==> TextSize(at, b) == Err(ReadVarint(b).error)
    ensures ReadVarint(b).Ok? ==>
              var length, end := LengthOf(ReadVarint(b).value.value),
                                 ReadVarint(b).value.size + LengthOf(ReadVarint(b).value.value);
              && (length < 0 ==> TextSize(at, b) == Err(InvalidLength))
              && (length >= 0 && end > |b| ==>
                    TextSize(at, b) == Err(if at + end > MAX_INT64 then InvalidLength else UnexpectedEOF))
  {
    hide ReadVarint;
  }

  /** An unknown field that is refused, or that leads past the end of the buffer. */
  lemma UnknownErrors(at: nat, b: seq<byte>)
    requires at + |b| <= MAX_INT64
    ensures SkipFrom(0, b, 0).Err? ==> UnknownSize(at, b) == Err(SkipFrom(0, b, 0).error)
    ensures SkipFrom(0, b, 0).Ok? ==>
              var end := SkipFrom(0, b, 0).value;
              end > |b| ==> UnknownSize(at, b) == Err(if at + end > MAX_INT64 then InvalidLength else UnexpectedEOF)
  {
    hide SkipFrom;
  }

  // ----- Whole buffers

  lemma {:induction false} AllowedDecode<M>(s: Schema<M>, m: M, at: nat, fs: seq<WireField>)
    requires AllAllowed(s, fs) && at + |BytesAll(fs)| <= MAX_INT64
    ensures DecodeFrom(s, m, at, BytesAll(fs)) == ApplyAll(s, m, fs)
    decreases |fs|
  {
    hide DecodeField, Apply, Bytes, Allowed;
    if fs == [] {
      DecodeNothing(s, m, at);
    } else {
      hide DecodeFrom;
      var f, rest := fs[0], BytesAll(fs[1..]);
      AllowedNotEmpty(s, f);
      AllowedDecodes(s, m, at, f, rest);
      DecodeFromStep(s, m, at, BytesAll(fs));
      assert BytesAll(fs)[|Bytes(f)|..] == rest;
      if Apply(s, m, f).Ok? { AllowedDecode(s, Apply(s, m, f).value, at + |Bytes(f)|, fs[1..]); }
    }
  }

  lemma AllowedAlone<M>(s: Schema<M>, m: M, f: WireField)
    requires Allowed(s, f) && |Bytes(f)| <= MAX_INT64
    ensures Decode(s, m, Bytes(f)) == Apply(s, m, f)
  {
    hide Allowed, Apply, Bytes, DecodeFrom;
    var fs := [f];
    assert fs[1..] == [] && Bytes(f) + [] == Bytes(f);
    assert AllAllowed(s, fs) && BytesAll(fs) == Bytes(f);
    assert ApplyAll(s, m, fs) == Apply(s, m, f);
    AllowedDecode(s, m, 0, fs);
  }

  /** What a field alone leaves behind if it cannot be stored. */
  lemma AllowedLeft<M>(s: Schema<M>, m: M, f: WireField)
    requires Allowed(s, f) && |Bytes(f)| <= MAX_INT64 && Apply(s, m, f).Err?
    ensures f.Delimited? && Left(s, m, Bytes(f)) == s.left(m, NumberOf(f), f.payload)
  {
    hide ReadVarint, WireType, FieldNumber, ReadHead, TextSize, DecodeField;
    assert Bytes(f) + [] == Bytes(f);
    AllowedDecodes(s, m, 0, f, []);
    HeadOf(f, []);
    DelimitedSize(|f.tag|, f, []);
    assert Bytes(f)[|f.tag|..] == f.length + f.payload + [];
  }

  /** A field the message knows, in the wrong wire type, is refused and stores nothing. */
  lemma WrongTypeAlone<M>(s: Schema<M>, m: M, f: WireField)
    requires WellFormed(f) && NumberOf(f) > 0 && !Allowed(s, f) && |Bytes(f)| <= MAX_INT64
    ensures Decode(s, m, Bytes(f)) == Err(WrongWireType)
    ensures Left(s, m, Bytes(f)) == m
  {
    hide ReadVarint, WireType, FieldNumber, TextSize, UnknownSize, Bytes, WellFormed, ReadHead;
    TagAlone(f);
    HeadOf(f, []);
    assert Bytes(f) + [] == Bytes(f);
  }

  lemma TagAlone(f: WireField)
    requires WellFormed(f)
    ensures var t := WireType(ReadVarint(f.tag).value.value);
            (t == 0 <==> f.Scalar?) && (t == 2 <==> f.Delimited?)
  {
    hide ReadVarint, WireType;
  }

  lemma AllowedNotEmpty<M>(s: Schema<M>, f: WireField)
    requires Allowed(s, f)
    ensures |Bytes(f)| >= 1
  {
    NotEmpty(f);
  }

  lemma {:induction false} DecodedFields<M>(s: Schema<M>, m: M, at: nat, b: seq<byte>) returns (fs: seq<WireField>)
    requires at + |b| <= MAX_INT64 && DecodeFrom(s, m, at, b).Ok?
    ensures AllAllowed(s, fs) && BytesAll(fs) == b && ApplyAll(s, m, fs) == DecodeFrom(s, m, at, b)
    decreases |b|
  {
    hide DecodeField, Apply, Bytes, Allowed;
    if b == [] {
      fs := [];
    } else {
      hide DecodeFrom;
      DecodeFromStep(s, m, at, b);
      var step := DecodeField(s, m, at, b).value;
      var f := DecodedIsAllowed(s, m, at, b);
      var rest := DecodedFields(s, step.message, at + step.size, b[step.size..]);
      fs := [f] + rest;
      assert fs[1..] == rest;
      assert b == b[..step.size] + b[step.size..];
    }
  }

  /** When Unmarshal fails, what it leaves behind is what the allowed fields before the
      failing one gave, with what that field had stored by then. */
  lemma {:induction false} LeftBehind<M>(s: Schema<M>, m: M, at: nat, b: seq<byte>)
    returns (fs: seq<WireField>, m': M)
    requires at + |b| <= MAX_INT64 && DecodeFrom(s, m, at, b).Err?
    ensures AllAllowed(s, fs) && BytesAll(fs) <= b && ApplyAll(s, m, fs) == Ok(m')
    ensures var k := |BytesAll(fs)|;
            && DecodeField(s, m', at + k, b[k..]) == Err(DecodeFrom(s, m, at, b).error)
            && LeftFrom(s, m, at, b) == LeftByField(s, m', at + k, b[k..])
    decreases |b|
  {
    hide DecodeField, LeftByField, Apply, Bytes, Allowed;
    assert b != [];
    hide DecodeFrom, LeftFrom;
    DecodeFromStep(s, m, at, b);
    if DecodeField(s, m, at, b).Err? {
      fs, m' := [], m;
      assert b[0..] == b;
    } else {
      var step := DecodeField(s, m, at, b).value;
      var f := DecodedIsAllowed(s, m, at, b);
      var rest;
      rest, m' := LeftBehind(s, step.message, at + step.size, b[step.size..]);
      fs := [f] + rest;
      assert fs[1..] == rest;
      assert b == b[..step.size] + b[step.size..];
      assert b[|BytesAll(fs)|..] == b[step.size..][|BytesAll(rest)|..];
    }
  }

  /** Unmarshal accepts b with result r if and only if b is a sequence of allowed fields
      that, applied in order, turn m into r. */
  lemma AcceptsExactly<M>(s: Schema<M>, m: M, b: seq<byte>, r: M)
    requires |b| <= MAX_INT64
    ensures Decode(s, m, b) == Ok(r)
       <==> exists fs :: AllAllowed(s, fs) && BytesAll(fs) == b && ApplyAll(s, m, fs) == Ok(r)
  {
    hide DecodeFrom, AllAllowed, ApplyAll;
    if Decode(s, m, b) == Ok(r) {
      var fs := DecodedFields(s, m, 0, b);
    }
    forall fs | AllAllowed(s, fs) && BytesAll(fs) == b && ApplyAll(s, m, fs) == Ok(r)
      ensures Decode(s, m, b) == Ok(r)
    {
      AllowedDecode(s, m, 0, fs);
    }
  }
}
