/** The generated Unmarshal loop and its encoding, for any message: what differs between
    messages is the switch on the field number, given here as a Schema. */
module Codec {
  import opened GoInt
  import opened Varint
  import opened Skip

  /** How the switch treats a field number. */
  datatype Kind = Unknown | Payload | Number

  /** The cases of one message's switch: which fields it knows, and how it stores the
      payload of a length-delimited field (decoding a nested message can fail) or a number.
      `left` is what the message holds when that field's value fails to decode. */
  datatype Schema<!M> = Schema(
    kind: nat -> Kind,
    putText: (M, nat, seq<byte>) -> Result<M>,
    left: (M, nat, seq<byte>) -> M,
    putNumber: (M, nat, nat) -> M)

  /** The message after one field, and the bytes the field took. */
  datatype Step<M> = Step(message: M, size: nat)

  /** int32(wire >> 3), for the uint64 that holds a decoded tag. */
  function FieldNumber(raw: nat): int {
    ToInt32(raw % TWO_64 / 8)
  }

  /** What the tag in front of b says, and the bytes it takes. */
  datatype Head = Head(num: nat, wireType: nat, size: nat)

  function ReadHead(b: seq<byte>): (r: Result<Head>)
    ensures r.Ok? ==> 1 <= r.value.size <= |b| && r.value.num > 0
  {
    match ReadVarint(b)
    case Err(e) => Err(e)
    case Ok(tag) =>
      if WireType(tag.value) == 4 then Err(EndGroupOutsideGroup)
      else if FieldNumber(tag.value) <= 0 then Err(IllegalTag)
      else Ok(Head(FieldNumber(tag.value), WireType(tag.value), tag.size))
  }

  /** Where the payload of the length-delimited value in front of b starts and ends,
      when b stands at index `at` of the message's buffer. */
  function TextSize(at: nat, b: seq<byte>): (r: Result<(nat, nat)>)
    requires at + |b| <= MAX_INT64
    ensures r.Ok? ==> 1 <= r.value.0 <= r.value.1 <= |b|
  {
    match ReadVarint(b)
    case Err(e) => Err(e)
    case Ok(v) =>
      var length := LengthOf(v.value);
      if length < 0 || AddInt(at + v.size, length) < 0 then Err(InvalidLength)
      else if v.size + length > |b| then Err(UnexpectedEOF)
      else Ok((v.size, v.size + length))
  }

  /** The bytes of the unknown field in front of b. */
  function UnknownSize(at: nat, b: seq<byte>): (r: Result<nat>)
    requires at + |b| <= MAX_INT64
    ensures r.Ok? ==> 1 <= r.value <= |b|
  {
    match SkipFrom(0, b, 0)
    case Err(e) => Err(e)
    case Ok(skippy) =>
      if AddInt(at, skippy) < 0 then Err(InvalidLength)
      else if skippy > |b| then Err(UnexpectedEOF)
      else Ok(skippy)
  }

  /** One turn of the loop, standing at index `at` with the bytes b left. */
  function DecodeField<M>(s: Schema<M>, m: M, at: nat, b: seq<byte>): (r: Result<Step<M>>)
    requires at + |b| <= MAX_INT64
    ensures r.Ok? ==> 1 <= r.value.size <= |b|
  {
    match ReadHead(b)
    case Err(e) => Err(e)
    case Ok(head) => DecodeValue(s, m, at, b, head)
  }

  function DecodeValue<M>(s: Schema<M>, m: M, at: nat, b: seq<byte>, head: Head): (r: Result<Step<M>>)
    requires at + |b| <= MAX_INT64 && 1 <= head.size <= |b|
    ensures r.Ok? ==> 1 <= r.value.size <= |b|
  {
    var rest := b[head.size..];
    match s.kind(head.num)
    case Payload =>
      if head.wireType != 2 then Err(WrongWireType)
      else
        (match TextSize(at + head.size, rest)
         case Err(e) => Err(e)
         case Ok((from, to)) =>
           match s.putText(m, head.num, rest[from..to])
           case Err(e) => Err(e)
           case Ok(m') => Ok(Step(m', head.size + to)))
    case Number =>
      if head.wireType != 0 then Err(WrongWireType)
      else
        (match ReadVarint(rest)
         case Err(e) => Err(e)
         case Ok(v) => Ok(Step(s.putNumber(m, head.num, v.value % TWO_64), head.size + v.size)))
    case Unknown =>
      match UnknownSize(at, b)
      case Err(e) => Err(e)
      case Ok(skippy) => Ok(Step(m, skippy))
  }

  function DecodeFrom<M>(s: Schema<M>, m: M, at: nat, b: seq<byte>): Result<M>
    requires at + |b| <= MAX_INT64
    decreases |b|
  {
    if b == [] then Ok(m)
    else
      match DecodeField(s, m, at, b)
      case Err(e) => Err(e)
      case Ok(step) => DecodeFrom(s, step.message, at + step.size, b[step.size..])
  }

  /** Unmarshal of b into m. No Go slice is longer than MAX_INT64. */
  function Decode<M>(s: Schema<M>, m: M, b: seq<byte>): Result<M> {
    if |b| > MAX_INT64 then Err(InvalidLength) else DecodeFrom(s, m, 0, b)
  }

  /** What the message holds after the turn that fails. */
  function LeftByField<M>(s: Schema<M>, m: M, at: nat, b: seq<byte>): M
    requires at + |b| <= MAX_INT64
  {
    match ReadHead(b)
    case Err(_) => m
    case Ok(head) =>
      var rest := b[head.size..];
      if s.kind(head.num) == Number && head.wireType == 0 then s.left(m, head.num, rest)
      else if s.kind(head.num) != Payload || head.wireType != 2 then m
      else
        match TextSize(at + head.size, rest)
        case Err(_) => m
        case Ok((from, to)) => s.left(m, head.num, rest[from..to])
  }

  function LeftFrom<M>(s: Schema<M>, m: M, at: nat, b: seq<byte>): M
    requires at + |b| <= MAX_INT64
    decreases |b|
  {
    if b == [] then m
    else
      match DecodeField(s, m, at, b)
      case Err(_) => LeftByField(s, m, at, b)
      case Ok(step) => LeftFrom(s, step.message, at + step.size, b[step.size..])
  }

  /** What Unmarshal leaves in the message when it fails. */
  function Left<M>(s: Schema<M>, m: M, b: seq<byte>): M {
    if |b| > MAX_INT64 then m else LeftFrom(s, m, 0, b)
  }

  /** How a length that leads to `end`, past the end of a buffer standing at index `at`, is
      reported: as invalid if the index it leads to is not an int, else as end of input. */
  function Overrun(at: nat, end: nat): Error {
    if at + end > MAX_INT64 then InvalidLength else UnexpectedEOF
  }

  /** Decoding from index `at` and from index at' has the same result, except that a length
      that is too long is reported by where it leads to. */
  ghost predicate Agree<M>(at: nat, r: Result<M>, at': nat, r': Result<M>) {
    r == r' || exists end: nat :: r == Err(Overrun(at, end)) && r' == Err(Overrun(at', end))
  }

  // ----- Decoding is compositional

  lemma TextSizePrefix(at: nat, at': nat, b: seq<byte>, rest: seq<byte>)
    requires at + |b| <= MAX_INT64 && at' + |b| + |rest| <= MAX_INT64
    requires TextSize(at, b).Ok?
    ensures TextSize(at', b + rest) == TextSize(at, b)
  {
    hide ReadVarint;
    ReadVarintPrefix(b, rest, 10);
  }

  lemma UnknownSizePrefix(at: nat, at': nat, b: seq<byte>, rest: seq<byte>)
    requires at + |b| <= MAX_INT64 && at' + |b| + |rest| <= MAX_INT64
    requires UnknownSize(at, b).Ok?
    ensures UnknownSize(at', b + rest) == UnknownSize(at, b)
  {
    hide SkipFrom;
    SkipPrefix(0, 0, b, rest);
  }

  /** A field that was accepted is accepted at any index and before any other bytes. */
  lemma DecodeFieldPrefix<M>(s: Schema<M>, m: M, at: nat, at': nat, b: seq<byte>, rest: seq<byte>)
    requires at + |b| <= MAX_INT64 && at' + |b| + |rest| <= MAX_INT64
    requires DecodeField(s, m, at, b).Ok?
    ensures DecodeField(s, m, at', b + rest) == DecodeField(s, m, at, b)
  {
    hide ReadVarint, WireType, FieldNumber, TextSize, UnknownSize;
    ReadVarintPrefix(b, rest, 10);
    var head := ReadHead(b).value;
    var tail := b[head.size..];
    assert (b + rest)[head.size..] == tail + rest;
    match s.kind(head.num)
    case Payload =>
      TextSizePrefix(at + head.size, at' + head.size, tail, rest);
      var (from, to) := TextSize(at + head.size, tail).value;
      assert (tail + rest)[from..to] == tail[from..to];
    case Number =>
      ReadVarintPrefix(tail, rest, 10);
    case Unknown =>
      UnknownSizePrefix(at, at', b, rest);
  }

  lemma DecodeFromStep<M>(s: Schema<M>, m: M, at: nat, b: seq<byte>)
    requires at + |b| <= MAX_INT64 && b != []
    ensures DecodeFrom(s, m, at, b)
         == match DecodeField(s, m, at, b)
            case Err(e) => Err(e)
            case Ok(step) => DecodeFrom(s, step.message, at + step.size, b[step.size..])
    ensures LeftFrom(s, m, at, b)
         == match DecodeField(s, m, at, b)
            case Err(_) => LeftByField(s, m, at, b)
            case Ok(step) => LeftFrom(s, step.message, at + step.size, b[step.size..])
  {
    hide DecodeField, LeftByField;
  }

  lemma DecodeNothing<M>(s: Schema<M>, m: M, at: nat)
    requires at <= MAX_INT64
    ensures DecodeFrom(s, m, at, []) == Ok(m)
  {
  }

  /** If b1 decodes, decoding b1 + b2 is decoding b2 into what b1 gave. */
  lemma {:induction false} DecodeFromAppend<M>(s: Schema<M>, m: M, at: nat, at': nat, b1: seq<byte>, b2: seq<byte>)
    requires at + |b1| <= MAX_INT64 && at' + |b1| + |b2| <= MAX_INT64
    requires DecodeFrom(s, m, at, b1).Ok?
    ensures DecodeFrom(s, m, at', b1 + b2) == DecodeFrom(s, DecodeFrom(s, m, at, b1).value, at' + |b1|, b2)
    decreases |b1|
  {
    hide DecodeField, DecodeFrom;
    if b1 == [] {
      assert b1 + b2 == b2;
      DecodeNothing(s, m, at);
    } else {
      DecodeFromStep(s, m, at, b1);
      DecodeFromStep(s, m, at', b1 + b2);
      DecodeFieldPrefix(s, m, at, at', b1, b2);
      var step := DecodeField(s, m, at, b1).value;
      DecodeFromAppend(s, step.message, at + step.size, at' + step.size, b1[step.size..], b2);
      assert (b1 + b2)[step.size..] == b1[step.size..] + b2;
    }
  }

  lemma TextSizeShift(at: nat, at': nat, b: seq<byte>)
    requires at + |b| <= MAX_INT64 && at' + |b| <= MAX_INT64
    ensures Agree(at, TextSize(at, b), at', TextSize(at', b))
  {
    hide ReadVarint;
    if TextSize(at, b) != TextSize(at', b) {
      var v := ReadVarint(b).value;
      var end: nat := v.size + LengthOf(v.value);
      assert TextSize(at, b) == Err(Overrun(at, end)) && TextSize(at', b) == Err(Overrun(at', end));
    }
  }

  lemma UnknownSizeShift(at: nat, at': nat, b: seq<byte>)
    requires at + |b| <= MAX_INT64 && at' + |b| <= MAX_INT64
    ensures Agree(at, UnknownSize(at, b), at', UnknownSize(at', b))
  {
    hide SkipFrom;
    if UnknownSize(at, b) != UnknownSize(at', b) {
      var end := SkipFrom(0, b, 0).value;
      assert UnknownSize(at, b) == Err(Overrun(at, end)) && UnknownSize(at', b) == Err(Overrun(at', end));
    }
  }

  /** A failure `size` bytes further on. */
  lemma AgreeBehind<M>(at: nat, r: Result<M>, at': nat, r': Result<M>, size: nat)
    requires Agree(at + size, r, at' + size, r')
    ensures Agree(at, r, at', r')
  {
    if r != r' {
      var end: nat :| r == Err(Overrun(at + size, end)) && r' == Err(Overrun(at' + size, end));
      assert r == Err(Overrun(at, size + end)) && r' == Err(Overrun(at', size + end));
    }
  }

  lemma AgreeErr<M, N>(at: nat, r: Result<M>, at': nat, r': Result<M>, q: Result<N>, q': Result<N>)
    requires Agree(at, r, at', r') && r.Err? && r'.Err?
    requires q == Err(r.error) && q' == Err(r'.error)
    ensures Agree(at, q, at', q')
  {
    if r != r' {
      var end: nat :| r == Err(Overrun(at, end)) && r' == Err(Overrun(at', end));
      assert q == Err(Overrun(at, end)) && q' == Err(Overrun(at', end));
    }
  }

  lemma DecodeFieldShift<M>(s: Schema<M>, m: M, at: nat, at': nat, b: seq<byte>)
    requires at + |b| <= MAX_INT64 && at' + |b| <= MAX_INT64
    ensures Agree(at, DecodeField(s, m, at, b), at', DecodeField(s, m, at', b))
  {
    hide ReadVarint, ReadHead, TextSize, UnknownSize, Agree;
    var r, r' := DecodeField(s, m, at, b), DecodeField(s, m, at', b);
    SameAgrees(at, r, at', r');
    if r != r' {
      var head := ReadHead(b).value;
      if s.kind(head.num) == Unknown {
        UnknownSizeShift(at, at', b);
        SameAgrees(at, UnknownSize(at, b), at', UnknownSize(at', b));
        AgreeErr(at, UnknownSize(at, b), at', UnknownSize(at', b), r, r');
      } else {
        var t, rest := head.size, b[head.size..];
        TextSizeShift(at + t, at' + t, rest);
        SameAgrees(at + t, TextSize(at + t, rest), at' + t, TextSize(at' + t, rest));
        AgreeBehind(at, TextSize(at + t, rest), at', TextSize(at' + t, rest), t);
        AgreeErr(at, TextSize(at + t, rest), at', TextSize(at' + t, rest), r, r');
      }
    }
  }

  lemma SameAgrees<M>(at: nat, r: Result<M>, at': nat, r': Result<M>)
    ensures r == r' ==> Agree(at, r, at', r')
    ensures Agree(at, r, at', r') && r.Ok? ==> r == r'
    ensures Agree(at, r, at', r') && r'.Ok? ==> r == r'
  {
  }

  /** Where a buffer stands changes only how a length that is too long is reported. */
  lemma {:induction false} DecodeFromShift<M>(s: Schema<M>, m: M, at: nat, at': nat, b: seq<byte>)
    requires at + |b| <= MAX_INT64 && at' + |b| <= MAX_INT64
    ensures Agree(at, DecodeFrom(s, m, at, b), at', DecodeFrom(s, m, at', b))
    decreases |b|
  {
    hide DecodeField, DecodeFrom, Agree;
    var r, r' := DecodeFrom(s, m, at, b), DecodeFrom(s, m, at', b);
    if b == [] {
      DecodeNothing(s, m, at);
      DecodeNothing(s, m, at');
      SameAgrees(at, r, at', r');
    } else {
      DecodeFromStep(s, m, at, b);
      DecodeFromStep(s, m, at', b);
      DecodeFieldShift(s, m, at, at', b);
      var turn, turn' := DecodeField(s, m, at, b), DecodeField(s, m, at', b);
      SameAgrees(at, turn, at', turn');
      if turn.Ok? {
        DecodeFromShift(s, turn.value.message, at + turn.value.size, at' + turn.value.size, b[turn.value.size..]);
        AgreeBehind(at, r, at', r', turn.value.size);
      } else {
        AgreeErr(at, turn, at', turn', r, r');
      }
    }
  }

  /** In b1 + b2 the second part stands at index |b1|. */
  lemma DecodeAppend<M>(s: Schema<M>, m: M, b1: seq<byte>, b2: seq<byte>)
    requires |b1| + |b2| <= MAX_INT64
    requires Decode(s, m, b1).Ok?
    ensures Agree(|b1|, Decode(s, m, b1 + b2), 0, Decode(s, Decode(s, m, b1).value, b2))
  {
    hide DecodeFrom, Agree;
    DecodeFromAppend(s, m, 0, 0, b1, b2);
    DecodeFromShift(s, Decode(s, m, b1).value, |b1|, 0, b2);
  }

  // ----- Unknown fields

  /** f is a whole field whose number the message's switch does not know. */
  predicate Ignored<M>(s: Schema<M>, f: WireField) {
    WellFormed(f) &&
    var num := FieldNumber(ReadVarint(f.tag).value.value);
    num > 0 && s.kind(num) == Unknown
  }

  lemma TagInFront(f: WireField, rest: seq<byte>)
    requires WellFormed(f)
    ensures ReadVarint(Bytes(f) + rest) == ReadVarint(f.tag)
    ensures ReadVarint(f.tag).Ok? && WireType(ReadVarint(f.tag).value.value) != 4
  {
    hide ReadVarint, WireType;
    var tail := Bytes(f)[|f.tag|..] + rest;
    assert Bytes(f) + rest == f.tag + tail;
    VarintAtFront(f.tag, tail);
  }

  lemma IgnoredField<M>(s: Schema<M>, m: M, at: nat, f: WireField, rest: seq<byte>)
    requires Ignored(s, f)
    requires at + |Bytes(f)| + |rest| <= MAX_INT64
    ensures DecodeField(s, m, at, Bytes(f) + rest) == Ok(Step(m, |Bytes(f)|))
  {
    hide ReadVarint, WireType, WellFormed, Bytes, FieldNumber, SkipFrom;
    TagInFront(f, rest);
    SkipsField(0, f, rest, 0);
  }

  lemma NotEmpty(f: WireField)
    requires WellFormed(f)
    ensures |Bytes(f)| >= 1
  {
  }

  /** Inserting an unknown field at any field boundary of an accepted buffer - in front,
      between any two fields or at the end - does not change the decoded message. */
  lemma UnknownFieldsIgnored<M>(s: Schema<M>, m: M, b1: seq<byte>, f: WireField, b2: seq<byte>)
    requires |b1| + |Bytes(f)| + |b2| <= MAX_INT64
    requires Decode(s, m, b1).Ok? && Ignored(s, f)
    ensures Agree(|b1| + |Bytes(f)|, Decode(s, m, b1 + Bytes(f) + b2), |b1|, Decode(s, m, b1 + b2))
  {
    hide DecodeField, Bytes, WellFormed, DecodeFrom;
    NotEmpty(f);
    DecodeFromStep(s, Decode(s, m, b1).value, |b1|, Bytes(f) + b2);
    var u, m1 := Bytes(f), Decode(s, m, b1).value;
    DecodeFromAppend(s, m, 0, 0, b1, u + b2);
    DecodeFromAppend(s, m, 0, 0, b1, b2);
    IgnoredField(s, m1, |b1|, f, b2);
    assert (u + b2)[|u|..] == b2;
    assert b1 + u + b2 == b1 + (u + b2);
    assert DecodeFrom(s, m1, |b1|, u + b2) == DecodeFrom(s, m1, |b1| + |u|, b2);
    DecodeFromShift(s, m1, |b1| + |u|, |b1|, b2);
  }

  // ----- Encoded fields

  /** A field as MarshalToSizedBuffer writes it. */
  datatype Field = TextField(num: nat, payload: seq<byte>) | NumberField(num: nat, value: nat)

  /** A Go string: its bytes. */
  type Text = seq<byte>

  function OptionalText(num: nat, t: Option<Text>): seq<Field> {
    if t == None then [] else [TextField(num, t.value)]
  }

  function TagOf(f: Field): nat {
    8 * f.num + if f.TextField? then 2 else 0
  }

  function FieldBytes(f: Field): seq<byte> {
    match f
    case TextField(_, payload) => VarintBytes(TagOf(f)) + (VarintBytes(|payload|) + payload)
    case NumberField(_, value) => VarintBytes(TagOf(f)) + VarintBytes(value)
  }

  function FieldsBytes(fs: seq<Field>): seq<byte> {
    if fs == [] then [] else FieldBytes(fs[0]) + FieldsBytes(fs[1..])
  }

  lemma FieldsBytesUnfold(fs: seq<Field>)
    ensures FieldsBytes(fs) == if fs == [] then [] else FieldBytes(fs[0]) + FieldsBytes(fs[1..])
  {
    hide FieldBytes;
  }

  lemma {:induction false} FieldsBytesAppend(fs: seq<Field>, gs: seq<Field>)
    ensures FieldsBytes(fs + gs) == FieldsBytes(fs) + FieldsBytes(gs)
  {
    hide FieldBytes, FieldsBytes;
    FieldsBytesUnfold(fs);
    if fs == [] {
      assert fs + gs == gs;
    } else {
      FieldsBytesUnfold(fs + gs);
      FieldsBytesAppend(fs[1..], gs);
      assert (fs + gs)[1..] == fs[1..] + gs;
    }
  }

  /** The message knows the field, in the form it has. */
  predicate Fits<M>(s: Schema<M>, f: Field) {
    && 1 <= f.num < 0x2000_0000
    && s.kind(f.num) == (if f.TextField? then Payload else Number)
    && (if f.TextField? then |f.payload| <= MAX_INT64 else f.value < TWO_64)
  }

  predicate AllFit<M>(s: Schema<M>, fs: seq<Field>) {
    forall f <- fs :: Fits(s, f)
  }

  function Put<M>(s: Schema<M>, m: M, f: Field): Result<M> {
    match f
    case TextField(num, payload) => s.putText(m, num, payload)
    case NumberField(num, value) => Ok(s.putNumber(m, num, value))
  }

  /** Storing the fields in order. */
  function PutAll<M>(s: Schema<M>, m: M, fs: seq<Field>): Result<M> {
    if fs == [] then Ok(m)
    else match Put(s, m, fs[0])
         case Err(e) => Err(e)
         case Ok(m') => PutAll(s, m', fs[1..])
  }

  /** Storing fields one by one passes through the values ms. */
  lemma {:induction false} PutEach<M>(s: Schema<M>, fs: seq<Field>, ms: seq<M>)
    requires |ms| == |fs| + 1
    requires forall i :: 0 <= i < |fs| ==> Put(s, ms[i], fs[i]) == Ok(ms[i + 1])
    ensures PutAll(s, ms[0], fs) == Ok(ms[|fs|])
    decreases |fs|
  {
    hide Put;
    if fs != [] {
      assert Put(s, ms[0], fs[0]) == Ok(ms[1]);
      PutEach(s, fs[1..], ms[1..]);
    }
  }

  /** Fields of which each appends one element to a list of the message; `with` is the
      message holding a given list there. */
  lemma {:induction false} PutRepeated<M, E(!new)>(s: Schema<M>, fs: seq<Field>, held: seq<E>, xs: seq<E>,
                                                       with: seq<E> -> M)
    requires |fs| == |xs|
    requires forall ys, i :: 0 <= i < |xs| ==> Put(s, with(ys), fs[i]) == Ok(with(ys + [xs[i]]))
    ensures PutAll(s, with(held), fs) == Ok(with(held + xs))
    decreases |fs|
  {
    hide Put;
    if fs == [] {
      assert held + xs == held;
    } else {
      PutRepeated(s, fs[1..], held + [xs[0]], xs[1..], with);
      assert held + [xs[0]] + xs[1..] == held + xs;
    }
  }

  lemma {:induction false} PutAllAppend<M>(s: Schema<M>, m: M, fs: seq<Field>, gs: seq<Field>)
    ensures PutAll(s, m, fs + gs)
         == match PutAll(s, m, fs) case Err(e) => Err(e) case Ok(m') => PutAll(s, m', gs)
    decreases |fs|
  {
    hide Put;
    if fs == [] {
      assert fs + gs == gs;
    } else {
      assert (fs + gs)[1..] == fs[1..] + gs;
      if Put(s, m, fs[0]).Ok? { PutAllAppend(s, Put(s, m, fs[0]).value, fs[1..], gs); }
    }
  }

  lemma TagValue(f: Field)
    requires 1 <= f.num < 0x2000_0000
    ensures FieldNumber(TagOf(f)) == f.num && WireType(TagOf(f)) == if f.TextField? then 2 else 0
  {
    var raw := TagOf(f);
    assert raw % TWO_64 == raw && raw / 8 == f.num;
  }

  lemma DecodeTagged<M>(s: Schema<M>, m: M, at: nat, f: Field, tail: seq<byte>)
    requires 1 <= f.num < 0x2000_0000
    requires at + |VarintBytes(TagOf(f))| + |tail| <= MAX_INT64
    ensures var tag := VarintBytes(TagOf(f));
            && DecodeField(s, m, at, tag + tail)
               == DecodeValue(s, m, at, tag + tail, Head(f.num, if f.TextField? then 2 else 0, |tag|))
            && (tag + tail)[|tag|..] == tail
  {
    hide ReadVarint, VarintBytes, DecodeValue, WireType, FieldNumber;
    SovIsLength(TagOf(f));
    ReadVarintBytes(TagOf(f), tail, 10);
    TagValue(f);
  }

  lemma DecodeEncodedField<M>(s: Schema<M>, m: M, at: nat, f: Field, rest: seq<byte>)
    requires Fits(s, f)
    requires at + |FieldBytes(f)| + |rest| <= MAX_INT64
    ensures DecodeField(s, m, at, FieldBytes(f) + rest)
         == match Put(s, m, f) case Err(e) => Err(e) case Ok(m') => Ok(Step(m', |FieldBytes(f)|))
  {
    if f.TextField? {
      DecodeEncodedText(s, m, at, f, rest);
    } else {
      DecodeEncodedNumber(s, m, at, f, rest);
    }
  }

  lemma DecodeEncodedNumber<M>(s: Schema<M>, m: M, at: nat, f: Field, rest: seq<byte>)
    requires Fits(s, f) && f.NumberField?
    requires at + |FieldBytes(f)| + |rest| <= MAX_INT64
    ensures DecodeField(s, m, at, FieldBytes(f) + rest)
         == Ok(Step(s.putNumber(m, f.num, f.value), |FieldBytes(f)|))
  {
    hide ReadVarint, VarintBytes, TextSize, SkipFrom, DecodeField, Sov, TagOf, UnknownSize;
    var tag, tail := VarintBytes(TagOf(f)), VarintBytes(f.value) + rest;
    assert FieldBytes(f) + rest == tag + tail;
    DecodeTagged(s, m, at, f, tail);
    SovIsLength(f.value);
    ReadVarintBytes(f.value, rest, 10);
  }

  lemma DecodeEncodedText<M>(s: Schema<M>, m: M, at: nat, f: Field, rest: seq<byte>)
    requires Fits(s, f) && f.TextField?
    requires at + |FieldBytes(f)| + |rest| <= MAX_INT64
    ensures DecodeField(s, m, at, FieldBytes(f) + rest)
         == match s.putText(m, f.num, f.payload) case Err(e) => Err(e) case Ok(m') => Ok(Step(m', |FieldBytes(f)|))
  {
    hide ReadVarint, VarintBytes, TextSize, SkipFrom, DecodeField, TagOf, UnknownSize;
    var tag, tail := VarintBytes(TagOf(f)), VarintBytes(|f.payload|) + f.payload + rest;
    assert FieldBytes(f) + rest == tag + tail;
    DecodeTagged(s, m, at, f, tail);
    TextSizeRead(at + |tag|, f.payload, rest);
  }

  lemma LengthOfSmall(n: nat)
    requires n <= MAX_INT64
    ensures LengthOf(n) == n
  {
  }

  lemma TextSizeRead(at: nat, payload: seq<byte>, rest: seq<byte>)
    requires at + |VarintBytes(|payload|)| + |payload| + |rest| <= MAX_INT64
    ensures var size := VarintBytes(|payload|);
            && TextSize(at, size + payload + rest) == Ok((|size|, |size| + |payload|))
            && (size + payload + rest)[|size|..|size| + |payload|] == payload
  {
    hide ReadVarint, VarintBytes, LengthOf;
    var size := VarintBytes(|payload|);
    LengthOfSmall(|payload|);
    SovIsLength(|payload|);
    ReadVarintBytes(|payload|, payload + rest, 10);
    assert size + payload + rest == size + (payload + rest);
  }

  /** The payloads and nested encodings of a message are no longer than the message. */
  lemma {:induction false} PayloadsFit(fs: seq<Field>)
    requires |FieldsBytes(fs)| <= MAX_INT64
    ensures forall f <- fs :: f.TextField? ==> |f.payload| <= MAX_INT64
    decreases |fs|
  {
    hide FieldBytes;
    if fs != [] {
      PayloadsFit(fs[1..]);
      PayloadInside(fs[0]);
      assert fs == [fs[0]] + fs[1..];
    }
  }

  lemma PayloadInside(f: Field)
    ensures |FieldBytes(f)| >= 1
    ensures f.TextField? ==> |f.payload| <= |FieldBytes(f)|
  {
    hide VarintBytes;
  }

  /** A buffer's content: fields the message knows, as Marshal writes them, and fields
      it does not. */
  datatype Item = Known(field: Field) | Foreign(wire: WireField)

  function ItemBytes(i: Item): seq<byte> {
    match i case Known(f) => FieldBytes(f) case Foreign(f) => Bytes(f)
  }

  function ItemsBytes(items: seq<Item>): seq<byte> {
    if items == [] then [] else ItemBytes(items[0]) + ItemsBytes(items[1..])
  }

  function KnownFields(items: seq<Item>): seq<Field> {
    if items == [] then []
    else if items[0].Known? then [items[0].field] + KnownFields(items[1..])
    else KnownFields(items[1..])
  }

  predicate Readable<M>(s: Schema<M>, i: Item) {
    match i case Known(f) => Fits(s, f) case Foreign(f) => Ignored(s, f)
  }

  lemma {:induction false} KnownIsRead<M>(s: Schema<M>, items: seq<Item>, k: nat)
    requires k < |KnownFields(items)| && forall i <- items :: Readable(s, i)
    ensures Fits(s, KnownFields(items)[k])
  {
    hide Fits;
    assert Readable(s, items[0]);
    if items[0].Foreign? {
      KnownIsRead(s, items[1..], k);
    } else if k > 0 {
      KnownIsRead(s, items[1..], k - 1);
    }
  }

  /** A field whose number is above n. */
  predicate Above(f: WireField, n: nat) {
    WellFormed(f) && FieldNumber(ReadVarint(f.tag).value.value) > n
  }

  /** Known fields that would be stored, each no longer than the buffer, and foreign ones of
      numbers that the message does not know. */
  lemma {:induction false} ItemsReadable<M>(s: Schema<M>, items: seq<Item>, n: nat)
    requires |ItemsBytes(items)| <= MAX_INT64
    requires forall f: Field :: f in KnownFields(items) && (f.TextField? ==> |f.payload| <= MAX_INT64) ==> Fits(s, f)
    requires forall i <- items :: i.Foreign? ==> Above(i.wire, n)
    requires forall num: nat :: num > n ==> s.kind(num) == Unknown
    ensures forall i <- items :: Readable(s, i)
    decreases |items|
  {
    hide FieldBytes, Fits, Bytes, WellFormed, FieldNumber, ReadVarint;
    if items != [] {
      assert items == [items[0]] + items[1..];
      forall f | f in KnownFields(items[1..]) ensures f in KnownFields(items) {}
      ItemsReadable(s, items[1..], n);
      if items[0].Known? { PayloadInside(items[0].field); }
    }
  }

  /** Decoding stores the known fields in order and moves over everything else, wherever
      it stands. Last one wins, append and merge in place are all in what Put does. */
  lemma {:induction false} DecodeItems<M>(s: Schema<M>, m: M, at: nat, items: seq<Item>)
    requires forall i <- items :: Readable(s, i)
    requires at + |ItemsBytes(items)| <= MAX_INT64
    ensures DecodeFrom(s, m, at, ItemsBytes(items)) == PutAll(s, m, KnownFields(items))
    decreases |items|
  {
    hide DecodeField, FieldBytes, Fits, Ignored, Put, Bytes;
    if items != [] {
      hide DecodeFrom;
      var head, rest := ItemBytes(items[0]), ItemsBytes(items[1..]);
      var next := m;
      assert Readable(s, items[0]);
      match items[0] {
        case Known(f) =>
          DecodeEncodedField(s, m, at, f, rest);
          PayloadInside(f);
          if Put(s, m, f).Ok? { next := Put(s, m, f).value; }
        case Foreign(f) =>
          IgnoredField(s, m, at, f, rest);
      }
      DecodeFromStep(s, m, at, ItemsBytes(items));
      assert ItemsBytes(items)[|head|..] == rest;
      DecodeItems(s, next, at + |head|, items[1..]);
    }
  }

  function AllKnown(fs: seq<Field>): (items: seq<Item>)
    ensures |items| == |fs| && forall i :: 0 <= i < |fs| ==> items[i] == Known(fs[i])
  {
    seq(|fs|, i requires 0 <= i < |fs| => Known(fs[i]))
  }

  lemma {:induction false} AllKnownBytes(fs: seq<Field>)
    ensures ItemsBytes(AllKnown(fs)) == FieldsBytes(fs)
    ensures KnownFields(AllKnown(fs)) == fs
  {
    hide FieldBytes;
    if fs != [] {
      AllKnownBytes(fs[1..]);
      assert AllKnown(fs)[1..] == AllKnown(fs[1..]);
    }
  }

  /** Decoding an encoding stores its fields in order. */
  lemma DecodeEncoded<M>(s: Schema<M>, m: M, fs: seq<Field>)
    requires AllFit(s, fs) && |FieldsBytes(fs)| <= MAX_INT64
    ensures Decode(s, m, FieldsBytes(fs)) == PutAll(s, m, fs)
  {
    hide Fits, DecodeFrom, FieldsBytes;
    AllKnownBytes(fs);
    DecodeItems(s, m, 0, AllKnown(fs));
  }
}
