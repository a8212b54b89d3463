/** TargetClearDeviationConfigResult and TargetClearDeviationStatus: a bool, repeated
    strings and a repeated nested message. */
module ClearDeviationMessages {
  import opened GoInt
  import opened Varint
  import opened Codec
  import opened Buffer

  function Texts(num: nat, ts: seq<Text>): (fs: seq<Field>)
    ensures |fs| == |ts| && forall i :: 0 <= i < |ts| ==> fs[i] == TextField(num, ts[i])
  {
    seq(|ts|, i requires 0 <= i < |ts| => TextField(num, ts[i]))
  }

  /** The loop over a repeated string in Size. */
  method TextsSize(num: nat, ts: seq<Text>) returns (n: nat)
    requires 1 <= num < 16
    ensures n == |FieldsBytes(Texts(num, ts))|
  {
    hide FieldBytes, FieldsBytes, Sov;
    n := 0;
    NoFields();
    for e := 0 to |ts|
      invariant n == |FieldsBytes(Texts(num, ts[..e]))|
    {
      var l := |ts[e]|;
      n := n + 1 + l + Sov(l);
      OneField(TextField(num, ts[e]));
      FieldsBytesAppend(Texts(num, ts[..e]), [TextField(num, ts[e])]);
      assert Texts(num, ts[..e + 1]) == Texts(num, ts[..e]) + [TextField(num, ts[e])];
    }
    assert ts[..|ts|] == ts;
  }

  /** The loop over a repeated string in MarshalToSizedBuffer, last element first. */
  method PutTexts(dAtA: array<byte>, at: nat, num: nat, ts: seq<Text>,
                  ghost hi: nat, ghost all: seq<Field>, ghost first: nat)
    returns (i: nat)
    requires 1 <= num < 16 && Holds(dAtA, at, hi, all, first + |ts|)
    requires all[first..first + |ts|] == Texts(num, ts)
    modifies dAtA
    ensures Holds(dAtA, i, hi, all, first)
    ensures OnlyWrote(dAtA, i, at)
  {
    hide FieldsBytes, FieldBytes;
    i := at;
    var iNdEx := |ts|;
    while iNdEx > 0
      invariant 0 <= iNdEx <= |ts|
      invariant Holds(dAtA, i, hi, all, first + iNdEx)
      invariant OnlyWrote(dAtA, i, at)
    {
      iNdEx := iNdEx - 1;
      assert all[first + iNdEx] == all[first..first + |ts|][iNdEx];
      i := PutText(dAtA, i, num, ts[iNdEx], hi, all, first + iNdEx + 1);
    }
  }

  // ----- TargetClearDeviationConfigResult

  datatype ConfigResult = ConfigResult(name: Text, success: bool, message: Text, errors: seq<Text>, warnings: seq<Text>)
  {
    function Scalars(): seq<Field> {
      [TextField(1, name), NumberField(2, if success then 1 else 0), TextField(3, message)]
    }

    function Fields(): seq<Field> {
      Scalars() + Texts(4, errors) + Texts(5, warnings)
    }

    function Encoding(): seq<byte> {
      FieldsBytes(Fields())
    }

    method Size() returns (n: nat)
      ensures n == |Encoding()|
    {
      hide FieldBytes, FieldsBytes, Sov;
      n := 1 + |name| + Sov(|name|);
      n := n + 2;
      n := n + 1 + |message| + Sov(|message|);
      ScalarsSize(this);
      var e := TextsSize(4, errors);
      n := n + e;
      var w := TextsSize(5, warnings);
      n := n + w;
      FieldsBytesAppend(Scalars() + Texts(4, errors), Texts(5, warnings));
      FieldsBytesAppend(Scalars(), Texts(4, errors));
    }

    method MarshalToSizedBuffer(dAtA: array<byte>, hi: nat) returns (n: nat)
      requires |Encoding()| <= hi <= dAtA.Length
      modifies dAtA
      ensures n == |Encoding()| && dAtA[hi - n..hi] == Encoding()
      ensures OnlyWrote(dAtA, hi - n, hi)
    {
      hide FieldsBytes, FieldBytes, Holds;
      ghost var all := Fields();
      EmptyTail(dAtA, hi, all);
      assert all[3 + |errors|..3 + |errors| + |warnings|] == Texts(5, warnings);
      assert all[3..3 + |errors|] == Texts(4, errors);
      var i := PutTexts(dAtA, hi, 5, warnings, hi, all, 3 + |errors|);
      i := PutTexts(dAtA, i, 4, errors, hi, all, 3);
      assert OnlyWrote(dAtA, i, hi);
      i := PutText(dAtA, i, 3, message, hi, all, 3);
      i := PutNumber(dAtA, i, 2, if success then 1 else 0, hi, all, 2);
      assert OnlyWrote(dAtA, i, hi);
      i := PutText(dAtA, i, 1, name, hi, all, 1);
      assert OnlyWrote(dAtA, i, hi);
      AllWritten(dAtA, i, hi, all);
      return hi - i;
    }
  }

  lemma ScalarsSize(m: ConfigResult)
    ensures |FieldsBytes(m.Scalars())| == 1 + |m.name| + Sov(|m.name|) + 2 + 1 + |m.message| + Sov(|m.message|)
  {
    hide FieldBytes, FieldsBytes, Sov;
    var a, b, c := TextField(1, m.name), NumberField(2, if m.success then 1 else 0), TextField(3, m.message);
    assert Sov(b.value) == 1 by { SovStep(b.value); }
    OneField(a);
    OneField(b);
    OneField(c);
    FieldsBytesAppend([a, b], [c]);
    FieldsBytesAppend([a], [b]);
    assert [a] + [b] == [a, b] && [a, b] + [c] == m.Scalars();
  }

  /** The bytes on the wire, with the tag bytes of the fields and the one-byte bool. */
  lemma ResultWire(m: ConfigResult)
    ensures m.Encoding()
         == [0x0A] + Sized(m.name) + [0x10, if m.success then 1 else 0] + ([0x1A] + Sized(m.message))
            + (Repeated(0x22, m.errors) + Repeated(0x2A, m.warnings))
  {
    hide FieldsBytes, Sized, Repeated;
    var fs, rest := m.Scalars(), Texts(4, m.errors) + Texts(5, m.warnings);
    RepeatedBytes(4, Texts(4, m.errors), m.errors);
    RepeatedBytes(5, Texts(5, m.warnings), m.warnings);
    FieldsBytesAppend(Texts(4, m.errors), Texts(5, m.warnings));
    assert VarintBytes(fs[1].value) == [fs[1].value];
    TagByte(fs[2], rest);
    TagByte(fs[1], [fs[2]] + rest);
    TagByte(fs[0], [fs[1]] + ([fs[2]] + rest));
    assert m.Fields() == [fs[0]] + ([fs[1]] + ([fs[2]] + rest));
  }

  const NO_RESULT := ConfigResult([], false, [], [], [])

  function PutResultText(m: ConfigResult, num: nat, p: Text): ConfigResult {
    match num
    case 1 => m.(name := p)
    case 3 => m.(message := p)
    case 4 => m.(errors := m.errors + [p])
    case _ => m.(warnings := m.warnings + [p])
  }

  function ResultSchema(): Schema<ConfigResult> {
    Schema(
      (num: nat) => if num == 2 then Number else if 1 <= num <= 5 then Payload else Unknown,
      (m: ConfigResult, num: nat, p: Text) => Ok(PutResultText(m, num, p)),
      (m: ConfigResult, num: nat, p: Text) => m,
      (m: ConfigResult, num: nat, v: nat) => m.(success := v != 0))
  }

  class ConfigResultMessage {
    var name: Text
    var success: bool
    var message: Text
    var errors: seq<Text>
    var warnings: seq<Text>

    function Value(): ConfigResult
      reads this
    {
      ConfigResult(name, success, message, errors, warnings)
    }

    constructor ()
      ensures Value() == NO_RESULT
    {
      name, success, message, errors, warnings := [], false, [], [], [];
    }

    method Unmarshal(dAtA: seq<byte>) returns (err: Option<Error>)
      requires |dAtA| <= MAX_INT64
      modifies this
      ensures match Decode(ResultSchema(), old(Value()), dAtA)
              case Ok(m) => err == None && Value() == m
              case Err(e) => err == Some(e) && Value() == Left(ResultSchema(), old(Value()), dAtA)
    {
      hide ReadHead, TextSize, UnknownSize, DecodeFrom, LeftFrom, ReadVarint;
      ghost var s := ResultSchema();
      var l := |dAtA|;
      var iNdEx := 0;
      assert dAtA[0..] == dAtA;
      while iNdEx < l
        invariant iNdEx <= l
        invariant DecodeFrom(s, Value(), iNdEx, dAtA[iNdEx..]) == DecodeFrom(s, old(Value()), 0, dAtA)
        invariant LeftFrom(s, Value(), iNdEx, dAtA[iNdEx..]) == LeftFrom(s, old(Value()), 0, dAtA)
      {
        ghost var b := dAtA[iNdEx..];
        DecodeFromStep(s, Value(), iNdEx, b);
        var head := ReadTag(dAtA, iNdEx);
        if head.Err? { return Some(head.error); }
        var preIndex := iNdEx;
        iNdEx := iNdEx + head.value.size;
        assert dAtA[iNdEx..] == b[head.value.size..];
        if head.value.num == 2 {
          if head.value.wireType != 0 { return Some(WrongWireType); }
          var v := DecodeUint64(dAtA, iNdEx);
          if v.Err? { return Some(v.error); }
          success := v.value.value != 0;
          iNdEx := iNdEx + v.value.size;
        } else if 1 <= head.value.num <= 5 {
          if head.value.wireType != 2 { return Some(WrongWireType); }
          var text := ReadText(dAtA, iNdEx);
          if text.Err? { return Some(text.error); }
          var (from, to) := text.value;
          var payload := dAtA[iNdEx + from..iNdEx + to];
          assert payload == dAtA[iNdEx..][from..to];
          match head.value.num {
            case 1 => name := payload;
            case 3 => message := payload;
            case 4 => errors := errors + [payload];
            case _ => warnings := warnings + [payload];
          }
          iNdEx := iNdEx + to;
        } else {
          iNdEx := preIndex;
          var skippy := SkipUnknown(dAtA, iNdEx);
          if skippy.Err? { return Some(skippy.error); }
          iNdEx := iNdEx + skippy.value;
        }
        assert dAtA[iNdEx..] == b[iNdEx - preIndex..];
      }
      assert dAtA[iNdEx..] == [];
      DecodeNothing(s, Value(), iNdEx);
      return None;
    }
  }

  /** Scalars are always written, so the last message wins; the two lists are appended to. */
  function MergeResult(held: ConfigResult, m: ConfigResult): ConfigResult {
    m.(errors := held.errors + m.errors, warnings := held.warnings + m.warnings)
  }

  lemma PutErrors(held: ConfigResult, ts: seq<Text>)
    ensures PutAll(ResultSchema(), held, Texts(4, ts)) == Ok(held.(errors := held.errors + ts))
  {
    hide PutAll;
    PutRepeated(ResultSchema(), Texts(4, ts), held.errors, ts, ys => held.(errors := ys));
  }

  lemma PutWarnings(held: ConfigResult, ts: seq<Text>)
    ensures PutAll(ResultSchema(), held, Texts(5, ts)) == Ok(held.(warnings := held.warnings + ts))
  {
    hide PutAll;
    PutRepeated(ResultSchema(), Texts(5, ts), held.warnings, ts, ys => held.(warnings := ys));
  }

  lemma PutScalars(held: ConfigResult, m: ConfigResult)
    ensures PutAll(ResultSchema(), held, m.Scalars())
         == Ok(held.(name := m.name, success := m.success, message := m.message))
  {
    var m1 := held.(name := m.name);
    var m2 := m1.(success := m.success);
    PutEach(ResultSchema(), m.Scalars(), [held, m1, m2, m2.(message := m.message)]);
  }

  lemma ResultMerge(held: ConfigResult, m: ConfigResult)
    requires |m.Encoding()| <= MAX_INT64
    ensures Decode(ResultSchema(), held, m.Encoding()) == Ok(MergeResult(held, m))
  {
    hide FieldsBytes, Decode, PutAll;
    var s := ResultSchema();
    PayloadsFit(m.Fields());
    DecodeEncoded(s, held, m.Fields());
    PutAllAppend(s, held, m.Scalars() + Texts(4, m.errors), Texts(5, m.warnings));
    PutAllAppend(s, held, m.Scalars(), Texts(4, m.errors));
    PutScalars(held, m);
    var h1 := held.(name := m.name, success := m.success, message := m.message);
    PutErrors(h1, m.errors);
    PutWarnings(h1.(errors := held.errors + m.errors), m.warnings);
  }

  lemma ResultRoundTrip(m: ConfigResult)
    requires |m.Encoding()| <= MAX_INT64
    ensures Decode(ResultSchema(), NO_RESULT, m.Encoding()) == Ok(m)
  {
    hide FieldsBytes, Decode;
    ResultMerge(NO_RESULT, m);
    assert [] + m.errors == m.errors && [] + m.warnings == m.warnings;
  }

  // ----- TargetClearDeviationStatus

  datatype Status = Status(message: Text, warnings: seq<Text>, results: seq<ConfigResult>)
  {
    function Fields(): seq<Field> {
      [TextField(1, message)] + Texts(2, warnings) + Results(results)
    }

    function Encoding(): seq<byte> {
      FieldsBytes(Fields())
    }

    method Size() returns (n: nat)
      ensures n == |Encoding()|
    {
      hide FieldBytes, FieldsBytes, Sov;
      n := 1 + |message| + Sov(|message|);
      OneField(TextField(1, message));
      var w := TextsSize(2, warnings);
      n := n + w;
      var r := ResultsSize(results);
      n := n + r;
      FieldsBytesAppend([TextField(1, message)] + Texts(2, warnings), Results(results));
      FieldsBytesAppend([TextField(1, message)], Texts(2, warnings));
    }

    method MarshalToSizedBuffer(dAtA: array<byte>, hi: nat) returns (n: nat)
      requires |Encoding()| <= hi <= dAtA.Length
      modifies dAtA
      ensures n == |Encoding()| && dAtA[hi - n..hi] == Encoding()
      ensures OnlyWrote(dAtA, hi - n, hi)
    {
      hide FieldsBytes, FieldBytes, Holds;
      ghost var all := Fields();
      EmptyTail(dAtA, hi, all);
      assert all[1 + |warnings|..] == Results(results);
      assert all[1..1 + |warnings|] == Texts(2, warnings);
      var i := PutResults(dAtA, hi, results, all, 1 + |warnings|);
      i := PutTexts(dAtA, i, 2, warnings, hi, all, 1);
      assert OnlyWrote(dAtA, i, hi);
      i := PutText(dAtA, i, 1, message, hi, all, 1);
      assert OnlyWrote(dAtA, i, hi);
      AllWritten(dAtA, i, hi, all);
      return hi - i;
    }

    method Marshal() returns (out: seq<byte>)
      ensures out == Encoding()
    {
      var size := Size();
      var dAtA := new byte[size];
      var n := MarshalToSizedBuffer(dAtA, size);
      return dAtA[..n];
    }
  }

  function Results(rs: seq<ConfigResult>): (fs: seq<Field>)
    ensures |fs| == |rs| && forall i :: 0 <= i < |rs| ==> fs[i] == TextField(3, rs[i].Encoding())
  {
    seq(|rs|, i requires 0 <= i < |rs| => TextField(3, rs[i].Encoding()))
  }

  method ResultsSize(rs: seq<ConfigResult>) returns (n: nat)
    ensures n == |FieldsBytes(Results(rs))|
  {
    hide FieldBytes, FieldsBytes, Sov;
    n := 0;
    NoFields();
    for e := 0 to |rs|
      invariant n == |FieldsBytes(Results(rs[..e]))|
    {
      var l := rs[e].Size();
      n := n + 1 + l + Sov(l);
      ghost var f := TextField(3, rs[e].Encoding());
      OneField(f);
      FieldsBytesAppend(Results(rs[..e]), [f]);
      assert Results(rs[..e + 1]) == Results(rs[..e]) + [f];
    }
    assert rs[..|rs|] == rs;
  }

  method PutResults(dAtA: array<byte>, hi: nat, rs: seq<ConfigResult>, ghost all: seq<Field>, ghost first: nat)
    returns (i: nat)
    requires Holds(dAtA, hi, hi, all, |all|)
    requires first <= |all| && all[first..] == Results(rs)
    modifies dAtA
    ensures Holds(dAtA, i, hi, all, first)
    ensures OnlyWrote(dAtA, i, hi)
  {
    hide FieldsBytes, FieldBytes;
    i := hi;
    var iNdEx := |rs|;
    while iNdEx > 0
      invariant 0 <= iNdEx <= |rs|
      invariant Holds(dAtA, i, hi, all, first + iNdEx)
      invariant OnlyWrote(dAtA, i, hi)
    {
      iNdEx := iNdEx - 1;
      assert all[first + iNdEx] == all[first..][iNdEx];
      i := PutResult(dAtA, i, rs[iNdEx], hi, all, first + iNdEx + 1);
    }
  }

  method PutResult(dAtA: array<byte>, i: nat, m: ConfigResult, ghost hi: nat, ghost all: seq<Field>, ghost k: nat)
    returns (j: nat)
    requires Holds(dAtA, i, hi, all, k)
    requires k >= 1 && all[k - 1] == TextField(3, m.Encoding())
    modifies dAtA
    ensures Holds(dAtA, j, hi, all, k - 1)
    ensures OnlyWrote(dAtA, j, i)
  {
    hide FieldsBytes, FieldBytes;
    RoomForPayload(dAtA, i, hi, all, k);
    var size := m.MarshalToSizedBuffer(dAtA, i);
    assert dAtA[i..hi] == old(dAtA[i..hi]);
    j := PutHeader(dAtA, i - size, 3, size, i, hi, all, k);
  }

  const NO_STATUS := Status([], [], [])

  function PutStatusText(m: Status, num: nat, p: Text): Result<Status> {
    match num
    case 1 => Ok(m.(message := p))
    case 2 => Ok(m.(warnings := m.warnings + [p]))
    case _ =>
      match Decode(ResultSchema(), NO_RESULT, p)
      case Err(e) => Err(e)
      case Ok(r) => Ok(m.(results := m.results + [r]))
  }

  /** The element was appended before it was decoded. */
  function LeftByStatusText(m: Status, num: nat, p: Text): Status {
    if num == 1 || num == 2 then m
    else m.(results := m.results + [Left(ResultSchema(), NO_RESULT, p)])
  }

  function StatusSchema(): Schema<Status> {
    Schema(
      (num: nat) => if 1 <= num <= 3 then Payload else Unknown,
      (m: Status, num: nat, p: Text) => PutStatusText(m, num, p),
      (m: Status, num: nat, p: Text) => LeftByStatusText(m, num, p),
      (m: Status, num: nat, v: nat) => m)
  }

  class StatusMessage {
    var message: Text
    var warnings: seq<Text>
    var results: seq<ConfigResult>

    function Value(): Status
      reads this
    {
      Status(message, warnings, results)
    }

    constructor ()
      ensures Value() == NO_STATUS
    {
      message, warnings, results := [], [], [];
    }

    method Unmarshal(dAtA: seq<byte>) returns (err: Option<Error>)
      requires |dAtA| <= MAX_INT64
      modifies this
      ensures match Decode(StatusSchema(), old(Value()), dAtA)
              case Ok(m) => err == None && Value() == m
              case Err(e) => err == Some(e) && Value() == Left(StatusSchema(), old(Value()), dAtA)
    {
      hide ReadHead, TextSize, UnknownSize, DecodeFrom, LeftFrom;
      ghost var s := StatusSchema();
      var l := |dAtA|;
      var iNdEx := 0;
      assert dAtA[0..] == dAtA;
      while iNdEx < l
        invariant iNdEx <= l
        invariant DecodeFrom(s, Value(), iNdEx, dAtA[iNdEx..]) == DecodeFrom(s, old(Value()), 0, dAtA)
        invariant LeftFrom(s, Value(), iNdEx, dAtA[iNdEx..]) == LeftFrom(s, old(Value()), 0, dAtA)
      {
        ghost var b := dAtA[iNdEx..];
        DecodeFromStep(s, Value(), iNdEx, b);
        var head := ReadTag(dAtA, iNdEx);
        if head.Err? { return Some(head.error); }
        var preIndex := iNdEx;
        iNdEx := iNdEx + head.value.size;
        assert dAtA[iNdEx..] == b[head.value.size..];
        if 1 <= head.value.num <= 3 {
          if head.value.wireType != 2 { return Some(WrongWireType); }
          var text := ReadText(dAtA, iNdEx);
          if text.Err? { return Some(text.error); }
          var (from, to) := text.value;
          var payload := dAtA[iNdEx + from..iNdEx + to];
          assert payload == dAtA[iNdEx..][from..to];
          err := StoreText(head.value.num, payload);
          if err != None { return; }
          iNdEx := iNdEx + to;
        } else {
          iNdEx := preIndex;
          var skippy := SkipUnknown(dAtA, iNdEx);
          if skippy.Err? { return Some(skippy.error); }
          iNdEx := iNdEx + skippy.value;
        }
        assert dAtA[iNdEx..] == b[iNdEx - preIndex..];
      }
      assert dAtA[iNdEx..] == [];
      DecodeNothing(s, Value(), iNdEx);
      return None;
    }

    /** The cases of the switch. */
    method StoreText(num: nat, payload: Text) returns (err: Option<Error>)
      requires |payload| <= MAX_INT64
      modifies this
      ensures match PutStatusText(old(Value()), num, payload)
              case Ok(m) => err == None && Value() == m
              case Err(e) => err == Some(e) && Value() == LeftByStatusText(old(Value()), num, payload)
    {
      err := None;
      match num {
        case 1 => message := payload;
        case 2 => warnings := warnings + [payload];
        case _ =>
          var element := new ConfigResultMessage();
          err := element.Unmarshal(payload);
          results := results + [element.Value()];
      }
    }
  }

  /** Each result's own encoding, as ResultWire spells it out. */
  function Encodings(rs: seq<ConfigResult>): (es: seq<seq<byte>>)
    ensures |es| == |rs| && forall i :: 0 <= i < |rs| ==> es[i] == rs[i].Encoding()
  {
    seq(|rs|, i requires 0 <= i < |rs| => rs[i].Encoding())
  }

  /** The bytes on the wire of a status: its message, then every warning, then every result. */
  lemma StatusWire(m: Status)
    ensures m.Encoding()
         == [0x0A] + Sized(m.message) + (Repeated(0x12, m.warnings) + Repeated(0x1A, Encodings(m.results)))
  {
    hide FieldsBytes, Sized, Repeated;
    var f, rest := TextField(1, m.message), Texts(2, m.warnings) + Results(m.results);
    RepeatedBytes(2, Texts(2, m.warnings), m.warnings);
    RepeatedBytes(3, Results(m.results), Encodings(m.results));
    FieldsBytesAppend(Texts(2, m.warnings), Results(m.results));
    TagByte(f, rest);
    assert m.Fields() == [f] + rest;
  }

  function MergeStatus(held: Status, m: Status): Status {
    Status(m.message, held.warnings + m.warnings, held.results + m.results)
  }

  lemma PutStatusWarnings(held: Status, ts: seq<Text>)
    ensures PutAll(StatusSchema(), held, Texts(2, ts)) == Ok(held.(warnings := held.warnings + ts))
  {
    hide Decode, PutAll;
    PutRepeated(StatusSchema(), Texts(2, ts), held.warnings, ts, ys => held.(warnings := ys));
  }

  lemma PutStatusResults(held: Status, rs: seq<ConfigResult>)
    requires forall r <- rs :: |r.Encoding()| <= MAX_INT64
    ensures PutAll(StatusSchema(), held, Results(rs)) == Ok(held.(results := held.results + rs))
  {
    hide FieldsBytes, Decode, PutAll;
    forall r | r in rs { ResultRoundTrip(r); }
    PutRepeated(StatusSchema(), Results(rs), held.results, rs, ys => held.(results := ys));
  }

  lemma ResultsFit(m: Status)
    requires |m.Encoding()| <= MAX_INT64
    ensures AllFit(StatusSchema(), m.Fields())
    ensures forall r <- m.results :: |r.Encoding()| <= MAX_INT64
  {
    hide FieldsBytes;
    var fs := m.Fields();
    PayloadsFit(fs);
    forall i | 0 <= i < |m.results|
      ensures |m.results[i].Encoding()| <= MAX_INT64
    {
      assert fs[|fs| - |m.results| + i] == TextField(3, m.results[i].Encoding());
    }
  }

  lemma StatusMerge(held: Status, m: Status)
    requires |m.Encoding()| <= MAX_INT64
    ensures Decode(StatusSchema(), held, m.Encoding()) == Ok(MergeStatus(held, m))
  {
    hide FieldsBytes, Decode;
    var s := StatusSchema();
    ResultsFit(m);
    DecodeEncoded(s, held, m.Fields());
    var a, w, r := [TextField(1, m.message)], Texts(2, m.warnings), Results(m.results);
    PutAllAppend(s, held, a + w, r);
    PutAllAppend(s, held, a, w);
    assert PutAll(s, held, a) == Ok(held.(message := m.message));
    hide PutAll;
    PutStatusWarnings(held.(message := m.message), m.warnings);
    PutStatusResults(held.(message := m.message, warnings := held.warnings + m.warnings), m.results);
  }

  /** Marshal, then Unmarshal into a zero message, through the nested results. */
  lemma StatusRoundTrip(m: Status)
    requires |m.Encoding()| <= MAX_INT64
    ensures Decode(StatusSchema(), NO_STATUS, m.Encoding()) == Ok(m)
  {
    hide FieldsBytes, Decode;
    StatusMerge(NO_STATUS, m);
    assert [] + m.warnings == m.warnings && [] + m.results == m.results;
  }

  lemma StatusConcatenation(a: Status, b: Status)
    requires |a.Encoding()| + |b.Encoding()| <= MAX_INT64
    ensures Decode(StatusSchema(), NO_STATUS, a.Encoding() + b.Encoding()) == Ok(MergeStatus(a, b))
  {
    hide FieldsBytes, Decode;
    StatusRoundTrip(a);
    StatusMerge(a, b);
    DecodeAppend(StatusSchema(), NO_STATUS, a.Encoding(), b.Encoding());
  }
}
