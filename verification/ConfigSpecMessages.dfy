/** Lifecycle, ConfigBlob and ConfigSpec: an optional nested message that is decoded in
    place, a signed 32-bit varint and an optional bool. The RawExtension inside a
    ConfigBlob is encoded by code outside the repository and is a parameter here. */
module ConfigSpecMessages {
  import opened GoInt
  import opened Varint
  import opened Codec
  import opened Buffer

  type int32 = x: int | -TWO_31 <= x < TWO_31

  /** An external message type: its zero value, its encoding, Unmarshal into a value, and what
      a failing Unmarshal leaves there. */
  datatype External<!R> = External(
    zero: R, encode: R -> seq<byte>, decode: (R, seq<byte>) -> Result<R>, left: (R, seq<byte>) -> R)

  /** What a ConfigBlob needs of it. */
  ghost predicate RoundTrips<R(!new)>(x: External<R>) {
    forall r: R {:trigger x.encode(r)} :: x.decode(x.zero, x.encode(r)) == Ok(r)
  }

  // ----- Lifecycle

  datatype Lifecycle = Lifecycle(deletionPolicy: Text) {
    function Fields(): seq<Field> {
      [TextField(1, deletionPolicy)]
    }

    function Encoding(): seq<byte> {
      FieldsBytes(Fields())
    }

    method Size() returns (n: nat)
      ensures n == |Encoding()|
    {
      hide FieldBytes, Sov;
      OneField(TextField(1, deletionPolicy));
      return 1 + |deletionPolicy| + Sov(|deletionPolicy|);
    }

    method MarshalToSizedBuffer(dAtA: array<byte>, hi: nat) returns (n: nat)
      requires |Encoding()| <= hi <= dAtA.Length
      modifies dAtA
      ensures n == |Encoding()| && dAtA[hi - n..hi] == Encoding()
      ensures OnlyWrote(dAtA, hi - n, hi)
    {
      hide FieldsBytes, FieldBytes, Holds;
      ghost var all := Fields();
      EmptyTail(dAtA, hi, all);
      var i := PutText(dAtA, hi, 1, deletionPolicy, hi, all, 1);
      AllWritten(dAtA, i, hi, all);
      return hi - i;
    }
  }

  const NO_LIFECYCLE := Lifecycle([])

  function LifecycleSchema(): Schema<Lifecycle> {
    Schema(
      (num: nat) => if num == 1 then Payload else Unknown,
      (m: Lifecycle, num: nat, p: Text) => Ok(m.(deletionPolicy := p)),
      (m: Lifecycle, num: nat, p: Text) => m,
      (m: Lifecycle, num: nat, v: nat) => m)
  }

  class LifecycleMessage {
    var deletionPolicy: Text

    function Value(): Lifecycle
      reads this
    {
      Lifecycle(deletionPolicy)
    }

    constructor (m: Lifecycle)
      ensures Value() == m
    {
      deletionPolicy := m.deletionPolicy;
    }

    method Unmarshal(dAtA: seq<byte>) returns (err: Option<Error>)
      requires |dAtA| <= MAX_INT64
      modifies this
      ensures match Decode(LifecycleSchema(), old(Value()), dAtA)
              case Ok(m) => err == None && Value() == m
              case Err(e) => err == Some(e) && Value() == Left(LifecycleSchema(), old(Value()), dAtA)
    {
      hide ReadHead, TextSize, UnknownSize, DecodeFrom, LeftFrom;
      ghost var s := LifecycleSchema();
      var l := |dAtA|;
      var iNdEx := 0;
      assert dAtA[0..] == dAtA;
      while iNdEx < l
        invariant iNdEx <= l
        invariant DecodeFrom(s, Value(), iNdEx, dAtA[iNdEx..]) == DecodeFrom(s, old(Value()), 0, dAtA)
        invariant LeftFrom(s, Value(), iNdEx, dAtA[iNdEx..]) == LeftFrom(s, old(Value()), 0, dAtA)
      {
        ghost var b := dAtA[iNdEx..];
        DecodeFromStep(s, Value(), iNdEx, b);
        var head := ReadTag(dAtA, iNdEx);
        if head.Err? { return Some(head.error); }
        var preIndex := iNdEx;
        iNdEx := iNdEx + head.value.size;
        assert dAtA[iNdEx..] == b[head.value.size..];
        match head.value.num {
          case 1 =>
            if head.value.wireType != 2 { return Some(WrongWireType); }
            var text := ReadText(dAtA, iNdEx);
            if text.Err? { return Some(text.error); }
            var (from, to) := text.value;
            deletionPolicy := dAtA[iNdEx + from..iNdEx + to];
            assert deletionPolicy == dAtA[iNdEx..][from..to];
            iNdEx := iNdEx + to;
          case _ =>
            iNdEx := preIndex;
            var skippy := SkipUnknown(dAtA, iNdEx);
            if skippy.Err? { return Some(skippy.error); }
            iNdEx := iNdEx + skippy.value;
        }
        assert dAtA[iNdEx..] == b[iNdEx - preIndex..];
      }
      assert dAtA[iNdEx..] == [];
      DecodeNothing(s, Value(), iNdEx);
      return None;
    }
  }

  /** deletionPolicy is always written, so what the message held does not matter. */
  lemma LifecycleMerge(held: Lifecycle, m: Lifecycle)
    requires |m.Encoding()| <= MAX_INT64
    ensures Decode(LifecycleSchema(), held, m.Encoding()) == Ok(m)
  {
    hide FieldsBytes;
    var s := LifecycleSchema();
    PayloadsFit(m.Fields());
    DecodeEncoded(s, held, m.Fields());
    assert PutAll(s, held, m.Fields()) == PutAll(s, m, m.Fields()[1..]);
  }

  // ----- ConfigBlob

  datatype ConfigBlob<R> = ConfigBlob(path: Text, value: R) {
    function Fields(x: External<R>): seq<Field> {
      [TextField(1, path), TextField(2, x.encode(value))]
    }

    function Encoding(x: External<R>): seq<byte> {
      FieldsBytes(Fields(x))
    }

    method Size(x: External<R>) returns (n: nat)
      ensures n == |Encoding(x)|
    {
      hide FieldsBytes, FieldBytes, Sov;
      var raw := |x.encode(value)|;
      n := 1 + |path| + Sov(|path|);
      n := n + 1 + raw + Sov(raw);
      OneField(TextField(1, path));
      OneField(TextField(2, x.encode(value)));
      FieldsBytesAppend([TextField(1, path)], [TextField(2, x.encode(value))]);
      assert [TextField(1, path)] + [TextField(2, x.encode(value))] == Fields(x);
    }

    method MarshalToSizedBuffer(x: External<R>, dAtA: array<byte>, hi: nat) returns (n: nat)
      requires |Encoding(x)| <= hi <= dAtA.Length
      modifies dAtA
      ensures n == |Encoding(x)| && dAtA[hi - n..hi] == Encoding(x)
      ensures OnlyWrote(dAtA, hi - n, hi)
    {
      hide FieldsBytes, FieldBytes, Holds;
      ghost var all := Fields(x);
      EmptyTail(dAtA, hi, all);
      // The nested encoder is external; what it writes is x.encode(value).
      var i := PutText(dAtA, hi, 2, x.encode(value), hi, all, 2);
      i := PutText(dAtA, i, 1, path, hi, all, 1);
      AllWritten(dAtA, i, hi, all);
      return hi - i;
    }
  }

  class ConfigBlobMessage<R> {
    var path: Text
    var value: R

    function Value(): ConfigBlob<R>
      reads this
    {
      ConfigBlob(path, value)
    }

    constructor (x: External<R>)
      ensures Value() == ConfigBlob([], x.zero)
    {
      path, value := [], x.zero;
    }

    method Unmarshal(x: External<R>, dAtA: seq<byte>) returns (err: Option<Error>)
      requires |dAtA| <= MAX_INT64
      modifies this
      ensures match Decode(BlobSchema(x), old(Value()), dAtA)
              case Ok(m) => err == None && Value() == m
              case Err(e) => err == Some(e) && Value() == Left(BlobSchema(x), old(Value()), dAtA)
    {
      hide ReadHead, TextSize, UnknownSize, DecodeFrom, LeftFrom;
      ghost var s := BlobSchema(x);
      var l := |dAtA|;
      var iNdEx := 0;
      assert dAtA[0..] == dAtA;
      while iNdEx < l
        invariant iNdEx <= l
        invariant DecodeFrom(s, Value(), iNdEx, dAtA[iNdEx..]) == DecodeFrom(s, old(Value()), 0, dAtA)
        invariant LeftFrom(s, Value(), iNdEx, dAtA[iNdEx..]) == LeftFrom(s, old(Value()), 0, dAtA)
      {
        ghost var b := dAtA[iNdEx..];
        DecodeFromStep(s, Value(), iNdEx, b);
        var head := ReadTag(dAtA, iNdEx);
        if head.Err? { return Some(head.error); }
        var preIndex := iNdEx;
        iNdEx := iNdEx + head.value.size;
        assert dAtA[iNdEx..] == b[head.value.size..];
        if 1 <= head.value.num <= 2 {
          if head.value.wireType != 2 { return Some(WrongWireType); }
          var text := ReadText(dAtA, iNdEx);
          if text.Err? { return Some(text.error); }
          var (from, to) := text.value;
          var payload := dAtA[iNdEx + from..iNdEx + to];
          assert payload == dAtA[iNdEx..][from..to];
          if head.value.num == 1 {
            path := payload;
          } else {
            var nested := x.decode(value, payload);
            value := if nested.Ok? then nested.value else x.left(value, payload);
            if nested.Err? { return Some(nested.error); }
          }
          iNdEx := iNdEx + to;
        } else {
          iNdEx := preIndex;
          var skippy := SkipUnknown(dAtA, iNdEx);
          if skippy.Err? { return Some(skippy.error); }
          iNdEx := iNdEx + skippy.value;
        }
        assert dAtA[iNdEx..] == b[iNdEx - preIndex..];
      }
      assert dAtA[iNdEx..] == [];
      DecodeNothing(s, Value(), iNdEx);
      return None;
    }
  }

  function BlobSchema<R>(x: External<R>): Schema<ConfigBlob<R>> {
    Schema(
      (num: nat) => if 1 <= num <= 2 then Payload else Unknown,
      (m: ConfigBlob<R>, num: nat, p: Text) =>
        if num == 1 then Ok(m.(path := p))
        else match x.decode(m.value, p) case Err(e) => Err(e) case Ok(v) => Ok(m.(value := v)),
      (m: ConfigBlob<R>, num: nat, p: Text) => if num == 1 then m else m.(value := x.left(m.value, p)),
      (m: ConfigBlob<R>, num: nat, v: nat) => m)
  }

  lemma BlobRoundTrip<R(!new)>(x: External<R>, m: ConfigBlob<R>)
    requires RoundTrips(x) && |m.Encoding(x)| <= MAX_INT64
    ensures Decode(BlobSchema(x), ConfigBlob([], x.zero), m.Encoding(x)) == Ok(m)
  {
    hide FieldsBytes;
    var s, zero := BlobSchema(x), ConfigBlob([], x.zero);
    PayloadsFit(m.Fields(x));
    DecodeEncoded(s, zero, m.Fields(x));
    assert m.Fields(x)[1..] == [TextField(2, x.encode(m.value))];
    assert PutAll(s, zero, m.Fields(x)) == PutAll(s, zero.(path := m.path), m.Fields(x)[1..]);
    assert m.Fields(x)[1..][1..] == [];
    assert PutAll(s, m, []) == Ok(m);
  }

  // ----- ConfigSpec

  datatype ConfigSpec<R> = ConfigSpec(
    lifecycle: Option<Lifecycle>, priority: int32, revertive: Option<bool>, config: seq<ConfigBlob<R>>)
  {
    function Fields(x: External<R>): seq<Field> {
      LifecycleField(lifecycle) + [NumberField(2, ToUint64(priority))] + BoolField(3, revertive) + Blobs(x, config)
    }

    function Encoding(x: External<R>): seq<byte> {
      FieldsBytes(Fields(x))
    }

    method Size(x: External<R>) returns (n: nat)
      ensures n == |Encoding(x)|
    {
      hide FieldBytes, FieldsBytes, Sov;
      n := 0;
      if lifecycle != None {
        var l := lifecycle.value.Size();
        n := n + 1 + l + Sov(l);
        OneField(TextField(1, lifecycle.value.Encoding()));
      }
      n := n + 1 + Sov(ToUint64(priority));
      if revertive != None {
        n := n + 2;
        OneByteNumber();
        OneField(NumberField(3, if revertive.value then 1 else 0));
      }
      ghost var a, p, b := LifecycleField(lifecycle), [NumberField(2, ToUint64(priority))], BoolField(3, revertive);
      NoFields();
      OneField(p[0]);
      FieldsBytesAppend(a, p);
      FieldsBytesAppend(a + p, b);
      FieldsBytesAppend(a + p + b, Blobs(x, config));
      var blobs := BlobsSize(x, config);
      n := n + blobs;
    }

    method MarshalToSizedBuffer(x: External<R>, dAtA: array<byte>, hi: nat) returns (n: nat)
      requires |Encoding(x)| <= hi <= dAtA.Length
      modifies dAtA
      ensures n == |Encoding(x)| && dAtA[hi - n..hi] == Encoding(x)
      ensures OnlyWrote(dAtA, hi - n, hi)
    {
      hide FieldsBytes, FieldBytes, Holds;
      ghost var all := Fields(x);
      ghost var k := |all| - |config|;
      assert all[k..] == Blobs(x, config);
      EmptyTail(dAtA, hi, all);
      var i := PutBlobs(x, dAtA, hi, config, all, k);
      if revertive != None {
        i := PutNumber(dAtA, i, 3, if revertive.value then 1 else 0, hi, all, k);
        k := k - 1;
        assert OnlyWrote(dAtA, i, hi);
      }
      i := PutNumber(dAtA, i, 2, ToUint64(priority), hi, all, k);
      k := k - 1;
      assert OnlyWrote(dAtA, i, hi);
      if lifecycle != None {
        i := PutLifecycle(dAtA, i, lifecycle.value, hi, all, k);
        assert OnlyWrote(dAtA, i, hi);
      }
      AllWritten(dAtA, i, hi, all);
      return hi - i;
    }

    method Marshal(x: External<R>) returns (out: seq<byte>)
      ensures out == Encoding(x)
    {
      var size := Size(x);
      var dAtA := new byte[size];
      var n := MarshalToSizedBuffer(x, dAtA, size);
      return dAtA[..n];
    }
  }

  lemma OneByteNumber()
    ensures Sov(0) == 1 && Sov(1) == 1
  {
    SovStep(0);
    SovStep(1);
  }

  /** The loop over Config in Size. */
  method BlobsSize<R>(x: External<R>, config: seq<ConfigBlob<R>>) returns (n: nat)
    ensures n == |FieldsBytes(Blobs(x, config))|
  {
    hide FieldBytes, FieldsBytes, Sov;
    n := 0;
    NoFields();
    for e := 0 to |config|
      invariant n == |FieldsBytes(Blobs(x, config[..e]))|
    {
      var l := config[e].Size(x);
      n := n + 1 + l + Sov(l);
      ghost var f := TextField(4, config[e].Encoding(x));
      OneField(f);
      FieldsBytesAppend(Blobs(x, config[..e]), [f]);
      assert Blobs(x, config[..e + 1]) == Blobs(x, config[..e]) + [f];
    }
    assert config[..|config|] == config;
  }

  /** The loop over Config in MarshalToSizedBuffer, last element first. */
  method PutBlobs<R>(x: External<R>, dAtA: array<byte>, hi: nat, config: seq<ConfigBlob<R>>,
                     ghost all: seq<Field>, ghost first: nat)
    returns (i: nat)
    requires Holds(dAtA, hi, hi, all, |all|)
    requires first <= |all| && all[first..] == Blobs(x, config)
    modifies dAtA
    ensures Holds(dAtA, i, hi, all, first)
    ensures OnlyWrote(dAtA, i, hi)
  {
    hide FieldsBytes, FieldBytes;
    i := hi;
    var iNdEx := |config|;
    while iNdEx > 0
      invariant 0 <= iNdEx <= |config|
      invariant Holds(dAtA, i, hi, all, first + iNdEx)
      invariant OnlyWrote(dAtA, i, hi)
    {
      iNdEx := iNdEx - 1;
      assert all[first + iNdEx] == all[first..][iNdEx];
      i := PutBlob(x, dAtA, i, config[iNdEx], hi, all, first + iNdEx + 1);
    }
  }

  method PutBlob<R>(x: External<R>, dAtA: array<byte>, i: nat, m: ConfigBlob<R>,
                    ghost hi: nat, ghost all: seq<Field>, ghost k: nat)
    returns (j: nat)
    requires Holds(dAtA, i, hi, all, k)
    requires k >= 1 && all[k - 1] == TextField(4, m.Encoding(x))
    modifies dAtA
    ensures Holds(dAtA, j, hi, all, k - 1)
    ensures OnlyWrote(dAtA, j, i)
  {
    hide FieldsBytes, FieldBytes;
    RoomForPayload(dAtA, i, hi, all, k);
    var size := m.MarshalToSizedBuffer(x, dAtA, i);
    assert dAtA[i..hi] == old(dAtA[i..hi]);
    j := PutHeader(dAtA, i - size, 4, size, i, hi, all, k);
  }

  method PutLifecycle(dAtA: array<byte>, i: nat, m: Lifecycle, ghost hi: nat, ghost all: seq<Field>, ghost k: nat)
    returns (j: nat)
    requires Holds(dAtA, i, hi, all, k)
    requires k >= 1 && all[k - 1] == TextField(1, m.Encoding())
    modifies dAtA
    ensures Holds(dAtA, j, hi, all, k - 1)
    ensures OnlyWrote(dAtA, j, i)
  {
    hide FieldsBytes, FieldBytes;
    RoomForPayload(dAtA, i, hi, all, k);
    var size := m.MarshalToSizedBuffer(dAtA, i);
    assert dAtA[i..hi] == old(dAtA[i..hi]);
    j := PutHeader(dAtA, i - size, 1, size, i, hi, all, k);
  }

  function LifecycleField(l: Option<Lifecycle>): seq<Field> {
    if l == None then [] else [TextField(1, l.value.Encoding())]
  }

  function BoolField(num: nat, b: Option<bool>): seq<Field> {
    if b == None then [] else [NumberField(num, if b.value then 1 else 0)]
  }

  function Blobs<R>(x: External<R>, bs: seq<ConfigBlob<R>>): (fs: seq<Field>)
    ensures |fs| == |bs| && forall i :: 0 <= i < |bs| ==> fs[i] == TextField(4, bs[i].Encoding(x))
  {
    seq(|bs|, i requires 0 <= i < |bs| => TextField(4, bs[i].Encoding(x)))
  }

  /** Lifecycle is created on first use. */
  function HeldLifecycle<R>(m: ConfigSpec<R>): Lifecycle {
    if m.lifecycle == None then NO_LIFECYCLE else m.lifecycle.value
  }

  function PutConfigText<R>(x: External<R>, m: ConfigSpec<R>, num: nat, p: Text): Result<ConfigSpec<R>> {
    if num == 1 then
      match Decode(LifecycleSchema(), HeldLifecycle(m), p)
      case Err(e) => Err(e)
      case Ok(l) => Ok(m.(lifecycle := Some(l)))
    else
      match Decode(BlobSchema(x), ConfigBlob([], x.zero), p)
      case Err(e) => Err(e)
      case Ok(c) => Ok(m.(config := m.config + [c]))
  }

  /** Nested messages are decoded in place, and Priority is collected in place. */
  function LeftByConfig<R>(x: External<R>, m: ConfigSpec<R>, num: nat, p: seq<byte>): ConfigSpec<R> {
    match num
    case 1 => m.(lifecycle := Some(Left(LifecycleSchema(), HeldLifecycle(m), p)))
    case 2 => m.(priority := ToInt32(Gathered(p) % TWO_64))
    case 3 => m
    case _ => m.(config := m.config + [Left(BlobSchema(x), ConfigBlob([], x.zero), p)])
  }

  function PutConfigNumber<R>(m: ConfigSpec<R>, num: nat, v: nat): ConfigSpec<R> {
    if num == 2 then m.(priority := ToInt32(v)) else m.(revertive := Some(v != 0))
  }

  function ConfigSchema<R>(x: External<R>): Schema<ConfigSpec<R>> {
    Schema(
      (num: nat) => if num == 1 || num == 4 then Payload else if num == 2 || num == 3 then Number else Unknown,
      (m: ConfigSpec<R>, num: nat, p: Text) => PutConfigText(x, m, num, p),
      (m: ConfigSpec<R>, num: nat, p: seq<byte>) => LeftByConfig(x, m, num, p),
      (m: ConfigSpec<R>, num: nat, v: nat) => PutConfigNumber(m, num, v))
  }

  class ConfigSpecMessage<R> {
    var lifecycle: Option<Lifecycle>
    var priority: int32
    var revertive: Option<bool>
    var config: seq<ConfigBlob<R>>

    function Value(): ConfigSpec<R>
      reads this
    {
      ConfigSpec(lifecycle, priority, revertive, config)
    }

    constructor ()
      ensures Value() == ConfigSpec(None, 0, None, [])
    {
      lifecycle, priority, revertive, config := None, 0, None, [];
    }

    method Unmarshal(x: External<R>, dAtA: seq<byte>) returns (err: Option<Error>)
      requires |dAtA| <= MAX_INT64
      modifies this
      ensures match Decode(ConfigSchema(x), old(Value()), dAtA)
              case Ok(m) => err == None && Value() == m
              case Err(e) => err == Some(e) && Value() == Left(ConfigSchema(x), old(Value()), dAtA)
    {
      hide ReadHead, TextSize, UnknownSize, DecodeFrom, LeftFrom, ReadVarint;
      hide PutConfigText, PutConfigNumber, LeftByConfig;
      ghost var s := ConfigSchema(x);
      var l := |dAtA|;
      var iNdEx := 0;
      assert dAtA[0..] == dAtA;
      while iNdEx < l
        invariant iNdEx <= l
        invariant DecodeFrom(s, Value(), iNdEx, dAtA[iNdEx..]) == DecodeFrom(s, old(Value()), 0, dAtA)
        invariant LeftFrom(s, Value(), iNdEx, dAtA[iNdEx..]) == LeftFrom(s, old(Value()), 0, dAtA)
      {
        ghost var b := dAtA[iNdEx..];
        DecodeFromStep(s, Value(), iNdEx, b);
        var head := ReadTag(dAtA, iNdEx);
        if head.Err? { return Some(head.error); }
        var preIndex := iNdEx;
        iNdEx := iNdEx + head.value.size;
        assert dAtA[iNdEx..] == b[head.value.size..];
        if head.value.num == 1 || head.value.num == 4 {
          if head.value.wireType != 2 { return Some(WrongWireType); }
          var text := ReadText(dAtA, iNdEx);
          if text.Err? { return Some(text.error); }
          var (from, to) := text.value;
          var payload := dAtA[iNdEx + from..iNdEx + to];
          assert payload == dAtA[iNdEx..][from..to];
          err := StoreText(x, head.value.num, payload);
          if err != None { return; }
          iNdEx := iNdEx + to;
        } else if head.value.num == 2 || head.value.num == 3 {
          if head.value.wireType != 0 { return Some(WrongWireType); }
          var size := StoreNumber(x, dAtA, iNdEx, head.value.num);
          if size.Err? { return Some(size.error); }
          iNdEx := iNdEx + size.value;
        } else {
          iNdEx := preIndex;
          var skippy := SkipUnknown(dAtA, iNdEx);
          if skippy.Err? { return Some(skippy.error); }
          iNdEx := iNdEx + skippy.value;
        }
        assert dAtA[iNdEx..] == b[iNdEx - preIndex..];
      }
      assert dAtA[iNdEx..] == [];
      DecodeNothing(s, Value(), iNdEx);
      return None;
    }

    /** Cases 2 and 3 of the switch. */
    method StoreNumber(x: External<R>, dAtA: seq<byte>, iNdEx: nat, num: nat) returns (size: Result<nat>)
      requires iNdEx <= |dAtA| && 2 <= num <= 3
      modifies this
      ensures match ReadVarint(dAtA[iNdEx..])
              case Ok(v) => size == Ok(v.size) && Value() == PutConfigNumber(old(Value()), num, v.value % TWO_64)
              case Err(e) => size == Err(e) && Value() == LeftByConfig(x, old(Value()), num, dAtA[iNdEx..])
    {
      hide ReadVarint, Gathered, ToInt32;
      if num == 2 {
        size := StorePriority(dAtA, iNdEx);
        if size.Ok? { ReadIsGathered(dAtA[iNdEx..], 10); }
      } else {
        var v := DecodeUint64(dAtA, iNdEx);
        if v.Err? { return Err(v.error); }
        revertive := Some(v.value.value != 0);
        return Ok(v.value.size);
      }
    }

    /** Priority is collected in an int32, which keeps its bits when the bytes run out. */
    method StorePriority(dAtA: seq<byte>, iNdEx: nat) returns (size: Result<nat>)
      requires iNdEx <= |dAtA|
      modifies this
      ensures Value() == old(Value()).(priority := ToInt32(Gathered(dAtA[iNdEx..]) % TWO_64))
      ensures size == match ReadVarint(dAtA[iNdEx..]) case Ok(v) => Ok(v.size) case Err(e) => Err(e)
    {
      hide ReadVarint, Gathered, Pow2;
      var v, register := DecodeVarint(dAtA, iNdEx, 32);
      Low32(Gathered(dAtA[iNdEx..]));
      priority := ToInt32(register);
      if v.Err? { return Err(v.error); }
      return Ok(v.value.size);
    }

    /** Cases 1 and 4 of the switch: Lifecycle is created on first use and then decoded in
        place; Config grows by one element. */
    method StoreText(x: External<R>, num: nat, payload: Text) returns (err: Option<Error>)
      requires |payload| <= MAX_INT64 && (num == 1 || num == 4)
      modifies this
      ensures match PutConfigText(x, old(Value()), num, payload)
              case Ok(m) => err == None && Value() == m
              case Err(e) => err == Some(e) && Value() == LeftByConfig(x, old(Value()), num, payload)
    {
      if num == 1 {
        if lifecycle == None { lifecycle := Some(NO_LIFECYCLE); }
        var nested := new LifecycleMessage(lifecycle.value);
        err := nested.Unmarshal(payload);
        lifecycle := Some(nested.Value());
      } else {
        var element := new ConfigBlobMessage<R>(x);
        err := element.Unmarshal(x, payload);
        config := config + [element.Value()];
      }
    }
  }

  /** The 32-bit accumulator of Priority keeps the low half of the 64-bit one, so both
      are read as the same int32. */
  lemma Low32(raw: nat)
    ensures ToInt32(raw % Pow2(32)) == ToInt32(raw % TWO_64)
  {
    Pow2Constants();
    ModTower(raw, TWO_32, TWO_32);
    assert TWO_32 * TWO_32 == TWO_64;
  }

  lemma ModTower(x: nat, a: nat, b: nat)
    requires a > 0 && b > 0
    ensures a * b > 0 && x % (a * b) % a == x % a
  {
    var k, r := x / (a * b), x % (a * b);
    assert x == r + a * (b * k) by { assert (a * b) * k == a * (b * k); }
    ModMultiple(r, a, b * k);
  }

  /** Sign extension makes every negative priority ten bytes long, and the 32-bit decode
      of those bytes gives the priority back. */
  lemma PriorityRoundTrip(p: int32, rest: seq<byte>)
    ensures ToUint64(p) < TWO_64
    ensures p < 0 ==> |VarintBytes(ToUint64(p))| == 10
    ensures var r := ReadVarint(VarintBytes(ToUint64(p)) + rest);
            r.Ok? && ToInt32(r.value.value % Pow2(32)) == p
  {
    hide ReadVarint, VarintBytes, ToInt32;
    var v := ToUint64(p);
    SignExtension(p);
    SovIsLength(v);
    ReadVarintBytes(v, rest, 10);
    Low32(v);
    if p < 0 {
      assert v >= Pow2(7 * 9) by { HalfRange(); }
      VarintLonger(v, 9);
    }
  }

  lemma SignExtension(p: int32)
    ensures ToUint64(p) % TWO_64 == ToUint64(p) && ToInt32(ToUint64(p)) == p
  {
    if p < 0 {
      assert ToUint64(p) == TWO_32 * 0xFFFF_FFFF + (p + TWO_32);
      ModUnique(ToUint64(p), TWO_32, 0xFFFF_FFFF, p + TWO_32);
    }
  }

  lemma HalfRange()
    ensures Pow2(63) == TWO_64 / 2
  {
    Pow2Constants();
    Pow2Add(63, 1);
  }

  lemma {:induction false} VarintLonger(v: nat, k: nat)
    requires v >= Pow2(7 * k)
    ensures |VarintBytes(v)| > k
  {
    if k > 0 {
      Pow2Group(7 * (k - 1));
      VarintLonger(v / 128, k - 1);
    }
  }

  lemma LifecycleWire(l: Lifecycle)
    ensures l.Encoding() == [0x0A] + Sized(l.deletionPolicy)
  {
    hide FieldsBytes, Sized;
    TagByte(TextField(1, l.deletionPolicy), []);
    NoFields();
    assert [TextField(1, l.deletionPolicy)] + [] == l.Fields();
  }

  function LifecycleBytes(l: Option<Lifecycle>): seq<byte> {
    if l == None then [] else [0x0A] + Sized([0x0A] + Sized(l.value.deletionPolicy))
  }

  function RevertiveBytes(r: Option<bool>): seq<byte> {
    if r == None then [] else [0x18, if r.value then 1 else 0]
  }

  lemma LifecycleInFront(l: Option<Lifecycle>, rest: seq<Field>)
    ensures FieldsBytes(LifecycleField(l) + rest) == LifecycleBytes(l) + FieldsBytes(rest)
  {
    hide FieldsBytes, Sized;
    if l == None {
      assert LifecycleField(l) + rest == rest;
    } else {
      LifecycleWire(l.value);
      TagByte(TextField(1, l.value.Encoding()), rest);
    }
  }

  lemma RevertiveInFront(r: Option<bool>, rest: seq<Field>)
    ensures FieldsBytes(BoolField(3, r) + rest) == RevertiveBytes(r) + FieldsBytes(rest)
  {
    hide FieldsBytes;
    if r == None {
      assert BoolField(3, r) + rest == rest;
    } else {
      var v: byte := if r.value then 1 else 0;
      TagByte(NumberField(3, v), rest);
      assert VarintBytes(v) == [v];
    }
  }

  function BlobBytes<R>(x: External<R>, c: ConfigBlob<R>): seq<byte> {
    [0x0A] + Sized(c.path) + ([0x12] + Sized(x.encode(c.value)))
  }

  lemma BlobWire<R>(x: External<R>, c: ConfigBlob<R>)
    ensures c.Encoding(x) == BlobBytes(x, c)
  {
    hide FieldsBytes, Sized;
    var fs := c.Fields(x);
    NoFields();
    TagByte(fs[1], []);
    TagByte(fs[0], [fs[1]] + []);
    assert fs == [fs[0]] + ([fs[1]] + []);
  }

  function BlobPayloads<R>(x: External<R>, bs: seq<ConfigBlob<R>>): seq<seq<byte>> {
    seq(|bs|, i requires 0 <= i < |bs| => BlobBytes(x, bs[i]))
  }

  /** The bytes on the wire, with the tag bytes of the fields and the one-byte bool. */
  lemma ConfigWire<R>(x: External<R>, m: ConfigSpec<R>)
    ensures m.Encoding(x)
         == LifecycleBytes(m.lifecycle) + ([0x10] + VarintBytes(ToUint64(m.priority)) + (RevertiveBytes(m.revertive)
            + Repeated(0x22, BlobPayloads(x, m.config))))
  {
    hide FieldsBytes, Sized, VarintBytes, LifecycleBytes, RevertiveBytes, Repeated, BlobBytes;
    var p := NumberField(2, ToUint64(m.priority));
    var c := BoolField(3, m.revertive) + Blobs(x, m.config);
    forall b | b in m.config { BlobWire(x, b); }
    RepeatedBytes(4, Blobs(x, m.config), BlobPayloads(x, m.config));
    RevertiveInFront(m.revertive, Blobs(x, m.config));
    TagByte(p, c);
    LifecycleInFront(m.lifecycle, [p] + c);
    assert m.Fields(x) == LifecycleField(m.lifecycle) + ([p] + c);
  }

  // ----- Merge and round trip

  /** Lifecycle, when written, replaces in place what was there (its one field is always
      written); Priority is always replaced; Config is appended to. */
  function MergeConfig<R>(held: ConfigSpec<R>, m: ConfigSpec<R>): ConfigSpec<R> {
    ConfigSpec(
      if m.lifecycle == None then held.lifecycle else m.lifecycle,
      m.priority,
      if m.revertive == None then held.revertive else m.revertive,
      held.config + m.config)
  }

  lemma PutLifecycleField<R>(x: External<R>, held: ConfigSpec<R>, l: Option<Lifecycle>)
    requires l != None ==> |l.value.Encoding()| <= MAX_INT64
    ensures PutAll(ConfigSchema(x), held, LifecycleField(l))
         == Ok(held.(lifecycle := if l == None then held.lifecycle else l))
  {
    hide Decode, FieldsBytes;
    if l != None {
      LifecycleMerge(HeldLifecycle(held), l.value);
    }
  }

  lemma PutScalars<R>(x: External<R>, held: ConfigSpec<R>, p: int32, r: Option<bool>)
    ensures PutAll(ConfigSchema(x), held, [NumberField(2, ToUint64(p))] + BoolField(3, r))
         == Ok(held.(priority := p, revertive := if r == None then held.revertive else r))
  {
    var s, fs := ConfigSchema(x), [NumberField(2, ToUint64(p))] + BoolField(3, r);
    assert fs[1..] == BoolField(3, r);
    assert PutAll(s, held, fs) == PutAll(s, held.(priority := p), fs[1..]);
  }

  lemma PutBlobFields<R(!new)>(x: External<R>, held: ConfigSpec<R>, bs: seq<ConfigBlob<R>>)
    requires RoundTrips(x)
    requires forall c <- bs :: |c.Encoding(x)| <= MAX_INT64
    ensures PutAll(ConfigSchema(x), held, Blobs(x, bs)) == Ok(held.(config := held.config + bs))
  {
    hide FieldsBytes, Decode, PutAll, RoundTrips;
    forall c | c in bs { BlobRoundTrip(x, c); }
    PutRepeated(ConfigSchema(x), Blobs(x, bs), held.config, bs, ys => held.(config := ys));
  }

  lemma ConfigPayloads<R>(x: External<R>, m: ConfigSpec<R>)
    requires |m.Encoding(x)| <= MAX_INT64
    ensures AllFit(ConfigSchema(x), m.Fields(x))
    ensures m.lifecycle != None ==> |m.lifecycle.value.Encoding()| <= MAX_INT64
    ensures forall c <- m.config :: |c.Encoding(x)| <= MAX_INT64
  {
    hide FieldsBytes;
    var fs := m.Fields(x);
    PayloadsFit(fs);
    if m.lifecycle != None { assert fs[0] == TextField(1, m.lifecycle.value.Encoding()); }
    forall i | 0 <= i < |m.config|
      ensures |m.config[i].Encoding(x)| <= MAX_INT64
    {
      assert fs[|fs| - |m.config| + i] == TextField(4, m.config[i].Encoding(x));
    }
  }

  /** Decoding an encoding into a message that already holds a value. */
  lemma ConfigMerge<R(!new)>(x: External<R>, held: ConfigSpec<R>, m: ConfigSpec<R>)
    requires RoundTrips(x) && |m.Encoding(x)| <= MAX_INT64
    ensures Decode(ConfigSchema(x), held, m.Encoding(x)) == Ok(MergeConfig(held, m))
  {
    hide Decode, FieldsBytes, RoundTrips, PutAll;
    var s := ConfigSchema(x);
    ConfigPayloads(x, m);
    DecodeEncoded(s, held, m.Fields(x));
    var a, c := LifecycleField(m.lifecycle), Blobs(x, m.config);
    var b := [NumberField(2, ToUint64(m.priority))] + BoolField(3, m.revertive);
    assert m.Fields(x) == (a + b) + c;
    PutAllAppend(s, held, a + b, c);
    PutAllAppend(s, held, a, b);
    PutLifecycleField(x, held, m.lifecycle);
    var h1 := held.(lifecycle := if m.lifecycle == None then held.lifecycle else m.lifecycle);
    PutScalars(x, h1, m.priority, m.revertive);
    var h2 := h1.(priority := m.priority, revertive := if m.revertive == None then held.revertive else m.revertive);
    PutBlobFields(x, h2, m.config);
  }

  lemma ConfigRoundTrip<R(!new)>(x: External<R>, m: ConfigSpec<R>)
    requires RoundTrips(x) && |m.Encoding(x)| <= MAX_INT64
    ensures Decode(ConfigSchema(x), ConfigSpec(None, 0, None, []), m.Encoding(x)) == Ok(m)
  {
    hide Decode, FieldsBytes, RoundTrips;
    ConfigMerge(x, ConfigSpec(None, 0, None, []), m);
    assert [] + m.config == m.config;
  }

  lemma ConfigConcatenation<R(!new)>(x: External<R>, a: ConfigSpec<R>, b: ConfigSpec<R>)
    requires RoundTrips(x) && |a.Encoding(x)| + |b.Encoding(x)| <= MAX_INT64
    ensures Decode(ConfigSchema(x), ConfigSpec(None, 0, None, []), a.Encoding(x) + b.Encoding(x))
         == Ok(MergeConfig(a, b))
  {
    hide Decode, FieldsBytes, RoundTrips;
    ConfigRoundTrip(x, a);
    ConfigMerge(x, a, b);
    DecodeAppend(ConfigSchema(x), ConfigSpec(None, 0, None, []), a.Encoding(x), b.Encoding(x));
  }
}
