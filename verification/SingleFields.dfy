/** What each message's Unmarshal does with one field, by field number and wire type, for every
    well-formed field: stored in its place, refused, or skipped. With Codec.DecodeAppend this
    fixes what Unmarshal does with any sequence of fields. */
module SingleFields {
  import opened GoInt
  import opened Varint
  import opened Skip
  import opened Codec
  import opened Grammar
  import opened DeviationMessages
  import CS = ConfigSpecMessages
  import CD = ClearDeviationMessages

  /** A field with a number that tags can have, alone in a buffer. */
  predicate Alone(f: WireField) {
    WellFormed(f) && NumberOf(f) > 0 && |Bytes(f)| <= MAX_INT64
  }

  /** The number a scalar field holds, in a uint64. */
  function Scalar64(f: WireField): nat
    requires WellFormed(f) && f.Scalar?
  {
    ReadVarint(f.number).value.value % TWO_64
  }

  lemma ByKind<M>(s: Schema<M>, m: M, f: WireField)
    requires Alone(f)
    ensures var num, r, left := NumberOf(f), Decode(s, m, Bytes(f)), Left(s, m, Bytes(f));
            match s.kind(num)
            case Unknown => r == Ok(m)
            case Payload =>
              if f.Delimited? then r == s.putText(m, num, f.payload) && (r.Err? ==> left == s.left(m, num, f.payload))
              else r == Err(WrongWireType) && left == m
            case Number =>
              if f.Scalar? then r == Ok(s.putNumber(m, num, Scalar64(f))) else r == Err(WrongWireType) && left == m
  {
    hide Decode, Left, WellFormed, Bytes, ReadVarint, NumberOf;
    if Allowed(s, f) {
      AllowedAlone(s, m, f);
      if Apply(s, m, f).Err? { AllowedLeft(s, m, f); }
    } else {
      WrongTypeAlone(s, m, f);
    }
  }

  lemma DeviationField(m: ConfigDeviation, f: WireField)
    requires Alone(f)
    ensures Decode(DeviationSchema(), m, Bytes(f))
         == if NumberOf(f) > 4 then Ok(m)
            else if !f.Delimited? then Err(WrongWireType)
            else
              match NumberOf(f)
              case 1 => Ok(m.(path := f.payload))
              case 2 => Ok(m.(desiredValue := Some(f.payload)))
              case 3 => Ok(m.(actualValue := Some(f.payload)))
              case 4 => Ok(m.(reason := f.payload))
    ensures Decode(DeviationSchema(), m, Bytes(f)).Err? ==> Left(DeviationSchema(), m, Bytes(f)) == m
  {
    hide Decode, Left, WellFormed, Bytes, NumberOf;
    ByKind(DeviationSchema(), m, f);
  }

  lemma SpecField(m: DeviationSpec, f: WireField)
    requires Alone(f)
    ensures var r, left := Decode(SpecSchema(), m, Bytes(f)), Left(SpecSchema(), m, Bytes(f));
            if NumberOf(f) > 2 then r == Ok(m)
            else if !f.Delimited? then r == Err(WrongWireType) && left == m
            else if NumberOf(f) == 1 then r == Ok(m.(deviationType := Some(f.payload)))
            else
              var zero := ConfigDeviation([], None, None, []);
              match Decode(DeviationSchema(), zero, f.payload)
              case Ok(d) => r == Ok(m.(deviations := m.deviations + [d]))
              case Err(e) =>
                r == Err(e) && left == m.(deviations := m.deviations + [Left(DeviationSchema(), zero, f.payload)])
  {
    hide Decode, Left, WellFormed, Bytes, NumberOf;
    ByKind(SpecSchema(), m, f);
  }

  lemma LifecycleField(m: CS.Lifecycle, f: WireField)
    requires Alone(f)
    ensures Decode(CS.LifecycleSchema(), m, Bytes(f))
         == if NumberOf(f) > 1 then Ok(m)
            else if !f.Delimited? then Err(WrongWireType)
            else Ok(m.(deletionPolicy := f.payload))
    ensures Decode(CS.LifecycleSchema(), m, Bytes(f)).Err? ==> Left(CS.LifecycleSchema(), m, Bytes(f)) == m
  {
    hide Decode, Left, WellFormed, Bytes, NumberOf;
    ByKind(CS.LifecycleSchema(), m, f);
  }

  lemma BlobField<R>(x: CS.External<R>, m: CS.ConfigBlob<R>, f: WireField)
    requires Alone(f)
    ensures var r, left := Decode(CS.BlobSchema(x), m, Bytes(f)), Left(CS.BlobSchema(x), m, Bytes(f));
            if NumberOf(f) > 2 then r == Ok(m)
            else if !f.Delimited? then r == Err(WrongWireType) && left == m
            else if NumberOf(f) == 1 then r == Ok(m.(path := f.payload))
            else
              match x.decode(m.value, f.payload)
              case Ok(v) => r == Ok(m.(value := v))
              case Err(e) => r == Err(e) && left == m.(value := x.left(m.value, f.payload))
  {
    hide Decode, Left, WellFormed, Bytes, NumberOf;
    ByKind(CS.BlobSchema(x), m, f);
  }

  /** Priority is read from the low 32 bits of any number; any non-zero number is true. */
  lemma ConfigField<R>(x: CS.External<R>, m: CS.ConfigSpec<R>, f: WireField)
    requires Alone(f)
    ensures var r, left := Decode(CS.ConfigSchema(x), m, Bytes(f)), Left(CS.ConfigSchema(x), m, Bytes(f));
            match NumberOf(f)
            case 1 =>
              if !f.Delimited? then r == Err(WrongWireType) && left == m
              else
                var held := if m.lifecycle == None then CS.Lifecycle([]) else m.lifecycle.value;
                (match Decode(CS.LifecycleSchema(), held, f.payload)
                 case Ok(l) => r == Ok(m.(lifecycle := Some(l)))
                 case Err(e) =>
                   r == Err(e) && left == m.(lifecycle := Some(Left(CS.LifecycleSchema(), held, f.payload))))
            case 2 =>
              if !f.Scalar? then r == Err(WrongWireType) && left == m
              else r == Ok(m.(priority := ToInt32(Scalar64(f))))
            case 3 =>
              if !f.Scalar? then r == Err(WrongWireType) && left == m
              else r == Ok(m.(revertive := Some(Scalar64(f) != 0)))
            case 4 =>
              if !f.Delimited? then r == Err(WrongWireType) && left == m
              else
                var zero := CS.ConfigBlob([], x.zero);
                (match Decode(CS.BlobSchema(x), zero, f.payload)
                 case Ok(c) => r == Ok(m.(config := m.config + [c]))
                 case Err(e) =>
                   r == Err(e) && left == m.(config := m.config + [Left(CS.BlobSchema(x), zero, f.payload)]))
            case _ => r == Ok(m)
  {
    hide Decode, Left, WellFormed, Bytes, NumberOf, Scalar64, ToInt32;
    ByKind(CS.ConfigSchema(x), m, f);
  }

  /** A priority that is cut short: the bits that came are kept. */
  lemma ShortPriority<R>(x: CS.External<R>, m: CS.ConfigSpec<R>)
    ensures Decode(CS.ConfigSchema(x), m, [0x10, 0x85]) == Err(UnexpectedEOF)
    ensures Left(CS.ConfigSchema(x), m, [0x10, 0x85]) == m.(priority := 5)
  {
    var b: seq<byte> := [0x10, 0x85];
    assert b[1..] == [0x85] && [0x85][1..] == [];
    assert ReadVarint(b) == Ok(Read(0x10, 1));
    assert ReadVarint([0x85], 10) == Err(UnexpectedEOF) && Gathered([0x85], 10) == 5;
    assert ReadHead(b) == Ok(Head(2, 0, 1));
    hide ReadVarint, ReadHead, Gathered;
    assert DecodeField(CS.ConfigSchema(x), m, 0, b) == Err(UnexpectedEOF);
  }

  lemma ResultField(m: CD.ConfigResult, f: WireField)
    requires Alone(f)
    ensures Decode(CD.ResultSchema(), m, Bytes(f))
         == match NumberOf(f)
            case 1 => if f.Delimited? then Ok(m.(name := f.payload)) else Err(WrongWireType)
            case 2 => if f.Scalar? then Ok(m.(success := Scalar64(f) != 0)) else Err(WrongWireType)
            case 3 => if f.Delimited? then Ok(m.(message := f.payload)) else Err(WrongWireType)
            case 4 => if f.Delimited? then Ok(m.(errors := m.errors + [f.payload])) else Err(WrongWireType)
            case 5 => if f.Delimited? then Ok(m.(warnings := m.warnings + [f.payload])) else Err(WrongWireType)
            case _ => Ok(m)
    ensures Decode(CD.ResultSchema(), m, Bytes(f)).Err? ==> Left(CD.ResultSchema(), m, Bytes(f)) == m
  {
    hide Decode, Left, WellFormed, Bytes, NumberOf, Scalar64;
    ByKind(CD.ResultSchema(), m, f);
  }

  lemma StatusField(m: CD.Status, f: WireField)
    requires Alone(f)
    ensures var r, left := Decode(CD.StatusSchema(), m, Bytes(f)), Left(CD.StatusSchema(), m, Bytes(f));
            if NumberOf(f) > 3 then r == Ok(m)
            else if !f.Delimited? then r == Err(WrongWireType) && left == m
            else
              match NumberOf(f)
              case 1 => r == Ok(m.(message := f.payload))
              case 2 => r == Ok(m.(warnings := m.warnings + [f.payload]))
              case 3 =>
                var zero := CD.ConfigResult([], false, [], [], []);
                match Decode(CD.ResultSchema(), zero, f.payload)
                case Ok(c) => r == Ok(m.(results := m.results + [c]))
                case Err(e) =>
                  r == Err(e) && left == m.(results := m.results + [Left(CD.ResultSchema(), zero, f.payload)])
  {
    hide Decode, Left, WellFormed, Bytes, NumberOf;
    ByKind(CD.StatusSchema(), m, f);
  }
}
