/** The steps the generated methods repeat inline: reading a tag, a payload or an unknown
    field at iNdEx, and writing a field in front of what a buffer's tail already holds. */
module Buffer {
  import opened GoInt
  import opened Varint
  import opened Skip
  import opened Codec

  // ----- Reading at iNdEx

  method ReadTag(dAtA: seq<byte>, iNdEx: nat) returns (r: Result<Head>)
    requires iNdEx <= |dAtA| <= MAX_INT64
    ensures r == ReadHead(dAtA[iNdEx..])
  {
    var tag := DecodeUint64(dAtA, iNdEx);
    if tag.Err? { return Err(tag.error); }
    var wire := tag.value.value;
    var fieldNum := ToInt32(wire / 8);
    var wireType := wire % 8;
    if wireType == 4 { return Err(EndGroupOutsideGroup); }
    if fieldNum <= 0 { return Err(IllegalTag); }
    return Ok(Head(fieldNum, wireType, tag.value.size));
  }

  /** The payload's bounds are relative to iNdEx. */
  method ReadText(dAtA: seq<byte>, iNdEx: nat) returns (r: Result<(nat, nat)>)
    requires iNdEx <= |dAtA| <= MAX_INT64
    ensures r == TextSize(iNdEx, dAtA[iNdEx..])
  {
    hide ReadVarint;
    var v := DecodeUint64(dAtA, iNdEx);
    if v.Err? { return Err(v.error); }
    var length := ToInt64(v.value.value);
    if length < 0 { return Err(InvalidLength); }
    var from := iNdEx + v.value.size;
    var postIndex := AddInt(from, length);
    if postIndex < 0 { return Err(InvalidLength); }
    if postIndex > |dAtA| { return Err(UnexpectedEOF); }
    return Ok((v.value.size, postIndex - iNdEx));
  }

  method SkipUnknown(dAtA: seq<byte>, iNdEx: nat) returns (r: Result<nat>)
    requires iNdEx <= |dAtA| <= MAX_INT64
    ensures r == UnknownSize(iNdEx, dAtA[iNdEx..])
  {
    hide SkipFrom;
    var skippy, err := SkipGenerated(dAtA[iNdEx..]);
    if err != None { return Err(err.value); }
    if skippy < 0 || AddInt(iNdEx, skippy) < 0 { return Err(InvalidLength); }
    if AddInt(iNdEx, skippy) > |dAtA| { return Err(UnexpectedEOF); }
    return Ok(skippy);
  }

  // ----- Writing in front of the tail

  /** dAtA[i..hi] holds the fields of `all` from the k-th on, and there is room for the rest. */
  ghost predicate Holds(dAtA: array<byte>, i: nat, hi: nat, all: seq<Field>, k: nat)
    reads dAtA
  {
    && k <= |all|
    && i <= hi <= dAtA.Length
    && |FieldsBytes(all)| <= hi
    && dAtA[i..hi] == FieldsBytes(all[k..])
  }

  lemma SuffixSize(all: seq<Field>, k: nat)
    requires k <= |all|
    ensures |FieldsBytes(all[k..])| <= |FieldsBytes(all)|
  {
    hide FieldsBytes;
    FieldsBytesAppend(all[..k], all[k..]);
    assert all[..k] + all[k..] == all;
  }

  lemma FieldInFront(all: seq<Field>, k: nat)
    requires 1 <= k <= |all|
    ensures FieldsBytes(all[k - 1..]) == FieldBytes(all[k - 1]) + FieldsBytes(all[k..])
    ensures |FieldBytes(all[k - 1])| + |FieldsBytes(all[k..])| <= |FieldsBytes(all)|
  {
    hide FieldBytes;
    assert all[k - 1..][1..] == all[k..];
    SuffixSize(all, k - 1);
  }

  /** A length-delimited value after its tag byte. */
  function Sized(payload: seq<byte>): seq<byte> {
    VarintBytes(|payload|) + payload
  }

  /** A field written with its tag byte, in front of the rest. */
  lemma TagByte(f: Field, rest: seq<Field>)
    requires 1 <= f.num < 16
    ensures f.TextField? ==> FieldsBytes([f] + rest) == [8 * f.num + 2] + Sized(f.payload) + FieldsBytes(rest)
    ensures f.NumberField? ==> FieldsBytes([f] + rest) == [8 * f.num] + VarintBytes(f.value) + FieldsBytes(rest)
  {
    hide VarintBytes, FieldsBytes;
    ShortTag(f, FieldsBytes(rest));
    FieldsBytesAppend([f], rest);
    ShortTag(f, []);
    JustOne(f);
  }

  /** Length-delimited values one after the other, each after the same tag byte. */
  function Repeated(tag: byte, payloads: seq<seq<byte>>): seq<byte> {
    if payloads == [] then [] else [tag] + Sized(payloads[0]) + Repeated(tag, payloads[1..])
  }

  lemma {:induction false} RepeatedBytes(num: nat, fs: seq<Field>, payloads: seq<seq<byte>>)
    requires 1 <= num < 16 && |fs| == |payloads|
    requires forall i :: 0 <= i < |fs| ==> fs[i] == TextField(num, payloads[i])
    ensures FieldsBytes(fs) == Repeated(8 * num + 2, payloads)
    decreases |fs|
  {
    hide FieldsBytes, Sized;
    if fs == [] {
      NoFields();
    } else {
      TagByte(fs[0], fs[1..]);
      assert fs == [fs[0]] + fs[1..];
      RepeatedBytes(num, fs[1..], payloads[1..]);
    }
  }

  lemma JustOne(f: Field)
    ensures FieldsBytes([f]) == FieldBytes(f)
  {
    hide FieldBytes;
    assert [f][1..] == [];
  }

  /** One field's share of Size(). */
  lemma OneField(f: Field)
    requires 1 <= f.num < 16
    ensures |FieldsBytes([f])| == if f.TextField? then 1 + |f.payload| + Sov(|f.payload|) else 1 + Sov(f.value)
  {
    hide Sov, FieldBytes;
    ShortTag(f, []);
    assert FieldsBytes([f]) == FieldBytes(f) + FieldsBytes([]);
  }

  lemma NoFields()
    ensures FieldsBytes([]) == []
  {
  }

  lemma AllWritten(dAtA: array<byte>, i: nat, hi: nat, all: seq<Field>)
    requires Holds(dAtA, i, hi, all, 0)
    ensures i + |FieldsBytes(all)| == hi && dAtA[i..hi] == FieldsBytes(all)
  {
    hide FieldsBytes;
    assert all[0..] == all;
  }

  /** There is room for the payload of the next field to write. */
  lemma RoomForPayload(dAtA: array<byte>, i: nat, hi: nat, all: seq<Field>, k: nat)
    requires Holds(dAtA, i, hi, all, k) && k >= 1 && all[k - 1].TextField? && 1 <= all[k - 1].num < 16
    ensures |all[k - 1].payload| <= i
  {
    hide FieldsBytes, FieldBytes, Sov;
    FieldInFront(all, k);
    ShortTag(all[k - 1], []);
  }

  lemma EmptyTail(dAtA: array<byte>, hi: nat, all: seq<Field>)
    requires |FieldsBytes(all)| <= hi <= dAtA.Length
    ensures Holds(dAtA, hi, hi, all, |all|)
  {
    assert all[|all|..] == [];
  }

  /** A field whose tag takes one byte, in front of what follows it. */
  lemma ShortTag(f: Field, tail: seq<byte>)
    requires 1 <= f.num < 16
    ensures |FieldBytes(f)| == if f.TextField? then 1 + Sov(|f.payload|) + |f.payload| else 1 + Sov(f.value)
    ensures FieldBytes(f) + tail
         == match f
            case TextField(_, payload) => [TagOf(f)] + VarintBytes(|payload|) + (payload + tail)
            case NumberField(_, value) => [TagOf(f)] + VarintBytes(value) + tail
  {
    assert VarintBytes(TagOf(f)) == [TagOf(f)];
    hide VarintBytes, Sov;
    SovIsLength(if f.TextField? then |f.payload| else f.value);
  }

  /** A varint and, in front of it, a one-byte tag. */
  method PutPrefix(dAtA: array<byte>, p: nat, tag: byte, v: nat, ghost hi: nat) returns (j: nat)
    requires 1 + Sov(v) <= p <= hi <= dAtA.Length
    modifies dAtA
    ensures j + 1 + Sov(v) == p
    ensures dAtA[j..hi] == [tag] + VarintBytes(v) + old(dAtA[p..hi])
    ensures OnlyWrote(dAtA, j, p)
  {
    hide Sov, VarintBytes;
    SovIsLength(v);
    j := EncodeVarint(dAtA, p, v);
    assert dAtA[j..hi] == VarintBytes(v) + old(dAtA[p..hi]);
    ghost var number := dAtA[j..hi];
    j := j - 1;
    dAtA[j] := tag;
    assert dAtA[j + 1..hi] == number;
    assert dAtA[j..hi] == [tag] + number;
  }

  /** The length and tag of a payload that stands at dAtA[p..i]. */
  method PutHeader(dAtA: array<byte>, p: nat, num: nat, size: nat,
                   ghost i: nat, ghost hi: nat, ghost all: seq<Field>, ghost k: nat)
    returns (j: nat)
    requires p <= i && size == i - p && Holds(dAtA, i, hi, all, k)
    requires 1 <= num < 16 && k >= 1 && all[k - 1] == TextField(num, dAtA[p..i])
    modifies dAtA
    ensures Holds(dAtA, j, hi, all, k - 1)
    ensures OnlyWrote(dAtA, j, p)
  {
    hide Sov, FieldsBytes, VarintBytes, FieldBytes;
    FieldInFront(all, k);
    ShortTag(all[k - 1], dAtA[i..hi]);
    assert dAtA[p..hi] == dAtA[p..i] + dAtA[i..hi];
    j := PutPrefix(dAtA, p, 8 * num + 2, size, hi);
  }

  /** copy(dAtA[p:], payload). */
  method Copy(dAtA: array<byte>, p: nat, payload: seq<byte>)
    requires p + |payload| <= dAtA.Length
    modifies dAtA
    ensures dAtA[p..p + |payload|] == payload
    ensures OnlyWrote(dAtA, p, p + |payload|)
  {
    forall q | 0 <= q < |payload| {
      dAtA[p + q] := payload[q];
    }
  }

  method PutText(dAtA: array<byte>, i: nat, num: nat, payload: seq<byte>,
                 ghost hi: nat, ghost all: seq<Field>, ghost k: nat)
    returns (j: nat)
    requires Holds(dAtA, i, hi, all, k)
    requires 1 <= num < 16 && k >= 1 && all[k - 1] == TextField(num, payload)
    modifies dAtA
    ensures Holds(dAtA, j, hi, all, k - 1)
    ensures OnlyWrote(dAtA, j, i)
  {
    hide Sov, FieldsBytes, VarintBytes, FieldBytes;
    FieldInFront(all, k);
    ShortTag(all[k - 1], []);
    var p := i - |payload|;
    Copy(dAtA, p, payload);
    assert dAtA[i..hi] == old(dAtA[i..hi]);
    j := PutHeader(dAtA, p, num, |payload|, i, hi, all, k);
  }

  method PutNumber(dAtA: array<byte>, i: nat, num: nat, value: nat,
                   ghost hi: nat, ghost all: seq<Field>, ghost k: nat)
    returns (j: nat)
    requires Holds(dAtA, i, hi, all, k)
    requires 1 <= num < 16 && k >= 1 && all[k - 1] == NumberField(num, value)
    modifies dAtA
    ensures Holds(dAtA, j, hi, all, k - 1)
    ensures OnlyWrote(dAtA, j, i)
  {
    hide Sov, FieldsBytes, VarintBytes, FieldBytes;
    FieldInFront(all, k);
    ShortTag(all[k - 1], dAtA[i..hi]);
    j := PutPrefix(dAtA, i, 8 * num, value, hi);
  }
}
