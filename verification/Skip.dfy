/** skipGenerated: which byte strings it accepts, and how far it moves. */
module Skip {
  import opened GoInt
  import opened Varint

  /** One turn of the loop: the bytes it moves over (possibly past the end of the
      buffer) and the group depth after it. */
  datatype Hop = Hop(size: nat, depth: nat)

  /** int(wire & 0x7), for the uint64 that holds a decoded tag. */
  function WireType(raw: nat): nat {
    raw % TWO_64 % 8
  }

  /** A decoded length, read as int. */
  function LengthOf(raw: nat): int {
    ToInt64(raw % TWO_64)
  }

  function SkipHop(b: seq<byte>, depth: nat): (r: Result<Hop>)
    ensures r.Ok? ==> 1 <= r.value.size <= |b| + MAX_INT64
  {
    match ReadVarint(b)
    case Err(e) => Err(e)
    case Ok(tag) => HopAfterTag(WireType(tag.value), tag.size, b[tag.size..], depth)
  }

  function HopAfterTag(wireType: nat, size: nat, rest: seq<byte>, depth: nat): (r: Result<Hop>)
    ensures r.Ok? ==> size <= r.value.size <= size + |rest| + MAX_INT64
  {
    match wireType
    case 0 => (match ReadVarint(rest)
               case Err(e) => Err(e)
               case Ok(v) => Ok(Hop(size + v.size, depth)))
    case 1 => Ok(Hop(size + 8, depth))
    case 2 => (match ReadVarint(rest)
               case Err(e) => Err(e)
               case Ok(v) =>
                 var length := LengthOf(v.value);
                 if length < 0 then Err(InvalidLength) else Ok(Hop(size + v.size + length, depth)))
    case 3 => Ok(Hop(size, depth + 1))
    case 4 => if depth == 0 then Err(UnexpectedEndOfGroup) else Ok(Hop(size, depth - 1))
    case 5 => Ok(Hop(size + 4, depth))
    case _ => Err(IllegalWireType)
  }

  /** The rest of a skip that stands at index `at` with the bytes b left: the index it
      returns, which the caller still has to compare with the end of the buffer. */
  function SkipFrom(at: nat, b: seq<byte>, depth: nat): (r: Result<nat>)
    requires at + |b| <= MAX_INT64
    ensures r.Ok? ==> at < r.value <= MAX_INT64
    decreases |b|
  {
    if b == [] then Err(UnexpectedEOF)
    else
      match SkipHop(b, depth)
      case Err(e) => Err(e)
      case Ok(hop) =>
        if AddInt(at, hop.size) < 0 then Err(InvalidLength)
        else if hop.depth == 0 then Ok(at + hop.size)
        else if hop.size >= |b| then Err(UnexpectedEOF)
        else SkipFrom(at + hop.size, b[hop.size..], hop.depth)
  }

  method SkipGenerated(dAtA: seq<byte>) returns (n: int, err: Option<Error>)
    requires |dAtA| <= MAX_INT64
    ensures match SkipFrom(0, dAtA, 0)
            case Ok(i) => n == i && err == None
            case Err(e) => n == 0 && err == Some(e)
  {
    var l := |dAtA|;
    var iNdEx := 0;
    var depth := 0;
    while iNdEx < l
      invariant 0 <= iNdEx <= MAX_INT64 && depth >= 0
      invariant SkipFrom(0, dAtA, 0)
             == if iNdEx < l then SkipFrom(iNdEx, dAtA[iNdEx..], depth) else Err(UnexpectedEOF)
      decreases l - iNdEx
    {
      ghost var at, b := iNdEx, dAtA[iNdEx..];
      var tag := DecodeUint64(dAtA, iNdEx);
      if tag.Err? { return 0, Some(tag.error); }
      iNdEx := iNdEx + tag.value.size;
      assert dAtA[iNdEx..] == b[tag.value.size..];
      iNdEx, depth, err := SkipValue(dAtA, iNdEx, tag.value.value % 8, depth, tag.value.size);
      if err != None { return 0, err; }
      if iNdEx < 0 { return 0, Some(InvalidLength); }
      if depth == 0 { return iNdEx, None; }
      assert iNdEx < l ==> b[iNdEx - at..] == dAtA[iNdEx..];
    }
    return 0, Some(UnexpectedEOF);
  }

  /** The switch on the wire type. */
  method SkipValue(dAtA: seq<byte>, start: nat, wireType: nat, d: nat, ghost tagSize: nat)
    returns (iNdEx: int, depth: nat, err: Option<Error>)
    requires tagSize <= start <= |dAtA| <= MAX_INT64
    ensures match HopAfterTag(wireType, tagSize, dAtA[start..], d)
            case Ok(hop) => err == None && iNdEx == AddInt(start - tagSize, hop.size) && depth == hop.depth
            case Err(e) => err == Some(e)
    ensures err == None && iNdEx >= 0 ==> start <= iNdEx <= MAX_INT64
  {
    iNdEx, depth, err := start, d, None;
    match wireType {
      case 0 =>
        var v := DecodeUint64(dAtA, iNdEx);
        if v.Err? { err := Some(v.error); return; }
        iNdEx := iNdEx + v.value.size;
      case 1 =>
        iNdEx := AddInt(iNdEx, 8);
      case 2 =>
        var v := DecodeUint64(dAtA, iNdEx);
        if v.Err? { err := Some(v.error); return; }
        iNdEx := iNdEx + v.value.size;
        var length := ToInt64(v.value.value);
        if length < 0 { err := Some(InvalidLength); return; }
        iNdEx := AddInt(iNdEx, length);
      case 3 =>
        depth := depth + 1;
      case 4 =>
        if depth == 0 { err := Some(UnexpectedEndOfGroup); return; }
        depth := depth - 1;
      case 5 =>
        iNdEx := AddInt(iNdEx, 4);
      case _ =>
        err := Some(IllegalWireType);
    }
  }

  /** A field as it stands in a buffer, unknown to the reader: any tag, and for a group
      any list of fields up to an end tag. */
  datatype WireField =
    | Scalar(tag: seq<byte>, number: seq<byte>)
    | Fixed64(tag: seq<byte>, bytes: seq<byte>)
    | Delimited(tag: seq<byte>, length: seq<byte>, payload: seq<byte>)
    | Group(tag: seq<byte>, fields: seq<WireField>, end: seq<byte>)
    | Fixed32(tag: seq<byte>, bytes: seq<byte>)

  /** b is one varint, not necessarily the shortest for its value. */
  predicate IsVarint(b: seq<byte>) {
    var r := ReadVarint(b);
    r.Ok? && r.value.size == |b|
  }

  predicate IsTag(b: seq<byte>, wireType: nat) {
    IsVarint(b) && WireType(ReadVarint(b).value.value) == wireType
  }

  predicate WellFormed(f: WireField) {
    match f
    case Scalar(tag, number) => IsTag(tag, 0) && IsVarint(number)
    case Fixed64(tag, bytes) => IsTag(tag, 1) && |bytes| == 8
    case Delimited(tag, length, payload) =>
      IsTag(tag, 2) && IsVarint(length) && LengthOf(ReadVarint(length).value.value) == |payload|
    case Group(tag, fields, end) =>
      IsTag(tag, 3) && IsTag(end, 4) && AllWellFormed(fields)
    case Fixed32(tag, bytes) => IsTag(tag, 5) && |bytes| == 4
  }

  predicate AllWellFormed(fs: seq<WireField>) {
    fs == [] || (WellFormed(fs[0]) && AllWellFormed(fs[1..]))
  }

  function Bytes(f: WireField): (b: seq<byte>)
    ensures WellFormed(f) ==> |b| >= 1
  {
    match f
    case Scalar(tag, number) => tag + number
    case Fixed64(tag, bytes) => tag + bytes
    case Delimited(tag, length, payload) => tag + length + payload
    case Group(tag, fields, end) => tag + (BytesAll(fields) + end)
    case Fixed32(tag, bytes) => tag + bytes
  }

  function BytesAll(fs: seq<WireField>): seq<byte> {
    if fs == [] then [] else Bytes(fs[0]) + BytesAll(fs[1..])
  }

  lemma VarintAtFront(v: seq<byte>, rest: seq<byte>)
    requires IsVarint(v)
    ensures ReadVarint(v + rest) == ReadVarint(v)
    ensures (v + rest)[|v|..] == rest
  {
    hide ReadVarint;
    ReadVarintPrefix(v, rest, 10);
  }

  lemma HopTag(tag: seq<byte>, wireType: nat, rest: seq<byte>, depth: nat)
    requires IsTag(tag, wireType)
    ensures SkipHop(tag + rest, depth) == HopAfterTag(wireType, |tag|, rest, depth)
  {
    hide ReadVarint;
    VarintAtFront(tag, rest);
  }

  lemma HopField(f: WireField, rest: seq<byte>, depth: nat)
    requires WellFormed(f) && !f.Group?
    ensures SkipHop(Bytes(f) + rest, depth) == Ok(Hop(|Bytes(f)|, depth))
  {
    hide ReadVarint;
    match f
    case Scalar(tag, number) =>
      assert Bytes(f) + rest == tag + (number + rest);
      HopTag(tag, 0, number + rest, depth);
      VarintAtFront(number, rest);
    case Delimited(tag, length, payload) =>
      assert Bytes(f) + rest == tag + (length + (payload + rest));
      HopTag(tag, 2, length + (payload + rest), depth);
      VarintAtFront(length, payload + rest);
    case Fixed64(tag, bytes) =>
      assert Bytes(f) + rest == tag + (bytes + rest);
      HopTag(tag, 1, bytes + rest, depth);
    case Fixed32(tag, bytes) =>
      assert Bytes(f) + rest == tag + (bytes + rest);
      HopTag(tag, 5, bytes + rest, depth);
  }

  lemma SkipStep(at: nat, b: seq<byte>, depth: nat, hop: Hop)
    requires at + |b| <= MAX_INT64
    requires SkipHop(b, depth) == Ok(hop) && hop.size <= |b|
    ensures SkipFrom(at, b, depth) == SkipOn(at + hop.size, b[hop.size..], hop.depth)
  {
  }

  /** The loop's exits, then its guard. */
  function SkipOn(at: nat, b: seq<byte>, depth: nat): Result<nat>
    requires at + |b| <= MAX_INT64
  {
    if depth == 0 then Ok(at) else SkipFrom(at, b, depth)
  }

  lemma SkipsGroup(at: nat, tag: seq<byte>, inner: seq<byte>, end: seq<byte>, rest: seq<byte>, depth: nat)
    requires IsTag(tag, 3) && IsTag(end, 4)
    requires at + |tag| + |inner| + |end| + |rest| <= MAX_INT64
    requires SkipFrom(at + |tag|, inner + (end + rest), depth + 1)
          == SkipFrom(at + |tag| + |inner|, end + rest, depth + 1)
    ensures SkipFrom(at, tag + (inner + end) + rest, depth) == SkipOn(at + |tag| + |inner| + |end|, rest, depth)
  {
    hide SkipFrom, SkipHop;
    assert tag + (inner + end) + rest == tag + (inner + (end + rest));
    HopTag(tag, 3, inner + (end + rest), depth);
    SkipStep(at, tag + (inner + (end + rest)), depth, Hop(|tag|, depth + 1));
    assert (tag + (inner + (end + rest)))[|tag|..] == inner + (end + rest);
    HopTag(end, 4, rest, depth + 1);
    SkipStep(at + |tag| + |inner|, end + rest, depth + 1, Hop(|end|, depth));
    assert (end + rest)[|end|..] == rest;
  }

  /** The loop moves over a whole field and stays at the depth it had. */
  lemma {:induction false} SkipsField(at: nat, f: WireField, rest: seq<byte>, depth: nat)
    requires WellFormed(f)
    requires at + |Bytes(f)| + |rest| <= MAX_INT64
    ensures SkipFrom(at, Bytes(f) + rest, depth) == SkipOn(at + |Bytes(f)|, rest, depth)
    decreases f, 1
  {
    hide SkipFrom, SkipHop;
    if f.Group? {
      var inner := BytesAll(f.fields);
      SkipsFields(at + |f.tag|, f.fields, f.end + rest, depth + 1);
      SkipsGroup(at, f.tag, inner, f.end, rest, depth);
      assert Bytes(f) == f.tag + (inner + f.end);
    } else {
      HopField(f, rest, depth);
      SkipStep(at, Bytes(f) + rest, depth, Hop(|Bytes(f)|, depth));
      assert (Bytes(f) + rest)[|Bytes(f)|..] == rest;
    }
  }

  lemma {:induction false} SkipsFields(at: nat, fs: seq<WireField>, rest: seq<byte>, depth: nat)
    requires AllWellFormed(fs)
    requires at + |BytesAll(fs)| + |rest| <= MAX_INT64
    requires depth > 0
    ensures SkipFrom(at, BytesAll(fs) + rest, depth) == SkipFrom(at + |BytesAll(fs)|, rest, depth)
    decreases fs, 0
  {
    hide SkipFrom, SkipHop, WellFormed, Bytes;
    if fs == [] {
      assert BytesAll(fs) + rest == rest;
    } else {
      var tail := BytesAll(fs[1..]) + rest;
      assert BytesAll(fs) + rest == Bytes(fs[0]) + tail;
      SkipsField(at, fs[0], tail, depth);
      SkipsFields(at + |Bytes(fs[0])|, fs[1..], rest, depth);
    }
  }

  /** A varint in front of b, cut out. */
  lemma CutVarint(b: seq<byte>) returns (v: seq<byte>)
    requires ReadVarint(b).Ok?
    ensures v == b[..ReadVarint(b).value.size] && ReadVarint(v) == ReadVarint(b)
  {
    v := b[..ReadVarint(b).value.size];
    ReadVarintAlone(b, 10);
  }

  /** What one turn of the loop moved over: a field that opens no group, or a group's tag. */
  lemma HopInverse(b: seq<byte>, depth: nat, hop: Hop) returns (f: WireField)
    requires SkipHop(b, depth) == Ok(hop) && hop.size <= |b|
    ensures hop.depth == depth ==> WellFormed(f) && Bytes(f) == b[..hop.size]
    ensures hop.depth == depth + 1 ==> IsTag(b[..hop.size], 3)
    ensures hop.depth == depth - 1 ==> IsTag(b[..hop.size], 4)
    ensures depth - 1 <= hop.depth <= depth + 1
  {
    hide ReadVarint;
    var tag := CutVarint(b);
    var rest := b[|tag|..];
    assert b[..hop.size] == tag + rest[..hop.size - |tag|];
    match WireType(ReadVarint(b).value.value) {
      case 0 =>
        var v := CutVarint(rest);
        f := Scalar(tag, v);
      case 2 =>
        f := DelimitedInverse(tag, rest, hop.size - |tag|);
      case 1 =>
        f := Fixed64(tag, rest[..8]);
      case 5 =>
        f := Fixed32(tag, rest[..4]);
      case _ =>
        f := Scalar(tag, tag);
        assert rest[..hop.size - |tag|] == [];
    }
  }

  lemma DelimitedInverse(tag: seq<byte>, rest: seq<byte>, n: nat) returns (f: WireField)
    requires IsTag(tag, 2) && ReadVarint(rest).Ok? && ReadVarint(rest).value.size <= n <= |rest|
    requires n - ReadVarint(rest).value.size == LengthOf(ReadVarint(rest).value.value)
    ensures WellFormed(f) && !f.Group? && Bytes(f) == tag + rest[..n]
  {
    hide ReadVarint;
    var v := CutVarint(rest);
    f := Delimited(tag, v, rest[|v|..n]);
    assert rest[..n] == v + rest[|v|..n];
  }

  /** The open groups of a skip, innermost first: the fields left in each and its end tag. */
  datatype Level = Level(fields: seq<WireField>, end: seq<byte>)

  predicate AllClosed(ls: seq<Level>) {
    ls == [] || (AllWellFormed(ls[0].fields) && IsTag(ls[0].end, 4) && AllClosed(ls[1..]))
  }

  function LevelBytes(ls: seq<Level>): seq<byte> {
    if ls == [] then [] else BytesAll(ls[0].fields) + ls[0].end + LevelBytes(ls[1..])
  }

  /** Putting a field in front of the innermost open group. */
  lemma Prepend(f: WireField, ls: seq<Level>) returns (ls': seq<Level>)
    requires WellFormed(f) && AllClosed(ls) && ls != []
    ensures |ls'| == |ls| && AllClosed(ls') && LevelBytes(ls') == Bytes(f) + LevelBytes(ls)
  {
    hide WellFormed, Bytes;
    var fields := [f] + ls[0].fields;
    assert fields[1..] == ls[0].fields;
    ls' := [Level(fields, ls[0].end)] + ls[1..];
    assert ls'[1..] == ls[1..];
  }

  lemma SkipUnfold(at: nat, b: seq<byte>, depth: nat)
    requires at + |b| <= MAX_INT64
    requires SkipFrom(at, b, depth).Ok? && SkipFrom(at, b, depth).value <= at + |b|
    ensures SkipHop(b, depth).Ok? && SkipHop(b, depth).value.size <= |b|
    ensures var hop := SkipHop(b, depth).value;
            SkipFrom(at, b, depth) == SkipOn(at + hop.size, b[hop.size..], hop.depth)
  {
    hide SkipHop;
  }

  /** Whatever a skip inside `depth` open groups moves over closes them all properly. */
  lemma {:induction false} SkippedLevels(at: nat, b: seq<byte>, depth: nat) returns (ls: seq<Level>)
    requires at + |b| <= MAX_INT64 && depth > 0
    requires SkipFrom(at, b, depth).Ok? && SkipFrom(at, b, depth).value <= at + |b|
    ensures |ls| == depth && AllClosed(ls)
    ensures LevelBytes(ls) == b[..SkipFrom(at, b, depth).value - at]
    decreases |b|
  {
    hide SkipHop, WellFormed, Bytes, IsTag;
    var n := SkipFrom(at, b, depth).value;
    var hop := SkipHop(b, depth).value;
    SkipUnfold(at, b, depth);
    var f := HopInverse(b, depth, hop);
    hide SkipFrom;
    var head, rest := b[..hop.size], b[hop.size..];
    assert b[..n - at] == head + rest[..n - at - hop.size];
    var inner := [];
    if hop.depth > 0 { inner := SkippedLevels(at + hop.size, rest, hop.depth); }
    ls := HopLevels(head, f, depth, inner);
  }

  /** What is moved over by a turn at `depth` and by those after it, which move over `inner`. */
  lemma HopLevels(head: seq<byte>, f: WireField, depth: nat, inner: seq<Level>) returns (ls: seq<Level>)
    requires AllClosed(inner) && depth > 0 && depth - 1 <= |inner| <= depth + 1
    requires |inner| == depth ==> WellFormed(f) && Bytes(f) == head
    requires |inner| == depth + 1 ==> IsTag(head, 3)
    requires |inner| == depth - 1 ==> IsTag(head, 4)
    ensures |ls| == depth && AllClosed(ls) && LevelBytes(ls) == head + LevelBytes(inner)
  {
    hide WellFormed, Bytes, IsTag;
    if |inner| == depth {
      ls := Prepend(f, inner);
    } else if |inner| == depth - 1 {
      ls := [Level([], head)] + inner;
      assert ls[1..] == inner;
    } else {
      var g := CloseGroup(head, inner[0]);
      ls := Prepend(g, inner[1..]);
      assert LevelBytes(inner) == BytesAll(inner[0].fields) + inner[0].end + LevelBytes(inner[1..]);
    }
  }

  lemma CloseGroup(tag: seq<byte>, level: Level) returns (g: WireField)
    requires IsTag(tag, 3) && AllWellFormed(level.fields) && IsTag(level.end, 4)
    ensures WellFormed(g) && Bytes(g) == tag + (BytesAll(level.fields) + level.end)
  {
    g := Group(tag, level.fields, level.end);
  }

  /** skipGenerated accepts only whole fields: what it moves over, when it stays inside
      the buffer, is one well-formed field with every group closed. */
  lemma SkippedField(at: nat, b: seq<byte>) returns (f: WireField)
    requires at + |b| <= MAX_INT64
    requires SkipFrom(at, b, 0).Ok? && SkipFrom(at, b, 0).value <= at + |b|
    ensures WellFormed(f) && Bytes(f) == b[..SkipFrom(at, b, 0).value - at]
  {
    hide SkipHop, IsTag, WellFormed, Bytes;
    var n := SkipFrom(at, b, 0).value;
    var hop := SkipHop(b, 0).value;
    SkipUnfold(at, b, 0);
    f := HopInverse(b, 0, hop);
    if hop.depth == 1 {
      hide SkipFrom;
      var ls := SkippedLevels(at + hop.size, b[hop.size..], 1);
      assert LevelBytes(ls[1..]) == [];
      f := CloseGroup(b[..hop.size], ls[0]);
      assert b[..n - at] == b[..hop.size] + b[hop.size..][..n - at - hop.size];
    }
  }

  /** skipGenerated, with its caller's range check, accepts exactly the buffers that
      start with a well-formed field, and moves over exactly that field. */
  lemma SkipIffField(b: seq<byte>, n: nat)
    requires |b| <= MAX_INT64 && n <= |b|
    ensures SkipFrom(0, b, 0) == Ok(n) <==> exists f :: WellFormed(f) && Bytes(f) == b[..n]
  {
    hide SkipFrom, WellFormed, Bytes;
    if SkipFrom(0, b, 0) == Ok(n) {
      var f := SkippedField(0, b);
    }
    forall f | WellFormed(f) && Bytes(f) == b[..n]
      ensures SkipFrom(0, b, 0) == Ok(n)
    {
      SkipsField(0, f, b[n..], 0);
      assert b == b[..n] + b[n..];
    }
  }

  /** How a turn of the skip refuses the bytes in front of it, inside `depth` open groups. */
  lemma SkipErrors(at: nat, b: seq<byte>, depth: nat)
    requires at + |b| <= MAX_INT64
    ensures b == [] ==> SkipFrom(at, b, depth) == Err(UnexpectedEOF)
    ensures b != [] && ReadVarint(b).Err? ==> SkipFrom(at, b, depth) == Err(ReadVarint(b).error)
    ensures ReadVarint(b).Ok? ==>
              var tag := ReadVarint(b).value;
              var wireType, rest := tag.value % 8, b[tag.size..];
              && (wireType >= 6 ==> SkipFrom(at, b, depth) == Err(IllegalWireType))
              && (wireType == 4 && depth == 0 ==> SkipFrom(at, b, depth) == Err(UnexpectedEndOfGroup))
              && (wireType == 0 || wireType == 2 ==>
                    ReadVarint(rest).Err? ==> SkipFrom(at, b, depth) == Err(ReadVarint(rest).error))
              && (wireType == 2 && ReadVarint(rest).Ok? && LengthOf(ReadVarint(rest).value.value) < 0 ==>
                    SkipFrom(at, b, depth) == Err(InvalidLength))
  {
    hide ReadVarint, LengthOf;
    if ReadVarint(b).Ok? { SameWireType(ReadVarint(b).value.value); }
  }

  lemma SameWireType(raw: nat)
    ensures WireType(raw) == raw % 8
  {
  }

  /** A value that ends past the buffer: the index it leads to is returned if no group is open,
      for the caller to compare with the end; inside a group the buffer is cut short. In either
      case an index that is not an int is refused first. */
  lemma SkipOverrun(at: nat, b: seq<byte>, depth: nat)
    requires at + |b| <= MAX_INT64 && b != [] && SkipHop(b, depth).Ok? && SkipHop(b, depth).value.size >= |b|
    requires SkipHop(b, depth).value.depth == depth
    ensures var end := at + SkipHop(b, depth).value.size;
            SkipFrom(at, b, depth)
            == if end > MAX_INT64 then Err(InvalidLength) else if depth == 0 then Ok(end) else Err(UnexpectedEOF)
  {
    hide SkipHop;
  }

  /** An accepted skip depends neither on where the buffer starts nor on what follows. */
  lemma SkipPrefix(at: nat, at': nat, b: seq<byte>, rest: seq<byte>)
    requires at + |b| <= MAX_INT64 && at' + |b| + |rest| <= MAX_INT64
    requires SkipFrom(at, b, 0).Ok? && SkipFrom(at, b, 0).value <= at + |b|
    ensures SkipFrom(at', b + rest, 0) == Ok(at' + SkipFrom(at, b, 0).value - at)
  {
    hide SkipFrom, WellFormed, Bytes;
    var n := SkipFrom(at, b, 0).value - at;
    var f := SkippedField(at, b);
    SkipsField(at', f, b[n..] + rest, 0);
    assert b + rest == b[..n] + (b[n..] + rest);
  }
}
