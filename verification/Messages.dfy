/** Bounded human-readable messages: TruncateMessage, and the loop RecordEvent has of its own. */
module Messages {
  import opened GoInt

  const MAX_MESSAGE_BYTES: nat := 1024
  const TRUNCATED_SUFFIX: seq<byte> := [46, 46, 46] // "..."

  /** utf8.RuneStart: not a continuation byte 10xxxxxx. */
  predicate RuneStart(b: byte) {
    b / 64 != 2
  }

  // ----- UTF-8, as in section 4 of RFC 3629

  predicate Tail(b: byte) {
    0x80 <= b <= 0xBF
  }

  /** The length of the well-formed character in front of s, or 0 if there is none. */
  function CharSize(s: seq<byte>): (n: nat)
    ensures n <= 4 && n <= |s|
  {
    if s == [] then 0
    else if s[0] <= 0x7F then 1
    else if |s| >= 2 && 0xC2 <= s[0] <= 0xDF && Tail(s[1]) then 2
    else if |s| >= 3 && Tail(s[2]) && ThreeByteLead(s[0], s[1]) then 3
    else if |s| >= 4 && Tail(s[2]) && Tail(s[3]) && FourByteLead(s[0], s[1]) then 4
    else 0
  }

  predicate ThreeByteLead(a: byte, b: byte) {
    || (a == 0xE0 && 0xA0 <= b <= 0xBF)
    || (0xE1 <= a <= 0xEC && Tail(b))
    || (a == 0xED && 0x80 <= b <= 0x9F)
    || (0xEE <= a <= 0xEF && Tail(b))
  }

  predicate FourByteLead(a: byte, b: byte) {
    || (a == 0xF0 && 0x90 <= b <= 0xBF)
    || (0xF1 <= a <= 0xF3 && Tail(b))
    || (a == 0xF4 && 0x80 <= b <= 0x8F)
  }

  predicate ValidUtf8(s: seq<byte>) {
    s == [] || (CharSize(s) > 0 && ValidUtf8(s[CharSize(s)..]))
  }

  /** A character has one rune start, its first byte. */
  lemma OneStart(s: seq<byte>)
    requires CharSize(s) > 0
    ensures RuneStart(s[0])
    ensures forall i :: 0 < i < CharSize(s) ==> !RuneStart(s[i])
  {
  }

  /** A character is the same character before any other bytes. */
  lemma SameChar(s: seq<byte>, t: seq<byte>)
    requires CharSize(s) > 0 && CharSize(s) <= |t|
    requires forall i :: 0 <= i < CharSize(s) ==> t[i] == s[i]
    ensures CharSize(t) == CharSize(s)
  {
  }

  lemma FirstChar(s: seq<byte>)
    requires s != []
    ensures ValidUtf8(s) <==> CharSize(s) > 0 && ValidUtf8(s[CharSize(s)..])
  {
    hide CharSize;
  }

  lemma {:induction false} ValidAppend(s: seq<byte>, t: seq<byte>)
    requires ValidUtf8(s) && ValidUtf8(t)
    ensures ValidUtf8(s + t)
    decreases |s|
  {
    hide CharSize, ValidUtf8;
    if s == [] {
      assert s + t == t;
    } else {
      FirstChar(s);
      var n := CharSize(s);
      SameChar(s, s + t);
      FirstChar(s + t);
      assert (s + t)[n..] == s[n..] + t;
      ValidAppend(s[n..], t);
    }
  }

  /** A valid string cut at a rune start is valid. */
  lemma {:induction false} ValidPrefix(s: seq<byte>, k: nat)
    requires ValidUtf8(s) && k <= |s| && (k == 0 || k == |s| || RuneStart(s[k]))
    ensures ValidUtf8(s[..k])
    decreases |s|
  {
    if k > 0 {
      var n := CharSize(s);
      OneStart(s);
      SameChar(s, s[..k]);
      hide CharSize;
      ValidPrefix(s[n..], k - n);
      assert s[..k][n..] == s[n..][..k - n];
    }
  }

  /** In a valid string a rune start is never more than three bytes back. */
  lemma {:induction false} StartNearby(s: seq<byte>, n: nat) returns (k: nat)
    requires ValidUtf8(s) && n < |s|
    ensures k <= n <= k + 3 && RuneStart(s[k])
    decreases |s|
  {
    var c := CharSize(s);
    OneStart(s);
    hide CharSize;
    if n < c {
      k := 0;
    } else {
      k := StartNearby(s[c..], n - c);
      k := k + c;
    }
  }

  // ----- cutAtRune

  /** Where cutAtRune's loop stops. */
  function Boundary(s: seq<byte>, n: nat): (k: nat)
    requires n < |s|
    ensures k <= n && (k == 0 || RuneStart(s[k]))
    ensures forall j :: k < j <= n ==> !RuneStart(s[j])
  {
    if n == 0 || RuneStart(s[n]) then n else Boundary(s, n - 1)
  }

  function Cut(s: seq<byte>, n: nat): seq<byte> {
    if n >= |s| then s else s[..Boundary(s, n)]
  }

  method CutAtRune(s: seq<byte>, n: nat) returns (r: seq<byte>)
    ensures r == Cut(s, n)
  {
    if n >= |s| { return s; }
    var k: nat := n;
    while k > 0 && !RuneStart(s[k])
      invariant k <= n && Boundary(s, k) == Boundary(s, n)
    {
      k := k - 1;
    }
    return s[..k];
  }

  // ----- TruncateMessage

  function TruncateMessage(msg: seq<byte>, max: int): seq<byte> {
    if max <= 0 then []
    else if |msg| <= max then msg
    else if max <= |TRUNCATED_SUFFIX| then Cut(msg, max)
    else Cut(msg, max - |TRUNCATED_SUFFIX|) + TRUNCATED_SUFFIX
  }

  /** The bound, and idempotence: a stored message is not shortened again. */
  lemma TruncateBounds(msg: seq<byte>, max: int)
    ensures |TruncateMessage(msg, max)| <= if max <= 0 then 0 else max
    ensures TruncateMessage(TruncateMessage(msg, max), max) == TruncateMessage(msg, max)
    ensures |msg| <= max ==> TruncateMessage(msg, max) == msg
  {
  }

  /** What is cut is cut at a rune boundary, ends in the suffix, and keeps all but at most
      the last few bytes that would have fit. */
  lemma TruncateKeeps(msg: seq<byte>, max: nat)
    requires ValidUtf8(msg)
    ensures ValidUtf8(TruncateMessage(msg, max))
    ensures |msg| > max > 3 ==>
              exists k :: max - 6 <= k <= max - 3 && 0 <= k && TruncateMessage(msg, max) == msg[..k] + TRUNCATED_SUFFIX
                          && RuneStart(msg[k])
                          && forall j :: k < j <= max - 3 ==> !RuneStart(msg[j])
    ensures |msg| > max > 3 ==> |TruncateMessage(msg, max)| >= max - 3
  {
    hide ValidUtf8;
    TruncateValidIff(msg, max);
    if |msg| > max > 3 {
      var near := StartNearby(msg, max - 3);
      var first := StartNearby(msg, 0);
      var k := Boundary(msg, max - 3);
      assert near <= k && TruncateMessage(msg, max) == msg[..k] + TRUNCATED_SUFFIX;
    }
  }

  /** Any message that is too long, valid or not: what is kept ends at the last rune start that
      leaves room for "...", or is nothing; a bound with no room for both has no "...". */
  lemma TruncateExactly(msg: seq<byte>, max: nat)
    requires |msg| > max > 0
    ensures var n, suffix := if max <= 3 then max else max - 3, if max <= 3 then [] else [0x2E, 0x2E, 0x2E];
            exists k :: 0 <= k <= n && TruncateMessage(msg, max) == msg[..k] + suffix
                        && (k == 0 || msg[k] / 64 != 2)
                        && forall j :: k < j <= n ==> msg[j] / 64 == 2
  {
    var k := Boundary(msg, if max <= 3 then max else max - 3);
    assert msg[..k] + [] == msg[..k];
  }

  lemma SuffixValid()
    ensures ValidUtf8(TRUNCATED_SUFFIX)
  {
    assert TRUNCATED_SUFFIX[1..] == [46, 46] && TRUNCATED_SUFFIX[1..][1..] == [46];
    assert ValidUtf8([46]) && ValidUtf8([46, 46]);
  }

  /** The part of the message that TruncateMessage keeps. */
  function Kept(msg: seq<byte>, max: int): seq<byte> {
    if max <= 0 then []
    else if |msg| <= max then msg
    else if max <= |TRUNCATED_SUFFIX| then Cut(msg, max)
    else Cut(msg, max - |TRUNCATED_SUFFIX|)
  }

  lemma {:induction false} ValidSuffix(s: seq<byte>, t: seq<byte>)
    requires ValidUtf8(s + t) && (t == [] || RuneStart(t[0]))
    ensures ValidUtf8(s)
  {
    ValidPrefix(s + t, |s|);
    assert (s + t)[..|s|] == s;
  }

  /** For every message and every bound: the result is valid UTF-8 exactly when the part that
      is kept is, which for a valid message it always is. */
  lemma TruncateValidIff(msg: seq<byte>, max: int)
    ensures ValidUtf8(TruncateMessage(msg, max)) <==> ValidUtf8(Kept(msg, max))
    ensures ValidUtf8(msg) ==> ValidUtf8(Kept(msg, max))
    ensures Kept(msg, max) <= msg
  {
    hide ValidUtf8;
    var kept := Kept(msg, max);
    SuffixValid();
    if ValidUtf8(msg) { KeptValid(msg, max); }
    if ValidUtf8(kept) { ValidAppend(kept, TRUNCATED_SUFFIX); }
    if ValidUtf8(kept + TRUNCATED_SUFFIX) { ValidSuffix(kept, TRUNCATED_SUFFIX); }
  }

  lemma KeptValid(msg: seq<byte>, max: int)
    requires ValidUtf8(msg)
    ensures ValidUtf8(Kept(msg, max))
  {
    hide ValidUtf8;
    if max <= 0 {
      assert Kept(msg, max) == msg[..0];
      ValidPrefix(msg, 0);
    } else if |msg| > max {
      ValidPrefix(msg, Boundary(msg, if max <= 3 then max else max - 3));
    }
  }

  /** A message that is not UTF-8 stays so, whether it fits or is cut. */
  lemma TruncateInvalid(max: nat)
    requires max > 0
    ensures !ValidUtf8(TruncateMessage([0xFF], max))
    ensures max > 4 ==> !ValidUtf8(TruncateMessage(seq(max + 1, _ => 0xFF as byte), max))
  {
  }

  // ----- RecordEvent

  /** What is recorded; None is the panic of indexing below 0. */
  function EventNote(message: seq<byte>): Option<seq<byte>> {
    if |message| > 1024 && (forall j :: 0 <= j <= 1021 ==> !RuneStart(message[j])) then None
    else Some(TruncateMessage(message, MAX_MESSAGE_BYTES))
  }

  method RecordEvent(message: seq<byte>) returns (note: Option<seq<byte>>)
    ensures note == EventNote(message)
    ensures note == None <==> |message| > 1024 && forall j :: 0 <= j <= 1021 ==> !RuneStart(message[j])
    ensures note != None ==> note.value == TruncateMessage(message, MAX_MESSAGE_BYTES)
  {
    if |message| <= 1024 { return Some(message); }
    var end := 1024 - |TRUNCATED_SUFFIX|;
    while !RuneStart(message[end])
      invariant 0 <= end <= 1021 && Boundary(message, end) == Boundary(message, 1021)
      invariant forall j :: end < j <= 1021 ==> !RuneStart(message[j])
      decreases end
    {
      if end == 0 { return None; }
      end := end - 1;
    }
    return Some(message[..end] + TRUNCATED_SUFFIX);
  }

  /** For valid UTF-8 the loop stays in range and records what TruncateMessage would, itself
      valid UTF-8 of at most 1024 bytes. */
  lemma RecordsValidText(message: seq<byte>)
    requires ValidUtf8(message)
    ensures var note := EventNote(message);
            && note == Some(TruncateMessage(message, MAX_MESSAGE_BYTES))
            && |note.value| <= 1024 && ValidUtf8(note.value)
  {
    TruncateKeeps(message, MAX_MESSAGE_BYTES);
    if |message| > 1024 { var k := StartNearby(message, 1021); }
  }

  /** 1025 continuation bytes panic. */
  lemma RecordPanics()
    ensures EventNote(seq(1025, _ => 0x80 as byte)) == None
  {
  }
}
