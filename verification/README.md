# Verified models of config-server

Dafny models of six parts of config-server, with proofs of what they keep:

- **The Protocol Buffers codec** of the `config.sdcio.dev` API types. `GoInt` writes out Go's
  64- and 32-bit integers, `Varint` and `Skip` are the shared helpers, `Codec` is the decode
  loop and the encoding once for every message, `Grammar` says what the loop accepts without
  the loop, `Buffer` holds the steps the generated methods repeat inline, and
  `DeviationMessages`, `ConfigSpecMessages` and `ClearDeviationMessages` are seven concrete
  messages with their Size, Marshal and Unmarshal methods. The encoder writes arrays from the
  back; the decoder reads a byte slice and updates the fields of a message object.
  `Codec.Decode` says what Unmarshal computes, `Codec.Left` what it leaves behind when it fails,
  the methods are proved equal to them, and the results are about them. `SingleFields` says
  what each message does with a field of any number and wire type. "Well-formed" is the
  decoders' own grammar of a field (`Skip.WellFormed`). It is larger than the one of the
  Protocol Buffers Encoding specification (sections "Base 128 Varints", "Message Structure",
  "Length-Delimited Records" and "Groups"); `StandardFields` defines the specification's fields
  by themselves and proves by how much.
- **The lease** (`Lease`): any number of processes calling AcquireLease, one API call or clock
  tick per step, over the version history of the Lease object.
- **Commit ancestry** (`CommitAncestry`): isAncestor and the decision of checkCommitStatus.
- **The watcher manager** (`WatcherManager`): the semaphore beside the watcher map, with
  goroutines and Add calls interleaving freely.
- **Clearing deviations** (`DeviationNames`, `ClearDeviation`, `ClearDeviationTx`): names,
  validation, retries and the status that is reported.
- **Conditions and messages** (`Messages`, `Conditions`, `Outcomes`): bounded UTF-8 messages
  (RFC 3629, section 4), the condition list as a map, and the recoverable/unrecoverable record.

`dafny verify dfyconfig.toml` checks the whole project.

## Assumptions

- A Go slice is never longer than the largest int, so decoders are stated for buffers up to
  that length, and merges and round trips for encodings up to it.
- Bitwise operations are written as arithmetic: `x & 0x7f` is `x % 128`, `x >> 7` is `x / 128`;
  OR is defined bit by bit in `GoInt.BitOr` and shown to be addition where bits are disjoint.
- The Lease object is written by AcquireLease only and is not deleted; its resourceVersion is
  its index in the history, reads may return any older version, a write may be applied and
  still be reported as failed, and all processes read one clock that does not go back.
- go-git's parent iterator stops at the first parent whose object is missing. Commit histories
  are finite and acyclic.
- `uuid.New` never repeats a key.
- REVERTIVE is read once per request, as a flag that says whether it is set to false.
- Namespaces are DNS labels and hold no dot, as Kubernetes requires; names may hold dots.
- A transaction outcome reaches a config's status as SetConditions would put it there; the
  server-side apply in between is not modelled.
- ParsePath and the RawExtension codec are outside the repository: the first is a parameter
  function, the second a parameter with the law that decoding an encoding gives the value back.

## Where the code does not do what its text or callers may expect

- The comment at pkg/git/git.go:474 says the iteration stops at the first branch found; the
  callback's nil return lets it continue, so the last branch is named
  (`CommitAncestry.CheckCommitStatus`). With two branches at one commit the second is named
  (`CommitAncestry.LastNotFirst`); the first is if and only if the last has the same short name
  (`CommitAncestry.FirstNamedIff`).
- isAncestor ignores the parent iterator's error, so a missing parent can hide stored parents
  after it (`CommitAncestry.HiddenParent`; `CommitAncestry.HiddenIff` says which). The search is
  exact if and only if every hidden parent is reached by another way: from one branch
  (`CommitAncestry.MissesNothingIff`) and in the whole store (`CommitAncestry.ExactIff`). So it
  is exact in a full clone (`CommitAncestry.FullClone`), in a store of one commit
  (`CommitAncestry.DepthOne`), and wherever no stored parent stands behind a missing one
  (`CommitAncestry.InOrderExact`).
- Add may run while a round's goroutines, or another Add, are still at work. Then one watcher
  can be deleted and released twice; the semaphore panics or admits too many watchers
  (`WatcherManager.OverlapPanics`, `WatcherManager.AddsOverlapPanic`,
  `WatcherManager.OverlapAdmitsTooMany`). `WatcherManager.AgreeIff` is the exact condition for
  map and semaphore to agree, `WatcherManager.ExcessPrice` the one for the panic and the bound
  on the watchers let in; that no Add overlaps a round or another Add guarantees it (`WatcherManager.SerialRunAgrees`).
- The lease's clock has nanoseconds and its stored times have microseconds. A holder that takes
  over less than a microsecond after expiry records the very instant at which the earlier lease
  ran out, and the two recorded intervals share it (`Lease.SharedInstant`); they never share
  more (`Lease.NoOverlap`), and `Lease.LeaseOrder` says exactly when they touch.
- The decoders accept fields that are not fields of the Protocol Buffers specification: a group
  ended under another group's number (`StandardFields.MismatchedGroup`), the number 0 inside a
  group (`StandardFields.ZeroInGroup`), numbers above 2^29 - 1, which are truncated to 32 bits
  and can be stored as a known field (`StandardFields.AliasedNumber`,
  `StandardFields.AliasedPath`), and lengths above 2^31 - 1: the specification's section
  "Condensed Reference Card" writes a size as an int32, which is the reading taken here. These
  are all, for the fields that are skipped (`StandardFields.ExtraIffLax`) and for every buffer
  that Unmarshal accepts (`StandardFields.AcceptedReading`).
- A config requested by its deviation's name is always given the outcome of the whole
  transaction, even if its own intent failed (`ClearDeviationTx.ReportedAsCleared`). A config
  requested by its own name is given the errors of its intent alone, so it is reported as
  cleared even if Confirm failed (`ClearDeviationTx.ConfirmFailed`).
  `ClearDeviationTx.TruthfulIff` says exactly when the answer is right, that is, says success if
  and only if the transaction succeeded without an error for the config's intent.
- A config requested by its own name and by its deviation's yields two intents with one key in
  one transaction (`ClearDeviationTx.SharedKey`, `ClearDeviationTx.KeysDistinctIff`).
- The name of a config's deviation stands for another config if one has that name as its own
  (`ClearDeviation.ResolveDeviation`, `ClearDeviation.ResolveDeviationIff`).
- The field path of a rejected entry counts rejections, not entries: after one valid entry, the
  second is reported as the first (`ClearDeviation.FieldIndexWrong`). It is right exactly when
  all entries before were rejected (`ClearDeviation.FieldIndexRight`).
- RecordEvent's loop has no lower bound: it indexes below zero exactly when the first 1022
  bytes of a long message are all continuation bytes (`Messages.RecordEvent`), as in 1025 bytes
  of 0x80 (`Messages.RecordPanics`).
- The comment at apis/condition/v1alpha1/message.go:36-38 promises valid UTF-8. The result is
  valid if and only if the part that is kept is (`Messages.TruncateValidIff`); the byte 0xFF is
  kept as it is (`Messages.TruncateInvalid`).

## Model

| member | source | states |
|---|---|---|
| Varint.SovIsLength | apis/config/v1alpha1/generated.pb.go:2968-2970 | the bit-length formula gives the number of base 128 groups of every number, and 1 to 10 for every uint64 |
| Varint.DecodeVarint | apis/config/v1alpha1/generated.pb.go:4242-4256 | the shift-and-or loop, in a 32- or 64-bit register, reads the declared base 128 number modulo the register, fails on the eleventh byte or the end of the buffer, leaves the bits read so far in the register, and never indexes outside it |
| Varint.VarintErrors | apis/config/v1alpha1/generated.pb.go:4242-4256 | the loop overflows if and only if ten bytes all announce another, and meets the end of the buffer if and only if fewer do and none follows |
| Varint.ReadVarintBytes | apis/config/v1alpha1/generated.pb.go:2211-2221 | decoding an encoded number restores it and its length, whatever bytes follow |
| Varint.EncodeVarint | apis/config/v1alpha1/generated.pb.go:2211-2221 | writes exactly the shortest encoding, ending at the offset, and no other byte |
| ConfigSpecMessages.PriorityRoundTrip | apis/config/v1alpha1/generated.pb.go:5376-5394 | every int32 survives sign extension to 64 bits and the 32-bit accumulating decode; negatives take ten bytes |
| Skip.SkipGenerated | apis/config/v1alpha1/generated.pb.go:9583-9660 | for every byte slice the loop terminates, stays in range under wrap-around, and returns what SkipFrom defines, error kinds included |
| Skip.SkipsField | apis/config/v1alpha1/generated.pb.go:9583-9660 | over a well-formed field with arbitrarily nested, closed groups the skip moves exactly the field's length, at any depth and index |
| Skip.SkippedField | apis/config/v1alpha1/generated.pb.go:9583-9660 | conversely, whatever an accepted skip inside the buffer moves over is one field well-formed by the code's own grammar, with all its groups closed |
| Skip.SkipIffField | apis/config/v1alpha1/generated.pb.go:9583-9660 | a skip of n bytes inside the buffer is accepted if and only if those n bytes are a field of the code's own grammar |
| Skip.SkipPrefix | apis/config/v1alpha1/generated.pb.go:9583-9660 | an accepted skip depends neither on the start index nor on later bytes |
| Skip.SkipErrors | apis/config/v1alpha1/generated.pb.go:9583-9660 | which error the skip returns for an unreadable tag or length, wire types 6 and 7, an end tag outside any group, a negative length and an open group at the end |
| Skip.SkipOverrun | apis/config/v1alpha1/generated.pb.go:9583-9660 | a value past the end of the buffer: refused if the index wraps, left to the caller outside groups, end of input inside |
| StandardFields.StandardIff | apis/config/v1alpha1/generated.pb.go:9583-9660 | a field is one of the Protocol Buffers specification if and only if it is well-formed to the code and not lax: number zero or above 2^29 - 1, length above 2^31 - 1, group ended under another number, or such a field inside a group |
| StandardFields.StandardSkipped | apis/config/v1alpha1/generated.pb.go:9583-9660 | every field of the specification is skipped exactly, whatever follows |
| StandardFields.ExtraIffLax | apis/config/v1alpha1/generated.pb.go:9583-9660 | a skip is one for which the specification has no field if and only if the field it moves over is lax |
| StandardFields.FieldUnique | apis/config/v1alpha1/generated.pb.go:9583-9660 | no bytes start with two different well-formed fields, whatever follows them |
| StandardFields.BufferUnique | apis/config/v1alpha1/generated.pb.go:4240-4410 | a buffer is a sequence of well-formed fields in at most one way |
| StandardFields.AcceptedReading | apis/config/v1alpha1/generated.pb.go:4237-4416 | for every message type: a buffer that Unmarshal accepts has exactly one reading as well-formed fields, whose application is the result, and is no sequence of fields of the specification if and only if one of them is lax, skipped or stored |
| StandardFields.StandardNumber | apis/config/v1alpha1/generated.pb.go:4257-4263 | the int32 field number of the decoders is the number of every field of the specification |
| StandardFields.MismatchedGroup | apis/config/v1alpha1/generated.pb.go:9640-9646 | start of group 1, end of group 2: not of the specification, and skipped as one field |
| StandardFields.ZeroInGroup | apis/config/v1alpha1/generated.pb.go:9583-9660 | a field numbered 0 inside a group: not of the specification, and skipped |
| StandardFields.AliasedNumber | apis/config/v1alpha1/generated.pb.go:4257-4263 | a field numbered 2^32 + 1 is not of the specification, and every message that knows field 1 as a string stores its payload there |
| StandardFields.AliasedPath | apis/config/v1alpha1/generated.pb.go:4237-4300 | ConfigDeviation stores it as its path |
| Grammar.AcceptsExactly | apis/config/v1alpha1/generated.pb.go:4237-4416 | for every message type: Unmarshal accepts a buffer with a given result if and only if the buffer is a sequence of well-formed wire fields with positive numbers, the known ones of the right wire type, that applied in order give that result |
| Grammar.DecodedIsAllowed | apis/config/v1alpha1/generated.pb.go:4259-4409 | what one accepted turn of the loop consumed is one such field, applied |
| Grammar.TagErrors | apis/config/v1alpha1/generated.pb.go:4257-4269 | an end-group tag, a field number that is not positive and a known field of the wrong wire type are refused, in this order, with their own errors |
| Grammar.LengthErrors | apis/config/v1alpha1/generated.pb.go:4270-4297 | a length is refused as unreadable, as negative, or as leading past the end, and there as invalid if and only if the index it leads to exceeds the largest int |
| Grammar.UnknownErrors | apis/config/v1alpha1/generated.pb.go:4396-4409 | an unknown field is refused with the error of the skip, or as leading past the end, invalid if and only if the index exceeds the largest int |
| Grammar.LeftBehind | apis/config/v1alpha1/generated.pb.go:6058-6174 | when Unmarshal fails, the message holds what the allowed fields before the failing one gave, plus what that field had stored by then, and the error is that field's |
| Codec.DecodeAppend | apis/config/v1alpha1/generated.pb.go:5311-5470 | if b1 decodes, decoding b1+b2 is decoding b2 into the result of b1, errors included: a length that is too long is invalid where the index it leads to exceeds the largest int, else end of input, and the second part stands at index len(b1) |
| Codec.DecodeFromAppend | apis/config/v1alpha1/generated.pb.go:6058-6174 | the same at any index of the buffer, with equal errors too |
| Codec.DecodeFromShift | apis/config/v1alpha1/generated.pb.go:4289-4295 | the same bytes at two indices: same value or same error, except that a length that is too long is reported at each index by where it leads to |
| Codec.UnknownFieldsIgnored | apis/config/v1alpha1/generated.pb.go:4396-4409 | a well-formed field of an unknown number, inserted at any field boundary of an accepted buffer, does not change the decoded message, nor the error of what follows, but for the index at which that stands |
| Codec.DecodeItems | apis/config/v1alpha1/generated.pb.go:4396-4409 | a buffer of known fields mixed in any way with unknown ones decodes to the known fields stored in order |
| Codec.DecodeEncoded | apis/config/v1alpha1/generated.pb.go:1033-1060 | decoding an encoding stores its fields in order |
| Buffer.ReadTag | apis/config/v1alpha1/generated.pb.go:4242-4263 | field number (truncated to int32) and wire type of the tag at iNdEx, or the loop's error |
| Buffer.ReadText | apis/config/v1alpha1/generated.pb.go:4270-4297 | bounds of a length-delimited payload, with the negative, wrapped and overlong lengths refused |
| Buffer.SkipUnknown | apis/config/v1alpha1/generated.pb.go:4396-4409 | the default branch: an accepted unknown field takes at least one byte and ends inside the buffer |
| Buffer.PutText | apis/config/v1alpha1/generated.pb.go:390-394 | puts one encoded string field in front of the tail written so far and touches nothing else |
| DeviationMessages.ConfigDeviation.Size | apis/config/v1alpha1/generated.pb.go:2302-2321 | the length of the encoding |
| DeviationMessages.ConfigDeviation.MarshalToSizedBuffer | apis/config/v1alpha1/generated.pb.go:385-415 | writes exactly Size() bytes, the encoding, at the tail of the buffer; every other byte keeps its value |
| DeviationMessages.ConfigDeviation.Marshal | apis/config/v1alpha1/generated.pb.go:370-378 | the returned slice is the whole encoding, no gap |
| DeviationMessages.ConfigDeviationMessage.Unmarshal | apis/config/v1alpha1/generated.pb.go:4237-4416 | accepts exactly what Decode accepts, with its value; else returns its error and keeps the fields stored before it |
| DeviationMessages.DeviationWire | apis/config/v1alpha1/generated.pb.go:390-413 | the exact bytes: tag byte, length and content of each field in ascending order, nil strings absent |
| DeviationMessages.SpecWire | apis/config/v1alpha1/generated.pb.go:1033-1060 | the exact bytes: the type, if set, then every deviation, each after its tag byte and length |
| DeviationMessages.DeviationMerge | apis/config/v1alpha1/generated.pb.go:4237-4416 | decoding an encoding into a held value: always-written strings replace, nil ones leave what was there |
| DeviationMessages.DeviationSpec.Size | apis/config/v1alpha1/generated.pb.go:2532-2549 | the length of the encoding, nested messages included |
| DeviationMessages.DeviationSpec.MarshalToSizedBuffer | apis/config/v1alpha1/generated.pb.go:1033-1060 | nested encodings are written back to front into one buffer without gap or overlap; every other byte keeps its value |
| DeviationMessages.DeviationSpec.Marshal | apis/config/v1alpha1/generated.pb.go:1018-1026 | the returned slice is the whole encoding |
| DeviationMessages.DeviationSpecMessage.Unmarshal | apis/config/v1alpha1/generated.pb.go:6058-6174 | accepts exactly what Decode accepts, appending nested deviations; else its error, with the failing element appended as far as it was decoded |
| DeviationMessages.SpecRoundTrip | apis/config/v1alpha1/generated.pb.go:6058-6174 | Unmarshal of Marshal gives every DeviationSpec back, nil and empty strings kept apart |
| DeviationMessages.SpecConcatenation | apis/config/v1alpha1/generated.pb.go:6058-6174 | two encodings in a row decode to the field-wise merge of the two messages |
| DeviationMessages.SpecWithUnknowns | apis/config/v1alpha1/generated.pb.go:6154-6166 | fields of numbers above 2 anywhere between the fields of an encoding, and of numbers above 4 inside every nested deviation, change nothing: the message is merged into the held one |
| ConfigSpecMessages.LifecycleMessage.Unmarshal | apis/config/v1alpha1/generated.pb.go:6564-6645 | accepts exactly what Decode accepts, in place; else its error and the field as stored before it |
| ConfigSpecMessages.ConfigBlobMessage.Unmarshal | apis/config/v1alpha1/generated.pb.go:4122-4236 | the same, the external value decoded into the one held, for any external codec |
| ConfigSpecMessages.ConfigSpec.Size | apis/config/v1alpha1/generated.pb.go:2440-2461 | the length of the encoding |
| ConfigSpecMessages.ConfigSpec.MarshalToSizedBuffer | apis/config/v1alpha1/generated.pb.go:771-816 | writes exactly the encoding at the tail; every other byte keeps its value |
| ConfigSpecMessages.ConfigWire | apis/config/v1alpha1/generated.pb.go:771-816 | the exact bytes: tag bytes, nested Lifecycle, sign-extended priority, one-byte bool, then each blob with its own fields |
| ConfigSpecMessages.ConfigSpec.Marshal | apis/config/v1alpha1/generated.pb.go:756-764 | the returned slice is the whole encoding |
| ConfigSpecMessages.ConfigSpecMessage.Unmarshal | apis/config/v1alpha1/generated.pb.go:5311-5470 | accepts exactly what Decode accepts: Lifecycle created once and decoded in place, int32 priority, optional bool, appended blobs; else its error, with the failing field stored as far as it was read, the bits of a truncated priority included |
| ConfigSpecMessages.Low32 | apis/config/v1alpha1/generated.pb.go:5376-5394 | the 32-bit accumulator reads the same int32 as the low half of the 64-bit one |
| ConfigSpecMessages.ConfigMerge | apis/config/v1alpha1/generated.pb.go:5311-5470 | decoding an encoding into a held ConfigSpec merges it field by field |
| ConfigSpecMessages.ConfigRoundTrip | apis/config/v1alpha1/generated.pb.go:5311-5470 | Unmarshal of Marshal gives every ConfigSpec back |
| ConfigSpecMessages.ConfigConcatenation | apis/config/v1alpha1/generated.pb.go:5311-5470 | two encodings in a row decode to the merge |
| ClearDeviationMessages.ConfigResult.MarshalToSizedBuffer | apis/config/v1alpha1/generated.pb.go:1770-1812 | writes exactly the encoding at the tail, repeated strings in order; every other byte keeps its value |
| ClearDeviationMessages.ResultWire | apis/config/v1alpha1/generated.pb.go:1770-1812 | the exact bytes of the always-written fields, then of every error, then of every warning |
| ClearDeviationMessages.StatusWire | apis/config/v1alpha1/generated.pb.go:1866-1900 | the exact bytes: message, then every warning, then every result |
| ClearDeviationMessages.ConfigResultMessage.Unmarshal | apis/config/v1alpha1/generated.pb.go:8179-8376 | accepts exactly what Decode accepts; else its error and the fields as stored before it |
| ClearDeviationMessages.Status.Size | apis/config/v1alpha1/generated.pb.go:2836-2857 | the length of the encoding |
| ClearDeviationMessages.Status.MarshalToSizedBuffer | apis/config/v1alpha1/generated.pb.go:1866-1900 | writes exactly the encoding at the tail; every other byte keeps its value |
| ClearDeviationMessages.StatusMessage.Unmarshal | apis/config/v1alpha1/generated.pb.go:8461-8608 | accepts exactly what Decode accepts; else its error, with the failing result appended as far as it was decoded |
| ClearDeviationMessages.ResultMerge | apis/config/v1alpha1/generated.pb.go:8179-8376 | scalars: last one wins; errors and warnings: append |
| ClearDeviationMessages.StatusRoundTrip | apis/config/v1alpha1/generated.pb.go:8461-8608 | Unmarshal of Marshal gives every status back, through the nested results |
| ClearDeviationMessages.StatusConcatenation | apis/config/v1alpha1/generated.pb.go:8461-8608 | two encodings in a row decode to the merge |
| SingleFields.DeviationField | apis/config/v1alpha1/generated.pb.go:4237-4416 | ConfigDeviation: fields 1 to 4 are stored in their places, refused if not length-delimited; every higher number leaves the message as it was |
| SingleFields.SpecField | apis/config/v1alpha1/generated.pb.go:6058-6174 | DeviationSpec: field 1 is the type, field 2 appends a decoded deviation, also one that fails, as far as it was read; numbers above 2 change nothing |
| SingleFields.LifecycleField | apis/config/v1alpha1/generated.pb.go:6564-6645 | Lifecycle: field 1 is the policy; numbers above 1 change nothing |
| SingleFields.BlobField | apis/config/v1alpha1/generated.pb.go:4122-4236 | ConfigBlob: field 1 is the path, field 2 is decoded into the held value; numbers above 2 change nothing |
| SingleFields.ConfigField | apis/config/v1alpha1/generated.pb.go:5311-5470 | ConfigSpec: nested Lifecycle decoded into the held one, priority from the low 32 bits of any number, any non-zero number is true, blobs appended; numbers above 4 change nothing |
| SingleFields.ShortPriority | apis/config/v1alpha1/generated.pb.go:5376-5394 | a priority cut short fails and keeps the bits that came |
| SingleFields.ResultField | apis/config/v1alpha1/generated.pb.go:8179-8376 | TargetClearDeviationConfigResult: name, success, message, appended errors and warnings; numbers above 5 change nothing |
| SingleFields.StatusField | apis/config/v1alpha1/generated.pb.go:8461-8608 | TargetClearDeviationStatus: message, appended warnings and decoded results; numbers above 3 change nothing |
| Lease.InvStep | pkg/lease/lease.go:89-143 | every API call or clock tick of any process keeps the history ordered and every process's pending write a legal successor of what it read |
| Lease.HistoryPrefix | pkg/lease/lease.go:101-139 | over a run the object's history only grows |
| Lease.LeaseOrder | pkg/lease/lease.go:118-139 | in every run stored renew times never decrease along versions; a later version of another holder was decided after the earlier one had run out and renewed no earlier than that instant, strictly later if and only if its writer's clock was a microsecond past it |
| Lease.NoOverlap | pkg/lease/lease.go:118-139 | lease intervals of different holders, from any two versions, share at most the one instant at which the earlier ends and the later begins, despite stale reads and lost replies |
| Lease.SharedInstant | pkg/lease/lease.go:118-124 | a run in which they share it: a take-over 500 ns after expiry |
| Lease.OneHolder | pkg/lease/lease.go:89-143 | at any moment of the nanosecond clock all processes whose call returned nil and whose recorded lease has not run out have one identity |
| Lease.NeverNil | pkg/lease/lease.go:115-127 | the nil-holder error and the nil dereference of the duration are unreachable in every run |
| Lease.TakeIff | pkg/lease/lease.go:115-139 | whatever version of a run's history is read: it is taken over if and only if it is the caller's own or a second has passed since it was renewed, by a lease of the caller of one second from now |
| Lease.Acquires | pkg/lease/lease.go:110-143 | in any run: a process that rereads the newest version passes the check if and only if that is its own or has run out; if its update is then reported, with no write in between, it ends without error and the newest version is its lease from the time it checked |
| Lease.LateWrites | pkg/lease/lease.go:104-143 | a Create of an existing object and an Update of a stale version change nothing and fail the call |
| Lease.FirstAcquired | pkg/lease/lease.go:89-143 | the first call, on no object, ends holding the lease |
| CommitAncestry.IsAncestor | pkg/git/git.go:492-512 | the queue search without a visited set terminates on every acyclic history and returns true exactly when the branch reaches the commit |
| CommitAncestry.Unfold | pkg/git/git.go:495-509 | replacing a commit by its parents shrinks the sum of unfolded history sizes by one, the search's measure |
| CommitAncestry.ReachesStep | pkg/git/git.go:499-508 | a commit other than the target reaches it exactly through one of the parents found |
| CommitAncestry.ExactIff | pkg/git/git.go:499-508 | the walk reaches exactly the ancestors by the raw parent hashes, for all pairs of commits, if and only if it reaches every hidden parent from its child |
| CommitAncestry.MissesNothingIff | pkg/git/git.go:492-512 | from one branch it does so if and only if every parent hidden along the way is reached from the branch |
| CommitAncestry.HiddenIff | pkg/git/git.go:504-508 | a parent is hidden if and only if it is stored and a missing one stands before each of its places |
| CommitAncestry.InOrderExact | pkg/git/git.go:499-508 | where no stored parent stands behind a missing one, the walk is exact |
| CommitAncestry.FullClone | pkg/git/git.go:504-508 | what the walk reaches is an ancestor, and if every parent of a stored commit is stored it reaches every ancestor |
| CommitAncestry.DepthOne | pkg/git/git.go:193 | in a store of one commit the walk is exact |
| CommitAncestry.HiddenParent | pkg/git/git.go:504-508 | a shallow clone in which a missing first parent hides a stored second one |
| CommitAncestry.CheckCommitStatus | pkg/git/git.go:419-490 | merged if and only if main reaches the commit; else the last branch in iteration order that reaches it is named; every error case |
| CommitAncestry.PendingIff | pkg/git/git.go:456-484 | for an unmerged commit: pending in a branch if and only if it is the last reference that is a branch and no symbolic reference, whose commit is stored and reaches the commit, and its name is not empty |
| CommitAncestry.FirstNamedIff | pkg/git/git.go:464-477 | the first branch that reaches the commit is the one named if and only if the last one that does has its short name |
| CommitAncestry.LastNotFirst | pkg/git/git.go:464-477 | a repository in which it is not |
| CommitAncestry.DetachedIff | pkg/git/git.go:482-489 | with non-empty branch names and an unmerged commit, the status is detached if and only if no resolvable branch reaches it |
| WatcherManager.PermitsConserved | pkg/watcher-manager/manager.go:60-128 | in every interleaving, permits held + deletions that found nothing = cached watchers + permits in transit, and at most the maximum is held |
| WatcherManager.AgreeIff | pkg/watcher-manager/manager.go:62-67 | semaphore and map agree if and only if every call of del found its key in the map |
| WatcherManager.ExcessPrice | pkg/watcher-manager/manager.go:62-83 | in every run Release panics if and only if the deletions that found nothing equal the cached watchers plus the permits in transit, and the watchers let in exceed the maximum by at most that number |
| WatcherManager.LeavesForCause | pkg/watcher-manager/manager.go:60-123 | in every run, a watcher leaves the map only after it expired or its callback answered stop to a round |
| WatcherManager.RoundCleans | pkg/watcher-manager/manager.go:99-128 | a round visits every watcher in the map when it begins; when no goroutine is left, those expired when visited or that answered stop are gone |
| WatcherManager.CheckedGoes | pkg/watcher-manager/manager.go:62-67 | a watcher found expired, or that answered stop, is gone for good once the thread that found it is past deleting it |
| WatcherManager.AddCleans | pkg/watcher-manager/manager.go:60-69 | when an Add comes to TryAcquire it has checked every watcher it listed, and those expired when it did are gone |
| WatcherManager.AdmitsIff | pkg/watcher-manager/manager.go:69-83 | when no Add overlaps a round or another Add, a watcher is admitted if and only if fewer than the maximum are in the map |
| WatcherManager.SerialRunAgrees | pkg/watcher-manager/manager.go:99-128 | when no Add overlaps a round or another Add, permits held = cached + deleted but not yet released (+ one being added), at most the maximum, and Release never panics |
| WatcherManager.OverlapPanics | pkg/watcher-manager/manager.go:62-67 | a run in which an Add inside a round makes Release panic |
| WatcherManager.AddsOverlapPanic | pkg/watcher-manager/manager.go:60-86 | a run without any round in which two overlapping Adds make Release panic |
| WatcherManager.OverlapAdmitsTooMany | pkg/watcher-manager/manager.go:69-83 | a run in which it admits two live watchers where one is allowed |
| WatcherManager.Manager.Add | pkg/watcher-manager/manager.go:60-86 | called alone: done watchers are removed, the new one is admitted if and only if fewer than the maximum are live |
| DeviationNames.ParseInvertsPrint | apis/config/deviation_helper.go:31-47 | a name parses to a pair if and only if it was printed from that pair, for a known type and a non-empty resource |
| DeviationNames.NamesNeverCollide | apis/config/deviation_helper.go:28-33 | printed names are equal only for equal type and resource |
| DeviationNames.NamesSpelled | apis/config/deviation_helper.go:28-33 | the names are "config-" or "target-" and the resource |
| ClearDeviation.ResolveIff | apis/config/target_helpers.go:358-382 | a name resolves if and only if it is a config's, or the config-deviation name of one |
| ClearDeviation.ResolveDeviation | apis/config/target_helpers.go:358-382 | a config's deviation name resolves to that config, or to the config that has the deviation's name |
| ClearDeviation.ResolveDeviationIff | apis/config/target_helpers.go:358-382 | it resolves to its config if and only if no config has the deviation's name |
| ClearDeviation.BuildRequest | apis/config/target_helpers.go:275-352 | the loop yields the intents of the valid entries and the rejections of the others, both in order |
| ClearDeviation.GetIntentUpdate | apis/config/target_helpers.go:590-614 | one update per blob in order, or none at all if a path does not parse |
| ClearDeviation.ValidIff | apis/config/target_helpers.go:284-338 | an entry is valid if and only if its name resolves, the config is not revertive and every path parses; its intent then carries all paths and updates in order |
| ClearDeviation.RevertiveDefault | apis/config/config_helpers.go:50-60 | a config without the flag is revertive unless REVERTIVE=false; the flag decides otherwise |
| ClearDeviation.UnresolvedReason | apis/config/target_helpers.go:358-382 | which reason an unresolved name gets: target-scoped, config of a deviation not found, or config not found |
| ClearDeviation.ResolvedReason | apis/config/target_helpers.go:294-330 | a revertive config comes first, then one reason per unparsable path, in order, then the config's own paths |
| ClearDeviation.EntriesSplit | apis/config/target_helpers.go:283-339 | every entry ends up on exactly one side; no rejections means every entry is valid |
| ClearDeviation.OneIntentPerEntry | apis/config/target_helpers.go:332-338 | without rejections the i-th intent is non-revertive and keyed by the config the i-th entry names |
| ClearDeviation.ToFieldErrors | apis/config/target_helpers.go:386-400 | one field error per rejection, indexed by its place in the list of rejections |
| ClearDeviation.FieldErrorOf | apis/config/target_helpers.go:386-400 | the field error of a rejected entry carries its name and errors, and the number of rejections before it as its index |
| ClearDeviation.FieldIndexRight | apis/config/target_helpers.go:386-400 | that index is the entry's own if and only if all entries before it were rejected |
| ClearDeviation.FieldIndexWrong | apis/config/target_helpers.go:386-400 | a batch whose second entry is reported as the first |
| ClearDeviationTx.Retry | apis/config/target_helpers.go:441-505 | at most maxAttempts, stops at the first success, non-recoverable error or cancelled wait, returns the last attempt; no error only if connecting, Set and Confirm all succeeded in it; total wait base*(2^(tries-1)-1) |
| ClearDeviationTx.OnceOutcome | apis/config/target_helpers.go:473-525 | an attempt fails with the first error of connect, Set and Confirm; a Confirm error keeps its code and gets a prefix; it is retried if and only if the code is Aborted, ResourceExhausted, Unavailable or DeadlineExceeded |
| ClearDeviationTx.ExecuteTx | apis/config/target_helpers.go:412-439 | one to four attempts, each but the last retryable and not cancelled, 200 ms doubled between them; the outcome is the last attempt's |
| ClearDeviationTx.BuildStatus | apis/config/target_helpers.go:529-586 | for every iteration order of the maps: one result per response intent, then the entries not reported on; all failed without a response |
| ClearDeviationTx.EveryNameAnswered | apis/config/target_helpers.go:560-583 | every requested name gets at least one result |
| ClearDeviationTx.KeyToConfig | apis/config/target_helpers.go:554-557 | the reverse index takes each config's intent key back to that config |
| ClearDeviationTx.KeysInjective | apis/config/target_helpers.go:402-404 | for namespaces without dots, two configs have the same intent key if and only if namespace and name are the same |
| ClearDeviationTx.KeysDistinctIff | apis/config/target_helpers.go:332-338 | the intents of a transaction have different keys if and only if the entries name different configs |
| ClearDeviationTx.SharedKey | apis/config/target_helpers.go:332-338 | a batch whose two intents share one key |
| ClearDeviationTx.ResponseResultOf | apis/config/target_helpers.go:559-571 | each response result is attributed to the config whose intent it is, a success if and only if its error list is empty |
| ClearDeviationTx.SuccessUnder | apis/config/target_helpers.go:559-583 | what every result under a requested name says: the intent's errors decide if it was reported on and the name is the config's own, else the transaction |
| ClearDeviationTx.TruthfulIff | apis/config/target_helpers.go:559-583 | with success meaning that the transaction succeeded without an error for the intent: the results say so if and only if, under the config's own name with its intent reported on, the transaction succeeded or the intent has errors, and else the transaction failed or the intent has none |
| ClearDeviationTx.IntentIff | apis/config/target_helpers.go:559-583 | the results match the intent's errors alone if and only if the name is the config's own and the intent was reported on, or the overall outcome happens to match |
| ClearDeviationTx.ReportedAsCleared | apis/config/target_helpers.go:573-583 | a concrete failed intent reported as a success under its deviation's name |
| ClearDeviationTx.ConfirmFailed | apis/config/target_helpers.go:497-571 | a concrete transaction whose Confirm failed, reported as a success under the config's own name |
| ClearDeviationTx.ClearDeviations | apis/config/target_helpers.go:220-270 | all or nothing: a transaction is started if and only if all guards pass and every entry of a non-empty batch is valid, with one intent per entry; otherwise the matching reply and nothing sent. The status has the last attempt's error text or none; without a response every entry failed, with one its warnings and the results for it and for whether the attempt succeeded |
| Messages.CutAtRune | apis/condition/v1alpha1/message.go:57-65 | the loop finds the last rune start at or before n, or 0 |
| Messages.TruncateBounds | apis/condition/v1alpha1/message.go:42-53 | at most max bytes, idempotent, unchanged when it fits |
| Messages.TruncateExactly | apis/condition/v1alpha1/message.go:42-65 | for any bytes that are too long: the prefix up to the last rune start that leaves room for "...", and "..."; no suffix for bounds up to 3 |
| Messages.TruncateKeeps | apis/condition/v1alpha1/message.go:42-53 | valid UTF-8 stays valid; a cut message is the longest prefix ending at a rune start, plus the suffix, at least max-3 bytes |
| Messages.TruncateValidIff | apis/condition/v1alpha1/message.go:36-53 | for every message and bound, the result is valid UTF-8 if and only if the kept prefix is |
| Messages.TruncateInvalid | apis/condition/v1alpha1/message.go:36-53 | for every positive bound a message whose result is not valid, and for every bound above 4 one that is cut |
| Messages.RecordEvent | pkg/reconcilers/events.go:11-23 | panics if and only if a long message has no rune start up to byte 1021; otherwise records what TruncateMessage gives for 1024 |
| Messages.RecordsValidText | pkg/reconcilers/events.go:15-21 | valid UTF-8 never panics and is recorded as valid UTF-8 of at most 1024 bytes |
| Messages.RecordPanics | pkg/reconcilers/events.go:17-21 | 1025 continuation bytes panic |
| Conditions.ConditionedStatus.SetConditions | apis/condition/v1alpha1/condition.go:112-130 | the nested loops compute SetAll |
| Conditions.EqualIff | apis/condition/v1alpha1/condition.go:50-58 | two conditions are Equal if and only if giving one the other's transition time makes them the same |
| Conditions.OldTimeKept | apis/condition/v1alpha1/condition.go:109-130 | supplying a held condition with another transition time leaves the list as it is, old time included |
| Conditions.SetOneAt | apis/condition/v1alpha1/condition.go:112-130 | also with a type held several times: each entry of it is replaced if and only if none up to it is equal already; a new type is appended |
| Conditions.SetOneRefinesUpdate | apis/condition/v1alpha1/condition.go:112-130 | one condition updates the map: types stay unique, order is kept, a new type is appended, an equal entry keeps its transition time |
| Conditions.SetAllLookup | apis/condition/v1alpha1/condition.go:112-130 | a batch leaves the last supplied entry of each type, up to transition time, and the others untouched |
| Conditions.SetNothingNew | apis/condition/v1alpha1/condition.go:109-112 | setting conditions equal to those present changes nothing at all |
| Conditions.DedupeConditions | apis/condition/v1alpha1/condition.go:205-220 | unique types in first-occurrence order, the last value of each |
| Conditions.DedupeAgrees | apis/condition/v1alpha1/condition.go:208-220 | deduplication and setting on an empty status agree in type order and on every entry up to transition time |
| Conditions.StatusEqual | apis/condition/v1alpha1/condition.go:134-159 | on type-unique statuses, whatever permutation the unstable sort picks, true if and only if the two maps agree ignoring transition times |
| Conditions.SameMapIff | apis/condition/v1alpha1/condition.go:134-159 | on type-unique lists the relation holds if and only if they are as long and each condition of one is in the other but for its transition time |
| Conditions.TimesDoNotCount | apis/condition/v1alpha1/condition.go:134-159 | lists that differ only in transition times stand in the relation |
| Conditions.SameMapEquivalence | apis/condition/v1alpha1/condition.go:134-159 | that relation is an equivalence and blind to order |
| Conditions.ReapplyEqual | apis/condition/v1alpha1/condition.go:112-159 | re-applying a status's conditions makes the two Equal, and its own change nothing |
| Outcomes.RecoverableIff | apis/config/v1alpha1/config_helpers.go:79-83 | after any run, a config is skipped if and only if its last recorded outcome was unrecoverable for its current generation |
| Outcomes.SpecChangeRecovers | apis/config/v1alpha1/config_helpers.go:77-83 | a spec change always makes it recoverable |
| Outcomes.ReadyFollows | apis/config/v1alpha1/config_helpers.go:269-281 | Ready is False and Pending before the first outcome, True and Ready after a success, else False with the reason Failed or Unrecoverable; the message is not truncated twice |
| Outcomes.EntryIsLastRecord | apis/config/v1alpha1/condition.go:125-148 | after any run the ConfigReady entry is the last recorded outcome, up to transition time |

## Left out

- UnrecoverableMessage, ConfigStatusLastKnownGoodSchema, TargetClearDeviationSpec and
  TargetClearDeviationConfig codecs, and all other generated messages: they repeat shapes
  that the seven messages here cover, and the results of `Codec` hold for any schema.
- ConfigSpecMessages.ConfigBlobMessage.Unmarshal: the RawExtension codec is not part of this
  model; its encoding, its decoding and what it leaves on failure are parameters.
- DeviationMessages.SpecRoundTrip: a list is a sequence, so a nil slice and an empty one are one
  value; in Go an empty, non-nil Deviations comes back nil.
- ConfigSpecMessages.ConfigRoundTrip: the same for Config.
- ClearDeviationMessages.StatusRoundTrip: the same for Results, Warnings and Errors.
- DeviationMessages.DeviationSpec.Size: sums lengths without wrap-around, as do the other Size
  methods; a message whose size does not fit an int has no buffer to be written to.
- Lease deletion with its owner, leases written by anything but AcquireLease, and the
  random requeue interval.
- CommitAncestry.CheckCommitStatus: does not model a reference iterator that fails midway (the
  error is logged and what was found so far is used), nor how the default branch is detected.
- git clone, fetch, reset, checkout and authentication.
- Watcher callbacks, event contents, the select loop of Start and its cancellation: a callback
  is a boolean answer, a round can begin whenever the previous one is over.
- Conditions.StatusEqual: says nothing about statuses that hold a type twice, where the
  result depends on the unstable sort.
- The text of validation errors; each is a constructor with its parameters.
- gRPC connections, logging, the environment, timers and transaction ids; the data server's
  answers are parameters and waiting is a sum of back-offs.
- The internal-version duplicates of the condition and config helpers, REST strategies,
  conversions, deep copies, printers and main programs.
