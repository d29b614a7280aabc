# Ferro protocols, verified

A Dafny model of the parts of the Ferro protocol crates where correctness is hardest to see, with
proofs that hold for every input and every run.

**Lumberjack v2** (`ferro-lumberjack`). The wire codec, the streaming decoder over a compacting
buffer, the window reader with its caps, and the sender with wrapping sequence numbers and
failover. `frames.dfy` relates decoder and wire grammar, and `decoder.dfy` proves that cutting the
stream into reads is unobservable. `receiver.dfy`, `accounting.dfy` and `reading.dfy` cover the
window reader on arbitrary bytes: what it records, when it reads on, hands over or refuses, and how
it ends. `sender.dfy` is the client, and `delivery.dfy` joins them: what one side sends, the other
side returns, exactly when it fits the receiver's caps. zlib is a pair of functions of which only
`inflate(deflate(x)) = x` is assumed, as a precondition where it is needed.

**OCI metadata plane** (`ferro-oci-server`). Manifests, tags and referrers changed in place, a
snapshot written on every change, and a change taken back by hand when the write fails.
`oci_state.dfy` holds the mutations and their undoing, `oci_snapshot.dfy` the file,
`oci_registry.dfy` the imperative registry proved against them, `oci_runs.dfy` whole runs with
restarts, `oci_listing.dfy` pagination and `oci_name.dfy` the repository-name scanner.

**Cargo registry** (`ferro-cargo-registry-server`). Publish, yank, owners and download over an
index, a shared content-addressed blob store and a snapshot. `cargo_index.dfy`,
`cargo_snapshot.dfy` and `cargo_server.dfy` mirror the split above; `cargo_runs.dfy` proves what
every run keeps, with downloads split into lookup and fetch, and process crashes.

**Smaller algorithms.** Edge extraction from Airflow shift chains (`airflow.dfy`) and the Maven
path parser and printer (`maven.dfy`).

Both snapshot writers are modelled by their three outcomes (`durability.dfy`): saved, failed before
the file was replaced, and failed after it. SHA-256 is any function; the Cargo runs assume that it
yields 64 lower-case hexadecimal digits, and the OCI runs that callers name a manifest by the hash of
its body and register descriptors of manifests that are present, which is what the handlers do.

Some promises do not hold as documented. For these the model keeps the code's behaviour and states
the exact condition:

- A failed OCI put restores the registry exactly only when the repository had no empty map of its
  own (`OciState.PutUndoneExactly`, reached in a run by `OciRuns.RepositoryForgotten`). A failed delete
  is exact only when the repository had no empty subject list (`OciState.DeleteUndoneExactly`), which
  is so in every run (`OciRuns.FailedDeleteChangesNothing`).
- A Cargo save that fails after the file was replaced leaves the refused version on file; a restart
  shows it, possibly without its blob (`CargoRuns.PhantomVersion`).
- With load balancing the cursor advances twice per failed attempt, so an even number of hosts is
  not tried completely (`Sender.RotationDistinct`, with `Sender.OneOfTwoHostsTried`).
- Sequence numbers repeat after 2^32 events (`Sender.ReservedDistinct`).
- A shift chain longer than 1024 is read from its last 1023 shifts only
  (`Airflow.EveryChainExtracted`), and so can lose edges (`Airflow.RepeatedLink`, with
  `Airflow.LongChainLosesEdge`).
- A Maven path with a dotted group directory prints differently, and some coordinates are not read
  back from the path they print (`Maven.AcceptedRebuilds` and `Maven.PrintedReadBack`, with
  `Maven.DottedDirectoryMoved`, `Maven.ChecksumExtensionMisread` and
  `Maven.ArchiveClassifierMisread`).

Where code and comments differ the model follows the code. The receiver's `last_seq` is documented
as the highest sequence number observed, but is the last one recorded. The client without load
balancing is documented to try the first host first, but stays with the host of its cursor. The
receiver's event-count check on a recorded event is described as a guard against compressed frames,
but cannot be reached once the declared count has passed (`Accounting.EveryReadAccounted`).

`dafny verify dfyconfig.toml` checks the whole project.

## Model

| member | source | states |
|---|---|---|
| `Wire.BigEndian` | crates/ferro-lumberjack/src/frame.rs:136-144 | four octets, and reading them back gives the integer |
| `Wire.BigEndianDigits` | crates/ferro-lumberjack/src/frame.rs:136-144 | the most significant octet comes first |
| `Wire.BigEndianOfRead` | crates/ferro-lumberjack/src/frame.rs:294-312 | writing what was read gives back the four octets, so lengths and sequence numbers are spelled in one way only |
| `Sequence.AdvanceIsSerial` | crates/ferro-lumberjack/src/sequence.rs:33-35 | advancing a wrapping counter is counting events, reduced modulo 2^32 |
| `Sequence.SerialOrderIsEventOrder` | crates/ferro-lumberjack/src/sequence.rs:41-60 | for any two events less than 2^31 apart, the wrapping order and equality of their numbers are the order and equality of the events (serial arithmetic, section 3 of RFC 1982) |
| `Sequence.IncomparableIffOpposite` | crates/ferro-lumberjack/src/sequence.rs:41-60 | two numbers are incomparable in both directions exactly when they are 2^31 apart |
| `Frames.DecodeProgress` | crates/ferro-lumberjack/src/frame.rs:294-312 | a decoded frame uses at least six and at most all of the unread bytes |
| `Frames.DecodeStable` | crates/ferro-lumberjack/src/frame.rs:294-457 | a frame or an error decided on a prefix is decided identically on every extension of it |
| `Frames.ScanAdvances` | crates/ferro-lumberjack/src/frame.rs:403-457 | the walk over a legacy frame advances by at least the length prefixes it passes |
| `Frames.ScanCursorBounded` | crates/ferro-lumberjack/src/frame.rs:403-457 | after any number of fields the legacy walk's cursor is within the unread bytes plus one payload, and adding the next length prefix to it does not overflow 64 bits |
| `Frames.EnoughBytesDecide` | crates/ferro-lumberjack/src/frame.rs:294-457 | the decoder never waits for ever: past the header, the cap (for a legacy frame, the cap for each field) is enough to decide |
| `Frames.DecodeIffSpells` | crates/ferro-lumberjack/src/frame.rs:136-203 | the decoder yields a frame using n bytes if and only if the first n bytes spell that frame in the wire grammar, which is defined from the encoders and without the decoder |
| `Frames.RefusedExactly` | crates/ferro-lumberjack/src/frame.rs:294-484 | the decoder raises an error if and only if the bytes deserve it: a wrong version, an unknown type, an announced length over the cap, inflated bytes over the cap, or a stream that does not inflate |
| `Frames.WireLayout` | crates/ferro-lumberjack/src/frame.rs:136-172 | version and type characters, then sequence number, length and payload in their places |
| `Frames.SpelledJsonDecodes` | crates/ferro-lumberjack/src/frame.rs:159-172 | every encoded JSON frame within the cap decodes to its sequence number and payload, using exactly its own bytes |
| `Frames.SpelledCompressedDecodes` | crates/ferro-lumberjack/src/frame.rs:374-395 | a compressed frame decodes to its inflated bytes when both sides are within the cap |
| `Frames.SpelledLegacyDecodes` | crates/ferro-lumberjack/src/frame.rs:403-457 | a legacy data frame of any number of pairs decodes to itself, whole |
| `Decoder.DecodeAllAppend` | crates/ferro-lumberjack/src/frame.rs:294-312 | decoding everything in a concatenation is decoding the first part, then the rest of it joined to the second; the first error is final |
| `Decoder.RunConserves` | crates/ferro-lumberjack/src/frame.rs:269-312 | after any interleaving of feeds and polls, the frames seen followed by the decoding of the unread bytes are the decoding of all bytes fed |
| `Decoder.ChunkingUnobservable` | crates/ferro-lumberjack/src/frame.rs:269-312 | however the bytes are cut into feeds and wherever polls fall, a drained decoder has shown the frames, the rest and the first error of one big feed |
| `Decoder.FrameDecoder.Feed` | crates/ferro-lumberjack/src/frame.rs:269-283 | unread bytes survive compaction, the buffer is at most twice the unread bytes, and all bytes ever moved are at most twice all bytes consumed |
| `Decoder.FrameDecoder.NextFrame` | crates/ferro-lumberjack/src/frame.rs:294-312 | removes exactly the frame at the front of the unread bytes, or changes nothing; the result is the decoding of those bytes |
| `Decoder.FrameDecoder.DecodeFront` | crates/ferro-lumberjack/src/frame.rs:294-312 | dispatching on the frame type in place computes the decoding of the unread bytes |
| `Decoder.FrameDecoder.TryDecodeJson` | crates/ferro-lumberjack/src/frame.rs:351-372 | the in-place step computes the JSON decoding of the unread bytes |
| `Decoder.FrameDecoder.TryDecodeCompressed` | crates/ferro-lumberjack/src/frame.rs:374-395 | the in-place step computes the compressed decoding of the unread bytes, limits included |
| `Decoder.FrameDecoder.TryDecodeLegacy` | crates/ferro-lumberjack/src/frame.rs:403-457 | the two nested loops with one cursor compute the field walk of the legacy frame |
| `Receiver.ConsumeFront` | crates/ferro-lumberjack/src/server.rs:269-380 | reading a window may decide on the bytes received so far: what arrives later never changes the frame absorbed or the error raised |
| `Receiver.ServerConnection.ReadWindow` | crates/ferro-lumberjack/src/server.rs:269-380 | for any arrival of bytes, the call returns the window, error or end of stream of the whole unread stream, and leaves exactly the bytes after it unread; what that answer is, `Reading.WindowReadExactly`, `Accounting.EveryReadAccounted`, `Reading.RefusalNamed` and `Reading.CleanEndExactly` say |
| `Receiver.ServerConnection.Receive` | crates/ferro-lumberjack/src/server.rs:269-380 | one socket read moves bytes into the decoder without changing the unread stream |
| `Receiver.ServerConnection.ReadInner` | crates/ferro-lumberjack/src/server.rs:313-348 | the loop over a decompressed payload absorbs its frames in turn, refusing nested window, ack and compressed frames |
| `Accounting.EachAccounts` | crates/ferro-lumberjack/src/server.rs:408-461 | over any data frames, events recorded and slots consumed stay within the caps also where a frame is refused |
| `Accounting.TallyMore` | crates/ferro-lumberjack/src/server.rs:269-461 | each absorbed frame keeps the account: declared count = recorded events + legacy slots + remaining |
| `Accounting.StoppedPartway` | crates/ferro-lumberjack/src/server.rs:313-461 | where a frame is refused part-way, what was recorded before it still adds up to the declared count |
| `Accounting.ConsumeIsFold` | crates/ferro-lumberjack/src/server.rs:269-380 | reading a window off bytes is a fold over the frames they decode to, and leaves the frames after it to be read |
| `Accounting.EveryReadAccounted` | crates/ferro-lumberjack/src/server.rs:269-461 | for every byte string: the window read, still open or rejected accounts for exactly the data frames recorded (declared = events + legacy slots + remaining; a rejected one recorded every frame before the last and a part of that), events are the JSON frames in stream order, event and byte caps hold on every path, and the event-count error can only come from the declared count |
| `Reading.AbsorbsEach` | crates/ferro-lumberjack/src/server.rs:408-461 | data frames, events and legacy slots alike, are absorbed if and only if there is a slot for each, room for their bytes, and nothing else among them |
| `Reading.ReadsExactly` | crates/ferro-lumberjack/src/server.rs:269-461 | over every stream of frames, the reader reads on if and only if the frames are an open window, and hands over exactly where they complete one: header first and once, within the caps, data only, compressed or not |
| `Reading.WindowReadExactly` | crates/ferro-lumberjack/src/server.rs:269-461 | the same over every byte string: starved, complete and rejected are told apart by the frames decoded alone |
| `Reading.RefusalNamed` | crates/ferro-lumberjack/src/server.rs:269-461 | the error of a refused frame names a second header, an ack, the first data frame without a slot, a frame that has no place in a batch, or the bytes that would have been reached |
| `Reading.CleanEndExactly` | crates/ferro-lumberjack/src/server.rs:364-378 | when the stream ends, a socket fault is reported, and otherwise the end is clean if and only if no window was announced |
| `Sender.AckVerdicts` | crates/ferro-lumberjack/src/client.rs:283-315 | across wrap-around, every well-formed ack is exactly one of full, partial k with 1 <= k < count, or unexpected |
| `Sender.ForeignAckUnexpected` | crates/ferro-lumberjack/src/client.rs:283-291 | only the six bytes of an ack frame acknowledge anything, in full or in part |
| `Sender.ReservedContiguous` | crates/ferro-lumberjack/src/client.rs:208-223 | over any run of sends the reserved numbers are those of consecutive events |
| `Sender.ReservedDistinct` | crates/ferro-lumberjack/src/client.rs:208-223 | no number is handed out twice if and only if at most 2^32 events were sent |
| `Sender.RotationDistinct` | crates/ferro-lumberjack/src/client.rs:225-241 | one attempt per host reaches every host exactly once if and only if load balancing is off or the number of hosts is odd |
| `Sender.OneOfTwoHostsTried` | crates/ferro-lumberjack/src/client.rs:342-351 | with load balancing over two hosts, both attempts go to the same host |
| `Sender.Client.PickHost` | crates/ferro-lumberjack/src/client.rs:342-351 | the host at the cursor, which moves only when balancing |
| `Sender.Client.SendPayloadOnce` | crates/ferro-lumberjack/src/client.rs:252-315 | a live connection is kept and used, otherwise the next host is connected; there is a verdict exactly when a host was reached and replied, and it is that of the reply |
| `Sender.Client.TryHosts` | crates/ferro-lumberjack/src/client.rs:225-248 | the hosts tried are a rotation; the send succeeds at the first attempt that reaches a host, over the live connection or a new one, and is fully acked, leaving that connection open; it fails exactly when no attempt does, after one attempt per host, with the connection closed |
| `Sender.Client.SendJson` | crates/ferro-lumberjack/src/client.rs:208-248 | the batch's numbers are spent whatever happens, an empty batch has no effect, the outcome is that of the rotation, and a send that fails has tried every host exactly once if and only if balancing is off or the number of hosts is odd |
| `Sender.Client.BuildWindowPayload` | crates/ferro-lumberjack/src/client.rs:317-340 | the window header, then the numbered frames of the batch, compressed only when that is shorter |
| `Sender.EncodeBatch` | crates/ferro-lumberjack/src/client.rs:317-323 | the loop numbers the i-th event base + i + 1 modulo 2^32 and concatenates the frames |
| `Sender.PayloadShortest` | crates/ferro-lumberjack/src/client.rs:325-339 | the payload is no longer than either form allowed, and is the plain one when compression is off or fails |
| `Delivery.NumberedInOrder` | crates/ferro-lumberjack/src/client.rs:317-323 | the i-th event of a batch carries number base + i + 1 modulo 2^32 and its own payload |
| `Delivery.ConsumeCompressed` | crates/ferro-lumberjack/src/server.rs:313-348 | a compressed batch is absorbed as its inner bytes would be, or rejected when these exceed the payload cap |
| `Delivery.WindowDelivered` | crates/ferro-lumberjack/src/server.rs:269-380 | the receiver returns exactly the batch sent, and leaves the bytes after it, if and only if the batch fits the receiver's caps |
| `Delivery.SentInTurn` | crates/ferro-lumberjack/src/client.rs:208-223 | the i-th window of a session is the i-th batch, numbered after all batches before it, and acknowledging its last number is a full ack for its sender |
| `Delivery.ReceiveSession` | crates/ferro-lumberjack/src/server.rs:269-380 | for any batches that fit, written one after the other, compressed or not, and cut into socket reads anywhere, successive reads return exactly these batches in order and then the end of the stream, and acknowledging each window read is a full ack for the batch sent |
| `Delivery.CutWindowEnds` | crates/ferro-lumberjack/src/server.rs:364-378 | a window cut at any byte is not returned, and its end is an error unless not even the header arrived |
| `Delivery.ReceiveCutSession` | crates/ferro-lumberjack/src/server.rs:269-380 | for a session cut at any byte, successive reads return exactly the batches that arrived whole, and the end is clean only between windows or before the next header is complete |
| `Delivery.AckOfWindowIsFull` | crates/ferro-lumberjack/src/client.rs:283-297 | acknowledging the last number of a delivered window is a full ack for its sender |
| `OciState.ReplayRemoval` | crates/ferro-oci-server/src/registry.rs:773-815 | recording a removed descriptor with its index keeps the log an exact undo, and no replayed index is ever clamped |
| `OciState.ReplayDropsEmpty` | crates/ferro-oci-server/src/registry.rs:773-815 | lists emptied by the delete may be dropped before the replay, which recreates the ones it needs |
| `OciState.DeleteUndoneExactly` | crates/ferro-oci-server/src/registry.rs:773-815 | a failed delete restores the state exactly if and only if the repository had no empty subject list |
| `OciState.InsertTakenBack` | crates/ferro-oci-server/src/registry.rs:663-706 | taking back an insertion and pruning leaves what pruning alone would have left |
| `OciState.PushTakenBack` | crates/ferro-oci-server/src/registry.rs:990-1006 | taking back an appended descriptor leaves the lists as they were, but for a list of that subject that was empty |
| `OciState.PutUndoneExactly` | crates/ferro-oci-server/src/registry.rs:484-498 | a failed put or registration restores the state exactly if and only if the repository had no empty map of its own |
| `OciState.EmptiedRepositoryForgotten` | crates/ferro-oci-server/src/registry.rs:484-498 | a repository left with an empty manifest map is forgotten by a put that fails |
| `OciSnapshot.HexRoundTrip` | crates/ferro-oci-server/src/registry.rs:343-414 | manifest bodies survive their hexadecimal form |
| `OciSnapshot.HexDecodeExactly` | crates/ferro-oci-server/src/registry.rs:354-368 | a body decodes to given bytes if and only if, letter case aside, it is how they are written |
| `OciSnapshot.LoadSnapshot` | crates/ferro-oci-server/src/registry.rs:343-414 | the nested loops compute the loaded state: manifests with undecodable bodies or wrong digests are dropped, tags and referrers kept |
| `OciSnapshot.LoadedEntry` | crates/ferro-oci-server/src/registry.rs:343-414 | entry by entry, whatever else the file holds, a manifest is loaded if and only if it sits under the SHA-256 of its body, and then as written |
| `OciSnapshot.LoadedFromFile` | crates/ferro-oci-server/src/registry.rs:343-414 | nothing else is loaded, and tags and referrers are loaded as written |
| `OciSnapshot.KeepsIffCanonical` | crates/ferro-oci-server/src/registry.rs:343-414 | a repository is loaded whole if and only if every manifest sits under its own SHA-256 |
| `OciSnapshot.LoadedCanonical` | crates/ferro-oci-server/src/registry.rs:374-405 | whatever the file holds, nothing is loaded under a digest that is not the SHA-256 of its body |
| `OciSnapshot.LoadedExactly` | crates/ferro-oci-server/src/registry.rs:343-466 | loading a written snapshot gives the state back if and only if every manifest sits under its own SHA-256 |
| `OciRegistry.RegistryMeta.PersistLocked` | crates/ferro-oci-server/src/registry.rs:432-466 | the three save outcomes and their effect on the file; without persistence nothing is written and nothing fails |
| `OciRegistry.RegistryMeta.PutManifestWithReferrer` | crates/ferro-oci-server/src/registry.rs:617-709 | manifest, tag and referrer are stored together and on file, or the hand-written undo leaves the state specified for a failed put |
| `OciRegistry.RegistryMeta.RegisterReferrer` | crates/ferro-oci-server/src/registry.rs:975-1009 | the descriptor is appended and on file, or taken back |
| `OciRegistry.RegistryMeta.DeleteManifest` | crates/ferro-oci-server/src/registry.rs:737-822 | by tag or without the manifest nothing happens; otherwise manifest, tags and descriptors go together, or everything is restored but subject lists that were empty before |
| `OciRegistry.RegistryMeta.RemoveTags` | crates/ferro-oci-server/src/registry.rs:751-760 | exactly the tags of the digest are removed and recorded |
| `OciRegistry.RegistryMeta.RestoreTags` | crates/ferro-oci-server/src/registry.rs:797-802 | the recorded tags put back give the tags before |
| `OciRegistry.RegistryMeta.PruneReferrers` | crates/ferro-oci-server/src/registry.rs:772-789 | every descriptor naming the digest is removed, and the record of removals undoes it exactly |
| `OciRegistry.RegistryMeta.RestoreReferrers` | crates/ferro-oci-server/src/registry.rs:803-814 | replaying the removals last one first gives back every list, element for element |
| `OciRegistry.RegistryMeta.PruneEmptyRepoInPlace` | crates/ferro-oci-server/src/registry.rs:484-498 | drops exactly the repository's empty maps |
| `OciRegistry.PruneSubject` | crates/ferro-oci-server/src/registry.rs:772-789 | walking one list back to front removes the digest's descriptors in place and extends the undo log exactly |
| `OciRegistry.ReplayLog` | crates/ferro-oci-server/src/registry.rs:803-814 | the reverse loop is the replay, and its bound on the index never takes effect |
| `OciRuns.ApplyWellFormed` | crates/ferro-oci-server/src/registry.rs:617-822 | a mutation keeps every repository well formed: tags and referrers name manifests of it, no subject list is empty, manifests sit under their SHA-256 |
| `OciRuns.UndoneWellFormed` | crates/ferro-oci-server/src/registry.rs:663-815 | a failed mutation keeps the state well formed and unchanged up to empty maps |
| `OciRuns.NextCoherent` | crates/ferro-oci-server/src/registry.rs:432-576 | each call, with any save outcome, and each restart keeps memory and file well formed and the file equal to memory plus at most the one unacknowledged mutation |
| `OciRuns.EveryRunCoherent` | crates/ferro-oci-server/src/registry.rs:343-822 | in every run of calls, failures of both kinds and restarts, memory and file are well formed, and the file is memory, or memory with exactly one unacknowledged mutation applied, up to empty maps |
| `OciRuns.AcknowledgedIsDurable` | crates/ferro-oci-server/src/registry.rs:617-822 | after a mutation returns success, a restart gives back exactly the state in memory |
| `OciRuns.FailedDeleteChangesNothing` | crates/ferro-oci-server/src/registry.rs:773-815 | in every run, a delete whose save fails leaves memory exactly as it was |
| `OciRuns.RepositoryForgotten` | crates/ferro-oci-server/src/registry.rs:484-498 | a run in which a failed put is not exact: after a put and a delete of the only manifest, a put that fails removes the repository |
| `OciRuns.ListedIsPullable` | crates/ferro-oci-server/src/registry.rs:711-735 | in every run, the tags listed are exactly those that can be pulled, everything pulled has the digest of its body, and every referrer listed can be pulled |
| `OciRuns.PutThenPull` | crates/ferro-oci-server/src/registry.rs:617-735 | a put is seen under its digest, its tag and every tag already leading to its digest; every other pull is unchanged |
| `OciRuns.DeleteThenPull` | crates/ferro-oci-server/src/registry.rs:711-822 | a delete hides its manifest under every reference and changes no other pull |
| `OciRuns.RegisterThenListed` | crates/ferro-oci-server/src/registry.rs:975-989 | a registered descriptor, alone or with a put, is listed after everything listed before for its subject; every other list is unchanged |
| `OciRuns.DeleteThenListed` | crates/ferro-oci-server/src/registry.rs:772-789 | a delete removes exactly the descriptors of its digest from every list of its repository and keeps the others in order; other repositories are unchanged |
| `OciRuns.DeletedIsGone` | crates/ferro-oci-server/src/registry.rs:737-822 | after an acknowledged delete the manifest cannot be pulled, whether or not it was there |
| `OciListing.ListPage` | crates/ferro-oci-server/src/registry.rs:824-858 | the page is sorted, holds only names after the marker, has at most n of them and leaves out only later ones |
| `OciListing.SortNames` | crates/ferro-oci-server/src/registry.rs:824-858 | all names of the set, in strictly increasing byte order |
| `OciListing.LessExactly` | crates/ferro-oci-server/src/registry.rs:824-858 | names are ordered by their first differing character, a proper prefix first |
| `OciListing.WalkVisitsAll` | crates/ferro-oci-server/src/registry.rs:824-858 | any walk that starts each page after the last name of the one before lists every name exactly once, in order |
| `OciListing.WalkPages` | crates/ferro-oci-server/src/registry.rs:824-858 | such a walk ends, and lists every name exactly once, in order |
| `OciName.ValidateComponent` | crates/ferro-oci-server/src/reference.rs:64-100 | the index loop accepts exactly strings with alphanumeric ends and a separator in every gap |
| `OciName.ScansIffComponent` | crates/ferro-oci-server/src/reference.rs:64-112 | that condition holds exactly for the path components of the OCI grammar |
| `OciName.NameIffSplitScans` | crates/ferro-oci-server/src/reference.rs:37-62 | a name is slash-joined components of at most 255 characters if and only if every part between its slashes passes the scanner |
| `OciName.ValidateName` | crates/ferro-oci-server/src/reference.rs:37-62 | accepts exactly the names of the `<name>` grammar of the OCI Distribution Specification v1.1, up to 255 characters |
| `CargoIndex.SharedKey` | crates/ferro-cargo-registry-server/src/name.rs:61-70 | two names share a key exactly when they agree up to letter case and up to `-` for `_`, and the key is the spelling in lower case with `_` |
| `CargoIndex.NameRules` | crates/ferro-cargo-registry-server/src/name.rs:21-33 | the edges of the name rules: length, first character, and characters never allowed |
| `CargoIndex.RollbackExact` | crates/ferro-cargo-registry-server/src/handlers.rs:318-336 | rolling back a publish restores the index exactly if and only if the crate had no stray tarball of that version and was not an empty record |
| `CargoIndex.Find` | crates/ferro-cargo-registry-server/src/handlers.rs:408-440 | the first entry of the version, or none when no entry has it |
| `CargoIndex.FindAfterFlag` | crates/ferro-cargo-registry-server/src/handlers.rs:424-437 | setting a flag does not change which entry a version finds, so the undo reaches the entry that was changed |
| `CargoIndex.AddLoginsDistinct` | crates/ferro-cargo-registry-server/src/handlers.rs:505-523 | adding owners keeps logins and ids unique, keeps the owners there, and adds exactly the logins asked for |
| `CargoIndex.RemoveLoginsDistinct` | crates/ferro-cargo-registry-server/src/handlers.rs:505-523 | removing owners keeps the others, and exactly those |
| `CargoSnapshot.Load` | crates/ferro-cargo-registry-server/src/persist.rs:84-150 | the nested loops compute the loaded index: entries with unsound checksums dropped, tarballs rebuilt from the checksums, crates without entries skipped |
| `CargoSnapshot.ChecksumShape` | crates/ferro-cargo-registry-server/src/persist.rs:109-117 | a checksum is sound if and only if it is 64 hexadecimal digits |
| `CargoSnapshot.TarballsOfEntries` | crates/ferro-cargo-registry-server/src/persist.rs:84-150 | rebuilt tarballs map exactly the versions listed to their checksums |
| `CargoSnapshot.LoadedServable` | crates/ferro-cargo-registry-server/src/persist.rs:106-148 | whatever the file holds, boot lists of every crate exactly the entries with a sound checksum, in their order, and no crate without one; a version listed has the tarball its last entry names, and no other version has one |
| `CargoSnapshot.LoadedExactly` | crates/ferro-cargo-registry-server/src/persist.rs:84-205 | for every well-formed index, loading what was saved gives it back, although tarballs are never written |
| `CargoServer.CargoState.PersistLocked` | crates/ferro-cargo-registry-server/src/router.rs:139-155 | the three save outcomes and their effect on the file; without a snapshot path nothing is written and nothing fails |
| `CargoServer.CargoState.HandlePublish` | crates/ferro-cargo-registry-server/src/handlers.rs:171-309 | refused without effect, or stored, indexed and on file, or rolled back with its blob deleted unless some version uses it |
| `CargoServer.CargoState.RollbackPublish` | crates/ferro-cargo-registry-server/src/handlers.rs:318-336 | the in-place undo computes the rolled-back index |
| `CargoRuns.AcceptedExactly` | crates/ferro-cargo-registry-server/src/handlers.rs:171-252 | a publish is let through if and only if name, version and fields are sound, a declared checksum is the computed one, no listed crate has a colliding name spelled otherwise or the same version, and the blob was stored |
| `CargoRuns.RefusedExactly` | crates/ferro-cargo-registry-server/src/handlers.rs:171-255 | which refusal a publish gets: the first of its faults in the order they are checked, a colliding crate being named by the spelling it is listed under |
| `CargoRuns.PublishTakesEffect` | crates/ferro-cargo-registry-server/src/handlers.rs:255-262 | an acknowledged publish adds its line, not yanked and with the computed checksum, after those listed under its key, stores its tarball, changes no other crate, and is all there after a restart |
| `CargoServer.DigestReferencedIn` | crates/ferro-cargo-registry-server/src/handlers.rs:350-357 | true exactly when some version of some crate maps to the digest |
| `CargoServer.CargoState.SetYanked` | crates/ferro-cargo-registry-server/src/handlers.rs:408-440 | the flag is set and on file, or put back; unknown crates and versions change nothing |
| `CargoServer.CargoState.MutateOwners` | crates/ferro-cargo-registry-server/src/handlers.rs:491-536 | the owners are changed and on file, or the whole list put back |
| `CargoRuns.PublishedWellFormed` | crates/ferro-cargo-registry-server/src/handlers.rs:217-260 | an accepted publish keeps versions unique, one display name per key, and tarballs matching checksums |
| `CargoRuns.FailedPublishExact` | crates/ferro-cargo-registry-server/src/handlers.rs:268-336 | on a well-formed index a failed publish is rolled back to exactly the index before |
| `CargoRuns.KeptReferenced` | crates/ferro-cargo-registry-server/src/handlers.rs:350-357 | the digest of an acknowledged version is always found referenced, so its blob is never deleted as an orphan |
| `CargoRuns.YankTakesEffect` | crates/ferro-cargo-registry-server/src/handlers.rs:408-440 | an acknowledged yank or unyank sets the flag of its version and changes no other line, crate, tarball or owner |
| `CargoRuns.OwnersTakeEffect` | crates/ferro-cargo-registry-server/src/handlers.rs:491-523 | an acknowledged removal keeps exactly the owners not named, in order; an addition keeps the list and follows it with exactly the logins that were missing, under new ids; nothing else changes |
| `CargoRuns.NextSafe` | crates/ferro-cargo-registry-server/src/handlers.rs:171-536 | every event, with every save outcome, preserves the safety invariant of memory, file, blobs and downloads in flight |
| `CargoRuns.EveryRunSafe` | crates/ferro-cargo-registry-server/src/handlers.rs:171-536 | in every state of every run the index in memory and the one on file are well formed and hold every acknowledged line, blobs match their digests, and downloads in flight are valid |
| `CargoRuns.NamesNeverCollide` | crates/ferro-cargo-registry-server/src/handlers.rs:217-245 | in every run, no two crates have colliding names and no crate has two spellings |
| `CargoRuns.AcknowledgedForever` | crates/ferro-cargo-registry-server/src/handlers.rs:171-388 | a version once acknowledged stays, in memory and on file, at its index position with every field but `yanked` unchanged, and its tarball stays stored under its hash, over every later publish, failure, crash and restart |
| `CargoRuns.DownloadsAreGenuine` | crates/ferro-cargo-registry-server/src/handlers.rs:360-388 | a download of an acknowledged version, however its lookup and fetch interleave with other requests, returns bytes whose SHA-256 is its checksum |
| `CargoRuns.FailureChangesNothing` | crates/ferro-cargo-registry-server/src/handlers.rs:268-336 | in every run, a publish, yank or owner change whose save fails leaves the index exactly as it was |
| `CargoRuns.PhantomVersion` | crates/ferro-cargo-registry-server/src/persist.rs:231-243 | after a save that fails late, a restart shows the unacknowledged version, and its blob is there if and only if another version uses it or its deletion failed |
| `CargoRuns.SmoothRunTidy` | crates/ferro-cargo-registry-server/src/handlers.rs:268-357 | in every run without crashes and failed deletions, the blob store holds exactly the digests in use |
| `Airflow.Walker.PushUniqueEdge` | crates/ferro-airflow-dag-parser/src/ruff_impl.rs:510-517 | the edge is stored once, and earlier edges stay in place |
| `Airflow.Walker.TerminalTaskIds` | crates/ferro-airflow-dag-parser/src/ruff_impl.rs:304-332 | the task ids an operand stands for, its depth limit included |
| `Airflow.Walker.CollectShiftEdges` | crates/ferro-airflow-dag-parser/src/ruff_impl.rs:265-302 | the recursion with its nested loops adds exactly the specified edges, each once |
| `Airflow.ChainExtracted` | crates/ferro-airflow-dag-parser/src/ruff_impl.rs:265-355 | for a chain of up to 1024 mixed shifts over names and lists, the edges are those of evaluating it left to right with each shift returning its right operand |
| `Airflow.LinkDirection` | crates/ferro-airflow-dag-parser/src/ruff_impl.rs:284-290 | `left >> right` links the tasks of left to those of right, `left << right` the other way, and nothing else is linked |
| `Airflow.EveryChainExtracted` | crates/ferro-airflow-dag-parser/src/ruff_impl.rs:265-302 | for a chain of any length: all its edges up to 1024 shifts, and exactly those of its last 1023 shifts beyond |
| `Airflow.RepeatedLink` | crates/ferro-airflow-dag-parser/src/ruff_impl.rs:265-302 | evaluating a chain that repeats one task links the first task to it, and the walk finds that link if and only if there are at most 1024 shifts |
| `Airflow.LongChainLosesEdge` | crates/ferro-airflow-dag-parser/src/ruff_impl.rs:265-302 | a chain of 1025 shifts whose first dependency is lost |
| `Airflow.NeverSpurious` | crates/ferro-airflow-dag-parser/src/ruff_impl.rs:265-302 | on every expression, nested right-hand shifts included, no edge is added that evaluation would not add |
| `Airflow.LatestAliasIsLast` | crates/ferro-airflow-dag-parser/src/ruff_impl.rs:334-355 | a name resolves to its latest binding, and to nothing exactly when it was never bound |
| `Maven.FirstIllegalIsFirst` | crates/ferro-maven-layout/src/coordinate.rs:160-168 | the character an error reports is the first illegal one of the field |
| `Maven.ValidExactly` | crates/ferro-maven-layout/src/coordinate.rs:80-108 | a coordinate is accepted exactly when each field is non-empty, not `.` or `..` and free of separators, colons and control characters; an error names the first field that is not |
| `Maven.NeverClimbs` | crates/ferro-maven-layout/src/coordinate.rs:134-142 | no accepted coordinate prints a path with a `.` or `..` segment |
| `Maven.PathIs` | crates/ferro-maven-layout/src/coordinate.rs:112-142 | the directories and the file name a coordinate prints |
| `Maven.SplitCompound` | crates/ferro-maven-layout/src/layout.rs:219-228 | finds a known compound extension behind a non-empty classifier if the tail has one, and cuts the tail there |
| `Maven.SplitPrinted` | crates/ferro-maven-layout/src/layout.rs:219-237 | a classifier and an extension joined by a dot are split back exactly when the extension is a known compound one, or has no dot and does not swallow a `.tar` ending |
| `Maven.StripPrinted` | crates/ferro-maven-layout/src/layout.rs:175-182 | the checksum suffix of a printed name is stripped, and a plain name is mistaken for a checksum only by the last part of its extension |
| `Maven.PrintedReadBack` | crates/ferro-maven-layout/src/layout.rs:61-109 | parsing the path of a coordinate, or of one of its checksums, returns it if and only if its group has no empty part, the name is not that of a metadata file, a plain extension does not end like a checksum, and classifier and extension can be split |
| `Maven.AcceptedRebuilds` | crates/ferro-maven-layout/src/layout.rs:61-157 | every accepted artifact, checksum or metadata path has a valid coordinate, and printing it gives the path without empty segments if and only if no group directory holds a dot |
| `Maven.RebuiltMetadata` | crates/ferro-maven-layout/src/layout.rs:111-157 | which segments of an accepted metadata path become group, artifact and version |
| `Maven.MetadataReadBack` | crates/ferro-maven-layout/src/layout.rs:111-157 | parsing the path of a metadata document returns what it was printed for if and only if the group has no empty part, a version has a digit, and an artifact of a nested group has none |
| `Maven.DottedDirectoryMoved` | crates/ferro-maven-layout/src/layout.rs:61-109 | a dotted group written as one directory is accepted as that group, and is the printed path only without dots |
| `Maven.ChecksumExtensionMisread` | crates/ferro-maven-layout/src/layout.rs:175-182 | an artifact with extension `md5` is not read back from its path |
| `Maven.ArchiveClassifierMisread` | crates/ferro-maven-layout/src/layout.rs:219-237 | an artifact with classifier `x.tar` and extension `gz` is not read back from its path |

## Left out

- Sender.Client.PickHost: does not model the host cursor wrapping at 2^64, which would shift one rotation after that many picks.
- Receiver.ServerConnection.ReadWindow: does not model saturation of the byte count at 2^64, which no payload cap can reach.
- CargoServer.AppendOwners: does not model the 64-bit overflow of owner ids.
- CargoServer.CargoState.HandlePublish: takes the parsed request and its sparse-index fields as given; body framing and manifest coercion are not modelled.
- OciName.ValidateName: counts characters, which for the names it accepts are the bytes the code counts.
- Airflow.ChainExtracted: covers operands that are not shifts themselves; for nested right-hand shifts the extractor keeps only the outer edge, and `Airflow.NeverSpurious` is what holds.
- TLS, sockets, timeouts, HTTP routing, metrics, probes and configuration: a connection is the bytes that arrive, an attempt is whether it connects and what it replies.
- The retry loop of the atomic file writer and power loss: a save is reduced to its three outcomes, and blobs survive a process crash but power loss is not modelled.
- JSON, zlib, SHA-256 and semantic-version libraries: zlib, SHA-256 and semantic versions are function-valued parameters, and the JSON of a snapshot is the snapshot itself.
- Parsing digest strings: a digest is its algorithm and its hexadecimal string.
- Unreadable or corrupt snapshot files: a boot either finds no file or a snapshot.
- OCI upload sessions, the OCI request handlers and route splitting: the metadata plane is reached through its own operations.
- Filtering of listed referrers by artifact type, and the HTTP handlers around pagination: the filter only selects from a list the model determines, and the handlers pass their parameters on.
- The Maven request handlers: the layout map and the blob store are not changed in one critical section, so there is no invariant between them to prove.
- Airflow statement walking, dynamic markers and the panic guard: the model starts from expressions and the bindings in scope.
- Cargo search, index responses, sparse-index paths and publish warnings: they read the index and never change it, so no invariant depends on them.
