# A verified model of the protected-container core

The system packs a document into a container that only its author, a licence server and
chosen recipients can open. The container is a signed **header** (algorithms, author key,
policy, key slots, wrapped content key), a **mutable region** (length, chunk count, tree root,
editor signature) and a **payload** of AEAD frames, one per chunk. A Merkle tree over the frames
ties the payload to the region; canonical tag-length-value encodings tie every signed or hashed
byte string to one meaning; an engine process that holds the keys is driven over a pipe.

This project models that core and proves what its design promises. `dafny verify dfyconfig.toml`
checks all of it.

## How it is modelled

* **Tree digests** are a datatype (`LeafHash`, `NodeHash`, `RootHash`, `Opaque`), so two digests
  are equal exactly when their inputs are. `TreeDigests` and `ByteProofs` take that assumption
  back to bytes: for any function from byte strings to 32 bytes, two different trees with one root
  value, and every accepted proof of a false statement, contain two different inputs, hashed by
  the trees or the verifier themselves, that have one hash.
* **Cryptography** is a parameter: hash functions, AEAD (`Cipher`, only known to keep the length),
  MACs, key wrapping, share sealing, the RSA public operation. Nothing is assumed of them but
  lengths, so a statement holds for every primitive of that shape.
* **Loops and mutable objects** stay what they are: the tree, the TLV reader and writer, the byte
  source and sink, the message writer (a fixed array) and the message reader are classes; the
  encoders, decoders and proof walks are methods. Each is proved equal to a specification
  function, and the theorems are about those functions. What those functions compute is in turn
  stated without them: a verdict as a conjunction over the facts (`AccessMeans`), a slot as what is
  sealed in it for whom (`SlotsMean`), a reader as the records it accepts (`PolicyRead`,
  `HeaderRead`, `RequestRead`), a hash as its literal input (`TreeInputsAre`, `EncodesMeans`).
* **Integers** are unbounded with explicit ranges (`u16`, `u32`, `u64`, `i64`); checked arithmetic
  on 64-bit offsets is written out, `usize` is taken as unbounded.
* **Text** is a byte string that is well-formed UTF-8.
* Every lemma switches automatic induction off, so each inductive proof is the one its body spells.

| file | content |
|---|---|
| `Bytes`, `Text` | words, byte strings, integer encodings, UTF-8 |
| `Hashing`, `MerkleLevels`, `MerkleProofs`, `MerkleTree`, `TreeDigests`, `ByteProofs` | the integrity tree, over symbolic digests and over bytes |
| `Layout`, `Frames`, `Stream` | chunk arithmetic, frames, the streaming writer |
| `Tlv`, `Writing` | the tag-length-value codec |
| `Content`, `Editing`, `Sessions`, `EditWriter` | mutable region, editor signature, chain of saves, revisions |
| `Access`, `Policies` | access decisions, policies |
| `Formats`, `Readings`, `HeaderReadings`, `WireFormats` | what is written and what is accepted, spelled out byte by byte and record by record |
| `Evaluator`, `AccessRules`, `Strictness` | what a policy and a lease permit, in terms of the facts; how policies combine; when one admits more than another |
| `HeaderParts`, `Slots`, `Header`, `HeaderCore`, `Engine`, `Packed` | header, key slots, core hash, two-pass assembly, what a packed file holds |
| `Wire`, `WireReading`, `WireLaws` | engine messages |
| `Pss` | RSASSA-PSS encoding and verification |

## What was found

* **Equal sizes in a consistency proof.** For equal old and new counts `verify_consistency`
  compares the roots alone; the stated count is not tied to them (`EqualCountsAreNotBound`).
  `ConsistencyExact` states this case exactly. Between different sizes both counts are bound.
* **Leaf counts.** A test comment (`crates/oc-crypto/src/merkle.rs:682-688`) says some wrong leaf
  counts cannot be told apart. The code binds the count into the root and rejects every wrong
  one (`InclusionExact`); the model follows the code.
* **Frame order.** The documentation of the stream writer describes a frame as tag before
  ciphertext; the code emits ciphertext before tag. The model follows the code.
* **Writers that accept what their readers refuse.** Each has its exact condition and a concrete
  input: an editor record declaring Ed25519 (`EditorRoundTrip`, `Ed25519EditorIsRefused`), a suite
  declaring RSA-PSS or an AES profile (`SuiteRoundTrip`, `ForeignSuiteIsRefused`), a non-zero
  class or an unparsable kept slot (`HeaderRoundTrip`, `ForeignClassIsRefused`,
  `UnparsableSlotIsRefused`), an access decision whose share contradicts its flag
  (`DecisionRoundTrip`, `DenialWithShareIsRefused`). No such header comes out of `assemble`:
  whatever it encodes also decodes (`EncodedDecodes`).
* **A limit of zero opens.** Dropping the open-limit field of a policy relaxes a limit of zero,
  because an absent field reads as one open (`DroppingFieldsNeverRelaxes`, `ZeroLimitIsRelaxed`;
  in terms of decisions `DroppedFieldsNeverWiden`, `LostLimitWidens`).
* **What older versions cannot say.** Below version 4 the writer leaves out raised per-action
  bindings and the coauthor roster without an error, so the policy read back can admit more than
  the one written (`BindingIsLostBelowVersionFour`, `LostBindingWidens`,
  `RosterIsLostBelowVersionFour`). An entry that asks for no more than the policy as a whole loses
  nothing. `DroppingFieldsNeverRelaxes` gives the exact condition on the settings and
  `DroppedFieldsNeverWiden` the exact condition on what `evaluate` decides.
* **Tightening and the length of a lease.** The documentation of `intersect` calls it monotonic
  toward the stricter policy, and a test checks this on a grid with a short lease. It is so except
  for one thing: the length of the lease is compared with the policy only while offline work is
  allowed, so a profile that asks for the network on every open lifts the author's bound on the
  length (`StrictServerWidensLongLease`). `IntersectionNeverWidens` gives the exact condition.
  Conversely, a date and a count from the first open together admit nothing
  (`IntersectionIsNoStricter`).
* **The neutral profile.** Intersecting with the profile that tightens nothing gives back a policy,
  unknown actions included, exactly when it stores no denials (`NoTighteningIsIdentity`); the
  documentation promises the other fields only.
* **Kept slots.** A slot kept as unknown is written back as its bytes; nothing stops those bytes
  from parsing as a known slot the next time (`KeptBytesMayBecomeKnown`). Slots that came out of
  the reader as unknown do not change (`UnknownIsKept`).

## Model

| member | source | states |
|---|---|---|
| `MerkleLevels.ApexIsMth` | crates/oc-crypto/src/merkle.rs:120-166 | for every nonempty leaf list the apex of the level-by-level tree with odd-node promotion is the recursive tree hash split at the largest power of two |
| `MerkleLevels.SplitIsPower` | crates/oc-crypto/src/merkle.rs:400-406 | the split point, which lies below n and is at least half of it, is a power of two |
| `MerkleLevels.PowerBelowIsUnique` | crates/oc-crypto/src/merkle.rs:400-406 | there is only one such power, so the doubling loop and the recursive definition cannot differ |
| `MerkleLevels.MthOfPairUp` | crates/oc-crypto/src/merkle.rs:414-423 | one level of pairing, promotion included, leaves the recursive tree hash unchanged |
| `MerkleLevels.PathIsAuditPath` | crates/oc-crypto/src/merkle.rs:221-246 | the siblings collected level by level, skipping promoted levels, are the recursive audit path of section 2.1 of RFC 6962 |
| `MerkleProofs.InclusionExact` | crates/oc-crypto/src/merkle.rs:255-308 | against the root of a leaf list the verifier accepts if and only if count, index, leaf and whole path are the true ones |
| `MerkleProofs.ApexInjective` | crates/oc-crypto/src/merkle.rs:75-108 | two leaf lists of one size with one apex are equal |
| `MerkleProofs.ClimbStrippedExact` | crates/oc-crypto/src/merkle.rs:344-395 | the two-sided climb reaches both apexes if and only if the old list is a prefix of the new and the nodes are the one true path |
| `MerkleProofs.ConsistencyPathIsStripped` | crates/oc-crypto/src/merkle.rs:319-335 | the recursive proof builder produces, bottom-up, the shared node followed by its inclusion path; for a power of two old size the old apex is in the proof |
| `MerkleProofs.ConsistencyExact` | crates/oc-crypto/src/merkle.rs:344-395 | acceptance if and only if counts, prefix relation and whole proof are the true ones; for equal counts the roots alone decide |
| `MerkleProofs.EqualCountsAreNotBound` | crates/oc-crypto/src/merkle.rs:351-356 | with equal counts a tree of one leaf passes as a tree of seven |
| `MerkleProofs.ConsistencyDecides` | crates/oc-crypto/src/merkle.rs:344-395 | for roots of lists of the stated sizes: accepted if and only if the old list is a prefix and the proof is the one `consistency` builds |
| `MerkleProofs.PrefixIsConsistent` | crates/oc-crypto/src/merkle.rs:319-395 | completeness: every prefix of every list, powers of two and the whole list included, is proved by the path `consistency` builds |
| `MerkleTrees.FindSplit` | crates/oc-crypto/src/merkle.rs:400-406 | the doubling loop returns the split point |
| `MerkleTrees.PairLevel` | crates/oc-crypto/src/merkle.rs:99-108 | one pass over a level gives the next level |
| `MerkleTrees.BuildLevels` | crates/oc-crypto/src/merkle.rs:120-148 | the building loop gives all levels; no leaves or too many are refused |
| `MerkleTrees.AppendSubproof` | crates/oc-crypto/src/merkle.rs:427-444 | the recursion that pushes nodes appends exactly the subproof |
| `MerkleTrees.CollectPath` | crates/oc-crypto/src/merkle.rs:221-246 | the collecting loop gives the path of siblings |
| `MerkleTrees.VerifyProof` | crates/oc-crypto/src/merkle.rs:255-308 | the verifying loop accepts exactly what the acceptance predicate of `InclusionExact` accepts |
| `MerkleTrees.FollowPath` | crates/oc-crypto/src/merkle.rs:262-297 | for any node function, the loop over levels gives the apex the path leads to, and nothing for a path of the wrong length |
| `MerkleTrees.ClimbRest` | crates/oc-crypto/src/merkle.rs:364-392 | for any node function, the loop over the proof nodes carries both running values as the specification climbs |
| `MerkleTrees.FollowBoth` | crates/oc-crypto/src/merkle.rs:360-389 | for any node function, the two loops together give both apexes, or nothing for a proof of the wrong length |
| `MerkleTrees.VerifyConsistency` | crates/oc-crypto/src/merkle.rs:344-395 | the verifier accepts exactly what the acceptance predicate of `ConsistencyExact` accepts |
| `MerkleTrees.MerkleTree.Build` | crates/oc-crypto/src/merkle.rs:120-148 | a built tree holds the given leaves and every level above them |
| `MerkleTrees.MerkleTree.Root` | crates/oc-crypto/src/merkle.rs:159-171 | the root binds leaf count and apex |
| `MerkleTrees.MerkleTree.UpdateLeaf` | crates/oc-crypto/src/merkle.rs:184-218 | after an update every level, not only the root, is what building the edited list gives, and the invariant holds again, so this extends to any sequence of updates; out of range nothing changes |
| `MerkleTrees.MerkleTree.Proof` | crates/oc-crypto/src/merkle.rs:221-246 | the inclusion path of the leaf, or out of range |
| `MerkleTrees.MerkleTree.Consistency` | crates/oc-crypto/src/merkle.rs:319-335 | the consistency path of the prefix, or a refusal |
| `TreeDigests.SameValueOrCollision` | crates/oc-crypto/src/merkle.rs:47-82 | under any hash function, two different leaves, nodes or roots with one 32-byte value yield two different inputs with one hash, one hashed on the way to each |
| `TreeDigests.StandsOrCollides` | crates/oc-crypto/src/merkle.rs:47-82 | a term built from 32-byte strings that has the value of a real digest has its structure too, or the two hashed different inputs to one value |
| `TreeDigests.RootCommits` | crates/oc-crypto/src/merkle.rs:47-82 | the 32-byte root commits to the whole leaf list and its length: otherwise the two trees hashed two different inputs to one value |
| `Formats.TreeInputsAre` | crates/oc-crypto/src/merkle.rs:47-82 | the hashed inputs byte by byte: label, zero byte, the parts in their order, lengths and counts little-endian |
| `ByteProofs.VerifyInclusion` | crates/oc-crypto/src/merkle.rs:255-308 | over bytes and any hash, the verifier accepts exactly what the acceptance predicate of the byte-level theorems accepts |
| `ByteProofs.VerifyExtension` | crates/oc-crypto/src/merkle.rs:344-395 | likewise for consistency |
| `ByteProofs.TrueInclusionAccepted` | crates/oc-crypto/src/merkle.rs:221-308 | over bytes and any hash, the path of every leaf is accepted |
| `ByteProofs.TrueConsistencyAccepted` | crates/oc-crypto/src/merkle.rs:319-395 | over bytes and any hash, the proof of every prefix is accepted |
| `ByteProofs.ForgedInclusionCollides` | crates/oc-crypto/src/merkle.rs:255-308 | over bytes and any hash, a proof accepted against the root of a tree states its true size, the bytes of its leaf and of its own path, or the verifier and the tree hashed two different inputs to one value |
| `ByteProofs.ForgedConsistencyCollides` | crates/oc-crypto/src/merkle.rs:344-395 | over bytes and any hash, an accepted proof between the roots of two trees shows a true prefix with the one true path, or two different inputs hashed by the trees or the verifier have one hash |
| `Layouts.RequiredChunksMeans` | crates/oc-format/src/lib.rs:376-383 | the required count is one for an empty file and otherwise the unique count whose chunks reach the length with a nonempty last one |
| `Layouts.RequiredChunksOverflow` | crates/oc-format/src/lib.rs:376-383 | there is no count exactly when the length exceeds what 2^32 - 1 chunks hold |
| `Layouts.Layout.New` | crates/oc-format/src/lib.rs:356-371 | accepted exactly for a valid chunk size and the required count; a refusal names the size, the overflow or both counts |
| `Layouts.LengthsSumToTotal` | crates/oc-format/src/lib.rs:430-437 | the plaintext lengths of all chunks sum to the total length |
| `Layouts.SpansTouch` | crates/oc-format/src/lib.rs:443-459 | the first span starts at the payload and each span ends where the next begins, wherever spans do not overflow |
| `Layouts.ChunksForIsSmallest` | crates/oc-format/src/lib.rs:413-427 | the range covers every byte of the clamped read and lies inside every other range that does; an empty clamped read has none; the error cases are exact |
| `Layouts.OutsideIsRefused` | crates/oc-format/src/lib.rs:403-459 | an index behind the last chunk is refused with index and count, by length and by span, and no other index has no length; a byte belongs to the chunk its quotient names or is refused |
| `Frames.FrameFillsSpan` | crates/oc-format/src/lib.rs:443-459 | frame i of a tiled file occupies exactly span i, and the span exists exactly when the frame ends below 2^64 |
| `Frames.RootFixesFrames` | crates/oc-crypto/src/merkle.rs:47-60 | the root over a row of frames fixes every nonce, ciphertext and tag, their number and their order |
| `Stream.StreamFitsLayout` | crates/oc-crypto/src/stream.rs:67-129 | the frames of any input number what the layout requires; frame i is the cipher's answer for piece i under seed i and fills span i; leaf i of the tree hashes i and the first 24, the last 16 and the middle bytes of that span; all spans exist if the payload ends below 2^64 |
| `Stream.SealedExactly` | crates/oc-crypto/src/stream.rs:67-129 | an input is sealed if and only if the cipher answers for every chunk of it and each chunk has an index below 2^32 - 1; chunk i starts at i times the chunk size and only the first may be empty |
| `Stream.Fill` | crates/oc-crypto/src/stream.rs:137-153 | the buffer is filled with the next bytes of the input however the source splits its reads; a failure is the source's first refusal |
| `Stream.SealChunks` | crates/oc-crypto/src/stream.rs:67-129 | unless the host fails, the delivered bytes are the frames of the input, and the result is the input length, the number of frames and the root over their leaves, however reads were split; an empty input still has one chunk; a host failure is the first refusal of source or sink |
| `Tlv.TlvReader.NextField` | crates/oc-format/src/tlv.rs:109-153 | the next field with its place in the buffer; every field advances the position, nothing else moves it |
| `Tlv.TlvWriter.Put` | crates/oc-format/src/tlv.rs:211-229 | a field is appended exactly when its tag is above the last one and its length fits; a refusal changes nothing |
| `Tlv.TlvWriter.PutOpt` | crates/oc-format/src/tlv.rs:232-237 | absence writes nothing; a present value is written or refused with the error of a plain put |
| `Tlv.ReadIsInverseOfEmit` | crates/oc-format/src/tlv.rs:109-229 | a buffer is read to its end as a list of fields if and only if it is the writer's output for that strictly increasing list |
| `Tlv.SameLookups` | crates/oc-format/src/tlv.rs:109-153 | a strictly increasing list is determined by what its tags map to |
| `Formats.RecordsAre` | crates/oc-format/src/tlv.rs:211-237 | a record is its tag in two bytes, its length in four, both little-endian, and its value |
| `Formats.NextMeans` | crates/oc-format/src/tlv.rs:109-153 | at every position of every buffer: the end, one of the three refusals with its numbers, or the field that stands there |
| `Writing.PutEntry` | crates/oc-format/src/tlv.rs:211-237 | the next of a prepared list of entries is written, or the whole list is refused with this error |
| `Writing.WrittenLookup` | crates/oc-format/src/tlv.rs:211-237 | what was written under a tag is found under it |
| `Content.WriteEditor` | crates/oc-format/src/content.rs:111-144 | writes the specified editor record or its refusal |
| `Content.ReadEditor` | crates/oc-format/src/content.rs:147-227 | reads exactly the specified editor record, errors in reading order |
| `Content.EditorRoundTrip` | crates/oc-format/src/content.rs:111-227 | an encoded editor record reads back exactly when it declares RSA-PSS, and then unchanged |
| `Content.WriteBody` | crates/oc-format/src/content.rs:394-414 | writes the specified body or its refusal |
| `Content.ReadBody` | crates/oc-format/src/content.rs:417-472 | reads exactly the specified description, errors in reading order |
| `Content.BodyRoundTrip` | crates/oc-format/src/content.rs:394-472 | an encoded description reads back exactly when it has a chunk and its editor record, if any, is readable, and then unchanged |
| `Content.RegionRoundTrip` | crates/oc-format/src/content.rs:265-371 | the authenticated region reads back under its key and file, whatever payload follows, with exactly the authenticated bytes and up to exactly where the payload begins |
| `Content.MacTranscriptInjective` | crates/oc-format/src/content.rs:479-485 | what is authenticated fixes the file and the body |
| `Content.Ed25519EditorIsRefused` | crates/oc-format/src/content.rs:111-227 | an Ed25519 editor record that is written and not read |
| `Readings.EditorRead` | crates/oc-format/src/content.rs:147-227 | an editor record is read if and only if its bytes are records of known or optional tags holding the number of RSA-PSS, head, journal head, certificate of at most 8192 bytes and a signature of 256, and as exactly those |
| `Readings.DescriptionRead` | crates/oc-format/src/content.rs:417-472 | a description is read if and only if its bytes are such records for length, count, root and counter, and for footer and editor where they are there, the latter from version 4 on |
| `Readings.RegionRead` | crates/oc-format/src/content.rs:321-371 | a region is read if and only if it starts with a length of at most 64 KiB, so many bytes that read as a description, and their MAC for this file under this key |
| `Formats.EditorIs` | crates/oc-format/src/content.rs:111-144 | which editor records can be written, and as which five records |
| `Formats.DescriptionIs` | crates/oc-format/src/content.rs:394-414 | which descriptions can be written, and as which records |
| `Editing.FindField` | crates/oc-format/src/edit.rs:248-273 | the search loop finds the first record of a tag and its place, or the reader's error |
| `Editing.BodyWithoutSignature` | crates/oc-format/src/edit.rs:248-273 | removes exactly the signature subrecord of the editor record |
| `Editing.CutIgnoresSignature` | crates/oc-format/src/edit.rs:248-285 | the cut of an encoded body is the same for every signature value, so the transcript prepared with zeros is the final one |
| `Editing.SameCutSameBody` | crates/oc-format/src/edit.rs:248-273 | two accepted bodies with the same cut have one length and differ at most in the 256 signature bytes |
| `Editing.TranscriptInjective` | crates/oc-format/src/edit.rs:279-285 | the transcript determines core hash and cut |
| `Formats.CutMeans` | crates/oc-format/src/edit.rs:248-273 | what is missing from the cut of an accepted body is the signature record alone: six fixed bytes and the 256 that are read as the signature |
| `Formats.TranscriptsAre` | crates/oc-format/src/edit.rs:279-285 | what an editor signs and what authenticates a region, byte by byte |
| `Sessions.SameHeadOrCollision` | crates/oc-format/src/edit.rs:295-312 | two different histories of any length with one head yield a collision among the inputs they hashed, though start and step share a label |
| `Sessions.StartIsNotStep` | crates/oc-format/src/edit.rs:295-312 | the input of a start is never the input of a step |
| `Sessions.HeadIsBuiltBySteps` | crates/oc-format/src/edit.rs:295-312 | the head of a history is the start followed by its steps |
| `Formats.SessionInputsAre` | crates/oc-format/src/edit.rs:295-312 | the hashed inputs of start and step, byte by byte, numbers big-endian |
| `EditWriter.CollectPieces` | crates/oc-engine/src/edit.rs:103-141 | the loop over kept and new pieces collects the leaves, payload and length of the specified frames |
| `EditWriter.FramesMean` | crates/oc-engine/src/edit.rs:103-141 | the pieces of a plan become a list of frames if and only if every kept frame is cut as it stands, every new text is the cipher's answer at its own index, and all but the last fill a chunk |
| `EditWriter.PiecesBecomeFrames` | crates/oc-engine/src/edit.rs:103-163 | the payload of every prepared revision is those frames in a row, its root the root over their leaves |
| `EditWriter.Prepare` | crates/oc-engine/src/edit.rs:103-163 | gives the specified unsigned revision or the first error |
| `EditWriter.PreparedRecord` | crates/oc-engine/src/edit.rs:142-163 | the description of every prepared revision: the session head is the head of the one-save history over its own root and length; the plan's journal head and certificate, RSA-PSS, 256 zeros, no footer; the digest is SHA-256 of the transcript |
| `EditWriter.PreparedFitsLayout` | crates/oc-engine/src/edit.rs:103-163 | every prepared revision has a valid layout, every frame lies in its span, the root is the one of the tree over leaves recomputed from the payload bytes, and all spans exist if the payload ends below 2^64 |
| `EditWriter.KeepingAllReproduces` | crates/oc-engine/src/edit.rs:103-163 | keeping every frame succeeds exactly for a valid chunk size, a counter that can grow, a certificate within its limit and an editing version, and then reproduces payload, root, length and count |
| `EditWriter.Finish` | crates/oc-engine/src/edit.rs:171-184 | writes the signature into the description and encodes the region; for an encodable draft the region decodes to the signed description, the payload follows it, and every core hash gives the transcript of the draft |
| `EditWriter.FinishedRegionRebuildsTranscript` | crates/oc-engine/src/edit.rs:150-184 | for every signature the finished region encodes, decodes to the signed description, and the reader rebuilds from it the transcript that was signed |
| `Access.WriteBody` | crates/oc-protocol/src/access.rs:145-161 | writes the specified decision body or its refusal |
| `Access.WriteDecision` | crates/oc-protocol/src/access.rs:373-379 | body followed by the signature record |
| `Access.ReadDecision` | crates/oc-protocol/src/access.rs:390-447 | reads exactly the specified decision, errors in reading order |
| `Access.DecisionRoundTrip` | crates/oc-protocol/src/access.rs:373-447 | an encodable decision reads back if and only if its share matches its approval flag, and then as itself |
| `Access.DenialWithShareIsRefused` | crates/oc-protocol/src/access.rs:373-447 | a denial with a share that is written and not read |
| `Access.AcceptedBytesAreTheEncoding` | crates/oc-protocol/src/access.rs:145-161 | whatever bytes are accepted, encoding the result gives them back, so the body rebuilt for the signature check is what was sent |
| `Formats.DecisionIs` | crates/oc-protocol/src/access.rs:145-161 | which decisions can be written, and as which records |
| `Formats.DecisionAccepted` | crates/oc-protocol/src/access.rs:390-447 | bytes are accepted as a decision if and only if they are its encoding and its share matches its flag |
| `Policies.WritePolicy` | crates/oc-format/src/policy_codec.rs:100-177 | writes the specified encoding at every version |
| `Policies.CollectActions` | crates/oc-format/src/policy_codec.rs:100-130 | the map written for actions: unknown tags as denials, every known action with its rule |
| `Policies.ParseActions` | crates/oc-format/src/policy_codec.rs:357-380 | exactly the value one permits; unknown tags are remembered |
| `Policies.ParseActionBinding` | crates/oc-format/src/policy_codec.rs:334-355 | raised bindings are kept, the weakest is not stored |
| `Policies.ParsePolicy` | crates/oc-format/src/policy_codec.rs:240-324 | reads exactly the specified policy, errors in reading order |
| `Policies.DecodeOfEncode` | crates/oc-format/src/policy_codec.rs:100-324 | encoding then decoding gives the normal form of every policy at every version |
| `Policies.NormalFormIsStable` | crates/oc-format/src/policy_codec.rs:240-380 | for all accepted bytes, decode-encode-decode gives the same policy |
| `Policies.DroppingFieldsNeverRelaxes` | crates/oc-format/src/policy_codec.rs:240-423 | an encoded policy with fields dropped decodes exactly when the mandatory ones remain, and then asks for no less in any setting than the policy encoded if and only if its requirements can be expressed at the version and its open limit was kept or was not zero |
| `Policies.ZeroLimitIsRelaxed` | crates/oc-format/src/policy_codec.rs:240-324 | in a policy that allows viewing, a limit of zero, dropped, reads as one open |
| `Policies.BindingIsLostBelowVersionFour` | crates/oc-format/src/policy_codec.rs:100-177 | at version 3 a raised binding of an allowed action is not written and the action requires the weakest when read back |
| `Readings.PolicyRead` | crates/oc-format/src/policy_codec.rs:240-423 | a policy is read if and only if its bytes are its own records and no others: the first four always, the seventh exactly from version 4 on, every value in one of its literal forms |
| `Readings.ActionsRead` | crates/oc-format/src/policy_codec.rs:357-380 | the byte one permits an action and no other byte does, whatever wrote it |
| `Readings.BindingsRead` | crates/oc-format/src/policy_codec.rs:334-355 | one, two or three is the level of an action, any other byte refuses the policy |
| `Readings.PolicyIs` | crates/oc-format/src/policy_codec.rs:100-177 | the records of an encoded policy, value by value |
| `Readings.NormalIs` | crates/oc-format/src/policy_codec.rs:100-324 | what reading back changes in a policy: denials, weakest levels and named unknown tags go, everything else stays |
| `Evaluator.DecisionIs` | crates/oc-policy/src/lib.rs:585-836 | access is given exactly when the lease holds and every setting of the policy admits the action, and the duties are the policy's |
| `AccessRules.AccessMeans` | crates/oc-policy/src/lib.rs:585-836 | access with given duties is the verdict if and only if the facts hold: not revoked, same device, same policy, sequence not behind, dates and clocks within five minutes, not expired, and each setting of the policy, with the profile carried in the lease if there is one, in terms of the numbers themselves |
| `AccessRules.DenialIsTrue` | crates/oc-policy/src/lib.rs:585-836 | the reason of every denial holds of the facts |
| `Evaluator.RetainAllowed` | crates/oc-policy/src/lib.rs:846-848 | the loop keeps exactly the entries both sides allow |
| `Evaluator.RaiseBindings` | crates/oc-policy/src/lib.rs:853-856 | the loop leaves every entry at the stronger of the two levels, entries of either side included |
| `Evaluator.IntersectPolicies` | crates/oc-policy/src/lib.rs:844-877 | field by field the specified intersection |
| `Evaluator.IntersectionAdmits` | crates/oc-policy/src/lib.rs:844-909 | what an intersection admits against what each side admits, in both directions, with the two exceptions |
| `AccessRules.IntersectionMeans` | crates/oc-policy/src/lib.rs:844-909 | an intersection asks for what either side asks for, setting by setting: actions, levels, opens, watermark |
| `AccessRules.TermOfIntersectionMeans` | crates/oc-policy/src/lib.rs:893-909 | its term is met exactly when both are, unless a date meets a count |
| `AccessRules.NetworkOfIntersectionMeans` | crates/oc-policy/src/lib.rs:844-891 | its network rule asks for the network if either does, and otherwise for the shorter of both bounds |
| `Evaluator.IntersectionNeverWidens` | crates/oc-policy/src/lib.rs:838-877 | for every lease, action and context, what is decided in favour under an intersection is decided in favour under each side, with no fewer duties, if and only if the lease is not longer than that side allows |
| `Evaluator.IntersectionIsNoStricter` | crates/oc-policy/src/lib.rs:844-909 | what both sides decide in favour is decided in favour together unless a date meets a count from the first open |
| `Evaluator.CarriedDecidesAsComposed` | crates/oc-policy/src/lib.rs:591-607 | a profile carried in the lease gives the very verdict of the policy composed in advance, for every policy, profile, lease, action and context, except that a denial names the server |
| `Evaluator.NoTighteningIsIdentity` | crates/oc-policy/src/lib.rs:207-231 | intersecting with the neutral profile gives the policy back exactly when it stores no denials |
| `Evaluator.StrictServerWidensLongLease` | crates/oc-policy/src/lib.rs:687-716 | an eight-hour lease refused under an author's one-hour bound is admitted once the server asks for the network on every open |
| `Strictness.NeverWiderMeans` | crates/oc-policy/src/lib.rs:585-836 | of two policies with one term and network rule, one never decides wider than the other, over all leases, actions and contexts, if and only if it asks no less for every action it can ever admit |
| `Strictness.StricterNeverWider` | crates/oc-policy/src/lib.rs:585-836 | a policy that asks no less in any setting never decides wider |
| `Strictness.DroppedFieldsNeverWiden` | crates/oc-format/src/policy_codec.rs:240-423 | an encoded policy with fields dropped, once decoded, never decides wider than the one encoded if and only if nothing that was lost held back an action that can be reached |
| `Strictness.LostLimitWidens` | crates/oc-format/src/policy_codec.rs:240-324 | a dropped limit of zero admits viewing that was not admitted |
| `Strictness.LostBindingWidens` | crates/oc-format/src/policy_codec.rs:100-177 | a binding lost at version 3 admits editing that was not admitted |
| `HeaderParts.SuiteRoundTrip` | crates/oc-format/src/header.rs:697-753 | an encoded suite reads back exactly when it names the executed signature and AEAD, and then unchanged |
| `HeaderParts.ForeignSuiteIsRefused` | crates/oc-format/src/header.rs:697-753 | a suite naming RSA-PSS that is written and not read |
| `HeaderParts.AuthorityRoundTrip` | crates/oc-format/src/header.rs:766-889 | every encodable set of server coordinates reads back unchanged |
| `HeaderParts.ValidateRoster` | crates/oc-format/src/header.rs:1165-1198 | the nested comparison decides whether a roster can be enforced |
| `HeaderParts.RosterRoundTrip` | crates/oc-format/src/header.rs:1144-1236 | every enforceable roster reads back unchanged |
| `HeaderReadings.SuiteRead` | crates/oc-format/src/header.rs:712-755 | a suite is read if and only if its three numbers are one and unknown records are optional |
| `HeaderReadings.UrlsRead` | crates/oc-format/src/header.rs:823-889 | addresses are read if and only if there are at most sixteen of at most 2048 bytes, all printable ASCII without blanks |
| `HeaderReadings.AuthorityRead` | crates/oc-format/src/header.rs:816-889 | server coordinates are read if and only if both keys are there, of 32 bytes and not all zero |
| `HeaderReadings.AuthorityWritten` | crates/oc-format/src/header.rs:766-815 | which coordinates can be written, and as which records |
| `HeaderReadings.RosterMeans` | crates/oc-format/src/header.rs:1165-1198 | a roster is admitted if and only if it has no threshold and no keys, or a threshold from one to the number of its keys, which are at most sixteen and all different |
| `HeaderReadings.RosterRead` | crates/oc-format/src/header.rs:1201-1236 | a roster is read if and only if its bytes are threshold and keys of an admitted roster and nothing else |
| `Slots.WriteKnown` | crates/oc-format/src/header.rs:909-955 | writes the specified slot or its refusal |
| `Slots.WriteSlots` | crates/oc-format/src/header.rs:896-907 | slots numbered by position, or the first refusal |
| `Slots.ReadSlot` | crates/oc-format/src/header.rs:1238-1362 | two-pass reading: decide whether the slot is understood, only then check exactly |
| `Slots.ReadSlots` | crates/oc-format/src/header.rs:1007-1017 | at most 1024 slots, errors in reading order |
| `Slots.KnownRoundTrip` | crates/oc-format/src/header.rs:896-1362 | the writer cannot produce a slot its reader would refuse, skip or read differently, at any version |
| `Slots.UnknownIsKept` | crates/oc-format/src/header.rs:1238-1300 | a skipped slot is written back byte for byte and skipped again |
| `Slots.KeptBytesMayBecomeKnown` | crates/oc-format/src/header.rs:896-907 | bytes kept as unknown that parse as a known claim slot |
| `Slots.SlotsRoundTrip` | crates/oc-format/src/header.rs:896-1017 | an encoded list reads back exactly when every kept slot still parses, known slots as themselves |
| `HeaderReadings.RefusalMeans` | crates/oc-format/src/header.rs:909-1138 | a slot can be written if and only if encapsulation and fingerprint have the lengths of the mechanism in that version, a claim slot commits and seals nothing, and any other seals and does not commit |
| `HeaderReadings.SlotRead` | crates/oc-format/src/header.rs:1238-1362 | bytes are read as a slot if and only if their records hold its parts, it is well shaped and no unknown record is critical |
| `HeaderReadings.SlotKept` | crates/oc-format/src/header.rs:1238-1300 | bytes are kept if and only if an unknown record is critical, or the kind is none of four, or the mechanism is not one of the version |
| `HeaderReadings.SlotsRead` | crates/oc-format/src/header.rs:1007-1017 | a list is read if and only if it has at most 1024 records and each reads as its slot |
| `Headers.WriteHeader` | crates/oc-format/src/header.rs:597-638 | writes the specified header or the first refusal in writing order |
| `Headers.ReadHeader` | crates/oc-format/src/header.rs:446-594 | reads exactly the specified header with its spans, errors in reading order |
| `Headers.VersionSoFar` | crates/oc-format/src/header.rs:491-520 | whenever a field is read under the version seen so far, that is the version the header states |
| `HeaderCore.HeaderRoundTrip` | crates/oc-format/src/header.rs:446-638 | an encoded header decodes if and only if suite and class are the executed ones and every kept slot parses; then it is the same header with its policy in normal form, no roster below version 4 and kept slots as their bytes parse, and the spans are the true ones |
| `HeaderReadings.HeaderRead` | crates/oc-format/src/header.rs:446-594 | a header is read if and only if its bytes are records, the first of them the version, that hold its parts under their numbers; every other record has a tag above 0x7FFF; chunk sizes are the nine powers of two from 4096 on; the class is zero; a roster is read from version 4 on |
| `HeaderReadings.HeaderWritten` | crates/oc-format/src/header.rs:597-638 | a header can be written if and only if its chunk size is one of the nine, it has at most 1024 slots, its tree hash is BLAKE3, its coordinates and slots can be written, its roster, from version 4 on, is admitted, and everything fits its length |
| `HeaderReadings.WrittenReadsAs` | crates/oc-format/src/header.rs:446-638 | a written header is accepted if and only if signature, AEAD and class are the executed ones and every kept slot parses; every field then reads back as it was, but for the policy's normal form, kept slots as they parse, and a roster below version 4 |
| `HeaderReadings.SpansRead` | crates/oc-format/src/header.rs:446-594 | the spans of an accepted header cut out exactly the value of record 9 and the whole records 10 and 17 |
| `HeaderCore.ForeignClassIsRefused` | crates/oc-format/src/header.rs:446-638 | a header of class 1 that is written and not read |
| `HeaderCore.UnparsableSlotIsRefused` | crates/oc-format/src/header.rs:446-638 | a header with a kept slot of one byte that is written and not read |
| `HeaderCore.RosterIsLostBelowVersionFour` | crates/oc-format/src/header.rs:597-638 | at version 3 a roster is not written and reads back as absent |
| `HeaderCore.FeedCore` | crates/oc-format/src/header.rs:648-672 | sorting, cursor and cuts feed the hash the label and what is left of the bytes, or report an overflow |
| `HeaderCore.CoreOfFields` | crates/oc-format/src/header.rs:648-672 | what is fed is exactly the encoding of all fields but key slots and wrapped key |
| `HeaderCore.CoreDeterminesHeader` | crates/oc-format/src/header.rs:446-672 | for any two accepted headers, equal preimages mean the same fields outside the two records and the same header outside slots and wrapped key |
| `HeaderCore.CoreIgnoresKeyMaterial` | crates/oc-format/src/header.rs:597-672 | headers that differ only in slots and wrapped key feed the same bytes |
| `Engine.PlanMatchesExactly` | crates/oc-engine/src/lib.rs:153-168 | a plan accepts a later recipient exactly when planning for it gives the same plan |
| `Packed.PlanIs` | crates/oc-engine/src/lib.rs:153-168 | the one plan that matches each kind of recipient: the key itself, or the commitment to the claim code for this file |
| `Engine.AuthorIsNotWeaker` | crates/oc-engine/src/lib.rs:411-533 | every slot carries the commitment and none is stronger than the author's, so the file's strength is the maximum over all routes |
| `Packed.SlotsMean` | crates/oc-engine/src/lib.rs:411-533 | sealing gives a list of slots if and only if the first is the server's with the first share, the second, if a recipient is planned, the recipient's with the second share alone or a claim that seals nothing, and the last the author's with both shares under the device key of that mechanism, each the answer of the sealing primitive |
| `Engine.Assemble` | crates/oc-engine/src/lib.rs:361-563 | the two passes give the specified container parts or the first error |
| `Engine.EncodedDecodes` | crates/oc-engine/src/lib.rs:403-405 | a header of the engine's suite and class with known slots decodes whenever it encodes |
| `Engine.PassesAgree` | crates/oc-engine/src/lib.rs:403-547 | both passes compute the same core hash and the same policy hash, whatever slots and wrapped key came in between |
| `Engine.CoreHashNeverMismatches` | crates/oc-engine/src/lib.rs:535-547 | the final recheck can never fail, for any primitives, session, request and keys |
| `Engine.AssembledReadsBack` | crates/oc-engine/src/lib.rs:361-563 | a packed file decodes to what was asked for; its content key is wrapped under the core hash, and its shares sealed under the policy hash, that a reader recomputes from the file; its region authenticates under the file's own key, decodes to the sealed stream's description and ends where the payload begins |
| `Packed.PackedFileIs` | crates/oc-engine/src/lib.rs:361-563 | every packed file: its slots are the right ones for its own policy hash, its wrapped key the answer of the primitive for its own core hash, and each header field the named value of request, keys, session or sealed stream |
| `Packed.HashesMean` | crates/oc-format/src/header.rs:648-687 | the two hashes a key is bound to, over the label and the bytes of the header without two records, and over the label and the policy record's value |
| `Wire.Writer.Raw` | crates/oc-engine/src/wire.rs:368-374 | bytes are appended exactly when they fit; otherwise nothing is |
| `Wire.Writer.PutBlob` | crates/oc-engine/src/wire.rs:385-389 | length and bytes are appended exactly when they fit; otherwise the error says whether the bytes are too long for the length or for the buffer |
| `Wire.Writer.Finish` | crates/oc-engine/src/wire.rs:391-393 | the message exactly when the promised size was written |
| `Wire.PlanSize` | crates/oc-engine/src/wire.rs:456-513 | the size computed in advance is the size of the message; an unenforceable roster is refused |
| `Wire.FillPlan` | crates/oc-engine/src/wire.rs:515-582 | writes all of a planning message exactly when it fits; otherwise the size is wrong, or a value is too long for its length prefix |
| `Wire.ComposePlan` | crates/oc-engine/src/wire.rs:515-582 | a planning message comes out exactly when the size promised for it is its true size and within the limit |
| `Wire.WriteRequest` | crates/oc-engine/src/wire.rs:456-591 | the outcome is the specified message or a refusal, never a disagreement about the size |
| `Wire.WriteResponse` | crates/oc-engine/src/wire.rs:719-745 | likewise for responses |
| `WireReading.Reader.TakeBytes` | crates/oc-engine/src/wire.rs:406-411 | takes exactly the next bytes, or nothing |
| `WireReading.ReadRequest` | crates/oc-engine/src/wire.rs:598-702 | reads exactly the specified request, errors in reading order |
| `WireReading.ReadResponse` | crates/oc-engine/src/wire.rs:752-777 | reads exactly the specified response |
| `WireLaws.RequestExtends` | crates/oc-engine/src/wire.rs:598-702 | what parses from the front of some bytes parses identically with more behind |
| `WireLaws.RequestsArePrefixFree` | crates/oc-engine/src/wire.rs:440-442 | anything added to any accepted request is reported as trailing bytes |
| `WireLaws.ResponsesArePrefixFree` | crates/oc-engine/src/wire.rs:440-442 | likewise for responses |
| `WireLaws.RequestRoundTrip` | crates/oc-engine/src/wire.rs:456-702 | every encodable request decodes to itself with its policy in normal form |
| `WireLaws.ResponseRoundTrip` | crates/oc-engine/src/wire.rs:719-777 | every encodable response decodes to itself |
| `WireLaws.EncodedRequestStandsAlone` | crates/oc-engine/src/wire.rs:456-702 | no strict prefix and no strict extension of an encoded request is accepted |
| `WireLaws.EncodedResponseStandsAlone` | crates/oc-engine/src/wire.rs:719-777 | likewise for encoded responses |
| `WireFormats.RequestRead` | crates/oc-engine/src/wire.rs:598-702 | bytes are accepted as a request if and only if they are its parts in their order, with their lengths, marks and numbers, the policy in any bytes that read as it |
| `WireFormats.ResponseRead` | crates/oc-engine/src/wire.rs:752-777 | likewise for responses |
| `WireFormats.RequestWritten` | crates/oc-engine/src/wire.rs:456-591 | a request is encoded, as those bytes, if and only if its roster is admitted and they are at most 1 MiB |
| `WireFormats.ResponseWritten` | crates/oc-engine/src/wire.rs:719-745 | likewise for responses |
| `Pss.Mgf1` | crates/oc-crypto/src/rsa.rs:39-54 | every byte of the buffer is the mask byte of section B.2.1 of RFC 8017 |
| `Pss.Encode` | crates/oc-crypto/src/rsa_test_signer.rs:161-194 | the encoder's output is an encoding of message and salt |
| `Pss.EncodingIsUnique` | crates/oc-crypto/src/rsa_test_signer.rs:161-194 | message and salt have one encoding |
| `Pss.EncodesMeans` | crates/oc-crypto/src/rsa_test_signer.rs:161-194 | what an encoded message is, byte by byte: the hash of eight zeros, the hash of the message and the salt; the masked data block; a clear top bit; 0xBC |
| `Pss.EncodingBindsMessage` | crates/oc-crypto/src/rsa.rs:95-148 | one encoded message for two messages exhibits two different inputs with one hash: the messages themselves, or the two salted inputs |
| `Pss.ChecksAreExact` | crates/oc-crypto/src/rsa.rs:95-148 | the checks after unmasking hold if and only if the encoded message is the encoder's output for some 32-byte salt |
| `Pss.Unmask` | crates/oc-crypto/src/rsa.rs:111-118 | XOR with the mask and the cleared top bit, in place |
| `Pss.CheckEncoding` | crates/oc-crypto/src/rsa.rs:95-148 | accepted if and only if some salt encodes to it |
| `Pss.VerifyPss` | crates/oc-crypto/src/rsa.rs:67-148 | wrong lengths are a length error, a failing public operation its own error, and every other outcome the verdict of the encoding |

## Left out

- The primitives: BLAKE3, SHA-2, HKDF, XChaCha20-Poly1305, Ed25519, X25519, P-256, ML-KEM, modular exponentiation. They are parameters or injective constructors.
- Memory wiping, constant-time comparison, redacted `Debug` output: not functional behaviour.
- Randomness: `plan` draws secrets from a generator; the drawn values are parameters, the order of drawing is not modelled.
- Sources that report more bytes than they were asked for: the model's source never does.
- `usize` overflow in `add` of the wire codec and in buffer reservation: lengths of values in memory are unbounded integers here.
- HeaderParts.SuiteRoundTrip, HeaderParts.AuthorityRoundTrip, HeaderParts.RosterRoundTrip: suite, server coordinates and roster are modelled on values; the three small decoder loops over optional locals are not restated as methods.
- Engine.Assemble: KEM slot sealing, private-metadata sealing, key wrapping and key derivation are parameters of the session: which key and which shares a slot is sealed for is stated, how the ciphertext comes about is not.
- Certificates, claims and `verify_edition` (`crates/oc-format/src/edit.rs`), the ask and pending codecs and the queue splitter (`crates/oc-protocol/src/access.rs`), `lease.rs`, `attribute_rule.rs`: the same reader and writer pattern as the codecs above.
- The source of the time in a context and the epoch of a lease: `evaluate` reads neither.
- Messages of denials, and the narrowing of profiles by command-line flags.
- `Prologue`, `footer.rs`, `attestation.rs`, `frame.rs`, `encoding.rs`, `text.rs`, the wire frame header: fixed tables and single-branch checks.
- PKCS#1 v1.5 and OAEP (`crates/oc-crypto/src/rsa.rs`): outside the PSS encoding.
