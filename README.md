# cls_rbd.h: the parent and snapshot records of RBD, in Dafny

This project models the two records in `src/cls/rbd/cls_rbd.h`. Both are
stored by the RBD object class and exchanged with its clients.

- `cls_rbd_parent` links a cloned image to the pool, namespace, image and
  snapshot it was cloned from, and holds an optional head overlap. Its
  encoding forks on the peer's `CEPH_FEATURE_SERVER_NAUTILUS` bit: version 2
  (compat 2) carries the namespace and an optional overlap; version 1
  (compat 1) drops the namespace and writes the overlap as a plain u64,
  with 0 standing for "absent".
- `cls_rbd_snap` describes one snapshot. It always encodes struct_v 8 with
  compat 1. Its decoder reads each field from the struct_v that introduced
  it on, and every field the data's struct_v does not reach keeps the value
  the object already held.

The model is pure: the records are datatypes, encoders are functions to
byte sequences, and decoders are functions
`(prior record, bytes, position) -> Result<Decoded(record, next position)>`.
`prior` stands for the object that `decode` overwrites in place, so the
fields a decoder leaves alone are visible in the result. `dump` produces a
tree of named entries (`DumpTree`), and `generate_test_instances` is a
list.

Modules:

- `Wire` (`wire.dfy`): the little-endian integer, string and optional
  encodings, and the `ENCODE_START`/`DECODE_START`/`DECODE_FINISH`
  envelope. The envelope is a version byte, a compat byte, a u32 body
  length and the body.
- `DumpTree` (`dump_tree.dfy`): what a Formatter receives.
- `RbdParent` (`rbd_parent.dfy`): `cls_rbd_parent`.
- `RbdSnap` (`rbd_snap.dfy`): `cls_rbd_snap`, with stand-ins for `utime_t`
  and `cls::rbd::SnapshotNamespace`.

Three behaviours of the code are easy to miss when reading it:

- `cls_rbd_snap::encode` does not pass the caller's features on to its
  parent. A local `uint64_t features = 0` (line 133) shadows the argument,
  so the embedded parent is always written at version 1.
  `SnapParentFeaturesLackNautilus`, `SnapLayout` and
  `MigrateParentFormatNotConsulted` state this. One consequence: a
  snapshot's parent namespace never survives a round trip
  (`SnapParentNamespaceLost`).
- `DECODE_START` compares only the compat byte with the highest version the
  decoder knows; struct_v is never checked. A snapshot envelope with
  struct_v 255 and compat 7 is read in full, and one with compat 8 is
  rejected whatever its struct_v (`DecodeStartSpec`, `SnapCompatGate`).
- A version-1 parent carries its overlap as a plain u64, which
  `cls_rbd_parent::decode` turns into a present optional (lines 76-79). An
  absent overlap written at version 1 therefore comes back as `Some(0)`
  (`AbsentOverlapBecomesZero`).

## Model

| member | source | states |
|---|---|---|
| `Wire.Envelope` | src/cls/rbd/cls_rbd.h:53-65 | ENCODE_START(v, compat) ... ENCODE_FINISH around a body: 6 header bytes plus the body, with the version and compat bytes first. `DecodeStartAt` shows that DECODE_START reads it back, and `TruncatedEnvelopeRejected` that no strict prefix passes. |
| `Wire.DecodeStart` | src/cls/rbd/cls_rbd.h:69 | DECODE_START(supported): a header it accepts puts the body 6 bytes past the position and the body's end inside the buffer. `DecodeStartSpec` states exactly when it succeeds and which error it gives otherwise. |
| `Wire.DecodeStartSpec` | src/cls/rbd/cls_rbd.h:69 | DECODE_START succeeds exactly when the six header bytes are present, the compat byte is at most the supported version and the length fits in the buffer; struct_v is never checked. Otherwise too high a compat gives `OldVersion`, a short header `EndOfBuffer`, and a length past the end of the buffer `LengthPastEnd`. |
| `Wire.DecodeStartAt` | src/cls/rbd/cls_rbd.h:53-69 | An envelope written by ENCODE_START(v, compat) around a body shorter than 2^32 is read back, with the same v, compat and body bounds, by a DECODE_START whose supported version is at least compat. |
| `Wire.DecodeFinish` | src/cls/rbd/cls_rbd.h:83 | DECODE_FINISH succeeds exactly when the reads stayed inside the body, and it moves to the end of the body, skipping unread bytes. |
| `Wire.TruncatedEnvelopeRejected` | src/cls/rbd/cls_rbd.h:53-84 | No strict prefix of an envelope passes DECODE_START; when the reader supports the writer's compat, the error is a short read or a length past the end. |
| `Wire.DecodeStrAt` | src/cls/rbd/cls_rbd.h:56-58 | A string written as a u32 length and its bytes reads back as itself. |
| `Wire.DecodedStrReencodes` | src/cls/rbd/cls_rbd.h:72-74 | Whatever string the decoder returns, the bytes it consumed are exactly that string's encoding. |
| `Wire.DecodeOptU64At` | src/cls/rbd/cls_rbd.h:63 | An optional u64 written as a presence byte and the value reads back as itself. |
| `Wire.DecodeOptU64Presence` | src/cls/rbd/cls_rbd.h:81 | A zero presence byte reads as absent; any other byte reads as present, with the value the little-endian u64 in the next 8 bytes, and 9 bytes consumed. |
| `Wire.DecodedI64Reencodes` | src/cls/rbd/cls_rbd.h:70 | The signed pool id read back is the one whose two's-complement encoding was consumed. |
| `RbdParent.DefaultParent` | src/cls/rbd/cls_rbd.h:15-22 | A default-constructed parent (pool -1, no namespace or image, CEPH_NOSNAP, no overlap) does not exist. |
| `RbdParent.Exists` | src/cls/rbd/cls_rbd.h:31-33 | Every existing parent has a non-negative pool id, a non-empty image id and a snapshot other than CEPH_NOSNAP. `ExistsNeedsEveryCondition` adds the converse, and that breaking any one condition makes the parent stop existing. |
| `RbdParent.Equal` | src/cls/rbd/cls_rbd.h:35-40 | `==` holds exactly when the two records agree once head_overlap is forgotten. |
| `RbdParent.NotEqual` | src/cls/rbd/cls_rbd.h:41-43 | `!=` holds exactly when the two records differ somewhere other than head_overlap. |
| `RbdParent.ExistsNeedsEveryCondition` | src/cls/rbd/cls_rbd.h:31-33 | A parent exists exactly when its pool id is non-negative, its image id is non-empty and its snapshot is not CEPH_NOSNAP; breaking any one condition makes it stop existing. |
| `RbdParent.EqualIgnoresOnlyHeadOverlap` | src/cls/rbd/cls_rbd.h:35-43 | `==` holds exactly when the records agree once head_overlap is forgotten, `!=` is its negation, and changing the overlap never breaks equality. |
| `RbdParent.EncodeVersion` | src/cls/rbd/cls_rbd.h:47-51 | The version is 2 exactly when the Nautilus bit is set, and 1 otherwise. |
| `RbdParent.EncodeParent` | src/cls/rbd/cls_rbd.h:45-66 | 6 header bytes plus the body of the chosen version, with the version and compat bytes both equal to that version. The round trips are `ParentRoundTripNautilus`, `ParentRoundTripLegacy` and `ParentReencodeStable`. |
| `RbdParent.ParentBody` | src/cls/rbd/cls_rbd.h:54-64 | The body length counts the namespace only from version 2 on, and an 8-byte overlap at version 1 instead of the optional. |
| `RbdParent.EncodingForksOnNautilus` | src/cls/rbd/cls_rbd.h:45-66 | With the Nautilus bit, the envelope's version and compat bytes are both 2; without it, both are 1. So the two settings give different bytes for every parent. |
| `RbdParent.DecodeParent` | src/cls/rbd/cls_rbd.h:68-84 | A successful decode ends at least 6 bytes on and inside the buffer. What it returns is stated by `ParentDecodeV2` (struct_v 2 or more), `ParentDecodeV1` (struct_v 1) and `DecodeParentByHeader` (compat above 2 rejected, fields kept below their version). |
| `RbdParent.DecodeParentFields` | src/cls/rbd/cls_rbd.h:70-82 | Below version 2 the namespace keeps its prior value, and at version 1 the overlap comes back present. |
| `RbdParent.DecodeHeadOverlap` | src/cls/rbd/cls_rbd.h:76-82 | At struct_v 1 a plain u64 is read and made present; at any other struct_v an optional is read. |
| `RbdParent.DecodeParentByHeader` | src/cls/rbd/cls_rbd.h:68-84 | A compat byte above 2 is rejected as `OldVersion(2, compat)`. A decoded parent ends where the envelope's length says. struct_v alone decides which fields keep their prior values. |
| `RbdParent.ParentDecodeV2` | src/cls/rbd/cls_rbd.h:68-84 | A version-2 body, from any writer with struct_v ≥ 2 and compat ≤ 2 and possibly followed by fields this decoder does not know, decodes to exactly the parent written and ends at the end of the envelope. |
| `RbdParent.ParentDecodeV1` | src/cls/rbd/cls_rbd.h:68-84 | A version-1 body, from a writer with any compat up to 2 and possibly followed by fields this decoder does not know, keeps the prior namespace, turns the overlap into `Some(value)`, and ends at the end of the envelope. |
| `RbdParent.ReadBackV1` | src/cls/rbd/cls_rbd.h:60-61 | The version-1 read-back equals the original exactly when the prior namespace was the original's. The overlap is always present: the original's if it had one, 0 otherwise. Whether the parent exists is unchanged. |
| `RbdParent.ParentRoundTripNautilus` | src/cls/rbd/cls_rbd.h:45-84 | With the Nautilus bit, decode(encode(p)) gives back p exactly, an absent overlap included, and consumes the whole encoding. |
| `RbdParent.ParentRoundTripLegacy` | src/cls/rbd/cls_rbd.h:45-84 | Without the bit, decode(encode(p)) gives back p with the prior namespace and the overlap as value_or(0), and consumes the whole encoding. |
| `RbdParent.ParentReencodeStable` | src/cls/rbd/cls_rbd.h:45-84 | Decoding then re-encoding with the same features gives back the same bytes. |
| `RbdParent.ParentTruncationRejected` | src/cls/rbd/cls_rbd.h:45-84 | No strict prefix of an encoded parent decodes; the error is a short read or a length past the end, never a version mismatch. |
| `RbdParent.DumpParent` | src/cls/rbd/cls_rbd.h:86-94 | The dump holds pool_id (signed), pool_namespace, image_id and snap_id, in that order, and head_overlap with its value exactly when the overlap is present. |
| `RbdParent.ParentTestInstances` | src/cls/rbd/cls_rbd.h:96-101 | There are four instances. All but the first, the default-constructed one, exist, and only the last has a namespace. `ParentTestInstancesRoundTrip` gives their round trip. |
| `RbdParent.ParentTestInstancesRoundTrip` | src/cls/rbd/cls_rbd.h:96-101 | Every test instance, encoded and decoded into a default parent, compares equal to the original; the instance with namespace "ns" needs the Nautilus bit for this. |
| `RbdParent.NamespaceInstanceNeedsNautilus` | src/cls/rbd/cls_rbd.h:100 | Without the bit, the "ns" instance comes back unequal to the original. |
| `RbdParent.AbsentOverlapBecomesZero` | src/cls/rbd/cls_rbd.h:76-79 | The instance without an overlap, written without the bit, comes back equal but with overlap `Some(0)`, and keeps that 0 when written again with the bit. |
| `RbdSnap.DecodeUTimeAt` | src/cls/rbd/cls_rbd.h:163-165 | A written timestamp reads back as itself. |
| `RbdSnap.DecodeSnapshotNamespaceAt` | src/cls/rbd/cls_rbd.h:160-162 | A written snapshot namespace reads back as itself. |
| `RbdSnap.DefaultSnap` | src/cls/rbd/cls_rbd.h:105-116 | A default-constructed snapshot has no parent, and dump succeeds on it. |
| `RbdSnap.HasParent` | src/cls/rbd/cls_rbd.h:118-121 | Every snapshot has a parent exactly when its parent's pool id is non-negative, its image id is non-empty and its snapshot is not CEPH_NOSNAP, which are the conditions of the parent's exists. A snapshot that has a parent never holds a default-constructed one. |
| `RbdSnap.MigrateParentFormat` | src/cls/rbd/cls_rbd.h:123-126 | It holds exactly when the Nautilus bit is set and the snapshot has a parent. `MigrateParentFormatNotConsulted` shows that encode never consults it. |
| `RbdSnap.DefaultSnapHasNoParent` | src/cls/rbd/cls_rbd.h:105-126 | For every snapshot, has_parent is the parent's exists. A default-constructed snapshot has no parent and never asks for its parent's format to be migrated. |
| `RbdSnap.MigrateParentFormatNotConsulted` | src/cls/rbd/cls_rbd.h:123-143 | migrate_parent_format holds exactly when the Nautilus bit is set and there is a parent, and never without the bit. The encoding is the same with and without the bit. |
| `RbdSnap.SnapParentFeaturesLackNautilus` | src/cls/rbd/cls_rbd.h:133-135 | The features encode passes to the parent lack the Nautilus bit, so the parent is written at version 1. |
| `RbdSnap.EncodeSnap` | src/cls/rbd/cls_rbd.h:128-143 | 6 header bytes plus the body, with struct_v 8 and compat 1 whatever the features. `SnapLayout` gives the layout, and `SnapRoundTrip` and `SnapReencodeStable` the round trips. |
| `RbdSnap.SnapLayout` | src/cls/rbd/cls_rbd.h:128-143 | An encoded snapshot starts with struct_v 8 and compat 1. Eight zero bytes follow image_size, then a version-1/compat-1 parent envelope, whatever features the caller passed. |
| `RbdSnap.DecodeSnap` | src/cls/rbd/cls_rbd.h:144-173 | A successful decode ends at least 6 bytes on and inside the buffer. What it returns is stated by `SnapDecodeUpTo` (any struct_v, compat up to 7), `DecodeSnapByHeader` and `SnapCompatGate`. |
| `RbdSnap.DecodeSnapFixed` | src/cls/rbd/cls_rbd.h:146-150 | Reading the fixed part consumes at least 28 bytes and changes only id, name and image_size. |
| `RbdSnap.DecodeSnapGated` | src/cls/rbd/cls_rbd.h:151-171 | Each of parent, protection_status, flags, snapshot_namespace, timestamp, child_count and parent_overlap keeps its prior value when struct_v is below the version that introduced it (2 to 8). |
| `RbdSnap.DecodeSnapByHeader` | src/cls/rbd/cls_rbd.h:144-173 | A compat byte above 7 gives `OldVersion(7, compat)`. A decoded snapshot ends where the envelope's length says. The struct_v byte alone decides which fields keep their prior values. |
| `RbdSnap.SnapGatedUpToAt` | src/cls/rbd/cls_rbd.h:151-171 | For any struct_v, the gated fields a writer of that version puts down (those introduced at that version or earlier, in order) are read back by the gated reads: each field whose version struct_v reaches comes from the bytes, the parent as a version-1 parent reads back, every other field keeps its prior value, and exactly those bytes are consumed. |
| `RbdSnap.SnapDecodeUpTo` | src/cls/rbd/cls_rbd.h:144-173 | A snapshot envelope of any struct_v and any compat up to 7, holding the fixed fields and the gated fields of that version, possibly followed by unknown fields, decodes to `SnapReadBackAt`: id, name and image_size and the fields that version carries from the writer, the others as the prior object held them. Decoding ends at the end of the envelope. |
| `RbdSnap.SnapReadBackAtEnds` | src/cls/rbd/cls_rbd.h:146-171 | From struct_v 8 on, what is read back is `SnapReadBack`, every field; below struct_v 2 only id, name and image_size change. |
| `RbdSnap.SnapGatedUpToFull` | src/cls/rbd/cls_rbd.h:135-141 | From struct_v 8 on, the gated fields of that version are exactly what encode writes after the fixed fields. |
| `RbdSnap.SnapDecodeAt` | src/cls/rbd/cls_rbd.h:144-173 | An envelope of any struct_v ≥ 8 and compat ≤ 7 holding a snapshot body, possibly followed by unknown fields, decodes to every field written. The exception is the parent, which reads back as a version-1 parent does. |
| `RbdSnap.SnapReadBack` | src/cls/rbd/cls_rbd.h:133-153 | What comes back differs from the original in the parent only, and the parent is the version-1 read-back. |
| `RbdSnap.SnapRoundTrip` | src/cls/rbd/cls_rbd.h:128-173 | decode(encode(x)) into any prior object gives `SnapReadBack(prior, x)` and consumes the whole encoding, for any features. |
| `RbdSnap.SnapParentNamespaceLost` | src/cls/rbd/cls_rbd.h:133-153 | Decoded into a default snapshot, the parent's namespace is empty, and the parent compares equal to the original exactly when the original namespace was empty. All other fields come back unchanged. |
| `RbdSnap.SnapReencodeStable` | src/cls/rbd/cls_rbd.h:128-173 | Decoding then re-encoding gives back the same bytes, whatever the prior object held. |
| `RbdSnap.SnapCompatGate` | src/cls/rbd/cls_rbd.h:145 | A snapshot envelope whose compat byte is above 7 is rejected whatever its struct_v. One with struct_v ≥ 8 (255 included) and compat ≤ 7 is read in full. |
| `RbdSnap.SnapTruncationRejected` | src/cls/rbd/cls_rbd.h:128-173 | No strict prefix of an encoded snapshot decodes; the error is a short read or a length past the end, never a version mismatch. |
| `RbdSnap.ProtectionStatusName` | src/cls/rbd/cls_rbd.h:181-194 | A protection status has a name exactly when it is one of the three known values: unprotected (0) is "unprotected", unprotecting (1) is "unprotecting", protected (2) is "protected". |
| `RbdSnap.DumpSnap` | src/cls/rbd/cls_rbd.h:174-200 | dump aborts exactly when the protection status is unknown. |
| `RbdSnap.DumpSnapEntries` | src/cls/rbd/cls_rbd.h:174-200 | The entry names are, in order: id, name, image_size, parent (only with a parent), protection_status, child_count, parent_overlap (only when set). id, name, image_size, child_count and the status name carry the record's values. flags, timestamp and snapshot_namespace are never dumped. |
| `RbdSnap.DumpSnapOptionalEntries` | src/cls/rbd/cls_rbd.h:178-198 | The parent section, holding the parent's own dump, appears exactly when there is a parent; parent_overlap appears, with its value, exactly when it is set. |
| `RbdSnap.SnapTestInstances` | src/cls/rbd/cls_rbd.h:201-219 | There are three instances, and only the third has a parent. `SnapTestInstancesRoundTrip` and `SnapTestInstancesDump` give their round trip and their dump. |
| `RbdSnap.SnapTestInstancesRoundTrip` | src/cls/rbd/cls_rbd.h:201-219 | Every test instance, encoded with any features and decoded into a default snapshot, comes back with its parent comparing equal to the original's and every other field identical. |
| `RbdSnap.SnapTestInstancesDump` | src/cls/rbd/cls_rbd.h:201-219 | Every test instance dumps without aborting, and only the third has a parent section. |

## Left out

- Formatter output: `dump` is modelled as the tree of entries it hands to the Formatter. Text rendering belongs to the Formatter, which is not part of this model.
- Bufferlists and iterators: encoders return byte sequences, and decoders take a buffer and a position. Buffer segmentation and the exceptions thrown on a short read become `Err` results.
- `DecodeParent`, `DecodeSnap`: a decode that throws has already overwritten some fields of the target in place (a snapshot whose embedded parent fails at line 152 has new id, name and image_size from lines 146-148). The model's `Err` carries no record, so this partial overwrite is not modelled and nothing is stated about the target after a failed decode. The callers that catch the exception are not part of this model.
- `utime_t` and `cls::rbd::SnapshotNamespace` are stand-ins. The timestamp is two u32 values. The namespace is a u32 tag and opaque field bytes inside a version-1 envelope. Their real encoders (`include/utime.h`, `cls/rbd/cls_rbd_types.h`) are not part of this model.
- The `cls_rbd_parent(ParentImageSpec, head_overlap)` constructor is not modelled: `ParentImageSpec` is not part of this model. The test instances build the equivalent `Parent` value directly.
- `CEPH_NOSNAP`, `CEPH_FEATURE_SERVER_NAUTILUS` and the `RBD_PROTECTION_STATUS_*` constants use Ceph's values, because their headers are not part of this model.
- Heap allocation, and the pointer list that `generate_test_instances` fills: the instances are a sequence of values.
- The older-reader scenario, where a decoder that knows only up to some struct_v reads a newer encoding, is not modelled. Such a decoder is not in this source. The mechanism it relies on is covered: this decoder leaves unreached fields alone (`DecodeSnapByHeader`), the snapshot is written with compat 1 (`SnapLayout`), and unknown trailing fields are skipped (`SnapDecodeUpTo`, `ParentDecodeV2`). How this decoder reads data written at an older struct_v is modelled (`SnapDecodeUpTo`).
- `EncodeStr`: a string of 2^32 bytes or more is written as its length modulo 2^32 followed by all its bytes. Ceph's string encoder (`include/encoding.h`) is not part of this model, so what it writes for such a string is not pinned down. No contract depends on it: every round trip requires lengths below 2^32.
- `ParentRoundTripNautilus`, `ParentRoundTripLegacy`, `SnapRoundTrip`, `SnapReencodeStable`: these require the bodies to be shorter than 2^32 bytes (`ParentFits`, `SnapFits`). The encoders themselves model the u32 length wrap for longer bodies, but no round trip is claimed for them.
- `DecodeSnapGated`: it requires the position to lie within the buffer, which every caller guarantees.
- `ReadIf` evaluates the read it may discard, because Dafny functions are pure. Only the chosen branch's result is used, so the outcome is the same as the source's `if`.
