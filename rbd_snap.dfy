/**
 * cls_rbd_snap: the on-disk descriptor of one RBD snapshot. It embeds a
 * cls_rbd_parent and has a version-gated encoding: the writer always emits
 * struct_v 8 / compat 1, the reader reads each field only from the version
 * that introduced it on.
 */
module RbdSnap {
  import opened Wire
  import opened DumpTree
  import opened RbdParent

  /** The three RBD_PROTECTION_STATUS_* values; their header is not part of this model. */
  const RBD_PROTECTION_STATUS_UNPROTECTED: byte := 0
  const RBD_PROTECTION_STATUS_UNPROTECTING: byte := 1
  const RBD_PROTECTION_STATUS_PROTECTED: byte := 2

  // --------------------------------------------------------- opaque members

  /**
   * Stand-in for utime_t: seconds and nanoseconds, each written as a u32.
   * The real utime_t encoder is not part of this model.
   */
  datatype UTime = UTime(sec: u32, nsec: u32)

  function EncodeUTime(t: UTime): (r: Bytes)
    ensures |r| == 8
  {
    EncodeU32(t.sec) + EncodeU32(t.nsec)
  }

  function DecodeUTime(s: Bytes, pos: nat): (r: Result<Decoded<UTime>>)
    ensures r.Ok? <==> pos + 8 <= |s|
    ensures r.Ok? ==> r.value.next == pos + 8
  {
    var sec :- DecodeU32(s, pos);
    var nsec :- DecodeU32(s, sec.next);
    Ok(Decoded(UTime(sec.val, nsec.val), nsec.next))
  }

  /** A written timestamp reads back as itself. */
  lemma DecodeUTimeAt(s: Bytes, pos: nat, t: UTime)
    requires At(s, pos, EncodeUTime(t))
    ensures DecodeUTime(s, pos) == Ok(Decoded(t, pos + 8))
  {
    AtSplit(s, pos, EncodeU32(t.sec), EncodeU32(t.nsec));
    DecodeU32At(s, pos, t.sec);
    DecodeU32At(s, pos + 4, t.nsec);
  }

  /**
   * Stand-in for cls::rbd::SnapshotNamespace, a variant: the u32 tag of the
   * alternative and the bytes of its fields, inside an envelope of version 1.
   * The variant's own alternatives and encoders are not part of this model.
   */
  datatype SnapshotNamespace = SnapshotNamespace(kind: u32, fields: Bytes)

  /** The default: a user snapshot, tag 0, no fields. */
  const UserSnapshotNamespace: SnapshotNamespace := SnapshotNamespace(0, [])

  function EncodeSnapshotNamespace(n: SnapshotNamespace): (r: Bytes)
    ensures |r| == 10 + |n.fields|
  {
    Envelope(1, 1, EncodeU32(n.kind) + n.fields)
  }

  /** The tag, then every remaining byte of the envelope as the alternative's fields. */
  function DecodeSnapshotNamespace(s: Bytes, pos: nat): (r: Result<Decoded<SnapshotNamespace>>)
    ensures r.Ok? ==> pos + 10 <= r.value.next <= |s|
  {
    var h :- DecodeStart(1, s, pos);
    var kind :- DecodeU32(s, h.bodyStart);
    var end :- DecodeFinish(h, kind.next);
    Ok(Decoded(SnapshotNamespace(kind.val, s[kind.next..end]), end))
  }

  /** A written namespace reads back as itself. */
  lemma DecodeSnapshotNamespaceAt(s: Bytes, pos: nat, n: SnapshotNamespace)
    requires 4 + |n.fields| < TWO32
    requires At(s, pos, EncodeSnapshotNamespace(n))
    ensures DecodeSnapshotNamespace(s, pos) == Ok(Decoded(n, pos + 10 + |n.fields|))
  {
    DecodeStartAt(1, s, pos, 1, 1, EncodeU32(n.kind) + n.fields);
    AtSplit(s, pos + 6, EncodeU32(n.kind), n.fields);
    DecodeU32At(s, pos + 6, n.kind);
  }

  // ------------------------------------------------------------------ record

  datatype Snap = Snap(
    id: u64,
    name: Str,
    imageSize: u64,
    protectionStatus: byte,
    parent: Parent,
    flags: u64,
    timestamp: UTime,
    snapshotNamespace: SnapshotNamespace,
    childCount: u32,
    parentOverlap: Option<u64>)

  /** A default-constructed cls_rbd_snap: no parent, and dump succeeds on it. */
  function DefaultSnap(): (r: Snap)
    ensures !HasParent(r)
    ensures DumpSnap(r).Dumped?
  {
    Snap(CEPH_NOSNAP, [], 0, RBD_PROTECTION_STATUS_UNPROTECTED, DefaultParent(), 0,
         UTime(0, 0), UserSnapshotNamespace, 0, None)
  }

  /**
   * has_parent(): the parent's three conditions for existing, for every
   * snapshot; a snapshot with a parent never holds a default-constructed one.
   */
  predicate HasParent(x: Snap): (r: bool)
    ensures r <==> x.parent.poolId >= 0 && |x.parent.imageId| > 0 && x.parent.snapId != CEPH_NOSNAP
    ensures r ==> NotEqual(x.parent, DefaultParent())
  {
    Exists(x.parent)
  }

  /**
   * migrate_parent_format(features): only with the Nautilus bit, and only
   * for a snapshot that has a parent.
   */
  predicate MigrateParentFormat(x: Snap, features: Features): (r: bool)
    ensures r <==> HasNautilus(features) && HasParent(x)
  {
    HasNautilus(features) && Exists(x.parent)
  }

  /**
   * Every snapshot has a parent exactly when its parent exists; the default
   * one has none, so it never asks for its parent's format to be migrated.
   */
  lemma DefaultSnapHasNoParent(x: Snap, features: Features)
    ensures HasParent(x) <==> Exists(x.parent)
    ensures !HasParent(DefaultSnap())
    ensures !MigrateParentFormat(DefaultSnap(), features)
  {
  }

  // ---------------------------------------------------------------- encoding

  /**
   * The `features` that encode hands to the embedded parent: a local
   * `uint64_t features = 0` shadows the caller's argument.
   */
  const SNAP_PARENT_FEATURES: Features := 0

  lemma SnapParentFeaturesLackNautilus()
    ensures !HasNautilus(SNAP_PARENT_FEATURES) && EncodeVersion(SNAP_PARENT_FEATURES) == 1
  {
  }

  /** The fields every version carries: id, name, image_size and an unused u64 0. */
  function SnapFixed(x: Snap): (r: Bytes)
    ensures |r| == 28 + |x.name|
  {
    EncodeU64(x.id) + EncodeStr(x.name) + EncodeU64(x.imageSize) + EncodeU64(0)
  }

  /** The fields of versions 2 to 8, in the order they were introduced. */
  function SnapGated(x: Snap): (r: Bytes)
    ensures |r| == 6 + |ParentBody(x.parent, 1)| + 1 + 8 + 10 + |x.snapshotNamespace.fields| + 8 + 4
                   + |EncodeOptU64(x.parentOverlap)|
  {
    SnapParentFeaturesLackNautilus();
    EncodeParent(x.parent, SNAP_PARENT_FEATURES)
    + EncodeU8(x.protectionStatus)
    + EncodeU64(x.flags)
    + EncodeSnapshotNamespace(x.snapshotNamespace)
    + EncodeUTime(x.timestamp)
    + EncodeU32(x.childCount)
    + EncodeOptU64(x.parentOverlap)
  }

  function SnapBody(x: Snap): (r: Bytes)
    ensures |r| == |SnapFixed(x)| + |SnapGated(x)|
  {
    SnapFixed(x) + SnapGated(x)
  }

  /** encode(bl, features): ENCODE_START(8, 1) whatever `features` holds. */
  function EncodeSnap(x: Snap, features: Features): (r: Bytes)
    ensures |r| == 6 + |SnapBody(x)|
    ensures r[0] == 8 && r[1] == 1
  {
    Envelope(8, 1, SnapBody(x))
  }

  /** The body is short enough for every length field to hold its length. */
  predicate SnapFits(x: Snap) {
    |SnapBody(x)| < TWO32
  }

  // Unfoldings for the proofs below that begin with `hide *`: each restates
  // a definition so that a proof can use it without revealing every body.

  lemma SnapFitsBody(x: Snap)
    requires SnapFits(x)
    ensures |SnapBody(x) + []| < TWO32
  {
  }

  lemma SnapFixedShape(x: Snap)
    ensures SnapFixed(x) == EncodeU64(x.id) + (EncodeStr(x.name) + (EncodeU64(x.imageSize) + EncodeU64(0)))
  {
  }

  lemma SnapGatedShape(x: Snap)
    ensures SnapGated(x)
         == Envelope(1, 1, ParentBody(x.parent, 1))
            + (EncodeU8(x.protectionStatus)
            + (EncodeU64(x.flags)
            + (EncodeSnapshotNamespace(x.snapshotNamespace)
            + (EncodeUTime(x.timestamp)
            + (EncodeU32(x.childCount)
            + EncodeOptU64(x.parentOverlap))))))
  {
    SnapParentFeaturesLackNautilus();
    EncodeParentShape(x.parent, SNAP_PARENT_FEATURES);
  }

  lemma SnapBodyShape(x: Snap, extra: Bytes)
    ensures SnapBody(x) + extra == SnapFixed(x) + (SnapGated(x) + extra)
  {
  }

  lemma EncodeSnapShape(x: Snap, features: Features)
    ensures EncodeSnap(x, features) == Envelope(8, 1, SnapBody(x) + [])
  {
    assert SnapBody(x) + [] == SnapBody(x);
  }

  /** `b` when the version carries it, else nothing. */
  function WrittenIf(carried: bool, b: Bytes): (r: Bytes)
    ensures carried ==> r == b
    ensures !carried ==> r == []
  {
    if carried then b else []
  }

  /**
   * The gated fields a writer of struct_v `v` puts after the fixed ones:
   * those introduced at version `v` or earlier, in the order of introduction.
   */
  function SnapGatedUpTo(x: Snap, v: byte): Bytes {
    WrittenIf(v >= 2, Envelope(1, 1, ParentBody(x.parent, 1)))
    + (WrittenIf(v >= 3, EncodeU8(x.protectionStatus))
    + (WrittenIf(v >= 4, EncodeU64(x.flags))
    + (WrittenIf(v >= 5, EncodeSnapshotNamespace(x.snapshotNamespace))
    + (WrittenIf(v >= 6, EncodeUTime(x.timestamp))
    + (WrittenIf(v >= 7, EncodeU32(x.childCount))
    + WrittenIf(v >= 8, EncodeOptU64(x.parentOverlap)))))))
  }

  /** Unfolding of SnapGatedUpTo for proofs that begin with `hide *`. */
  lemma SnapGatedUpToShape(x: Snap, v: byte)
    ensures SnapGatedUpTo(x, v)
         == WrittenIf(v >= 2, Envelope(1, 1, ParentBody(x.parent, 1)))
            + (WrittenIf(v >= 3, EncodeU8(x.protectionStatus))
            + (WrittenIf(v >= 4, EncodeU64(x.flags))
            + (WrittenIf(v >= 5, EncodeSnapshotNamespace(x.snapshotNamespace))
            + (WrittenIf(v >= 6, EncodeUTime(x.timestamp))
            + (WrittenIf(v >= 7, EncodeU32(x.childCount))
            + WrittenIf(v >= 8, EncodeOptU64(x.parentOverlap)))))))
  {
  }

  /** From version 8 on, that is everything encode writes after the fixed fields. */
  lemma SnapGatedUpToFull(x: Snap, v: byte)
    requires v >= 8
    ensures SnapGatedUpTo(x, v) == SnapGated(x)
  {
    SnapGatedShape(x);
  }

  // ---------------------------------------------------------------- decoding

  /** A field read only when its version is carried; otherwise the value already held. */
  function ReadIf<T>(carried: bool, held: T, read: Result<Decoded<T>>, pos: nat): (r: Result<Decoded<T>>)
    ensures carried ==> r == read
    ensures !carried ==> r == Ok(Decoded(held, pos))
  {
    if carried then read else Ok(Decoded(held, pos))
  }

  /** id, name, image_size and the unused u64, which is read and dropped. */
  function DecodeSnapFixed(prior: Snap, s: Bytes, pos: nat): (r: Result<Decoded<Snap>>)
    ensures r.Ok? ==> pos + 28 <= r.value.next <= |s|
    ensures r.Ok? ==> r.value.val.(id := prior.id, name := prior.name, imageSize := prior.imageSize) == prior
  {
    var id :- DecodeU64(s, pos);
    var name :- DecodeStr(s, id.next);
    var size :- DecodeU64(s, name.next);
    var unused :- DecodeU64(s, size.next);
    Ok(Decoded(prior.(id := id.val, name := name.val, imageSize := size.val), unused.next))
  }

  /**
   * The version-gated fields: each is overwritten only when `structV` has
   * reached the version that introduced it, and otherwise keeps the value
   * `prior` held.
   */
  function DecodeSnapGated(prior: Snap, structV: byte, s: Bytes, pos: nat): (r: Result<Decoded<Snap>>)
    requires pos <= |s|
    ensures r.Ok? ==> pos <= r.value.next <= |s|
    ensures r.Ok? ==> r.value.val.id == prior.id && r.value.val.name == prior.name
                      && r.value.val.imageSize == prior.imageSize
    ensures r.Ok? && structV < 2 ==> r.value.val.parent == prior.parent
    ensures r.Ok? && structV < 3 ==> r.value.val.protectionStatus == prior.protectionStatus
    ensures r.Ok? && structV < 4 ==> r.value.val.flags == prior.flags
    ensures r.Ok? && structV < 5 ==> r.value.val.snapshotNamespace == prior.snapshotNamespace
    ensures r.Ok? && structV < 6 ==> r.value.val.timestamp == prior.timestamp
    ensures r.Ok? && structV < 7 ==> r.value.val.childCount == prior.childCount
    ensures r.Ok? && structV < 8 ==> r.value.val.parentOverlap == prior.parentOverlap
  {
    var parent :- ReadIf(structV >= 2, prior.parent, DecodeParent(prior.parent, s, pos), pos);
    var status :- ReadIf<byte>(structV >= 3, prior.protectionStatus, DecodeU8(s, parent.next), parent.next);
    var flags :- ReadIf<u64>(structV >= 4, prior.flags, DecodeU64(s, status.next), status.next);
    var ns :- ReadIf(structV >= 5, prior.snapshotNamespace, DecodeSnapshotNamespace(s, flags.next), flags.next);
    var timestamp :- ReadIf(structV >= 6, prior.timestamp, DecodeUTime(s, ns.next), ns.next);
    var childCount :- ReadIf<u32>(structV >= 7, prior.childCount, DecodeU32(s, timestamp.next), timestamp.next);
    var overlap :- ReadIf(structV >= 8, prior.parentOverlap, DecodeOptU64(s, childCount.next), childCount.next);
    Ok(Decoded(prior.(parent := parent.val, protectionStatus := status.val, flags := flags.val,
                      snapshotNamespace := ns.val, timestamp := timestamp.val, childCount := childCount.val,
                      parentOverlap := overlap.val), overlap.next))
  }

  /** decode(): DECODE_START(7), the fixed fields, the gated fields, DECODE_FINISH. */
  function DecodeSnap(prior: Snap, s: Bytes, pos: nat): (r: Result<Decoded<Snap>>)
    ensures r.Ok? ==> pos + 6 <= r.value.next <= |s|
  {
    var h :- DecodeStart(7, s, pos);
    var fixed :- DecodeSnapFixed(prior, s, h.bodyStart);
    var gated :- DecodeSnapGated(fixed.val, h.structV, s, fixed.next);
    var end :- DecodeFinish(h, gated.next);
    Ok(Decoded(gated.val, end))
  }

  /**
   * What the header alone decides: a compat byte above 7 is rejected (a
   * struct_v above 7 is not); a decoded snapshot ends where the envelope's
   * length says; and every field whose version the struct_v byte does not
   * reach keeps the value `prior` held.
   */
  lemma DecodeSnapByHeader(prior: Snap, s: Bytes, pos: nat)
    ensures pos + 2 <= |s| && s[pos + 1] > 7 ==> DecodeSnap(prior, s, pos) == Err(OldVersion(7, s[pos + 1]))
    ensures DecodeSnap(prior, s, pos).Ok? ==>
              pos + 6 <= |s| && s[pos + 1] <= 7
              && DecodeSnap(prior, s, pos).value.next == pos + 6 + ValueLE(s[pos + 2..pos + 6])
    ensures var r := DecodeSnap(prior, s, pos);
            r.Ok? ==>
              (s[pos] < 2 ==> r.value.val.parent == prior.parent)
              && (s[pos] < 3 ==> r.value.val.protectionStatus == prior.protectionStatus)
              && (s[pos] < 4 ==> r.value.val.flags == prior.flags)
              && (s[pos] < 5 ==> r.value.val.snapshotNamespace == prior.snapshotNamespace)
              && (s[pos] < 6 ==> r.value.val.timestamp == prior.timestamp)
              && (s[pos] < 7 ==> r.value.val.childCount == prior.childCount)
              && (s[pos] < 8 ==> r.value.val.parentOverlap == prior.parentOverlap)
  {
    DecodeStartSpec(7, s, pos);
  }

  /** DecodeSnap in terms of what DECODE_START and the two groups of reads return. */
  lemma DecodeSnapFromParts(prior: Snap, s: Bytes, pos: nat, h: Header, fixed: Decoded<Snap>, gated: Decoded<Snap>)
    requires DecodeStart(7, s, pos) == Ok(h)
    requires DecodeSnapFixed(prior, s, h.bodyStart) == Ok(fixed)
    requires fixed.next <= |s|
    requires DecodeSnapGated(fixed.val, h.structV, s, fixed.next) == Ok(gated)
    requires gated.next <= h.structEnd
    ensures DecodeSnap(prior, s, pos) == Ok(Decoded(gated.val, h.structEnd))
  {
  }

  lemma SnapFixedFromReads(prior: Snap, s: Bytes, pos: nat, id: Decoded<u64>, name: Decoded<Str>,
                           size: Decoded<u64>, unused: Decoded<u64>)
    requires DecodeU64(s, pos) == Ok(id)
    requires DecodeStr(s, id.next) == Ok(name)
    requires DecodeU64(s, name.next) == Ok(size)
    requires DecodeU64(s, size.next) == Ok(unused)
    ensures DecodeSnapFixed(prior, s, pos)
         == Ok(Decoded(prior.(id := id.val, name := name.val, imageSize := size.val), unused.next))
  {
  }

  /** The fixed fields read back as written. */
  lemma SnapFixedAt(prior: Snap, x: Snap, s: Bytes, pos: nat)
    requires |x.name| < TWO32
    requires At(s, pos, SnapFixed(x))
    ensures DecodeSnapFixed(prior, s, pos)
         == Ok(Decoded(prior.(id := x.id, name := x.name, imageSize := x.imageSize), pos + 28 + |x.name|))
  {
    hide *;
    SnapFixedShape(x);
    var p1 := pos + 8;
    var p2 := p1 + 4 + |x.name|;
    var p3 := p2 + 8;
    AtSplit(s, pos, EncodeU64(x.id), EncodeStr(x.name) + (EncodeU64(x.imageSize) + EncodeU64(0)));
    AtSplit(s, p1, EncodeStr(x.name), EncodeU64(x.imageSize) + EncodeU64(0));
    AtSplit(s, p2, EncodeU64(x.imageSize), EncodeU64(0));
    DecodeU64At(s, pos, x.id);
    DecodeStrAt(s, p1, x.name);
    DecodeU64At(s, p2, x.imageSize);
    DecodeU64At(s, p3, 0);
    SnapFixedFromReads(prior, s, pos, Decoded(x.id, p1), Decoded(x.name, p2), Decoded(x.imageSize, p3),
                       Decoded(0, p3 + 8));
  }

  /**
   * What a snapshot decoder reads back from an encoding of `x`: every field,
   * except that the parent, written at version 1, comes back as a version-1
   * parent does (prior namespace, overlap made present).
   */
  function SnapReadBack(prior: Snap, x: Snap): (r: Snap)
    ensures r.parent == ReadBackV1(prior.parent, x.parent)
    ensures r.(parent := x.parent) == x
  {
    x.(parent := ReadBackV1(prior.parent, x.parent))
  }

  /**
   * What a decoder reads from a snapshot written at struct_v `v`: what
   * `prior` held, with id, name and image_size and every gated field whose
   * version `v` reaches taken from `x`. The parent, written at version 1,
   * reads back as ReadBackV1 says.
   */
  function SnapReadBackAt(prior: Snap, x: Snap, v: byte): Snap {
    prior.(id := x.id, name := x.name, imageSize := x.imageSize,
           parent := if v >= 2 then ReadBackV1(prior.parent, x.parent) else prior.parent,
           protectionStatus := if v >= 3 then x.protectionStatus else prior.protectionStatus,
           flags := if v >= 4 then x.flags else prior.flags,
           snapshotNamespace := if v >= 5 then x.snapshotNamespace else prior.snapshotNamespace,
           timestamp := if v >= 6 then x.timestamp else prior.timestamp,
           childCount := if v >= 7 then x.childCount else prior.childCount,
           parentOverlap := if v >= 8 then x.parentOverlap else prior.parentOverlap)
  }

  /**
   * The two ends of the version range: from 8 on every field is read, as
   * SnapReadBack says; below 2 only id, name and image_size are.
   */
  lemma SnapReadBackAtEnds(prior: Snap, x: Snap, v: byte)
    ensures v >= 8 ==> SnapReadBackAt(prior, x, v) == SnapReadBack(prior, x)
    ensures v < 2 ==> SnapReadBackAt(prior, x, v) == prior.(id := x.id, name := x.name, imageSize := x.imageSize)
  {
  }

  // Unfoldings of SnapReadBackAt, for the proofs below that begin with `hide *`.

  lemma SnapReadBackAtFields(prior: Snap, x: Snap, v: byte)
    requires prior.id == x.id && prior.name == x.name && prior.imageSize == x.imageSize
    ensures SnapReadBackAt(prior, x, v)
         == prior.(parent := if v >= 2 then ReadBackV1(prior.parent, x.parent) else prior.parent,
                   protectionStatus := if v >= 3 then x.protectionStatus else prior.protectionStatus,
                   flags := if v >= 4 then x.flags else prior.flags,
                   snapshotNamespace := if v >= 5 then x.snapshotNamespace else prior.snapshotNamespace,
                   timestamp := if v >= 6 then x.timestamp else prior.timestamp,
                   childCount := if v >= 7 then x.childCount else prior.childCount,
                   parentOverlap := if v >= 8 then x.parentOverlap else prior.parentOverlap)
  {
  }

  lemma SnapReadBackAtFixed(prior: Snap, fixed: Snap, x: Snap, v: byte)
    requires fixed == prior.(id := x.id, name := x.name, imageSize := x.imageSize)
    ensures SnapReadBackAt(fixed, x, v) == SnapReadBackAt(prior, x, v)
  {
  }

  // One gated read each: the field written when its version is carried
  // reads back, and otherwise nothing is consumed and the held value stays.

  lemma GatedParentAt(carried: bool, held: Parent, p: Parent, s: Bytes, pos: nat)
    requires carried ==> |ParentBody(p, 1)| < TWO32
    requires At(s, pos, WrittenIf(carried, Envelope(1, 1, ParentBody(p, 1))))
    ensures ReadIf(carried, held, DecodeParent(held, s, pos), pos)
         == Ok(Decoded(if carried then ReadBackV1(held, p) else held,
                       pos + |WrittenIf(carried, Envelope(1, 1, ParentBody(p, 1)))|))
  {
    hide *;
    if carried {
      assert ParentBody(p, 1) + [] == ParentBody(p, 1);
    ParentDecodeV1(held, p, 1, [], s, pos);
    }
  }

  lemma GatedU8At(carried: bool, held: byte, x: byte, s: Bytes, pos: nat)
    requires At(s, pos, WrittenIf(carried, EncodeU8(x)))
    ensures ReadIf(carried, held, DecodeU8(s, pos), pos)
         == Ok(Decoded(if carried then x else held, pos + |WrittenIf(carried, EncodeU8(x))|))
  {
    hide *;
    if carried {
      DecodeU8At(s, pos, x);
    }
  }

  lemma GatedU64At(carried: bool, held: u64, x: u64, s: Bytes, pos: nat)
    requires At(s, pos, WrittenIf(carried, EncodeU64(x)))
    ensures ReadIf(carried, held, DecodeU64(s, pos), pos)
         == Ok(Decoded(if carried then x else held, pos + |WrittenIf(carried, EncodeU64(x))|))
  {
    hide *;
    if carried {
      DecodeU64At(s, pos, x);
    }
  }

  lemma GatedNamespaceAt(carried: bool, held: SnapshotNamespace, n: SnapshotNamespace, s: Bytes, pos: nat)
    requires carried ==> 4 + |n.fields| < TWO32
    requires At(s, pos, WrittenIf(carried, EncodeSnapshotNamespace(n)))
    ensures ReadIf(carried, held, DecodeSnapshotNamespace(s, pos), pos)
         == Ok(Decoded(if carried then n else held, pos + |WrittenIf(carried, EncodeSnapshotNamespace(n))|))
  {
    hide *;
    if carried {
      DecodeSnapshotNamespaceAt(s, pos, n);
    }
  }

  lemma GatedUTimeAt(carried: bool, held: UTime, t: UTime, s: Bytes, pos: nat)
    requires At(s, pos, WrittenIf(carried, EncodeUTime(t)))
    ensures ReadIf(carried, held, DecodeUTime(s, pos), pos)
         == Ok(Decoded(if carried then t else held, pos + |WrittenIf(carried, EncodeUTime(t))|))
  {
    hide *;
    if carried {
      DecodeUTimeAt(s, pos, t);
    }
  }

  lemma GatedU32At(carried: bool, held: u32, x: u32, s: Bytes, pos: nat)
    requires At(s, pos, WrittenIf(carried, EncodeU32(x)))
    ensures ReadIf(carried, held, DecodeU32(s, pos), pos)
         == Ok(Decoded(if carried then x else held, pos + |WrittenIf(carried, EncodeU32(x))|))
  {
    hide *;
    if carried {
      DecodeU32At(s, pos, x);
    }
  }

  lemma GatedOptU64At(carried: bool, held: Option<u64>, o: Option<u64>, s: Bytes, pos: nat)
    requires At(s, pos, WrittenIf(carried, EncodeOptU64(o)))
    ensures ReadIf(carried, held, DecodeOptU64(s, pos), pos)
         == Ok(Decoded(if carried then o else held, pos + |WrittenIf(carried, EncodeOptU64(o))|))
  {
    hide *;
    if carried {
      DecodeOptU64At(s, pos, o);
    }
  }

  /** Seven pieces laid down one after the other are each found where the previous one ends. */
  lemma SevenPiecesAt(s: Bytes, pos: nat, a: Bytes, b: Bytes, c: Bytes, d: Bytes, e: Bytes, f: Bytes, g: Bytes)
    requires At(s, pos, a + (b + (c + (d + (e + (f + g))))))
    ensures At(s, pos, a) && At(s, pos + |a|, b) && At(s, pos + |a| + |b|, c)
    ensures At(s, pos + |a| + |b| + |c|, d) && At(s, pos + |a| + |b| + |c| + |d|, e)
    ensures At(s, pos + |a| + |b| + |c| + |d| + |e|, f) && At(s, pos + |a| + |b| + |c| + |d| + |e| + |f|, g)
  {
    AtSplit(s, pos, a, b + (c + (d + (e + (f + g)))));
    AtSplit(s, pos + |a|, b, c + (d + (e + (f + g))));
    AtSplit(s, pos + |a| + |b|, c, d + (e + (f + g)));
    AtSplit(s, pos + |a| + |b| + |c|, d, e + (f + g));
    AtSplit(s, pos + |a| + |b| + |c| + |d|, e, f + g);
    AtSplit(s, pos + |a| + |b| + |c| + |d| + |e|, f, g);
  }

  /** DecodeSnapGated in terms of what each of its seven gated reads returns. */
  lemma SnapGatedFromSteps(prior: Snap, structV: byte, s: Bytes, pos: nat, parent: Decoded<Parent>,
                           status: Decoded<byte>, flags: Decoded<u64>, ns: Decoded<SnapshotNamespace>,
                           timestamp: Decoded<UTime>, childCount: Decoded<u32>, overlap: Decoded<Option<u64>>)
    requires pos <= |s|
    requires ReadIf(structV >= 2, prior.parent, DecodeParent(prior.parent, s, pos), pos) == Ok(parent)
    requires ReadIf<byte>(structV >= 3, prior.protectionStatus, DecodeU8(s, parent.next), parent.next) == Ok(status)
    requires ReadIf<u64>(structV >= 4, prior.flags, DecodeU64(s, status.next), status.next) == Ok(flags)
    requires ReadIf(structV >= 5, prior.snapshotNamespace, DecodeSnapshotNamespace(s, flags.next), flags.next)
             == Ok(ns)
    requires ReadIf(structV >= 6, prior.timestamp, DecodeUTime(s, ns.next), ns.next) == Ok(timestamp)
    requires ReadIf<u32>(structV >= 7, prior.childCount, DecodeU32(s, timestamp.next), timestamp.next)
             == Ok(childCount)
    requires ReadIf(structV >= 8, prior.parentOverlap, DecodeOptU64(s, childCount.next), childCount.next)
             == Ok(overlap)
    ensures DecodeSnapGated(prior, structV, s, pos)
         == Ok(Decoded(prior.(parent := parent.val, protectionStatus := status.val, flags := flags.val,
                              snapshotNamespace := ns.val, timestamp := timestamp.val,
                              childCount := childCount.val, parentOverlap := overlap.val), overlap.next))
  {
  }

  /**
   * At any struct_v, the gated fields a writer of that version puts down
   * read back as SnapReadBackAt says, into a snapshot that already holds
   * the fixed fields.
   */
  lemma SnapGatedUpToAt(prior: Snap, x: Snap, v: byte, s: Bytes, pos: nat)
    requires prior.id == x.id && prior.name == x.name && prior.imageSize == x.imageSize
    requires pos <= |s| && |SnapGatedUpTo(x, v)| < TWO32
    requires At(s, pos, SnapGatedUpTo(x, v))
    ensures DecodeSnapGated(prior, v, s, pos) == Ok(Decoded(SnapReadBackAt(prior, x, v), pos + |SnapGatedUpTo(x, v)|))
  {
    hide *;
    SnapGatedUpToShape(x, v);
    var wa := WrittenIf(v >= 2, Envelope(1, 1, ParentBody(x.parent, 1)));
    var wb := WrittenIf(v >= 3, EncodeU8(x.protectionStatus));
    var wc := WrittenIf(v >= 4, EncodeU64(x.flags));
    var wd := WrittenIf(v >= 5, EncodeSnapshotNamespace(x.snapshotNamespace));
    var we := WrittenIf(v >= 6, EncodeUTime(x.timestamp));
    var wf := WrittenIf(v >= 7, EncodeU32(x.childCount));
    var wg := WrittenIf(v >= 8, EncodeOptU64(x.parentOverlap));
    var p1 := pos + |wa|;
    var p2 := p1 + |wb|;
    var p3 := p2 + |wc|;
    var p4 := p3 + |wd|;
    var p5 := p4 + |we|;
    var p6 := p5 + |wf|;
    SevenPiecesAt(s, pos, wa, wb, wc, wd, we, wf, wg);
    GatedParentAt(v >= 2, prior.parent, x.parent, s, pos);
    GatedU8At(v >= 3, prior.protectionStatus, x.protectionStatus, s, p1);
    GatedU64At(v >= 4, prior.flags, x.flags, s, p2);
    GatedNamespaceAt(v >= 5, prior.snapshotNamespace, x.snapshotNamespace, s, p3);
    GatedUTimeAt(v >= 6, prior.timestamp, x.timestamp, s, p4);
    GatedU32At(v >= 7, prior.childCount, x.childCount, s, p5);
    GatedOptU64At(v >= 8, prior.parentOverlap, x.parentOverlap, s, p6);
    var d1 := Decoded(if v >= 2 then ReadBackV1(prior.parent, x.parent) else prior.parent, p1);
    var d2 := Decoded(if v >= 3 then x.protectionStatus else prior.protectionStatus, p2);
    var d3 := Decoded(if v >= 4 then x.flags else prior.flags, p3);
    var d4 := Decoded(if v >= 5 then x.snapshotNamespace else prior.snapshotNamespace, p4);
    var d5 := Decoded(if v >= 6 then x.timestamp else prior.timestamp, p5);
    var d6 := Decoded(if v >= 7 then x.childCount else prior.childCount, p6);
    var d7 := Decoded(if v >= 8 then x.parentOverlap else prior.parentOverlap, p6 + |wg|);
    SnapGatedFromSteps(prior, v, s, pos, d1, d2, d3, d4, d5, d6, d7);
    SnapReadBackAtFields(prior, x, v);
  }

  /**
   * A snapshot written at any struct_v, with any compat up to 7 and possibly
   * followed by fields this decoder does not know, decodes to
   * SnapReadBackAt: the fields that version carries come from the writer,
   * the rest keep what `prior` held, and decoding ends at the end of the
   * envelope.
   */
  lemma SnapDecodeUpTo(prior: Snap, x: Snap, v: byte, compat: byte, extra: Bytes, s: Bytes, pos: nat)
    requires compat <= 7
    requires |SnapFixed(x) + SnapGatedUpTo(x, v) + extra| < TWO32
    requires At(s, pos, Envelope(v, compat, SnapFixed(x) + SnapGatedUpTo(x, v) + extra))
    ensures DecodeSnap(prior, s, pos)
         == Ok(Decoded(SnapReadBackAt(prior, x, v), pos + 6 + |SnapFixed(x)| + |SnapGatedUpTo(x, v)| + |extra|))
  {
    hide *;
    var fixed := SnapFixed(x);
    var gated := SnapGatedUpTo(x, v);
    var body := fixed + gated + extra;
    assert body == fixed + (gated + extra);
    var h := Header(v, compat, pos + 6, pos + 6 + |body|);
    DecodeStartAt(7, s, pos, v, compat, body);
    AtSplit(s, pos + 6, fixed, gated + extra);
    AtSplit(s, pos + 6 + |fixed|, gated, extra);
    SnapFixedAt(prior, x, s, pos + 6);
    var fixedVal := prior.(id := x.id, name := x.name, imageSize := x.imageSize);
    SnapGatedUpToAt(fixedVal, x, v, s, pos + 6 + |fixed|);
    SnapReadBackAtFixed(prior, fixedVal, x, v);
    DecodeSnapFromParts(prior, s, pos, h, Decoded(fixedVal, pos + 6 + |fixed|),
                        Decoded(SnapReadBackAt(prior, x, v), pos + 6 + |fixed| + |gated|));
  }

  /**
   * An envelope of any struct_v from 8 on and any compat up to 7 holding a
   * snapshot body, possibly followed by fields this decoder does not know,
   * decodes to SnapReadBack and ends at the end of the envelope.
   */
  lemma SnapDecodeAt(prior: Snap, x: Snap, v: byte, compat: byte, extra: Bytes, s: Bytes, pos: nat)
    requires v >= 8 && compat <= 7
    requires |SnapBody(x) + extra| < TWO32
    requires At(s, pos, Envelope(v, compat, SnapBody(x) + extra))
    ensures DecodeSnap(prior, s, pos) == Ok(Decoded(SnapReadBack(prior, x), pos + 6 + |SnapBody(x)| + |extra|))
  {
    hide *;
    SnapGatedUpToFull(x, v);
    SnapBodyShape(x, extra);
    assert SnapBody(x) + extra == SnapFixed(x) + SnapGatedUpTo(x, v) + extra;
    SnapDecodeUpTo(prior, x, v, compat, extra, s, pos);
    SnapReadBackAtEnds(prior, x, v);
  }

  /**
   * encode then decode into `prior`: every field of the snapshot comes back
   * except the parent's namespace, which is the one `prior` held, and an
   * absent head_overlap of the parent, which comes back as 0; decoding
   * consumes exactly the encoding. The caller's features make no difference.
   */
  lemma SnapRoundTrip(prior: Snap, x: Snap, features: Features)
    requires SnapFits(x)
    ensures DecodeSnap(prior, EncodeSnap(x, features), 0)
         == Ok(Decoded(SnapReadBack(prior, x), |EncodeSnap(x, features)|))
  {
    hide *;
    SnapFitsBody(x);
    var e := EncodeSnap(x, features);
    EncodeSnapShape(x, features);
    AtWhole(e);
    SnapDecodeAt(prior, x, 8, 1, [], e, 0);
  }

  /**
   * Decoded into a default-constructed snapshot, the parent comes back with
   * an empty namespace: it compares equal to the original parent exactly
   * when that one had an empty namespace too.
   */
  lemma SnapParentNamespaceLost(x: Snap, features: Features)
    requires SnapFits(x)
    ensures DecodeSnap(DefaultSnap(), EncodeSnap(x, features), 0).Ok?
    ensures var back := DecodeSnap(DefaultSnap(), EncodeSnap(x, features), 0).value.val;
            back.parent.poolNamespace == []
            && (Equal(back.parent, x.parent) <==> x.parent.poolNamespace == [])
            && back.(parent := x.parent) == x
  {
    SnapRoundTrip(DefaultSnap(), x, features);
  }

  /** A version-1 parent body does not depend on what the read-back changes. */
  lemma ParentBodyV1OfReadBack(prior: Parent, p: Parent)
    ensures ParentBody(ReadBackV1(prior, p), 1) == ParentBody(p, 1)
  {
  }

  /** Decoding then re-encoding gives back the same bytes, whatever the prior object held. */
  lemma SnapReencodeStable(prior: Snap, x: Snap, features: Features)
    requires SnapFits(x)
    ensures DecodeSnap(prior, EncodeSnap(x, features), 0).Ok?
    ensures EncodeSnap(DecodeSnap(prior, EncodeSnap(x, features), 0).value.val, features) == EncodeSnap(x, features)
  {
    SnapRoundTrip(prior, x, features);
    var y := SnapReadBack(prior, x);
    ParentBodyV1OfReadBack(prior.parent, x.parent);
    SnapGatedShape(x);
    SnapGatedShape(y);
    assert SnapGated(y) == SnapGated(x);
    assert SnapBody(y) == SnapBody(x);
  }

  /** The unused u64 that keeps the old layout is eight zero bytes. */
  lemma PlaceholderIsZero()
    ensures EncodeU64(0) == [0, 0, 0, 0, 0, 0, 0, 0]
  {
  }

  /**
   * The bytes encode writes: struct_v 8 and compat 1; eight zero bytes after
   * image_size; then the parent in an envelope of version 1 and compat 1,
   * whatever features the caller passed.
   */
  lemma SnapLayout(x: Snap, features: Features)
    ensures EncodeSnap(x, features)[0] == 8 && EncodeSnap(x, features)[1] == 1
    ensures At(EncodeSnap(x, features), 26 + |x.name|, [0, 0, 0, 0, 0, 0, 0, 0])
    ensures At(EncodeSnap(x, features), 34 + |x.name|, Envelope(1, 1, ParentBody(x.parent, 1)))
  {
    hide *;
    var e := EncodeSnap(x, features);
    var body := SnapBody(x) + [];
    EncodeSnapShape(x, features);
    EnvelopeShape(8, 1, body);
    SnapBodyShape(x, []);
    var fixed := SnapFixed(x);
    var gated := SnapGated(x);
    AtSplit(e, 6, fixed, gated + []);
    SnapFixedShape(x);
    AtSplit(e, 6, EncodeU64(x.id), EncodeStr(x.name) + (EncodeU64(x.imageSize) + EncodeU64(0)));
    AtSplit(e, 14, EncodeStr(x.name), EncodeU64(x.imageSize) + EncodeU64(0));
    AtSplit(e, 18 + |x.name|, EncodeU64(x.imageSize), EncodeU64(0));
    PlaceholderIsZero();
    AtSplit(e, 6 + |fixed|, gated, []);
    SnapGatedShape(x);
    var rest := EncodeU8(x.protectionStatus) + (EncodeU64(x.flags) + (EncodeSnapshotNamespace(x.snapshotNamespace)
                + (EncodeUTime(x.timestamp) + (EncodeU32(x.childCount) + EncodeOptU64(x.parentOverlap)))));
    AtSplit(e, 34 + |x.name|, Envelope(1, 1, ParentBody(x.parent, 1)), rest);
  }

  /**
   * migrate_parent_format asks for a migration exactly when the Nautilus
   * bit is set and there is a parent; encode never consults it: the bytes
   * are the same with and without the bit.
   */
  lemma MigrateParentFormatNotConsulted(x: Snap, on: Features, off: Features)
    requires HasNautilus(on) && !HasNautilus(off)
    ensures MigrateParentFormat(x, on) <==> HasParent(x)
    ensures !MigrateParentFormat(x, off)
    ensures EncodeSnap(x, on) == EncodeSnap(x, off)
  {
  }

  /**
   * The only version check: an envelope whose compat byte is above 7 is
   * rejected whatever it holds, while one of any struct_v from 8 on (255
   * included) with compat at most 7 is read in full.
   */
  lemma SnapCompatGate(prior: Snap, x: Snap, v: byte, compat: byte)
    requires SnapFits(x)
    ensures compat > 7 ==> DecodeSnap(prior, Envelope(v, compat, SnapBody(x)), 0) == Err(OldVersion(7, compat))
    ensures v >= 8 && compat <= 7
        ==> DecodeSnap(prior, Envelope(v, compat, SnapBody(x)), 0)
            == Ok(Decoded(SnapReadBack(prior, x), 6 + |SnapBody(x)|))
  {
    hide *;
    var e := Envelope(v, compat, SnapBody(x));
    EnvelopeShape(v, compat, SnapBody(x));
    DecodeSnapByHeader(prior, e, 0);
    if v >= 8 && compat <= 7 {
      SnapFitsBody(x);
      assert SnapBody(x) + [] == SnapBody(x);
      AtWhole(e);
      SnapDecodeAt(prior, x, v, compat, [], e, 0);
    }
  }

  /**
   * No strict prefix of an encoded snapshot decodes, and the error is the
   * one a truncation gives: a short read or a length past the end.
   */
  lemma SnapTruncationRejected(prior: Snap, x: Snap, features: Features, k: nat)
    requires SnapFits(x)
    requires k < |EncodeSnap(x, features)|
    ensures DecodeSnap(prior, EncodeSnap(x, features)[..k], 0).Err?
    ensures DecodeSnap(prior, EncodeSnap(x, features)[..k], 0).error in {EndOfBuffer, LengthPastEnd}
  {
    TruncatedEnvelopeRejected(7, 8, 1, SnapBody(x), k);
  }

  // -------------------------------------------------------------------- dump

  /** What dump() produced: the entries, or nothing because it aborted. */
  datatype DumpOutcome = Dumped(entries: seq<DumpEntry>) | Aborted

  /** The text dump() writes for a protection status; None where it aborts. */
  function ProtectionStatusName(status: byte): (r: Option<Str>)
    ensures r.Some? <==> status in {RBD_PROTECTION_STATUS_UNPROTECTED, RBD_PROTECTION_STATUS_UNPROTECTING,
                                    RBD_PROTECTION_STATUS_PROTECTED}
    ensures status == RBD_PROTECTION_STATUS_UNPROTECTED ==> r == Some(Ascii("unprotected"))
    ensures status == RBD_PROTECTION_STATUS_UNPROTECTING ==> r == Some(Ascii("unprotecting"))
    ensures status == RBD_PROTECTION_STATUS_PROTECTED ==> r == Some(Ascii("protected"))
  {
    if status == RBD_PROTECTION_STATUS_UNPROTECTED then Some(Ascii("unprotected"))
    else if status == RBD_PROTECTION_STATUS_UNPROTECTING then Some(Ascii("unprotecting"))
    else if status == RBD_PROTECTION_STATUS_PROTECTED then Some(Ascii("protected"))
    else None
  }

  /** The entries dump() writes when the protection status has a name, in four runs. */
  function SnapEntries(x: Snap, status: Str): seq<DumpEntry> {
    SnapEntriesHead(x) + SnapEntriesParent(x) + SnapEntriesMiddle(x, status) + SnapEntriesOverlap(x)
  }

  function SnapEntriesHead(x: Snap): (r: seq<DumpEntry>)
    ensures Names(r) == ["id", "name", "image_size"]
    ensures DumpEntry("id", Unsigned(x.id)) in r
    ensures DumpEntry("name", Text(x.name)) in r
    ensures DumpEntry("image_size", Unsigned(x.imageSize)) in r
    ensures forall e | e in r :: e.name in {"id", "name", "image_size"}
  {
    [DumpEntry("id", Unsigned(x.id)),
     DumpEntry("name", Text(x.name)),
     DumpEntry("image_size", Unsigned(x.imageSize))]
  }

  function SnapEntriesParent(x: Snap): (r: seq<DumpEntry>)
    ensures Names(r) == if HasParent(x) then ["parent"] else []
    ensures DumpEntry("parent", Section(DumpParent(x.parent))) in r <==> HasParent(x)
    ensures forall e | e in r :: e.name == "parent"
  {
    if HasParent(x) then [DumpEntry("parent", Section(DumpParent(x.parent)))] else []
  }

  function SnapEntriesMiddle(x: Snap, status: Str): (r: seq<DumpEntry>)
    ensures Names(r) == ["protection_status", "child_count"]
    ensures DumpEntry("protection_status", Text(status)) in r
    ensures DumpEntry("child_count", Unsigned(x.childCount)) in r
    ensures forall e | e in r :: e.name in {"protection_status", "child_count"}
  {
    [DumpEntry("protection_status", Text(status)),
     DumpEntry("child_count", Unsigned(x.childCount))]
  }

  function SnapEntriesOverlap(x: Snap): (r: seq<DumpEntry>)
    ensures Names(r) == if x.parentOverlap.Some? then ["parent_overlap"] else []
    ensures forall overlap: u64 :: DumpEntry("parent_overlap", Unsigned(overlap)) in r
                                   <==> x.parentOverlap == Some(overlap)
    ensures forall e | e in r :: e.name == "parent_overlap"
  {
    match x.parentOverlap
    case Some(overlap) => [DumpEntry("parent_overlap", Unsigned(overlap))]
    case None => []
  }

  /**
   * dump(): aborts on an unknown protection status, and otherwise writes
   * the entries DumpSnapEntries describes.
   */
  function DumpSnap(x: Snap): (r: DumpOutcome)
    ensures r.Aborted? <==> ProtectionStatusName(x.protectionStatus).None?
  {
    match ProtectionStatusName(x.protectionStatus)
    case None => Aborted
    case Some(status) => Dumped(SnapEntries(x, status))
  }

  /** Unfolding of DumpSnap for the proofs below that begin with `hide *`. */
  lemma DumpSnapShape(x: Snap)
    requires x.protectionStatus <= RBD_PROTECTION_STATUS_PROTECTED
    ensures DumpSnap(x).entries
            == SnapEntriesHead(x) + SnapEntriesParent(x)
               + SnapEntriesMiddle(x, ProtectionStatusName(x.protectionStatus).value) + SnapEntriesOverlap(x)
  {
  }

  /**
   * What dump() writes: id, name and image_size; the parent as a nested
   * section only when there is one; the protection status by name;
   * child_count; and parent_overlap only when present. flags, timestamp and
   * the snapshot namespace are never dumped.
   */
  lemma DumpSnapEntries(x: Snap)
    requires x.protectionStatus <= RBD_PROTECTION_STATUS_PROTECTED
    ensures var r := DumpSnap(x).entries;
            Names(r) == ["id", "name", "image_size"]
                        + (if HasParent(x) then ["parent"] else [])
                        + ["protection_status", "child_count"]
                        + (if x.parentOverlap.Some? then ["parent_overlap"] else [])
    ensures var r := DumpSnap(x).entries;
            && DumpEntry("id", Unsigned(x.id)) in r
            && DumpEntry("name", Text(x.name)) in r
            && DumpEntry("image_size", Unsigned(x.imageSize)) in r
            && DumpEntry("protection_status", Text(ProtectionStatusName(x.protectionStatus).value)) in r
            && DumpEntry("child_count", Unsigned(x.childCount)) in r
  {
    var head := SnapEntriesHead(x);
    var parent := SnapEntriesParent(x);
    var middle := SnapEntriesMiddle(x, ProtectionStatusName(x.protectionStatus).value);
    var overlap := SnapEntriesOverlap(x);
    hide *;
    DumpSnapShape(x);
    NamesAppend(head + parent + middle, overlap);
    NamesAppend(head + parent, middle);
    NamesAppend(head, parent);
  }

  /**
   * The two optional entries of dump(): the parent section appears exactly
   * when there is a parent, and parent_overlap exactly when it is set, with
   * its value.
   */
  lemma DumpSnapOptionalEntries(x: Snap)
    requires x.protectionStatus <= RBD_PROTECTION_STATUS_PROTECTED
    ensures var r := DumpSnap(x).entries;
            DumpEntry("parent", Section(DumpParent(x.parent))) in r <==> HasParent(x)
    ensures var r := DumpSnap(x).entries;
            forall overlap: u64 :: DumpEntry("parent_overlap", Unsigned(overlap)) in r
                                   <==> x.parentOverlap == Some(overlap)
  {
    hide *;
    DumpSnapShape(x);
  }

  // ---------------------------------------------------------- test instances

  /** generate_test_instances(): the snapshots, in the order they are pushed. */
  function SnapTestInstances(): (r: seq<Snap>)
    ensures |r| == 3
    ensures forall i | 0 <= i < |r| :: HasParent(r[i]) <==> i == 2
  {
    [DefaultSnap(),
     DefaultSnap().(id := 1, name := Ascii("snap"), imageSize := 123456, flags := 31, childCount := 543),
     DefaultSnap().(id := 2, name := Ascii("snap2"), imageSize := 12345678,
                  parent := Parent(1, [], Ascii("parent"), 456, Some(12345)),
                  protectionStatus := RBD_PROTECTION_STATUS_PROTECTED, flags := 14, timestamp := UTime(0, 0))]
  }

  /**
   * Every instance, encoded with any features and decoded into a default
   * snapshot, comes back with every field equal and a parent that compares
   * equal to the original's.
   */
  lemma SnapTestInstancesRoundTrip(i: nat, features: Features)
    requires i < |SnapTestInstances()|
    ensures DecodeSnap(DefaultSnap(), EncodeSnap(SnapTestInstances()[i], features), 0).Ok?
    ensures var x := SnapTestInstances()[i];
            var y := DecodeSnap(DefaultSnap(), EncodeSnap(x, features), 0).value.val;
            Equal(y.parent, x.parent) && y.(parent := x.parent) == x
  {
    var x := SnapTestInstances()[i];
    assert SnapFits(x) by {
      SnapFitsInstance(x);
    }
    SnapRoundTrip(DefaultSnap(), x, features);
  }

  /** The instances are small enough that their lengths do not wrap. */
  lemma SnapFitsInstance(x: Snap)
    requires x in SnapTestInstances()
    ensures SnapFits(x)
  {
  }

  /** Every instance dumps; only the last has a parent section. */
  lemma SnapTestInstancesDump(i: nat)
    requires i < |SnapTestInstances()|
    ensures DumpSnap(SnapTestInstances()[i]).Dumped?
    ensures DumpEntry("parent", Section(DumpParent(SnapTestInstances()[i].parent)))
              in DumpSnap(SnapTestInstances()[i]).entries
            <==> i == 2
  {
    var x := SnapTestInstances()[i];
    DumpSnapOptionalEntries(x);
    if i == 2 {
      assert Exists(x.parent);
    }
  }
}
