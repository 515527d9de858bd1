/**
 * cls_rbd_parent: the reference from a cloned image to the image and snapshot
 * it was cloned from, and its feature-dependent versioned encoding.
 */
module RbdParent {
  import opened Wire
  import opened DumpTree

  /** CEPH_NOSNAP, (uint64_t)-2; its header is not part of this model. */
  const CEPH_NOSNAP: u64 := 0xFFFF_FFFF_FFFF_FFFE

  /** CEPH_FEATURE_SERVER_NAUTILUS, feature bit 21; its header is not part of this model. */
  const CEPH_FEATURE_SERVER_NAUTILUS: bv64 := 1 << 21

  /** The peer feature bits a caller passes to encode. */
  type Features = bv64

  predicate HasNautilus(features: Features) {
    features & CEPH_FEATURE_SERVER_NAUTILUS != 0
  }

  datatype Parent = Parent(
    poolId: i64,
    poolNamespace: Str,
    imageId: Str,
    snapId: u64,
    headOverlap: Option<u64>)

  /** A default-constructed cls_rbd_parent: it stands for "no parent". */
  function DefaultParent(): (r: Parent)
    ensures !Exists(r)
  {
    Parent(-1, [], [], CEPH_NOSNAP, None)
  }

  /**
   * exists(): the one test for "this image has a parent".
   * ExistsNeedsEveryCondition shows that each of its three conditions is
   * needed.
   */
  predicate Exists(p: Parent): (r: bool)
    ensures r ==> p.poolId >= 0 && |p.imageId| > 0 && p.snapId != CEPH_NOSNAP
  {
    p.poolId >= 0 && p.imageId != [] && p.snapId != CEPH_NOSNAP
  }

  /** operator==: every field but head_overlap. */
  predicate Equal(a: Parent, b: Parent): (r: bool)
    ensures r <==> a.(headOverlap := None) == b.(headOverlap := None)
  {
    a.poolId == b.poolId && a.poolNamespace == b.poolNamespace
    && a.imageId == b.imageId && a.snapId == b.snapId
  }

  /** operator!=: the records differ somewhere other than head_overlap. */
  predicate NotEqual(a: Parent, b: Parent): (r: bool)
    ensures r <==> a.(headOverlap := None) != b.(headOverlap := None)
  {
    !Equal(a, b)
  }

  /** Breaking any one of the three conditions makes a parent stop existing. */
  lemma ExistsNeedsEveryCondition(p: Parent, negativePool: i64)
    requires negativePool < 0
    ensures Exists(p) <==> p.poolId >= 0 && |p.imageId| > 0 && p.snapId != CEPH_NOSNAP
    ensures !Exists(p.(poolId := negativePool))
    ensures !Exists(p.(imageId := []))
    ensures !Exists(p.(snapId := CEPH_NOSNAP))
  {
  }

  /** Equality is exactly equality once head_overlap is forgotten. */
  lemma EqualIgnoresOnlyHeadOverlap(a: Parent, b: Parent)
    ensures Equal(a, b) <==> a.(headOverlap := None) == b.(headOverlap := None)
    ensures NotEqual(a, b) <==> !Equal(a, b)
    ensures Equal(a, a.(headOverlap := b.headOverlap))
  {
  }

  // ---------------------------------------------------------------- encoding

  /** Version 2 when the peer is Nautilus or later, else version 1. */
  function EncodeVersion(features: Features): (v: byte)
    ensures v == 1 || v == 2
    ensures v == 2 <==> HasNautilus(features)
  {
    if HasNautilus(features) then 2 else 1
  }

  /**
   * The body at `version`: the namespace only from version 2 on; head_overlap
   * as a plain u64 (absent written as 0) at version 1, as an optional otherwise.
   */
  function ParentBody(p: Parent, version: byte): (r: Bytes)
    ensures |r| == 8 + (if version >= 2 then 4 + |p.poolNamespace| else 0) + 4 + |p.imageId| + 8
                     + (if version == 1 then 8 else |EncodeOptU64(p.headOverlap)|)
  {
    EncodeI64(p.poolId)
    + (if version >= 2 then EncodeStr(p.poolNamespace) else [])
    + EncodeStr(p.imageId)
    + EncodeU64(p.snapId)
    + (if version == 1 then EncodeU64(p.headOverlap.GetOr(0)) else EncodeOptU64(p.headOverlap))
  }

  /** encode(bl, features): ENCODE_START(version, version) around the body. */
  function EncodeParent(p: Parent, features: Features): (r: Bytes)
    ensures |r| == 6 + |ParentBody(p, EncodeVersion(features))|
    ensures r[0] == r[1] == EncodeVersion(features)
  {
    var version := EncodeVersion(features);
    Envelope(version, version, ParentBody(p, version))
  }

  /** Unfolding of EncodeParent for proofs that begin with `hide *`. */
  lemma EncodeParentShape(p: Parent, features: Features)
    ensures EncodeParent(p, features)
         == Envelope(EncodeVersion(features), EncodeVersion(features), ParentBody(p, EncodeVersion(features)))
  {
  }

  /** The strings are short enough for every length field to hold its length. */
  predicate ParentFits(p: Parent) {
    |p.poolNamespace| + |p.imageId| + 33 < TWO32
  }

  lemma ParentFitsBodies(p: Parent)
    requires ParentFits(p)
    ensures |ParentBody(p, 1)| < TWO32 && |ParentBody(p, 2)| < TWO32
    ensures |p.poolNamespace| < TWO32 && |p.imageId| < TWO32
  {
  }

  /**
   * The envelope's version and compat bytes are both 2 with the Nautilus
   * bit and both 1 without it; so the two settings give different bytes for
   * every parent.
   */
  lemma EncodingForksOnNautilus(p: Parent, on: Features, off: Features)
    requires HasNautilus(on) && !HasNautilus(off)
    ensures EncodeParent(p, on)[0] == EncodeParent(p, on)[1] == 2
    ensures EncodeParent(p, off)[0] == EncodeParent(p, off)[1] == 1
    ensures EncodeParent(p, on) != EncodeParent(p, off)
  {
  }

  // ---------------------------------------------------------------- decoding

  /** The namespace when the version carries it, else the value already held. */
  function DecodeNamespaceIf(carried: bool, held: Str, s: Bytes, pos: nat): (r: Result<Decoded<Str>>)
    ensures !carried ==> r == Ok(Decoded(held, pos))
    ensures carried ==> r == DecodeStr(s, pos)
    ensures r.Ok? ==> pos <= r.value.next <= |s| || !carried
  {
    if carried then DecodeStr(s, pos) else Ok(Decoded(held, pos))
  }

  /** head_overlap: a plain u64 made present at version 1, an optional otherwise. */
  function DecodeHeadOverlap(structV: byte, s: Bytes, pos: nat): (r: Result<Decoded<Option<u64>>>)
    ensures r.Ok? ==> pos < r.value.next <= |s|
    ensures r.Ok? && structV == 1 ==> r.value.val.Some? && r.value.next == pos + 8
    ensures structV != 1 ==> r == DecodeOptU64(s, pos)
    ensures structV == 1 && DecodeU64(s, pos).Ok? ==> r == Ok(Decoded(Some(DecodeU64(s, pos).value.val), pos + 8))
  {
    if structV == 1 then
      var overlap :- DecodeU64(s, pos);
      Ok(Decoded(Some(overlap.val), overlap.next))
    else
      DecodeOptU64(s, pos)
  }

  /**
   * The statements between DECODE_START and DECODE_FINISH: they overwrite the
   * fields of `prior` that version `structV` carries; below version 2 the
   * namespace keeps its prior value, and at version 1 the plain overlap
   * becomes a present optional.
   */
  function DecodeParentFields(prior: Parent, structV: byte, s: Bytes, pos: nat): (r: Result<Decoded<Parent>>)
    ensures r.Ok? ==> pos < r.value.next <= |s|
    ensures r.Ok? && structV < 2 ==> r.value.val.poolNamespace == prior.poolNamespace
    ensures r.Ok? && structV == 1 ==> r.value.val.headOverlap.Some?
  {
    var poolId :- DecodeI64(s, pos);
    var ns :- DecodeNamespaceIf(structV >= 2, prior.poolNamespace, s, poolId.next);
    var imageId :- DecodeStr(s, ns.next);
    var snapId :- DecodeU64(s, imageId.next);
    var overlap :- DecodeHeadOverlap(structV, s, snapId.next);
    Ok(Decoded(prior.(poolId := poolId.val, poolNamespace := ns.val, imageId := imageId.val,
                      snapId := snapId.val, headOverlap := overlap.val), overlap.next))
  }

  /** decode(): DECODE_START(2), the fields, DECODE_FINISH. */
  function DecodeParent(prior: Parent, s: Bytes, pos: nat): (r: Result<Decoded<Parent>>)
    ensures r.Ok? ==> pos + 6 <= r.value.next <= |s|
  {
    var h :- DecodeStart(2, s, pos);
    var fields :- DecodeParentFields(prior, h.structV, s, h.bodyStart);
    var end :- DecodeFinish(h, fields.next);
    Ok(Decoded(fields.val, end))
  }

  /**
   * What a version-1 encoding of `p` reads back into `prior`: the namespace
   * stays the prior one and the overlap becomes present, 0 when it was absent.
   */
  function ReadBackV1(prior: Parent, p: Parent): (r: Parent)
    ensures Equal(r, p) <==> prior.poolNamespace == p.poolNamespace
    ensures r.headOverlap.Some? && (p.headOverlap.Some? ==> r.headOverlap == p.headOverlap)
    ensures p.headOverlap.None? ==> r.headOverlap == Some(0)
    ensures Exists(r) <==> Exists(p)
  {
    p.(poolNamespace := prior.poolNamespace, headOverlap := Some(p.headOverlap.GetOr(0)))
  }

  /** Unfolding of ReadBackV1 for proofs that begin with `hide *`. */
  lemma ReadBackV1Fields(prior: Parent, p: Parent)
    ensures ReadBackV1(prior, p) == Parent(p.poolId, prior.poolNamespace, p.imageId, p.snapId, Some(p.headOverlap.GetOr(0)))
  {
  }

  /** DecodeParentFields in terms of what each of its five reads returns. */
  lemma ParentFieldsFromReads(prior: Parent, structV: byte, s: Bytes, pos: nat, poolId: Decoded<i64>,
                              ns: Decoded<Str>, imageId: Decoded<Str>, snapId: Decoded<u64>,
                              overlap: Decoded<Option<u64>>)
    requires DecodeI64(s, pos) == Ok(poolId)
    requires DecodeNamespaceIf(structV >= 2, prior.poolNamespace, s, poolId.next) == Ok(ns)
    requires DecodeStr(s, ns.next) == Ok(imageId)
    requires DecodeU64(s, imageId.next) == Ok(snapId)
    requires DecodeHeadOverlap(structV, s, snapId.next) == Ok(overlap)
    ensures DecodeParentFields(prior, structV, s, pos)
         == Ok(Decoded(Parent(poolId.val, ns.val, imageId.val, snapId.val, overlap.val), overlap.next))
  {
  }

  // Unfoldings of ParentBody, grouped to the right, for proofs that begin
  // with `hide *`.

  lemma ParentBodyV2Shape(p: Parent)
    ensures ParentBody(p, 2) == EncodeI64(p.poolId) + (EncodeStr(p.poolNamespace) + (EncodeStr(p.imageId)
                                + (EncodeU64(p.snapId) + EncodeOptU64(p.headOverlap))))
  {
  }

  lemma ParentBodyV1Shape(p: Parent)
    ensures ParentBody(p, 1) == EncodeI64(p.poolId) + (EncodeStr(p.imageId)
                                + (EncodeU64(p.snapId) + EncodeU64(p.headOverlap.GetOr(0))))
  {
  }

  /**
   * What the header alone decides: a compat byte above 2 is rejected; a
   * decoded parent ends exactly where the envelope's length says; below
   * version 2 the namespace is the prior one, and at version 1 the overlap
   * is present.
   */
  lemma DecodeParentByHeader(prior: Parent, s: Bytes, pos: nat)
    ensures pos + 2 <= |s| && s[pos + 1] > 2 ==> DecodeParent(prior, s, pos) == Err(OldVersion(2, s[pos + 1]))
    ensures DecodeParent(prior, s, pos).Ok? ==>
              pos + 6 <= |s| && s[pos + 1] <= 2
              && DecodeParent(prior, s, pos).value.next == pos + 6 + ValueLE(s[pos + 2..pos + 6])
              && (s[pos] < 2 ==> DecodeParent(prior, s, pos).value.val.poolNamespace == prior.poolNamespace)
              && (s[pos] == 1 ==> DecodeParent(prior, s, pos).value.val.headOverlap.Some?)
  {
    DecodeStartSpec(2, s, pos);
  }

  /** DecodeParent in terms of what DECODE_START and the field reads return. */
  lemma DecodeParentFromParts(prior: Parent, s: Bytes, pos: nat, h: Header, fields: Decoded<Parent>)
    requires DecodeStart(2, s, pos) == Ok(h)
    requires DecodeParentFields(prior, h.structV, s, h.bodyStart) == Ok(fields)
    requires fields.next <= h.structEnd
    ensures DecodeParent(prior, s, pos) == Ok(Decoded(fields.val, h.structEnd))
  {
  }

  /** The version-2 fields read back exactly the parent written. */
  lemma ParentFieldsV2(prior: Parent, p: Parent, structV: byte, s: Bytes, pos: nat)
    requires structV >= 2 && |p.poolNamespace| < TWO32 && |p.imageId| < TWO32
    requires At(s, pos, ParentBody(p, 2))
    ensures DecodeParentFields(prior, structV, s, pos) == Ok(Decoded(p, pos + |ParentBody(p, 2)|))
  {
    hide *;
    var a := EncodeI64(p.poolId);
    var b := EncodeStr(p.poolNamespace);
    var c := EncodeStr(p.imageId);
    var d := EncodeU64(p.snapId);
    var e := EncodeOptU64(p.headOverlap);
    ParentBodyV2Shape(p);
    var p1 := pos + 8;
    var p2 := p1 + 4 + |p.poolNamespace|;
    var p3 := p2 + 4 + |p.imageId|;
    var p4 := p3 + 8;
    AtSplit(s, pos, a, b + (c + (d + e)));
    AtSplit(s, p1, b, c + (d + e));
    AtSplit(s, p2, c, d + e);
    AtSplit(s, p3, d, e);
    DecodeI64At(s, pos, p.poolId);
    DecodeStrAt(s, p1, p.poolNamespace);
    DecodeStrAt(s, p2, p.imageId);
    DecodeU64At(s, p3, p.snapId);
    DecodeOptU64At(s, p4, p.headOverlap);
    ParentFieldsFromReads(prior, structV, s, pos, Decoded(p.poolId, p1), Decoded(p.poolNamespace, p2),
                          Decoded(p.imageId, p3), Decoded(p.snapId, p4),
                          Decoded(p.headOverlap, p4 + |e|));
  }

  /** The version-1 fields keep the prior namespace and make the overlap present. */
  lemma ParentFieldsV1(prior: Parent, p: Parent, s: Bytes, pos: nat)
    requires |p.imageId| < TWO32
    requires At(s, pos, ParentBody(p, 1))
    ensures DecodeParentFields(prior, 1, s, pos)
         == Ok(Decoded(ReadBackV1(prior, p),
                       pos + |ParentBody(p, 1)|))
  {
    hide *;
    ReadBackV1Fields(prior, p);
    var a := EncodeI64(p.poolId);
    var c := EncodeStr(p.imageId);
    var d := EncodeU64(p.snapId);
    var e := EncodeU64(p.headOverlap.GetOr(0));
    ParentBodyV1Shape(p);
    var p1 := pos + 8;
    var p3 := p1 + 4 + |p.imageId|;
    var p4 := p3 + 8;
    AtSplit(s, pos, a, c + (d + e));
    AtSplit(s, p1, c, d + e);
    AtSplit(s, p3, d, e);
    DecodeI64At(s, pos, p.poolId);
    DecodeStrAt(s, p1, p.imageId);
    DecodeU64At(s, p3, p.snapId);
    DecodeU64At(s, p4, p.headOverlap.GetOr(0));
    ParentFieldsFromReads(prior, 1, s, pos, Decoded(p.poolId, p1), Decoded(prior.poolNamespace, p1),
                          Decoded(p.imageId, p3), Decoded(p.snapId, p4),
                          Decoded(Some(p.headOverlap.GetOr(0)), p4 + 8));
  }

  /**
   * A version-2 body, possibly sent by a newer writer (any struct_v >= 2,
   * compat <= 2) and followed by fields this decoder does not know, decodes
   * to exactly the parent written, and decoding ends at the end of the
   * envelope.
   */
  lemma ParentDecodeV2(prior: Parent, p: Parent, v: byte, compat: byte, extra: Bytes, s: Bytes, pos: nat)
    requires v >= 2 && compat <= 2
    requires |ParentBody(p, 2) + extra| < TWO32
    requires At(s, pos, Envelope(v, compat, ParentBody(p, 2) + extra))
    ensures DecodeParent(prior, s, pos) == Ok(Decoded(p, pos + 6 + |ParentBody(p, 2)| + |extra|))
  {
    hide *;
    var body := ParentBody(p, 2);
    DecodeStartAt(2, s, pos, v, compat, body + extra);
    AtSplit(s, pos + 6, body, extra);
    ParentFieldsV2(prior, p, v, s, pos + 6);
    DecodeParentFromParts(prior, s, pos, Header(v, compat, pos + 6, pos + 6 + |body + extra|),
                          Decoded(p, pos + 6 + |body|));
  }

  /**
   * A version-1 body (struct_v 1, any compat <= 2, possibly followed by
   * unknown fields) leaves the prior namespace in place and turns the plain
   * overlap into a present optional.
   */
  lemma ParentDecodeV1(prior: Parent, p: Parent, compat: byte, extra: Bytes, s: Bytes, pos: nat)
    requires compat <= 2
    requires |ParentBody(p, 1) + extra| < TWO32
    requires At(s, pos, Envelope(1, compat, ParentBody(p, 1) + extra))
    ensures DecodeParent(prior, s, pos)
         == Ok(Decoded(ReadBackV1(prior, p),
                       pos + 6 + |ParentBody(p, 1)| + |extra|))
  {
    hide *;
    var body := ParentBody(p, 1);
    DecodeStartAt(2, s, pos, 1, compat, body + extra);
    AtSplit(s, pos + 6, body, extra);
    ParentFieldsV1(prior, p, s, pos + 6);
    var q := ReadBackV1(prior, p);
    DecodeParentFromParts(prior, s, pos, Header(1, compat, pos + 6, pos + 6 + |body + extra|),
                          Decoded(q, pos + 6 + |body|));
  }

  /** With the Nautilus bit every field comes back, an absent overlap included. */
  lemma ParentRoundTripNautilus(prior: Parent, p: Parent, features: Features)
    requires HasNautilus(features) && ParentFits(p)
    ensures DecodeParent(prior, EncodeParent(p, features), 0) == Ok(Decoded(p, |EncodeParent(p, features)|))
  {
    var e := EncodeParent(p, features);
    hide *;
    EncodeParentShape(p, features);
    ParentFitsBodies(p);
    AtWhole(e);
    assert ParentBody(p, 2) + [] == ParentBody(p, 2);
    ParentDecodeV2(prior, p, 2, 2, [], e, 0);
  }

  /**
   * Without the Nautilus bit the pool, image and snapshot come back, the
   * overlap comes back as value_or(0), and the namespace is whatever the
   * target held before; the result equals the original whenever the
   * target's namespace was the original's.
   */
  lemma ParentRoundTripLegacy(prior: Parent, p: Parent, features: Features)
    requires !HasNautilus(features) && ParentFits(p)
    ensures DecodeParent(prior, EncodeParent(p, features), 0)
         == Ok(Decoded(ReadBackV1(prior, p),
                       |EncodeParent(p, features)|))
  {
    var e := EncodeParent(p, features);
    hide *;
    EncodeParentShape(p, features);
    ParentFitsBodies(p);
    AtWhole(e);
    assert ParentBody(p, 1) + [] == ParentBody(p, 1);
    ParentDecodeV1(prior, p, 1, [], e, 0);
  }

  /** Decoding then re-encoding with the same features gives back the same bytes. */
  lemma ParentReencodeStable(prior: Parent, p: Parent, features: Features)
    requires ParentFits(p)
    ensures DecodeParent(prior, EncodeParent(p, features), 0).Ok?
    ensures EncodeParent(DecodeParent(prior, EncodeParent(p, features), 0).value.val, features)
         == EncodeParent(p, features)
  {
    if HasNautilus(features) {
      ParentRoundTripNautilus(prior, p, features);
    } else {
      ParentRoundTripLegacy(prior, p, features);
    }
  }

  /**
   * No strict prefix of an encoded parent decodes, and the error is the one
   * a truncation gives: a short read or a length past the end.
   */
  lemma ParentTruncationRejected(prior: Parent, p: Parent, features: Features, k: nat)
    requires ParentFits(p)
    requires k < |EncodeParent(p, features)|
    ensures DecodeParent(prior, EncodeParent(p, features)[..k], 0).Err?
    ensures DecodeParent(prior, EncodeParent(p, features)[..k], 0).error in {EndOfBuffer, LengthPastEnd}
  {
    var v := EncodeVersion(features);
    TruncatedEnvelopeRejected(2, v, v, ParentBody(p, v), k);
  }

  // -------------------------------------------------------------------- dump

  /** dump(): the four identifying fields always, head_overlap only when present. */
  function DumpParent(p: Parent): (r: seq<DumpEntry>)
    ensures Names(r) == ["pool_id", "pool_namespace", "image_id", "snap_id"]
                        + (if p.headOverlap.Some? then ["head_overlap"] else [])
    ensures DumpEntry("pool_id", Signed(p.poolId)) in r
    ensures DumpEntry("pool_namespace", Text(p.poolNamespace)) in r
    ensures DumpEntry("image_id", Text(p.imageId)) in r
    ensures DumpEntry("snap_id", Unsigned(p.snapId)) in r
    ensures forall overlap: u64 :: DumpEntry("head_overlap", Unsigned(overlap)) in r <==> p.headOverlap == Some(overlap)
  {
    [DumpEntry("pool_id", Signed(p.poolId)),
     DumpEntry("pool_namespace", Text(p.poolNamespace)),
     DumpEntry("image_id", Text(p.imageId)),
     DumpEntry("snap_id", Unsigned(p.snapId))]
    + (match p.headOverlap
       case Some(overlap) => [DumpEntry("head_overlap", Unsigned(overlap))]
       case None => [])
  }

  // ---------------------------------------------------------- test instances

  /** generate_test_instances(): the parents, in the order they are pushed. */
  function ParentTestInstances(): (r: seq<Parent>)
    ensures |r| == 4
    ensures forall i | 0 <= i < |r| :: Exists(r[i]) <==> i != 0
    ensures forall i | 0 <= i < |r| :: r[i].poolNamespace != [] <==> i == 3
  {
    [DefaultParent(),
     Parent(1, [], Ascii("image id"), 234, None),
     Parent(1, [], Ascii("image id"), 234, Some(123)),
     Parent(1, Ascii("ns"), Ascii("image id"), 234, Some(123))]
  }

  /**
   * Every instance, encoded and decoded into a freshly constructed parent,
   * equals the original; the one with a namespace needs the Nautilus bit.
   */
  lemma ParentTestInstancesRoundTrip(i: nat, features: Features)
    requires i < |ParentTestInstances()|
    requires HasNautilus(features) || ParentTestInstances()[i].poolNamespace == []
    ensures DecodeParent(DefaultParent(), EncodeParent(ParentTestInstances()[i], features), 0).Ok?
    ensures Equal(DecodeParent(DefaultParent(), EncodeParent(ParentTestInstances()[i], features), 0).value.val,
                  ParentTestInstances()[i])
  {
    var p := ParentTestInstances()[i];
    if HasNautilus(features) {
      ParentRoundTripNautilus(DefaultParent(), p, features);
    } else {
      ParentRoundTripLegacy(DefaultParent(), p, features);
    }
  }

  /** Without the Nautilus bit the "ns" instance comes back with an empty namespace. */
  lemma NamespaceInstanceNeedsNautilus(features: Features)
    requires !HasNautilus(features)
    ensures DecodeParent(DefaultParent(), EncodeParent(ParentTestInstances()[3], features), 0).Ok?
    ensures NotEqual(DecodeParent(DefaultParent(), EncodeParent(ParentTestInstances()[3], features), 0).value.val,
                     ParentTestInstances()[3])
  {
    ParentRoundTripLegacy(DefaultParent(), ParentTestInstances()[3], features);
  }

  /**
   * An absent overlap written without the Nautilus bit comes back as 0, and
   * stays 0 when that copy is written again with the bit.
   */
  lemma AbsentOverlapBecomesZero(off: Features, on: Features)
    requires !HasNautilus(off) && HasNautilus(on)
    ensures var p := ParentTestInstances()[1];
            var once := DecodeParent(DefaultParent(), EncodeParent(p, off), 0);
            once.Ok? && Equal(once.value.val, p) && once.value.val.headOverlap == Some(0)
            && DecodeParent(DefaultParent(), EncodeParent(once.value.val, on), 0).Ok?
            && DecodeParent(DefaultParent(), EncodeParent(once.value.val, on), 0).value.val
               == p.(headOverlap := Some(0))
  {
    var p := ParentTestInstances()[1];
    ParentRoundTripLegacy(DefaultParent(), p, off);
    ParentRoundTripNautilus(DefaultParent(), p.(headOverlap := Some(0)), on);
  }
}
