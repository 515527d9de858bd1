/**
 * The byte-level vocabulary shared by both records: little-endian fixed-width
 * integers, u32-length-prefixed strings, optionals as a presence byte plus the
 * value, and Ceph's versioned envelope
 *   u8 struct_v, u8 struct_compat, u32 struct_len, body.
 *
 * Decoders read from a whole buffer `s` starting at a position and return
 * either the value with the position after it, or the error the C++ decoder
 * would throw.
 */
module Wire {

  type byte = x: int | 0 <= x < 0x100
  type u32 = x: int | 0 <= x < 0x1_0000_0000
  type u64 = x: int | 0 <= x < 0x1_0000_0000_0000_0000
  type i64 = x: int | -0x8000_0000_0000_0000 <= x < 0x8000_0000_0000_0000
  type Bytes = seq<byte>

  /** A std::string: a sequence of bytes. */
  type Str = Bytes

  /** The bytes of an ASCII literal (each char taken modulo 256). */
  function Ascii(t: string): (r: Str)
    ensures |r| == |t|
  {
    seq(|t|, i requires 0 <= i < |t| => t[i] as int % 256)
  }

  const TWO32: int := 0x1_0000_0000
  const TWO63: int := 0x8000_0000_0000_0000
  const TWO64: int := 0x1_0000_0000_0000_0000

  datatype Option<T> = None | Some(value: T) {
    /** std::optional::value_or */
    function GetOr(default: T): T {
      match this
      case Some(v) => v
      case None => default
    }
  }

  /** The exceptions a Ceph decoder throws. */
  datatype Error =
    | EndOfBuffer                               // a field runs past the end of the buffer
    | OldVersion(supported: byte, compat: byte) // DECODE_START: struct_compat exceeds what the decoder supports
    | LengthPastEnd                             // DECODE_START: struct_len exceeds the bytes remaining
    | DecodedPastEnd                            // DECODE_FINISH: the body was over-read

  datatype Result<T> = Ok(value: T) | Err(error: Error) {
    predicate IsFailure() { Err? }
    function PropagateFailure<U>(): Result<U> requires Err? { Err(error) }
    function Extract(): T requires Ok? { value }
  }

  /** A decoded value and the position just after it. */
  datatype Decoded<T> = Decoded(val: T, next: nat)

  /** `b` occurs in `s` at position `pos`. */
  predicate At(s: Bytes, pos: nat, b: Bytes) {
    pos + |b| <= |s| && s[pos..pos + |b|] == b
  }

  lemma AtSplit(s: Bytes, pos: nat, a: Bytes, b: Bytes)
    requires At(s, pos, a + b)
    ensures At(s, pos, a) && At(s, pos + |a|, b)
  {
    assert s[pos..pos + |a|] == (a + b)[..|a|];
    assert s[pos + |a|..pos + |a| + |b|] == (a + b)[|a|..];
  }

  lemma AtWhole(s: Bytes)
    ensures At(s, 0, s)
  {
  }

  // ---------------------------------------------------------------- integers

  function Pow256(n: nat): (r: nat)
    ensures r > 0
  {
    if n == 0 then 1 else 256 * Pow256(n - 1)
  }

  lemma Pow256Widths()
    ensures Pow256(4) == TWO32 && Pow256(8) == TWO64
  {
  }

  /** The n low-order bytes of x, least significant first. */
  function EncodeLE(x: nat, n: nat): (r: Bytes)
    requires x < Pow256(n)
    ensures |r| == n
  {
    if n == 0 then [] else [x % 256] + EncodeLE(x / 256, n - 1)
  }

  /** The unsigned value of little-endian bytes. */
  function ValueLE(b: Bytes): (v: nat)
    ensures v < Pow256(|b|)
  {
    if b == [] then 0 else b[0] + 256 * ValueLE(b[1..])
  }

  lemma {:induction false} ValueOfEncodeLE(x: nat, n: nat)
    requires x < Pow256(n)
    ensures ValueLE(EncodeLE(x, n)) == x
  {
    if n > 0 {
      ValueOfEncodeLE(x / 256, n - 1);
      assert EncodeLE(x, n)[1..] == EncodeLE(x / 256, n - 1);
    }
  }

  lemma {:induction false} EncodeLEOfValue(b: Bytes)
    ensures EncodeLE(ValueLE(b), |b|) == b
  {
    if b != [] {
      EncodeLEOfValue(b[1..]);
      var v := ValueLE(b);
      assert v % 256 == b[0] && v / 256 == ValueLE(b[1..]);
    }
  }

  function EncodeU8(x: byte): (r: Bytes)
    ensures |r| == 1
  {
    [x]
  }

  function EncodeU32(x: u32): (r: Bytes)
    ensures |r| == 4
  {
    Pow256Widths();
    EncodeLE(x, 4)
  }

  function EncodeU64(x: u64): (r: Bytes)
    ensures |r| == 8
  {
    Pow256Widths();
    EncodeLE(x, 8)
  }

  /** Two's complement: a negative x is written as x + 2^64. */
  function EncodeI64(x: i64): (r: Bytes)
    ensures |r| == 8
  {
    EncodeU64(if x < 0 then x + TWO64 else x)
  }

  function DecodeU8(s: Bytes, pos: nat): (r: Result<Decoded<byte>>)
    ensures r.Ok? <==> pos < |s|
    ensures r.Ok? ==> r.value.next == pos + 1
    ensures r.Err? ==> r.error == EndOfBuffer
  {
    if pos + 1 > |s| then Err(EndOfBuffer) else Ok(Decoded(s[pos], pos + 1))
  }

  function DecodeU32(s: Bytes, pos: nat): (r: Result<Decoded<u32>>)
    ensures r.Ok? <==> pos + 4 <= |s|
    ensures r.Ok? ==> r.value.next == pos + 4
    ensures r.Err? ==> r.error == EndOfBuffer
  {
    if pos + 4 > |s| then Err(EndOfBuffer)
    else
      Pow256Widths();
      Ok(Decoded(ValueLE(s[pos..pos + 4]), pos + 4))
  }

  function DecodeU64(s: Bytes, pos: nat): (r: Result<Decoded<u64>>)
    ensures r.Ok? <==> pos + 8 <= |s|
    ensures r.Ok? ==> r.value.next == pos + 8
    ensures r.Err? ==> r.error == EndOfBuffer
  {
    if pos + 8 > |s| then Err(EndOfBuffer)
    else
      Pow256Widths();
      Ok(Decoded(ValueLE(s[pos..pos + 8]), pos + 8))
  }

  function DecodeI64(s: Bytes, pos: nat): (r: Result<Decoded<i64>>)
    ensures r.Ok? <==> pos + 8 <= |s|
    ensures r.Ok? ==> r.value.next == pos + 8
    ensures r.Err? ==> r.error == EndOfBuffer
  {
    var u :- DecodeU64(s, pos);
    Ok(Decoded(if u.val >= TWO63 then u.val - TWO64 else u.val, u.next))
  }

  lemma DecodeU8At(s: Bytes, pos: nat, x: byte)
    requires At(s, pos, EncodeU8(x))
    ensures DecodeU8(s, pos) == Ok(Decoded(x, pos + 1))
  {
    assert s[pos] == s[pos..pos + 1][0];
  }

  lemma DecodeU32At(s: Bytes, pos: nat, x: u32)
    requires At(s, pos, EncodeU32(x))
    ensures DecodeU32(s, pos) == Ok(Decoded(x, pos + 4))
  {
    Pow256Widths();
    ValueOfEncodeLE(x, 4);
  }

  lemma DecodeU64At(s: Bytes, pos: nat, x: u64)
    requires At(s, pos, EncodeU64(x))
    ensures DecodeU64(s, pos) == Ok(Decoded(x, pos + 8))
  {
    Pow256Widths();
    ValueOfEncodeLE(x, 8);
  }

  lemma DecodeI64At(s: Bytes, pos: nat, x: i64)
    requires At(s, pos, EncodeI64(x))
    ensures DecodeI64(s, pos) == Ok(Decoded(x, pos + 8))
  {
    DecodeU64At(s, pos, if x < 0 then x + TWO64 else x);
  }

  /** What DecodeU32 reads is the encoding of the value it returns. */
  lemma DecodedU32Reencodes(s: Bytes, pos: nat)
    requires DecodeU32(s, pos).Ok?
    ensures At(s, pos, EncodeU32(DecodeU32(s, pos).value.val))
  {
    Pow256Widths();
    EncodeLEOfValue(s[pos..pos + 4]);
  }

  /** What DecodeU64 reads is the encoding of the value it returns. */
  lemma DecodedU64Reencodes(s: Bytes, pos: nat)
    requires DecodeU64(s, pos).Ok?
    ensures At(s, pos, EncodeU64(DecodeU64(s, pos).value.val))
  {
    Pow256Widths();
    EncodeLEOfValue(s[pos..pos + 8]);
  }

  /** What DecodeI64 reads is the two's complement encoding of the value it returns. */
  lemma DecodedI64Reencodes(s: Bytes, pos: nat)
    requires DecodeI64(s, pos).Ok?
    ensures At(s, pos, EncodeI64(DecodeI64(s, pos).value.val))
  {
    DecodedU64Reencodes(s, pos);
  }

  // ----------------------------------------------------------------- strings

  /** encode(std::string): a u32 length and the bytes. */
  function EncodeStr(t: Str): (r: Bytes)
    ensures |r| == 4 + |t|
  {
    EncodeU32(|t| % TWO32) + t
  }

  function DecodeStr(s: Bytes, pos: nat): (r: Result<Decoded<Str>>)
    ensures r.Ok? ==> r.value.next == pos + 4 + |r.value.val| <= |s|
    ensures r.Err? ==> r.error == EndOfBuffer
  {
    var n :- DecodeU32(s, pos);
    if n.val > |s| - n.next then Err(EndOfBuffer)
    else Ok(Decoded(s[n.next..n.next + n.val], n.next + n.val))
  }

  /** What DecodeStr reads is the encoding of the string it returns. */
  lemma DecodedStrReencodes(s: Bytes, pos: nat)
    requires DecodeStr(s, pos).Ok?
    ensures At(s, pos, EncodeStr(DecodeStr(s, pos).value.val))
  {
    DecodedU32Reencodes(s, pos);
    var n := DecodeU32(s, pos).value.val;
    assert s[pos..pos + 4 + n] == s[pos..pos + 4] + s[pos + 4..pos + 4 + n];
  }

  lemma DecodeStrAt(s: Bytes, pos: nat, t: Str)
    requires |t| < TWO32
    requires At(s, pos, EncodeStr(t))
    ensures DecodeStr(s, pos) == Ok(Decoded(t, pos + 4 + |t|))
  {
    AtSplit(s, pos, EncodeU32(|t|), t);
    DecodeU32At(s, pos, |t|);
  }

  // --------------------------------------------------------------- optionals

  /** encode(std::optional<uint64_t>): presence byte 1 and the value, or 0. */
  function EncodeOptU64(o: Option<u64>): (r: Bytes)
    ensures |r| == if o.Some? then 9 else 1
  {
    match o
    case None => EncodeU8(0)
    case Some(x) => EncodeU8(1) + EncodeU64(x)
  }

  /** Any non-zero presence byte means the value follows. */
  function DecodeOptU64(s: Bytes, pos: nat): (r: Result<Decoded<Option<u64>>>)
    ensures r.Ok? ==> pos < r.value.next <= |s|
    ensures r.Err? ==> r.error == EndOfBuffer
  {
    var present :- DecodeU8(s, pos);
    if present.val != 0 then
      var x :- DecodeU64(s, present.next);
      Ok(Decoded(Some(x.val), x.next))
    else
      Ok(Decoded(None, present.next))
  }

  /** A zero presence byte reads as absent; any other as a value that follows. */
  lemma DecodeOptU64Presence(s: Bytes, pos: nat)
    requires DecodeOptU64(s, pos).Ok?
    ensures s[pos] == 0 ==> DecodeOptU64(s, pos).value == Decoded(None, pos + 1)
    ensures s[pos] != 0 ==> DecodeOptU64(s, pos).value.val.Some? && DecodeOptU64(s, pos).value.next == pos + 9
                            && DecodeOptU64(s, pos).value.val.value == ValueLE(s[pos + 1..pos + 9])
  {
  }

  lemma DecodeOptU64At(s: Bytes, pos: nat, o: Option<u64>)
    requires At(s, pos, EncodeOptU64(o))
    ensures DecodeOptU64(s, pos) == Ok(Decoded(o, pos + |EncodeOptU64(o)|))
  {
    match o
    case None =>
      DecodeU8At(s, pos, 0);
    case Some(x) =>
      AtSplit(s, pos, EncodeU8(1), EncodeU64(x));
      DecodeU8At(s, pos, 1);
      DecodeU64At(s, pos + 1, x);
  }

  // ---------------------------------------------------------------- envelope

  /**
   * ENCODE_START(v, compat) ... ENCODE_FINISH around `body`: the length is
   * patched in as a u32, so a body of 2^32 bytes or more wraps.
   */
  function Envelope(v: byte, compat: byte, body: Bytes): (r: Bytes)
    ensures |r| == 6 + |body|
    ensures r[0] == v && r[1] == compat
  {
    EncodeU8(v) + EncodeU8(compat) + EncodeU32(|body| % TWO32) + body
  }

  lemma EnvelopeShape(v: byte, compat: byte, body: Bytes)
    ensures At(Envelope(v, compat, body), 6, body)
    ensures Envelope(v, compat, body)[0] == v && Envelope(v, compat, body)[1] == compat
  {
  }

  /** What DECODE_START leaves in scope: struct_v, struct_compat, where the body starts and ends. */
  datatype Header = Header(structV: byte, structCompat: byte, bodyStart: nat, structEnd: nat)

  /**
   * DECODE_START(supported): reads the two version bytes, rejects a compat
   * byte above `supported` (a struct_v above it is accepted), then reads the
   * length and rejects one that runs past the bytes remaining.
   */
  function DecodeStart(supported: byte, s: Bytes, pos: nat): (r: Result<Header>)
    ensures r.Ok? ==> r.value.bodyStart == pos + 6 <= r.value.structEnd <= |s|
  {
    var v :- DecodeU8(s, pos);
    var compat :- DecodeU8(s, v.next);
    if supported < compat.val then Err(OldVersion(supported, compat.val))
    else
      var len :- DecodeU32(s, compat.next);
      Pow256Widths();
      ValueOfEncodeLE(len.val, 4);
      if len.val > |s| - len.next then Err(LengthPastEnd)
      else Ok(Header(v.val, compat.val, len.next, len.next + len.val))
  }

  /**
   * DECODE_START succeeds exactly when the header is there, its compat byte
   * is at most `supported` and its length fits in the buffer; the struct_v
   * byte is never checked. Otherwise a compat byte above `supported` gives
   * OldVersion, a short header gives EndOfBuffer, and a length running past
   * the buffer gives LengthPastEnd.
   */
  lemma DecodeStartSpec(supported: byte, s: Bytes, pos: nat)
    ensures DecodeStart(supported, s, pos).Ok?
        <==> (pos + 6 <= |s| && s[pos + 1] <= supported && pos + 6 + ValueLE(s[pos + 2..pos + 6]) <= |s|)
    ensures DecodeStart(supported, s, pos).Ok?
        ==> DecodeStart(supported, s, pos).value
            == Header(s[pos], s[pos + 1], pos + 6, pos + 6 + ValueLE(s[pos + 2..pos + 6]))
    ensures pos + 2 <= |s| && s[pos + 1] > supported
        ==> DecodeStart(supported, s, pos) == Err(OldVersion(supported, s[pos + 1]))
    ensures pos + 6 > |s| && (pos + 2 > |s| || s[pos + 1] <= supported)
        ==> DecodeStart(supported, s, pos) == Err(EndOfBuffer)
    ensures pos + 6 <= |s| && s[pos + 1] <= supported && pos + 6 + ValueLE(s[pos + 2..pos + 6]) > |s|
        ==> DecodeStart(supported, s, pos) == Err(LengthPastEnd)
  {
    if pos + 6 <= |s| {
      Pow256Widths();
      ValueOfEncodeLE(ValueLE(s[pos + 2..pos + 6]), 4);
    }
  }

  /** DECODE_FINISH: an over-read body is an error; unread body bytes are skipped. */
  function DecodeFinish(h: Header, pos: nat): (r: Result<nat>)
    ensures r.Ok? <==> pos <= h.structEnd
    ensures r.Ok? ==> r.value == h.structEnd
  {
    if pos > h.structEnd then Err(DecodedPastEnd) else Ok(h.structEnd)
  }

  lemma DecodeStartAt(supported: byte, s: Bytes, pos: nat, v: byte, compat: byte, body: Bytes)
    requires compat <= supported && |body| < TWO32
    requires At(s, pos, Envelope(v, compat, body))
    ensures DecodeStart(supported, s, pos) == Ok(Header(v, compat, pos + 6, pos + 6 + |body|))
    ensures At(s, pos + 6, body)
  {
    AtSplit(s, pos, EncodeU8(v) + EncodeU8(compat) + EncodeU32(|body|), body);
    AtSplit(s, pos, EncodeU8(v) + EncodeU8(compat), EncodeU32(|body|));
    AtSplit(s, pos, EncodeU8(v), EncodeU8(compat));
    DecodeU8At(s, pos, v);
    DecodeU8At(s, pos + 1, compat);
    DecodeU32At(s, pos + 2, |body|);
  }

  /**
   * No decoder of an envelope accepts a strict prefix of it: the length check
   * of DECODE_START catches every truncation, so no partial record is ever
   * returned. When the reader supports the writer's compat, the error is a
   * short read or a length past the end, never a version mismatch.
   */
  lemma {:induction false} TruncatedEnvelopeRejected(supported: byte, v: byte, compat: byte, body: Bytes, k: nat)
    requires |body| < TWO32
    requires k < 6 + |body|
    ensures DecodeStart(supported, Envelope(v, compat, body)[..k], 0).Err?
    ensures compat <= supported ==>
              DecodeStart(supported, Envelope(v, compat, body)[..k], 0).error in {EndOfBuffer, LengthPastEnd}
  {
    var e := Envelope(v, compat, body);
    var t := e[..k];
    if k >= 6 && compat <= supported {
      assert e[2..6] == EncodeU32(|body|);
      assert t[2..6] == e[2..6];
      Pow256Widths();
      ValueOfEncodeLE(|body|, 4);
    }
  }
}
