/**
 The audio frame and its wire image: a postcard tuple of little-endian base-128 varints, enum tags, one raw
 flag byte and a length-prefixed payload that may not exceed `MAX_FRAME_PAYLOAD`.
 */
module Frames {
  import opened Prelude
  import opened Crc32

  const FRAME_VERSION: u16 := 1
  const MAX_FRAME_PAYLOAD: nat := 4096
  const HEADER_MAX_LEN: nat := 64

  datatype Codec = Opus | Flac | Pcm
  datatype SampleRepr = I16 | F32 | I24Packed | I32
  datatype ChannelLayout = Mono | Stereo | Quad | Surround51 | Surround71
  datatype Integrity = NoIntegrity | Crc32Integrity | AeadIntegrity
  datatype FrameIntegrity = NoCheck | CrcCheck(crc: u32) | AeadCheck
  datatype FrameFlags = FrameFlags(burstEnd: bool, frameBoundary: bool, reserved: byte)

  datatype Frame = Frame(
    version: u16,
    streamId: u32,
    seqNo: u64,
    mediaTs: u64,
    codec: Codec,
    sampleRate: u32,
    sampleRepr: SampleRepr,
    channelLayout: ChannelLayout,
    frameSampleCount: u32,
    flags: FrameFlags,
    integrity: Integrity,
    frameIntegrity: FrameIntegrity,
    payload: seq<byte>)

  datatype EncodeError = EncodePayloadOverflow
  datatype DecodeError = Truncated | DataInvalid | PayloadOverflow

  // ---- Varints ----

  /** An integer width as the varint decoder sees it: how many bytes, and what the last one may hold. */
  datatype Width = Width(maxBytes: nat, lastMax: byte)

  const W16 := Width(3, 3)
  const W32 := Width(5, 15)
  const W64 := Width(10, 1)

  /** The first value too large for a width. */
  function Limit(w: Width): nat
    decreases w.maxBytes
  {
    if w.maxBytes <= 1 then w.lastMax + 1 else 128 * Limit(w.(maxBytes := w.maxBytes - 1))
  }

  function EncodeVarint(v: nat): seq<byte> {
    if v < 128 then [v] else [128 + v % 128] + EncodeVarint(v / 128)
  }

  function DecodeVarint(bytes: seq<byte>, w: Width): (r: Result<(nat, seq<byte>), DecodeError>)
    requires w.maxBytes >= 1
    ensures r.Ok? ==> r.value.0 < Limit(w) && |r.value.1| < |bytes|
    decreases w.maxBytes
  {
    if bytes == [] then
      Err(Truncated)
    else if bytes[0] < 128 then
      if w.maxBytes == 1 && bytes[0] > w.lastMax then Err(DataInvalid)
      else
        LimitPositive(w);
        Ok((bytes[0], bytes[1..]))
    else if w.maxBytes == 1 then
      Err(DataInvalid)
    else
      var (high, rest) :- DecodeVarint(bytes[1..], w.(maxBytes := w.maxBytes - 1));
      Ok((bytes[0] - 128 + 128 * high, rest))
  }

  lemma {:induction false} LimitPositive(w: Width)
    ensures Limit(w) >= 1
    ensures w.maxBytes >= 2 ==> Limit(w) >= 128
    decreases w.maxBytes
  {
    if w.maxBytes > 1 { LimitPositive(w.(maxBytes := w.maxBytes - 1)); }
  }

  lemma Limits()
    ensures Limit(W16) == U16_LIMIT && Limit(W32) == U32_LIMIT && Limit(W64) == U64_LIMIT
  {
    assert Limit(Width(1, 3)) == 4 && Limit(Width(2, 3)) == 512;
    assert Limit(Width(1, 15)) == 16 && Limit(Width(2, 15)) == 2048 && Limit(Width(3, 15)) == 0x4_0000;
    assert Limit(Width(4, 15)) == 0x200_0000;
    assert Limit(Width(1, 1)) == 2 && Limit(Width(2, 1)) == 256 && Limit(Width(3, 1)) == 0x8000;
    assert Limit(Width(4, 1)) == 0x40_0000 && Limit(Width(5, 1)) == 0x2000_0000;
    assert Limit(Width(6, 1)) == 0x10_0000_0000 && Limit(Width(7, 1)) == 0x800_0000_0000;
    assert Limit(Width(8, 1)) == 0x4_0000_0000_0000 && Limit(Width(9, 1)) == 0x200_0000_0000_0000;
  }

  /** Decoding undoes encoding for every value that fits the width, and takes no byte more. */
  lemma {:induction false} VarintRoundTrip(v: nat, w: Width, rest: seq<byte>)
    requires w.maxBytes >= 1 && w.lastMax < 128 && v < Limit(w)
    ensures DecodeVarint(EncodeVarint(v) + rest, w) == Ok((v, rest))
    ensures 1 <= |EncodeVarint(v)| <= w.maxBytes
    decreases v
  {
    var bytes := EncodeVarint(v) + rest;
    if v < 128 {
      assert bytes[1..] == rest;
    } else {
      VarintRoundTrip(v / 128, w.(maxBytes := w.maxBytes - 1), rest);
      assert bytes[1..] == EncodeVarint(v / 128) + rest;
    }
  }

  // ---- Enum tags, flags, payload ----

  /** An enum travels as its variant number; an unknown number is refused. */
  function DecodeTag(bytes: seq<byte>, variants: nat): (r: Result<(nat, seq<byte>), DecodeError>)
    ensures r.Ok? ==> r.value.0 < variants
  {
    var (tag, rest) :- DecodeVarint(bytes, W32);
    if tag < variants then Ok((tag, rest)) else Err(DataInvalid)
  }

  lemma TagRoundTrip(tag: nat, variants: nat, rest: seq<byte>)
    requires tag < variants <= 128
    ensures DecodeTag(EncodeVarint(tag) + rest, variants) == Ok((tag, rest))
    ensures |EncodeVarint(tag)| == 1
  {
    Limits();
    VarintRoundTrip(tag, W32, rest);
  }

  function CodecTag(c: Codec): nat {
    match c case Opus => 0 case Flac => 1 case Pcm => 2
  }

  function CodecOf(tag: nat): Codec {
    if tag == 0 then Opus else if tag == 1 then Flac else Pcm
  }

  function ReprTag(r: SampleRepr): nat {
    match r case I16 => 0 case F32 => 1 case I24Packed => 2 case I32 => 3
  }

  function ReprOf(tag: nat): SampleRepr {
    if tag == 0 then I16 else if tag == 1 then F32 else if tag == 2 then I24Packed else I32
  }

  function LayoutTag(l: ChannelLayout): nat {
    match l case Mono => 0 case Stereo => 1 case Quad => 2 case Surround51 => 3 case Surround71 => 4
  }

  function LayoutOf(tag: nat): ChannelLayout {
    if tag == 0 then Mono else if tag == 1 then Stereo else if tag == 2 then Quad
    else if tag == 3 then Surround51 else Surround71
  }

  function IntegrityTag(i: Integrity): nat {
    match i case NoIntegrity => 0 case Crc32Integrity => 1 case AeadIntegrity => 2
  }

  function IntegrityOf(tag: nat): Integrity {
    if tag == 0 then NoIntegrity else if tag == 1 then Crc32Integrity else AeadIntegrity
  }

  /** Bit 0 burst end, bit 1 frame boundary, bits 2..8 reserved: two of the eight reserved bits do not fit. */
  function FlagsToByte(f: FrameFlags): byte {
    (if f.burstEnd then 1 else 0) + (if f.frameBoundary then 2 else 0) + 4 * (f.reserved % 64)
  }

  function FlagsFromByte(v: byte): FrameFlags {
    FrameFlags(v % 2 == 1, v / 2 % 2 == 1, v / 4 % 64)
  }

  function EncodeCheck(c: FrameIntegrity): seq<byte> {
    match c
    case NoCheck => EncodeVarint(0)
    case CrcCheck(crc) => EncodeVarint(1) + EncodeVarint(crc)
    case AeadCheck => EncodeVarint(2)
  }

  function DecodeCheck(bytes: seq<byte>): Result<(FrameIntegrity, seq<byte>), DecodeError> {
    var (tag, rest) :- DecodeTag(bytes, 3);
    if tag == 0 then Ok((NoCheck, rest))
    else if tag == 2 then Ok((AeadCheck, rest))
    else
      var (crc, rest) :- DecodeVarint(rest, W32);
      Limits();
      Ok((CrcCheck(crc), rest))
  }

  lemma CheckRoundTrip(c: FrameIntegrity, rest: seq<byte>)
    ensures DecodeCheck(EncodeCheck(c) + rest) == Ok((c, rest))
    ensures 1 <= |EncodeCheck(c)| <= 6
  {
    Limits();
    match c
    case NoCheck => TagRoundTrip(0, 3, rest);
    case AeadCheck => TagRoundTrip(2, 3, rest);
    case CrcCheck(crc) =>
      TagRoundTrip(1, 3, EncodeVarint(crc) + rest);
      VarintRoundTrip(crc, W32, rest);
      assert EncodeCheck(c) + rest == EncodeVarint(1) + (EncodeVarint(crc) + rest);
  }

  /**
   What reading `declared` payload bytes from `bytes` yields: the cap is applied to the size hint (the smaller of
   the declared length and what is left) before any byte is read, and running dry is a truncation.
   */
  function PayloadOf(declared: nat, bytes: seq<byte>): Result<seq<byte>, DecodeError> {
    if Min(declared, |bytes|) > MAX_FRAME_PAYLOAD then Err(DataInvalid)
    else if declared > |bytes| then Err(Truncated)
    else Ok(bytes[..declared])
  }

  /** The payload visitor's loop, which also guards the cap on every byte. */
  method ReadPayload(declared: nat, bytes: seq<byte>) returns (r: Result<seq<byte>, DecodeError>)
    ensures r == PayloadOf(declared, bytes)
    ensures r.Ok? ==> |r.value| == declared <= MAX_FRAME_PAYLOAD
  {
    if Min(declared, |bytes|) > MAX_FRAME_PAYLOAD {
      return Err(DataInvalid);
    }
    var v := [];
    while |v| < declared
      invariant |v| <= declared && |v| <= |bytes| && v == bytes[..|v|]
    {
      if |v| == |bytes| {
        return Err(Truncated);
      }
      if |v| >= MAX_FRAME_PAYLOAD {
        return Err(DataInvalid);
      }
      v := v + [bytes[|v|]];
    }
    return Ok(v);
  }

  // ---- The whole frame ----

  function EncodeBody(f: Frame): seq<byte> {
    EncodeVarint(|f.payload|) + f.payload
  }

  /** Everything from the sample count on. */
  function EncodeTrailer(f: Frame): seq<byte> {
    EncodeVarint(f.frameSampleCount) + ([FlagsToByte(f.flags)]
    + (EncodeVarint(IntegrityTag(f.integrity)) + (EncodeCheck(f.frameIntegrity) + EncodeBody(f))))
  }

  /** Everything from the codec on. */
  function EncodeFormat(f: Frame): seq<byte> {
    EncodeVarint(CodecTag(f.codec)) + (EncodeVarint(f.sampleRate) + (EncodeVarint(ReprTag(f.sampleRepr))
    + (EncodeVarint(LayoutTag(f.channelLayout)) + EncodeTrailer(f))))
  }

  function Encode(f: Frame): seq<byte> {
    EncodeVarint(f.version) + (EncodeVarint(f.streamId) + (EncodeVarint(f.seqNo)
    + (EncodeVarint(f.mediaTs) + EncodeFormat(f))))
  }

  function Pack(f: Frame): Result<seq<byte>, EncodeError> {
    if |f.payload| > MAX_FRAME_PAYLOAD then Err(EncodePayloadOverflow) else Ok(Encode(f))
  }

  datatype Trailer = Trailer(
    samples: u32, flags: FrameFlags, integrity: Integrity, check: FrameIntegrity, payload: seq<byte>)

  datatype Format = Format(codec: Codec, rate: u32, repr: SampleRepr, layout: ChannelLayout)

  function DecodeBody(bytes: seq<byte>): Result<seq<byte>, DecodeError> {
    var (declared, b) :- DecodeVarint(bytes, W64);
    PayloadOf(declared, b)
  }

  function DecodeTrailer(bytes: seq<byte>): Result<Trailer, DecodeError> {
    Limits();
    var (samples, b) :- DecodeVarint(bytes, W32);
    if b == [] then Err(Truncated) else
    var (tag, c) :- DecodeTag(b[1..], 3);
    var (check, d) :- DecodeCheck(c);
    var payload :- DecodeBody(d);
    Ok(Trailer(samples, FlagsFromByte(b[0]), IntegrityOf(tag), check, payload))
  }

  function DecodeFormat(bytes: seq<byte>): Result<(Format, seq<byte>), DecodeError> {
    Limits();
    var (codec, b) :- DecodeTag(bytes, 3);
    var (rate, b) :- DecodeVarint(b, W32);
    var (repr, b) :- DecodeTag(b, 4);
    var (layout, b) :- DecodeTag(b, 5);
    Ok((Format(CodecOf(codec), rate, ReprOf(repr), LayoutOf(layout)), b))
  }

  /** Decode a frame; bytes after the payload are ignored. */
  function Unpack(bytes: seq<byte>): Result<Frame, DecodeError> {
    Limits();
    if |bytes| > HEADER_MAX_LEN + MAX_FRAME_PAYLOAD then Err(PayloadOverflow) else
    var (version, b) :- DecodeVarint(bytes, W16);
    var (streamId, b) :- DecodeVarint(b, W32);
    var (seqNo, b) :- DecodeVarint(b, W64);
    var (mediaTs, b) :- DecodeVarint(b, W64);
    var (format, b) :- DecodeFormat(b);
    var t :- DecodeTrailer(b);
    Ok(Frame(version, streamId, seqNo, mediaTs, format.codec, format.rate, format.repr, format.layout,
             t.samples, t.flags, t.integrity, t.check, t.payload))
  }

  // ---- Round trip, size bound, no clash with the end marker ----

  /** What survives a trip over the wire: all of the frame but the top two reserved flag bits. */
  function OnWire(f: Frame): Frame {
    f.(flags := f.flags.(reserved := f.flags.reserved % 64))
  }

  lemma FlagsRoundTrip(f: FrameFlags)
    ensures FlagsFromByte(FlagsToByte(f)) == f.(reserved := f.reserved % 64)
  {
  }

  lemma BodyRoundTrip(f: Frame)
    requires |f.payload| <= MAX_FRAME_PAYLOAD
    ensures DecodeBody(EncodeBody(f)) == Ok(f.payload)
    ensures 1 <= |EncodeBody(f)| <= 10 + |f.payload|
  {
    Limits();
    VarintRoundTrip(|f.payload|, W64, f.payload);
    assert f.payload[..|f.payload|] == f.payload;
  }

  lemma TrailerRoundTrip(f: Frame)
    requires |f.payload| <= MAX_FRAME_PAYLOAD
    ensures DecodeTrailer(EncodeTrailer(f))
         == Ok(Trailer(f.frameSampleCount, OnWire(f).flags, f.integrity, f.frameIntegrity, f.payload))
    ensures 5 <= |EncodeTrailer(f)| <= 23 + MAX_FRAME_PAYLOAD
  {
    Limits();
    var body := EncodeBody(f);
    var b3 := EncodeCheck(f.frameIntegrity) + body;
    var b2 := EncodeVarint(IntegrityTag(f.integrity)) + b3;
    var b1 := [FlagsToByte(f.flags)] + b2;
    VarintRoundTrip(f.frameSampleCount, W32, b1);
    assert b1[1..] == b2;
    FlagsRoundTrip(f.flags);
    TagRoundTrip(IntegrityTag(f.integrity), 3, b3);
    CheckRoundTrip(f.frameIntegrity, body);
    BodyRoundTrip(f);
  }

  lemma FormatRoundTrip(f: Frame)
    ensures DecodeFormat(EncodeFormat(f))
         == Ok((Format(f.codec, f.sampleRate, f.sampleRepr, f.channelLayout), EncodeTrailer(f)))
    ensures 4 + |EncodeTrailer(f)| <= |EncodeFormat(f)| <= 8 + |EncodeTrailer(f)|
  {
    Limits();
    var b3 := EncodeVarint(LayoutTag(f.channelLayout)) + EncodeTrailer(f);
    var b2 := EncodeVarint(ReprTag(f.sampleRepr)) + b3;
    var b1 := EncodeVarint(f.sampleRate) + b2;
    TagRoundTrip(CodecTag(f.codec), 3, b1);
    VarintRoundTrip(f.sampleRate, W32, b2);
    TagRoundTrip(ReprTag(f.sampleRepr), 4, b3);
    TagRoundTrip(LayoutTag(f.channelLayout), 5, EncodeTrailer(f));
  }

  lemma EncodedDecodes(f: Frame)
    requires |f.payload| <= MAX_FRAME_PAYLOAD
    ensures Unpack(Encode(f)) == Ok(OnWire(f))
    ensures 13 <= |Encode(f)| <= HEADER_MAX_LEN + MAX_FRAME_PAYLOAD
  {
    Limits();
    TrailerRoundTrip(f);
    FormatRoundTrip(f);
    var b3 := EncodeVarint(f.mediaTs) + EncodeFormat(f);
    var b2 := EncodeVarint(f.seqNo) + b3;
    var b1 := EncodeVarint(f.streamId) + b2;
    VarintRoundTrip(f.version, W16, b1);
    VarintRoundTrip(f.streamId, W32, b2);
    VarintRoundTrip(f.seqNo, W64, b3);
    VarintRoundTrip(f.mediaTs, W64, EncodeFormat(f));
  }

  /** A frame packs and comes back unchanged exactly when its payload and its reserved bits fit. */
  lemma FrameRoundTrip(f: Frame)
    ensures (Pack(f).Ok? && Unpack(Pack(f).value) == Ok(f))
       <==> |f.payload| <= MAX_FRAME_PAYLOAD && f.flags.reserved < 64
  {
    if |f.payload| <= MAX_FRAME_PAYLOAD {
      EncodedDecodes(f);
      SameOnWire(f);
      var r := Unpack(Encode(f));
      assert r == Ok(OnWire(f));
      assert r == Ok(f) <==> OnWire(f) == f;
    }
  }

  lemma SameOnWire(f: Frame)
    ensures OnWire(f) == f <==> f.flags.reserved < 64
  {
    if OnWire(f) == f { assert OnWire(f).flags.reserved == f.flags.reserved; }
  }

  lemma PackedLength(f: Frame)
    requires Pack(f).Ok?
    ensures 13 <= |Pack(f).value| <= HEADER_MAX_LEN + MAX_FRAME_PAYLOAD
  {
    EncodedDecodes(f);
  }

  const END_MAGIC: seq<byte> := [0x57, 0x44, 0x52, 0x5A, 0x45]

  /** Nothing that starts with the end-marker magic decodes as a frame: its fifth byte is no codec. */
  lemma MagicIsNoFrame(bytes: seq<byte>)
    requires END_MAGIC <= bytes
    ensures Unpack(bytes).Err?
  {
    assert forall i :: 0 <= i < 5 ==> bytes[i] == END_MAGIC[i];
    var b1, b2, b3, b4 := bytes[1..], bytes[2..], bytes[3..], bytes[4..];
    assert b1[1..] == b2 && b2[1..] == b3 && b3[1..] == b4;
    assert DecodeVarint(bytes, W16) == Ok((0x57, b1));
    assert DecodeVarint(b1, W32) == Ok((0x44, b2));
    assert DecodeVarint(b2, W64) == Ok((0x52, b3));
    assert DecodeVarint(b3, W64) == Ok((0x5A, b4));
    assert DecodeVarint(b4, W32) == Ok((0x45, b4[1..]));
    assert DecodeFormat(b4) == Err(DataInvalid);
  }

  lemma PackedIsNoMarker(f: Frame)
    requires Pack(f).Ok?
    ensures !(END_MAGIC <= Pack(f).value)
  {
    EncodedDecodes(f);
    if END_MAGIC <= Pack(f).value { MagicIsNoFrame(Pack(f).value); }
  }

  // ---- Constructors ----

  function NewLossy(streamId: u32, seqNo: u64, mediaTs: u64, codec: Codec, sampleRate: u32, repr: SampleRepr,
                    layout: ChannelLayout, samples: u32, flags: FrameFlags, payload: seq<byte>): Frame
  {
    Frame(FRAME_VERSION, streamId, seqNo, mediaTs, codec, sampleRate, repr, layout, samples, flags,
          NoIntegrity, NoCheck, payload)
  }

  function NewLossless(streamId: u32, seqNo: u64, mediaTs: u64, codec: Codec, sampleRate: u32, repr: SampleRepr,
                       layout: ChannelLayout, samples: u32, flags: FrameFlags, payload: seq<byte>): Frame
  {
    ChecksumFits(payload);
    Frame(FRAME_VERSION, streamId, seqNo, mediaTs, codec, sampleRate, repr, layout, samples, flags,
          Crc32Integrity, CrcCheck(Checksum(payload)), payload)
  }
}
