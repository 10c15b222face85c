/**
 The wire format from outside: no proper prefix of a frame is taken for anything but a truncated frame, and the bytes of
 a stored vector and of the end marker are the ones that other implementations write.
 */
module WireFormat {
  import opened Prelude
  import opened Bits
  import opened Crc32
  import opened Frames
  import opened Deframing
  import opened Framing

  // ---- Truncation ----

  /** The decoder runs dry, or gives the value back and leaves a proper prefix of what follows. */
  ghost predicate DryOr<T>(r: Result<(T, seq<byte>), DecodeError>, v: T, rest: seq<byte>) {
    match r
    case Err(e) => e == Truncated
    case Ok((u, q)) => u == v && q < rest
  }

  lemma {:induction false} VarintCut(v: nat, w: Width, rest: seq<byte>, p: seq<byte>)
    requires w.maxBytes >= 1 && w.lastMax < 128 && v < Limit(w) && p < EncodeVarint(v) + rest
    ensures DryOr(DecodeVarint(p, w), v, rest)
    decreases v
  {
    hide DecodeVarint, EncodeVarint, Limit, DryOr;
    if p == [] {
      NothingIsDry(v, w, rest);
    } else if v < 128 {
      SmallCut(v, w, rest, p);
    } else {
      HighPartFits(v, w);
      TailCut(v, rest, p);
      VarintCut(v / 128, w.(maxBytes := w.maxBytes - 1), rest, p[1..]);
      LargeCut(v, v / 128, w, rest, p);
    }
  }

  lemma NothingIsDry(v: nat, w: Width, rest: seq<byte>)
    requires w.maxBytes >= 1
    ensures DryOr(DecodeVarint([], w), v, rest)
  {
  }

  lemma SmallCut(v: nat, w: Width, rest: seq<byte>, p: seq<byte>)
    requires w.maxBytes >= 1 && v < 128 && v < Limit(w) && p != [] && p < EncodeVarint(v) + rest
    ensures DryOr(DecodeVarint(p, w), v, rest)
  {
    assert EncodeVarint(v) == [v];
    assert p[0] == v && p[1..] < rest;
  }

  lemma TailCut(v: nat, rest: seq<byte>, p: seq<byte>)
    requires v >= 128 && p != [] && p < EncodeVarint(v) + rest
    ensures p[0] == 128 + v % 128 && p[1..] < EncodeVarint(v / 128) + rest
  {
    hide EncodeVarint;
    EncodeStep(v);
    var whole := EncodeVarint(v) + rest;
    assert whole[1..] == EncodeVarint(v / 128) + rest;
    assert p[0] == whole[0] && p[1..] < whole[1..];
  }

  lemma LargeCut(v: nat, high: nat, w: Width, rest: seq<byte>, p: seq<byte>)
    requires w.maxBytes >= 2 && v >= 128 && high == v / 128 && p != [] && p[0] == 128 + v % 128
    requires DryOr(DecodeVarint(p[1..], w.(maxBytes := w.maxBytes - 1)), high, rest)
    ensures DryOr(DecodeVarint(p, w), v, rest)
  {
    hide DecodeVarint;
    DecodeStep(p, w);
  }

  lemma EncodeStep(v: nat)
    requires v >= 128
    ensures EncodeVarint(v) == [128 + v % 128] + EncodeVarint(v / 128)
  {
  }

  lemma DecodeStep(p: seq<byte>, w: Width)
    requires p != [] && p[0] >= 128 && w.maxBytes >= 2
    ensures DecodeVarint(p, w) ==
              match DecodeVarint(p[1..], w.(maxBytes := w.maxBytes - 1))
              case Err(e) => Err(e)
              case Ok((high, rest)) => Ok((p[0] - 128 + 128 * high, rest))
  {
  }

  lemma HighPartFits(v: nat, w: Width)
    requires w.maxBytes >= 1 && w.lastMax < 128 && 128 <= v < Limit(w)
    ensures w.maxBytes >= 2 && v / 128 < Limit(w.(maxBytes := w.maxBytes - 1))
  {
  }

  lemma TagCut(tag: nat, variants: nat, rest: seq<byte>, p: seq<byte>)
    requires tag < variants <= 128 && p < EncodeVarint(tag) + rest
    ensures DryOr(DecodeTag(p, variants), tag, rest)
  {
    Limits();
    VarintCut(tag, W32, rest, p);
  }

  lemma CheckCut(c: FrameIntegrity, rest: seq<byte>, p: seq<byte>)
    requires p < EncodeCheck(c) + rest
    ensures DryOr(DecodeCheck(p), c, rest)
  {
    Limits();
    match c
    case NoCheck => TagCut(0, 3, rest, p);
    case AeadCheck => TagCut(2, 3, rest, p);
    case CrcCheck(crc) =>
      var after := EncodeVarint(crc) + rest;
      assert EncodeCheck(c) + rest == EncodeVarint(1) + after;
      TagCut(1, 3, after, p);
      var r := DecodeTag(p, 3);
      if r.Ok? { VarintCut(crc, W32, rest, r.value.1); }
  }

  lemma BodyCut(f: Frame, p: seq<byte>)
    requires |f.payload| <= MAX_FRAME_PAYLOAD && p < EncodeBody(f)
    ensures DecodeBody(p) == Err(Truncated)
  {
    Limits();
    VarintCut(|f.payload|, W64, f.payload, p);
  }

  lemma TrailerCut(f: Frame, p: seq<byte>)
    requires |f.payload| <= MAX_FRAME_PAYLOAD && p < EncodeTrailer(f)
    ensures DecodeTrailer(p) == Err(Truncated)
  {
    hide EncodeVarint, DecodeVarint, DecodeTag, DecodeCheck, EncodeCheck, EncodeBody, DecodeBody, Limit;
    Limits();
    var b3 := EncodeCheck(f.frameIntegrity) + EncodeBody(f);
    var b2 := EncodeVarint(IntegrityTag(f.integrity)) + b3;
    var b1 := [FlagsToByte(f.flags)] + b2;
    VarintCut(f.frameSampleCount, W32, b1, p);
    var r := DecodeVarint(p, W32);
    if r.Ok? && r.value.1 != [] {
      var q := r.value.1;
      assert b1[1..] == b2 && q[1..] < b2;
      TagCut(IntegrityTag(f.integrity), 3, b3, q[1..]);
      var s := DecodeTag(q[1..], 3);
      if s.Ok? {
        CheckCut(f.frameIntegrity, EncodeBody(f), s.value.1);
        var t := DecodeCheck(s.value.1);
        if t.Ok? { BodyCut(f, t.value.1); }
      }
    }
  }

  lemma FormatCut(f: Frame, p: seq<byte>)
    requires |f.payload| <= MAX_FRAME_PAYLOAD && p < EncodeFormat(f)
    ensures DryOr(DecodeFormat(p), Format(f.codec, f.sampleRate, f.sampleRepr, f.channelLayout), EncodeTrailer(f))
  {
    hide EncodeVarint, DecodeVarint, DecodeTag, EncodeTrailer, Limit;
    Limits();
    var b3 := EncodeVarint(LayoutTag(f.channelLayout)) + EncodeTrailer(f);
    var b2 := EncodeVarint(ReprTag(f.sampleRepr)) + b3;
    var b1 := EncodeVarint(f.sampleRate) + b2;
    TagCut(CodecTag(f.codec), 3, b1, p);
    var r := DecodeTag(p, 3);
    if r.Ok? {
      VarintCut(f.sampleRate, W32, b2, r.value.1);
      var s := DecodeVarint(r.value.1, W32);
      if s.Ok? {
        TagCut(ReprTag(f.sampleRepr), 4, b3, s.value.1);
        var t := DecodeTag(s.value.1, 4);
        if t.Ok? { TagCut(LayoutTag(f.channelLayout), 5, EncodeTrailer(f), t.value.1); }
      }
    }
  }

  /** However far a frame has arrived, without its last byte it is truncated and nothing else. */
  lemma CutFrameIsTruncated(f: Frame, n: nat)
    requires |f.payload| <= MAX_FRAME_PAYLOAD && n < |Encode(f)|
    ensures Unpack(Encode(f)[..n]) == Err(Truncated)
  {
    EncodedDecodes(f);
    Limits();
    var p := Encode(f)[..n];
    assert |p| < |Encode(f)| <= HEADER_MAX_LEN + MAX_FRAME_PAYLOAD;
    hide EncodeVarint, DecodeVarint, DecodeFormat, EncodeFormat, DecodeTrailer, Limit;
    var b3 := EncodeVarint(f.mediaTs) + EncodeFormat(f);
    var b2 := EncodeVarint(f.seqNo) + b3;
    var b1 := EncodeVarint(f.streamId) + b2;
    assert p < EncodeVarint(f.version) + b1;
    VarintCut(f.version, W16, b1, p);
    var r := DecodeVarint(p, W16);
    if r.Ok? { FromStream(f, r.value.1); }
  }

  /** Reading on from the stream id, keeping nothing but a failure. */
  function ReadOn(bytes: seq<byte>): Result<(), DecodeError> {
    var (_, b) :- DecodeVarint(bytes, W32);
    var (_, c) :- DecodeVarint(b, W64);
    var (_, d) :- DecodeVarint(c, W64);
    var (_, e) :- DecodeFormat(d);
    var _ :- DecodeTrailer(e);
    Ok(())
  }

  lemma FromStream(f: Frame, p: seq<byte>)
    requires |f.payload| <= MAX_FRAME_PAYLOAD
    requires p < EncodeVarint(f.streamId) + (EncodeVarint(f.seqNo) + (EncodeVarint(f.mediaTs) + EncodeFormat(f)))
    ensures ReadOn(p) == Err(Truncated)
  {
    hide EncodeVarint, DecodeVarint, DecodeFormat, EncodeFormat, DecodeTrailer, Limit;
    Limits();
    var b3 := EncodeVarint(f.mediaTs) + EncodeFormat(f);
    var b2 := EncodeVarint(f.seqNo) + b3;
    VarintCut(f.streamId, W32, b2, p);
    var r := DecodeVarint(p, W32);
    if r.Ok? {
      VarintCut(f.seqNo, W64, b3, r.value.1);
      var s := DecodeVarint(r.value.1, W64);
      if s.Ok? {
        VarintCut(f.mediaTs, W64, EncodeFormat(f), s.value.1);
        var t := DecodeVarint(s.value.1, W64);
        if t.Ok? {
          FormatCut(f, t.value.1);
          var u := DecodeFormat(t.value.1);
          if u.Ok? { TrailerCut(f, u.value.1); }
        }
      }
    }
  }

  // ---- Stored vectors ----

  lemma VarintOfOne(v: nat)
    requires v < 128
    ensures EncodeVarint(v) == [v]
  {
  }

  lemma VarintOfTwo(a: nat, b: nat)
    requires a < 128 && 0 < b < 128
    ensures EncodeVarint(a + 128 * b) == [128 + a, b]
  {
    VarintOfOne(b);
    assert (a + 128 * b) % 128 == a && (a + 128 * b) / 128 == b;
  }

  /** One more group of seven bits in front. */
  lemma VarintGroup(a: nat, high: nat, bytes: seq<byte>)
    requires a < 128 && high > 0 && EncodeVarint(high) == bytes
    ensures EncodeVarint(a + 128 * high) == [128 + a] + bytes
  {
    assert (a + 128 * high) % 128 == a && (a + 128 * high) / 128 == high;
  }

  /** The rates, counts and lengths of the vectors. */
  lemma Counts()
    ensures EncodeVarint(0xBB80) == [0x80, 0xF7, 0x02]
    ensures EncodeVarint(0x3C0) == [0xC0, 0x07]
    ensures EncodeVarint(0xF0) == [0xF0, 0x01]
    ensures EncodeVarint(0xBB8) == [0xB8, 0x17]
  {
    hide EncodeVarint;
    VarintOfOne(2);
    VarintGroup(0x77, 0x2, [0x02]);
    assert [128 + 0x77] + [0x02] == [0xF7, 0x02];
    VarintGroup(0x00, 0x177, [0xF7, 0x02]);
    assert [128 + 0x00] + [0xF7, 0x02] == [0x80, 0xF7, 0x02];
    VarintOfOne(7);
    VarintGroup(0x40, 0x7, [0x07]);
    assert [128 + 0x40] + [0x07] == [0xC0, 0x07];
    VarintOfOne(1);
    VarintGroup(0x70, 0x1, [0x01]);
    assert [128 + 0x70] + [0x01] == [0xF0, 0x01];
    VarintOfOne(23);
    VarintGroup(0x38, 0x17, [0x17]);
    assert [128 + 0x38] + [0x17] == [0xB8, 0x17];
  }

  /** The checksum of the second vector. */
  lemma StoredCrc()
    ensures EncodeVarint(0x55CB2846) == [0xC6, 0xD0, 0xAC, 0xAE, 0x05]
  {
    hide EncodeVarint;
    VarintOfOne(5);
    VarintGroup(0x2E, 0x5, [0x05]);
    assert [128 + 0x2E] + [0x05] == [0xAE, 0x05];
    VarintGroup(0x2C, 0x2AE, [0xAE, 0x05]);
    assert [128 + 0x2C] + [0xAE, 0x05] == [0xAC, 0xAE, 0x05];
    VarintGroup(0x50, 0x1572C, [0xAC, 0xAE, 0x05]);
    assert [128 + 0x50] + [0xAC, 0xAE, 0x05] == [0xD0, 0xAC, 0xAE, 0x05];
    VarintGroup(0x46, 0xAB9650, [0xD0, 0xAC, 0xAE, 0x05]);
    assert [128 + 0x46] + [0xD0, 0xAC, 0xAE, 0x05] == [0xC6, 0xD0, 0xAC, 0xAE, 0x05];
  }

  lemma ManyOnes()
    ensures EncodeVarint(0x1FFFFFFFFFFFFFF) == [0xFF, 0xFF, 0xFF, 0xFF, 0xFF, 0xFF, 0xFF, 0xFF, 0x01]
  {
    hide EncodeVarint;
    VarintOfOne(1);
    VarintGroup(0x7F, 0x1, [0x01]);
    assert [128 + 0x7F] + [0x01] == [0xFF, 0x01];
    VarintGroup(0x7F, 0xFF, [0xFF, 0x01]);
    assert [128 + 0x7F] + [0xFF, 0x01] == [0xFF, 0xFF, 0x01];
    VarintGroup(0x7F, 0x7FFF, [0xFF, 0xFF, 0x01]);
    assert [128 + 0x7F] + [0xFF, 0xFF, 0x01] == [0xFF, 0xFF, 0xFF, 0x01];
    VarintGroup(0x7F, 0x3FFFFF, [0xFF, 0xFF, 0xFF, 0x01]);
    assert [128 + 0x7F] + [0xFF, 0xFF, 0xFF, 0x01] == [0xFF, 0xFF, 0xFF, 0xFF, 0x01];
    VarintGroup(0x7F, 0x1FFFFFFF, [0xFF, 0xFF, 0xFF, 0xFF, 0x01]);
    assert [128 + 0x7F] + [0xFF, 0xFF, 0xFF, 0xFF, 0x01] == [0xFF, 0xFF, 0xFF, 0xFF, 0xFF, 0x01];
    VarintGroup(0x7F, 0xFFFFFFFFF, [0xFF, 0xFF, 0xFF, 0xFF, 0xFF, 0x01]);
    assert [128 + 0x7F] + [0xFF, 0xFF, 0xFF, 0xFF, 0xFF, 0x01] == [0xFF, 0xFF, 0xFF, 0xFF, 0xFF, 0xFF, 0x01];
    VarintGroup(0x7F, 0x7FFFFFFFFFF, [0xFF, 0xFF, 0xFF, 0xFF, 0xFF, 0xFF, 0x01]);
    assert [128 + 0x7F] + [0xFF, 0xFF, 0xFF, 0xFF, 0xFF, 0xFF, 0x01]
        == [0xFF, 0xFF, 0xFF, 0xFF, 0xFF, 0xFF, 0xFF, 0x01];
    VarintGroup(0x7F, 0x3FFFFFFFFFFFF, [0xFF, 0xFF, 0xFF, 0xFF, 0xFF, 0xFF, 0xFF, 0x01]);
    assert [128 + 0x7F] + [0xFF, 0xFF, 0xFF, 0xFF, 0xFF, 0xFF, 0xFF, 0x01]
        == [0xFF, 0xFF, 0xFF, 0xFF, 0xFF, 0xFF, 0xFF, 0xFF, 0x01];
  }

  /** Numbers and timestamps just below the top of 64 bits. */
  lemma TopNumbers()
    ensures EncodeVarint(0xFFFFFFFFFFFFFFFE) == [0xFE, 0xFF, 0xFF, 0xFF, 0xFF, 0xFF, 0xFF, 0xFF, 0xFF, 0x01]
    ensures EncodeVarint(0xFFFFFFFFFFFFFFFF) == [0xFF, 0xFF, 0xFF, 0xFF, 0xFF, 0xFF, 0xFF, 0xFF, 0xFF, 0x01]
    ensures EncodeVarint(0xFFFFFFFFFFFFFFEB) == [0xEB, 0xFF, 0xFF, 0xFF, 0xFF, 0xFF, 0xFF, 0xFF, 0xFF, 0x01]
    ensures EncodeVarint(0xFFFFFFFFFFFFFFE1) == [0xE1, 0xFF, 0xFF, 0xFF, 0xFF, 0xFF, 0xFF, 0xFF, 0xFF, 0x01]
  {
    hide EncodeVarint;
    ManyOnes();
    VarintGroup(0x7E, 0x1FFFFFFFFFFFFFF, [0xFF, 0xFF, 0xFF, 0xFF, 0xFF, 0xFF, 0xFF, 0xFF, 0x01]);
    assert [128 + 0x7E] + [0xFF, 0xFF, 0xFF, 0xFF, 0xFF, 0xFF, 0xFF, 0xFF, 0x01]
        == [0xFE, 0xFF, 0xFF, 0xFF, 0xFF, 0xFF, 0xFF, 0xFF, 0xFF, 0x01];
    VarintGroup(0x7F, 0x1FFFFFFFFFFFFFF, [0xFF, 0xFF, 0xFF, 0xFF, 0xFF, 0xFF, 0xFF, 0xFF, 0x01]);
    assert [128 + 0x7F] + [0xFF, 0xFF, 0xFF, 0xFF, 0xFF, 0xFF, 0xFF, 0xFF, 0x01]
        == [0xFF, 0xFF, 0xFF, 0xFF, 0xFF, 0xFF, 0xFF, 0xFF, 0xFF, 0x01];
    VarintGroup(0x6B, 0x1FFFFFFFFFFFFFF, [0xFF, 0xFF, 0xFF, 0xFF, 0xFF, 0xFF, 0xFF, 0xFF, 0x01]);
    assert [128 + 0x6B] + [0xFF, 0xFF, 0xFF, 0xFF, 0xFF, 0xFF, 0xFF, 0xFF, 0x01]
        == [0xEB, 0xFF, 0xFF, 0xFF, 0xFF, 0xFF, 0xFF, 0xFF, 0xFF, 0x01];
    VarintGroup(0x61, 0x1FFFFFFFFFFFFFF, [0xFF, 0xFF, 0xFF, 0xFF, 0xFF, 0xFF, 0xFF, 0xFF, 0x01]);
    assert [128 + 0x61] + [0xFF, 0xFF, 0xFF, 0xFF, 0xFF, 0xFF, 0xFF, 0xFF, 0x01]
        == [0xE1, 0xFF, 0xFF, 0xFF, 0xFF, 0xFF, 0xFF, 0xFF, 0xFF, 0x01];
  }

  function WrapWindow(payload: seq<byte>): Frame {
    NewLossy(1, U64_LIMIT - 2, U64_LIMIT - 1, Opus, 48000, I16, Stereo, 960, FrameFlags(false, false, 0), payload)
  }

  /** The stored vector "frame-wrap-window", whose payload has 64 bytes, field by field. */
  lemma WrapWindowVector(payload: seq<byte>)
    requires |payload| == 64
    ensures Encode(WrapWindow(payload)) ==
              [0x01] + ([0x01] + ([0xFE, 0xFF, 0xFF, 0xFF, 0xFF, 0xFF, 0xFF, 0xFF, 0xFF, 0x01] + (
              [0xFF, 0xFF, 0xFF, 0xFF, 0xFF, 0xFF, 0xFF, 0xFF, 0xFF, 0x01] + ([0x00] + ([0x80, 0xF7, 0x02] + (
              [0x00] + ([0x01] + ([0xC0, 0x07] + (
              [0x00] + ([0x00] + ([0x00] + (
              [0x40] + payload))))))))))))
  {
    Counts();
    StoredCrc();
    TopNumbers();
    OneByteVarints();
    hide EncodeVarint;
  }

  lemma OneByteVarints()
    ensures EncodeVarint(0) == [0] && EncodeVarint(1) == [1] && EncodeVarint(2) == [2]
    ensures EncodeVarint(9) == [9] && EncodeVarint(64) == [64]
  {
  }

  function StoredLossless(payload: seq<byte>): Frame {
    Frame(1, 9, U64_LIMIT - 21, U64_LIMIT - 31, Flac, 48000, I24Packed, Stereo, 240, FrameFlags(false, false, 0),
          Crc32Integrity, CrcCheck(0x55CB_2846), payload)
  }

  /** The stored vector "frame-lossless-stereo", whose payload has 3000 bytes, field by field. */
  lemma LosslessVector(payload: seq<byte>)
    requires |payload| == 3000
    ensures Encode(StoredLossless(payload)) ==
              [0x01] + ([0x09] + ([0xEB, 0xFF, 0xFF, 0xFF, 0xFF, 0xFF, 0xFF, 0xFF, 0xFF, 0x01] + (
              [0xE1, 0xFF, 0xFF, 0xFF, 0xFF, 0xFF, 0xFF, 0xFF, 0xFF, 0x01] + ([0x01] + ([0x80, 0xF7, 0x02] + (
              [0x02] + ([0x01] + ([0xF0, 0x01] + (
              [0x00] + ([0x01] + ([0x01, 0xC6, 0xD0, 0xAC, 0xAE, 0x05] + (
              [0xB8, 0x17] + payload))))))))))))
  {
    Counts();
    StoredCrc();
    TopNumbers();
    OneByteVarints();
    hide EncodeVarint;
  }

  // ---- Lengths and the end marker ----

  /** An end marker reads "WDRZE", then the number of frames in eight bytes, lowest first. */
  lemma EndLayout(total: u64)
    ensures PackEnd(total)[..5] == [0x57, 0x44, 0x52, 0x5A, 0x45]
    ensures |PackEnd(total)| == 13 && Word(PackEnd(total)[5..]) == total
  {
    WordWidths();
    LittleEndianRoundTrip(total, 8);
    assert PackEnd(total)[5..] == LittleEndian(total, 8);
  }

  /** An item on a stream follows its length in two bytes, the lower one first. */
  lemma ItemLayout(bytes: seq<byte>)
    requires |bytes| < U16_LIMIT
    ensures WrapItem(bytes) == [|bytes| % 256, |bytes| / 256] + bytes
  {
    assert LittleEndian(|bytes|, 2) == [|bytes| % 256] + LittleEndian(|bytes| / 256, 1);
    assert LittleEndian(|bytes| / 256, 1) == [|bytes| / 256 % 256] + LittleEndian(|bytes| / 256 / 256, 0);
  }

  // ---- Streams that cannot go on ----

  /** Behind a length over the bound the stream is stuck: no item ever comes out again, and every chunk is refused. */
  lemma {:induction false} OversizeIsStuck<T>(parse: Parser<T>, buf: seq<byte>, more: seq<byte>)
    requires |buf| >= 2 && PrefixLength(buf) > MAX_ITEM
    ensures Take(parse, buf + more) == Taken([], Some(Bounds), buf + more)
    ensures PrefixLength(buf + more) > MAX_ITEM
  {
  }

  /** Behind an item that does not parse the stream goes on with the next one, at the next call. */
  lemma MalformedIsSkipped<T>(parse: Parser<T>, body: seq<byte>, rest: seq<byte>)
    requires |body| <= MAX_ITEM && parse(body).Err?
    ensures Take(parse, WrapItem(body) + rest) == Taken([], Some(parse(body).error), rest)
  {
    WrapPrefix(body, rest);
  }

  // ---- Tags, flags and refusals ----

  /** The variant numbers of the stored vectors, and the bits of the flag byte. */
  lemma StoredNumbers()
    ensures CodecTag(Opus) == 0 && CodecTag(Flac) == 1 && CodecTag(Pcm) == 2
    ensures ReprTag(I16) == 0 && ReprTag(F32) == 1 && ReprTag(I24Packed) == 2 && ReprTag(I32) == 3
    ensures LayoutTag(Mono) == 0 && LayoutTag(Stereo) == 1 && LayoutTag(Quad) == 2 && LayoutTag(Surround51) == 3
    ensures FlagsToByte(FrameFlags(true, false, 0)) == 1 && FlagsToByte(FrameFlags(false, true, 0)) == 2
    ensures FlagsToByte(FrameFlags(false, false, 1)) == 4 && FlagsToByte(FrameFlags(true, true, 63)) == 255
  {
  }

  /** Exactly what is longer than any frame is refused for its size, on either level. */
  lemma TooLongExactly(bytes: seq<byte>)
    ensures Unpack(bytes) == Err(PayloadOverflow) <==> |bytes| > HEADER_MAX_LEN + MAX_FRAME_PAYLOAD
    ensures Parse(bytes) == Err(FramePayloadOverflow) <==> |bytes| > HEADER_MAX_LEN + MAX_FRAME_PAYLOAD
    ensures Parse(bytes).Err? && Parse(bytes) != Err(FramePayloadOverflow) ==> Parse(bytes) == Err(Malformed)
  {
    hide DecodeVarint, DecodeFormat, DecodeTrailer;
    Limits();
    if |bytes| <= HEADER_MAX_LEN + MAX_FRAME_PAYLOAD { NoOverflow(bytes); }
  }

  lemma {:induction false} VarintNoOverflow(bytes: seq<byte>, w: Width)
    requires w.maxBytes >= 1
    ensures DecodeVarint(bytes, w) != Err(PayloadOverflow)
    decreases w.maxBytes
  {
    if bytes != [] && w.maxBytes > 1 { VarintNoOverflow(bytes[1..], w.(maxBytes := w.maxBytes - 1)); }
  }

  lemma TagNoOverflow(bytes: seq<byte>, variants: nat)
    ensures DecodeTag(bytes, variants) != Err(PayloadOverflow)
  {
    VarintNoOverflow(bytes, W32);
  }

  lemma FormatNoOverflow(bytes: seq<byte>)
    ensures DecodeFormat(bytes) != Err(PayloadOverflow)
  {
    hide DecodeVarint, DecodeTag, Limit;
    Limits();
    TagNoOverflow(bytes, 3);
    var r := DecodeTag(bytes, 3);
    if r.Ok? {
      VarintNoOverflow(r.value.1, W32);
      var s := DecodeVarint(r.value.1, W32);
      if s.Ok? {
        TagNoOverflow(s.value.1, 4);
        var t := DecodeTag(s.value.1, 4);
        if t.Ok? { TagNoOverflow(t.value.1, 5); }
      }
    }
  }

  lemma TrailerNoOverflow(bytes: seq<byte>)
    ensures DecodeTrailer(bytes) != Err(PayloadOverflow)
  {
    hide DecodeVarint, DecodeTag, DecodeCheck, DecodeBody, Limit;
    Limits();
    VarintNoOverflow(bytes, W32);
    var r := DecodeVarint(bytes, W32);
    if r.Ok? && r.value.1 != [] {
      TagNoOverflow(r.value.1[1..], 3);
      var s := DecodeTag(r.value.1[1..], 3);
      if s.Ok? {
        CheckNoOverflow(s.value.1);
        var t := DecodeCheck(s.value.1);
        if t.Ok? { BodyNoOverflow(t.value.1); }
      }
    }
  }

  lemma CheckNoOverflow(bytes: seq<byte>)
    ensures DecodeCheck(bytes) != Err(PayloadOverflow)
  {
    hide DecodeVarint, Limit;
    TagNoOverflow(bytes, 3);
    var r := DecodeTag(bytes, 3);
    if r.Ok? { VarintNoOverflow(r.value.1, W32); }
  }

  lemma BodyNoOverflow(bytes: seq<byte>)
    ensures DecodeBody(bytes) != Err(PayloadOverflow)
  {
    hide DecodeVarint;
    VarintNoOverflow(bytes, W64);
  }

  lemma NoOverflow(bytes: seq<byte>)
    requires |bytes| <= HEADER_MAX_LEN + MAX_FRAME_PAYLOAD
    ensures Unpack(bytes) != Err(PayloadOverflow)
  {
    hide DecodeVarint, DecodeFormat, DecodeTrailer, Limit;
    Limits();
    VarintNoOverflow(bytes, W16);
    var r := DecodeVarint(bytes, W16);
    if r.Ok? {
      VarintNoOverflow(r.value.1, W32);
      var s := DecodeVarint(r.value.1, W32);
      if s.Ok? {
        VarintNoOverflow(s.value.1, W64);
        var t := DecodeVarint(s.value.1, W64);
        if t.Ok? {
          VarintNoOverflow(t.value.1, W64);
          var u := DecodeVarint(t.value.1, W64);
          if u.Ok? {
            FormatNoOverflow(u.value.1);
            var v := DecodeFormat(u.value.1);
            if v.Ok? { TrailerNoOverflow(v.value.1); }
          }
        }
      }
    }
  }

  /** Nothing but its own encoding parses as an end marker. */
  lemma MarkerExactly(bytes: seq<byte>, total: u64)
    ensures Parse(bytes) == Ok(End(total)) <==> bytes == PackEnd(total)
  {
    hide Unpack, PackEnd, Word;
    ItemRoundTrip(End(total));
    if IsEnd(bytes) {
      TotalBelow(bytes[5..]);
      MarkerSpelled(bytes, Word(bytes[5..]));
    }
  }

  lemma MarkerSpelled(bytes: seq<byte>, total: u64)
    requires IsEnd(bytes) && Word(bytes[5..]) == total
    ensures bytes == PackEnd(total)
  {
    hide Word;
    var own := PackEnd(total);
    EndLayout(total);
    WordInjective(own[5..], bytes[5..]);
    assert bytes[..5] == END_MAGIC == own[..5];
    assert own == own[..5] + own[5..] && bytes == bytes[..5] + bytes[5..];
  }

  /** A declared payload over the cap is refused before a byte of it is taken, when that much is there at all. */
  lemma OversizeIsInvalid(declared: nat, rest: seq<byte>)
    requires declared < U64_LIMIT
    ensures DecodeBody(EncodeVarint(declared) + rest) ==
              if declared > MAX_FRAME_PAYLOAD && |rest| > MAX_FRAME_PAYLOAD then Err(DataInvalid)
              else if declared > |rest| then Err(Truncated)
              else Ok(rest[..declared])
  {
    hide DecodeVarint;
    Limits();
    VarintRoundTrip(declared, W64, rest);
  }
}
