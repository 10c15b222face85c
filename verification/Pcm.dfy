/** Raw PCM: two's complement little-endian samples of 16 or 24 bits, and the adapter that packs and unpacks them. */
module Pcm {
  import opened Prelude
  import opened Frames

  datatype CodecError = InvalidPcmLen(len: nat) | MalformedFrame(len: nat)

  /** Bytes per sample on the wire; the two stub representations have none. */
  function WireWidth(repr: SampleRepr): nat {
    match repr case I16 => 2 case I24Packed => 3 case F32 => 0 case I32 => 0
  }

  predicate Built(repr: SampleRepr) {
    repr == I16 || repr == I24Packed
  }

  // ---- One sample ----

  /** The sign-extended value of a little-endian group. */
  function Signed(bytes: seq<byte>): int {
    if bytes == [] then 0
    else if |bytes| == 1 then (if bytes[0] >= 128 then bytes[0] - 256 else bytes[0])
    else bytes[0] + 256 * Signed(bytes[1..])
  }

  /** `w` bytes hold the values from `-HalfRange(w)` to `HalfRange(w) - 1`. */
  function HalfRange(w: nat): (half: int)
    ensures half >= 128
  {
    if w <= 1 then 128 else 256 * HalfRange(w - 1)
  }

  lemma {:induction false} SampleRoundTrip(v: int, w: nat)
    requires w > 0 && -HalfRange(w) <= v < HalfRange(w)
    ensures Signed(LittleEndian(v, w)) == v
    decreases w
  {
    assert LittleEndian(v, w)[1..] == LittleEndian(v / 256, w - 1);
    if w > 1 { SampleRoundTrip(v / 256, w - 1); }
  }

  lemma {:induction false} GroupRoundTrip(bytes: seq<byte>)
    ensures LittleEndian(Signed(bytes), |bytes|) == bytes
    ensures bytes != [] ==> -HalfRange(|bytes|) <= Signed(bytes) < HalfRange(|bytes|)
    decreases |bytes|
  {
    if |bytes| == 1 {
      assert LittleEndian(Signed(bytes) / 256, 0) == [];
    } else if |bytes| > 1 {
      GroupRoundTrip(bytes[1..]);
      assert Signed(bytes) / 256 == Signed(bytes[1..]) && Signed(bytes) % 256 == bytes[0];
      assert bytes == [bytes[0]] + bytes[1..];
    }
  }

  // ---- Blocks of samples ----

  /** The samples of the whole groups of `w` bytes; an incomplete group at the end is not read. */
  function SamplesOf(w: nat, bytes: seq<byte>): seq<int>
    requires w > 0
    decreases |bytes|
  {
    if |bytes| < w then [] else [Signed(bytes[..w])] + SamplesOf(w, bytes[w..])
  }

  function BytesOf(w: nat, pcm: seq<int>): seq<byte> {
    if pcm == [] then [] else LittleEndian(pcm[0], w) + BytesOf(w, pcm[1..])
  }

  /** The bytes of `n` groups of `w`. */
  function SizeOf(n: nat, w: nat): nat {
    if n == 0 then 0 else w + SizeOf(n - 1, w)
  }

  lemma {:induction false} BytesSize(w: nat, pcm: seq<int>)
    ensures |BytesOf(w, pcm)| == SizeOf(|pcm|, w)
  {
    if pcm != [] { BytesSize(w, pcm[1..]); }
  }

  /** Bytes that are whole groups come back from their samples. */
  lemma {:induction false} BytesRoundTrip(w: nat, bytes: seq<byte>, n: nat)
    requires w > 0 && |bytes| == SizeOf(n, w)
    ensures BytesOf(w, SamplesOf(w, bytes)) == bytes && |SamplesOf(w, bytes)| == n
    decreases n
  {
    if n > 0 {
      BytesRoundTrip(w, bytes[w..], n - 1);
      GroupRoundTrip(bytes[..w]);
      var samples := SamplesOf(w, bytes);
      assert samples == [Signed(bytes[..w])] + SamplesOf(w, bytes[w..]);
      assert samples[1..] == SamplesOf(w, bytes[w..]);
      assert bytes == bytes[..w] + bytes[w..];
    }
  }

  predicate InRange(w: nat, pcm: seq<int>) {
    forall i :: 0 <= i < |pcm| ==> -HalfRange(w) <= pcm[i] < HalfRange(w)
  }

  /** Samples in range come back from their bytes. */
  lemma {:induction false} SamplesRoundTrip(w: nat, pcm: seq<int>)
    requires w > 0 && InRange(w, pcm)
    ensures SamplesOf(w, BytesOf(w, pcm)) == pcm
  {
    if pcm != [] {
      assert InRange(w, pcm[1..]);
      SamplesRoundTrip(w, pcm[1..]);
      SampleRoundTrip(pcm[0], w);
      var bytes := BytesOf(w, pcm);
      assert bytes[..w] == LittleEndian(pcm[0], w) && bytes[w..] == BytesOf(w, pcm[1..]);
      assert pcm == [pcm[0]] + pcm[1..];
    }
  }

  lemma {:induction false} SamplesInRange(w: nat, bytes: seq<byte>)
    requires w > 0
    ensures InRange(w, SamplesOf(w, bytes))
    decreases |bytes|
  {
    if |bytes| >= w {
      GroupRoundTrip(bytes[..w]);
      SamplesInRange(w, bytes[w..]);
    }
  }

  // ---- The adapter ----

  /** The 24-bit surface clamps symmetrically: the lowest 24-bit value is not representable. */
  function Clamped(repr: SampleRepr, v: int): int {
    if repr == I24Packed then Max(-HalfRange(3) + 1, Min(v, HalfRange(3) - 1)) else v
  }

  function ClampAll(repr: SampleRepr, pcm: seq<int>): (clamped: seq<int>)
    ensures |clamped| == |pcm|
  {
    seq(|pcm|, i requires 0 <= i < |pcm| => Clamped(repr, pcm[i]))
  }

  function EncodePcm(channels: nat, repr: SampleRepr, pcm: seq<int>): Result<seq<byte>, CodecError>
    requires channels > 0 && Built(repr)
  {
    if |pcm| % channels != 0 then Err(InvalidPcmLen(|pcm|)) else Ok(BytesOf(WireWidth(repr), ClampAll(repr, pcm)))
  }

  function DecodePcm(channels: nat, repr: SampleRepr, bytes: seq<byte>): Result<seq<int>, CodecError>
    requires channels > 0 && Built(repr)
  {
    var w := WireWidth(repr);
    if |bytes| % w != 0 || |bytes| / w % channels != 0 then Err(MalformedFrame(|bytes|)) else Ok(SamplesOf(w, bytes))
  }

  lemma {:induction false} SizeOfLinear(n: nat)
    ensures SizeOf(n, 2) == 2 * n && SizeOf(n, 3) == 3 * n
  {
    if n > 0 { SizeOfLinear(n - 1); }
  }

  lemma SizeOfQuotient(n: nat, w: nat)
    requires w == 2 || w == 3
    ensures SizeOf(n, w) % w == 0 && SizeOf(n, w) / w == n
  {
    SizeOfLinear(n);
    if w == 2 {
      assert 2 * n % 2 == 0 && 2 * n / 2 == n;
    } else {
      assert 3 * n % 3 == 0 && 3 * n / 3 == n;
    }
  }

  /** No sample is the lowest 24-bit value, when the representation is the 24-bit one. */
  predicate Unclamped(repr: SampleRepr, pcm: seq<int>) {
    repr == I24Packed ==> forall i :: 0 <= i < |pcm| ==> pcm[i] != -HalfRange(3)
  }

  lemma ClampKeeps(repr: SampleRepr, pcm: seq<int>)
    requires Built(repr) && InRange(WireWidth(repr), pcm)
    ensures InRange(WireWidth(repr), ClampAll(repr, pcm))
    ensures ClampAll(repr, pcm) == pcm <==> Unclamped(repr, pcm)
  {
    assert HalfRange(3) == 256 * 256 * 128;
    forall i | 0 <= i < |pcm|
      ensures -HalfRange(WireWidth(repr)) <= ClampAll(repr, pcm)[i] < HalfRange(WireWidth(repr))
      ensures ClampAll(repr, pcm)[i] == pcm[i] <==> repr == I16 || pcm[i] != -HalfRange(3)
    {
    }
    if ClampAll(repr, pcm) == pcm {
      forall i | 0 <= i < |pcm| && repr == I24Packed ensures pcm[i] != -HalfRange(3) {
        assert ClampAll(repr, pcm)[i] == pcm[i];
      }
    }
  }

  /**
   Samples in range of the representation: decoding what was encoded gives them back if and only if none of them is the
   lowest 24-bit value; 16-bit samples always come back.
   */
  lemma AdapterRoundTrip(channels: nat, repr: SampleRepr, pcm: seq<int>)
    requires channels > 0 && Built(repr) && |pcm| % channels == 0 && InRange(WireWidth(repr), pcm)
    ensures var encoded := EncodePcm(channels, repr, pcm);
            && encoded.Ok? && |encoded.value| == SizeOf(|pcm|, WireWidth(repr))
            && DecodePcm(channels, repr, encoded.value) == Ok(ClampAll(repr, pcm))
            && (DecodePcm(channels, repr, encoded.value) == Ok(pcm) <==> Unclamped(repr, pcm))
  {
    var w := WireWidth(repr);
    var clamped := ClampAll(repr, pcm);
    ClampKeeps(repr, pcm);
    SamplesRoundTrip(w, clamped);
    BytesSize(w, clamped);
    SizeOfQuotient(|pcm|, w);
  }

  /** The lowest 24-bit value comes back one higher; the lowest 16-bit value comes back. */
  lemma LowestSample()
    ensures var encoded := EncodePcm(1, I24Packed, [-0x80_0000]);
            encoded.Ok? && DecodePcm(1, I24Packed, encoded.value) == Ok([-0x7f_ffff])
    ensures var encoded := EncodePcm(1, I16, [-0x8000]);
            encoded.Ok? && DecodePcm(1, I16, encoded.value) == Ok([-0x8000])
  {
    assert HalfRange(3) == 256 * 256 * 128 && HalfRange(2) == 256 * 128;
    AdapterRoundTrip(1, I24Packed, [-0x80_0000]);
    AdapterRoundTrip(1, I16, [-0x8000]);
    assert ClampAll(I24Packed, [-0x80_0000]) == [-0x7f_ffff];
    assert ClampAll(I16, [-0x8000]) == [-0x8000];
  }

  /** Clamping moves a sample to the nearest value that the 24-bit surface has, and leaves 16-bit samples alone. */
  lemma ClampIsNearest(v: int, u: int)
    requires -HalfRange(3) < u < HalfRange(3)
    ensures -HalfRange(3) < Clamped(I24Packed, v) < HalfRange(3)
    ensures Distance(Clamped(I24Packed, v), v) <= Distance(u, v)
    ensures Clamped(I16, v) == v
  {
    assert HalfRange(3) == 256 * 256 * 128;
  }

  function Distance(a: int, b: int): nat {
    if a <= b then b - a else a - b
  }

  /** Exactly whole frames are encoded, and exactly whole frames of samples are decoded; the length is reported else. */
  lemma WholeFramesOnly(channels: nat, repr: SampleRepr, pcm: seq<int>, bytes: seq<byte>)
    requires channels > 0 && Built(repr)
    ensures |pcm| % channels == 0 <==> EncodePcm(channels, repr, pcm).Ok?
    ensures EncodePcm(channels, repr, pcm).Err? ==> EncodePcm(channels, repr, pcm) == Err(InvalidPcmLen(|pcm|))
    ensures DecodePcm(channels, repr, bytes).Ok? <==>
              exists n: nat :: |bytes| == SizeOf(n, WireWidth(repr)) && n % channels == 0
    ensures DecodePcm(channels, repr, bytes).Err? ==> DecodePcm(channels, repr, bytes) == Err(MalformedFrame(|bytes|))
  {
    var w := WireWidth(repr);
    if |bytes| % w == 0 {
      SizeOfQuotient(|bytes| / w, w);
      WholeSize(|bytes|, w);
    }
    forall n: nat | |bytes| == SizeOf(n, w) ensures |bytes| % w == 0 && |bytes| / w == n {
      SizeOfQuotient(n, w);
    }
  }

  lemma WholeSize(size: nat, w: nat)
    requires (w == 2 || w == 3) && size % w == 0
    ensures SizeOf(size / w, w) == size
  {
    SizeOfLinear(size / w);
  }
}
