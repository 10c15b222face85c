/**
 Items on the wire: a packed frame or the end marker, bare in a datagram or behind a 16-bit length on a
 reliable stream, with the frame and the marker never mistaken for each other.
 */
module Framing {
  import opened Prelude
  import opened Bits
  import opened Crc32
  import opened Frames
  import opened Deframing

  datatype FramedItem = Audio(frame: Frame) | End(totalFrames: u64)

  function PackEnd(totalFrames: u64): (bytes: seq<byte>)
    ensures |bytes| == END_LEN
  {
    END_MAGIC + LittleEndian(totalFrames, 8)
  }

  predicate IsEnd(bytes: seq<byte>) {
    |bytes| == END_LEN && END_MAGIC <= bytes
  }

  function Parse(bytes: seq<byte>): Result<FramedItem, FramingError> {
    if IsEnd(bytes) then
      TotalBelow(bytes[5..]);
      Ok(End(Word(bytes[5..])))
    else
      match Unpack(bytes)
      case Ok(frame) => Ok(Audio(frame))
      case Err(PayloadOverflow) => Err(FramePayloadOverflow)
      case Err(_) => Err(Malformed)
  }

  lemma {:induction false} WordBelow(bytes: seq<byte>)
    ensures Word(bytes) < Pow2(8 * |bytes|)
  {
    if bytes != [] {
      WordBelow(bytes[1..]);
      Pow2Add(8, 8 * (|bytes| - 1));
      assert Pow2(8) == 256;
    } else {
      assert 8 * |bytes| == 0;
    }
  }

  lemma TotalBelow(bytes: seq<byte>)
    requires |bytes| == 8
    ensures Word(bytes) < U64_LIMIT
  {
    WordBelow(bytes);
    WordWidths();
  }

  // ---- Which items survive the wire ----

  predicate ValidItem(item: FramedItem) {
    item.Audio? ==> |item.frame.payload| <= MAX_FRAME_PAYLOAD && item.frame.flags.reserved < 64
  }

  function ItemBytes(item: FramedItem): seq<byte> {
    match item
    case Audio(frame) => Encode(frame)
    case End(totalFrames) => PackEnd(totalFrames)
  }

  /** Parsing gives back exactly the item that was written; frames and end markers are never mistaken. */
  lemma ItemRoundTrip(item: FramedItem)
    requires ValidItem(item)
    ensures Parse(ItemBytes(item)) == Ok(item)
    ensures IsEnd(ItemBytes(item)) <==> item.End?
    ensures 0 < |ItemBytes(item)| <= MAX_ITEM
  {
    match item
    case Audio(frame) =>
      EncodedDecodes(frame);
      FrameRoundTrip(frame);
      PackedIsNoMarker(frame);
    case End(totalFrames) =>
      var bytes := PackEnd(totalFrames);
      assert bytes[5..] == LittleEndian(totalFrames, 8);
      WordWidths();
      LittleEndianRoundTrip(totalFrames, 8);
  }

  /** The reliable-stream image of valid items; each of them respects the item bound. */
  function ItemStream(items: seq<FramedItem>): seq<byte>
    requires forall i :: 0 <= i < |items| ==> ValidItem(items[i])
  {
    ItemsFit(items);
    Stream(ItemBytes, items)
  }

  lemma ItemsFit(items: seq<FramedItem>)
    requires forall i :: 0 <= i < |items| ==> ValidItem(items[i])
    ensures AllRoundTrip(Parse, ItemBytes, items)
  {
    forall i | 0 <= i < |items| ensures RoundTrips(Parse, ItemBytes, items[i]) {
      ItemRoundTrip(items[i]);
    }
  }

  /** Any list of valid items survives the reliable stream, however the bytes are chunked. */
  lemma ItemStreamRoundTrip(items: seq<FramedItem>, chunks: seq<seq<byte>>)
    requires forall i :: 0 <= i < |items| ==> ValidItem(items[i])
    requires Flatten(chunks) == ItemStream(items)
    ensures Feed(Parse, chunks) == Taken(items, None, [])
  {
    ItemsFit(items);
    StreamRoundTrip(Parse, ItemBytes, items, chunks);
  }
}
