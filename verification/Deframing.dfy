/**
 Length-prefixed items on a reliable byte stream: the prefix, and the incremental decoder that cuts whatever
 bytes have arrived back into items. The decoder does not care what an item is, so it takes the item parser as
 an argument; `Framing` supplies the one of the repository.
 */
module Deframing {
  import opened Prelude
  import opened Bits
  import opened Crc32
  import opened Frames

  const MAX_FRAME_TOTAL: nat := HEADER_MAX_LEN + MAX_FRAME_PAYLOAD
  const END_LEN: nat := 13
  const MAX_ITEM: nat := MAX_FRAME_TOTAL + END_LEN

  datatype FramingError = Malformed | Bounds | FramePayloadOverflow

  type Parser<!T> = seq<byte> -> Result<T, FramingError>

  lemma {:induction false} LittleEndianRoundTrip(v: nat, count: nat)
    requires v < Pow2(8 * count)
    ensures Word(LittleEndian(v, count)) == v
    decreases count
  {
    if count > 0 {
      Pow2Add(8, 8 * (count - 1));
      assert Pow2(8) == 256;
      LittleEndianRoundTrip(v / 256, count - 1);
      assert LittleEndian(v, count)[1..] == LittleEndian(v / 256, count - 1);
    } else {
      assert 8 * count == 0;
    }
  }

  function WrapItem(bytes: seq<byte>): (wrapped: seq<byte>)
    requires |bytes| < U16_LIMIT
    ensures |wrapped| == 2 + |bytes|
  {
    LittleEndian(|bytes|, 2) + bytes
  }

  datatype Taken<T> = Taken(items: seq<T>, error: Option<FramingError>, rest: seq<byte>)

  function PrefixLength(buf: seq<byte>): nat
    requires |buf| >= 2
  {
    buf[0] as int + 256 * buf[1] as int
  }

  function PrependAll<T>(items: seq<T>, t: Taken<T>): Taken<T> {
    t.(items := items + t.items)
  }

  /** Every complete item at the front of `buf`, the first failure, and the bytes left in the buffer. */
  function Take<T>(parse: Parser<T>, buf: seq<byte>): Taken<T>
    decreases |buf|
  {
    if |buf| < 2 then Taken([], None, buf)
    else
      var len := PrefixLength(buf);
      if len > MAX_ITEM then Taken([], Some(Bounds), buf)
      else if |buf| < 2 + len then Taken([], None, buf)
      else
        match parse(buf[2..2 + len])
        case Ok(item) => PrependAll([item], Take(parse, buf[2 + len..]))
        case Err(e) => Taken([], Some(e), buf[2 + len..])
  }

  /** The buffer of one reliable stream. */
  class StreamBuffer<T> {
    var buf: seq<byte>
    const parse: Parser<T>

    constructor (parse: Parser<T>)
      ensures buf == [] && this.parse == parse
    {
      this.parse := parse;
      buf := [];
    }

    method Extend(bytes: seq<byte>)
      modifies this
      ensures buf == old(buf) + bytes
    {
      buf := buf + bytes;
    }

    /** Drains complete items; an oversized length stays in the buffer, a malformed item is consumed. */
    method TakeStreamItems() returns (items: seq<T>, error: Option<FramingError>)
      modifies this
      ensures Taken(items, error, buf) == Take(parse, old(buf))
    {
      items, error := [], None;
      while true
        invariant Take(parse, old(buf)) == PrependAll(items, Take(parse, buf))
        decreases |buf|
      {
        if |buf| < 2 {
          break;
        }
        var len := PrefixLength(buf);
        if len > MAX_ITEM {
          return items, Some(Bounds);
        }
        if |buf| < 2 + len {
          break;
        }
        var itemBytes := buf[2..2 + len];
        ghost var before := buf;
        buf := buf[2 + len..];
        match parse(itemBytes)
        case Ok(item) =>
          assert items + Take(parse, before).items == (items + [item]) + Take(parse, buf).items;
          items := items + [item];
        case Err(e) =>
          return items, Some(e);
      }
    }
  }

  // ---- Chunking does not matter ----

  lemma PrependTwice<T>(xs: seq<T>, ys: seq<T>, t: Taken<T>)
    ensures PrependAll(xs, PrependAll(ys, t)) == PrependAll(xs + ys, t)
  {
    assert xs + (ys + t.items) == (xs + ys) + t.items;
  }

  /** What `Take` does with a buffer whose first item is complete; later bytes do not change it. */
  lemma TakeFirst<T>(parse: Parser<T>, a: seq<byte>, b: seq<byte>)
    requires |a| >= 2 && PrefixLength(a) <= MAX_ITEM && |a| >= 2 + PrefixLength(a)
    ensures var len := PrefixLength(a);
            Take(parse, a + b) == match parse(a[2..2 + len])
                                  case Ok(item) => PrependAll([item], Take(parse, a[2 + len..] + b))
                                  case Err(e) => Taken([], Some(e), a[2 + len..] + b)
  {
    var len := PrefixLength(a);
    assert PrefixLength(a + b) == len;
    assert (a + b)[2..2 + len] == a[2..2 + len];
    assert (a + b)[2 + len..] == a[2 + len..] + b;
  }

  /** `whole` is what `t` becomes once the bytes `b` follow. */
  ghost predicate Resumed<T>(parse: Parser<T>, t: Taken<T>, whole: Taken<T>, b: seq<byte>) {
    whole == if t.error.None? then PrependAll(t.items, Take(parse, t.rest + b)) else t.(rest := t.rest + b)
  }

  lemma ResumedBehind<T>(parse: Parser<T>, item: T, t: Taken<T>, whole: Taken<T>, b: seq<byte>)
    requires Resumed(parse, t, whole, b)
    ensures Resumed(parse, PrependAll([item], t), PrependAll([item], whole), b)
  {
    PrependTwice([item], t.items, Take(parse, t.rest + b));
  }

  /** Taking from a longer buffer continues where taking from its front stopped. */
  lemma {:induction false} TakeResumes<T>(parse: Parser<T>, a: seq<byte>, b: seq<byte>)
    ensures Resumed(parse, Take(parse, a), Take(parse, a + b), b)
    decreases |a|
  {
    if |a| >= 2 && PrefixLength(a) <= MAX_ITEM && |a| >= 2 + PrefixLength(a) {
      var len := PrefixLength(a);
      var rest := a[2 + len..];
      TakeFirst(parse, a, b);
      match parse(a[2..2 + len])
      case Ok(item) =>
        TakeResumes(parse, rest, b);
        ResumedBehind(parse, item, Take(parse, rest), Take(parse, rest + b), b);
      case Err(_) =>
    } else if |a| >= 2 {
      assert PrefixLength(a + b) == PrefixLength(a);
    }
  }

  /** Feeding the chunks one by one, taking items after each, and stopping at the first failure. */
  function Feed<T>(parse: Parser<T>, chunks: seq<seq<byte>>): Taken<T> {
    if chunks == [] then Taken([], None, [])
    else
      var before := Feed(parse, chunks[..|chunks| - 1]);
      if before.error.Some? then before
      else PrependAll(before.items, Take(parse, before.rest + chunks[|chunks| - 1]))
  }

  /** However a stream is cut into chunks, its items and its first failure are those of the whole stream. */
  lemma {:induction false} FeedIsTake<T>(parse: Parser<T>, chunks: seq<seq<byte>>)
    ensures Feed(parse, chunks).items == Take(parse, Flatten(chunks)).items
    ensures Feed(parse, chunks).error == Take(parse, Flatten(chunks)).error
    ensures Feed(parse, chunks).error.None? ==> Feed(parse, chunks).rest == Take(parse, Flatten(chunks)).rest
  {
    if chunks != [] {
      var front, last := chunks[..|chunks| - 1], chunks[|chunks| - 1];
      FeedIsTake(parse, front);
      assert chunks == front + [last];
      FlattenSnoc(front, last);
      TakeResumes(parse, Flatten(front), last);
    }
  }

  /** Less than one item: not even a prefix, or a prefix within bounds without its whole body. */
  predicate Partial(rest: seq<byte>) {
    |rest| < 2 || (PrefixLength(rest) <= MAX_ITEM && |rest| < 2 + PrefixLength(rest))
  }

  /** After a failure-free call what stays buffered is less than one item, whatever bytes arrived. */
  lemma {:induction false} ResidueIsPartial<T>(parse: Parser<T>, buf: seq<byte>)
    requires Take(parse, buf).error.None?
    ensures Partial(Take(parse, buf).rest) && |Take(parse, buf).rest| < 2 + MAX_ITEM
    decreases |buf|
  {
    if |buf| >= 2 {
      var len := PrefixLength(buf);
      if |buf| >= 2 + len { ResidueIsPartial(parse, buf[2 + len..]); }
    }
  }

  // ---- Streams of well-formed items ----

  /** The parser understands what the writer writes, and the writer stays within the item bound. */
  ghost predicate RoundTrips<T>(parse: Parser<T>, write: T -> seq<byte>, item: T) {
    parse(write(item)) == Ok(item) && |write(item)| <= MAX_ITEM
  }

  ghost predicate AllRoundTrip<T>(parse: Parser<T>, write: T -> seq<byte>, items: seq<T>) {
    forall i :: 0 <= i < |items| ==> RoundTrips(parse, write, items[i])
  }

  /** The reliable-stream image of a list of items. */
  function Stream<T>(write: T -> seq<byte>, items: seq<T>): seq<byte>
    requires forall i :: 0 <= i < |items| ==> |write(items[i])| <= MAX_ITEM
  {
    if items == [] then [] else WrapItem(write(items[0])) + Stream(write, items[1..])
  }

  lemma WrapPrefix(body: seq<byte>, tail: seq<byte>)
    requires |body| <= MAX_ITEM
    ensures PrefixLength(WrapItem(body) + tail) == |body|
    ensures (WrapItem(body) + tail)[2..2 + |body|] == body
    ensures (WrapItem(body) + tail)[2 + |body|..] == tail
  {
    assert LittleEndian(|body|, 2) == [|body| % 256] + LittleEndian(|body| / 256, 1);
    assert LittleEndian(|body| / 256, 1) == [|body| / 256];
    assert (WrapItem(body) + tail)[0] == |body| % 256;
    assert (WrapItem(body) + tail)[1] == |body| / 256;
  }

  lemma WholeTake<T>(parse: Parser<T>, body: seq<byte>, tail: seq<byte>)
    requires |body| <= MAX_ITEM && parse(body).Ok?
    ensures Take(parse, WrapItem(body) + tail) == PrependAll([parse(body).value], Take(parse, tail))
  {
    WrapPrefix(body, tail);
  }

  lemma PartialTake<T>(parse: Parser<T>, body: seq<byte>, part: seq<byte>)
    requires |body| <= MAX_ITEM && part < WrapItem(body)
    ensures Take(parse, part) == Taken([], None, part)
  {
    WrapPrefix(body, []);
    assert WrapItem(body) + [] == WrapItem(body);
    assert |part| >= 2 ==> PrefixLength(part) == PrefixLength(WrapItem(body));
  }

  /** Whole items at the front of the buffer are taken before anything else is looked at. */
  lemma {:induction false} StreamThen<T>(parse: Parser<T>, write: T -> seq<byte>, items: seq<T>, tail: seq<byte>)
    requires AllRoundTrip(parse, write, items)
    ensures Take(parse, Stream(write, items) + tail) == PrependAll(items, Take(parse, tail))
    decreases |items|
  {
    if items == [] {
      assert Stream(write, items) + tail == tail;
    } else {
      assert RoundTrips(parse, write, items[0]);
      forall i | 0 <= i < |items[1..]| ensures RoundTrips(parse, write, items[1..][i]) {
        assert items[1..][i] == items[i + 1];
      }
      var head, rest := WrapItem(write(items[0])), Stream(write, items[1..]);
      calc {
        Take(parse, Stream(write, items) + tail);
      ==  { assert (head + rest) + tail == head + (rest + tail); }
        Take(parse, head + (rest + tail));
      ==  { WholeTake(parse, write(items[0]), rest + tail); }
        PrependAll([items[0]], Take(parse, rest + tail));
      ==  { StreamThen(parse, write, items[1..], tail); }
        PrependAll([items[0]], PrependAll(items[1..], Take(parse, tail)));
      ==  { PrependTwice([items[0]], items[1..], Take(parse, tail)); }
        PrependAll([items[0]] + items[1..], Take(parse, tail));
      }
      assert [items[0]] + items[1..] == items;
    }
  }

  /** A prefix of an item stream is some whole items and a proper prefix of the next one. */
  lemma {:induction false} CutStream<T>(write: T -> seq<byte>, items: seq<T>, p: seq<byte>)
    returns (k: nat, part: seq<byte>)
    requires forall i :: 0 <= i < |items| ==> |write(items[i])| <= MAX_ITEM
    requires p <= Stream(write, items)
    ensures k <= |items| && p == Stream(write, items[..k]) + part
    ensures if k < |items| then part < WrapItem(write(items[k])) else part == []
    decreases |items|
  {
    if items == [] {
      return 0, [];
    }
    var head, tail := WrapItem(write(items[0])), Stream(write, items[1..]);
    if |p| < |head| {
      assert p == (head + tail)[..|p|] == head[..|p|];
      return 0, p;
    }
    assert p == head + p[|head|..];
    assert p[|head|..] <= tail by { assert (head + tail)[|head|..] == tail; }
    var j;
    j, part := CutStream(write, items[1..], p[|head|..]);
    k := j + 1;
    assert items[..k][0] == items[0] && items[..k][1..] == items[1..][..j];
    assert head + (Stream(write, items[1..][..j]) + part) == (head + Stream(write, items[1..][..j])) + part;
  }

  /** Whatever prefix of a stream has arrived, its whole items are out and a proper part of the next is kept. */
  lemma StreamPrefix<T>(parse: Parser<T>, write: T -> seq<byte>, items: seq<T>, p: seq<byte>)
    returns (k: nat, part: seq<byte>)
    requires AllRoundTrip(parse, write, items)
    requires p <= Stream(write, items)
    ensures k <= |items| && p == Stream(write, items[..k]) + part
    ensures if k < |items| then part < WrapItem(write(items[k])) else part == []
    ensures Take(parse, p) == Taken(items[..k], None, part)
  {
    k, part := CutStream(write, items, p);
    StreamThen(parse, write, items[..k], part);
    if k < |items| {
      assert RoundTrips(parse, write, items[k]);
      PartialTake(parse, write(items[k]), part);
    }
  }

  /** A stream of such items, cut into chunks in any way, comes out as the same items and an empty buffer. */
  lemma StreamRoundTrip<T>(parse: Parser<T>, write: T -> seq<byte>, items: seq<T>, chunks: seq<seq<byte>>)
    requires AllRoundTrip(parse, write, items)
    requires Flatten(chunks) == Stream(write, items)
    ensures Feed(parse, chunks) == Taken(items, None, [])
  {
    FeedIsTake(parse, chunks);
    StreamThen(parse, write, items, []);
    assert Stream(write, items) + [] == Stream(write, items);
  }
}
