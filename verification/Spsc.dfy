/**
 The bounded single-producer single-consumer byte ring: wrapping 64-bit cursors, a power-of-two capacity and a
 mask. This module has the cursor arithmetic and the ring driven by one thread; `SpscConcurrent` interleaves
 the two threads.
 */
module Spsc {
  import opened Prelude
  import opened Bits

  /** A non-zero power of two that fits the cursor. */
  predicate IsCapacity(cap: nat) {
    exists k: nat | k < 64 :: cap == Pow2(k)
  }

  /** The cursor after the unbounded count `n`. */
  function Wrapped(n: nat): u64 {
    n % U64_LIMIT
  }

  function WrappingSub(a: u64, b: u64): u64 {
    (a - b) % U64_LIMIT
  }

  function Masked(cursor: u64, cap: nat): nat
    requires cap > 0
  {
    And(cursor, cap - 1)
  }

  /** The slot of the byte at unbounded position `n`: positions go round the ring. */
  function SlotOf(n: nat, cap: nat): (slot: nat)
    requires cap > 0
    ensures slot < cap
  {
    if n < cap then n else SlotOf(n - cap, cap)
  }

  /** Where byte `i` of a block of `len` bytes goes when the block starts at slot `start`: head, then wrap to 0. */
  function Slot(start: nat, len: nat, cap: nat, i: nat): nat
    requires start < cap && i < len
  {
    var head := Min(len, cap - start);
    if i < head then start + i else i - head
  }

  // ---- Cursor arithmetic ----

  /** Wrapped cursors still measure their true distance, which never exceeds the capacity. */
  lemma DistanceSurvivesWrap(w: nat, r: nat)
    requires r <= w < r + U64_LIMIT
    ensures WrappingSub(Wrapped(w), Wrapped(r)) == w - r
  {
    var a, b := w / U64_LIMIT, r / U64_LIMIT;
    assert w == U64_LIMIT * a + w % U64_LIMIT && r == U64_LIMIT * b + r % U64_LIMIT;
    RemainderUnique(w % U64_LIMIT - r % U64_LIMIT, U64_LIMIT, b - a, w - r);
  }

  lemma WrappedAdvance(n: nat, d: nat)
    ensures (Wrapped(n) + d) % U64_LIMIT == Wrapped(n + d)
  {
    var q := n / U64_LIMIT;
    assert n == U64_LIMIT * q + n % U64_LIMIT;
    var m := Wrapped(n) + d;
    assert m == U64_LIMIT * (m / U64_LIMIT) + m % U64_LIMIT;
    RemainderUnique(n + d, U64_LIMIT, q + m / U64_LIMIT, m % U64_LIMIT);
  }

  lemma {:induction false} SlotOfIsRemainder(n: nat, cap: nat)
    requires cap > 0
    ensures SlotOf(n, cap) == n % cap
  {
    if n >= cap {
      SlotOfIsRemainder(n - cap, cap);
      var q := (n - cap) / cap;
      assert cap * (q + 1) == cap * q + cap;
      RemainderUnique(n, cap, q + 1, (n - cap) % cap);
    } else {
      RemainderUnique(n, cap, 0, n);
    }
  }

  lemma ProductPositive(m: nat, c: nat)
    requires m > 0 && c > 0
    ensures m * c > 0
  {
  }

  lemma RemainderOfRemainder(n: nat, m: nat, c: nat)
    requires m > 0 && c > 0
    ensures m * c > 0
    ensures n % (m * c) % c == n % c
  {
    ProductPositive(m, c);
    var q, r := n / (m * c), n % (m * c);
    assert n == (m * c) * q + r;
    var q', r' := r / c, r % c;
    assert r == c * q' + r';
    assert n == c * (m * q + q') + r' by {
      assert c * (m * q + q') == c * (m * q) + c * q';
      assert c * (m * q) == (m * c) * q;
    }
    RemainderUnique(n, c, m * q + q', r');
  }

  /** The capacity divides the cursor range, so masking a wrapped cursor finds the slot of the true position. */
  lemma MaskFindsSlot(n: nat, cap: nat)
    requires IsCapacity(cap)
    ensures cap > 0 && Masked(Wrapped(n), cap) == SlotOf(n, cap)
  {
    var k: nat :| k < 64 && cap == Pow2(k);
    MaskIsRemainder(Wrapped(n), k);
    Pow2Add(64 - k, k);
    WordWidths();
    RemainderOfRemainder(n, Pow2(64 - k), cap);
    SlotOfIsRemainder(n, cap);
  }

  /** An accepted capacity is smaller than the range of the cursors. */
  lemma CapacityFits(cap: nat)
    requires IsCapacity(cap)
    ensures 0 < cap < U64_LIMIT
  {
    var k: nat :| k < 64 && cap == Pow2(k);
    Pow2Monotone(k, 63);
    WordWidths();
  }

  /** Head and wrapped tail together visit the slots of positions `n`, `n + 1`, and so on. */
  lemma {:induction false} SlotsInOrder(n: nat, len: nat, cap: nat, i: nat)
    requires cap > 0 && i < len <= cap
    ensures Slot(SlotOf(n, cap), len, cap, i) == SlotOf(n + i, cap)
  {
    if n >= cap { SlotsInOrder(n - cap, len, cap, i); }
  }

  /** Positions less than a capacity apart occupy different slots. */
  lemma {:induction false} SlotsDiffer(a: nat, b: nat, cap: nat)
    requires a < b < a + cap
    ensures SlotOf(a, cap) != SlotOf(b, cap)
  {
    if a >= cap { SlotsDiffer(a - cap, b - cap, cap); }
  }

  // ---- Slots and the queue they hold ----

  /** The `n` bytes from position `r` on. */
  ghost function View(slots: seq<byte>, r: nat, n: nat): (bytes: seq<byte>)
    requires |slots| > 0
    ensures |bytes| == n
  {
    seq(n, i requires 0 <= i < n => slots[SlotOf(r + i, |slots|)])
  }

  /** The slots once `data` was copied in from `start` on, continuing at slot 0. */
  ghost function Filled(slots: seq<byte>, start: nat, data: seq<byte>): (filled: seq<byte>)
    requires start < |slots| && |data| <= |slots|
    ensures |filled| == |slots|
  {
    var head := Min(|data|, |slots| - start);
    seq(|slots|, k requires 0 <= k < |slots| =>
      if start <= k < start + head then data[k - start]
      else if k < |data| - head then data[head + k]
      else slots[k])
  }

  /** What is copied out from `start` on, continuing at slot 0. */
  ghost function Gathered(slots: seq<byte>, start: nat, n: nat): (bytes: seq<byte>)
    requires start < |slots| && n <= |slots|
    ensures |bytes| == n
  {
    seq(n, i requires 0 <= i < n => slots[Slot(start, n, |slots|, i)])
  }

  /** Filling the free slots appends to the queue and disturbs nothing in it. */
  lemma FillAppends(slots: seq<byte>, r: nat, n: nat, data: seq<byte>)
    requires |slots| > 0 && n + |data| <= |slots|
    ensures View(Filled(slots, SlotOf(r + n, |slots|), data), r, n + |data|) == View(slots, r, n) + data
  {
    var cap := |slots|;
    var start := SlotOf(r + n, cap);
    var filled := Filled(slots, start, data);
    forall i | 0 <= i < n + |data|
      ensures filled[SlotOf(r + i, cap)] == (View(slots, r, n) + data)[i]
    {
      if i < n {
        FillSpares(slots, r + n, data, r + i);
      } else {
        SlotsInOrder(r + n, |data|, cap, i - n);
      }
    }
  }

  /** A slot outside the filled stretch keeps its byte. */
  lemma FillSpares(slots: seq<byte>, w: nat, data: seq<byte>, p: nat)
    requires |data| <= |slots| && 0 < |slots| && p < w && w + |data| <= p + |slots|
    ensures Filled(slots, SlotOf(w, |slots|), data)[SlotOf(p, |slots|)] == slots[SlotOf(p, |slots|)]
  {
    var cap := |slots|;
    var start, k := SlotOf(w, cap), SlotOf(p, cap);
    var head := Min(|data|, cap - start);
    if start <= k < start + head {
      SlotsInOrder(w, |data|, cap, k - start);
      SlotsDiffer(p, w + (k - start), cap);
    } else if k < |data| - head {
      SlotsInOrder(w, |data|, cap, head + k);
      SlotsDiffer(p, w + (head + k), cap);
    }
  }

  /** Gathering from the front of the queue takes its oldest bytes. */
  lemma GatherTakes(slots: seq<byte>, r: nat, n: nat, total: nat)
    requires 0 < |slots| && n <= total <= |slots|
    ensures View(slots, r, total) == Gathered(slots, SlotOf(r, |slots|), n) + View(slots, r + n, total - n)
  {
    var out := Gathered(slots, SlotOf(r, |slots|), n);
    forall i | 0 <= i < total
      ensures View(slots, r, total)[i] == (out + View(slots, r + n, total - n))[i]
    {
      if i < n {
        SlotsInOrder(r, n, |slots|, i);
      } else {
        assert r + i == r + n + (i - n);
      }
    }
  }

  // ---- The ring, driven by one thread ----

  class SpscRing {
    const cap: nat
    const buf: array<byte>
    var writePos: u64
    var readPos: u64
    /** How many bytes were ever published and ever consumed; the cursors are these counts, wrapped. */
    ghost var written: nat
    ghost var consumed: nat

    ghost predicate Valid()
      reads this, buf
    {
      && IsCapacity(cap) && 0 < cap < U64_LIMIT && buf.Length == cap
      && consumed <= written <= consumed + cap
      && writePos == Wrapped(written) && readPos == Wrapped(consumed)
    }

    /** The bytes in the ring, oldest first. */
    ghost function Contents(): (bytes: seq<byte>)
      requires Valid()
      reads this, buf
      ensures |bytes| == written - consumed
    {
      View(buf[..], consumed, written - consumed)
    }

    /** Only a non-zero power of two is accepted; the original panics on anything else. */
    constructor WithCapacity(cap: nat)
      requires IsCapacity(cap)
      ensures Valid() && fresh(buf) && this.cap == cap && Contents() == []
    {
      CapacityFits(cap);
      this.cap := cap;
      buf := new byte[cap](_ => 0);
      writePos, readPos := 0, 0;
      written, consumed := 0, 0;
    }

    method FreeSpace() returns (n: nat)
      requires Valid()
      ensures n == cap - |Contents()|
    {
      DistanceSurvivesWrap(written, consumed);
      n := cap - WrappingSub(writePos, readPos);
    }

    method AvailableLen() returns (n: nat)
      requires Valid()
      ensures n == |Contents()|
    {
      DistanceSurvivesWrap(written, consumed);
      n := WrappingSub(writePos, readPos);
    }

    /** All of `data` goes in, or nothing does. */
    method TryPush(data: seq<byte>) returns (ok: bool)
      requires Valid()
      modifies this`writePos, this`written, buf
      ensures Valid()
      ensures ok <==> |old(Contents())| + |data| <= cap
      ensures Contents() == if ok then old(Contents()) + data else old(Contents())
    {
      if |data| > cap {
        return false;
      }
      DistanceSurvivesWrap(written, consumed);
      if |data| > cap - WrappingSub(writePos, readPos) {
        return false;
      }
      MaskFindsSlot(written, cap);
      var start := Masked(writePos, cap);
      StoreAround(start, data);
      FillAppends(old(buf[..]), consumed, written - consumed, data);
      WrappedAdvance(written, |data|);
      writePos := (writePos + |data|) % U64_LIMIT;
      written := written + |data|;
      ok := true;
    }

    /** `out` is filled completely with the oldest bytes, or nothing happens. */
    method TryPopExact(out: array<byte>) returns (ok: bool)
      requires Valid() && out != buf
      modifies this`readPos, this`consumed, out
      ensures Valid()
      ensures ok <==> out.Length <= |old(Contents())|
      ensures ok ==> old(Contents()) == out[..] + Contents()
      ensures !ok ==> Contents() == old(Contents()) && out[..] == old(out[..])
    {
      DistanceSurvivesWrap(written, consumed);
      if out.Length > WrappingSub(writePos, readPos) {
        return false;
      }
      MaskFindsSlot(consumed, cap);
      var start := Masked(readPos, cap);
      LoadAround(start, out);
      GatherTakes(buf[..], consumed, out.Length, written - consumed);
      WrappedAdvance(consumed, out.Length);
      readPos := (readPos + out.Length) % U64_LIMIT;
      consumed := consumed + out.Length;
      ok := true;
    }

    /** The copying half of a push: up to the end of the buffer, then from slot 0. */
    method StoreAround(start: nat, data: seq<byte>)
      requires buf.Length == cap && start < cap && |data| <= cap
      modifies buf
      ensures buf[..] == Filled(old(buf[..]), start, data)
    {
      var head := Min(|data|, cap - start);
      CopyIn(start, data[..head]);
      if head < |data| {
        CopyIn(0, data[head..]);
      }
    }

    /** The copying half of a pop. */
    method LoadAround(start: nat, out: array<byte>)
      requires buf.Length == cap && start < cap && out.Length <= cap && out != buf
      modifies out
      ensures out[..] == Gathered(buf[..], start, out.Length)
    {
      var head := Min(out.Length, cap - start);
      CopyOut(start, out, 0, head);
      if head < out.Length {
        CopyOut(0, out, head, out.Length);
      }
    }

    method CopyIn(start: nat, src: seq<byte>)
      requires start + |src| <= buf.Length
      modifies buf
      ensures forall k :: 0 <= k < buf.Length ==>
                buf[k] == if start <= k < start + |src| then src[k - start] else old(buf[k])
    {
      for i := 0 to |src|
        invariant forall k :: 0 <= k < buf.Length ==>
                    buf[k] == if start <= k < start + i then src[k - start] else old(buf[k])
      {
        buf[start + i] := src[i];
      }
    }

    /** Fills `dst[lo..hi]` from consecutive slots. */
    method CopyOut(start: nat, dst: array<byte>, lo: nat, hi: nat)
      requires dst != buf && lo <= hi <= dst.Length && start + (hi - lo) <= buf.Length
      modifies dst
      ensures forall k :: 0 <= k < dst.Length ==>
                dst[k] == if lo <= k < hi then buf[start + (k - lo)] else old(dst[k])
    {
      for i := 0 to hi - lo
        invariant forall k :: 0 <= k < dst.Length ==>
                    dst[k] == if lo <= k < lo + i then buf[start + (k - lo)] else old(dst[k])
      {
        dst[lo + i] := buf[start + i];
      }
    }
  }
}
