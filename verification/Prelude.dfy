/** Small shared vocabulary: results, fixed-width unsigned integers, bytes and list flattening. */
module Prelude {

  datatype Option<+T> = None | Some(value: T)

  /** Usable with `:-`: an error leaves the enclosing function at once. */
  datatype Result<+T, +E> = Ok(value: T) | Err(error: E) {
    predicate IsFailure() { Err? }

    function PropagateFailure<U>(): Result<U, E>
      requires Err?
    {
      Err(error)
    }

    function Extract(): T
      requires Ok?
    {
      value
    }
  }

  const U16_LIMIT: nat := 0x1_0000
  const U32_LIMIT: nat := 0x1_0000_0000
  const U64_LIMIT: nat := 0x1_0000_0000_0000_0000

  type byte = x: int | 0 <= x < 256
  type u16 = x: int | 0 <= x < U16_LIMIT
  type u32 = x: int | 0 <= x < U32_LIMIT
  type u64 = x: int | 0 <= x < U64_LIMIT
  type i16 = x: int | -0x8000 <= x < 0x8000

  function Min(a: int, b: int): int {
    if a <= b then a else b
  }

  function Max(a: int, b: int): int {
    if a <= b then b else a
  }

  /** The low `count` bytes of `v` in two's complement, least significant first. */
  function LittleEndian(v: int, count: nat): (bytes: seq<byte>)
    ensures |bytes| == count
    decreases count
  {
    if count == 0 then [] else [v % 256] + LittleEndian(v / 256, count - 1)
  }

  /** All parts in order, as one sequence. */
  function Flatten<T>(parts: seq<seq<T>>): seq<T> {
    if parts == [] then [] else parts[0] + Flatten(parts[1..])
  }

  lemma {:induction false} FlattenAppend<T>(a: seq<seq<T>>, b: seq<seq<T>>)
    ensures Flatten(a + b) == Flatten(a) + Flatten(b)
  {
    if a == [] {
      assert a + b == b;
    } else {
      FlattenAppend(a[1..], b);
      assert (a + b)[0] == a[0] && (a + b)[1..] == a[1..] + b;
    }
  }

  lemma FlattenSnoc<T>(a: seq<seq<T>>, x: seq<T>)
    ensures Flatten(a + [x]) == Flatten(a) + x
  {
    FlattenAppend(a, [x]);
    assert Flatten([x]) == x + Flatten([]) == x;
  }

  /** Blocks of one positive size are determined by their concatenation. */
  lemma {:induction false} BlocksPrefix<T>(a: seq<seq<T>>, b: seq<seq<T>>, size: nat)
    requires size > 0 && (forall f <- a :: |f| == size) && (forall f <- b :: |f| == size)
    requires Flatten(a) <= Flatten(b)
    ensures a <= b
  {
    if a != [] {
      assert |Flatten(a)| >= size;
      assert b != [];
      assert Flatten(a)[..size] == a[0] && Flatten(b)[..size] == b[0];
      assert Flatten(a)[..size] == Flatten(b)[..size];
      assert Flatten(a)[size..] == Flatten(a[1..]) && Flatten(b)[size..] == Flatten(b[1..]);
      BlocksPrefix(a[1..], b[1..], size);
      assert a == [a[0]] + a[1..] && b == [b[0]] + b[1..];
    }
  }
}
