/**
 Byte-level vocabulary shared by the codecs.  Bit masks of the source are written as
 arithmetic: `b & 0xE0 == 0x20` is `b / 32 == 1`, `flags | v` is `flags + v` when the
 low bits of `flags` are clear.
 */
module Bytes {

  type Byte = x: int | 0 <= x < 256

  /** One past the largest UInt64; checked 64-bit arithmetic raises at this bound. */
  const U64 := 0x1_0000_0000_0000_0000

  /** One past the largest Int32; `to_i` raises at this bound. */
  const I32 := 0x8000_0000

  datatype Option<+T> = None | Some(value: T)

  /** The outcome of reading from a byte stream: a value and the unread suffix, or an exception. */
  datatype Read<+T> = Got(value: T, rest: seq<Byte>) | Raised {
    predicate IsFailure() { Raised? }

    function PropagateFailure<U>(): Read<U>
      requires Raised?
    {
      Raised
    }

    function Extract(): (T, seq<Byte>)
      requires Got?
    {
      (value, rest)
    }
  }

  function Min(a: int, b: int): int { if a <= b then a else b }

  function Max(a: int, b: int): int { if a <= b then b else a }

  lemma Assoc<T>(a: seq<T>, b: seq<T>, c: seq<T>)
    ensures a + b + c == a + (b + c)
  {
  }

  /** What `f` makes of each element, concatenated. */
  function FlatMap<A, B>(f: A -> seq<B>, s: seq<A>): seq<B> {
    if s == [] then [] else f(s[0]) + FlatMap(f, s[1..])
  }

  lemma {:induction false} FlatMapAppend<A, B>(f: A -> seq<B>, a: seq<A>, b: seq<A>)
    ensures FlatMap(f, a + b) == FlatMap(f, a) + FlatMap(f, b)
  {
    if a == [] {
      assert a + b == b;
    } else {
      assert (a + b)[1..] == a[1..] + b;
      FlatMapAppend(f, a[1..], b);
      Assoc(f(a[0]), FlatMap(f, a[1..]), FlatMap(f, b));
    }
  }

  lemma FlatMapOne<A, B>(f: A -> seq<B>, x: A)
    ensures FlatMap(f, [x]) == f(x)
  {
    assert [x][1..] == [];
  }

  /** What `f` makes of each element, added up. */
  function Sum<A>(f: A -> nat, s: seq<A>): nat {
    if s == [] then 0 else f(s[0]) + Sum(f, s[1..])
  }

  lemma {:induction false} SumAppend<A>(f: A -> nat, a: seq<A>, b: seq<A>)
    ensures Sum(f, a + b) == Sum(f, a) + Sum(f, b)
  {
    if a == [] {
      assert a + b == b;
    } else {
      assert (a + b)[1..] == a[1..] + b;
      SumAppend(f, a[1..], b);
    }
  }

  lemma SumOne<A>(f: A -> nat, x: A)
    ensures Sum(f, [x]) == f(x)
  {
    assert [x][1..] == [];
  }

  function Chunk<T>(c: seq<T>): seq<T> { c }

  /** Concatenation of a sequence of chunks. */
  function Flatten<T>(chunks: seq<seq<T>>): seq<T> { FlatMap(Chunk, chunks) }

  lemma FlattenSnoc<T>(a: seq<seq<T>>, x: seq<T>)
    ensures Flatten(a + [x]) == Flatten(a) + x
  {
    FlatMapAppend(Chunk<T>, a, [x]);
    FlatMapOne(Chunk<T>, x);
  }

  /** A buffer in pieces of a given size. */
  function Split(buf: seq<Byte>, size: nat): seq<seq<Byte>>
    requires size > 0
    decreases |buf|
  {
    if buf == [] then []
    else
      var n := Min(size, |buf|);
      [buf[..n]] + Split(buf[n..], size)
  }

  /** All segments are full but the last, which holds at least a byte. */
  predicate EvenCut(segs: seq<seq<Byte>>, size: nat) {
    && (forall i :: 0 <= i < |segs| ==> 0 < |segs[i]| <= size)
    && (forall i :: 0 <= i < |segs| - 1 ==> |segs[i]| == size)
  }

  lemma EvenCutCons(first: seq<Byte>, rest: seq<seq<Byte>>, size: nat)
    requires EvenCut(rest, size) && 0 < |first| <= size && (rest != [] ==> |first| == size)
    ensures EvenCut([first] + rest, size)
  {
  }

  /** Cutting loses nothing: full segments, and a last one that may be shorter. */
  lemma {:induction false} SplitCovers(buf: seq<Byte>, size: nat)
    requires size > 0
    ensures Flatten(Split(buf, size)) == buf && EvenCut(Split(buf, size), size)
    decreases |buf|
  {
    if buf != [] {
      var n := Min(size, |buf|);
      var rest := Split(buf[n..], size);
      SplitCovers(buf[n..], size);
      EvenCutCons(buf[..n], rest, size);
      assert ([buf[..n]] + rest)[1..] == rest;
    }
  }
}
