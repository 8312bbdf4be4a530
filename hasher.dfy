/** The 32-bit streaming variant of Bernstein's hash that combines with xor
    instead of +: start at 5381, then h := (33 * h) xor c for every byte c,
    wrapping at 2^32 (bv32 arithmetic wraps by definition). */
module Hasher {

  const Seed: bv32 := 5381

  /** One byte absorbed: xor-ing c back out leaves 33 * h, which is the
      shift-and-add (h << 5) + h of the classic formulation. */
  function Step(h: bv32, c: bv8): (r: bv32)
    ensures r ^ (c as bv32) == (h << 5) + h
  {
    (33 * h) ^ (c as bv32)
  }

  /** The state after absorbing `b` from state `h`, byte by byte from the left. */
  function Fold(h: bv32, b: seq<bv8>): (r: bv32)
    ensures b != [] ==> r == Fold(Step(h, b[0]), b[1..])
    decreases |b|
  {
    if b == [] then h
    else
      assert |b| > 1 ==> b[1..][..|b| - 2] == b[..|b| - 1][1..];
      Step(Fold(h, b[..|b| - 1]), b[|b| - 1])
  }

  /** The hash of a whole byte string. */
  function Djb2a(b: seq<bv8>): bv32 {
    Fold(Seed, b)
  }

  /** Absorbing a then b is absorbing a ++ b: the hash can be fed in pieces. */
  lemma {:induction false} FoldAppend(h: bv32, a: seq<bv8>, b: seq<bv8>)
    ensures Fold(h, a + b) == Fold(Fold(h, a), b)
    decreases |b|
  {
    if b == [] {
      assert a + b == a;
    } else {
      var b' := b[..|b| - 1];
      assert (a + b)[..|a + b| - 1] == a + b';
      FoldAppend(h, a, b');
    }
  }

  /** The four bytes Sum appends: the big-endian encoding of v. */
  function BigEndian(v: bv32): seq<bv8> {
    [(v >> 24) as bv8, ((v >> 16) & 0xFF) as bv8, ((v >> 8) & 0xFF) as bv8, (v & 0xFF) as bv8]
  }

  function FromBigEndian(b: seq<bv8>): bv32
    requires |b| == 4
  {
    ((b[0] as bv32) << 24) | ((b[1] as bv32) << 16) | ((b[2] as bv32) << 8) | (b[3] as bv32)
  }

  /** Known answers: 5381 * 33 = 177573 = 0x2B5A5, so "a" (0x61) and
      "b" (0x62) hash to 0x2B5C4 = 177604 and 0x2B5C7 = 177607. */
  lemma KnownAnswers()
    ensures Djb2a([0x61]) == 177604 && Djb2a([0x62]) == 177607
  {
    assert Fold(Seed, [0x61]) == Step(Seed, 0x61);
    assert Fold(Seed, [0x62]) == Step(Seed, 0x62);
  }

  lemma BigEndianRoundTrip(v: bv32)
    ensures |BigEndian(v)| == 4 && FromBigEndian(BigEndian(v)) == v
  {
  }

  /** The hasher object; its whole state is the 32-bit accumulator. */
  class Djb2aStringHash32 {
    var state: bv32

    /** newDjb32a: zero, then Reset. */
    constructor ()
      ensures state == Seed
    {
      state := 0;
      state := Seed;
    }

    method Size() returns (n: int)
      ensures n == |BigEndian(state)|
    {
      n := 4;
    }

    method BlockSize() returns (n: int)
      ensures n == 1
    {
      n := 1;
    }

    method Sum32() returns (v: bv32)
      ensures v == state
    {
      v := state;
    }

    method Reset()
      modifies this
      ensures state == Seed
    {
      state := Seed;
    }

    /** b followed by the big-endian bytes of the state; the state is kept. */
    method Sum(b: seq<bv8>) returns (r: seq<bv8>)
      ensures |r| == |b| + 4 && r[..|b|] == b
      ensures FromBigEndian(r[|b|..]) == state
    {
      r := b + BigEndian(state);
      assert r[|b|..] == BigEndian(state);
      BigEndianRoundTrip(state);
    }

    /** Absorb b; never fails, so Go's nil error is not modelled. */
    method Write(b: seq<bv8>) returns (n: int)
      modifies this
      ensures n == |b|
      ensures state == Fold(old(state), b)
    {
      var h := state;
      var i := 0;
      while i < |b|
        invariant 0 <= i <= |b|
        invariant h == Fold(old(state), b[..i])
      {
        assert b[..i + 1][..i] == b[..i];
        h := Step(h, b[i]);
        i := i + 1;
      }
      assert b[..|b|] == b;
      state := h;
      return |b|;
    }
  }
}
