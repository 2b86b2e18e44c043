/**
  The deterministic counter-based stand-in for a random-number generator
  that the firmware hands to the TLS handshake while debugging. It holds
  one u32 counter; every draw bumps the counter (wrapping at 2^32) and
  returns it. Only these exact outputs are specified; the generator makes
  no claim to randomness.
 */
module Rng {
  import opened Words

  /** The error type of `try_fill_bytes`; this generator never produces it. */
  datatype RandError = RandError

  datatype Result<T> = Ok(value: T) | Err(error: RandError)

  /** The counter after one `next_u32`, which is also the value that call returns. */
  function Successor(c: u32): (r: u32)
    ensures c < U32_MAX ==> r == c + 1
    ensures c == U32_MAX ==> r == 0
  {
    WrappingAdd(c, 1)
  }

  /** `Successor` is addition of one modulo 2^32, whatever multiple of 2^32 is dropped first. */
  lemma SuccessorMod(x: nat)
    ensures Successor(x % U32_MODULUS) == (x + 1) % U32_MODULUS
  {
  }

  /** The values returned by `k` successive calls of `next_u32` starting from counter `c`. */
  function Draws(c: u32, k: nat): (r: seq<u32>)
    ensures |r| == k
    decreases k
  {
    if k == 0 then [] else [Successor(c)] + Draws(Successor(c), k - 1)
  }

  /** The `j`-th of those draws (counting from 0) is `c + j + 1` modulo 2^32. */
  lemma {:induction false} DrawsAt(c: u32, k: nat, j: nat)
    requires j < k
    ensures Draws(c, k)[j] == (c + j + 1) % U32_MODULUS
    decreases j
  {
    if j > 0 {
      DrawsAt(Successor(c), k - 1, j - 1);
      StreamWordShift(c, j - 1);
    } else {
      SuccessorMod(c);
    }
  }

  /**
    A fresh generator (counter 0) returns 1, 2, 3, ... : its `k`-th call
    returns `k` modulo 2^32, so the 2^32-th call returns 0.
   */
  lemma FreshDraws(k: nat, j: nat)
    requires j < k
    ensures Draws(0, k)[j] == (j + 1) % U32_MODULUS
  {
    DrawsAt(0, k, j);
  }

  /**
    What `next_u64` returns from counter `c`: the first draw in the upper
    half, the second in the lower half.
   */
  function NextU64Value(c: u32): (r: u64)
    ensures r == ((c + 1) % U32_MODULUS) * U32_MODULUS + (c + 2) % U32_MODULUS
  {
    SuccessorMod(c);
    SuccessorMod(c + 1);
    Join64(Successor(c), Successor(Successor(c)))
  }

  /** How many counter steps a buffer of `n` bytes takes: one per started 4-byte chunk, so ⌈n/4⌉. */
  function ChunkCount(n: nat): (r: nat)
    ensures 4 * r >= n
    ensures r > 0 ==> 4 * (r - 1) < n
  {
    (n + 3) / 4
  }

  /** The word whose bytes fill chunk `q` of a buffer filled from counter `c`. */
  function StreamWord(c: u32, q: nat): (r: u32)
  {
    (c + q + 1) % U32_MODULUS
  }

  /** Byte `j` of a buffer filled from counter `c`: byte `j % 4`, little-endian, of word `j / 4`. */
  function StreamByte(c: u32, j: nat): (r: u8)
  {
    ToLeBytes(StreamWord(c, j / 4))[j % 4]
  }

  /**
    The bytes `fill_bytes` writes into an `n`-byte buffer from counter `c`,
    chunk by chunk as `chunks_mut(4)` visits them: each chunk takes a fresh
    draw, and the last chunk, when shorter than 4, takes the leading bytes.
   */
  function FillStream(c: u32, n: nat): (r: seq<u8>)
    ensures |r| == n
    decreases n
  {
    if n == 0 then []
    else
      var v := Successor(c);
      var k := if n < 4 then n else 4;
      ToLeBytes(v)[..k] + FillStream(v, n - k)
  }

  /** Byte by byte, the chunked fill agrees with the closed form `StreamByte`. */
  lemma {:induction false} FillStreamAt(c: u32, n: nat, j: nat)
    requires j < n
    ensures FillStream(c, n)[j] == StreamByte(c, j)
    decreases n
  {
    var v := Successor(c);
    var k := if n < 4 then n else 4;
    var head, tail := ToLeBytes(v)[..k], FillStream(v, n - k);
    assert FillStream(c, n) == head + tail;
    if j < 4 {
      SuccessorMod(c);
      assert StreamWord(c, j / 4) == v;
    } else {
      FillStreamAt(v, n - 4, j - 4);
      StreamByteShift(c, j);
    }
  }

  /** Byte `j` from counter `c` is byte `j - 4` from the next counter value. */
  lemma StreamByteShift(c: u32, j: nat)
    requires j >= 4
    ensures StreamByte(Successor(c), j - 4) == StreamByte(c, j)
  {
    StreamWordShift(c, (j - 4) / 4);
    assert (j - 4) / 4 + 1 == j / 4 && (j - 4) % 4 == j % 4;
  }

  /** Filling from the next counter value is filling from one chunk further on. */
  lemma StreamWordShift(c: u32, q: nat)
    ensures StreamWord(Successor(c), q) == StreamWord(c, q + 1)
  {
  }

  /** The generator's state: the counter of `SimpleRng`. */
  class SimpleRng {
    var counter: u32

    /** `SimpleRng::new`: the counter starts at 0. */
    constructor ()
      ensures counter == 0
    {
      counter := 0;
    }

    /** `next_u32`: bump the counter, wrapping at 2^32, and return its new value. */
    method NextU32() returns (r: u32)
      modifies this
      ensures counter == Successor(old(counter))
      ensures r == counter
    {
      counter := WrappingAdd(counter, 1);
      r := counter;
    }

    /** `next_u64`: two draws, the first in the upper half of the result. */
    method NextU64() returns (r: u64)
      modifies this
      ensures r == NextU64Value(old(counter))
      ensures counter == (old(counter) + 2) % U32_MODULUS
    {
      ghost var c := counter;
      var upper := NextU32();
      var lower := NextU32();
      r := Join64(upper, lower);
      SuccessorMod(c as int + 1);
    }

    /**
      `fill_bytes`: for each 4-byte chunk of `dest`, draw once and copy the
      draw's little-endian bytes into the chunk (only the leading ones into
      a short last chunk). The counter moves once per chunk.
     */
    method FillBytes(dest: array<u8>)
      modifies this, dest
      ensures dest[..] == FillStream(old(counter), dest.Length)
      ensures forall j :: 0 <= j < dest.Length ==> dest[j] == StreamByte(old(counter), j)
      ensures counter == (old(counter) + ChunkCount(dest.Length)) % U32_MODULUS
      ensures dest.Length == 0 ==> counter == old(counter)
    {
      ghost var c := counter;
      var start := 0;
      ghost var chunk := 0;
      while start < dest.Length
        invariant 0 <= start <= dest.Length
        invariant start == 4 * chunk || (start == dest.Length && chunk == ChunkCount(dest.Length))
        invariant start < dest.Length ==> start == 4 * chunk
        invariant counter == (c + chunk) % U32_MODULUS
        invariant forall j :: 0 <= j < start ==> dest[j] == StreamByte(c, j)
      {
        var rand := NextU32();
        SuccessorMod(c + chunk);
        assert rand == StreamWord(c, chunk);
        var bytes := ToLeBytes(rand);
        var len := if dest.Length - start < 4 then dest.Length - start else 4;
        for i := 0 to len
          invariant counter == (c + chunk + 1) % U32_MODULUS
          invariant forall j :: 0 <= j < start + i ==> dest[j] == StreamByte(c, j)
        {
          assert (start + i) / 4 == chunk && (start + i) % 4 == i;
          dest[start + i] := bytes[i];
        }
        start := start + len;
        chunk := chunk + 1;
      }
      forall j | 0 <= j < dest.Length
        ensures dest[..][j] == FillStream(c, dest.Length)[j]
      {
        FillStreamAt(c, dest.Length, j);
      }
    }

    /** `try_fill_bytes`: the same fill as `FillBytes`, and it always succeeds. */
    method TryFillBytes(dest: array<u8>) returns (res: Result<()>)
      modifies this, dest
      ensures res == Ok(())
      ensures dest[..] == FillStream(old(counter), dest.Length)
      ensures forall j :: 0 <= j < dest.Length ==> dest[j] == StreamByte(old(counter), j)
      ensures counter == (old(counter) + ChunkCount(dest.Length)) % U32_MODULUS
      ensures dest.Length == 0 ==> counter == old(counter)
    {
      FillBytes(dest);
      res := Ok(());
    }
  }

  /**
    `k` successive `next_u32` calls on one generator, as any caller of the
    generator makes them: they return exactly `Draws` of the starting
    counter, and the counter ends `k` steps on, modulo 2^32.
   */
  method NextU32s(rng: SimpleRng, k: nat) returns (out: seq<u32>)
    modifies rng
    ensures out == Draws(old(rng.counter), k)
    ensures rng.counter == (old(rng.counter) + k) % U32_MODULUS
  {
    ghost var c := rng.counter;
    out := [];
    for i := 0 to k
      invariant rng.counter == (c + i) % U32_MODULUS
      invariant out + Draws(rng.counter, k - i) == Draws(c, k)
    {
      var r := rng.NextU32();
      SuccessorMod(c + i);
      out := out + [r];
    }
  }

  /**
    An example of what the contracts above fix for a fresh generator: its
    first draw is 1, and a 6-byte buffer filled after it holds the
    little-endian words 2 and 3, the second cut to two bytes.
   */
  method FreshGeneratorExample()
  {
    var rng := new SimpleRng();
    var first := rng.NextU32();
    assert first == 1;
    var buffer := new u8[6];
    rng.FillBytes(buffer);
    assert buffer[0] == 2 && buffer[1] == 0 && buffer[4] == 3 && buffer[5] == 0;
    assert rng.counter == 3;
  }
}
