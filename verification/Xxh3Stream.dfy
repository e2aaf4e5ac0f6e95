/**
 XXH3 on long inputs: the streaming state against the one-shot block loop
 (CDNSimulator/libCacheSim/dataStructure/hash/xxh3.h). The mixing functions are parameters.
 */
module Xxh3Stream {

  import opened Bytes

  /** The eight accumulators. */
  type Acc(!new)

  const STRIPE: nat := 64
  const CONSUME: nat := 8
  const BUFFER: nat := 256
  const BUFFER_STRIPES: nat := 4
  const LASTACC_START: nat := 7
  const SECRET_SIZE_MIN: nat := 136

  /** XXH3_accumulate_512 takes a stripe and an offset into the secret, XXH3_scrambleAcc an offset. */
  datatype Mixer = Mixer(init: Acc, accumulate: (Acc, seq<Byte>, nat) -> Acc, scramble: (Acc, nat) -> Acc, secretSize: nat)

  function Limit(mx: Mixer): nat
    requires mx.secretSize >= SECRET_SIZE_MIN
  {
    mx.secretSize - STRIPE
  }

  function PerBlock(mx: Mixer): (n: nat)
    requires mx.secretSize >= SECRET_SIZE_MIN
    ensures n >= 9
  {
    Limit(mx) / CONSUME
  }

  // ---------------------------------------------------------------------------
  // Stripe by stripe
  // ---------------------------------------------------------------------------

  /** The accumulators and the number of stripes since the last scramble. */
  datatype Lane = Lane(acc: Acc, soFar: nat)

  ghost function OneStripe(mx: Mixer, l: Lane, stripe: seq<Byte>): Lane
    requires mx.secretSize >= SECRET_SIZE_MIN
  {
    var acc := mx.accumulate(l.acc, stripe, l.soFar * CONSUME);
    if l.soFar + 1 == PerBlock(mx) then Lane(mx.scramble(acc, Limit(mx)), 0) else Lane(acc, l.soFar + 1)
  }

  /** The first n stripes of the input, each with the secret of its place in the block, with a scramble
      after each whole block. */
  ghost function Stripes(mx: Mixer, l: Lane, input: seq<Byte>, n: nat): Lane
    requires mx.secretSize >= SECRET_SIZE_MIN && 64 * n <= |input|
  {
    if n == 0 then l else OneStripe(mx, Stripes(mx, l, input, n - 1), input[64 * (n - 1)..64 * n])
  }

  /** What both forms compute: all stripes but a last one that ends with the input. */
  ghost function LongHash(mx: Mixer, input: seq<Byte>): Acc
    requires mx.secretSize >= SECRET_SIZE_MIN && |input| > 64
  {
    mx.accumulate(Stripes(mx, Lane(mx.init, 0), input, (|input| - 1) / 64).acc, input[|input| - 64..], Limit(mx) - LASTACC_START)
  }

  // ---------------------------------------------------------------------------
  // The calls of the mixing functions
  // ---------------------------------------------------------------------------

  /** A stripe mixed with the secret from an offset on, or a scramble with it. */
  datatype Call = Mix(stripe: seq<Byte>, offset: nat) | Scramble(offset: nat)

  ghost function Applied(mx: Mixer, acc: Acc, calls: seq<Call>): Acc {
    if calls == [] then acc
    else
      var before := Applied(mx, acc, calls[..|calls| - 1]);
      match calls[|calls| - 1]
      case Mix(stripe, offset) => mx.accumulate(before, stripe, offset)
      case Scramble(offset) => mx.scramble(before, offset)
  }

  /** The calls for the first n stripes with a secret of size bytes: stripe i is mixed with the secret from eight
      times its place in its block, and each block of (size - 64) / 8 stripes is followed by a scramble with the
      last 64 bytes of the secret. */
  ghost function StripeCalls(input: seq<Byte>, size: nat, n: nat): seq<Call>
    requires size >= 136 && 64 * n <= |input|
  {
    if n == 0 then []
    else
      var block := (size - 64) / 8;
      StripeCalls(input, size, n - 1) + [Mix(input[64 * (n - 1)..64 * n], 8 * ((n - 1) % block))] +
      if n % block == 0 then [Scramble(size - 64)] else []
  }

  /** All calls for an input of more than 64 bytes: the stripes that end before its last byte, and then the last
      64 bytes with the secret from seven bytes before its last 64. */
  ghost function AllCalls(input: seq<Byte>, size: nat): seq<Call>
    requires size >= 136 && |input| > 64
  {
    StripeCalls(input, size, (|input| - 1) / 64) + [Mix(input[|input| - 64..], size - 71)]
  }

  lemma AppliedPush(mx: Mixer, acc: Acc, calls: seq<Call>, c: Call)
    ensures Applied(mx, acc, calls + [c]) ==
            match c
            case Mix(stripe, offset) => mx.accumulate(Applied(mx, acc, calls), stripe, offset)
            case Scramble(offset) => mx.scramble(Applied(mx, acc, calls), offset)
  {
    assert (calls + [c])[..|calls|] == calls;
  }

  lemma NextPlace(n: nat, block: nat)
    requires n > 0 && block > 0
    ensures n % block == if (n - 1) % block + 1 == block then 0 else (n - 1) % block + 1
  {
    var q, r := (n - 1) / block, (n - 1) % block;
    assert n - 1 == block * q + r;
    if r + 1 == block {
      assert n == block * (q + 1);
      Remainder(n, block, q + 1, 0);
    } else {
      Remainder(n, block, q, r + 1);
    }
  }

  lemma Remainder(x: nat, b: nat, q: nat, r: nat)
    requires x == b * q + r && r < b
    ensures x % b == r
  {
    var d := x / b - q;
    assert x == b * (x / b) + x % b;
    assert b * d == r - x % b;
    if d > 0 {
      AtLeast(b, d);
    } else if d < 0 {
      AtLeast(b, -d);
    }
  }

  lemma AtLeast(b: nat, d: int)
    requires d >= 1
    ensures b * d >= b
  {
  }

  lemma OneStripeCalls(mx: Mixer, calls: seq<Call>, place: nat, stripe: seq<Byte>)
    requires mx.secretSize >= 136
    ensures var size := mx.secretSize; var last := place + 1 == (size - 64) / 8;
            OneStripe(mx, Lane(Applied(mx, mx.init, calls), place), stripe) ==
            Lane(Applied(mx, mx.init, calls + [Mix(stripe, 8 * place)] + if last then [Scramble(size - 64)] else []),
                 if last then 0 else place + 1)
  {
    var mix := Mix(stripe, 8 * place);
    AppliedPush(mx, mx.init, calls, mix);
    AppliedPush(mx, mx.init, calls + [mix], Scramble(mx.secretSize - 64));
    assert calls + [mix] + [] == calls + [mix];
  }

  lemma {:induction false} StripesCall(mx: Mixer, input: seq<Byte>, n: nat)
    requires mx.secretSize >= 136 && 64 * n <= |input|
    ensures Stripes(mx, Lane(mx.init, 0), input, n) ==
            Lane(Applied(mx, mx.init, StripeCalls(input, mx.secretSize, n)), n % ((mx.secretSize - 64) / 8))
    decreases n
  {
    if n > 0 {
      StripesCall(mx, input, n - 1);
      var block := (mx.secretSize - 64) / 8;
      NextPlace(n, block);
      OneStripeCalls(mx, StripeCalls(input, mx.secretSize, n - 1), (n - 1) % block, input[64 * (n - 1)..64 * n]);
    }
  }

  /** Both forms make exactly these calls, in this order. */
  lemma LongHashCalls(mx: Mixer, input: seq<Byte>)
    requires mx.secretSize >= 136 && |input| > 64
    ensures LongHash(mx, input) == Applied(mx, mx.init, AllCalls(input, mx.secretSize))
  {
    StripesCall(mx, input, (|input| - 1) / 64);
    AppliedPush(mx, mx.init, StripeCalls(input, mx.secretSize, (|input| - 1) / 64), Mix(input[|input| - 64..], mx.secretSize - 71));
  }

  lemma {:induction false} StripesPrefix(mx: Mixer, l: Lane, x: seq<Byte>, y: seq<Byte>, n: nat)
    requires mx.secretSize >= SECRET_SIZE_MIN && 64 * n <= |x| && 64 * n <= |y| && x[..64 * n] == y[..64 * n]
    ensures Stripes(mx, l, x, n) == Stripes(mx, l, y, n)
    decreases n
  {
    if n > 0 {
      assert x[..64 * (n - 1)] == x[..64 * n][..64 * (n - 1)] && y[..64 * (n - 1)] == y[..64 * n][..64 * (n - 1)];
      StripesPrefix(mx, l, x, y, n - 1);
      assert x[64 * (n - 1)..64 * n] == x[..64 * n][64 * (n - 1)..];
      assert y[64 * (n - 1)..64 * n] == y[..64 * n][64 * (n - 1)..];
    }
  }

  lemma {:induction false} StripesAdd(mx: Mixer, l: Lane, x: seq<Byte>, m: nat, n: nat)
    requires mx.secretSize >= SECRET_SIZE_MIN && 64 * (m + n) <= |x|
    ensures Stripes(mx, l, x, m + n) == Stripes(mx, Stripes(mx, l, x, m), x[64 * m..], n)
    decreases n
  {
    if n > 0 {
      StripesAdd(mx, l, x, m, n - 1);
      assert x[64 * m..][64 * (n - 1)..64 * n] == x[64 * (m + n - 1)..64 * (m + n)];
    }
  }

  lemma {:induction false} SoFarBound(mx: Mixer, l: Lane, x: seq<Byte>, n: nat)
    requires mx.secretSize >= SECRET_SIZE_MIN && 64 * n <= |x| && l.soFar < PerBlock(mx)
    ensures Stripes(mx, l, x, n).soFar < PerBlock(mx)
    decreases n
  {
    if n > 0 {
      SoFarBound(mx, l, x, n - 1);
    }
  }

  // ---------------------------------------------------------------------------
  // Runs of stripes within a block
  // ---------------------------------------------------------------------------

  ghost function Accumulated(mx: Mixer, acc: Acc, input: seq<Byte>, secret: nat, n: nat): Acc
    requires 64 * n <= |input|
  {
    if n == 0 then acc
    else mx.accumulate(Accumulated(mx, acc, input, secret, n - 1), input[64 * (n - 1)..64 * n], secret + (n - 1) * CONSUME)
  }

  /** Within a block the stripes are just accumulated; at its end the accumulators are scrambled. */
  lemma {:induction false} RunInBlock(mx: Mixer, l: Lane, input: seq<Byte>, n: nat)
    requires mx.secretSize >= SECRET_SIZE_MIN && 64 * n <= |input| && l.soFar < PerBlock(mx) && l.soFar + n <= PerBlock(mx)
    ensures var acc := Accumulated(mx, l.acc, input, l.soFar * CONSUME, n);
            Stripes(mx, l, input, n) == if l.soFar + n < PerBlock(mx) then Lane(acc, l.soFar + n) else Lane(mx.scramble(acc, Limit(mx)), 0)
    decreases n
  {
    if n > 0 {
      RunInBlock(mx, l, input, n - 1);
    }
  }

  /** XXH3_accumulate. */
  method Accumulate(mx: Mixer, acc0: Acc, input: seq<Byte>, secret: nat, n: nat) returns (acc: Acc)
    requires 64 * n <= |input|
    ensures acc == Accumulated(mx, acc0, input, secret, n)
  {
    acc := acc0;
    for i := 0 to n
      invariant acc == Accumulated(mx, acc0, input, secret, i)
    {
      acc := mx.accumulate(acc, input[i * STRIPE..(i + 1) * STRIPE], secret + i * CONSUME);
    }
  }

  /** XXH3_consumeStripes. */
  method ConsumeStripes(mx: Mixer, l: Lane, input: seq<Byte>, n: nat) returns (r: Lane)
    requires mx.secretSize >= SECRET_SIZE_MIN && 64 * n <= |input| && n <= PerBlock(mx) && l.soFar < PerBlock(mx)
    ensures r == Stripes(mx, l, input, n) && r.soFar < PerBlock(mx)
  {
    var perBlock := PerBlock(mx);
    if perBlock - l.soFar <= n {
      var toEnd := perBlock - l.soFar;
      var after := n - toEnd;
      var acc := Accumulate(mx, l.acc, input, l.soFar * CONSUME, toEnd);
      acc := mx.scramble(acc, Limit(mx));
      RunInBlock(mx, l, input, toEnd);
      StripesAdd(mx, l, input, toEnd, after);
      RunInBlock(mx, Lane(acc, 0), input[toEnd * STRIPE..], after);
      acc := Accumulate(mx, acc, input[toEnd * STRIPE..], 0, after);
      r := Lane(acc, after);
    } else {
      RunInBlock(mx, l, input, n);
      var acc := Accumulate(mx, l.acc, input, l.soFar * CONSUME, n);
      r := Lane(acc, l.soFar + n);
    }
  }

  // ---------------------------------------------------------------------------
  // One shot
  // ---------------------------------------------------------------------------

  lemma Division(a: nat, b: nat)
    requires b > 0
    ensures a / b * b <= a < a / b * b + b
  {
  }

  /** One whole block of the one-shot loop, from stripe k on. */
  method HashBlock(mx: Mixer, acc0: Acc, input: seq<Byte>, k: nat) returns (acc: Acc)
    requires mx.secretSize >= SECRET_SIZE_MIN && 64 * (k + PerBlock(mx)) <= |input|
    requires Stripes(mx, Lane(mx.init, 0), input, k) == Lane(acc0, 0)
    ensures Stripes(mx, Lane(mx.init, 0), input, k + PerBlock(mx)) == Lane(acc, 0)
  {
    StripesAdd(mx, Lane(mx.init, 0), input, k, PerBlock(mx));
    RunInBlock(mx, Lane(acc0, 0), input[64 * k..], PerBlock(mx));
    acc := Accumulate(mx, acc0, input[64 * k..], 0, PerBlock(mx));
    acc := mx.scramble(acc, Limit(mx));
  }

  lemma NextMultiple(n: nat, b: nat)
    ensures (n + 1) * b == n * b + b
  {
  }

  lemma Multiples(n: nat, m: nat, b: nat)
    requires n <= m
    ensures n * b <= m * b
  {
  }

  /** The blocks of the one-shot loop lie within the input. */
  lemma BlocksFit(mx: Mixer, input: seq<Byte>, n: nat)
    requires mx.secretSize >= SECRET_SIZE_MIN && |input| > 64 && n < (|input| - 1) / (STRIPE * PerBlock(mx))
    ensures 64 * (n * PerBlock(mx) + PerBlock(mx)) < |input|
  {
    var b := STRIPE * PerBlock(mx);
    Division(|input| - 1, b);
    Multiples(n + 1, (|input| - 1) / b, b);
    NextMultiple(n, PerBlock(mx));
    Regroup(n + 1, PerBlock(mx));
  }

  lemma Regroup(n: nat, b: nat)
    ensures n * (64 * b) == 64 * (n * b)
  {
  }

  /** What is left after the whole blocks. */
  lemma WholeBlocks(len: nat, p: nat, blocks: nat)
    requires p > 0 && len > 0 && blocks == (len - 1) / (64 * p)
    ensures 64 * (blocks * p) <= len - 1 < 64 * (blocks * p) + 64 * p
  {
    Division(len - 1, 64 * p);
    Regroup(blocks, p);
  }

  lemma RestStripes(len: nat, k: nat, p: nat)
    requires 64 * k <= len - 1 < 64 * k + 64 * p
    ensures (len - 1 - 64 * k) / 64 < p && k + (len - 1 - 64 * k) / 64 == (len - 1) / 64
  {
  }

  /** The block loop of XXH3_hashLong_internal_loop; k counts the stripes. */
  method HashBlocks(mx: Mixer, input: seq<Byte>, blocks: nat) returns (acc: Acc, k: nat)
    requires mx.secretSize >= SECRET_SIZE_MIN && |input| > 64 && blocks == (|input| - 1) / (STRIPE * PerBlock(mx))
    ensures k == blocks * PerBlock(mx) && 64 * k <= |input| && Stripes(mx, Lane(mx.init, 0), input, k) == Lane(acc, 0)
  {
    acc, k := mx.init, 0;
    for n := 0 to blocks
      invariant k == n * PerBlock(mx) && 64 * k <= |input| && Stripes(mx, Lane(mx.init, 0), input, k) == Lane(acc, 0)
    {
      BlocksFit(mx, input, n);
      NextMultiple(n, PerBlock(mx));
      acc := HashBlock(mx, acc, input, k);
      k := k + PerBlock(mx);
    }
  }

  /** The last partial block and the last stripe. */
  method HashTail(mx: Mixer, acc0: Acc, input: seq<Byte>, k: nat, stripes: nat) returns (acc: Acc)
    requires mx.secretSize >= SECRET_SIZE_MIN && |input| > 64 && stripes < PerBlock(mx)
    requires k + stripes == (|input| - 1) / 64 && Stripes(mx, Lane(mx.init, 0), input, k) == Lane(acc0, 0)
    ensures acc == LongHash(mx, input)
  {
    StripesAdd(mx, Lane(mx.init, 0), input, k, stripes);
    RunInBlock(mx, Lane(acc0, 0), input[64 * k..], stripes);
    acc := Accumulate(mx, acc0, input[64 * k..], 0, stripes);
    acc := mx.accumulate(acc, input[|input| - STRIPE..], mx.secretSize - STRIPE - LASTACC_START);
  }

  /** XXH3_hashLong_internal_loop. */
  method HashLong(mx: Mixer, input: seq<Byte>) returns (acc: Acc)
    requires mx.secretSize >= SECRET_SIZE_MIN && |input| > 64
    ensures acc == LongHash(mx, input)
  {
    var blockLen := STRIPE * PerBlock(mx);
    var blocks := (|input| - 1) / blockLen;
    var k;
    acc, k := HashBlocks(mx, input, blocks);
    WholeBlocks(|input|, PerBlock(mx), blocks);
    Regroup(blocks, PerBlock(mx));
    RestStripes(|input|, k, PerBlock(mx));
    var stripes := (|input| - 1 - blockLen * blocks) / STRIPE;
    acc := HashTail(mx, acc, input, k, stripes);
  }

  // ---------------------------------------------------------------------------
  // Streaming
  // ---------------------------------------------------------------------------

  /** m stripes of the data have been consumed, the rest is in the buffer, and behind it, in the last stripe
      of the buffer, is what came before it. */
  ghost predicate Buffered(mx: Mixer, data: seq<Byte>, m: nat, lane: Lane, buffer: seq<Byte>, size: nat)
    requires mx.secretSize >= SECRET_SIZE_MIN
  {
    && |buffer| == 256 && size <= 256 && |data| == 64 * m + size && (size > 0 || data == [])
    && lane == Stripes(mx, Lane(mx.init, 0), data, m) && lane.soFar < PerBlock(mx)
    && buffer[..size] == data[64 * m..]
    && (m > 0 ==> m >= 4 && forall i {:trigger buffer[i]} :: size <= i < 256 && 192 <= i ==> buffer[i] == data[64 * m - 256 + i])
  }

  /** Everything has been consumed. */
  ghost predicate Drained(mx: Mixer, data: seq<Byte>, m: nat, lane: Lane)
    requires mx.secretSize >= SECRET_SIZE_MIN
  {
    |data| == 64 * m && lane == Stripes(mx, Lane(mx.init, 0), data, m) && lane.soFar < PerBlock(mx)
  }

  /** The last stripe of the buffer is the last stripe of the data. */
  ghost predicate TailKept(data: seq<Byte>, m: nat, buffer: seq<Byte>) {
    |buffer| == 256 && |data| == 64 * m && (m > 0 ==> m >= 4 && buffer[192..] == data[64 * m - 64..])
  }

  /** Consuming four more stripes of input. */
  lemma DrainedMore(mx: Mixer, data: seq<Byte>, m: nat, lane: Lane, more: seq<Byte>, lane': Lane)
    requires mx.secretSize >= SECRET_SIZE_MIN && Drained(mx, data, m, lane) && |more| == 256
    requires lane' == Stripes(mx, lane, more, 4) && lane'.soFar < PerBlock(mx)
    ensures Drained(mx, data + more, m + 4, lane')
  {
    StripesAdd(mx, Lane(mx.init, 0), data + more, m, 4);
    StripesPrefix(mx, Lane(mx.init, 0), data + more, data, m);
    assert (data + more)[64 * m..] == more;
  }

  /** The full buffer holds the last four stripes of the data. */
  lemma BufferConsumed(mx: Mixer, data: seq<Byte>, m: nat, lane: Lane, buffer: seq<Byte>, size: nat, load: seq<Byte>, lane': Lane)
    requires mx.secretSize >= SECRET_SIZE_MIN && Buffered(mx, data, m, lane, buffer, size) && size + |load| == 256
    requires lane' == Stripes(mx, lane, buffer[..size] + load, 4) && lane'.soFar < PerBlock(mx)
    ensures Drained(mx, data + load, m + 4, lane') && TailKept(data + load, m + 4, buffer[..size] + load)
  {
    var full := buffer[..size] + load;
    var before := data[..64 * m];
    StripesPrefix(mx, Lane(mx.init, 0), before, data, m);
    DrainedMore(mx, before, m, lane, full, lane');
    assert data == before + buffer[..size];
    assert before + full == data + load;
    assert full[192..] == (before + full)[64 * (m + 4) - 64..];
  }

  /** What is left of the input goes to the front of the buffer. */
  lemma Refilled(mx: Mixer, data: seq<Byte>, m: nat, lane: Lane, buffer: seq<Byte>, rest: seq<Byte>)
    requires mx.secretSize >= SECRET_SIZE_MIN && Drained(mx, data, m, lane) && TailKept(data, m, buffer) && 0 < |rest| <= 256
    ensures Buffered(mx, data + rest, m, lane, rest + buffer[|rest|..], |rest|)
  {
    StripesPrefix(mx, Lane(mx.init, 0), data + rest, data, m);
    var b, d := rest + buffer[|rest|..], data + rest;
    assert b[..|rest|] == d[64 * m..];
    forall i {:trigger b[i]} | |rest| <= i < 256 && 192 <= i && m > 0
      ensures b[i] == d[64 * m - 256 + i]
    {
      assert b[i] == buffer[192..][i - 192] && d[64 * m - 256 + i] == data[64 * m - 64..][i - 192];
    }
  }

  /** The buffer takes the whole input. */
  lemma Filled(mx: Mixer, data: seq<Byte>, m: nat, lane: Lane, buffer: seq<Byte>, size: nat, input: seq<Byte>)
    requires mx.secretSize >= SECRET_SIZE_MIN && Buffered(mx, data, m, lane, buffer, size) && size + |input| <= 256
    ensures Buffered(mx, data + input, m, lane, buffer[..size] + input + buffer[size + |input|..], size + |input|)
  {
    StripesPrefix(mx, Lane(mx.init, 0), data + input, data, m);
    var b, d := buffer[..size] + input + buffer[size + |input|..], data + input;
    assert b[..size + |input|] == d[64 * m..];
    forall i {:trigger b[i]} | size + |input| <= i < 256 && 192 <= i && m > 0
      ensures b[i] == d[64 * m - 256 + i]
    {
      assert b[i] == buffer[i];
    }
  }

  /** The stripe that ends with the data, pieced together from both ends of the buffer. */
  lemma CatchUp(mx: Mixer, data: seq<Byte>, m: nat, lane: Lane, buffer: seq<Byte>, size: nat)
    requires mx.secretSize >= SECRET_SIZE_MIN && Buffered(mx, data, m, lane, buffer, size) && size < 64 < |data|
    ensures buffer[256 - (64 - size)..] + buffer[..size] == data[|data| - 64..] && m == (|data| - 1) / 64
  {
    var tail, d := buffer[256 - (64 - size)..], data[|data| - 64..];
    forall j | 0 <= j < 64 - size
      ensures tail[j] == d[j]
    {
      assert tail[j] == buffer[192 + size + j];
    }
    assert d == d[..64 - size] + data[64 * m..];
  }

  /** The stripe that ends with the data is in the buffer. */
  lemma LastInBuffer(mx: Mixer, data: seq<Byte>, m: nat, lane: Lane, buffer: seq<Byte>, size: nat)
    requires mx.secretSize >= SECRET_SIZE_MIN && Buffered(mx, data, m, lane, buffer, size) && 64 <= size
    ensures buffer[size - 64..size] == data[|data| - 64..] && m + (size - 1) / 64 == (|data| - 1) / 64
    ensures Stripes(mx, lane, buffer, (size - 1) / 64) == Stripes(mx, Lane(mx.init, 0), data, (|data| - 1) / 64)
  {
    var n := (size - 1) / 64;
    assert buffer[size - 64..size] == buffer[..size][size - 64..];
    assert data[|data| - 64..] == data[64 * m..][size - 64..];
    StripesAdd(mx, Lane(mx.init, 0), data, m, n);
    assert buffer[..64 * n] == buffer[..size][..64 * n];
    assert data[64 * m..][..64 * n] == buffer[..size][..64 * n];
    StripesPrefix(mx, lane, buffer, data[64 * m..], n);
  }

  lemma Rejoined(before: seq<Byte>, input: seq<Byte>, pos: nat)
    requires pos <= |input|
    ensures before + input[..pos] + input[pos..] == before + input
  {
  }

  class Xxh3State {
    const mx: Mixer
    var lane: Lane
    var buffer: array<Byte>
    var bufferedSize: nat
    var totalLen: nat
    /** The input so far, and the number of its stripes that have been consumed. */
    ghost var data: seq<Byte>
    ghost var m: nat

    ghost predicate Ready()
      reads this, buffer
    {
      && mx.secretSize >= SECRET_SIZE_MIN && buffer.Length == 256
      && Buffered(mx, data, m, lane, buffer[..], bufferedSize)
    }

    ghost predicate Valid()
      reads this, buffer
    {
      Ready() && totalLen == |data|
    }

    /** XXH3_64bits_reset_internal. */
    constructor (mx: Mixer)
      requires mx.secretSize >= SECRET_SIZE_MIN
      ensures Valid() && data == [] && this.mx == mx && fresh(buffer)
    {
      this.mx := mx;
      lane := Lane(mx.init, 0);
      buffer := new Byte[BUFFER](_ => 0);
      bufferedSize, totalLen := 0, 0;
      data, m := [], 0;
    }

    /** Complete the partly filled buffer and consume it. */
    method ConsumeBuffer(input: seq<Byte>) returns (load: nat)
      requires Ready() && bufferedSize + |input| > 256 && bufferedSize > 0
      modifies this`lane, this`bufferedSize, this`data, this`m, buffer
      ensures load == 256 - old(bufferedSize) && data == old(data) + input[..load] && buffer.Length == 256
      ensures Drained(mx, data, m, lane) && TailKept(data, m, buffer[..]) && m > 0
    {
      load := BUFFER - bufferedSize;
      ghost var before := buffer[..];
      CopyInto(buffer, bufferedSize, input[..load]);
      assert buffer[..] == before[..bufferedSize] + input[..load];
      var next := ConsumeStripes(mx, lane, buffer[..], BUFFER_STRIPES);
      BufferConsumed(mx, data, m, lane, before, bufferedSize, input[..load], next);
      lane, bufferedSize := next, 0;
      data, m := data + input[..load], m + 4;
    }

    /** Consume the input directly, a buffer's worth at a time, as long as something is left after it. */
    method ConsumeInput(input: seq<Byte>, start: nat) returns (pos: nat)
      requires mx.secretSize >= SECRET_SIZE_MIN && Drained(mx, data, m, lane) && start + 256 < |input| && buffer.Length == 256
      modifies this`lane, this`data, this`m, buffer
      ensures start < pos < |input| <= pos + 256 && data == old(data) + input[start..pos]
      ensures Drained(mx, data, m, lane) && TailKept(data, m, buffer[..])
    {
      pos := start;
      while pos + BUFFER < |input|
        invariant start <= pos < |input| && (pos > start ==> pos >= start + 256 && m >= 4)
        invariant Drained(mx, data, m, lane) && data == old(data) + input[start..pos]
        decreases |input| - pos
      {
        var piece := input[pos..pos + 256];
        var next := ConsumeStripes(mx, lane, piece, BUFFER_STRIPES);
        DrainedMore(mx, data, m, lane, piece, next);
        assert input[start..pos] + piece == input[start..pos + 256];
        lane := next;
        data, m := data + piece, m + 4;
        pos := pos + BUFFER;
      }
      CopyInto(buffer, BUFFER - STRIPE, input[pos - STRIPE..pos]);
      assert data[64 * m - 64..] == input[pos - 64..pos];
    }

    /** The input fits into the buffer. */
    method Fill(input: seq<Byte>)
      requires mx.secretSize >= SECRET_SIZE_MIN && buffer.Length == 256 && bufferedSize + |input| <= 256
      requires Buffered(mx, data, m, lane, buffer[..], bufferedSize)
      modifies this`bufferedSize, this`data, buffer
      ensures data == old(data) + input && Buffered(mx, data, m, lane, buffer[..], bufferedSize)
    {
      Filled(mx, data, m, lane, buffer[..], bufferedSize, input);
      CopyInto(buffer, bufferedSize, input);
      bufferedSize := bufferedSize + |input|;
      data := data + input;
    }

    /** The rest of the input goes to the front of the buffer. */
    method Refill(rest: seq<Byte>)
      requires mx.secretSize >= SECRET_SIZE_MIN && buffer.Length == 256 && 0 < |rest| <= 256
      requires Drained(mx, data, m, lane) && TailKept(data, m, buffer[..])
      modifies this`bufferedSize, this`data, buffer
      ensures data == old(data) + rest && Buffered(mx, data, m, lane, buffer[..], bufferedSize)
    {
      Refilled(mx, data, m, lane, buffer[..], rest);
      ghost var before := buffer[..];
      CopyInto(buffer, 0, rest);
      assert buffer[..] == rest + before[|rest|..];
      bufferedSize := |rest|;
      data := data + rest;
    }

    /** Consume everything but the last bytes, of which there is always at least one. */
    method Consume(input: seq<Byte>) returns (pos: nat)
      requires Ready() && bufferedSize + |input| > 256
      modifies this`lane, this`bufferedSize, this`data, this`m, buffer
      ensures pos < |input| <= pos + 256 && data == old(data) + input[..pos]
      ensures Drained(mx, data, m, lane) && TailKept(data, m, buffer[..])
    {
      pos := 0;
      if bufferedSize > 0 {
        pos := ConsumeBuffer(input);
      }
      assert data == old(data) + input[..pos];
      if pos + BUFFER < |input| {
        ghost var from := pos;
        pos := ConsumeInput(input, pos);
        assert input[..from] + input[from..pos] == input[..pos];
      }
    }

    /** XXH3_update: the state takes in the input. */
    method Update(input: seq<Byte>)
      requires Valid()
      modifies this, buffer
      ensures Valid() && data == old(data) + input && buffer == old(buffer)
    {
      totalLen := totalLen + |input|;
      if bufferedSize + |input| <= BUFFER {
        Fill(input);
      } else {
        ConsumeAndRefill(input);
      }
    }

    method ConsumeAndRefill(input: seq<Byte>)
      requires Ready() && bufferedSize + |input| > 256
      modifies this`lane, this`bufferedSize, this`data, this`m, buffer
      ensures Ready() && data == old(data) + input
    {
      var pos := Consume(input);
      Refill(input[pos..]);
      Rejoined(old(data), input, pos);
    }

    /** XXH3_digest_long: the accumulators of the one-shot loop on everything taken in. */
    method DigestLong() returns (acc: Acc)
      requires Valid() && |data| > 240
      ensures acc == LongHash(mx, data)
    {
      if bufferedSize >= STRIPE {
        var stripes := (bufferedSize - 1) / STRIPE;
        LastInBuffer(mx, data, m, lane, buffer[..], bufferedSize);
        var end := ConsumeStripes(mx, lane, buffer[..], stripes);
        acc := mx.accumulate(end.acc, buffer[bufferedSize - STRIPE..bufferedSize], Limit(mx) - LASTACC_START);
      } else {
        var catchUp := STRIPE - bufferedSize;
        CatchUp(mx, data, m, lane, buffer[..], bufferedSize);
        assert buffer[..][256 - catchUp..] == buffer[256 - catchUp..];
        assert buffer[..][..bufferedSize] == buffer[..bufferedSize];
        acc := mx.accumulate(lane.acc, buffer[BUFFER - catchUp..] + buffer[..bufferedSize], Limit(mx) - LASTACC_START);
      }
    }
  }

  /** Any sequence of updates, and then the digest, gives the one-shot hash of the concatenation. */
  method HashPieces(mx: Mixer, pieces: seq<seq<Byte>>) returns (acc: Acc)
    requires mx.secretSize >= SECRET_SIZE_MIN && |Concat(pieces)| > 240
    ensures acc == LongHash(mx, Concat(pieces)) == Applied(mx, mx.init, AllCalls(Concat(pieces), mx.secretSize))
  {
    LongHashCalls(mx, Concat(pieces));
    var state := new Xxh3State(mx);
    for i := 0 to |pieces|
      invariant state.Valid() && fresh(state) && fresh(state.buffer) && state.data == Concat(pieces[..i]) && state.mx == mx
    {
      assert pieces[..i + 1][..i] == pieces[..i];
      state.Update(pieces[i]);
    }
    assert pieces[..|pieces|] == pieces;
    acc := state.DigestLong();
  }
}
