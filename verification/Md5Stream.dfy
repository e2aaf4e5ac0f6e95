/**
 MD5 fed piece by piece (CDNSimulator/src/md5.c) against sections 3.1 to 3.5 of RFC 1321: the message
 is padded, its length appended, and the compression function folded over its 64-byte blocks. The
 compression function md5_process is a parameter.
 */
module Md5Stream {

  import opened Bytes
  type Word = x: int | 0 <= x < 0x1_0000_0000

  datatype Regs = Regs(a: Word, b: Word, c: Word, d: Word)

  type Compress = (Regs, seq<Byte>) -> Regs

  const Init := Regs(0x6745_2301, 0xefcd_ab89, 0x98ba_dcfe, 0x1032_5476)

  /** The compression function folded over the first k blocks. */
  ghost function Blocks(f: Compress, data: seq<Byte>, k: nat): Regs
    requires 64 * k <= |data|
  {
    if k == 0 then Init else f(Blocks(f, data, k - 1), data[64 * (k - 1)..64 * k])
  }

  lemma {:induction false} BlocksPrefix(f: Compress, x: seq<Byte>, y: seq<Byte>, k: nat)
    requires 64 * k <= |x| && 64 * k <= |y| && x[..64 * k] == y[..64 * k]
    ensures Blocks(f, x, k) == Blocks(f, y, k)
    decreases k
  {
    if k > 0 {
      assert x[..64 * (k - 1)] == x[..64 * k][..64 * (k - 1)] && y[..64 * (k - 1)] == y[..64 * k][..64 * (k - 1)];
      BlocksPrefix(f, x, y, k - 1);
      assert x[64 * (k - 1)..64 * k] == x[..64 * k][64 * (k - 1)..];
      assert y[64 * (k - 1)..64 * k] == y[..64 * k][64 * (k - 1)..];
    }
  }

  // ---------------------------------------------------------------------------
  // Padding (sections 3.1 and 3.2 of RFC 1321)
  // ---------------------------------------------------------------------------

  function LittleEndian(w: Word): (r: seq<Byte>)
    ensures |r| == 4
  {
    [w % 256, w / 0x100 % 256, w / 0x1_0000 % 256, w / 0x100_0000 % 256]
  }

  function Low(bits: nat): Word {
    bits % 0x1_0000_0000
  }

  function High(bits: nat): Word {
    bits / 0x1_0000_0000 % 0x1_0000_0000
  }

  /** How many zero bytes follow the first padding byte. */
  function Zeros(length: nat): (k: nat)
    ensures k < 64 && (length + 1 + k) % 64 == 56
  {
    (55 - length) % 64
  }

  function PadBytes(length: nat): (r: seq<Byte>)
    ensures |r| == Zeros(length) + 1
  {
    [0x80] + seq(Zeros(length), _ => 0)
  }

  function LengthBytes(length: nat): (r: seq<Byte>)
    ensures |r| == 8
  {
    LittleEndian(Low(8 * length)) + LittleEndian(High(8 * length))
  }

  lemma WholeBlocks(n: nat)
    requires n % 64 == 56
    ensures (n + 8) % 64 == 0
  {
  }

  /** The message with its padding and its length in bits, modulo 2^64, low-order word first. */
  function Padded(message: seq<Byte>): (r: seq<Byte>)
    ensures |r| % 64 == 0
  {
    WholeBlocks(|message| + 1 + Zeros(|message|));
    message + PadBytes(|message|) + LengthBytes(|message|)
  }

  /** The digest as RFC 1321 defines it. */
  ghost function Digest(f: Compress, message: seq<Byte>): seq<Byte> {
    Output(Blocks(f, Padded(message), |Padded(message)| / 64))
  }

  function Output(r: Regs): seq<Byte> {
    LittleEndian(r.a) + LittleEndian(r.b) + LittleEndian(r.c) + LittleEndian(r.d)
  }

  // ---------------------------------------------------------------------------
  // The formats, in numbers
  // ---------------------------------------------------------------------------

  /** The number that bytes stand for, the first one being the lowest. */
  ghost function NumberOf(s: seq<Byte>): nat {
    if s == [] then 0 else s[0] + 256 * NumberOf(s[1..])
  }

  lemma NumberOfFour(b: seq<Byte>)
    requires |b| == 4
    ensures NumberOf(b) == (b[0] as int) + 0x100 * (b[1] as int) + 0x1_0000 * (b[2] as int) + 0x100_0000 * (b[3] as int)
  {
    var t := b[1..];
    var u := t[1..];
    var v := u[1..];
    assert v == [b[3]] && v[1..] == [];
    assert NumberOf(v) == b[3] as int && NumberOf(u) == (b[2] as int) + 256 * NumberOf(v);
    assert NumberOf(t) == (b[1] as int) + 256 * NumberOf(u);
  }

  /** A word is written with its lowest byte first. */
  lemma WordBytes(w: Word)
    ensures NumberOf(LittleEndian(w)) == w
  {
    NumberOfFour(LittleEndian(w));
    var q1 := w / 0x100;
    var q2 := q1 / 0x100;
    assert w / 0x1_0000 == q2 && w / 0x100_0000 == q2 / 0x100;
  }

  lemma {:induction false} NumberOfTwo(a: seq<Byte>, b: seq<Byte>)
    requires |a| == 4
    ensures NumberOf(a + b) == NumberOf(a) + 0x1_0000_0000 * NumberOf(b)
  {
    NumberOfFour(a);
    var s := a + b;
    var t := s[1..];
    var u := t[1..];
    var v := u[1..];
    assert v[1..] == b && v[0] == a[3] && u[0] == a[2] && t[0] == a[1];
    assert NumberOf(v) == (a[3] as int) + 256 * NumberOf(b) && NumberOf(u) == (a[2] as int) + 256 * NumberOf(v);
    assert NumberOf(t) == (a[1] as int) + 256 * NumberOf(u);
  }

  /** The eight bytes after the padding hold the length in bits, modulo 2^64. */
  lemma LengthNumber(length: nat)
    ensures NumberOf(LengthBytes(length)) == 8 * length % 0x1_0000_0000_0000_0000
  {
    var bits := 8 * length;
    WordBytes(Low(bits));
    WordBytes(High(bits));
    NumberOfTwo(LittleEndian(Low(bits)), LittleEndian(High(bits)));
    LowAndHigh(bits);
  }

  lemma LowAndHigh(bits: nat)
    ensures Low(bits) + 0x1_0000_0000 * High(bits) == bits % 0x1_0000_0000_0000_0000
  {
    var q := bits / 0x1_0000_0000_0000_0000;
    var r := bits % 0x1_0000_0000_0000_0000;
    assert bits == 0x1_0000_0000 * (0x1_0000_0000 * q + r / 0x1_0000_0000) + r % 0x1_0000_0000;
    assert bits / 0x1_0000_0000 == 0x1_0000_0000 * q + r / 0x1_0000_0000;
  }

  /** The digest is the four registers in their order, each with its lowest byte first. */
  lemma OutputNumbers(r: Regs)
    ensures |Output(r)| == 16
    ensures NumberOf(Output(r)[..4]) == r.a && NumberOf(Output(r)[4..8]) == r.b
    ensures NumberOf(Output(r)[8..12]) == r.c && NumberOf(Output(r)[12..]) == r.d
  {
    WordBytes(r.a);
    WordBytes(r.b);
    WordBytes(r.c);
    WordBytes(r.d);
    assert Output(r)[..4] == LittleEndian(r.a) && Output(r)[4..8] == LittleEndian(r.b);
    assert Output(r)[8..12] == LittleEndian(r.c) && Output(r)[12..] == LittleEndian(r.d);
  }

  /** The registers begin as the sixteen bytes of section 3.3 of RFC 1321. */
  lemma FirstRegisters()
    ensures Output(Init) == [0x01, 0x23, 0x45, 0x67, 0x89, 0xab, 0xcd, 0xef, 0xfe, 0xdc, 0xba, 0x98, 0x76, 0x54, 0x32, 0x10]
  {
    assert LittleEndian(Init.a) == [0x01, 0x23, 0x45, 0x67] && LittleEndian(Init.b) == [0x89, 0xab, 0xcd, 0xef];
    assert LittleEndian(Init.c) == [0xfe, 0xdc, 0xba, 0x98] && LittleEndian(Init.d) == [0x76, 0x54, 0x32, 0x10];
  }

  /** The padded message: the message, a byte 0x80, zero bytes up to 56 modulo 64 and no more than needed, and
      the length in bits. */
  lemma PaddingIs(m: seq<Byte>)
    ensures var r, n := Padded(m), |m|;
            && |r| % 64 == 0 && n + 9 <= |r| < n + 9 + 64
            && r[..n] == m && r[n] == 0x80 && (forall i :: n < i < |r| - 8 ==> r[i] == 0)
            && NumberOf(r[|r| - 8..]) == 8 * n % 0x1_0000_0000_0000_0000
  {
    var r := Padded(m);
    LengthNumber(|m|);
    assert r[|r| - 8..] == LengthBytes(|m|);
  }

  /** The digest of a message: the registers go through the blocks of the padded message one after the other. */
  lemma BlocksInOrder(f: Compress, data: seq<Byte>, k: nat)
    requires 64 * (k + 1) <= |data|
    ensures Blocks(f, data, 0) == Regs(0x6745_2301, 0xefcd_ab89, 0x98ba_dcfe, 0x1032_5476)
    ensures Blocks(f, data, k + 1) == f(Blocks(f, data, k), data[64 * k..64 * k + 64])
  {
  }

  // ---------------------------------------------------------------------------
  // The length counter
  // ---------------------------------------------------------------------------

  ghost predicate Wrapped(length: nat, c0: Word, c1: Word, q: nat) {
    8 * length == (q * 0x1_0000_0000 + c1) * 0x1_0000_0000 + c0
  }

  /** The two words hold the length in bits, modulo 2^64. */
  ghost predicate Counted(length: nat, c0: Word, c1: Word) {
    exists q: nat {:trigger Wrapped(length, c0, c1, q)} :: Wrapped(length, c0, c1, q)
  }

  lemma CountedWords(length: nat, c0: Word, c1: Word)
    requires Counted(length, c0, c1)
    ensures c0 == Low(8 * length) && c1 == High(8 * length)
  {
    var q: nat :| Wrapped(length, c0, c1, q);
    Residue(q * 0x1_0000_0000 + c1, c0);
    Residue(q, c1);
  }

  lemma Residue(q: nat, r: Word)
    ensures (q * 0x1_0000_0000 + r) % 0x1_0000_0000 == r && (q * 0x1_0000_0000 + r) / 0x1_0000_0000 == q
  {
  }

  /** The position in the block, from the low word of the bit count. */
  lemma Offset(length: nat, c0: Word, c1: Word)
    requires Counted(length, c0, c1)
    ensures c0 / 8 % 64 == length % 64
  {
    var q: nat :| Wrapped(length, c0, c1, q);
    var h := q * 0x1_0000_0000 + c1;
    assert c0 == 8 * (length - h * 0x2000_0000);
    assert c0 / 8 == length - 64 * (h * 0x80_0000);
  }

  /** Adding a number of bytes to the two words of the bit count. */
  lemma Counting(length: nat, c0: Word, c1: Word, more: nat)
    requires Counted(length, c0, c1)
    ensures var bits := Low(8 * more); var low := (c0 + bits) % 0x1_0000_0000;
            Counted(length + more, low,
                    (c1 + more / 0x2000_0000 + (if low < bits then 1 else 0)) % 0x1_0000_0000)
  {
    var q: nat :| Wrapped(length, c0, c1, q);
    var b, high := Low(8 * more), more / 0x2000_0000;
    LowOf(more);
    var carry := if c0 + b >= 0x1_0000_0000 then 1 else 0;
    var low := (c0 + b) % 0x1_0000_0000;
    assert low == c0 + b - carry * 0x1_0000_0000;
    var top := c1 + high + carry;
    assert Wrapped(length + more, low, top % 0x1_0000_0000, q + top / 0x1_0000_0000);
  }

  lemma LowOf(more: nat)
    ensures 8 * more == more / 0x2000_0000 * 0x1_0000_0000 + Low(8 * more)
  {
    var q, r := more / 0x2000_0000, more % 0x2000_0000;
    Residue(q, 8 * r);
    assert 8 * more == q * 0x1_0000_0000 + 8 * r;
  }

  // ---------------------------------------------------------------------------
  // The state
  // ---------------------------------------------------------------------------

  /** The first m blocks of the data have been processed, the rest is in the buffer. */
  ghost predicate Buffered(f: Compress, data: seq<Byte>, m: nat, regs: Regs, buf: seq<Byte>) {
    && |buf| == 64 && 64 * m <= |data| < 64 * m + 64 && regs == Blocks(f, data, m)
    && buf[..|data| - 64 * m] == data[64 * m..]
  }

  /** All of the data has been processed. */
  ghost predicate Drained(f: Compress, data: seq<Byte>, m: nat, regs: Regs) {
    |data| == 64 * m && regs == Blocks(f, data, m)
  }

  lemma DrainedMore(f: Compress, data: seq<Byte>, m: nat, regs: Regs, block: seq<Byte>)
    requires Drained(f, data, m, regs) && |block| == 64
    ensures Drained(f, data + block, m + 1, f(regs, block))
  {
    assert (data + block)[64 * m..64 * (m + 1)] == block;
    BlocksPrefix(f, data + block, data, m);
  }

  /** The buffer is completed and processed. */
  lemma BufferProcessed(f: Compress, data: seq<Byte>, m: nat, regs: Regs, buf: seq<Byte>, load: seq<Byte>)
    requires Buffered(f, data, m, regs, buf) && |data| + |load| == 64 * m + 64
    ensures Drained(f, data + load, m + 1, f(regs, buf[..|data| - 64 * m] + load))
  {
    var before, off := data[..64 * m], |data| - 64 * m;
    BlocksPrefix(f, before, data, m);
    DrainedMore(f, before, m, regs, buf[..off] + load);
    assert before + (buf[..off] + load) == data + load;
  }

  lemma Filled(f: Compress, data: seq<Byte>, m: nat, regs: Regs, buf: seq<Byte>, input: seq<Byte>)
    requires Buffered(f, data, m, regs, buf) && |data| + |input| < 64 * m + 64
    ensures var off := |data| - 64 * m; Buffered(f, data + input, m, regs, buf[..off] + input + buf[off + |input|..])
  {
    var off := |data| - 64 * m;
    BlocksPrefix(f, data + input, data, m);
    var b := buf[..off] + input + buf[off + |input|..];
    assert b[..off + |input|] == (data + input)[64 * m..];
  }

  lemma Refilled(f: Compress, data: seq<Byte>, m: nat, regs: Regs, buf: seq<Byte>, rest: seq<Byte>)
    requires Drained(f, data, m, regs) && |buf| == 64 && |rest| < 64
    ensures Buffered(f, data + rest, m, regs, rest + buf[|rest|..])
  {
    BlocksPrefix(f, data + rest, data, m);
    assert (rest + buf[|rest|..])[..|rest|] == (data + rest)[64 * m..];
  }

  // ---------------------------------------------------------------------------
  // The length of the first copy
  // ---------------------------------------------------------------------------

  /** The sum of two int values, wrapping around. */
  function IntSum(a: nat, b: nat): (r: int)
    requires a < 0x8000_0000 && b < 0x8000_0000
    ensures -0x8000_0000 <= r < 0x8000_0000 && (r == a + b || r + 0x1_0000_0000 == a + b)
  {
    if a + b < 0x8000_0000 then a + b else a + b - 0x1_0000_0000
  }

  /** How many bytes md5_append copies behind the offset bytes in the buffer. */
  function CopyLength(offset: nat, nbytes: nat): nat
    requires offset < 64 && nbytes < 0x8000_0000
  {
    if IntSum(offset, nbytes) > 64 then 64 - offset else nbytes
  }

  /** An append that md5_append can do: the length is an int, and so is its sum with what is buffered. */
  predicate Fits(buffered: nat, nbytes: nat) {
    nbytes < 0x8000_0000 && (buffered == 0 || buffered + nbytes < 0x8000_0000)
  }

  /** The copy stays within the buffer exactly when the sum of offset and length is an int value. */
  lemma CopyFits(offset: nat, nbytes: nat)
    requires 0 < offset < 64 && 0 < nbytes < 0x8000_0000
    ensures offset + CopyLength(offset, nbytes) <= 64 <==> offset + nbytes < 0x8000_0000
    ensures Fits(offset, nbytes) <==> offset + CopyLength(offset, nbytes) <= 64
    ensures offset + nbytes < 0x8000_0000 ==> CopyLength(offset, nbytes) == if offset + nbytes > 64 then 64 - offset else nbytes
  {
  }

  /** One byte in the buffer and a piece of the largest int length: the copy runs past the buffer. */
  lemma CopyOverruns()
    ensures CopyLength(1, 0x7fff_ffff) == 0x7fff_ffff
  {
  }

  class Md5State {
    const process: Compress
    var count0: Word
    var count1: Word
    var abcd: Regs
    var buf: array<Byte>
    /** The message so far, and the number of its blocks that have been processed. */
    ghost var data: seq<Byte>
    ghost var m: nat

    ghost predicate Valid()
      reads this, buf
    {
      && buf.Length == 64 && Counted(|data|, count0, count1)
      && Buffered(process, data, m, abcd, buf[..])
    }

    /** md5_init. */
    constructor (process: Compress)
      ensures Valid() && data == [] && this.process == process && fresh(buf)
    {
      this.process := process;
      count0, count1, abcd := 0, 0, Init;
      buf := new Byte[64](_ => 0);
      data, m := [], 0;
      new;
      assert Wrapped(0, 0, 0, 0);
    }

    /** The initial partial block; the rest of the input starts on a block boundary if it is completed. */
    method PartialBlock(input: seq<Byte>, offset: nat) returns (copy: nat)
      requires buf.Length == 64 && Buffered(process, data, m, abcd, buf[..]) && 0 < offset == |data| - 64 * m
      requires 0 < |input| && offset + |input| < 0x8000_0000
      modifies this`abcd, this`data, this`m, buf
      ensures copy == (if offset + |input| > 64 then 64 - offset else |input|) && data == old(data) + input[..copy]
      ensures if offset + copy < 64 then copy == |input| && Buffered(process, data, m, abcd, buf[..]) else Drained(process, data, m, abcd)
    {
      copy := CopyLength(offset, |input|);
      CopyFits(offset, |input|);
      ghost var before := buf[..];
      CopyInto(buf, offset, input[..copy]);
      if offset + copy < 64 {
        Filled(process, data, m, abcd, before, input[..copy]);
      } else {
        BufferProcessed(process, data, m, abcd, before, input[..copy]);
        assert buf[..] == before[..offset] + input[..copy];
        abcd := process(abcd, buf[..]);
        m := m + 1;
      }
      data := data + input[..copy];
    }

    /** The full blocks of the input. */
    method FullBlocks(input: seq<Byte>, start: nat) returns (pos: nat)
      requires Drained(process, data, m, abcd) && start <= |input|
      modifies this`abcd, this`data, this`m
      ensures start <= pos <= |input| < pos + 64 && data == old(data) + input[start..pos] && Drained(process, data, m, abcd)
    {
      pos := start;
      while |input| - pos >= 64
        invariant start <= pos <= |input| && data == old(data) + input[start..pos] && Drained(process, data, m, abcd)
        decreases |input| - pos
      {
        DrainedMore(process, data, m, abcd, input[pos..pos + 64]);
        assert input[start..pos] + input[pos..pos + 64] == input[start..pos + 64];
        abcd := process(abcd, input[pos..pos + 64]);
        data, m := data + input[pos..pos + 64], m + 1;
        pos := pos + 64;
      }
    }

    method FinalPartial(input: seq<Byte>, pos: nat)
      requires buf.Length == 64 && Drained(process, data, m, abcd) && pos <= |input| < pos + 64
      modifies this`data, buf
      ensures data == old(data) + input[pos..] && Buffered(process, data, m, abcd, buf[..])
    {
      ghost var before := buf[..];
      Refilled(process, data, m, abcd, before, input[pos..]);
      CopyInto(buf, 0, input[pos..]);
      assert buf[..] == input[pos..] + before[|input| - pos..];
      data := data + input[pos..];
    }

    /** The blocks of the input. */
    method TakeIn(input: seq<Byte>, offset: nat)
      requires buf.Length == 64 && Buffered(process, data, m, abcd, buf[..]) && offset == |data| - 64 * m
      requires 0 < |input| && (offset == 0 || offset + |input| < 0x8000_0000)
      modifies this`abcd, this`data, this`m, buf
      ensures data == old(data) + input && Buffered(process, data, m, abcd, buf[..])
    {
      var pos := 0;
      if offset != 0 {
        pos := PartialBlock(input, offset);
        if offset + pos < 64 {
          assert input[..pos] == input;
          return;
        }
      }
      assert data == old(data) + input[..pos];
      ghost var from := pos;
      pos := FullBlocks(input, pos);
      FinalPartial(input, pos);
      Rejoined(old(data), input, from, pos);
    }

    /** Where in its block the next byte goes. */
    method BlockOffset() returns (offset: nat)
      requires Valid()
      ensures offset == |data| - 64 * m
    {
      Offset(|data|, count0, count1);
      offset := count0 / 8 % 64;
      InBlock(|data|, m);
    }

    /** Update the message length by n bytes. */
    method AddToCount(n: nat)
      requires Counted(|data|, count0, count1)
      modifies this`count0, this`count1
      ensures Counted(|data| + n, count0, count1)
    {
      Counting(|data|, count0, count1, n);
      CarryInTwo(count1 + n / 0x2000_0000);
      var bits := Low(8 * n);
      count1 := (count1 + n / 0x2000_0000) % 0x1_0000_0000;
      count0 := (count0 + bits) % 0x1_0000_0000;
      if count0 < bits {
        count1 := (count1 + 1) % 0x1_0000_0000;
      }
    }

    /** md5_append. */
    method Append(input: seq<Byte>)
      requires Valid() && Fits(|data| % 64, |input|)
      modifies this, buf
      ensures Valid() && data == old(data) + input && buf == old(buf)
    {
      if |input| == 0 {
        assert data + input == data;
        return;
      }
      var offset := BlockOffset();
      InBlock(|data|, m);
      AddToCount(|input|);
      TakeIn(input, offset);
    }

    /** md5_finish. */
    method Finish() returns (digest: seq<Byte>)
      requires Valid()
      modifies this, buf
      ensures digest == Digest(process, old(data))
    {
      var length, pad := Trailer();
      Append(pad);
      Append(length);
      FinalDigest(process, data, m, abcd, buf[..], old(data));
      digest := Output(abcd);
    }

    /** The length and the padding, both of which depend on the count before padding. */
    method Trailer() returns (length: seq<Byte>, pad: seq<Byte>)
      requires Valid()
      ensures length == LengthBytes(|data|) && pad == PadBytes(|data|) && |length| == 8 && |pad| <= 64
    {
      CountedWords(|data|, count0, count1);
      PadLength(|data|, count0, count1);
      length := LittleEndian(count0) + LittleEndian(count1);
      pad := [0x80] + seq((55 - count0 / 8) % 64, _ => 0);
    }
  }

  lemma InBlock(length: nat, m: nat)
    requires 64 * m <= length < 64 * m + 64
    ensures length % 64 == length - 64 * m && length / 64 == m
  {
  }

  lemma FinalDigest(f: Compress, data: seq<Byte>, m: nat, regs: Regs, buf: seq<Byte>, message: seq<Byte>)
    requires Buffered(f, data, m, regs, buf) && data == message + PadBytes(|message|) + LengthBytes(|message|)
    ensures Output(regs) == Digest(f, message)
  {
    assert data == Padded(message);
    InBlock(|data|, m);
  }

  lemma Rejoined(before: seq<Byte>, input: seq<Byte>, from: nat, pos: nat)
    requires from <= pos <= |input|
    ensures before + input[..from] + input[from..pos] + input[pos..] == before + input
  {
  }

  lemma PadLength(length: nat, c0: Word, c1: Word)
    requires Counted(length, c0, c1)
    ensures (55 - c0 / 8) % 64 == Zeros(length)
  {
    Offset(length, c0, c1);
    SameResidue(c0 / 8, length);
  }

  lemma CarryInTwo(x: nat)
    ensures (x % 0x1_0000_0000 + 1) % 0x1_0000_0000 == (x + 1) % 0x1_0000_0000
  {
  }

  lemma SameResidue(x: nat, y: nat)
    requires x % 64 == y % 64
    ensures (55 - x) % 64 == (55 - y) % 64
  {
  }

  /** Piece i can be appended to those before it without overrunning the buffer. */
  ghost predicate PieceFits(pieces: seq<seq<Byte>>, i: nat)
    requires i < |pieces|
  {
    Fits(|Concat(pieces[..i])| % 64, |pieces[i]|)
  }

  /** Pieces of at most 2^31 - 64 bytes always fit. */
  lemma SmallPieceFits(pieces: seq<seq<Byte>>, i: nat)
    requires i < |pieces| && |pieces[i]| <= 0x8000_0000 - 64
    ensures PieceFits(pieces, i)
  {
  }

  /** Any sequence of appends that fit, and then finishing, gives the digest of the concatenation. */
  method DigestPieces(process: Compress, pieces: seq<seq<Byte>>) returns (digest: seq<Byte>)
    requires forall i: nat {:trigger PieceFits(pieces, i)} :: i < |pieces| ==> PieceFits(pieces, i)
    ensures digest == Digest(process, Concat(pieces))
  {
    var state := new Md5State(process);
    AppendAll(state, pieces);
    digest := state.Finish();
  }

  method AppendAll(state: Md5State, pieces: seq<seq<Byte>>)
    requires state.Valid() && state.data == []
    requires forall i: nat {:trigger PieceFits(pieces, i)} :: i < |pieces| ==> PieceFits(pieces, i)
    modifies state, state.buf
    ensures state.Valid() && state.data == Concat(pieces) && state.buf == old(state.buf)
  {
    for i := 0 to |pieces|
      invariant state.Valid() && state.buf == old(state.buf) && state.data == Concat(pieces[..i])
    {
      assert pieces[..i + 1][..i] == pieces[..i];
      assert PieceFits(pieces, i);
      state.Append(pieces[i]);
    }
    assert pieces[..|pieces|] == pieces;
  }
}
