/**
  The streaming MD5 of base/md5.cpp: a message arrives in pieces of any length, full blocks are
  digested, the rest waits in a buffer, and the length is counted in bits in two 32-bit words.
  Everything holds for every compression function in the place of `md5_process`.
 */
module Md5 {
  import opened Bytes

  const TWO29: nat := 0x2000_0000
  const TWO32: nat := 0x1_0000_0000
  const TWO64: nat := 0x1_0000_0000_0000_0000

  type word = x: int | 0 <= x < 0x1_0000_0000

  datatype Words = Words(a: word, b: word, c: word, d: word)

  type Compression = (Words, bytes) -> Words

  const INITIAL := Words(0x67452301, 0xefcdab89, 0x98badcfe, 0x10325476)

  // ---------------------------------------------------------------- the message digest of RFC 1321

  /** The state after all full 64-byte blocks of `m`. */
  function Blocks(process: Compression, h: Words, m: bytes): Words
    decreases |m|
  {
    if |m| < 64 then h else Blocks(process, process(h, m[..64]), m[64..])
  }

  /** What does not fill a block. */
  function Tail(m: bytes): (t: bytes)
    ensures |t| == |m| % 64
  {
    m[|m| - |m| % 64..]
  }

  function Zeros(n: nat): (z: bytes)
    ensures |z| == n
  {
    seq(n, _ => 0)
  }

  /** A number of up to 64 bits in eight bytes, low-order byte first. */
  function LittleEndian(n: nat, size: nat): (r: bytes)
    ensures |r| == size
  {
    if size == 0 then [] else [n % 256] + LittleEndian(n / 256, size - 1)
  }

  /** Section 3.1: one 0x80 byte, then as many zero bytes as bring the length to 56 modulo 64. */
  function Padding(n: nat): (p: bytes)
    ensures 1 <= |p| <= 64 && (n + |p|) % 64 == 56
  {
    [0x80] + Zeros((55 - n) % 64)
  }

  /** Sections 3.1 and 3.2: the padding, and the length in bits modulo 2^64. */
  function Padded(m: bytes): bytes {
    m + Padding(|m|) + LittleEndian(8 * |m| % TWO64, 8)
  }

  /** Section 3.5: the four words of the state, low-order byte first. */
  function Output(h: Words): bytes {
    LittleEndian(h.a, 4) + LittleEndian(h.b, 4) + LittleEndian(h.c, 4) + LittleEndian(h.d, 4)
  }

  function Digest(process: Compression, m: bytes): bytes {
    Output(Blocks(process, INITIAL, Padded(m)))
  }

  function Power256(i: nat): nat {
    if i == 0 then 1 else 256 * Power256(i - 1)
  }

  lemma Quotient(x: nat, p: nat, q: nat, r: nat)
    requires x == q * p + r && r < p
    ensures x / p == q
  {
    var d := x / p - q;
    assert d * p == r - x % p;
  }

  lemma DivideTwice(n: nat, p: nat)
    requires p > 0
    ensures n / 256 / p == n / (256 * p)
  {
    var q, r := n / 256 / p, n / 256 % p;
    assert n / 256 == q * p + r;
    assert n == 256 * (q * p + r) + n % 256;
    assert 256 * (q * p) == q * (256 * p);
    Quotient(n, 256 * p, q, 256 * r + n % 256);
  }

  /** The byte at a place is the one of its weight. */
  lemma {:induction false} LittleEndianAt(n: nat, size: nat, j: nat)
    requires j < size
    ensures Power256(j) > 0 && LittleEndian(n, size)[j] == n / Power256(j) % 256
  {
    if j > 0 {
      LittleEndianAt(n / 256, size - 1, j - 1);
      DivideTwice(n, Power256(j - 1));
    }
  }

  /** Section 3.3: the words before the first block, low-order byte first. */
  lemma InitialState()
    ensures Output(INITIAL) == [
        0x01, 0x23, 0x45, 0x67, 0x89, 0xab, 0xcd, 0xef, 0xfe, 0xdc, 0xba, 0x98, 0x76, 0x54, 0x32, 0x10]
  {
    hide LittleEndian;
    WordBytes(INITIAL.a);
    WordBytes(INITIAL.b);
    WordBytes(INITIAL.c);
    WordBytes(INITIAL.d);
  }

  /** Sections 3.1 and 3.2, byte by byte. */
  lemma PaddedBytes(m: bytes)
    ensures var p, n := Padded(m), |m|;
      && n + 9 <= |p| <= n + 72 && |p| % 64 == 0 && p[..n] == m && p[n] == 0x80
      && (forall i | n < i < |p| - 8 :: p[i] == 0)
      && forall j | 0 <= j < 8 :: Power256(j) > 0 &&
           p[|p| - 8 + j] == 8 * n % 0x1_0000_0000_0000_0000 / Power256(j) % 256
  {
    PaddedLength(m);
    forall j | 0 <= j < 8
      ensures Power256(j) > 0 &&
        Padded(m)[|Padded(m)| - 8 + j] == 8 * |m| % 0x1_0000_0000_0000_0000 / Power256(j) % 256
    {
      LittleEndianAt(8 * |m| % TWO64, 8, j);
    }
    hide LittleEndian;
  }

  /** Section 3.5, byte by byte. */
  lemma OutputBytes(h: Words, i: nat)
    requires i < 4
    ensures |Output(h)| == 16 && Power256(i) > 0
    ensures Output(h)[i] == h.a / Power256(i) % 256 && Output(h)[4 + i] == h.b / Power256(i) % 256
    ensures Output(h)[8 + i] == h.c / Power256(i) % 256 && Output(h)[12 + i] == h.d / Power256(i) % 256
  {
    LittleEndianAt(h.a, 4, i);
    LittleEndianAt(h.b, 4, i);
    LittleEndianAt(h.c, 4, i);
    LittleEndianAt(h.d, 4, i);
    hide LittleEndian;
  }

  // ---------------------------------------------------------------- absorbing pieces

  lemma FirstBlock(process: Compression, h: Words, first: bytes, rest: bytes)
    requires |first| == 64
    ensures Blocks(process, h, first + rest) == Blocks(process, process(h, first), rest)
    ensures Tail(first + rest) == Tail(rest)
  {
    assert (first + rest)[..64] == first && (first + rest)[64..] == rest;
  }

  lemma NoBlock(process: Compression, h: Words, m: bytes)
    ensures |m| < 64 ==> Blocks(process, h, m) == h && Tail(m) == m
    ensures |m| == 64 ==> Blocks(process, h, m) == process(h, m) && Tail(m) == []
  {
    assert |m| == 64 ==> m[..64] == m;
  }

  lemma {:induction false} TailGrows(process: Compression, h: Words, m: bytes, d: bytes)
    requires |m| % 64 + |d| < 64
    ensures Blocks(process, h, m + d) == Blocks(process, h, m) && Tail(m + d) == Tail(m) + d
    decreases |m|
  {
    hide Blocks, Tail;
    if |m| >= 64 {
      var first, rest := m[..64], m[64..];
      assert m == first + rest;
      Associative(first, rest, d);
      FirstBlock(process, h, first, rest);
      FirstBlock(process, h, first, rest + d);
      TailGrows(process, process(h, first), rest, d);
    } else {
      NoBlock(process, h, m);
      NoBlock(process, h, m + d);
    }
  }

  lemma {:induction false} BlockFilled(process: Compression, h: Words, m: bytes, d: bytes)
    requires |m| % 64 + |d| == 64
    ensures Blocks(process, h, m + d) == process(Blocks(process, h, m), Tail(m) + d) && Tail(m + d) == []
    decreases |m|
  {
    hide Blocks, Tail;
    if |m| >= 64 {
      var first, rest := m[..64], m[64..];
      assert m == first + rest;
      Associative(first, rest, d);
      FirstBlock(process, h, first, rest);
      FirstBlock(process, h, first, rest + d);
      BlockFilled(process, process(h, first), rest, d);
    } else {
      NoBlock(process, h, m);
      NoBlock(process, h, m + d);
    }
  }

  // ---------------------------------------------------------------- the bit count in two words

  /** `count` after `n` bytes, low word first. */
  predicate Counts(count0: word, count1: word, n: nat) {
    count0 + count1 * TWO32 == 8 * n % TWO64
  }

  lemma CountedOffset(count0: word, count1: word, n: nat)
    requires Counts(count0, count1, n)
    ensures count0 / 8 % 64 == n % 64
  {
    var q := 8 * n / TWO64;
    assert 8 * n == q * TWO64 + count1 * TWO32 + count0;
    var k := q * 0x80_0000_0000_0000 + count1 * 0x80_0000;
    assert count0 == 8 * (n - 64 * k);
    Modulo64(n - 64 * k, n, k);
  }

  lemma Modulo64(r: int, n: int, k: int)
    requires n == r + 64 * k
    ensures r % 64 == n % 64
  {
  }

  /** The carry of `md5_append` keeps the two words together the count modulo 2^64. */
  lemma CountAdded(count0: word, count1: word, n: nat, nbytes: nat)
    requires Counts(count0, count1, n) && nbytes < 0x8000_0000
    ensures var nbits := nbytes * 8 % TWO32;
      var low := (count0 + nbits) % TWO32;
      var high := (count1 + nbytes / TWO29) % TWO32;
      Counts(low, if low < nbits then (high + 1) % TWO32 else high, n + nbytes)
  {
    var nbits := nbytes * 8 % TWO32;
    var low := (count0 + nbits) % TWO32;
    var carry := if low < nbits then 1 else 0;
    assert nbytes * 8 == nbytes / TWO29 * TWO32 + nbits;
    assert count0 + nbits == low + carry * TWO32;
    var high := count1 + nbytes / TWO29 + carry;
    assert count0 + count1 * TWO32 + nbytes * 8 == low + high * TWO32;
    ModuloSum(8 * n, nbytes * 8, low, high);
    CarryAdded(count1 + nbytes / TWO29, carry);
  }

  lemma CarryAdded(high: nat, carry: nat)
    requires carry <= 1
    ensures if carry == 1 then (high % TWO32 + 1) % TWO32 == (high + carry) % TWO32 else high + carry == high
  {
  }

  lemma ModuloSum(a: nat, b: nat, low: word, high: nat)
    requires a % TWO64 + b == low + high * TWO32
    ensures low + high % TWO32 * TWO32 == (a + b) % TWO64
  {
    assert a == a / TWO64 * TWO64 + a % TWO64;
    assert high == high / TWO32 * TWO32 + high % TWO32;
    Remainder(a + b, a / TWO64 + high / TWO32, low + high % TWO32 * TWO32);
  }

  lemma Remainder(x: nat, k: nat, r: nat)
    requires x == k * TWO64 + r && r < TWO64
    ensures x % TWO64 == r
  {
  }

  // ---------------------------------------------------------------- md5_init, md5_append, md5_finish

  /** The state words and the buffer after `m`. */
  ghost predicate Absorbed(process: Compression, abcd: Words, buf: bytes, m: bytes) {
    |buf| == 64 && abcd == Blocks(process, INITIAL, m) && buf[..|m| % 64] == Tail(m)
  }

  lemma NothingAbsorbed(process: Compression, buf: bytes)
    requires |buf| == 64
    ensures Absorbed(process, INITIAL, buf, []) && Counts(0, 0, 0)
  {
  }

  lemma PartAbsorbed(process: Compression, abcd: Words, buf: bytes, m: bytes, d: bytes)
    requires Absorbed(process, abcd, buf, m) && |m| % 64 + |d| < 64
    ensures Absorbed(process, abcd, Splice(buf, |m| % 64, d), m + d)
  {
    TailGrows(process, INITIAL, m, d);
    assert Splice(buf, |m| % 64, d)[..|m + d| % 64] == buf[..|m| % 64] + d;
    hide Blocks;
  }

  lemma BlockAbsorbed(process: Compression, abcd: Words, buf: bytes, m: bytes, d: bytes, buf': bytes)
    requires Absorbed(process, abcd, buf, m) && |m| % 64 + |d| == 64 && |buf'| == 64
    ensures Splice(buf, |m| % 64, d) == Tail(m) + d
    ensures Absorbed(process, process(abcd, Tail(m) + d), buf', m + d) && |m + d| % 64 == 0
  {
    BlockFilled(process, INITIAL, m, d);
    hide Blocks;
  }

  lemma AbsorbedLength(process: Compression, abcd: Words, buf: bytes, m: bytes)
    requires Absorbed(process, abcd, buf, m)
    ensures |buf| == 64
  {
  }

  lemma Joined(m: bytes, d: bytes, p: nat, q: nat)
    requires p <= q <= |d|
    ensures m + d[..p] + d[p..q] == m + d[..q]
  {
  }

  /** `(md5_byte_t)(w >> (i << 3))` */
  function ByteOf(w: word, i: nat): byte
    requires i < 4
  {
    if i == 0 then w % 256 else if i == 1 then w / 0x100 % 256
    else if i == 2 then w / 0x1_0000 % 256 else w / 0x100_0000 % 256
  }

  lemma WordBytes(w: word)
    ensures LittleEndian(w, 4) == [ByteOf(w, 0), ByteOf(w, 1), ByteOf(w, 2), ByteOf(w, 3)]
  {
    assert LittleEndian(w / 0x100_0000, 1) == [w / 0x100_0000 % 256];
    assert LittleEndian(w / 0x1_0000, 2) == [w / 0x1_0000 % 256, w / 0x100_0000 % 256];
    assert LittleEndian(w / 0x100, 3) == [w / 0x100 % 256, w / 0x1_0000 % 256, w / 0x100_0000 % 256];
  }

  lemma ByteSplit(low: nat, high: nat, p: nat)
    requires low < 256 * p
    ensures low / 256 < p
    ensures (low + high * (256 * p)) % 256 == low % 256 && (low + high * (256 * p)) / 256 == low / 256 + high * p
  {
    assert high * (256 * p) == 256 * (high * p);
    assert low + high * (256 * p) == low % 256 + 256 * (low / 256 + high * p);
  }

  lemma {:induction false} LittleEndianSplit(low: nat, high: nat, i: nat, j: nat, power: nat)
    requires Power256(i) == power && low < power
    ensures LittleEndian(low + high * power, i + j) == LittleEndian(low, i) + LittleEndian(high, j)
  {
    if i > 0 {
      var p := Power256(i - 1);
      ByteSplit(low, high, p);
      LittleEndianSplit(low / 256, high, i - 1, j, p);
    }
  }

  /** The length in two words, byte by byte, is the length in eight bytes. */
  lemma CountBytes(count0: word, count1: word, n: nat)
    requires Counts(count0, count1, n)
    ensures LittleEndian(8 * n % TWO64, 8) == LittleEndian(count0, 4) + LittleEndian(count1, 4)
  {
    assert Power256(2) == 256 * Power256(1) == 65536;
    assert Power256(4) == 256 * Power256(3) == TWO32;
    LittleEndianSplit(count0, count1, 4, 4, TWO32);
  }

  /** The pad length of `md5_finish`, computed with unsigned wrap-around, is the one of the RFC. */
  lemma PadLength(count0: word, count1: word, n: nat)
    requires Counts(count0, count1, n)
    ensures (55 - count0 / 8) % TWO32 % 64 + 1 == |Padding(n)|
  {
    var x := count0 / 8;
    CountedOffset(count0, count1, n);
    Modulo64((55 - x) % TWO32, 55 - x, (55 - x) / TWO32 * 0x400_0000);
    Modulo64(55 - x, 55 - n, x / 64 - n / 64);
  }

  lemma PaddedLength(m: bytes)
    ensures |Padded(m)| % 64 == 0
  {
    var n := |m| + |Padding(|m|)|;
    Modulo64(56 + 8, n + 8, n / 64);
    hide Padding, LittleEndian;
  }

  class Md5State {
    const process: Compression
    var count0: word
    var count1: word
    var abcd: Words
    const buf: array<byte>
    /** All bytes appended so far. */
    ghost var message: bytes

    ghost predicate Valid()
      reads this, buf
    {
      Absorbed(process, abcd, buf[..], message) && Counts(count0, count1, |message|)
    }

    /** `md5_init` */
    constructor (process: Compression)
      ensures Valid() && message == [] && this.process == process && fresh(buf)
      ensures abcd.a == 0x01 + 0x23 * 0x100 + 0x45 * 0x1_0000 + 0x67 * 0x100_0000
      ensures abcd.b == 0x89 + 0xab * 0x100 + 0xcd * 0x1_0000 + 0xef * 0x100_0000
      ensures abcd.c == 0xfe + 0xdc * 0x100 + 0xba * 0x1_0000 + 0x98 * 0x100_0000
      ensures abcd.d == 0x76 + 0x54 * 0x100 + 0x32 * 0x1_0000 + 0x10 * 0x100_0000
    {
      hide Absorbed, Counts;
      this.process := process;
      count0, count1 := 0, 0;
      abcd := INITIAL;
      buf := new byte[64];
      message := [];
      new;
      NothingAbsorbed(process, buf[..]);
    }

    /** `md5_append`: the state after any pieces is the state after their concatenation. */
    method Append(data: array<byte>, nbytes: int)
      requires Valid() && data != buf && nbytes <= data.Length && nbytes < 0x8000_0000
      modifies this, buf
      ensures Valid()
      ensures message == old(message) + if nbytes <= 0 then [] else old(data[..])[..nbytes]
    {
      if nbytes <= 0 {
        return;
      }
      ghost var m, d := message, data[..];
      var offset := count0 / 8 % 64;
      CountedOffset(count0, count1, |m|);
      assert buf.Length == 64;
      hide Absorbed, Counts;
      UpdateLength(nbytes);
      message := m + d[..nbytes];
      var p := 0;
      assert m + d[..0] == m;
      if offset != 0 {
        var copy := if offset + nbytes > 64 then 64 - offset else nbytes;
        FillBuffer(data, offset, copy, m);
        if offset + copy < 64 {
          return;
        }
        p := copy;
      }
      while nbytes - p >= 64
        invariant 0 <= p <= nbytes && data[..] == d
        invariant Absorbed(process, abcd, buf[..], m + d[..p]) && |m + d[..p]| % 64 == 0
        invariant message == m + d[..nbytes] && Counts(count0, count1, |message|)
      {
        ProcessBlock(data, p, m);
        p := p + 64;
      }
      KeepRest(data, p, nbytes, m);
    }

    method UpdateLength(nbytes: nat)
      requires Counts(count0, count1, |message|) && nbytes < 0x8000_0000
      modifies this`count0, this`count1
      ensures Counts(count0, count1, |message| + nbytes)
    {
      CountAdded(count0, count1, |message|, nbytes);
      var nbits := nbytes * 8 % TWO32;
      count1 := (count1 + nbytes / TWO29) % TWO32;
      count0 := (count0 + nbits) % TWO32;
      if count0 < nbits {
        count1 := (count1 + 1) % TWO32;
      }
    }

    /** The initial partial block: the first `copy` bytes go behind those that wait in the buffer. */
    method FillBuffer(data: array<byte>, offset: nat, copy: nat, ghost m: bytes)
      requires Absorbed(process, abcd, buf[..], m) && data != buf && offset == |m| % 64
      requires 0 < copy <= data.Length && offset + copy <= 64 == buf.Length
      modifies this`abcd, buf
      ensures data[..] == old(data[..])
      ensures Absorbed(process, abcd, buf[..], m + old(data[..])[..copy])
      ensures offset + copy == 64 ==> |m + old(data[..])[..copy]| % 64 == 0
    {
      ghost var before := buf[..];
      hide Absorbed, Splice;
      Copy(buf, offset, data[..copy]);
      if offset + copy < 64 {
        PartAbsorbed(process, abcd, before, m, data[..copy]);
      } else {
        BlockAbsorbed(process, abcd, before, m, data[..copy], buf[..]);
        abcd := process(abcd, buf[..]);
      }
      assert data[..copy] == old(data[..])[..copy];
    }

    method ProcessBlock(data: array<byte>, p: nat, ghost m: bytes)
      requires p + 64 <= data.Length && buf.Length == 64
      requires Absorbed(process, abcd, buf[..], m + data[..][..p]) && |m + data[..][..p]| % 64 == 0
      modifies this`abcd
      ensures Absorbed(process, abcd, buf[..], m + data[..][..p + 64]) && |m + data[..][..p + 64]| % 64 == 0
    {
      hide Absorbed;
      ghost var part := m + data[..][..p];
      BlockAbsorbed(process, abcd, buf[..], part, data[p..p + 64], buf[..]);
      assert part + data[p..p + 64] == m + data[..][..p + 64];
      assert Tail(part) + data[p..p + 64] == data[p..p + 64];
      abcd := process(abcd, data[p..p + 64]);
    }

    /** The final partial block waits in the buffer. */
    method KeepRest(data: array<byte>, p: nat, nbytes: nat, ghost m: bytes)
      requires p <= nbytes <= data.Length && nbytes - p < 64 && data != buf && buf.Length == 64
      requires Absorbed(process, abcd, buf[..], m + data[..][..p]) && |m + data[..][..p]| % 64 == 0
      modifies buf
      ensures Absorbed(process, abcd, buf[..], m + old(data[..])[..nbytes])
    {
      hide *;
      ghost var d, rest := data[..], data[p..nbytes];
      AbsorbedLength(process, abcd, buf[..], m + d[..p]);
      PartAbsorbed(process, abcd, buf[..], m + d[..p], rest);
      Joined(m, d, p, nbytes);
      if p < nbytes {
        Copy(buf, 0, data[p..nbytes]);
      } else {
        SpliceNothing(buf[..], 0);
      }
    }

    /** `md5_finish`: the digest is the one of the padded message, for every message. */
    method Finish(digest: array<byte>)
      requires Valid() && digest.Length == 16 && digest != buf
      modifies this, buf, digest
      ensures Valid() && |message| % 64 == 0 && message == Padded(old(message))
      ensures digest[..] == Digest(process, old(message))
      ensures forall i | 0 <= i < 4 ::
        Power256(i) > 0 &&
        digest[i] == abcd.a / Power256(i) % 256 && digest[4 + i] == abcd.b / Power256(i) % 256 &&
        digest[8 + i] == abcd.c / Power256(i) % 256 && digest[12 + i] == abcd.d / Power256(i) % 256
    {
      ghost var m := message;
      hide Padding, LittleEndian, Counts, Absorbed;
      var data := SaveLength();
      PadLength(count0, count1, |m|);
      var pad := PadBytes((55 - count0 / 8) % TWO32 % 64 + 1, |m|);
      Append(pad, (55 - count0 / 8) % TWO32 % 64 + 1);
      Append(data, 8);
      assert message == Padded(m);
      PaddedLength(m);
      hide Blocks, Padded, Output;
      WriteDigest(digest);
      forall i | 0 <= i < 4
        ensures Power256(i) > 0 &&
          digest[i] == abcd.a / Power256(i) % 256 && digest[4 + i] == abcd.b / Power256(i) % 256 &&
          digest[8 + i] == abcd.c / Power256(i) % 256 && digest[12 + i] == abcd.d / Power256(i) % 256
      {
        OutputBytes(abcd, i);
      }
    }

    /** The length before padding, as eight bytes. */
    method SaveLength() returns (data: array<byte>)
      requires Valid()
      ensures fresh(data) && data.Length == 8 && data[..][..8] == LittleEndian(8 * |message| % TWO64, 8)
    {
      hide Absorbed, Counts, LittleEndian;
      data := new byte[8];
      StoreWord(data, 0, count0);
      StoreWord(data, 4, count1);
      CountBytes(count0, count1, |message|);
    }

    /** The constant `pad`; its first `n` bytes are the padding of a message of `length` bytes. */
    method PadBytes(n: nat, ghost length: nat) returns (pad: array<byte>)
      requires n == |Padding(length)|
      ensures fresh(pad) && n <= pad.Length == 64 && pad[..][..n] == Padding(length)
    {
      pad := new byte[64](i => if i == 0 then 0x80 else 0);
    }

    method WriteDigest(digest: array<byte>)
      requires Valid() && digest.Length == 16 && digest != buf
      modifies digest
      ensures Valid() && digest[..] == Output(abcd) && abcd == Blocks(process, INITIAL, message)
    {
      assert abcd == Blocks(process, INITIAL, message);
      hide LittleEndian, Absorbed, Blocks, Counts, Splice;
      ghost var d := digest[..];
      var a, b := LittleEndian(abcd.a, 4), LittleEndian(abcd.b, 4);
      var c, e := LittleEndian(abcd.c, 4), LittleEndian(abcd.d, 4);
      StoreWord(digest, 0, abcd.a);
      StoreWord(digest, 4, abcd.b);
      SpliceSplice(d, 0, a, b);
      StoreWord(digest, 8, abcd.c);
      SpliceSplice(d, 0, a + b, c);
      StoreWord(digest, 12, abcd.d);
      SpliceSplice(d, 0, a + b + c, e);
      SpliceRead(d, 0, a + b + c + e);
    }

    /** Four turns of the loops that store a word low-order byte first. */
    method StoreWord(dest: array<byte>, at: nat, w: word)
      requires at + 4 <= dest.Length
      modifies dest
      ensures dest[..] == Splice(old(dest[..]), at, LittleEndian(w, 4))
    {
      hide LittleEndian, ByteOf;
      WordBytes(w);
      for i := 0 to 4
        invariant forall k | 0 <= k < i :: dest[at + k] == ByteOf(w, k)
        invariant forall k | 0 <= k < dest.Length && !(at <= k < at + i) :: dest[k] == old(dest[k])
      {
        dest[at + i] := ByteOf(w, i);
      }
    }
  }

  /** Hashing a message in pieces, however it is cut, gives the digest of the whole. */
  method HashPieces(process: Compression, pieces: seq<bytes>) returns (digest: array<byte>)
    requires forall i | 0 <= i < |pieces| :: |pieces[i]| < 0x8000_0000
    ensures digest[..] == Digest(process, Concat(pieces))
  {
    hide *;
    ConcatNothing<byte>();
    var state := new Md5State(process);
    assert pieces[..0] == [];
    for i := 0 to |pieces|
      invariant state.Valid() && state.process == process && fresh(state) && fresh(state.buf)
      invariant state.message == Concat(pieces[..i])
    {
      var n := |pieces[i]|;
      var data := new byte[n];
      ghost var zeros := data[..];
      Copy(data, 0, pieces[i]);
      SpliceRead(zeros, 0, pieces[i]);
      assert data[..][..n] == data[..][0..0 + n] == pieces[i];
      state.Append(data, n);
      assert pieces[..i] + [pieces[i]] == pieces[..i + 1];
      ConcatAppend(pieces[..i], pieces[i]);
    }
    assert pieces[..|pieces|] == pieces;
    digest := new byte[16];
    state.Finish(digest);
  }
}
