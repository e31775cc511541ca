/**
  The base64 codec of base/base64.cpp. Characters and octets are both bytes; the shifts
  and masks of the source act on unsigned values and are written as divisions,
  remainders and products by powers of two.
 */
module Base64 {
  import opened Options
  import opened Bytes

  const PAD: byte := 61

  /** The 64 letters of `b64_tbl`, in order: A-Z, a-z, 0-9, '+', '/'. */
  function Letter(i: nat): (c: byte)
    requires i < 64
    ensures c != PAD && c != NUL
    ensures i < 26 ==> c == 'A' as int + i
    ensures 26 <= i < 52 ==> c == 'a' as int + i - 26
    ensures 52 <= i < 62 ==> c == '0' as int + i - 52
    ensures (i == 62 ==> c == '+' as int) && (i == 63 ==> c == '/' as int) && PAD == '=' as int
  {
    if i < 26 then 65 + i
    else if i < 52 then 71 + i
    else if i < 62 then i - 4
    else if i == 62 then 43
    else 47
  }

  /**
    The offset that `strchr(b64_tbl, c) - b64_tbl` yields, None when it finds nothing. It would also find
    the terminator of the table, but the texts that are decoded end before a NUL.
   */
  function Index(c: byte): (r: Option<nat>)
    ensures r.Some? ==> r.value < 64
  {
    if 65 <= c <= 90 then Some(c - 65)
    else if 97 <= c <= 122 then Some(c - 71)
    else if 48 <= c <= 57 then Some(c + 4)
    else if c == 43 then Some(62)
    else if c == 47 then Some(63)
    else None
  }

  /** `Index` finds a letter at its own position and nothing else. */
  lemma IndexSearches(c: byte, i: nat)
    requires i < 64
    ensures Index(c) == Some(i) <==> Letter(i) == c
  {
  }

  // ---------------------------------------------------------------- encoding

  /** `encode_group` for 1 to 3 input bytes; missing bytes count as zero. */
  function EncodeGroup(g: bytes): (r: bytes)
    requires 1 <= |g| <= 3
    ensures |r| == 4
  {
    var b1 := if |g| > 1 then g[1] else 0;
    var b2 := if |g| > 2 then g[2] else 0;
    [ Letter(g[0] / 4),
      Letter(g[0] % 4 * 16 + b1 / 16),
      if |g| > 1 then Letter(b1 % 16 * 4 + b2 / 64) else PAD,
      if |g| > 2 then Letter(b2 % 64) else PAD ]
  }

  /**
    Section 4 of RFC 4648: the bytes of a group, with zeros for those missing, are one number of 24 bits, and its
    four parts of 6 bits, from the highest one on, are the places of the letters in the alphabet.
   */
  lemma GroupBits(g: bytes)
    requires 1 <= |g| <= 3
    ensures var b0, b1, b2: int := g[0], if |g| > 1 then g[1] else 0, if |g| > 2 then g[2] else 0;
      var n := b0 * 0x1_0000 + b1 * 0x100 + b2;
      var e := EncodeGroup(g);
      && e[0] == Letter(n / 0x4_0000) && e[1] == Letter(n / 0x1000 % 64)
      && e[2] == (if |g| > 1 then Letter(n / 64 % 64) else PAD)
      && e[3] == (if |g| > 2 then Letter(n % 64) else PAD)
  {
    hide Letter;
    var b1: byte := if |g| > 1 then g[1] else 0;
    var b2: byte := if |g| > 2 then g[2] else 0;
    SextetsOf(g[0], b1, b2);
  }

  lemma SextetsOf(b0: byte, b1: byte, b2: byte)
    ensures var n := b0 as int * 0x1_0000 + b1 as int * 0x100 + b2;
      && n / 0x4_0000 == b0 / 4 && n / 0x1000 % 64 == b0 % 4 * 16 + b1 / 16
      && n / 64 % 64 == b1 % 16 * 4 + b2 / 64 && n % 64 == b2 % 64
  {
    var n := b0 as int * 0x1_0000 + b1 as int * 0x100 + b2;
    var w, x, y, z := b0 / 4, b0 % 4 * 16 + b1 / 16, b1 % 16 * 4 + b2 / 64, b2 % 64;
    assert b0 == 4 * w + b0 % 4;
    assert b1 == 16 * (b1 / 16) + b1 % 16;
    assert b2 == 64 * (b2 / 64) + z;
    assert n == w * 0x4_0000 + x * 0x1000 + y * 64 + z;
    FourParts(n, w, x, y, z);
  }

  lemma FourParts(n: nat, w: nat, x: nat, y: nat, z: nat)
    requires n == w * 0x4_0000 + x * 0x1000 + y * 64 + z && x < 64 && y < 64 && z < 64
    ensures n / 0x4_0000 == w && n / 0x1000 % 64 == x && n / 64 % 64 == y && n % 64 == z
  {
    assert n / 0x1000 == w * 64 + x;
    assert n / 64 == (w * 64 + x) * 64 + y;
  }

  function Encode(s: bytes): (r: bytes)
    ensures |r| % 4 == 0
  {
    if s == [] then []
    else EncodeGroup(s[..Min(3, |s|)]) + Encode(s[Min(3, |s|)..])
  }

  lemma EncodeNothing()
    ensures Encode([]) == []
  {
  }

  /** The padded length of section 4 of RFC 4648: four letters for every started group of three. */
  lemma {:induction false} EncodeLength(s: bytes)
    ensures |Encode(s)| == (|s| + 2) / 3 * 4
  {
    hide EncodeGroup;
    if |s| > 3 {
      EncodeLength(s[3..]);
      assert (|s| + 2) / 3 == (|s| - 3 + 2) / 3 + 1;
    }
  }

  /** The letters of every group. */
  lemma {:induction false} EncodeAt(s: bytes, j: nat)
    requires 3 * j < |s|
    ensures 4 * j + 4 <= |Encode(s)|
    ensures Encode(s)[4 * j..4 * j + 4] == EncodeGroup(s[3 * j..Min(3 * j + 3, |s|)])
  {
    hide EncodeGroup;
    var n := Min(3, |s|);
    if j > 0 {
      EncodeAt(s[n..], j - 1);
      DropDrop(s, 3, 3 * j - 3);
      assert s[n..][3 * (j - 1)..Min(3 * (j - 1) + 3, |s| - 3)] == s[3 * j..Min(3 * j + 3, |s|)];
      assert Encode(s)[4 * j..4 * j + 4] == Encode(s[n..])[4 * (j - 1)..4 * (j - 1) + 4];
    }
  }

  /** Encoding piecewise is sound as long as every piece but the last has a multiple of three bytes. */
  lemma {:induction false} EncodeConcat(x: bytes, y: bytes)
    requires |x| % 3 == 0
    ensures Encode(x + y) == Encode(x) + Encode(y)
  {
    if x == [] {
      assert x + y == y;
    } else {
      assert (x + y)[..3] == x[..3];
      assert (x + y)[3..] == x[3..] + y;
      EncodeConcat(x[3..], y);
    }
  }

  lemma {:induction false} EncodeIsText(s: bytes)
    ensures NUL !in Encode(s)
  {
    if s == [] {
    } else {
      EncodeIsText(s[Min(3, |s|)..]);
    }
  }

  // ---------------------------------------------------------------- decoding

  /**
    The groups `decode_group` can handle: it subtracts table positions of its first two
    characters even when the table does not contain them.
   */
  predicate GroupDecodable(g: bytes)
    requires |g| == 4
  {
    g[0] == PAD || g[1] == PAD || (Index(g[0]).Some? && Index(g[1]).Some?)
  }

  // The three output bytes as unsigned chars: what the shifts push past bit 7 is lost.
  function Byte0(i0: nat, i1: nat): byte
    requires i0 < 64 && i1 < 64
  {
    i0 * 4 + i1 / 16
  }

  function Byte1(i1: nat, i2: nat): byte
    requires i1 < 64 && i2 < 64
  {
    i1 % 16 * 16 + i2 / 4
  }

  function Byte2(i2: nat, i3: nat): byte
    requires i2 < 64 && i3 < 64
  {
    i2 % 4 * 64 + i3
  }

  function DecodeGroup(g: bytes): (r: bytes)
    requires |g| == 4 && GroupDecodable(g)
    ensures |r| <= 3
  {
    if g[0] == PAD || g[1] == PAD then []
    else
      var i0, i1 := Index(g[0]).value, Index(g[1]).value;
      if g[2] == PAD || Index(g[2]).None? then [Byte0(i0, i1)]
      else
        var i2 := Index(g[2]).value;
        if g[3] == PAD || Index(g[3]).None? then [Byte0(i0, i1), Byte1(i1, i2)]
        else [Byte0(i0, i1), Byte1(i1, i2), Byte2(i2, Index(g[3]).value)]
  }

  /**
    Back from the four letters to the 24 bits: decoding ends at the first character from the third on that is no
    letter, and there is nothing to decode if one of the first two is the padding.
   */
  lemma GroupBytes(g: bytes, i: nat, j: nat, k: nat, l: nat)
    requires |g| == 4 && i < 64 && j < 64 && k < 64 && l < 64
    ensures g[0] == PAD || g[1] == PAD ==> GroupDecodable(g) && DecodeGroup(g) == []
    ensures GroupDecodable(g) && g[0] != PAD && g[1] != PAD ==>
      exists m, n | 0 <= m < 64 && 0 <= n < 64 :: g[0] == Letter(m) && g[1] == Letter(n)
    ensures g[0] == Letter(i) && g[1] == Letter(j) ==>
      GroupDecodable(g) &&
      var n := i * 0x4_0000 + j * 0x1000 + k * 64 + l;
      var b0: byte, b1: byte, b2: byte := n / 0x1_0000, n / 0x100 % 256, n % 256;
      && (g[2] == Letter(k) && g[3] == Letter(l) ==> DecodeGroup(g) == [b0, b1, b2])
      && (g[2] == Letter(k) && (forall m | 0 <= m < 64 :: g[3] != Letter(m)) ==> DecodeGroup(g) == [b0, b1])
      && ((forall m | 0 <= m < 64 :: g[2] != Letter(m)) ==> DecodeGroup(g) == [b0])
  {
    BytesOf(i, j, k, l);
    hide Letter, Index, Byte0, Byte1, Byte2;
    IndexSearches(g[0], i);
    IndexSearches(g[1], j);
    IndexSearches(g[2], k);
    IndexSearches(g[3], l);
    NoLetter(g[2]);
    NoLetter(g[3]);
    LettersAreLetters(i, j);
    LettersAreLetters(k, l);
    if Index(g[0]).Some? && Index(g[1]).Some? {
      IndexSearches(g[0], Index(g[0]).value);
      IndexSearches(g[1], Index(g[1]).value);
    }
  }

  lemma LettersAreLetters(i: nat, j: nat)
    requires i < 64 && j < 64
    ensures Letter(i) != PAD && Letter(j) != PAD
  {
  }

  lemma NoLetter(c: byte)
    ensures (forall m | 0 <= m < 64 :: c != Letter(m)) ==> Index(c).None?
    ensures Index(PAD).None?
  {
    if Index(c).Some? {
      IndexSearches(c, Index(c).value);
    }
  }

  lemma BytesOf(i: nat, j: nat, k: nat, l: nat)
    requires i < 64 && j < 64 && k < 64 && l < 64
    ensures var n := i * 0x4_0000 + j * 0x1000 + k * 64 + l;
      && n / 0x1_0000 == Byte0(i, j) && n / 0x100 % 256 == Byte1(j, k) && n % 256 == Byte2(k, l)
  {
    var n := i * 0x4_0000 + j * 0x1000 + k * 64 + l;
    var b0: int, b1: int, b2: int := Byte0(i, j), Byte1(j, k), Byte2(k, l);
    assert j == 16 * (j / 16) + j % 16;
    assert k == 4 * (k / 4) + k % 4;
    assert n == b0 * 0x1_0000 + b1 * 0x100 + b2;
    ThreeParts(n, b0, b1, b2);
  }

  lemma ThreeParts(n: nat, x: nat, y: nat, z: nat)
    requires n == x * 0x1_0000 + y * 0x100 + z && y < 256 && z < 256
    ensures n / 0x1_0000 == x && n / 0x100 % 256 == y && n % 256 == z
  {
    assert n / 0x100 == x * 256 + y;
  }

  predicate Decodable(t: bytes) {
    |t| % 4 == 0 &&
    (t == [] || (GroupDecodable(t[..4]) && Decodable(t[4..])))
  }

  function Decode(t: bytes): (r: bytes)
    requires Decodable(t)
  {
    if t == [] then [] else DecodeGroup(t[..4]) + Decode(t[4..])
  }

  lemma {:induction false} DecodeConcat(t: bytes, u: bytes)
    requires Decodable(t) && Decodable(u)
    ensures Decodable(t + u)
    ensures Decode(t + u) == Decode(t) + Decode(u)
  {
    hide DecodeGroup, GroupDecodable;
    if t == [] {
      assert t + u == u;
    } else {
      var g, rest := t[..4], t[4..];
      DecodeConcat(rest, u);
      DecodeFirst(g, rest + u);
      Associative(g, rest, u);
      Associative(DecodeGroup(g), Decode(rest), Decode(u));
      assert t == g + rest;
    }
  }

  lemma DecodeFirst(g: bytes, rest: bytes)
    requires |g| == 4 && GroupDecodable(g) && Decodable(rest)
    ensures Decodable(g + rest) && Decode(g + rest) == DecodeGroup(g) + Decode(rest)
  {
    hide DecodeGroup, GroupDecodable;
    assert (g + rest)[..4] == g && (g + rest)[4..] == rest;
  }

  /** Behind whole groups a decodable text is decodable by itself. */
  lemma {:induction false} DecodableSplit(t: bytes, u: bytes)
    requires Decodable(t + u) && |t| % 4 == 0
    ensures Decodable(t) && Decodable(u)
  {
    hide GroupDecodable;
    if t == [] {
      assert t + u == u;
    } else {
      assert (t + u)[..4] == t[..4] && (t + u)[4..] == t[4..] + u;
      DecodableSplit(t[4..], u);
    }
  }

  lemma JoinSextets(a: byte, b: byte, c: byte)
    ensures Byte0(a / 4, a % 4 * 16 + b / 16) == a
    ensures Byte1(a % 4 * 16 + b / 16, b % 16 * 4 + c / 64) == b
    ensures Byte2(b % 16 * 4 + c / 64, c % 64) == c
  {
  }

  lemma DecodeEncodeGroup(g: bytes)
    requires 1 <= |g| <= 3
    ensures GroupDecodable(EncodeGroup(g))
    ensures DecodeGroup(EncodeGroup(g)) == g
  {
    hide Letter, Index, Byte0, Byte1, Byte2;
    var b1 := if |g| > 1 then g[1] else 0;
    var b2 := if |g| > 2 then g[2] else 0;
    var s0, s1, s2, s3 := g[0] / 4, g[0] % 4 * 16 + b1 / 16, b1 % 16 * 4 + b2 / 64, b2 % 64;
    var e := EncodeGroup(g);
    assert e[0] == Letter(s0) && e[1] == Letter(s1);
    IndexSearches(e[0], s0);
    IndexSearches(e[1], s1);
    IndexSearches(e[2], s2);
    IndexSearches(e[3], s3);
    JoinSextets(g[0], b1, b2);
  }

  lemma {:induction false} DecodeEncode(s: bytes)
    ensures Decodable(Encode(s))
    ensures Decode(Encode(s)) == s
  {
    hide DecodeGroup, GroupDecodable, EncodeGroup;
    if s == [] {
    } else {
      var n := Min(3, |s|);
      DecodeEncodeGroup(s[..n]);
      DecodeEncode(s[n..]);
      assert Encode(s)[..4] == EncodeGroup(s[..n]);
      assert Encode(s)[4..] == Encode(s[n..]);
      assert s == s[..n] + s[n..];
    }
  }

  // ---------------------------------------------------------------- the loops of the source

  lemma EncodeOneGroup(s: bytes, g: bytes)
    requires |s| % 3 == 0 && 1 <= |g| <= 3
    ensures Encode(s + g) == Encode(s) + EncodeGroup(g)
  {
    EncodeConcat(s, g);
    assert g[..Min(3, |g|)] == g && g[Min(3, |g|)..] == [];
    assert Encode([]) == [];
  }

  /** `dest` is `d` with the code of the first `i` bytes of `s` stored from `at` on. */
  ghost predicate Encoded(s: bytes, len: nat, d: bytes, at: nat, i: nat, outsz: nat, dest: bytes) {
    i <= len <= |s| && (i % 3 == 0 || i == len) && at + |Encode(s[..len])| <= |d| &&
    outsz == |Encode(s[..i])| <= |Encode(s[..len])| &&
    dest == Splice(d, at, Encode(s[..i]))
  }

  lemma PieceLength(left: nat, n: nat)
    requires left > 0 && n == Min(3, left)
    ensures 1 <= n <= 3 && n <= left && (n == 3 || n == left)
  {
  }

  lemma EncodeStep(s: bytes, len: nat, d: bytes, at: nat, i: nat, outsz: nat, dest: bytes, n: nat)
    requires Encoded(s, len, d, at, i, outsz, dest) && i < len && n == Min(3, len - i)
    ensures at + outsz + 4 <= |dest|
    ensures Encoded(s, len, d, at, i + n, outsz + 4, Splice(dest, at + outsz, EncodeGroup(s[i..i + n])))
  {
    hide EncodeGroup, Encode, Splice, Min;
    PieceLength(len - i, n);
    EncodeLength(s[..i]);
    EncodeLength(s[..len]);
    TakeJoin(s, i, i + n);
    EncodeOneGroup(s[..i], s[i..i + n]);
    SpliceSplice(d, at, Encode(s[..i]), EncodeGroup(s[i..i + n]));
  }

  /** `encode_group`. */
  method EncodeGroupInto(dest: array<byte>, at: nat, src: array<byte>, from: nat, n: nat)
    requires dest != src
    requires 1 <= n <= 3 && from + n <= src.Length && at + 4 <= dest.Length
    modifies dest
    ensures src[..] == old(src[..])
    ensures dest[..] == Splice(old(dest[..]), at, EncodeGroup(old(src[..])[from..from + n]))
  {
    hide EncodeGroup;
    var out := EncodeGroup(src[..][from..from + n]);
    dest[at], dest[at + 1], dest[at + 2], dest[at + 3] := out[0], out[1], out[2], out[3];
  }

  /** `b64_encode` into the buffer `dest`, from position `at` on. */
  method EncodeInto(dest: array<byte>, at: nat, src: array<byte>, len: nat) returns (outsz: nat)
    requires dest != src
    requires len <= src.Length
    requires at + |Encode(src[..][..len])| <= dest.Length
    modifies dest
    ensures outsz == |Encode(old(src[..])[..len])|
    ensures dest[..] == Splice(old(dest[..]), at, Encode(old(src[..])[..len]))
  {
    hide Encoded, EncodeGroup, Encode, Splice;
    ghost var s, d := src[..], dest[..];
    var i := 0;
    outsz := 0;
    EncodedNone(s, len, d, at);
    while i < len
      invariant i <= len && src[..] == s
      invariant Encoded(s, len, d, at, i, outsz, dest[..])
    {
      var n := Min(3, len - i);
      EncodeStep(s, len, d, at, i, outsz, dest[..], n);
      EncodeGroupInto(dest, at + outsz, src, i, n);
      i, outsz := i + n, outsz + 4;
    }
    EncodedAll(s, len, d, at, outsz, dest[..]);
  }

  lemma EncodedNone(s: bytes, len: nat, d: bytes, at: nat)
    requires len <= |s| && at + |Encode(s[..len])| <= |d|
    ensures Encoded(s, len, d, at, 0, 0, d)
  {
  }

  lemma EncodedAll(s: bytes, len: nat, d: bytes, at: nat, outsz: nat, dest: bytes)
    requires Encoded(s, len, d, at, len, outsz, dest)
    ensures outsz == |Encode(s[..len])| && at + outsz <= |d| && dest == Splice(d, at, Encode(s[..len]))
  {
  }

  // ---------------------------------------------------------------- decoding any text

  /**
    What the code computes at an output position from two letters of which one at least is not in the
    table: it goes on with the difference of a null address and that of the table.
   */
  type Lost = (nat, byte, byte) -> byte

  /** `decode_group` for any four letters. */
  function GroupOutput(g: bytes, lost: Lost): (r: bytes)
    requires |g| == 4
    ensures |r| <= 3
  {
    var t1, t2, t3, t4 := Index(g[0]), Index(g[1]), Index(g[2]), Index(g[3]);
    if g[0] == PAD || g[1] == PAD then []
    else
      var b0 := if t1.Some? && t2.Some? then Byte0(t1.value, t2.value) else lost(0, g[0], g[1]);
      if g[2] == PAD || t3.None? then [b0]
      else
        var b1 := if t2.Some? then Byte1(t2.value, t3.value) else lost(1, g[1], g[2]);
        if g[3] == PAD || t4.None? then [b0, b1] else [b0, b1, Byte2(t3.value, t4.value)]
  }

  lemma GroupCases(g: bytes, lost: Lost)
    requires |g| == 4
    ensures g[0] == PAD || g[1] == PAD ==> GroupOutput(g, lost) == []
    ensures g[0] != PAD && g[1] != PAD ==>
      var t1, t2, t3, t4 := Index(g[0]), Index(g[1]), Index(g[2]), Index(g[3]);
      var b0 := if t1.Some? && t2.Some? then Byte0(t1.value, t2.value) else lost(0, g[0], g[1]);
      if g[2] == PAD || t3.None? then GroupOutput(g, lost) == [b0]
      else
        var b1 := if t2.Some? then Byte1(t2.value, t3.value) else lost(1, g[1], g[2]);
        GroupOutput(g, lost) == if g[3] == PAD || t4.None? then [b0, b1] else [b0, b1, Byte2(t3.value, t4.value)]
  {
    hide Index, Byte0, Byte1, Byte2;
  }

  function Output(t: bytes, lost: Lost): bytes
    requires |t| % 4 == 0
  {
    if t == [] then [] else GroupOutput(t[..4], lost) + Output(t[4..], lost)
  }

  /** For decodable text no such difference is used. */
  lemma {:induction false} OutputDecodes(t: bytes, lost: Lost)
    requires Decodable(t)
    ensures Output(t, lost) == Decode(t)
  {
    if t != [] {
      OutputDecodes(t[4..], lost);
    }
    hide Index, Byte0, Byte1, Byte2;
  }

  lemma {:induction false} OutputAppend(t: bytes, g: bytes, lost: Lost)
    requires |t| % 4 == 0 && |g| == 4
    ensures Output(t + g, lost) == Output(t, lost) + GroupOutput(g, lost)
  {
    hide GroupOutput;
    if t == [] {
      assert t + g == g && g[..4] == g && g[4..] == [];
    } else {
      var first, rest := t[..4], t[4..];
      OutputAppend(rest, g, lost);
      assert (t + g)[..4] == first && (t + g)[4..] == rest + g;
      Associative(GroupOutput(first, lost), Output(rest, lost), GroupOutput(g, lost));
    }
  }

  lemma OutputNothing(lost: Lost)
    ensures Output([], lost) == []
  {
  }

  /**
    The first `i` characters of the text of `s` are decoded into `d`, which is now `dest`;
    the characters still to be read are untouched in `src`, even if `src` is that buffer.
   */
  ghost predicate Decoded(s: bytes, d: bytes, lost: Lost, i: nat, outsz: nat, src: bytes, dest: bytes)
    requires NUL in s
  {
    var t := CText(s);
    i <= |t| && i % 4 == 0 && |t| % 4 == 0 && |t| / 4 * 3 <= |d| &&
    outsz == |Output(t[..i], lost)| <= i / 4 * 3 &&
    |src| == |s| && src[i..] == s[i..] &&
    dest == Splice(d, 0, Output(t[..i], lost))
  }

  lemma DecodedNone(s: bytes, d: bytes, lost: Lost)
    requires NUL in s && |CText(s)| % 4 == 0 && |CText(s)| / 4 * 3 <= |d|
    ensures Decoded(s, d, lost, 0, 0, s, d)
  {
    OutputNothing(lost);
    SpliceNothing<byte>(d, 0);
    hide Splice, CText;
  }

  lemma DecodedAtEnd(s: bytes, d: bytes, lost: Lost, i: nat, outsz: nat, src: bytes, dest: bytes)
    requires NUL in s && Decoded(s, d, lost, i, outsz, src, dest)
    ensures i < |src| && i <= |CText(s)| && (src[i] == NUL <==> i == |CText(s)|) && |CText(s)| % 4 == 0
    ensures src[i] == NUL ==>
      outsz == |Output(CText(s), lost)| <= |d| && dest == Splice(d, 0, Output(CText(s), lost))
  {
    hide Output, Splice;
    assert src[i] == src[i..][0] == s[i..][0];
    assert CText(s)[..|CText(s)|] == CText(s);
  }

  lemma DecodeReady(s: bytes, d: bytes, lost: Lost, i: nat, outsz: nat, src: bytes, dest: bytes)
    requires NUL in s && Decoded(s, d, lost, i, outsz, src, dest) && i < |CText(s)|
    ensures i + 4 <= |CText(s)| && outsz <= i && outsz + 3 <= |dest|
    ensures src[i..i + 4] == CText(s)[i..i + 4] && NUL !in src[i..i + 4]
  {
    hide Output, Splice, CText;
    var t := CText(s);
    SliceSlice(src, i, |src|, 0, 4);
    SliceSlice(s, i, |s|, 0, 4);
    SliceSlice(s, 0, |t|, i, i + 4);
    assert src[i..|src|] == src[i..] == s[i..] == s[i..|s|] && t == s[0..|t|];
  }

  lemma DecodeStep(s: bytes, d: bytes, lost: Lost, i: nat, outsz: nat, src: bytes, dest: bytes, src': bytes)
    requires NUL in s && Decoded(s, d, lost, i, outsz, src, dest) && i < |CText(s)| && i + 4 <= |s|
    requires |src'| == |src| && src'[i + 4..] == src[i + 4..]
    ensures outsz + 3 <= |dest|
    ensures var out := GroupOutput(src[i..i + 4], lost);
            Decoded(s, d, lost, i + 4, outsz + |out|, src', Splice(dest, outsz, out))
  {
    hide GroupOutput, Output, Splice, CText;
    var t := CText(s);
    DecodeReady(s, d, lost, i, outsz, src, dest);
    TakeJoin(t, i, i + 4);
    OutputAppend(t[..i], t[i..i + 4], lost);
    SpliceSplice(d, 0, Output(t[..i], lost), GroupOutput(t[i..i + 4], lost));
    DropDrop(src, i, 4);
    DropDrop(s, i, 4);
  }

  /**
    `decode_group`: the output bytes are stored while the later input characters are still to
    be read, and the caller may have handed in one buffer for both.
   */
  method DecodeGroupInto(dest: array<byte>, at: nat, src: array<byte>, from: nat, lost: Lost) returns (n: nat)
    requires from + 4 <= src.Length && at + 3 <= dest.Length
    requires dest == src ==> at <= from
    requires NUL !in src[..][from..from + 4]
    modifies dest
    ensures n == |GroupOutput(old(src[..])[from..from + 4], lost)|
    ensures dest[..] == Splice(old(dest[..]), at, GroupOutput(old(src[..])[from..from + 4], lost))
    ensures src[..][from + 4..] == old(src[..])[from + 4..]
  {
    hide Index, Byte0, Byte1, Byte2, Splice, GroupOutput;
    ghost var g, d := src[..][from..from + 4], dest[..];
    GroupCases(g, lost);
    ghost var out: bytes := [];
    n := 0;
    SpliceNothing<byte>(d, at);
    if src[from] != PAD && src[from + 1] != PAD {
      var c1 := src[from + 1];
      var t1, t2 := Index(src[from]), Index(c1);
      var b0: byte := if t1.Some? && t2.Some? then Byte0(t1.value, t2.value) else lost(0, src[from], c1);
      dest[at], n, out := b0, 1, [b0];
      SpliceOne<byte>(d, at, [], b0, out);
      assert dest[..] == d[at := b0] == Splice(d, at, out) && src[from + 2] == g[2];
      t1 := Index(src[from + 2]);
      if src[from + 2] != PAD && t1.Some? {
        var b1: byte := if t2.Some? then Byte1(t2.value, t1.value) else lost(1, c1, src[from + 2]);
        dest[at + 1], n, out := b1, 2, [b0, b1];
        SpliceOne<byte>(d, at, [b0], b1, out);
        assert dest[..] == Splice(d, at, [b0])[at + 1 := b1] == Splice(d, at, out) && src[from + 3] == g[3];
        t2 := Index(src[from + 3]);
        if src[from + 3] != PAD && t2.Some? {
          var b2 := Byte2(t1.value, t2.value);
          dest[at + 2], n, out := b2, 3, [b0, b1, b2];
          SpliceOne<byte>(d, at, [b0, b1], b2, out);
          assert dest[..] == Splice(d, at, [b0, b1])[at + 2 := b2];
        }
      }
    }
    assert out == GroupOutput(g, lost) && dest[..] == Splice(d, at, out);
    SpliceKeeps(d, at, out, from + 4);
  }

  /**
    `b64_decode`. Nothing keeps `dest` apart from `src`: decoding a text in place gives the
    same bytes as decoding it into a buffer of its own.
   */
  method DecodeInto(dest: array<byte>, src: array<byte>, lost: Lost) returns (outsz: nat)
    requires NUL in src[..] && |CText(src[..])| % 4 == 0
    requires |CText(src[..])| / 4 * 3 <= dest.Length
    modifies dest
    ensures outsz == |Output(CText(old(src[..])), lost)| <= dest.Length
    ensures dest[..] == Splice(old(dest[..]), 0, Output(CText(old(src[..])), lost))
    ensures Decodable(CText(old(src[..]))) ==> dest[..outsz] == Decode(CText(old(src[..])))
  {
    hide Decoded, GroupOutput, Output, Decode, Splice, CText;
    ghost var s, d := src[..], dest[..];
    var i := 0;
    outsz := 0;
    DecodedNone(s, d, lost);
    DecodedAtEnd(s, d, lost, 0, 0, s, d);
    while src[i] != NUL
      invariant i < src.Length && Decoded(s, d, lost, i, outsz, src[..], dest[..])
      decreases src.Length - i
    {
      ghost var src0, dest0 := src[..], dest[..];
      DecodedAtEnd(s, d, lost, i, outsz, src0, dest0);
      DecodeReady(s, d, lost, i, outsz, src0, dest0);
      var n := DecodeGroupInto(dest, outsz, src, i, lost);
      DecodeStep(s, d, lost, i, outsz, src0, dest0, src[..]);
      i, outsz := i + 4, outsz + n;
      DecodedAtEnd(s, d, lost, i, outsz, src[..], dest[..]);
    }
    DecodedAtEnd(s, d, lost, i, outsz, src[..], dest[..]);
    SpliceRead(d, 0, Output(CText(s), lost));
    assert dest[..outsz] == dest[..][0..0 + outsz];
    if Decodable(CText(s)) {
      OutputDecodes(CText(s), lost);
    }
  }
}
