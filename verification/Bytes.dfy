/** Octets, and the C strings that are built from them. */
module Bytes {

  type byte = x: int | 0 <= x < 256

  type bytes = seq<byte>

  const NUL: byte := 0

  /** The characters of a C string: they never contain the terminator. */
  type cstring = s: bytes | NUL !in s

  function Min(a: int, b: int): int {
    if a <= b then a else b
  }

  function Concat<T>(parts: seq<seq<T>>): seq<T> {
    if parts == [] then [] else Concat(parts[..|parts| - 1]) + parts[|parts| - 1]
  }

  lemma ConcatAppend<T>(parts: seq<seq<T>>, part: seq<T>)
    ensures Concat(parts + [part]) == Concat(parts) + part
  {
    assert (parts + [part])[..|parts|] == parts;
  }

  lemma {:induction false} ConcatSplit<T>(parts: seq<seq<T>>, i: nat)
    requires i <= |parts|
    ensures Concat(parts) == Concat(parts[..i]) + Concat(parts[i..])
  {
    if i < |parts| {
      var last := parts[|parts| - 1];
      ConcatSplit(parts[..|parts| - 1], i);
      assert parts[..|parts| - 1][..i] == parts[..i];
      assert parts[i..][..|parts| - i - 1] == parts[..|parts| - 1][i..];
    } else {
      assert parts[..i] == parts;
    }
  }

  lemma ConcatNothing<T>()
    ensures Concat<T>([]) == []
  {
  }

  lemma Associative<T>(a: seq<T>, b: seq<T>, c: seq<T>)
    ensures a + b + c == a + (b + c)
  {
  }

  lemma TakeJoin<T>(s: seq<T>, i: nat, j: nat)
    requires i <= j <= |s|
    ensures s[..i] + s[i..j] == s[..j]
  {
  }

  lemma DropDrop<T>(s: seq<T>, i: nat, j: nat)
    requires i + j <= |s|
    ensures s[i..][j..] == s[i + j..]
  {
  }

  lemma SliceSlice<T>(s: seq<T>, a: nat, b: nat, i: nat, j: nat)
    requires a <= b <= |s| && i <= j <= b - a
    ensures s[a..b][i..j] == s[a + i..a + j]
  {
    var x, y := s[a..b][i..j], s[a + i..a + j];
    assert |x| == |y|;
    forall k | 0 <= k < |x| ensures x[k] == y[k] {
      assert x[k] == s[a..b][i + k] == s[a + (i + k)];
    }
  }

  /** `d` after `x` has been stored over its positions from `at` on. */
  function Splice<T>(d: seq<T>, at: nat, x: seq<T>): (r: seq<T>)
    requires at + |x| <= |d|
    ensures |r| == |d|
  {
    d[..at] + x + d[at + |x|..]
  }

  lemma SpliceSplice<T>(d: seq<T>, at: nat, x: seq<T>, y: seq<T>)
    requires at + |x| + |y| <= |d|
    ensures Splice(Splice(d, at, x), at + |x|, y) == Splice(d, at, x + y)
  {
  }

  lemma SpliceNothing<T>(d: seq<T>, at: nat)
    requires at <= |d|
    ensures Splice(d, at, []) == d
  {
  }

  lemma SpliceOne<T>(d: seq<T>, at: nat, x: seq<T>, v: T, y: seq<T>)
    requires at + |x| < |d| && y == x + [v]
    ensures Splice(d, at, x)[at + |x| := v] == Splice(d, at, y)
  {
  }

  lemma SpliceKeeps<T>(d: seq<T>, at: nat, x: seq<T>, k: nat)
    requires at + |x| <= |d|
    ensures at + |x| <= k <= |d| ==> Splice(d, at, x)[k..] == d[k..]
  {
  }

  lemma SpliceRead<T>(d: seq<T>, at: nat, x: seq<T>)
    requires at + |x| <= |d|
    ensures Splice(d, at, x)[at..at + |x|] == x
  {
  }

  lemma SplicePieces<T>(d: seq<T>, at: nat, s: seq<T>, i: nat, j: nat, k: nat)
    requires i <= j <= k <= |s| && at + k - i <= |d|
    ensures Splice(Splice(d, at, s[i..j]), at + j - i, s[j..k]) == Splice(d, at, s[i..k])
  {
    SpliceSplice(d, at, s[i..j], s[j..k]);
    assert s[i..k] == s[i..j] + s[j..k];
  }

  /** `memcpy` of `x` to position `at` of the buffer. */
  method Copy(dest: array<byte>, at: nat, x: bytes)
    requires at + |x| <= dest.Length
    modifies dest
    ensures dest[..] == Splice(old(dest[..]), at, x)
  {
    forall k | 0 <= k < |x| {
      dest[at + k] := x[k];
    }
  }

  /** The characters of the C string stored in `a`. */
  ghost function CText(a: bytes): (t: bytes)
    requires NUL in a
    ensures |t| < |a| && t == a[..|t|] && NUL !in t && a[|t|] == NUL
  {
    if a[0] == NUL then [] else [a[0]] + CText(a[1..])
  }

  lemma CTextIs(block: bytes, n: nat)
    requires n < |block| && NUL !in block[..n] && block[n] == NUL
    ensures CText(block) == block[..n]
  {
    if block[0] != NUL {
      CTextIs(block[1..], n - 1);
    }
  }
}
