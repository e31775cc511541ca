/** The quoted-printable codec of base/quoted-printable.cpp. */
module QuotedPrintable {
  import opened Bytes

  const EQUALS: byte := 61
  const CR: byte := 13
  const LF: byte := 10

  predicate IsXDigit(x: byte) {
    48 <= x <= 57 || 65 <= x <= 70 || 97 <= x <= 102
  }

  /** `hex2int` */
  function Hex2Int(x: byte): (v: nat)
    ensures v < 16
  {
    if 48 <= x <= 57 then x - 48
    else if 65 <= x <= 70 then x - 65 + 10
    else if 97 <= x <= 102 then x - 97 + 10
    else 0
  }

  /** An entry of `QP_DIGITS`. */
  function Digit(v: nat): (x: byte)
    requires v < 16
    ensures IsXDigit(x) && Hex2Int(x) == v
  {
    if v < 10 then 48 + v else 55 + v
  }

  /** A byte that `qp_encode` copies as it is. */
  predicate Plain(c: byte) {
    0x21 <= c <= 0x7e && c != EQUALS
  }

  function EncodeByte(c: byte): bytes {
    if Plain(c) then [c] else [EQUALS, Digit(c / 16), Digit(c % 16)]
  }

  /** Section 6.7 of RFC 2045: printable characters but for "=" stand for themselves, all others for two digits. */
  lemma EncodedForm(c: byte)
    ensures 33 <= c <= 126 && c != '=' as int ==> EncodeByte(c) == [c]
    ensures !(33 <= c <= 126 && c != '=' as int) ==>
      EncodeByte(c) == ['=' as int, "0123456789ABCDEF"[c / 16] as int, "0123456789ABCDEF"[c % 16] as int]
  {
    UpperCase(c / 16);
    UpperCase(c % 16);
  }

  /** The digits that are read: upper and lower case. */
  lemma HexDigits(x: byte)
    ensures IsXDigit(x) <==> exists v | 0 <= v < 16 :: HexDigitOf(v, x)
    ensures forall v | 0 <= v < 16 && HexDigitOf(v, x) :: Hex2Int(x) == v
  {
    if IsXDigit(x) {
      assert HexDigitOf(Hex2Int(x), x);
    }
  }

  predicate HexDigitOf(v: nat, x: byte)
    requires v < 16
  {
    x == "0123456789ABCDEF"[v] as int || x == "0123456789abcdef"[v] as int
  }

  lemma UpperCase(v: nat)
    requires v < 16
    ensures Digit(v) == "0123456789ABCDEF"[v] as int
  {
  }

  function Encode(s: bytes): bytes {
    if s == [] then [] else EncodeByte(s[0]) + Encode(s[1..])
  }

  /** What `qp_decode` does: an equals sign that begins no code, with two characters behind it, is lost. */
  function Decode(t: bytes): bytes {
    if t == [] then []
    else if t[0] != EQUALS || |t| < 3 then [t[0]] + Decode(t[1..])
    else if t[1] == CR && t[2] == LF then Decode(t[3..])
    else if IsXDigit(t[1]) && IsXDigit(t[2]) then [Hex2Int(t[1]) * 16 + Hex2Int(t[2])] + Decode(t[3..])
    else [t[1]] + Decode(t[2..])
  }

  /** What its comment promises: in all wrong cases the original bytes are left. */
  function Documented(t: bytes): bytes {
    if t == [] then []
    else if t[0] != EQUALS || |t| < 3 then [t[0]] + Documented(t[1..])
    else if t[1] == CR && t[2] == LF then Documented(t[3..])
    else if IsXDigit(t[1]) && IsXDigit(t[2]) then [Hex2Int(t[1]) * 16 + Hex2Int(t[2])] + Documented(t[3..])
    else [t[0]] + Documented(t[1..])
  }

  /** At `i` an equals sign has two characters behind it that are neither a line end nor two digits. */
  predicate WrongAt(t: bytes, i: nat) {
    i + 2 < |t| && t[i] == EQUALS && !(t[i + 1] == CR && t[i + 2] == LF) && !(IsXDigit(t[i + 1]) && IsXDigit(t[i + 2]))
  }

  const SOFT_BREAK: bytes := [EQUALS, CR, LF]

  /** The code of the parts, with a soft line break behind each. */
  function Folded(parts: seq<bytes>): bytes {
    if parts == [] then [] else Folded(parts[..|parts| - 1]) + Encode(parts[|parts| - 1]) + SOFT_BREAK
  }

  /** One encoded byte is decoded to the byte. */
  lemma DecodeUnit(c: byte, rest: bytes)
    ensures Decode(EncodeByte(c) + rest) == [c] + Decode(rest)
  {
    var unit := EncodeByte(c);
    assert (unit + rest)[|unit|..] == rest;
    assert (unit + rest)[0] == unit[0];
    if !Plain(c) {
      assert (unit + rest)[1] == Digit(c / 16) && (unit + rest)[2] == Digit(c % 16);
      assert c / 16 * 16 + c % 16 == c;
    }
  }

  /** Decoding goes through the code of `s` byte by byte, whatever comes after it. */
  lemma {:induction false} DecodeEncoded(s: bytes, t: bytes)
    ensures Decode(Encode(s) + t) == s + Decode(t)
  {
    hide Decode, EncodeByte;
    if s == [] {
      assert Encode(s) + t == t;
    } else {
      var c, rest := s[0], s[1..];
      Associative(EncodeByte(c), Encode(rest), t);
      DecodeEncoded(rest, t);
      DecodeUnit(c, Encode(rest) + t);
      Associative([c], rest, Decode(t));
      assert s == [c] + rest;
    }
  }

  lemma RoundTrip(s: bytes)
    ensures Decode(Encode(s)) == s
  {
    DecodeEncoded(s, []);
    assert Encode(s) + [] == Encode(s);
  }

  /** Soft line breaks between encoded bytes, any number of them anywhere, leave the text as it is. */
  lemma {:induction false} SoftBreaks(parts: seq<bytes>, t: bytes)
    ensures Decode(Folded(parts) + t) == Concat(parts) + Decode(t)
  {
    hide Decode, Encode;
    if parts == [] {
      assert Folded(parts) + t == t;
    } else {
      var pre, s := parts[..|parts| - 1], parts[|parts| - 1];
      var rest := SOFT_BREAK + t;
      Associative(Folded(pre), Encode(s), SOFT_BREAK);
      Associative(Folded(pre), Encode(s) + SOFT_BREAK, t);
      Associative(Encode(s), SOFT_BREAK, t);
      SoftBreaks(pre, Encode(s) + rest);
      DecodeEncoded(s, rest);
      SoftBreakIgnored(t);
      Associative(Concat(pre), s, Decode(t));
    }
  }

  lemma SoftBreakIgnored(t: bytes)
    ensures Decode(SOFT_BREAK + t) == Decode(t) && SOFT_BREAK == [61, 13, 10]
  {
    assert (SOFT_BREAK + t)[3..] == t;
  }

  /** The code is longer than the text unless there is nothing to encode. */
  lemma {:induction false} EncodeUnchanged(s: bytes)
    ensures |Encode(s)| >= |s|
    ensures Encode(s) == s <==> forall i | 0 <= i < |s| :: 33 <= s[i] <= 126 && s[i] != '=' as int
  {
    if s != [] {
      EncodeUnchanged(s[1..]);
      if Plain(s[0]) {
        assert Encode(s) == [s[0]] + Encode(s[1..]);
        assert s == [s[0]] + s[1..];
        assert Encode(s)[1..] == Encode(s[1..]);
        assert forall i | 1 <= i < |s| :: s[i] == s[1..][i - 1];
      }
    }
  }

  lemma {:induction false} EncodeIsText(s: bytes)
    ensures NUL !in Encode(s) && |Encode(s)| <= 3 * |s|
  {
    if s != [] {
      EncodeIsText(s[1..]);
    }
  }

  lemma {:induction false} EncodeAppend(s: bytes, c: byte)
    ensures Encode(s + [c]) == Encode(s) + EncodeByte(c)
  {
    if s == [] {
      assert [c][1..] == [];
    } else {
      assert (s + [c])[1..] == s[1..] + [c];
      EncodeAppend(s[1..], c);
    }
  }

  // ---------------------------------------------------------------- the lost equals signs

  // Once a decoder has fallen behind or run ahead of the other, it never catches up.

  /** A character that both decoders read in the same way, unless it is a soft line break, and what is behind it. */
  function Unit(r: bytes): (byte, bytes)
    requires r != []
  {
    if r[0] == EQUALS && |r| >= 3 && IsXDigit(r[1]) && IsXDigit(r[2])
    then (Hex2Int(r[1]) * 16 + Hex2Int(r[2]), r[3..])
    else (r[0], r[1..])
  }

  predicate SoftBreakAt(r: bytes) {
    |r| >= 3 && r[0] == EQUALS && r[1] == CR && r[2] == LF
  }

  /** One step of both decoders. */
  lemma BothStep(r: bytes)
    requires r != []
    ensures WrongAt(r, 0) ==>
      Decode(r) == [r[1]] + Decode(r[2..]) && Documented(r) == [EQUALS] + Documented(r[1..])
    ensures SoftBreakAt(r) ==> Decode(r) == Decode(r[3..]) && Documented(r) == Documented(r[3..])
    ensures !WrongAt(r, 0) && !SoftBreakAt(r) ==>
      var (c, rest) := Unit(r);
      Decode(r) == [c] + Decode(rest) && Documented(r) == [c] + Documented(rest)
  {
  }

  lemma Rotated(q: bytes, c: byte, ahead: bytes, behind: bytes)
    requires q != []
    ensures [c] + ahead == q + ([c] + behind) ==> q[0] == c && ahead == q[1..] + [c] + behind
  {
    assert ([c] + ahead)[1..] == ahead && ([c] + ahead)[0] == c;
    assert (q + ([c] + behind))[1..] == q[1..] + [c] + behind;
  }

  /** `Decode` is ahead by bytes that are no equals signs. */
  lemma {:induction false} AheadForEver(q: bytes, r: bytes)
    requires q != [] && EQUALS !in q
    ensures Documented(r) != q + Decode(r)
    decreases |r|
  {
    hide Decode, Documented;
    if r == [] {
      NothingDecoded();
    } else {
      BothStep(r);
      if WrongAt(r, 0) {
        assert (q + Decode(r))[0] == q[0] != EQUALS;
      } else if SoftBreakAt(r) {
        AheadForEver(q, r[3..]);
      } else {
        var (c, rest) := Unit(r);
        Rotated(q, c, Documented(rest), Decode(rest));
        if c == q[0] {
          AheadForEver(q[1..] + [c], rest);
        }
      }
    }
  }

  function EqualsSigns(k: nat): (r: bytes)
    ensures |r| == k
  {
    seq(k, _ => EQUALS)
  }

  lemma OneMoreSign(k: nat, x: bytes)
    ensures EqualsSigns(k) + ([EQUALS] + x) == [EQUALS] + (EqualsSigns(k) + x) == EqualsSigns(k + 1) + x
  {
  }

  lemma SignsFirst(k: nat, x: bytes, c: byte, y: bytes)
    ensures k > 0 && EqualsSigns(k) + x == [c] + y ==> c == EQUALS
    ensures [EQUALS] + x == [EQUALS] + y ==> x == y
  {
    assert k > 0 ==> (EqualsSigns(k) + x)[0] == EQUALS;
    assert ([EQUALS] + x)[1..] == x && ([EQUALS] + y)[1..] == y;
  }

  /** `Decode` is behind by equals signs. */
  lemma {:induction false} BehindForEver(k: nat, r: bytes)
    requires k > 0
    ensures EqualsSigns(k) + Documented(r) != Decode(r)
    decreases |r|, 0
  {
    hide Decode, Documented, EqualsSigns;
    if r == [] {
      NothingDecoded();
    } else {
      BothStep(r);
      if SoftBreakAt(r) {
        BehindForEver(k, r[3..]);
      } else {
        var wrong := WrongAt(r, 0);
        var (c, rest) := if wrong then (r[1], r[2..]) else Unit(r);
        var x := Documented(if wrong then r[1..] else rest);
        SignsFirst(k, Documented(r), c, Decode(rest));
        OneMoreSign(k, x);
        SignsFirst(k, EqualsSigns(k) + x, c, Decode(rest));
        SignsFirst(0, EqualsSigns(k) + x, 0, Decode(rest));
        if c == EQUALS && wrong {
          BehindAfterSign(k, rest);
          assert r[1..] == [EQUALS] + rest;
        } else if c == EQUALS {
          BehindForEver(k, rest);
        }
      }
    }
  }

  lemma {:induction false} BehindAfterSign(k: nat, u: bytes)
    ensures EqualsSigns(k) + Documented([EQUALS] + u) != Decode(u)
    decreases |u|, 1
  {
    var t := [EQUALS] + u;
    assert t[1..] == u;
    if |u| < 2 {
      ShortDecoded(t);
      ShortDecoded(u);
    } else {
      var b, v, r := u[0], u[1], u[2..];
      assert t[1] == b && t[2] == v && t[3..] == r;
      BothStep(t);
      hide Decode, Documented, EqualsSigns;
      if WrongAt(t, 0) {
        OneMoreSign(k, Documented(u));
        BehindForEver(k + 1, u);
      } else {
        TwoDecoded(b, v, r);
        assert u == [b, v] + r;
        SignsFirst(k, Documented(t), b, [v] + Decode(r));
        assert [b] + ([v] + Decode(r)) == [b, v] + Decode(r);
        if k == 0 && SoftBreakAt(t) {
          AheadForEver([CR, LF], r);
          NoSigns(Documented(t));
        } else if k == 0 {
          AheadForEver([v], r);
          NoSigns(Documented(t));
          var (x, rest) := Unit(t);
          assert ([x] + Documented(r))[1..] == Documented(r) && ([b, v] + Decode(r))[1..] == [v] + Decode(r);
        }
      }
    }
  }

  lemma NoSigns(x: bytes)
    ensures EqualsSigns(0) + x == x
  {
  }

  lemma NothingDecoded()
    ensures Decode([]) == [] == Documented([])
  {
  }

  lemma ShortDecoded(t: bytes)
    requires |t| < 3
    ensures Decode(t) == t == Documented(t)
  {
    if t != [] {
      ShortDecoded(t[1..]);
    }
  }

  lemma TwoDecoded(b: byte, v: byte, r: bytes)
    requires b != EQUALS && v != EQUALS
    ensures Decode([b, v] + r) == [b, v] + Decode(r)
  {
    assert ([b, v] + r)[1..] == [v] + r && ([v] + r)[1..] == r;
    assert Decode([v] + r) == [v] + Decode(r);
  }

  /**
    The decoder keeps its promise exactly for the texts without an equals sign in a wrong place that
    has two characters behind it: anywhere else such a sign is lost.
   */
  lemma {:induction false} PromiseKept(t: bytes)
    ensures Decode(t) == Documented(t) <==> forall i | 0 <= i < |t| :: !WrongAt(t, i)
    decreases |t|
  {
    hide Decode, Documented;
    if t == [] {
      NothingDecoded();
    } else {
      BothStep(t);
      if WrongAt(t, 0) {
        assert Decode(t)[0] == t[1] && Documented(t)[0] == EQUALS;
        if t[1] == EQUALS {
          var u := t[2..];
          assert t[1..] == [EQUALS] + u;
          BehindAfterSign(0, u);
          NoSigns(Documented([EQUALS] + u));
          SignsFirst(0, Documented(t[1..]), 0, Decode(u));
        }
      } else {
        var n := if SoftBreakAt(t) then 3 else |t| - |Unit(t).1|;
        PromiseKept(t[n..]);
        WrongBehind(t, n);
        if !SoftBreakAt(t) {
          var (c, rest) := Unit(t);
          assert rest == t[n..];
          assert ([c] + Decode(rest))[1..] == Decode(rest) && ([c] + Documented(rest))[1..] == Documented(rest);
        }
      }
    }
  }

  lemma WrongBehind(t: bytes, n: nat)
    requires 1 <= n <= |t| && forall i | 0 <= i < n :: !WrongAt(t, i)
    ensures (forall i | 0 <= i < |t| :: !WrongAt(t, i)) <==> (forall i | 0 <= i < |t[n..]| :: !WrongAt(t[n..], i))
  {
    forall i | 0 <= i < |t| - n ensures WrongAt(t[n..], i) <==> WrongAt(t, n + i) {
    }
    if forall i | 0 <= i < |t[n..]| :: !WrongAt(t[n..], i) {
      forall i | n <= i < |t| ensures !WrongAt(t, i) {
        assert !WrongAt(t[n..], i - n);
      }
    }
  }

  /** "=zz" is decoded to "zz", where the comment promises "=zz". */
  lemma SignLost()
    ensures Decode([EQUALS, 122, 122]) == [122, 122] && Documented([EQUALS, 122, 122]) == [EQUALS, 122, 122]
  {
    var t: bytes := [EQUALS, 122, 122];
    assert t[1..] == [122, 122] && t[2..] == [122];
    ShortDecoded(t[1..]);
    ShortDecoded(t[2..]);
  }

  // ---------------------------------------------------------------- the loops of the source

  /** `qp_isNeed` */
  method IsNeed(s: cstring) returns (need: bool)
    ensures need <==> Encode(s) != s
  {
    EncodeUnchanged(s);
    for i := 0 to |s|
      invariant forall k | 0 <= k < i :: Plain(s[k])
    {
      if 0x21 > s[i] || s[i] > 0x7e || s[i] == EQUALS {
        return true;
      }
    }
    return false;
  }

  lemma EncodeNothing()
    ensures Encode([]) == []
  {
  }

  /** `qp_encode` */
  method QpEncode(qp: cstring) returns (ret: array<byte>)
    ensures fresh(ret) && NUL in ret[..] && CText(ret[..]) == Encode(qp)
  {
    hide Encode;
    EncodeIsText(qp);
    EncodeNothing();
    ret := new byte[|qp| * 3 + 1];
    var i := 0;
    assert qp[..0] == [];
    for k := 0 to |qp|
      invariant i == |Encode(qp[..k])| <= 3 * k && ret[..i] == Encode(qp[..k])
    {
      EncodeAppend(qp[..k], qp[k]);
      assert qp[..k] + [qp[k]] == qp[..k + 1];
      ghost var before := ret[..i];
      var c := qp[k];
      if 0x21 <= c <= 0x7e && c != EQUALS {
        ret[i] := c;
        i := i + 1;
      } else {
        ret[i], ret[i + 1], ret[i + 2] := EQUALS, Digit(c / 16), Digit(c % 16);
        i := i + 3;
      }
      assert ret[..i] == before + EncodeByte(c);
    }
    assert qp[..|qp|] == qp;
    ret[i] := NUL;
    assert ret[..i] == Encode(qp);
    CTextIs(ret[..], i);
  }

  /** How `Decode` goes on at position `k`. */
  lemma DecodeAt(t: bytes, k: nat)
    requires k < |t|
    ensures Decode(t[k..])
         == if t[k] != EQUALS || k + 2 >= |t| then [t[k]] + Decode(t[k + 1..])
            else if t[k + 1] == CR && t[k + 2] == LF then Decode(t[k + 3..])
            else if IsXDigit(t[k + 1]) && IsXDigit(t[k + 2])
            then [Hex2Int(t[k + 1]) * 16 + Hex2Int(t[k + 2])] + Decode(t[k + 3..])
            else [t[k + 1]] + Decode(t[k + 2..])
  {
    var rest := t[k..];
    DropDrop(t, k, 1);
    if k + 2 < |t| {
      DropDrop(t, k, 2);
      DropDrop(t, k, 3);
    }
  }

  /** `qp_decode` */
  method QpDecode(qp: cstring) returns (ret: array<byte>, ghost n: nat)
    ensures fresh(ret) && n < ret.Length && ret[..n] == Decode(qp) && ret[n] == NUL
  {
    hide Decode, Hex2Int, IsXDigit;
    ret := new byte[|qp| + 1];
    var k, out := 0, 0;
    assert qp[0..] == qp;
    while k < |qp|
      invariant 0 <= out <= k <= |qp| && ret[..out] + Decode(qp[k..]) == Decode(qp)
    {
      DecodeAt(qp, k);
      ghost var before := ret[..out];
      var escaped := qp[k] == EQUALS && k + 2 < |qp|;
      if escaped {
        k := k + 1;
      }
      if escaped && qp[k] == CR && qp[k + 1] == LF {
        k := k + 2;
      } else {
        var c;
        if escaped && IsXDigit(qp[k]) && IsXDigit(qp[k + 1]) {
          c := Hex2Int(qp[k]) * 16 + Hex2Int(qp[k + 1]);
          k := k + 2;
        } else {
          c := qp[k];
          k := k + 1;
        }
        ret[out] := c;
        out := out + 1;
        assert ret[..out] == before + [c];
        Associative(before, [c], Decode(qp[k..]));
      }
    }
    assert qp[|qp|..] == [];
    NothingDecoded();
    ret[out] := NUL;
    n := out;
  }
}
