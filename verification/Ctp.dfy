/**
  The client transport protocol of push/: CTPMessage.cpp prints and parses a message with a
  16-bit length and type-length-value parameters, CTPService.cpp reassembles it from whatever
  pieces the socket delivers.
 */
module Ctp {
  import opened Options
  import opened Bytes

  const MAX_MESSAGE_SIZE: nat := 256

  datatype Param = Param(code: byte, value: bytes)

  datatype Message = Message(version: byte, command: byte, params: seq<Param>)

  // ---------------------------------------------------------------- the format

  /** Code, length and value of each parameter. */
  function ParamBytes(ps: seq<Param>): bytes {
    if ps == [] then []
    else [ps[0].code, |ps[0].value| % 256] + ps[0].value + ParamBytes(ps[1..])
  }

  function Body(m: Message): bytes {
    [m.version, m.command] + ParamBytes(m.params)
  }

  /** The length of the body in two bytes, high-order byte first, and the body. */
  function Package(m: Message): bytes {
    [|Body(m)| / 256 % 256, |Body(m)| % 256] + Body(m)
  }

  /** Where everything is in the package of a message, counted from 0. */
  lemma PackageLayout(m: Message, k: nat)
    requires |Body(m)| < 0x1_0000 && k < |m.params| && |m.params[k].value| < 256
    ensures var p, at := Package(m), 4 + |ParamBytes(m.params[..k])|;
      var n := |m.params[k].value|;
      && |p| >= 4 && p[0] as int * 256 + p[1] == |p| - 2 && p[2] == m.version && p[3] == m.command
      && at + 2 + n <= |p| && p[at] == m.params[k].code && p[at + 1] == n && p[at + 2..at + 2 + n] == m.params[k].value
  {
    hide ParamBytes;
    var param, at := m.params[k], |ParamBytes(m.params[..k])|;
    var unit: bytes := [param.code, |param.value|] + param.value;
    var front, rest := ParamBytes(m.params[..k]), ParamBytes(m.params[k + 1..]);
    ParamBytesSplit(m.params, k);
    var body := Body(m);
    assert body == [m.version, m.command] + (front + unit + rest);
    assert body[2 + at..2 + at + |unit|] == unit;
    assert Package(m)[4 + at..4 + at + |unit|] == unit;
    assert unit[2..] == param.value;
  }

  lemma {:induction false} ParamBytesSplit(ps: seq<Param>, k: nat)
    requires k < |ps|
    ensures ParamBytes(ps)
         == ParamBytes(ps[..k]) + ([ps[k].code, |ps[k].value| % 256] + ps[k].value) + ParamBytes(ps[k + 1..])
  {
    if k > 0 {
      ParamBytesSplit(ps[1..], k - 1);
      assert ps[1..][..k - 1] == ps[..k][1..];
      assert ps[1..][k..] == ps[k + 1..];
    }
  }

  /** The length bytes can tell the lengths. */
  ghost predicate Representable(m: Message) {
    |Body(m)| < 0x1_0000 && ShortValues(m.params)
  }

  ghost predicate ShortValues(ps: seq<Param>) {
    forall i | 0 <= i < |ps| :: |ps[i].value| <= 255
  }

  lemma {:induction false} ParamBytesAppend(ps: seq<Param>, p: Param)
    ensures ParamBytes(ps + [p]) == ParamBytes(ps) + [p.code, |p.value| % 256] + p.value
  {
    if ps == [] {
      assert [p][1..] == [];
    } else {
      assert (ps + [p])[1..] == ps[1..] + [p];
      ParamBytesAppend(ps[1..], p);
    }
  }

  // ---------------------------------------------------------------- CTPMessage::toByte

  method TotalMessageSize(m: Message) returns (totalMessageSize: nat)
    ensures totalMessageSize == |Body(m)|
  {
    totalMessageSize := 2;
    for i := 0 to |m.params|
      invariant totalMessageSize == 2 + |ParamBytes(m.params[..i])|
    {
      ParamBytesAppend(m.params[..i], m.params[i]);
      assert m.params[..i] + [m.params[i]] == m.params[..i + 1];
      totalMessageSize := totalMessageSize + 2 + |m.params[i].value|;
    }
    assert m.params[..|m.params|] == m.params;
  }

  method ToByte(m: Message) returns (buffer: array<byte>)
    ensures fresh(buffer) && buffer[..] == Package(m)
  {
    hide ParamBytes;
    NoParams();
    var totalMessageSize := TotalMessageSize(m);
    buffer := new byte[totalMessageSize + 2];
    if totalMessageSize < 255 {
      buffer[0], buffer[1] := 0, totalMessageSize;
    } else {
      var upper := totalMessageSize / 256;
      buffer[0], buffer[1] := upper % 256, totalMessageSize - upper * 256;
    }
    buffer[2], buffer[3] := m.version, m.command;
    ghost var header := buffer[..4];
    assert header == [totalMessageSize / 256 % 256, totalMessageSize % 256, m.version, m.command];
    var i := 4;
    assert m.params[..0] == [];
    for k := 0 to |m.params|
      invariant buffer.Length == totalMessageSize + 2 && i == 4 + |ParamBytes(m.params[..k])|
      invariant i + |ParamBytes(m.params[k..])| == buffer.Length
      invariant buffer[..i] == header + ParamBytes(m.params[..k])
    {
      i := PutParam(buffer, i, m.params, k, header, m.params[k]);
    }
    assert m.params[..|m.params|] == m.params && m.params[|m.params|..] == [];
    assert buffer[..] == buffer[..i];
  }

  lemma NoParams()
    ensures ParamBytes([]) == []
  {
  }

  lemma ParamBytesNext(ps: seq<Param>, k: nat)
    requires k < |ps|
    ensures |ParamBytes(ps[k..])| == 2 + |ps[k].value| + |ParamBytes(ps[k + 1..])|
  {
    assert ps[k..][1..] == ps[k + 1..];
  }

  method PutParam(buffer: array<byte>, i: nat, ghost all: seq<Param>, k: nat, ghost header: bytes, p: Param)
      returns (j: nat)
    requires k < |all| && p == all[k]
    requires i + |ParamBytes(all[k..])| == buffer.Length && buffer[..i] == header + ParamBytes(all[..k])
    modifies buffer
    ensures j == i + 2 + |p.value| && j + |ParamBytes(all[k + 1..])| == buffer.Length
    ensures buffer[..j] == header + ParamBytes(all[..k + 1])
  {
    hide ParamBytes;
    ghost var before := buffer[..i];
    ParamBytesAppend(all[..k], p);
    ParamBytesNext(all, k);
    assert all[..k] + [p] == all[..k + 1];
    buffer[i], buffer[i + 1] := p.code, |p.value| % 256;
    assert buffer[..i + 2] == before + [p.code, |p.value| % 256];
    ghost var front := buffer[..i + 2];
    Copy(buffer, i + 2, p.value);
    assert buffer[..i + 2] == front;
    j := i + 2 + |p.value|;
    assert buffer[..j] == front + p.value;
    Associative(before, [p.code, |p.value| % 256], p.value);
    Associative(header, ParamBytes(all[..k]), [p.code, |p.value| % 256] + p.value);
    Associative(ParamBytes(all[..k]), [p.code, |p.value| % 256], p.value);
  }

  // ---------------------------------------------------------------- CTPMessage::parse

  /** The cursor of `parse`: None is the NULL that `IncP` leaves at the end of the package. */
  function IncP(p: Option<nat>, num: int, end: nat): Option<nat> {
    if p.Some? && 0 <= p.value + num < end then Some(p.value + num) else None
  }

  /** The length in the first two bytes. */
  function MessageLength(package: bytes): (n: nat)
    requires |package| >= 2
    ensures n < 0x1_0000
  {
    package[0] as int * 256 + package[1]
  }

  /** The package is exactly the one printed for `m`, and its length is known or not given. */
  ghost predicate Prints(package: bytes, maxPackageLen: nat, m: Message) {
    Representable(m) && Package(m) <= package && (maxPackageLen == 0 || maxPackageLen == |Package(m)|)
  }

  lemma Header(package: bytes, maxPackageLen: nat, m: Message)
    requires Prints(package, maxPackageLen, m)
    ensures |package| >= |Body(m)| + 2 >= 4 && MessageLength(package) == |Body(m)|
    ensures maxPackageLen == 0 || maxPackageLen == |Body(m)| + 2
    ensures package[2] == m.version && package[3] == m.command
    ensures package[4..|Body(m)| + 2] == ParamBytes(m.params)
  {
    var n := |Body(m)|;
    assert package[0] == Package(m)[0] && package[1] == Package(m)[1];
    assert package[2] == Package(m)[2] && package[3] == Package(m)[3];
    assert package[4..n + 2] == Package(m)[4..n + 2];
    assert package[..n + 2] == Package(m);
  }

  /** Parameters, and whether all of them have a length byte. */
  datatype Params = Params(params: seq<Param>, whole: bool)

  /**
    What is read from the bytes `r`, with one more byte behind them: a value whose length byte promises more than
    there is takes the rest and that byte; behind the very end of the bytes nothing is read.
   */
  function ParamsIn(r: bytes, behind: byte): Params
    decreases |r|
  {
    if r == [] then Params([], true)
    else if |r| == 1 then Params([], false)
    else
      var n := r[1];
      if n <= |r| - 2 then
        var next := ParamsIn(r[2 + n..], behind);
        Params([Param(r[0], r[2..2 + n])] + next.params, next.whole)
      else Params([Param(r[0], if |r| == 2 then [0] else r[2..] + [behind])], true)
  }

  /** Printed parameters are read back. */
  lemma {:induction false} PrintedParams(ps: seq<Param>, behind: byte)
    requires ShortValues(ps)
    ensures ParamsIn(ParamBytes(ps), behind) == Params(ps, true)
  {
    if ps != [] {
      var p, rest := ps[0], ParamBytes(ps[1..]);
      var r := ParamBytes(ps);
      assert r == [p.code, |p.value|] + p.value + rest;
      assert r[2..2 + |p.value|] == p.value && r[2 + |p.value|..] == rest;
      PrintedParams(ps[1..], behind);
    }
  }

  /** One step of `ParamsIn`. */
  lemma ParamsFirst(r: bytes, behind: byte)
    requires |r| >= 2
    ensures var n := r[1] as int;
      ParamsIn(r, behind) ==
        if n <= |r| - 2 then
          var next := ParamsIn(r[2 + n..], behind);
          Params([Param(r[0], r[2..2 + n])] + next.params, next.whole)
        else Params([Param(r[0], if |r| == 2 then [0] else r[2..] + [behind])], true)
  {
  }

  /** How `ParamsIn` goes on at position `at`. */
  lemma ParamsAt(package: bytes, at: nat, end: nat)
    requires at < end < |package|
    ensures var p := ParamsIn(package[at..end], package[end]);
      if end == at + 1 then p == Params([], false)
      else
        var n := package[at + 1] as int;
        if n <= end - at - 2 then
          var next := ParamsIn(package[at + 2 + n..end], package[end]);
          p == Params([Param(package[at], package[at + 2..at + 2 + n])] + next.params, next.whole)
        else p == Params([Param(package[at], if end == at + 2 then [0] else package[at + 2..end + 1])], true)
  {
    var r := package[at..end];
    assert |r| == 1 ==> ParamsIn(r, package[end]) == Params([], false);
    hide ParamsIn;
    if end > at + 1 {
      var n := package[at + 1] as int;
      ParamsFirst(r, package[end]);
      assert r[1] == package[at + 1] && r[0] == package[at];
      if n <= end - at - 2 {
        SliceSlice(package, at, end, 2, 2 + n);
        SliceSlice(package, at, end, 2 + n, end - at);
        assert r[2 + n..] == r[2 + n..end - at];
      } else {
        SliceSlice(package, at, end, 2, end - at);
        assert r[2..] + [package[end]] == package[at + 2..end + 1];
      }
    }
  }

  lemma ParamBytesFirst(p: Param, ps: seq<Param>)
    ensures ParamBytes([p] + ps) == [p.code, |p.value| % 256] + p.value + ParamBytes(ps)
    ensures ParamBytes([p]) == [p.code, |p.value| % 256] + p.value
  {
    assert ([p] + ps)[1..] == ps && [p][1..] == [];
  }

  /**
    Whatever is read, printing it again gives the same bytes, but for a single byte at the end, or one byte too
    many for a value that is not all there.
   */
  lemma {:induction false} PrintedAgain(r: bytes, behind: byte)
    ensures var p := ParamsIn(r, behind);
      if p.whole then ParamBytes(p.params) == r || |ParamBytes(p.params)| == |r| + 1
      else r != [] && ParamBytes(p.params) == r[..|r| - 1]
    decreases |r|
  {
    hide ParamBytes;
    NoParams();
    if |r| >= 2 {
      var n := r[1] as int;
      if n <= |r| - 2 {
        var param, rest := Param(r[0], r[2..2 + n]), r[2 + n..];
        var next := ParamsIn(rest, behind);
        PrintedAgain(rest, behind);
        ParamBytesFirst(param, next.params);
        assert r == [r[0], n] + r[2..2 + n] + rest;
        assert !next.whole ==> r[..|r| - 1] == [r[0], n] + r[2..2 + n] + rest[..|rest| - 1];
      } else {
        ParamBytesFirst(ParamsIn(r, behind).params[0], []);
      }
    }
  }

  /** The bytes are printed parameters exactly if what is read from them prints to them. */
  lemma PrintedOrNot(r: bytes, behind: byte)
    ensures var p := ParamsIn(r, behind);
      (exists ps :: ShortValues(ps) && ParamBytes(ps) == r) <==> p.whole && ParamBytes(p.params) == r
  {
    hide ParamsIn, ParamBytes;
    Short(r, behind);
    PrintedAgain(r, behind);
    if ps :| ShortValues(ps) && ParamBytes(ps) == r {
      PrintedParams(ps, behind);
    }
  }

  /** Only a value that is not all there can be longer than its length byte tells. */
  lemma {:induction false} Short(r: bytes, behind: byte)
    ensures var p := ParamsIn(r, behind);
      ParamBytes(p.params) == r ==> ShortValues(p.params)
    decreases |r|
  {
    hide ParamBytes;
    NoParams();
    if |r| >= 2 {
      var n := r[1] as int;
      if n <= |r| - 2 {
        var param, rest := Param(r[0], r[2..2 + n]), r[2 + n..];
        var next := ParamsIn(rest, behind);
        Short(rest, behind);
        ParamBytesFirst(param, next.params);
        assert r == [r[0], n] + r[2..2 + n] + rest;
      } else {
        ParamBytesFirst(ParamsIn(r, behind).params[0], []);
      }
    }
  }

  /** Where the message ends for `parse`. */
  function End(package: bytes, maxPackageLen: nat): nat
    requires |package| >= 2
  {
    var end := MessageLength(package) + 2;
    if maxPackageLen != 0 && end > maxPackageLen then maxPackageLen else end
  }

  /** A printed message is recovered by what `Parse` is proved to do. */
  lemma PrintedIsParsed(package: bytes, maxPackageLen: nat, m: Message)
    requires Prints(package, maxPackageLen, m)
    ensures |package| >= 4 && End(package, maxPackageLen) == |Body(m)| + 2 >= 4
    ensures package[2] == m.version && package[3] == m.command
    ensures forall behind ::
      ParamsIn(package[4..End(package, maxPackageLen)], behind) == Params(m.params, true)
  {
    hide ParamsIn, ParamBytes, Body;
    Header(package, maxPackageLen, m);
    forall behind ensures ParamsIn(ParamBytes(m.params), behind) == Params(m.params, true) {
      PrintedParams(m.params, behind);
    }
  }

  /** Any package can be parsed, as long as one more byte is readable behind it. */
  method Parse(package: array<byte>, maxPackageLen: nat) returns (ret: int, parsed: Message)
    requires 3 <= package.Length && (maxPackageLen != 0 ==> 3 <= maxPackageLen < package.Length)
    requires maxPackageLen == 0 ==> MessageLength(package[..]) + 2 < package.Length
    ensures var end := End(package[..], maxPackageLen);
      if end < 4 then ret == -1 && parsed == Message(package[2], 0, [])
      else
        var p := ParamsIn(package[4..end], package[end]);
        ret == (if p.whole then 0 else -1) && parsed == Message(package[2], package[3], p.params)
  {
    hide ParamsIn;
    var messageLen := package[0] as int * 256 + package[1];
    if maxPackageLen != 0 && messageLen + 2 > maxPackageLen {
      messageLen := maxPackageLen - 2;
    }
    var end := 2 + messageLen;
    var p := Some(2);
    parsed := Message(package[2], 0, []);
    p := IncP(p, 1, end);
    if p.None? {
      ret := -1;
      return;
    }
    parsed := parsed.(command := package[p.value]);
    ret := 0;
    ghost var all, behind := package[4..end], package[end];
    NoMoreParams(behind);
    p := IncP(p, 1, end);
    assert [] + ParamsIn(all, behind).params == ParamsIn(all, behind).params;
    assert end == 4 ==> all == [];
    while p.Some?
      invariant p.Some? ==> 4 <= p.value < end < package.Length
      invariant parsed.version == package[2] && parsed.command == package[3] && ret == 0
      invariant
        var left := ParamsIn(if p.Some? then package[p.value..end] else [], behind);
        ParamsIn(all, behind) == Params(parsed.params + left.params, left.whole)
      decreases if p.Some? then end - p.value else -1
    {
      var param;
      param, p := ParseParam(package, p.value, end);
      if param.None? {
        assert parsed.params + [] == parsed.params;
        ret := -1;
        return;
      }
      ghost var left := ParamsIn(if p.Some? then package[p.value + 1..end] else [], behind);
      Associative(parsed.params, [param.value], left.params);
      assert p.Some? && p.value + 1 == end ==> package[p.value + 1..end] == [];
      parsed := parsed.(params := parsed.params + [param.value]);
      if p.None? {
        return;
      }
      p := IncP(p, 1, end);
    }
  }

  lemma NoMoreParams(behind: byte)
    ensures ParamsIn([], behind) == Params([], true)
  {
  }

  lemma ParamStep(package: bytes, at: nat, end: nat, valLen: nat, value: bytes, p: Option<nat>)
    requires at + 1 < end < |package| && valLen == Min(package[at + 1], end - at - 1)
    requires value == if at + 2 < end then package[at + 2..at + 2 + valLen] else if valLen == 0 then [] else [0]
    requires p == if at + 2 < end && at + 1 + valLen < end then Some(at + 1 + valLen) else None
    ensures var all := ParamsIn(package[at..end], package[end]);
      var left := ParamsIn(if p.Some? then package[p.value + 1..end] else [], package[end]);
      all == Params([Param(package[at], value)] + left.params, left.whole)
  {
    hide ParamsIn;
    ParamsAt(package, at, end);
    NoMoreParams(package[end]);
    var n := package[at + 1] as int;
    assert at + 2 + n == end ==> package[at + 2 + n..end] == [];
  }

  /** One turn of the loop of `parse`, from the code of a parameter to its last byte. */
  method ParseParam(package: array<byte>, at: nat, end: nat) returns (param: Option<Param>, p: Option<nat>)
    requires at < end < package.Length
    ensures p.Some? ==> param.Some? && at < p.value < end
    ensures var all := ParamsIn(package[at..end], package[end]);
      if param.None? then all == Params([], false)
      else
        var left := ParamsIn(if p.Some? then package[p.value + 1..end] else [], package[end]);
        all == Params([param.value] + left.params, left.whole)
  {
    hide ParamsIn;
    var code := package[at];
    p := IncP(Some(at), 1, end);
    if p.None? {
      ParamsAt(package[..], at, end);
      return None, None;
    }
    var valLen := package[p.value] as int;
    if p.value + valLen - 1 >= end {
      valLen := end - p.value;
    }
    p := IncP(p, 1, end);
    var value := if p.Some? then package[p.value..p.value + valLen] else seq(valLen, _ => 0);
    p := IncP(p, valLen - 1, end);
    param := Some(Param(code, value));
    assert at + 2 == end ==> value == if valLen == 0 then [] else [0];
    ParamStep(package[..], at, end, valLen, value, p);
  }

  // ---------------------------------------------------------------- CTPService::receiveStatusMsg

  /** `extractMsgLength` */
  function ExtractMsgLength(package: bytes, packageLen: nat): nat
    requires packageLen <= |package|
  {
    if packageLen < 2 then 0 else MessageLength(package)
  }

  /** The pieces are those of the printed message `m`. */
  ghost predicate Cut(packages: seq<bytes>, m: Message) {
    Representable(m) && Concat(packages) == Package(m) && forall i | 0 <= i < |packages| :: packages[i] != []
  }

  /** Before the last piece not all bytes are there, and the first piece tells how many there will be. */
  lemma CutAt(packages: seq<bytes>, m: Message, i: nat)
    requires Cut(packages, m) && i < |packages|
    ensures var n := |Concat(packages[..i + 1])|;
      |Concat(packages[..i])| + |packages[i]| == n <= |Package(m)| &&
      (i > 0 ==> |Concat(packages[..i])| > 0) && (n == |Package(m)| <==> i + 1 == |packages|) &&
      Concat(packages[..i + 1]) == Concat(packages[..i]) + packages[i] <= Package(m)
    ensures i == 0 && |packages[0]| >= 2 ==> ExtractMsgLength(packages[0], |packages[0]|) + 2 == |Package(m)|
  {
    assert packages[..i] + [packages[i]] == packages[..i + 1];
    ConcatAppend(packages[..i], packages[i]);
    ConcatSplit(packages, i + 1);
    hide Package;
    NonEmptyConcat(packages[i + 1..]);
    NonEmptyConcat(packages[..i]);
    if i == 0 && |packages[0]| >= 2 {
      assert Concat(packages[..1]) == packages[0];
      assert packages[0][0] == Package(m)[0] && packages[0][1] == Package(m)[1];
      Header(Package(m), 0, m);
      PackageSize(m);
    }
  }

  lemma PackageSize(m: Message)
    ensures |Package(m)| == |Body(m)| + 2
  {
  }

  lemma {:induction false} NonEmptyConcat(packages: seq<bytes>)
    requires forall i | 0 <= i < |packages| :: packages[i] != []
    ensures Concat(packages) == [] <==> packages == []
  {
    if packages != [] {
      assert packages[|packages| - 1] != [];
    }
  }

  /** After `i` pieces, none of them empty, there is not as much as the first piece tells. */
  ghost predicate NotYet(packages: seq<bytes>, i: nat) {
    i <= |packages| && (i > 0 ==> |packages[0]| >= 2 && MessageLength(packages[0]) > 0) &&
    forall j | 0 <= j < i ::
      |packages[0]| >= 2 && packages[j] != [] && |Concat(packages[..j + 1])| < MessageLength(packages[0]) + 2
  }

  /** With this piece there is, and it is less than 256 bytes. */
  ghost predicate EnoughAt(packages: seq<bytes>, i: nat) {
    i < |packages| && NotYet(packages, i) && packages[i] != [] && |packages[0]| >= 2 &&
    0 < MessageLength(packages[0]) <= |Concat(packages[..i + 1])| - 2 < 254
  }

  /** What is read from the bytes of a package; nothing depends on `behind` if all values are there. */
  function MessageIn(whole: bytes, behind: byte): Message
    requires 3 <= |whole| && MessageLength(whole) + 2 <= |whole|
  {
    var end := MessageLength(whole) + 2;
    if end < 4 then Message(whole[2], 0, [])
    else Message(whole[2], whole[3], ParamsIn(whole[4..end], behind).params)
  }

  ghost predicate Reads(packages: seq<bytes>, i: nat, behind: byte, m: Message) {
    EnoughAt(packages, i) &&
    var whole := Concat(packages[..i + 1]);
    3 <= MessageLength(whole) + 2 <= |whole| && m == MessageIn(whole, behind)
  }

  lemma NextPiece(packages: seq<bytes>, i: nat)
    requires i < |packages|
    ensures Concat(packages[..i + 1]) == Concat(packages[..i]) + packages[i] && (i == 0 ==> Concat(packages[..i]) == [])
    ensures packages[0] != [] ==> packages[0] <= Concat(packages[..i + 1])
  {
    assert packages[..i + 1] == packages[..i] + [packages[i]];
    ConcatAppend(packages[..i], packages[i]);
    ConcatSplit(packages[..i + 1], 1);
    assert packages[..i + 1][..1] == packages[..1] == [] + [packages[0]];
    ConcatAppend([], packages[0]);
  }

  lemma {:induction false} ConcatLonger(packages: seq<bytes>, i: nat, j: nat)
    requires i <= j <= |packages|
    ensures |Concat(packages[..i])| <= |Concat(packages[..j])|
  {
    if i < j {
      ConcatLonger(packages, i, j - 1);
      NextPiece(packages, j - 1);
    }
  }

  /** If the bytes that are there neither are enough nor can become so, nothing is received. */
  lemma NeverEnough(packages: seq<bytes>, i: nat)
    requires NotYet(packages, i)
    requires i < |packages| ==>
      packages[i] == [] || |packages[0]| < 2 || MessageLength(packages[0]) == 0 || |Concat(packages[..i + 1])| >= 256
    ensures forall k: nat :: !EnoughAt(packages, k)
  {
    forall k: nat ensures !EnoughAt(packages, k) {
      if i < k < |packages| {
        ConcatLonger(packages, i + 1, k + 1);
      }
    }
  }

  /**
    `receiveStatusMsg`: `packages` are what the successive reads of the socket deliver, after which
    the socket fails. A message is received if and only if at some piece there is enough of it.
   */
  method ReceiveStatusMsg(packages: seq<bytes>) returns (receivedMsg: Option<Message>)
    requires forall i | 0 <= i < |packages| :: |packages[i]| <= 256
    ensures match receivedMsg
      case None => forall i: nat :: !EnoughAt(packages, i)
      case Some(m) => exists i, behind :: Reads(packages, i, behind, m)
  {
    var msg := new byte[MAX_MESSAGE_SIZE];
    var totalBytes: nat, expectedLength: nat := 0, 0;
    assert packages[..0] == [];
    for i := 0 to |packages|
      invariant totalBytes < MAX_MESSAGE_SIZE && (totalBytes == 0 <==> i == 0)
      invariant msg[..totalBytes] == Concat(packages[..i]) && NotYet(packages, i)
      invariant i > 0 ==> totalBytes < expectedLength == MessageLength(packages[0]) + 2
    {
      hide ParamsIn, Concat, MessageIn;
      var buffer := packages[i];
      var pkgLen := |buffer|;
      NextPiece(packages, i);
      if pkgLen == 0 {
        NeverEnough(packages, i);
        return None;
      }
      if totalBytes == 0 {
        expectedLength := ExtractMsgLength(buffer, pkgLen);
        if expectedLength == 0 {
          NeverEnough(packages, i);
          return None;
        }
        expectedLength := expectedLength + 2;
      }
      if totalBytes + pkgLen >= MAX_MESSAGE_SIZE {
        NeverEnough(packages, i);
        return None;
      }
      ghost var before := msg[..];
      Copy(msg, totalBytes, buffer);
      assert msg[..totalBytes + pkgLen] == before[..totalBytes] + buffer;
      totalBytes := totalBytes + pkgLen;
      if totalBytes >= expectedLength {
        var ret, parsed := Parse(msg, totalBytes);
        assert EnoughAt(packages, i);
        MessageRead(msg[..], totalBytes, Concat(packages[..i + 1]), packages[0]);
        assert Reads(packages, i, msg[expectedLength], parsed);
        return Some(parsed);
      }
    }
    NeverEnough(packages, |packages|);
    return None;
  }

  /** `Parse` reads the same from the buffer as from the bytes received. */
  lemma MessageRead(msg: bytes, n: nat, whole: bytes, first: bytes)
    requires n < |msg| && msg[..n] == whole && 2 <= |first| && first <= whole && 3 <= MessageLength(first) + 2 <= n
    ensures MessageLength(whole) == MessageLength(first) && End(msg, n) == MessageLength(first) + 2
    ensures var end := End(msg, n);
      MessageIn(whole, msg[end]) ==
        if end < 4 then Message(msg[2], 0, []) else Message(msg[2], msg[3], ParamsIn(msg[4..end], msg[end]).params)
  {
    hide ParamsIn;
    assert whole[0] == first[0] && whole[1] == first[1];
    var end := MessageLength(first) + 2;
    if end >= 4 {
      SliceSlice(msg, 0, n, 4, end);
    }
  }

  /** A printed message, however it is cut, is received if and only if it fits and the first piece tells its length. */
  lemma ReceivesPrinted(packages: seq<bytes>, m: Message)
    requires Cut(packages, m)
    ensures packages != []
    ensures (exists i: nat :: EnoughAt(packages, i)) <==> |packages[0]| >= 2 && |Package(m)| < 256
    ensures forall i, behind, read :: Reads(packages, i, behind, read) ==> read == m
  {
    var n := |packages| - 1;
    assert packages[..|packages|] == packages;
    PackageSize(m);
    forall i | 0 <= i <= n
      ensures packages[i] != [] && (|Concat(packages[..i + 1])| == |Package(m)| <==> i == n)
      ensures |Concat(packages[..i + 1])| <= |Package(m)|
    {
      CutAt(packages, m, i);
    }
    CutAt(packages, m, 0);
    hide Package, ParamsIn, Body;
    if |packages[0]| >= 2 && |Package(m)| < 256 {
      assert NotYet(packages, n);
      assert EnoughAt(packages, n);
    }
    forall i, behind, read | Reads(packages, i, behind, read) ensures read == m {
      PrintedIsParsed(Package(m), 0, m);
    }
  }
}
