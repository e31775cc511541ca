/**
  The input streams of inputStream/: over a buffer, over a file, and over the formatted
  file object whose body is read from the file and encoded on the way.
 */
module InputStreams {
  import opened Bytes
  import B64 = Base64
  import opened EncodingHelper

  /** inputStream/BufferInputStream.cpp */
  class BufferInputStream {
    const data: bytes
    var position: nat
    var eofbit: bool

    /** The end is reported after the read that reaches it, an empty buffer needs a read too. */
    ghost predicate Valid()
      reads this
    {
      position <= |data| &&
      (eofbit ==> position == |data|) &&
      (0 < position == |data| ==> eofbit)
    }

    constructor (data: bytes)
      ensures Valid() && this.data == data && position == 0 && !eofbit
    {
      this.data, position, eofbit := data, 0, false;
    }

    method Read(buffer: array<byte>, at: nat, size: nat) returns (bytesRead: nat)
      requires Valid() && at + size <= buffer.Length
      modifies this, buffer
      ensures Valid() && position == old(position) + bytesRead
      ensures bytesRead == Min(size, |data| - old(position))
      ensures eofbit == (position == |data|)
      ensures buffer[..] == Splice(old(buffer[..]), at, data[old(position)..position])
    {
      bytesRead := size;
      if position + size > |data| {
        bytesRead := |data| - position;
      }
      Copy(buffer, at, data[position..position + bytesRead]);
      position := position + bytesRead;
      if position == |data| {
        eofbit := true;
      }
    }

    method Reset()
      requires Valid()
      modifies this
      ensures Valid() && position == 0 && !eofbit
    {
      position, eofbit := 0, false;
    }
  }

  /** inputStream/FileInputStream.cpp, over an opened file that nobody else changes. */
  class FileInputStream {
    const content: bytes
    var position: nat
    var feof: bool

    ghost predicate Valid()
      reads this
    {
      position <= |content| && (feof ==> position == |content|)
    }

    constructor (content: bytes)
      ensures Valid() && this.content == content && position == 0 && !feof
    {
      this.content, position, feof := content, 0, false;
    }

    /** `fread`: the end is noticed only by a read that asks for more than is left. */
    method Read(buffer: array<byte>, at: nat, size: nat) returns (bytesRead: nat)
      requires Valid() && at + size <= buffer.Length
      modifies this, buffer
      ensures Valid() && position == old(position) + bytesRead
      ensures bytesRead == Min(size, |content| - old(position))
      ensures feof == (old(feof) || bytesRead < size)
      ensures buffer[..] == Splice(old(buffer[..]), at, content[old(position)..position])
    {
      bytesRead := Min(size, |content| - position);
      Copy(buffer, at, content[position..position + bytesRead]);
      position := position + bytesRead;
      if bytesRead < size {
        feof := true;
      }
    }

    /** `fseek` to the start also clears the end indicator. */
    method Reset()
      requires Valid()
      modifies this
      ensures Valid() && position == 0 && !feof
    {
      position, feof := 0, false;
    }
  }

  // ---------------------------------------------------------------- the three sections as one text

  /** The whole text of a formatted file object. */
  function FileObject(prologue: bytes, file: bytes, epilogue: bytes): bytes {
    prologue + B64.Encode(file) + epilogue
  }

  /** The code of a file read up to position `p` is the start of the code of the whole file. */
  lemma EncodePrefix(file: bytes, p: nat)
    requires p <= |file| && (p % 3 == 0 || p == |file|)
    ensures B64.Encode(file) == B64.Encode(file[..p]) + B64.Encode(file[p..])
  {
    hide B64.Encode;
    B64.EncodeNothing();
    if p % 3 == 0 {
      B64.EncodeConcat(file[..p], file[p..]);
      assert file == file[..p] + file[p..];
    } else {
      assert file[..p] == file && file[p..] == [];
    }
  }

  lemma FilePiece(prologue: bytes, file: bytes, epilogue: bytes, p: nat, q: nat)
    requires p <= q <= |file| && p % 3 == 0 && (q % 3 == 0 || q == |file|)
    ensures var a, b := |prologue| + |B64.Encode(file[..p])|, |prologue| + |B64.Encode(file[..q])|;
            a <= b <= |prologue| + |B64.Encode(file)| &&
            FileObject(prologue, file, epilogue)[a..b] == B64.Encode(file[p..q])
  {
    hide B64.Encode;
    EncodePrefix(file, q);
    EncodePrefix(file[..q], p);
    assert file[..q][..p] == file[..p] && file[..q][p..] == file[p..q];
  }

  /**
    Where a reader of a formatted file object stands: in section `n`, with the given positions
    and end indicators of the three streams, after `position` bytes.
   */
  ghost predicate Reached(prologue: bytes, file: bytes, epilogue: bytes, n: nat,
                          p1: nat, eof1: bool, p2: nat, eof2: bool, p3: nat, eof3: bool, position: nat)
  {
    n <= 2 && p2 <= |file| && p3 <= |epilogue| &&
    (eof3 ==> p3 == |epilogue|) && (0 < p3 == |epilogue| ==> eof3) &&
    (n < 2 ==> p3 == 0 && !eof3) &&
    (n == 0 ==> position == p1 <= |prologue| && !eof1 && p2 == 0 && !eof2) &&
    (n == 1 ==> p2 % 3 == 0 && !eof2 && position == |prologue| + |B64.Encode(file[..p2])|) &&
    (n == 2 ==> position == |prologue| + |B64.Encode(file)| + p3)
  }

  lemma ReachedBound(prologue: bytes, file: bytes, epilogue: bytes, n: nat,
                     p1: nat, eof1: bool, p2: nat, eof2: bool, p3: nat, eof3: bool, position: nat)
    requires Reached(prologue, file, epilogue, n, p1, eof1, p2, eof2, p3, eof3, position)
    ensures position <= |FileObject(prologue, file, epilogue)|
    ensures n <= 2 && (n < 2 ==> p3 == 0 && !eof3 && !eof2) && (n == 0 ==> p2 == 0 && position == p1)
    ensures eof3 ==> position == |FileObject(prologue, file, epilogue)|
    ensures position == |FileObject(prologue, file, epilogue)| && epilogue != [] ==> n == 2 && eof3
  {
    hide B64.Encode;
    if n == 1 {
      EncodePrefix(file, p2);
    }
  }

  lemma ReadPrologue(prologue: bytes, file: bytes, epilogue: bytes, p1: nat, p1': nat, eof1: bool)
    requires p1 <= p1' <= |prologue| && eof1 == (p1' == |prologue|)
    ensures p1' <= |FileObject(prologue, file, epilogue)|
    ensures FileObject(prologue, file, epilogue)[p1..p1'] == prologue[p1..p1']
    ensures Reached(prologue, file, epilogue, if eof1 then 1 else 0, p1', eof1, 0, false, 0, false, p1')
  {
    assert B64.Encode(file[..0]) == [];
    hide B64.Encode;
  }

  lemma ReadFile(prologue: bytes, file: bytes, epilogue: bytes,
                 p1: nat, eof1: bool, p2: nat, position: nat, p2': nat, eof2: bool)
    requires Reached(prologue, file, epilogue, 1, p1, eof1, p2, false, 0, false, position)
    requires p2 <= p2' <= |file| && (if eof2 then p2' == |file| else (p2' - p2) % 3 == 0)
    ensures var position' := position + |B64.Encode(file[p2..p2'])|;
      position' <= |FileObject(prologue, file, epilogue)| &&
      FileObject(prologue, file, epilogue)[position..position'] == B64.Encode(file[p2..p2']) &&
      Reached(prologue, file, epilogue, if eof2 then 2 else 1, p1, eof1, p2', eof2, 0, false, position')
  {
    hide B64.Encode;
    FilePiece(prologue, file, epilogue, p2, p2');
    assert file[..|file|] == file;
  }

  lemma ReadEpilogue(prologue: bytes, file: bytes, epilogue: bytes,
                     p1: nat, eof1: bool, p2: nat, eof2: bool, p3: nat, eof3: bool, position: nat, p3': nat)
    requires Reached(prologue, file, epilogue, 2, p1, eof1, p2, eof2, p3, eof3, position)
    requires p3 <= p3' <= |epilogue|
    ensures var position' := position + p3' - p3;
      position' <= |FileObject(prologue, file, epilogue)| &&
      FileObject(prologue, file, epilogue)[position..position'] == epilogue[p3..p3'] &&
      Reached(prologue, file, epilogue, 2, p1, eof1, p2, eof2, p3', p3' == |epilogue|, position')
  {
    hide B64.Encode;
  }

  /**
    inputStream/FileDataInputStream.cpp on top of inputStream/MultipleInputStream.cpp: the
    sections are the prologue, the file and the epilogue. How the prologue and the epilogue
    are formatted is not part of this model.
   */
  class FileDataInputStream {
    const prologue: bytes
    const file: bytes
    const epilogue: bytes
    const stream1: BufferInputStream
    const stream2: FileInputStream
    const stream3: BufferInputStream
    var currentSection: nat
    var position: nat
    var eofbit: bool
    const totalSize: nat

    ghost function Content(): bytes {
      FileObject(prologue, file, epilogue)
    }

    /** Everything before section `n` has been delivered, and `position` counts the bytes. */
    ghost predicate At(n: nat)
      reads this`position, stream1, stream2, stream3
    {
      stream1 != stream3 && totalSize == |Content()| &&
      stream1.data == prologue && stream2.content == file && stream3.data == epilogue &&
      stream1.Valid() && stream2.Valid() && stream3.Valid() &&
      Reached(prologue, file, epilogue, n, stream1.position, stream1.eofbit,
              stream2.position, stream2.feof, stream3.position, stream3.eofbit, position)
    }

    ghost predicate Valid()
      reads this, stream1, stream2, stream3
    {
      At(currentSection) && eofbit == (currentSection == 2 && stream3.eofbit)
    }

    constructor (prologue: bytes, file: bytes, epilogue: bytes)
      ensures Valid() && position == 0 && !eofbit
      ensures this.prologue == prologue && this.file == file && this.epilogue == epilogue
      ensures fresh(stream1) && fresh(stream2) && fresh(stream3)
    {
      this.prologue, this.file, this.epilogue := prologue, file, epilogue;
      stream1 := new BufferInputStream(prologue);
      stream2 := new FileInputStream(file);
      stream3 := new BufferInputStream(epilogue);
      totalSize := |prologue| + DataSizeAfterEncoding(|file|) + |epilogue|;
      currentSection, position, eofbit := 0, 0, false;
      EncodedSize(file);
    }

    /** `readFromStream` for the file section: the bytes read are encoded into the caller's buffer. */
    method ReadEncoded(buffer: array<byte>, at: nat, size: nat) returns (b64Size: nat)
      requires stream2.Valid() && !stream2.feof && at + size <= buffer.Length
      modifies stream2, buffer
      ensures stream2.Valid() && old(stream2.position) <= stream2.position
      ensures var piece := stream2.content[old(stream2.position)..stream2.position];
              b64Size == |B64.Encode(piece)| <= size &&
              |piece| == Min(MaxDataSizeToEncode(size), |stream2.content| - old(stream2.position)) &&
              buffer[..] == Splice(old(buffer[..]), at, B64.Encode(piece))
      ensures !stream2.feof ==> size - b64Size < 4
      ensures if stream2.feof then stream2.position == |stream2.content|
              else (stream2.position - old(stream2.position)) % 3 == 0
    {
      hide B64.Encode, B64.EncodeGroup;
      B64.EncodeNothing();
      var rawSize := MaxDataSizeToEncode(size);
      if rawSize <= 0 {
        assert stream2.content[stream2.position..stream2.position] == [];
        return 0;
      }
      var rawBuffer := new byte[rawSize];
      var rawBytesRead := stream2.Read(rawBuffer, 0, rawSize);
      ghost var piece := rawBuffer[..][..rawBytesRead];
      assert piece == stream2.content[old(stream2.position)..stream2.position];
      EncodedSize(piece);
      MaxDataSizeFits(size, rawBytesRead);
      b64Size := B64.EncodeInto(buffer, at, rawBuffer, rawBytesRead);
    }

    /** One `readFromStream` of the current section; `ended` is the `eof` of its stream. */
    method ReadSection(buffer: array<byte>, at: nat, size: nat) returns (bytesRead: nat, ended: bool)
      requires At(currentSection) && at + size <= buffer.Length
      modifies this`position, stream1, stream2, stream3, buffer
      ensures bytesRead <= size && position == old(position) + bytesRead <= |Content()|
      ensures buffer[..] == Splice(old(buffer[..]), at, Content()[old(position)..position])
      ensures At(if ended && currentSection < 2 then currentSection + 1 else currentSection)
      ensures currentSection < 2 ==> !stream3.eofbit
      ensures currentSection == 2 ==> ended == stream3.eofbit && (old(stream3.eofbit) ==> ended)
      ensures !ended ==> size - bytesRead < 4
    {
      hide Splice, Reached, FileObject, B64.Encode, MaxDataSizeToEncode;
      ghost var p1, eof1, p2, eof2, p3, eof3, start := stream1.position, stream1.eofbit,
        stream2.position, stream2.feof, stream3.position, stream3.eofbit, position;
      ReachedBound(prologue, file, epilogue, currentSection, p1, eof1, p2, eof2, p3, eof3, start);
      if currentSection == 0 {
        bytesRead := stream1.Read(buffer, at, size);
        ended := stream1.eofbit;
        ReadPrologue(prologue, file, epilogue, p1, stream1.position, ended);
      } else if currentSection == 1 {
        bytesRead := ReadEncoded(buffer, at, size);
        ended := stream2.feof;
        ReadFile(prologue, file, epilogue, p1, eof1, p2, start, stream2.position, ended);
      } else {
        bytesRead := stream3.Read(buffer, at, size);
        ended := stream3.eofbit;
        ReadEpilogue(prologue, file, epilogue, p1, eof1, p2, eof2, p3, eof3, start, stream3.position);
      }
      position := position + bytesRead;
    }

    /** `MultipleInputStream::read`, recursive across the sections. */
    method Read(buffer: array<byte>, at: nat, size: nat) returns (bytesRead: nat)
      requires Valid() && at + size <= buffer.Length
      modifies this, stream1, stream2, stream3, buffer
      ensures Valid()
      ensures bytesRead <= size && position == old(position) + bytesRead <= |Content()|
      ensures buffer[..] == Splice(old(buffer[..]), at, Content()[old(position)..position])
      ensures old(eofbit) ==> eofbit
      ensures eofbit ==> position == |Content()|
      ensures position == |Content()| && epilogue != [] ==> eofbit
      ensures eofbit || size - bytesRead < 4
      decreases 2 - currentSection
    {
      hide At, Content, Splice, Reached, FileObject, B64.Encode, Min;
      ghost var before, start := buffer[..], position;
      AtBound();
      var ended;
      bytesRead, ended := ReadSection(buffer, at, size);
      if ended {
        if currentSection == 2 {
          eofbit := true;
        } else {
          ghost var middle := position;
          currentSection := currentSection + 1;
          var ret := Read(buffer, at + bytesRead, size - bytesRead);
          SplicePieces(before, at, Content(), start, middle, position);
          bytesRead := bytesRead + ret;
        }
      }
      AtBound();
    }

    lemma AtBound()
      requires Valid()
      ensures currentSection <= 2 && position <= |Content()|
      ensures eofbit ==> position == |Content()|
      ensures position == |Content()| && epilogue != [] ==> eofbit
    {
      ReachedBound(prologue, file, epilogue, currentSection, stream1.position, stream1.eofbit,
                   stream2.position, stream2.feof, stream3.position, stream3.eofbit, position);
    }

    /** `MultipleInputStream::reset` */
    method Reset()
      requires Valid()
      modifies this, stream1, stream2, stream3
      ensures Valid() && position == 0 && !eofbit
    {
      stream1.Reset();
      stream2.Reset();
      stream3.Reset();
      eofbit, position, currentSection := false, 0, 0;
    }
  }

  /**
    A whole transfer: a new stream read with any sequence of sizes. Whatever the sizes, the
    bytes obtained are the beginning of the text, and before its end each read obtains what it asks for
    but for less than a letter group. With sizes of at least 4 the end is reached after at most one
    read per byte of the projected total size.
   */
  method ReadInPieces(stream: FileDataInputStream, sizes: seq<nat>) returns (out: bytes)
    requires stream.Valid() && stream.position == 0 && !stream.eofbit
    modifies stream, stream.stream1, stream.stream2, stream.stream3
    ensures stream.Valid() && |out| == stream.position <= stream.totalSize
    ensures out == (stream.prologue + B64.Encode(stream.file) + stream.epilogue)[..stream.position]
    ensures |out| <= Sum(sizes)
    ensures stream.eofbit || |out| >= Sum(sizes) - 3 * |sizes|
    ensures stream.eofbit ==> stream.position == stream.totalSize
    ensures (forall size | size in sizes :: size >= 4) && |sizes| > stream.totalSize ==>
      stream.eofbit && out == stream.prologue + B64.Encode(stream.file) + stream.epilogue
  {
    hide Splice, B64.Encode;
    out := [];
    for i := 0 to |sizes|
      invariant stream.Valid() && |out| == stream.position <= |stream.Content()|
      invariant out == stream.Content()[..stream.position]
      invariant (forall size | size in sizes :: size >= 4) ==> stream.position >= i || stream.eofbit
      invariant stream.eofbit ==> stream.position == |stream.Content()|
      invariant |out| <= Sum(sizes[..i]) && (stream.eofbit || |out| >= Sum(sizes[..i]) - 3 * i)
    {
      hide FileObject;
      SumNext(sizes, i);
      stream.AtBound();
      var buffer := new byte[sizes[i]];
      ghost var before := buffer[..];
      var n := stream.Read(buffer, 0, sizes[i]);
      SpliceRead(before, 0, stream.Content()[|out|..stream.position]);
      out := out + buffer[..n];
      assert sizes[i] in sizes;
    }
    assert sizes[..|sizes|] == sizes;
  }

  function Sum(sizes: seq<nat>): nat {
    if sizes == [] then 0 else Sum(sizes[..|sizes| - 1]) + sizes[|sizes| - 1]
  }

  lemma SumNext(sizes: seq<nat>, i: nat)
    requires i < |sizes|
    ensures Sum(sizes[..i + 1]) == Sum(sizes[..i]) + sizes[i]
  {
    assert sizes[..i + 1][..i] == sizes[..i];
  }
}
