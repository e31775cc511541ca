/**
  spds/ItemReader.cpp: an outgoing item is read piece by piece from its input stream and every
  piece is encoded on its own. Items held in memory and base64 transfer are modelled.
 */
module ItemReader {
  import opened Options
  import opened Bytes
  import opened EncodingHelper
  import opened InputStreams
  import B64 = Base64

  /** spds/Chunk.cpp */
  datatype Chunk = Chunk(data: bytes, first: bool, last: bool, totalDataSize: nat)

  /** The part of spds/SyncItem.cpp that the sender uses. */
  class SyncItem {
    const data: bytes
    const inputStream: BufferInputStream

    constructor (data: bytes)
      ensures this.data == data && fresh(inputStream) && inputStream.Valid()
      ensures inputStream.data == data && inputStream.position == 0
    {
      this.data := data;
      inputStream := new BufferInputStream(data);
    }
  }

  /** The stream position after a read that asks for `size` encoded bytes. */
  function PieceEnd(data: bytes, p: nat, size: nat): (q: nat)
    requires p <= |data|
    ensures p <= q <= |data|
  {
    Min(p + MaxDataSizeToEncode(size), |data|)
  }

  /** The chunk that a read of `size` makes at position `p` of an item. */
  function NextChunk(data: bytes, p: nat, size: nat): Option<Chunk>
    requires p <= |data|
  {
    var q := PieceEnd(data, p, size);
    if data != [] && q == p then None
    else Some(Chunk(B64.Encode(data[p..q]), p == 0, q == |data|, DataSizeAfterEncoding(|data|)))
  }

  class Reader {
    var syncItem: SyncItem?
    var maxChunkSize: nat
    var buffer: array<byte>

    ghost predicate Valid()
      reads this
    {
      buffer.Length == maxChunkSize + 1
    }

    constructor (size: nat)
      ensures Valid() && syncItem == null && fresh(buffer)
    {
      syncItem := null;
      maxChunkSize := size;
      buffer := new byte[size + 1];
    }

    method SetSyncItem(item: SyncItem)
      modifies this`syncItem
      ensures syncItem == item
    {
      syncItem := item;
    }

    method ResetBuffer(size: nat)
      requires Valid()
      modifies this`maxChunkSize, this`buffer, buffer
      ensures Valid() && size <= maxChunkSize && (fresh(buffer) || buffer == old(buffer))
      ensures forall k | 0 <= k < buffer.Length :: buffer[k] == 0
    {
      if size > maxChunkSize {
        buffer := new byte[size + 1];
        maxChunkSize := size;
      }
      forall k | 0 <= k < buffer.Length {
        buffer[k] := 0;
      }
    }

    method GetNextChunk(size: nat) returns (chunk: Option<Chunk>)
      requires Valid() && syncItem != null
      requires syncItem.inputStream.Valid() && syncItem.inputStream.data == syncItem.data
      modifies this`maxChunkSize, this`buffer, buffer, syncItem.inputStream
      ensures Valid() && (fresh(buffer) || buffer == old(buffer))
      ensures syncItem.inputStream.Valid()
      ensures chunk == NextChunk(syncItem.data, old(syncItem.inputStream.position), size)
      ensures syncItem.inputStream.position
           == PieceEnd(syncItem.data, old(syncItem.inputStream.position), size)
    {
      hide B64.Encode;
      B64.EncodeNothing();
      ResetBuffer(size);
      var istream := syncItem.inputStream;
      ghost var p := istream.position;
      var first := istream.position == 0;
      var toRead := MaxDataSizeToEncode(size);
      var bytesRead := istream.Read(buffer, 0, toRead);
      var value: bytes := [];
      ghost var piece := buffer[..][..bytesRead];
      assert piece == syncItem.data[p..istream.position];
      hide Splice, MaxDataSizeToEncode;
      if |istream.data| == 0 {
        value := [];
      } else if bytesRead == 0 {
        return None;
      } else {
        value := Transform(buffer, bytesRead);
      }
      var last := istream.eofbit;
      chunk := Some(Chunk(value, first, last, DataSizeAfterEncoding(|syncItem.data|)));
    }

    /** `EncodingHelper::encode` through spds/B64Encoder.cpp, into a buffer of its own. */
    method Transform(data: array<byte>, len: nat) returns (value: bytes)
      requires len <= data.Length
      ensures value == B64.Encode(data[..][..len]) && |value| < (len / 3 + 1) * 4 + 32
    {
      hide B64.Encode, B64.EncodeGroup;
      B64.EncodeLength(data[..][..len]);
      var b64 := new byte[(len / 3 + 1) * 4 + 32];
      var size := B64.EncodeInto(b64, 0, data, len);
      value := b64[..size];
    }
  }

  // ---------------------------------------------------------------- the chunks of one item

  /** The text that the chunks carry together. */
  function Text(cs: seq<Chunk>): bytes {
    if cs == [] then [] else Text(cs[..|cs| - 1]) + cs[|cs| - 1].data
  }

  /** The flags and declared sizes of chunks that cover `p` of the `len` bytes of an item. */
  ghost predicate Flags(cs: seq<Chunk>, len: nat, p: nat) {
    (cs == [] ==> p == 0) && (p == 0 < len ==> cs == []) && (len == 0 ==> |cs| <= 1) &&
    forall i | 0 <= i < |cs| ::
      cs[i].first == (i == 0) &&
      cs[i].last == (i == |cs| - 1 && p == len) &&
      cs[i].totalDataSize == DataSizeAfterEncoding(len) &&
      (cs[i].data == [] ==> len == 0) && |cs[i].data| % 4 == 0
  }

  /** `cs` are the chunks made so far of an item of which `p` bytes have been read. */
  ghost predicate Transfer(cs: seq<Chunk>, data: bytes, p: nat) {
    p <= |data| && (p % 3 == 0 || p == |data|) && Flags(cs, |data|, p) &&
    Text(cs) == B64.Encode(data[..p])
  }

  /** All of the item: exactly one first and one last chunk, and the declared size is the real one. */
  ghost predicate Complete(cs: seq<Chunk>, data: bytes) {
    cs != [] && Transfer(cs, data, |data|)
  }

  lemma TransferStarts(data: bytes)
    ensures Transfer([], data, 0)
  {
  }

  lemma TransferStep(cs: seq<Chunk>, data: bytes, p: nat, size: nat)
    requires Transfer(cs, data, p) && (p < |data| || cs == [])
    requires NextChunk(data, p, size).Some?
    ensures var q, c := PieceEnd(data, p, size), NextChunk(data, p, size).value;
            Transfer(cs + [c], data, q) && (c.last ==> Complete(cs + [c], data))
  {
    hide B64.Encode, DataSizeAfterEncoding, MaxDataSizeToEncode, PieceEnd, NextChunk, Text, Flags;
    var q, c := PieceEnd(data, p, size), NextChunk(data, p, size).value;
    ChunkOf(cs, data, p, size);
    FlagsStep(cs, |data|, p, c, q);
    TextAppend(cs, c);
    PieceText(data, p, q);
  }

  lemma ChunkOf(cs: seq<Chunk>, data: bytes, p: nat, size: nat)
    requires Transfer(cs, data, p) && (p < |data| || cs == [])
    requires NextChunk(data, p, size).Some?
    ensures var q, c := PieceEnd(data, p, size), NextChunk(data, p, size).value;
      p % 3 == 0 && (q % 3 == 0 || q == |data|) && (p == q ==> data == []) &&
      c == Chunk(B64.Encode(data[p..q]), p == 0, q == |data|, DataSizeAfterEncoding(|data|)) &&
      (c.data == [] ==> data == [])
  {
    hide B64.Encode, Text, DataSizeAfterEncoding, MaxDataSizeToEncode;
    EncodedSize(data[p..PieceEnd(data, p, size)]);
    WholeGroups(p, size);
    EncodedNothing(PieceEnd(data, p, size) - p);
  }

  lemma WholeGroups(p: nat, size: nat)
    ensures p % 3 == 0 ==> (p + MaxDataSizeToEncode(size)) % 3 == 0
  {
  }

  lemma EncodedNothing(n: nat)
    ensures DataSizeAfterEncoding(n) == 0 ==> n == 0
  {
  }

  lemma FlagsStep(cs: seq<Chunk>, len: nat, p: nat, c: Chunk, q: nat)
    requires Flags(cs, len, p) && p <= q <= len && (cs == [] || p < len) && (p == q ==> len == 0)
    requires c.first == (p == 0) && c.last == (q == len)
    requires c.totalDataSize == DataSizeAfterEncoding(len) && (c.data == [] ==> len == 0) && |c.data| % 4 == 0
    ensures Flags(cs + [c], len, q)
  {
  }

  lemma PieceText(data: bytes, p: nat, q: nat)
    requires p <= q <= |data| && p % 3 == 0
    ensures B64.Encode(data[..p]) + B64.Encode(data[p..q]) == B64.Encode(data[..q])
  {
    B64.EncodeConcat(data[..p], data[p..q]);
    assert data[..p] + data[p..q] == data[..q];
  }

  lemma TextAppend(cs: seq<Chunk>, c: Chunk)
    ensures Text(cs + [c]) == Text(cs) + c.data
  {
    assert (cs + [c])[..|cs|] == cs;
  }

  lemma CompleteText(cs: seq<Chunk>, data: bytes)
    requires Complete(cs, data)
    ensures Text(cs) == B64.Encode(data)
    ensures |Text(cs)| == cs[0].totalDataSize == DataSizeAfterEncoding(|data|)
    ensures B64.Decodable(Text(cs)) && B64.Decode(Text(cs)) == data
  {
    assert data[..|data|] == data;
    EncodedSize(data);
    B64.DecodeEncode(data);
  }

  /** With room for at least one group of letters there is always a next chunk, and it fits. */
  lemma ChunkFits(data: bytes, p: nat, size: nat)
    requires p <= |data| && (p < |data| || data == [])
    ensures NextChunk(data, p, size).Some? <==> size >= 4 || data == []
    ensures NextChunk(data, p, size).Some? ==> |NextChunk(data, p, size).value.data| <= size
  {
    var q := PieceEnd(data, p, size);
    EncodedSize(data[p..q]);
    MaxDataSizeFits(size, q - p);
    hide B64.Encode;
  }

  /**
    A whole item, read with any sequence of sizes: the chunks so far are those of the first `p` bytes,
    and sizes of at least 4 make a complete transfer after at most one chunk per byte.
   */
  method ReadItem(data: bytes, sizes: seq<nat>) returns (cs: seq<Chunk>, ghost p: nat)
    ensures Transfer(cs, data, p)
    ensures (forall size | size in sizes :: size >= 4) && |sizes| > |data| ==> Complete(cs, data)
  {
    hide Transfer, NextChunk, PieceEnd;
    var item := new SyncItem(data);
    var reader := new Reader(0);
    reader.SetSyncItem(item);
    cs, p := [], 0;
    TransferStarts(data);
    for i := 0 to |sizes|
      invariant reader.Valid() && reader.syncItem == item && item.inputStream.Valid()
      invariant fresh(reader.buffer) && p == item.inputStream.position
      invariant Transfer(cs, data, p) && (p < |data| || cs == [])
      invariant (forall size | size in sizes :: size >= 4) ==> p >= i
    {
      assert sizes[i] in sizes;
      TransferBound(cs, data, p);
      ChunkFits(data, p, sizes[i]);
      var chunk := reader.GetNextChunk(sizes[i]);
      if chunk.None? {
        return;
      }
      TransferStep(cs, data, p, sizes[i]);
      ChunkProgress(data, p, sizes[i]);
      cs, p := cs + [chunk.value], item.inputStream.position;
      if chunk.value.last {
        return;
      }
    }
    TransferBound(cs, data, p);
  }

  lemma TransferBound(cs: seq<Chunk>, data: bytes, p: nat)
    requires Transfer(cs, data, p)
    ensures p <= |data| && (cs == [] ==> p == 0)
  {
  }

  lemma ChunkProgress(data: bytes, p: nat, size: nat)
    requires p <= |data| && NextChunk(data, p, size).Some?
    ensures NextChunk(data, p, size).value.last || p < PieceEnd(data, p, size) < |data|
  {
  }
}
