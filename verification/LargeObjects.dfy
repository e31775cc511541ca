/**
  Large objects end to end: the chunks that `ItemReader` makes of an item, put into messages as
  `SyncMLBuilder::prepareItemChunk` does, and received by `processSyncItem`.
 */
module LargeObjects {
  import opened Options
  import opened Bytes
  import opened EncodingHelper
  import opened ItemReader
  import R = Receiver
  import I = IncomingItems
  import B64 = Base64

  /** The declared size travels in the first chunk of several and nowhere else. */
  function Wire(c: Chunk, id: R.ItemId): R.Message
    requires NUL !in c.data
  {
    R.Message(id.command, false, None, Some(id.key), id.sourceIndex,
              !c.last, if c.first && !c.last then c.totalDataSize else 0, Some(c.data), Some(R.Base64))
  }

  ghost predicate Readable(cs: seq<Chunk>) {
    forall c | c in cs :: NUL !in c.data
  }

  function Messages(cs: seq<Chunk>, id: R.ItemId): (ms: seq<R.Message>)
    requires Readable(cs)
    ensures |ms| == |cs| && forall i | 0 <= i < |cs| :: ms[i] == Wire(cs[i], id)
  {
    seq(|cs|, i requires 0 <= i < |cs| => Wire(cs[i], id))
  }

  lemma {:induction false} TextParts(cs: seq<Chunk>)
    requires NUL !in Text(cs)
    ensures Readable(cs)
  {
    if cs != [] {
      var pre, c := cs[..|cs| - 1], cs[|cs| - 1];
      assert Text(cs) == Text(pre) + c.data;
      TextParts(pre);
      assert forall d | d in cs :: d in pre || d == c;
    }
  }

  lemma {:induction false} PayloadsAreText(cs: seq<Chunk>, id: R.ItemId)
    requires Readable(cs)
    ensures R.Payloads(Messages(cs, id)) == Text(cs)
  {
    if cs != [] {
      var pre, c := cs[..|cs| - 1], cs[|cs| - 1];
      assert Messages(cs, id) == Messages(pre, id) + [Wire(c, id)];
      PayloadsAreText(pre, id);
      R.PayloadsAppend(Messages(pre, id), Wire(c, id));
    }
  }

  /** What arrives for `data` when nothing goes wrong. */
  function Whole(id: R.ItemId, data: bytes): R.Delivery {
    B64.EncodeIsText(data);
    R.Delivery(R.Cut(id), B64.Encode(data), Some(R.Base64))
  }

  lemma WholeIsPlain(id: R.ItemId, data: bytes, garbled: bytes -> bytes)
    ensures I.PlainContent(Whole(id, data).content, Whole(id, data).encoding, garbled) == data
  {
    B64.DecodeEncode(data);
  }

  /** What arrives when only the last chunk is handed over. */
  function Last(id: R.ItemId, cs: seq<Chunk>): R.Delivery
    requires cs != [] && Readable(cs)
  {
    R.Delivery(R.Cut(id), cs[|cs| - 1].data, Some(R.Base64))
  }

  /** The receiver takes an object of the size that this one has once it is encoded. */
  predicate Allowed(cfg: R.Config, size: nat) {
    cfg.maxObjSize == 0 || (size + 2) / 3 * 4 <= cfg.maxObjSize
  }

  lemma AllowedIs(cfg: R.Config, size: nat)
    ensures R.TooLarge(cfg, DataSizeAfterEncoding(size)) <==> !Allowed(cfg, size)
  {
    StartedGroups(size);
  }

  /** An item of several chunks is refused with the first, or its name is cut and the second one does not match. */
  predicate Arrives(cfg: R.Config, id: R.ItemId, chunks: nat, size: nat) {
    chunks == 1 || (Allowed(cfg, size) && |id.key| <= 255)
  }

  /** Everything that is handed over for the chunks of an item. */
  function Arrived(cfg: R.Config, id: R.ItemId, cs: seq<Chunk>, data: bytes): seq<R.Delivery>
    requires cs != [] && Readable(cs)
  {
    if Arrives(cfg, id, |cs|, |data|) then [Whole(id, data)]
    else if |cs| == 2 && Allowed(cfg, |data|) then []
    else [Last(id, cs)]
  }

  lemma OneMessage(cfg: R.Config, s: R.State, m: R.Message)
    ensures R.From(cfg, s, [m]) == R.Step(cfg, s, m)
  {
    assert [m][..0] == [];
  }

  /** A chunk in the middle, with no item in progress, is taken for an item of size 0 and refused. */
  lemma MiddleRefused(cfg: R.Config, s: R.State, id: R.ItemId, c: Chunk)
    requires cfg.tolerance > 1.0 && s.incoming.None? && NUL !in c.data
    requires c.data != [] && !c.last && !c.first
    ensures R.Step(cfg, s, Wire(c, id)) == s
  {
    assert R.ToleranceDataSize(0, cfg.tolerance) == 0;
  }

  ghost predicate Chunked(cs: seq<Chunk>) {
    forall i | 0 <= i < |cs| ::
      cs[i].data != [] && (cs[i].last <==> i == |cs| - 1) && (cs[i].first <==> i == 0)
  }

  lemma {:induction false} RefusedFrom(cfg: R.Config, s: R.State, id: R.ItemId, cs: seq<Chunk>, n: nat, k: nat)
    requires cfg.tolerance > 1.0 && s.incoming.None? && Readable(cs) && Chunked(cs) && 1 <= n <= k < |cs|
    requires R.From(cfg, s, Messages(cs, id)[..n]) == s
    ensures R.From(cfg, s, Messages(cs, id)[..k]) == s
  {
    hide R.From, R.Step, R.Payloads;
    if k > n {
      RefusedFrom(cfg, s, id, cs, n, k - 1);
      R.FromStep(cfg, s, Messages(cs, id), k);
      MiddleRefused(cfg, s, id, cs[k - 1]);
    }
  }

  /** The last chunk, with no item in progress, is taken for an item of its own. */
  lemma LastAlone(cfg: R.Config, s: R.State, id: R.ItemId, cs: seq<Chunk>, n: nat)
    requires cfg.tolerance > 1.0 && s.incoming.None? && !id.command.Other?
    requires Readable(cs) && Chunked(cs) && 1 <= n < |cs|
    requires R.From(cfg, s, Messages(cs, id)[..n]) == s
    ensures R.From(cfg, s, Messages(cs, id)) == R.State(None, s.deliveries + [Last(id, cs)])
  {
    hide R.From, R.Payloads;
    var ms := Messages(cs, id);
    RefusedFrom(cfg, s, id, cs, n, |cs| - 1);
    R.FromStep(cfg, s, ms, |cs|);
    assert ms[..|cs|] == ms;
  }

  /** The first chunk is refused if the declared size is not allowed. */
  lemma FirstRefused(cfg: R.Config, s: R.State, id: R.ItemId, cs: seq<Chunk>)
    requires cfg.tolerance > 1.0 && s.incoming.None? && Readable(cs) && Chunked(cs) && |cs| >= 2
    requires R.TooLarge(cfg, cs[0].totalDataSize)
    ensures R.From(cfg, s, Messages(cs, id)[..1]) == s
  {
    var ms := Messages(cs, id);
    R.FromStep(cfg, s, ms, 1);
    assert ms[..0] == [];
    R.FromNothing(cfg, s);
    hide R.From, R.Payloads;
  }

  /** If the name of the item is cut, the second chunk is taken for one of another item, and both are lost. */
  lemma SecondLost(cfg: R.Config, s: R.State, id: R.ItemId, cs: seq<Chunk>)
    requires cfg.tolerance > 1.0 && s.incoming.None? && Readable(cs) && Chunked(cs) && |cs| >= 2
    requires !R.TooLarge(cfg, cs[0].totalDataSize) && |cs[0].data| <= cs[0].totalDataSize && |id.key| >= R.DIM_KEY
    ensures R.From(cfg, s, Messages(cs, id)[..2]) == s
  {
    var ms := Messages(cs, id);
    R.FromStep(cfg, s, ms, 1);
    R.FromStep(cfg, s, ms, 2);
    assert ms[..0] == [];
    R.FromNothing(cfg, s);
    R.ToleranceInverts(cs[0].totalDataSize, cfg.tolerance, 0);
    hide R.From, R.Payloads, R.ToleranceDataSize;
    R.FirstChunk(cfg, s, ms[0], id, Some(R.Base64));
  }

  /** What `Complete` says of the single chunks. */
  lemma ChunksOf(cs: seq<Chunk>, data: bytes)
    requires Complete(cs, data)
    ensures cs != [] && Readable(cs) && cs[0].totalDataSize == DataSizeAfterEncoding(|data|) == |Text(cs)|
    ensures |cs| >= 2 ==> Chunked(cs)
    ensures |cs| >= 2 ==> |cs[0].data| <= |Text(cs)| && |cs[|cs| - 1].data| < |Text(cs)|
  {
    CompleteText(cs, data);
    B64.EncodeIsText(data);
    TextParts(cs);
    if |cs| >= 2 {
      FirstInText(cs);
      FirstInText(cs[..|cs| - 1]);
    }
    hide B64.Encode;
  }

  lemma {:induction false} FirstInText(cs: seq<Chunk>)
    requires cs != []
    ensures |cs[0].data| <= |Text(cs)|
  {
    if |cs| > 1 {
      FirstInText(cs[..|cs| - 1]);
    }
  }

  /**
    End to end: what is handed over for the chunks of an item, however it was cut and whatever the
    receiver allows. It is the whole item if and only if it came in one chunk, or its encoded size is
    allowed and its name is not cut.
   */
  lemma EndToEnd(cfg: R.Config, s: R.State, id: R.ItemId, cs: seq<Chunk>, data: bytes)
    requires cfg.tolerance > 1.0 && s.incoming.None? && !id.command.Other?
    requires Complete(cs, data)
    ensures Readable(cs)
    ensures R.From(cfg, s, Messages(cs, id)) == R.State(None, s.deliveries + Arrived(cfg, id, cs, data))
    ensures Arrived(cfg, id, cs, data) == [Whole(id, data)] <==> Arrives(cfg, id, |cs|, |data|)
  {
    hide B64.Encode, B64.Decode, DataSizeAfterEncoding, Complete, Text;
    hide R.From, R.Payloads, R.TooLarge, R.OneItem, R.Cut, R.ToleranceDataSize, Whole, Last, Chunked;
    ChunksOf(cs, data);
    CompleteText(cs, data);
    PayloadsAreText(cs, id);
    AllowedIs(cfg, |data|);
    var ms := Messages(cs, id);
    if |cs| >= 2 {
      LastIsNotWhole(id, cs, data);
    }
    if |cs| == 1 {
      SingleChunk(cs, data);
      SingleArrives(cfg, s, id, cs, data);
    } else if !Allowed(cfg, |data|) {
      FirstRefused(cfg, s, id, cs);
      LastAlone(cfg, s, id, cs, 1);
    } else if |id.key| > 255 {
      SecondLost(cfg, s, id, cs);
      assert |cs| == 2 ==> ms[..2] == ms && s.deliveries + [] == s.deliveries;
      if |cs| > 2 {
        LastAlone(cfg, s, id, cs, 2);
      }
    } else {
      WholeArrives(cfg, s, id, cs, data);
    }
  }

  lemma SingleChunk(cs: seq<Chunk>, data: bytes)
    requires Complete(cs, data) && |cs| == 1
    ensures cs[0].first && cs[0].last && cs[0].data == B64.Encode(data)
  {
    CompleteText(cs, data);
    assert cs[..0] == [] && Text(cs) == [] + cs[0].data == cs[0].data;
    hide B64.Encode;
  }

  lemma LastIsNotWhole(id: R.ItemId, cs: seq<Chunk>, data: bytes)
    requires Complete(cs, data) && |cs| >= 2 && Readable(cs)
    ensures Last(id, cs) != Whole(id, data)
  {
    ChunksOf(cs, data);
    CompleteText(cs, data);
    hide B64.Encode, Complete, Text;
  }

  lemma WholeArrives(cfg: R.Config, s: R.State, id: R.ItemId, cs: seq<Chunk>, data: bytes)
    requires cfg.tolerance > 1.0 && s.incoming.None? && !id.command.Other? && Complete(cs, data) && Readable(cs)
    requires |cs| >= 2 && Allowed(cfg, |data|) && |id.key| <= 255
    ensures R.From(cfg, s, Messages(cs, id)) == R.State(None, s.deliveries + [Whole(id, data)])
  {
    hide B64.Encode, B64.Decode, DataSizeAfterEncoding, Complete, Text;
    hide R.From, R.Payloads, R.ToleranceDataSize, R.Cut;
    ChunksOf(cs, data);
    CompleteText(cs, data);
    PayloadsAreText(cs, id);
    AllowedIs(cfg, |data|);
    var ms := Messages(cs, id);
    R.ToleranceInverts(ms[0].size, cfg.tolerance, 0);
    R.AcceptsMeans(cfg, ms[0].size);
    R.Reassembled(cfg, s, ms, id, Some(R.Base64));
  }

  lemma SingleArrives(cfg: R.Config, s: R.State, id: R.ItemId, cs: seq<Chunk>, data: bytes)
    requires s.incoming.None? && !id.command.Other? && |cs| == 1 && Readable(cs)
    requires cs[0].first && cs[0].last && cs[0].data == B64.Encode(data)
    ensures R.From(cfg, s, Messages(cs, id)) == R.State(None, s.deliveries + [Whole(id, data)])
  {
    hide B64.Encode;
    var ms := Messages(cs, id);
    OneMessage(cfg, s, ms[0]);
    assert ms == [ms[0]];
  }

  /** The last chunk is the code of the end of the item. */
  lemma LastPiece(cs: seq<Chunk>, data: bytes) returns (p: nat)
    requires Complete(cs, data)
    ensures var c := cs[|cs| - 1];
      p <= |data| && B64.Decodable(c.data) && B64.Decode(c.data) == data[p..]
  {
    hide B64.Encode, B64.Decode, B64.Decodable;
    var pre, c := cs[..|cs| - 1], cs[|cs| - 1];
    CompleteText(cs, data);
    assert Text(cs) == Text(pre) + c.data;
    TextGroups(pre, data, cs);
    B64.DecodableSplit(Text(pre), c.data);
    B64.DecodeConcat(Text(pre), c.data);
    p := |B64.Decode(Text(pre))|;
    assert (B64.Decode(Text(pre)) + B64.Decode(c.data))[p..] == B64.Decode(c.data);
  }

  lemma ChunkGroups(cs: seq<Chunk>, data: bytes, i: nat)
    requires Complete(cs, data) && i < |cs|
    ensures |cs[i].data| % 4 == 0
  {
    hide B64.Encode, Text;
  }

  lemma {:induction false} TextGroups(pre: seq<Chunk>, data: bytes, cs: seq<Chunk>)
    requires Complete(cs, data) && pre <= cs
    ensures |Text(pre)| % 4 == 0
  {
    hide Complete;
    if pre != [] {
      var c := pre[|pre| - 1];
      assert c == cs[|pre| - 1];
      ChunkGroups(cs, data, |pre| - 1);
      TextGroups(pre[..|pre| - 1], data, cs);
    }
  }

  /** What the sources are given in the end for the chunks of an item. */
  function Given(cfg: R.Config, id: R.ItemId, cs: seq<Chunk>, data: bytes, garbled: bytes -> bytes)
      : seq<(R.ItemId, bytes)>
    requires cs != []
  {
    if Arrives(cfg, id, |cs|, |data|) then [(R.Cut(id), data)]
    else if |cs| == 2 && Allowed(cfg, |data|) then []
    else [(R.Cut(id), I.PlainContent(cs[|cs| - 1].data, Some(R.Base64), garbled))]
  }

  lemma GivenWhole(cfg: R.Config, id: R.ItemId, cs: seq<Chunk>, data: bytes, garbled: bytes -> bytes)
    requires cs != [] && Allowed(cfg, |data|) && |id.key| <= 255
    ensures Given(cfg, id, cs, data, garbled) == [(id, data)]
  {
    hide I.PlainContent;
  }

  lemma ArrivedDecoded(cfg: R.Config, id: R.ItemId, cs: seq<Chunk>, data: bytes, garbled: bytes -> bytes)
    requires cs != [] && Readable(cs)
    ensures I.HandedOver(Arrived(cfg, id, cs, data), garbled) == Given(cfg, id, cs, data, garbled)
  {
    WholeIsPlain(id, data, garbled);
    hide I.PlainContent, B64.Encode, I.HandedOver;
    I.HandedOverOne(Whole(id, data), garbled);
    I.HandedOverOne(Last(id, cs), garbled);
  }

  /**
    The whole way of one item, from the reads of the sender to the decoding in the receiver's buffer,
    for all sizes of at least 4 that the messages leave room for.
   */
  method TransferItem(cfg: R.Config, garbled: bytes -> bytes, id: R.ItemId, data: bytes, sizes: seq<nat>)
      returns (handedOver: seq<(R.ItemId, bytes)>, cs: seq<Chunk>)
    requires cfg.tolerance > 1.0 && !id.command.Other?
    requires |sizes| > |data| && forall size | size in sizes :: size >= 4
    ensures Complete(cs, data) && cs != []
    ensures handedOver == Given(cfg, id, cs, data, garbled)
    ensures Arrives(cfg, id, |cs|, |data|) ==> handedOver == [(R.Cut(id), data)]
  {
    hide B64.Encode, B64.Decode, I.PlainContent, I.HandedOver, Arrived, R.From, R.Run, Transfer;
    ghost var p;
    cs, p := ReadItem(data, sizes);
    EndToEnd(cfg, R.State(None, []), id, cs, data);
    RunIsFrom(cfg, Messages(cs, id));
    ArrivedDecoded(cfg, id, cs, data, garbled);
    var statuses, alerts;
    ghost var outcomes;
    handedOver, statuses, alerts, outcomes := I.ReceiveAll(cfg, garbled, Messages(cs, id));
    assert [] + Arrived(cfg, id, cs, data) == Arrived(cfg, id, cs, data);
  }

  lemma RunIsFrom(cfg: R.Config, ms: seq<R.Message>)
    ensures R.Run(cfg, ms) == R.From(cfg, R.State(None, []), ms)
  {
  }
}
