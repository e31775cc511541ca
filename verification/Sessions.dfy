/**
  A whole session: what `ClientModifications` puts into messages, received change by change as
  `processSyncItem` does.
 */
module Sessions {
  import opened Options
  import opened Bytes
  import opened EncodingHelper
  import opened ItemReader
  import opened Packing
  import opened LargeObjects
  import opened ClientModifications
  import R = Receiver
  import I = IncomingItems

  /** Every chunk in the package is C text. */
  ghost predicate TextOnly(package: Package) {
    forall i | 0 <= i < |package| :: package[i].Upload? ==> NUL !in package[i].chunk.data
  }

  /** A removal is sent as a command of its own, without data. */
  function WireRemoval(id: R.ItemId): R.Message {
    R.Message(R.Delete, false, None, Some(id.key), id.sourceIndex, false, 0, None, None)
  }

  /** New items go out as additions, all others as replacements. */
  function Sent(id: R.ItemId, isNew: bool): R.ItemId {
    id.(command := if isNew then R.Add else R.Replace)
  }

  ghost predicate Commands(newItems: nat, ids: nat -> R.ItemId) {
    forall i: nat :: ids(i).command == if i < newItems then R.Add else R.Replace
  }

  function Stream(package: Package, ids: nat -> R.ItemId, removedIds: nat -> R.ItemId): (ms: seq<R.Message>)
    requires TextOnly(package)
    ensures |ms| == |package|
  {
    seq(|package|, i requires 0 <= i < |package| =>
      if package[i].Upload? then Wire(package[i].chunk, Sent(ids(package[i].item), package[i].isNew))
      else WireRemoval(removedIds(package[i].item)))
  }

  lemma {:induction false} FromConcat(cfg: R.Config, s: R.State, a: seq<R.Message>, b: seq<R.Message>)
    ensures R.From(cfg, s, a + b) == R.From(cfg, R.From(cfg, s, a), b)
  {
    hide R.Step;
    if b == [] {
      assert a + b == a;
    } else {
      var b', m := b[..|b| - 1], b[|b| - 1];
      assert (a + b)[..|a + b| - 1] == a + b';
      FromConcat(cfg, s, a, b');
    }
  }

  ghost predicate Settlement(b: Books, items: seq<bytes>, maxMsgSize: nat, n: nat) {
    n <= |b.transfers| <= |items| &&
    forall i | 0 <= i < n :: Settled(b, items, maxMsgSize, i)
  }

  /** What arrives for an item: nothing if it was dropped, else what its chunks lead to. */
  ghost function Arrival(cfg: R.Config, b: Books, items: seq<bytes>, maxMsgSize: nat, ids: nat -> R.ItemId, i: nat)
      : seq<R.Delivery>
    requires i < |b.transfers| <= |items| && Settled(b, items, maxMsgSize, i)
  {
    if i in b.dropped then []
    else
      ChunksOf(b.transfers[i], items[i]);
      Arrived(cfg, ids(i), b.transfers[i], items[i])
  }

  ghost function Arrivals(cfg: R.Config, b: Books, items: seq<bytes>, maxMsgSize: nat, ids: nat -> R.ItemId, n: nat)
      : seq<R.Delivery>
    requires Settlement(b, items, maxMsgSize, n)
  {
    if n == 0 then []
    else
      assert Settled(b, items, maxMsgSize, n - 1);
      Arrivals(cfg, b, items, maxMsgSize, ids, n - 1) + Arrival(cfg, b, items, maxMsgSize, ids, n - 1)
  }

  function RemovalArrivals(removed: seq<nat>, removedIds: nat -> R.ItemId): seq<R.Delivery> {
    if removed == [] then []
    else
      RemovalArrivals(removed[..|removed| - 1], removedIds) +
        [R.Delivery(Removed(removedIds(removed[|removed| - 1])), [], None)]
  }

  function Removed(id: R.ItemId): R.ItemId {
    R.Cut(R.ItemId(id.key, R.Delete, id.sourceIndex))
  }

  lemma ItemArrives(cfg: R.Config, s: R.State, b: Books, items: seq<bytes>, maxMsgSize: nat,
                    ids: nat -> R.ItemId, removedIds: nat -> R.ItemId, i: nat)
    requires cfg.tolerance > 1.0 && s.incoming.None? && Commands(b.newItems, ids)
    requires i < |b.transfers| <= |items| && Settled(b, items, maxMsgSize, i)
    ensures TextOnly(Uploads(i, i < b.newItems, b.transfers[i]))
    ensures R.From(cfg, s, Stream(Uploads(i, i < b.newItems, b.transfers[i]), ids, removedIds))
         == R.State(None, s.deliveries + Arrival(cfg, b, items, maxMsgSize, ids, i))
  {
    var cs := b.transfers[i];
    if i in b.dropped {
      assert Uploads(i, i < b.newItems, cs) == [];
    } else {
      EndToEnd(cfg, s, ids(i), cs, items[i]);
      hide Complete, R.From, Arrived, DataSizeAfterEncoding;
      assert forall k | 0 <= k < |cs| :: cs[k] in cs;
      assert Stream(Uploads(i, i < b.newItems, cs), ids, removedIds) == Messages(cs, ids(i));
    }
  }

  lemma {:induction false} ItemsArrive(
      cfg: R.Config, s: R.State, b: Books, items: seq<bytes>, maxMsgSize: nat,
      ids: nat -> R.ItemId, removedIds: nat -> R.ItemId, n: nat)
    requires cfg.tolerance > 1.0 && s.incoming.None? && Settlement(b, items, maxMsgSize, n)
    requires Commands(b.newItems, ids)
    ensures TextOnly(ByItem(b.newItems, b.transfers[..n]))
    ensures R.From(cfg, s, Stream(ByItem(b.newItems, b.transfers[..n]), ids, removedIds))
         == R.State(None, s.deliveries + Arrivals(cfg, b, items, maxMsgSize, ids, n))
  {
    if n > 0 {
      hide Settled, Settlement, R.From, ByItem, Uploads, Arrivals, Arrival, TextOnly, Stream;
      var k := n - 1;
      var ts := b.transfers[..n];
      OneMore(cfg, b, items, maxMsgSize, ids, n);
      ItemsArrive(cfg, s, b, items, maxMsgSize, ids, removedIds, k);
      var before := R.From(cfg, s, Stream(ByItem(b.newItems, ts[..k]), ids, removedIds));
      ItemArrives(cfg, before, b, items, maxMsgSize, ids, removedIds, k);
      StreamConcat(ByItem(b.newItems, ts[..k]), Uploads(k, k < b.newItems, ts[k]), ids, removedIds);
      FromConcat(cfg, s, Stream(ByItem(b.newItems, ts[..k]), ids, removedIds),
                 Stream(Uploads(k, k < b.newItems, ts[k]), ids, removedIds));
      Associative(s.deliveries, Arrivals(cfg, b, items, maxMsgSize, ids, k),
                  Arrival(cfg, b, items, maxMsgSize, ids, k));
    }
  }

  lemma OneMore(cfg: R.Config, b: Books, items: seq<bytes>, maxMsgSize: nat, ids: nat -> R.ItemId, n: nat)
    requires Settlement(b, items, maxMsgSize, n) && n > 0
    ensures var k := n - 1;
      var ts := b.transfers[..n];
      && Settlement(b, items, maxMsgSize, k) && k < |b.transfers| <= |items| && Settled(b, items, maxMsgSize, k)
      && |ts| == n && ts[..k] == b.transfers[..k] && ts[k] == b.transfers[k]
      && ByItem(b.newItems, ts) == ByItem(b.newItems, ts[..k]) + Uploads(k, k < b.newItems, ts[k])
      && Arrivals(cfg, b, items, maxMsgSize, ids, n)
         == Arrivals(cfg, b, items, maxMsgSize, ids, k) + Arrival(cfg, b, items, maxMsgSize, ids, k)
  {
    hide Settled, Arrival;
  }

  lemma StreamConcat(p: Package, q: Package, ids: nat -> R.ItemId, removedIds: nat -> R.ItemId)
    requires TextOnly(p) && TextOnly(q)
    ensures TextOnly(p + q)
    ensures Stream(p + q, ids, removedIds) == Stream(p, ids, removedIds) + Stream(q, ids, removedIds)
  {
  }

  lemma {:induction false} RemovalsArrive(cfg: R.Config, s: R.State, removed: seq<nat>,
                                          ids: nat -> R.ItemId, removedIds: nat -> R.ItemId)
    requires s.incoming.None?
    ensures R.From(cfg, s, Stream(Removals(removed), ids, removedIds))
         == R.State(None, s.deliveries + RemovalArrivals(removed, removedIds))
  {
    if removed != [] {
      var pre, i := removed[..|removed| - 1], removed[|removed| - 1];
      RemovalsArrive(cfg, s, pre, ids, removedIds);
      assert Removals(removed) == Removals(pre) + [Removal(i)];
      StreamConcat(Removals(pre), [Removal(i)], ids, removedIds);
      assert Stream([Removal(i)], ids, removedIds) == [WireRemoval(removedIds(i))];
      FromConcat(cfg, s, Stream(Removals(pre), ids, removedIds), [WireRemoval(removedIds(i))]);
      OneMessage(cfg, R.From(cfg, s, Stream(Removals(pre), ids, removedIds)), WireRemoval(removedIds(i)));
    }
  }

  lemma AllSettled(b: Books, items: seq<bytes>, maxMsgSize: nat)
    requires Accurate(b, items, maxMsgSize, None) && |b.transfers| == |items| && b.message == []
    ensures Settlement(b, items, maxMsgSize, |items|)
    ensures Concat(b.messages) == ByItem(b.newItems, b.transfers) + Removals(b.removed)
  {
  }

  /**
    Whatever the items, their order, the way they were cut into messages and the limits of the receiver:
    it ends up idle, and what was handed over is what the chunks of every item that was not dropped lead
    to, in order, and then the removals that were not given up.
   */
  lemma SessionArrives(cfg: R.Config, b: Books, items: seq<bytes>, maxMsgSize: nat,
                       ids: nat -> R.ItemId, removedIds: nat -> R.ItemId)
    requires cfg.tolerance > 1.0
    requires Accurate(b, items, maxMsgSize, None) && |b.transfers| == |items| && b.message == []
    requires Commands(b.newItems, ids)
    ensures TextOnly(Concat(b.messages)) && Settlement(b, items, maxMsgSize, |items|)
    ensures R.Run(cfg, Stream(Concat(b.messages), ids, removedIds))
         == R.State(None, Arrivals(cfg, b, items, maxMsgSize, ids, |items|) + RemovalArrivals(b.removed, removedIds))
  {
    hide Settlement, Accurate, R.Step, R.From, Arrivals, RemovalArrivals, ByItem, Stream, TextOnly;
    var n := |items|;
    var s := R.State(None, []);
    AllSettled(b, items, maxMsgSize);
    assert b.transfers[..n] == b.transfers;
    ItemsArrive(cfg, s, b, items, maxMsgSize, ids, removedIds, n);
    RemovalsAreText(b.removed);
    StreamConcat(ByItem(b.newItems, b.transfers), Removals(b.removed), ids, removedIds);
    var s' := R.From(cfg, s, Stream(ByItem(b.newItems, b.transfers), ids, removedIds));
    RemovalsArrive(cfg, s', b.removed, ids, removedIds);
    FromConcat(cfg, s, Stream(ByItem(b.newItems, b.transfers), ids, removedIds),
               Stream(Removals(b.removed), ids, removedIds));
    var arrivals := Arrivals(cfg, b, items, maxMsgSize, ids, n);
    assert [] + arrivals == arrivals;
  }

  lemma RemovalsAreText(removed: seq<nat>)
    ensures TextOnly(Removals(removed))
  {
  }

  // ---------------------------------------------------------------- both ends together

  /** What the sources are given for the first `n` items. */
  ghost function Received(cfg: R.Config, b: Books, items: seq<bytes>, maxMsgSize: nat, ids: nat -> R.ItemId, n: nat,
                          garbled: bytes -> bytes): seq<(R.ItemId, bytes)>
    requires Settlement(b, items, maxMsgSize, n)
  {
    if n == 0 then []
    else
      var k := n - 1;
      assert Settled(b, items, maxMsgSize, k);
      Received(cfg, b, items, maxMsgSize, ids, k, garbled) +
        if k in b.dropped then [] else Given(cfg, ids(k), b.transfers[k], items[k], garbled)
  }

  /** If the receiver allows all items, and no name is cut, they are all there, but for the dropped ones. */
  function AllItems(items: seq<bytes>, ids: nat -> R.ItemId, dropped: map<nat, Place>, n: nat): seq<(R.ItemId, bytes)>
    requires n <= |items|
  {
    if n == 0 then []
    else AllItems(items, ids, dropped, n - 1) + if n - 1 in dropped then [] else [(ids(n - 1), items[n - 1])]
  }

  ghost predicate AllAllowed(cfg: R.Config, items: seq<bytes>, ids: nat -> R.ItemId) {
    forall i | 0 <= i < |items| ::
      Allowed(cfg, |items[i]|) && |ids(i).key| <= 255
  }

  lemma {:induction false} AllReceived(cfg: R.Config, b: Books, items: seq<bytes>, maxMsgSize: nat,
                                       ids: nat -> R.ItemId, n: nat, garbled: bytes -> bytes)
    requires Settlement(b, items, maxMsgSize, n) && AllAllowed(cfg, items, ids)
    ensures Received(cfg, b, items, maxMsgSize, ids, n, garbled) == AllItems(items, ids, b.dropped, n)
  {
    hide Given, Settled, I.PlainContent, R.TooLarge, DataSizeAfterEncoding;
    if n > 0 {
      var k := n - 1;
      AllReceived(cfg, b, items, maxMsgSize, ids, k, garbled);
      assert Settled(b, items, maxMsgSize, k);
      if k !in b.dropped {
        SettledStarted(b, items, maxMsgSize, k);
        GivenWhole(cfg, ids(k), b.transfers[k], items[k], garbled);
      }
    }
  }

  lemma SettledComplete(b: Books, items: seq<bytes>, maxMsgSize: nat, i: nat)
    requires i < |b.transfers| <= |items| && Settled(b, items, maxMsgSize, i) && i !in b.dropped
    ensures Complete(b.transfers[i], items[i])
  {
  }

  lemma SettledStarted(b: Books, items: seq<bytes>, maxMsgSize: nat, i: nat)
    requires i < |b.transfers| <= |items| && Settled(b, items, maxMsgSize, i) && i !in b.dropped
    ensures b.transfers[i] != []
  {
    hide Transfer;
  }

  /** The removals of the first `k` deleted items. */
  function Deleted(removedIds: nat -> R.ItemId, k: nat): seq<(R.ItemId, bytes)> {
    if k == 0 then [] else Deleted(removedIds, k - 1) + [(Removed(removedIds(k - 1)), [])]
  }

  lemma {:induction false} ArrivalsDecoded(cfg: R.Config, b: Books, items: seq<bytes>, maxMsgSize: nat,
                                           ids: nat -> R.ItemId, n: nat, garbled: bytes -> bytes)
    requires Settlement(b, items, maxMsgSize, n)
    ensures I.HandedOver(Arrivals(cfg, b, items, maxMsgSize, ids, n), garbled)
         == Received(cfg, b, items, maxMsgSize, ids, n, garbled)
  {
    hide Given, Arrived, Settled, I.HandedOver, I.PlainContent;
    I.HandedOverOne(R.Delivery(ids(0), [], None), garbled);
    if n > 0 {
      var k := n - 1;
      assert Settled(b, items, maxMsgSize, k);
      ArrivalsDecoded(cfg, b, items, maxMsgSize, ids, k, garbled);
      I.HandedOverAppend(Arrivals(cfg, b, items, maxMsgSize, ids, k),
                         Arrival(cfg, b, items, maxMsgSize, ids, k), garbled);
      if k !in b.dropped {
        SettledComplete(b, items, maxMsgSize, k);
        ChunksOf(b.transfers[k], items[k]);
        ArrivedDecoded(cfg, ids(k), b.transfers[k], items[k], garbled);
      }
    }
  }

  lemma {:induction false} RemovalsDecoded(k: nat, removedIds: nat -> R.ItemId, garbled: bytes -> bytes)
    ensures I.HandedOver(RemovalArrivals(Numbers(k), removedIds), garbled) == Deleted(removedIds, k)
  {
    hide Removed;
    if k > 0 {
      RemovalsDecoded(k - 1, removedIds, garbled);
      assert Numbers(k)[..k - 1] == Numbers(k - 1);
      var d := R.Delivery(Removed(removedIds(k - 1)), [], None);
      I.HandedOverAppend(RemovalArrivals(Numbers(k - 1), removedIds), [d], garbled);
      I.HandedOverOne(d, garbled);
    }
  }

  /** A whole slow sync, sent and received, whatever the receiver allows. */
  method SlowSession(source: ItemSource, maxMsgSize: nat, cfg: R.Config, ids: nat -> R.ItemId, garbled: bytes -> bytes)
      returns (handedOver: seq<(R.ItemId, bytes)>, ghost books: Books)
    requires maxMsgSize > 0 && AllStart(source.items, maxMsgSize) && source.newItems <= |source.items|
    requires source.next == source.nextDeleted == source.starts == 0
    requires cfg.tolerance > 1.0 && Commands(0, ids)
    modifies source
    ensures Accurate(books, source.items, maxMsgSize, None)
    ensures Settlement(books, source.items, maxMsgSize, |source.items|)
    ensures handedOver == Received(cfg, books, source.items, maxMsgSize, ids, |source.items|, garbled)
    ensures AllAllowed(cfg, source.items, ids) ==>
      handedOver == AllItems(source.items, ids, books.dropped, |source.items|)
  {
    hide *;
    var messages;
    messages, books := SlowSync(source, maxMsgSize);
    var n := |source.items|;
    SessionArrives(cfg, books, source.items, maxMsgSize, ids, ids);
    ArrivalsDecoded(cfg, books, source.items, maxMsgSize, ids, n, garbled);
    if AllAllowed(cfg, source.items, ids) {
      AllReceived(cfg, books, source.items, maxMsgSize, ids, n, garbled);
    }
    RemovalsDecoded(0, ids, garbled);
    NothingDeleted(ids);
    I.HandedOverAppend(Arrivals(cfg, books, source.items, maxMsgSize, ids, n), RemovalArrivals([], ids), garbled);
    var statuses, alerts;
    ghost var outcomes;
    handedOver, statuses, alerts, outcomes := I.ReceiveAll(cfg, garbled, Stream(Concat(messages), ids, ids));
  }

  lemma NothingDeleted(removedIds: nat -> R.ItemId)
    ensures Deleted(removedIds, 0) == [] && Numbers(0) == []
  {
  }

  /**
    A whole two-way sync, sent and received: after the items the other side gets the removals of
    exactly the deleted items that fitted into the last message.
   */
  method TwoWaySession(source: ItemSource, maxMsgSize: nat, cfg: R.Config, ids: nat -> R.ItemId,
                       removedIds: nat -> R.ItemId, garbled: bytes -> bytes)
      returns (handedOver: seq<(R.ItemId, bytes)>, messages: seq<Package>, ghost books: Books)
    requires maxMsgSize > 0 && AllStart(source.items, maxMsgSize) && source.newItems <= |source.items|
    requires source.next == source.nextDeleted == source.starts == 0
    requires cfg.tolerance > 1.0 && Commands(source.newItems, ids)
    modifies source
    ensures Accurate(books, source.items, maxMsgSize, None)
    ensures Settlement(books, source.items, maxMsgSize, |source.items|)
    ensures messages != [] && DeletesAccurate(books, messages[|messages| - 1], source.deletedItems, maxMsgSize)
    ensures handedOver == Received(cfg, books, source.items, maxMsgSize, ids, |source.items|, garbled) +
                            Deleted(removedIds, |books.removed|)
    ensures AllAllowed(cfg, source.items, ids) ==>
      handedOver == AllItems(source.items, ids, books.dropped, |source.items|) + Deleted(removedIds, |books.removed|)
  {
    hide *;
    messages, books := TwoWaySync(source, maxMsgSize);
    var n := |source.items|;
    SessionArrives(cfg, books, source.items, maxMsgSize, ids, removedIds);
    ArrivalsDecoded(cfg, books, source.items, maxMsgSize, ids, n, garbled);
    if AllAllowed(cfg, source.items, ids) {
      AllReceived(cfg, books, source.items, maxMsgSize, ids, n, garbled);
    }
    FirstOnes(books, messages[|messages| - 1], source.deletedItems, maxMsgSize);
    RemovalsDecoded(|books.removed|, removedIds, garbled);
    I.HandedOverAppend(Arrivals(cfg, books, source.items, maxMsgSize, ids, n),
                       RemovalArrivals(books.removed, removedIds), garbled);
    var statuses, alerts;
    ghost var outcomes;
    handedOver, statuses, alerts, outcomes := I.ReceiveAll(cfg, garbled, Stream(Concat(messages), ids, removedIds));
  }

  lemma FirstOnes(b: Books, message: Package, n: nat, maxMsgSize: nat)
    requires DeletesAccurate(b, message, n, maxMsgSize)
    ensures b.removed == Numbers(|b.removed|)
  {
  }
}
