/**
  `SyncManager::processSyncItem` and the incoming item it fills: a buffer reserved in advance,
  chunks copied into it at an offset, and the base64 text decoded in place at the end.
 */
module IncomingItems {
  import opened Options
  import opened Bytes
  import opened Receiver
  import B64 = Base64

  /**
    What a source gets: the plain content. What the decoder makes of text with a group it cannot handle
    depends on the address of its table and on what lies behind the text: this is left to `garbled`.
   */
  function PlainContent(content: bytes, encoding: Option<Format>, garbled: bytes -> bytes): bytes {
    if encoding != Some(Base64) then content
    else if B64.Decodable(content) then B64.Decode(content)
    else garbled(content)
  }

  /** `IncomingSyncItem` of spds/SyncManager.h, with the data block of spds/SyncItem.cpp. */
  class IncomingSyncItem {
    const id: ItemId
    var data: array?<byte>
    var size: int
    var offset: nat
    var encoding: Option<Format>

    /** The block is one byte longer than the size and zero behind the bytes received. */
    ghost predicate Valid()
      reads this, data
    {
      if data == null then offset == 0 && size == -1
      else
        data.Length == size + 1 && offset <= size &&
        NUL !in data[..offset] && forall k | offset <= k < data.Length :: data[k] == NUL
    }

    ghost function Content(): cstring
      requires Valid()
      reads this, data
    {
      if data == null then [] else data[..offset]
    }

    constructor (id: ItemId)
      ensures Valid() && this.id == id && data == null && encoding == None
    {
      this.id, data, size, offset, encoding := id, null, -1, 0, None;
    }

    /** `setData` without data: reserve a block of `n` bytes, all zero. */
    method Reserve(n: nat)
      requires Valid() && data == null
      modifies this
      ensures Valid() && fresh(data) && size == n && offset == 0 && encoding == old(encoding)
    {
      data := new byte[n + 1](_ => NUL);
      size := n;
    }

    /** Copy `chunk` behind the bytes received so far. */
    method Receive(chunk: cstring)
      requires Valid() && data != null && offset + |chunk| <= size
      modifies this`offset, data
      ensures Valid() && Content() == old(Content()) + chunk
    {
      Copy(data, offset, chunk);
      offset := offset + |chunk|;
    }

    /** `changeDataEncoding` to plain: the block is both source and destination of the decoder. */
    method ChangeDataEncoding(garbled: bytes -> bytes) returns (plain: bytes)
      requires Valid()
      modifies this`size, data
      ensures plain == PlainContent(old(Content()), encoding, garbled)
      ensures encoding != Some(Base64) ==> plain == old(Content())
      ensures encoding == Some(Base64) && B64.Decodable(old(Content())) ==> plain == B64.Decode(old(Content()))
    {
      if data == null {
        return PlainContent([], encoding, garbled);
      }
      size := offset;
      CTextIs(data[..], offset);
      hide B64.Decode, B64.Decodable, Splice;
      if encoding == Some(Base64) {
        if !B64.Decodable(data[..offset]) {
          return garbled(data[..offset]);
        }
        size := B64.DecodeInto(data, data, (_, _, _) => 0);
      }
      plain := data[..size];
    }
  }

  class SyncManager {
    const cfg: Config
    const garbled: bytes -> bytes
    var incomingItem: IncomingSyncItem?
    /** Alert codes put into the commands of the next message. */
    var alerts: seq<nat>
    /** What the sync sources were given, with the plain content. */
    var handedOver: seq<(ItemId, bytes)>

    ghost predicate Valid()
      reads this, incomingItem, if incomingItem == null then {} else {incomingItem.data}
    {
      cfg.tolerance > 1.0 &&
      (incomingItem != null ==> incomingItem.Valid() && incomingItem.data != null)
    }

    /** The item in progress, as a value. */
    ghost function Incoming(): Option<Receiver.Incoming>
      requires Valid()
      reads this, incomingItem, if incomingItem == null then {} else {incomingItem.data}
    {
      if incomingItem == null then None
      else Some(Receiver.Incoming(incomingItem.id, incomingItem.size, incomingItem.Content(),
                                  incomingItem.encoding))
    }

    constructor (cfg: Config, garbled: bytes -> bytes)
      requires cfg.tolerance > 1.0
      ensures Valid() && this.cfg == cfg && this.garbled == garbled
      ensures incomingItem == null && alerts == [] && handedOver == []
    {
      this.cfg, this.garbled, incomingItem, alerts, handedOver := cfg, garbled, null, [], [];
    }

    method ProcessSyncItem(m: Message) returns (status: Status)
      requires Valid()
      modifies this, incomingItem, if incomingItem == null then {} else {incomingItem.data}
      ensures Valid()
      ensures incomingItem == null || (fresh(incomingItem) && fresh(incomingItem.data)) ||
        (incomingItem == old(incomingItem) && incomingItem.data == old(incomingItem.data))
      ensures var o := Process(cfg, old(Incoming()), m);
        Incoming() == o.next && status == o.status && alerts == old(alerts) + o.alerts &&
        handedOver == old(handedOver) +
          if o.delivered.None? then []
          else [(o.delivered.value.id, PlainContent(o.delivered.value.content, o.delivered.value.encoding, garbled))]
    {
      hide PlainContent, ToleranceDataSize;
      var itemName := ItemName(m);
      if itemName.None? {
        return Status(412);
      }
      var id := ItemId(itemName.value, m.command, m.sourceIndex);
      if incomingItem != null {
        if incomingItem.id != id {
          // another item before the old one is complete: the new one is dropped as well
          alerts := alerts + [223];
          incomingItem := null;
          return NoStatus;
        }
        status := AppendData(m);
      } else if m.moreData {
        if TooLarge(cfg, m.size) {
          return Status(416);
        }
        ToleranceInverts(m.size, cfg.tolerance, 0);
        incomingItem := new IncomingSyncItem(Cut(id));
        incomingItem.Reserve(ToleranceDataSize(m.size, cfg.tolerance));
        status := AppendData(m);
      } else {
        incomingItem := new IncomingSyncItem(Cut(id));
        if m.data.Some? {
          incomingItem.Reserve(|m.data.value|);
          incomingItem.Receive(m.data.value);
          assert [] + m.data.value == m.data.value;
          incomingItem.encoding := m.format;
        }
        status := FinishItem();
      }
    }

    /** The data of a message goes into the reserved buffer; the last message completes the item. */
    method AppendData(m: Message) returns (status: Status)
      requires Valid() && incomingItem != null
      modifies this, incomingItem, incomingItem.data
      ensures Valid()
      ensures incomingItem == null || (incomingItem == old(incomingItem) && incomingItem.data == old(incomingItem.data))
      ensures var o := Append(old(Incoming()).value, m);
        Incoming() == o.next && status == o.status && alerts == old(alerts) + o.alerts &&
        handedOver == old(handedOver) +
          if o.delivered.None? then []
          else [(o.delivered.value.id, PlainContent(o.delivered.value.content, o.delivered.value.encoding, garbled))]
    {
      hide PlainContent;
      assert incomingItem.Content() + [] == incomingItem.Content();
      if m.data.Some? {
        if incomingItem.encoding.None? {
          incomingItem.encoding := m.format;
        }
        if |m.data.value| + incomingItem.offset > incomingItem.size {
          incomingItem := null;
          return Status(424);
        }
        incomingItem.Receive(m.data.value);
      }
      if !m.moreData {
        status := FinishItem();
      } else {
        alerts := alerts + [222];
        status := Status(213);
      }
    }

    /** Hand the complete item to its source and forget it. */
    method FinishItem() returns (status: Status)
      requires incomingItem != null && incomingItem.Valid() && cfg.tolerance > 1.0
      modifies this`incomingItem, this`handedOver, incomingItem, incomingItem.data
      ensures incomingItem == null
      ensures old(incomingItem).id.command.Other? ==> status == NoStatus && handedOver == old(handedOver)
      ensures !old(incomingItem).id.command.Other? ==>
        status == FromSource &&
        handedOver == old(handedOver) +
          [(old(incomingItem).id, PlainContent(old(incomingItem.Content()), old(incomingItem.encoding), garbled))]
    {
      var plain := incomingItem.ChangeDataEncoding(garbled);
      if incomingItem.id.command.Other? {
        status := NoStatus;
      } else {
        handedOver := handedOver + [(incomingItem.id, plain)];
        status := FromSource;
      }
      incomingItem := null;
    }
  }

  /** What the sources were given, decoded. */
  function HandedOver(deliveries: seq<Delivery>, garbled: bytes -> bytes): seq<(ItemId, bytes)> {
    if deliveries == [] then []
    else
      var d := deliveries[|deliveries| - 1];
      HandedOver(deliveries[..|deliveries| - 1], garbled) + [(d.id, PlainContent(d.content, d.encoding, garbled))]
  }

  lemma {:induction false} HandedOverAppend(a: seq<Delivery>, b: seq<Delivery>, garbled: bytes -> bytes)
    ensures HandedOver(a + b, garbled) == HandedOver(a, garbled) + HandedOver(b, garbled)
  {
    hide PlainContent;
    if b == [] {
      assert a + b == a;
    } else {
      assert (a + b)[..|a + b| - 1] == a + b[..|b| - 1];
      HandedOverAppend(a, b[..|b| - 1], garbled);
    }
  }

  lemma HandedOverOne(d: Delivery, garbled: bytes -> bytes)
    ensures HandedOver([d], garbled) == [(d.id, PlainContent(d.content, d.encoding, garbled))]
    ensures HandedOver([], garbled) == []
  {
    hide PlainContent;
    assert [d][..0] == [];
  }

  /** All messages of a session, one after the other, with the status of each. */
  method ReceiveAll(cfg: Config, garbled: bytes -> bytes, ms: seq<Message>)
      returns (handedOver: seq<(ItemId, bytes)>, statuses: seq<Status>, alerts: seq<nat>, ghost outcomes: seq<Outcome>)
    requires cfg.tolerance > 1.0
    ensures handedOver == HandedOver(Run(cfg, ms).deliveries, garbled) == HandedOver(Delivered(outcomes), garbled)
    ensures |statuses| == |outcomes| == |ms| && alerts == Alerts(outcomes)
    ensures forall n | 0 <= n < |ms| ::
      statuses[n] == outcomes[n].status && Answered(cfg, Since(cfg, ms[..n]), ms[n], outcomes[n])
  {
    hide Process, HandedOver, PlainContent, Answered, Since;
    var manager := new SyncManager(cfg, garbled);
    ghost var end := State(None, []);
    NothingReceived(cfg, garbled);
    statuses, outcomes := [], [];
    for n := 0 to |ms|
      invariant manager.Valid() && manager.cfg == cfg && manager.garbled == garbled && fresh(manager)
      invariant manager.incomingItem != null ==> fresh(manager.incomingItem) && fresh(manager.incomingItem.data)
      invariant end == Run(cfg, ms[..n]) && manager.Incoming() == end.incoming
      invariant end.deliveries == Delivered(outcomes)
      invariant manager.handedOver == HandedOver(end.deliveries, garbled)
      invariant |statuses| == |outcomes| == n && manager.alerts == Alerts(outcomes)
      invariant forall k | 0 <= k < n ::
        statuses[k] == outcomes[k].status && Answered(cfg, Since(cfg, ms[..k]), ms[k], outcomes[k])
    {
      RunStep(cfg, ms, n);
      Answers(cfg, ms[..n], ms[n]);
      ghost var o := Process(cfg, end.incoming, ms[n]);
      OutcomesAppend(outcomes, o);
      if o.delivered.Some? {
        HandedOverAppend(end.deliveries, [o.delivered.value], garbled);
        HandedOverOne(o.delivered.value, garbled);
      }
      var status := manager.ProcessSyncItem(ms[n]);
      end := Step(cfg, end, ms[n]);
      statuses, outcomes := statuses + [status], outcomes + [o];
    }
    assert ms[..|ms|] == ms;
    handedOver, alerts := manager.handedOver, manager.alerts;
  }

  function Alerts(outcomes: seq<Outcome>): seq<nat> {
    if outcomes == [] then [] else Alerts(outcomes[..|outcomes| - 1]) + outcomes[|outcomes| - 1].alerts
  }

  function Delivered(outcomes: seq<Outcome>): seq<Delivery> {
    if outcomes == [] then []
    else
      var delivered := outcomes[|outcomes| - 1].delivered;
      Delivered(outcomes[..|outcomes| - 1]) + if delivered.Some? then [delivered.value] else []
  }

  lemma OutcomesAppend(outcomes: seq<Outcome>, o: Outcome)
    ensures Alerts(outcomes + [o]) == Alerts(outcomes) + o.alerts
    ensures Delivered(outcomes + [o]) == Delivered(outcomes) + if o.delivered.Some? then [o.delivered.value] else []
  {
    assert (outcomes + [o])[..|outcomes|] == outcomes;
  }

  lemma NothingReceived(cfg: Config, garbled: bytes -> bytes)
    ensures Run(cfg, []) == State(None, []) && HandedOver([], garbled) == []
  {
  }

  lemma RunStep(cfg: Config, ms: seq<Message>, n: nat)
    requires n < |ms|
    ensures Run(cfg, ms[..n + 1]) == Step(cfg, Run(cfg, ms[..n]), ms[n])
  {
    assert ms[..n + 1][..n] == ms[..n];
  }
}
