/**
  The receiving side of large objects: `SyncManager::processSyncItem`, first as a function on
  values, with what it keeps over whole runs. The method itself is in IncomingItems.dfy.
 */
module Receiver {
  import opened Options
  import opened Bytes

  datatype Command = Add | Replace | Delete | Other(name: string)

  datatype Format = Plain | Base64

  /** One item of a server command, with the size found in its meta information (0 if none). */
  datatype Message = Message(
    command: Command, hasTarget: bool, target: Option<string>, source: Option<string>,
    sourceIndex: nat, moreData: bool, size: int, data: Option<cstring>, format: Option<Format>)

  /** The locator that names the item: the source's for an addition, else the target's if there is one. */
  function ItemName(m: Message): (name: Option<string>)
    ensures m.command == Add || !m.hasTarget ==> name == m.source
    ensures m.command != Add && m.hasTarget ==> name == m.target
  {
    if m.hasTarget && m.command != Add then m.target else m.source
  }

  /** What tells one item from another: its name, the command on it, and its source. */
  datatype ItemId = ItemId(key: string, command: Command, sourceIndex: nat)

  const DIM_KEY: nat := 256

  /** The key that an item keeps: `SyncItem` has room for this many characters and the terminator. */
  function Cut(id: ItemId): (r: ItemId)
    ensures r == id.(key := id.key[..Min(|id.key|, 255)])
  {
    if |id.key| < DIM_KEY then id else id.(key := id.key[..DIM_KEY - 1])
  }

  datatype Config = Config(maxObjSize: nat, tolerance: real)

  /** `content` is what has been received, `reserved` the size of the buffer allocated for it. */
  datatype Incoming = Incoming(id: ItemId, reserved: int, content: cstring, encoding: Option<Format>)

  /** An item handed to a sync source, with its content as received. */
  datatype Delivery = Delivery(id: ItemId, content: cstring, encoding: Option<Format>)

  datatype Status = NoStatus | Status(code: nat) | FromSource

  datatype Outcome = Outcome(next: Option<Incoming>, status: Status, alerts: seq<nat>, delivered: Option<Delivery>)

  // ---------------------------------------------------------------- size tolerance

  /** `getToleranceDataSize` */
  function ToleranceDataSize(size: nat, tolerance: real): int {
    (size as real * tolerance + 0.5).Floor
  }

  /** `testIfDataSizeMismatch` */
  predicate DataSizeMismatch(reserved: int, received: int, tolerance: real)
    requires tolerance > 0.0
  {
    (reserved as real / tolerance + 0.5).Floor != received
  }

  lemma ScaledUp(size: real, tolerance: real)
    requires size >= 0.0 && tolerance > 1.0
    ensures size * tolerance >= size
  {
    assert size * tolerance - size == size * (tolerance - 1.0);
  }

  lemma RoundingUndone(size: real, tolerance: real, x: real, reserved: real, y: real)
    requires tolerance > 1.0 && x == size * tolerance && y == reserved / tolerance
    requires x - 0.5 < reserved <= x + 0.5
    ensures size - 0.5 < y < size + 0.5
  {
    var d := y - size;
    assert d * tolerance == reserved - x;
    assert d >= 0.5 ==> d * tolerance >= 0.5 * tolerance;
    assert d <= -0.5 ==> -d * tolerance >= 0.5 * tolerance;
  }

  lemma FloorBounds(x: real, n: int)
    requires x >= n as real
    ensures n <= (x + 0.5).Floor && x - 0.5 < (x + 0.5).Floor as real <= x + 0.5
  {
  }

  lemma FloorIs(x: real, n: int, s: real)
    requires s == n as real && s - 0.5 < x < s + 0.5
    ensures (x + 0.5).Floor == n
  {
  }

  lemma Reserved(size: nat, tolerance: real)
    requires tolerance > 1.0
    ensures ToleranceDataSize(size, tolerance) >= size
    ensures var x := size as real * tolerance;
      x - 0.5 < ToleranceDataSize(size, tolerance) as real <= x + 0.5
  {
    var x := size as real * tolerance;
    ScaledUp(size as real, tolerance);
    assert x >= size as real;
    FloorBounds(x, size);
  }

  lemma Recovered(size: nat, tolerance: real, reserved: int)
    requires tolerance > 1.0
    requires var x := size as real * tolerance;
      x - 0.5 < reserved as real <= x + 0.5
    ensures forall received :: DataSizeMismatch(reserved, received, tolerance) <==> received != size
  {
    var s := size as real;
    var y := reserved as real / tolerance;
    RoundingUndone(s, tolerance, s * tolerance, reserved as real, y);
    FloorIs(y, size, s);
  }

  /** The tolerance only adds room, and the declared size can be told from the reserved one. */
  lemma ToleranceInverts(size: nat, tolerance: real, received: int)
    requires tolerance > 1.0
    ensures ToleranceDataSize(size, tolerance) >= size
    ensures DataSizeMismatch(ToleranceDataSize(size, tolerance), received, tolerance) <==> received != size
  {
    hide ToleranceDataSize, DataSizeMismatch;
    Reserved(size, tolerance);
    Recovered(size, tolerance, ToleranceDataSize(size, tolerance));
  }

  // ---------------------------------------------------------------- one message

  /** The received item is complete: it goes to the source its command asks for. */
  function Deliver(item: Incoming): Outcome {
    if item.id.command.Other? then Outcome(None, NoStatus, [], None)
    else Outcome(None, FromSource, [], Some(Delivery(item.id, item.content, item.encoding)))
  }

  /** The data of a message goes after the bytes received so far if it fits in the buffer. */
  function Append(item: Incoming, m: Message): Outcome {
    var data: cstring := if m.data.Some? then m.data.value else [];
    if |data| + |item.content| > item.reserved && m.data.Some? then Outcome(None, Status(424), [], None)
    else
      var item' := item.(content := item.content + data,
                         encoding := if item.encoding.None? && m.data.Some? then m.format else item.encoding);
      if m.moreData then Outcome(Some(item'), Status(213), [222], None) else Deliver(item')
  }

  predicate TooLarge(cfg: Config, size: int) {
    size < 0 || (cfg.maxObjSize != 0 && size > cfg.maxObjSize)
  }

  function Process(cfg: Config, incoming: Option<Incoming>, m: Message): Outcome {
    if ItemName(m).None? then Outcome(incoming, Status(412), [], None)
    else
      var id := ItemId(ItemName(m).value, m.command, m.sourceIndex);
      match incoming
      case Some(item) =>
        if item.id != id then Outcome(None, NoStatus, [223], None) else Append(item, m)
      case None =>
        if m.moreData then
          if TooLarge(cfg, m.size) then Outcome(None, Status(416), [], None)
          else Append(Incoming(Cut(id), ToleranceDataSize(m.size, cfg.tolerance), [], None), m)
        else
          var data: cstring := if m.data.Some? then m.data.value else [];
          Deliver(Incoming(Cut(id), |data|, data, if m.data.Some? then m.format else None))
  }

  // ---------------------------------------------------------------- whole runs

  datatype State = State(incoming: Option<Incoming>, deliveries: seq<Delivery>)

  function Step(cfg: Config, s: State, m: Message): State {
    var o := Process(cfg, s.incoming, m);
    State(o.next, if o.delivered.Some? then s.deliveries + [o.delivered.value] else s.deliveries)
  }

  function From(cfg: Config, s: State, ms: seq<Message>): State {
    if ms == [] then s else Step(cfg, From(cfg, s, ms[..|ms| - 1]), ms[|ms| - 1])
  }

  function Run(cfg: Config, ms: seq<Message>): State {
    From(cfg, State(None, []), ms)
  }

  /** The bytes that a message adds to the item it belongs to. */
  function Payload(m: Message): cstring {
    if ItemName(m).Some? && m.data.Some? then m.data.value else []
  }

  function Payloads(ms: seq<Message>): cstring {
    if ms == [] then [] else Payloads(ms[..|ms| - 1]) + Payload(ms[|ms| - 1])
  }

  /** The format of the first message with data that has one. */
  function FirstFormat(ms: seq<Message>): Option<Format> {
    if ms == [] then None
    else if ItemName(ms[0]).Some? && ms[0].data.Some? && ms[0].format.Some? then ms[0].format
    else FirstFormat(ms[1..])
  }

  /** The position of the message that began the item in progress. */
  function Begin(cfg: Config, ms: seq<Message>): (b: nat)
    ensures ms != [] ==> b < |ms|
  {
    if ms == [] then 0
    else if Run(cfg, ms[..|ms| - 1]).incoming.None? then |ms| - 1
    else Begin(cfg, ms[..|ms| - 1])
  }

  predicate Belongs(m: Message, id: ItemId) {
    ItemName(m).None? || Cut(ItemId(ItemName(m).value, m.command, m.sourceIndex)) == id
  }

  lemma {:induction false} FormatAppend(ms: seq<Message>, m: Message)
    ensures FirstFormat(ms + [m]) ==
      if FirstFormat(ms).Some? then FirstFormat(ms)
      else if ItemName(m).Some? && m.data.Some? then m.format else None
  {
    if ms == [] {
      assert [] + [m] == [m] && [m][1..] == [];
    } else {
      FormatAppend(ms[1..], m);
      assert (ms + [m])[1..] == ms[1..] + [m];
    }
  }

  lemma NothingSent()
    ensures Payloads([]) == [] && FirstFormat([]) == None
  {
  }

  lemma PayloadsAppend(ms: seq<Message>, m: Message)
    ensures Payloads(ms + [m]) == Payloads(ms) + Payload(m)
  {
    assert (ms + [m])[..|ms|] == ms;
  }

  /** One step keeps the content of the item in progress equal to the payloads since it began. */
  lemma ProcessKeepsContent(cfg: Config, incoming: Option<Incoming>, m: Message, since: seq<Message>)
    requires cfg.tolerance > 1.0
    requires incoming.Some? ==> |incoming.value.id.key| < DIM_KEY
    requires incoming.None? ==> since == []
    requires incoming.Some? ==>
      incoming.value.content == Payloads(since) && |incoming.value.content| <= incoming.value.reserved &&
      incoming.value.encoding == FirstFormat(since)
    ensures var next := Process(cfg, incoming, m).next;
      next.Some? ==>
        next.value.content == Payloads(since + [m]) && |next.value.content| <= next.value.reserved &&
        next.value.encoding == FirstFormat(since + [m]) &&
        Belongs(m, next.value.id) && |next.value.id.key| < DIM_KEY &&
        if incoming.None?
        then
          m.moreData && m.size >= 0 && next.value.reserved == ToleranceDataSize(m.size, cfg.tolerance) &&
          ItemName(m).Some? && next.value.id == Cut(ItemId(ItemName(m).value, m.command, m.sourceIndex))
        else next.value.id == incoming.value.id && next.value.reserved == incoming.value.reserved
    ensures var delivered := Process(cfg, incoming, m).delivered;
      delivered.Some? ==>
        !m.moreData && delivered.value.content == Payloads(since + [m]) &&
        delivered.value.encoding == FirstFormat(since + [m]) &&
        Belongs(m, delivered.value.id) && (incoming.Some? ==> delivered.value.id == incoming.value.id)
  {
    PayloadsAppend(since, m);
    FormatAppend(since, m);
    NothingSent();
    if incoming.None? && m.size >= 0 {
      ToleranceInverts(m.size, cfg.tolerance, 0);
    }
    hide Payloads, FirstFormat, ToleranceDataSize;
  }

  /**
    The reassembly invariant, for any sequence of messages: the item in progress was begun from
    idle by a message that announced more data, all messages since then name this item (or none),
    and its content is exactly what they carried, within the buffer reserved at the beginning.
   */
  lemma {:induction false} InProgress(cfg: Config, ms: seq<Message>)
    requires cfg.tolerance > 1.0
    ensures var b := Begin(cfg, ms);
      Run(cfg, ms).incoming.Some? ==>
        var item := Run(cfg, ms).incoming.value;
        b < |ms| && Run(cfg, ms[..b]).incoming.None? && ms[b].moreData && ms[b].size >= 0 &&
        |item.id.key| < DIM_KEY &&
        (forall i | b <= i < |ms| :: Belongs(ms[i], item.id)) &&
        item.content == Payloads(ms[b..]) && item.encoding == FirstFormat(ms[b..]) &&
        ItemName(ms[b]).Some? &&
        item.id == Cut(ItemId(ItemName(ms[b]).value, ms[b].command, ms[b].sourceIndex)) &&
        |item.content| <= item.reserved == ToleranceDataSize(ms[b].size, cfg.tolerance)
  {
    if ms != [] {
      hide Process, Payloads, FirstFormat, Belongs, ToleranceDataSize, Cut;
      var pre, m := ms[..|ms| - 1], ms[|ms| - 1];
      var b := Begin(cfg, ms);
      InProgress(cfg, pre);
      NothingSent();
      assert ms[..b] == pre[..b];
      assert ms[b..] == pre[b..] + [m];
      ProcessKeepsContent(cfg, Run(cfg, pre).incoming, m, pre[b..]);
    }
  }

  /**
    Whatever was received before, an item handed to a source has exactly the content that was
    sent for it since it began, and only its last message announced no more data.
   */
  lemma Delivered(cfg: Config, ms: seq<Message>, m: Message)
    requires cfg.tolerance > 1.0
    ensures var b, delivered := Begin(cfg, ms + [m]), Process(cfg, Run(cfg, ms).incoming, m).delivered;
      delivered.Some? ==>
        b <= |ms| && Run(cfg, ms[..b]).incoming.None? && !m.moreData &&
        delivered.value.content == Payloads((ms + [m])[b..]) &&
        delivered.value.encoding == FirstFormat((ms + [m])[b..]) &&
        forall i | b <= i <= |ms| :: Belongs((ms + [m])[i], delivered.value.id)
  {
    hide Process, Payloads, FirstFormat, Belongs;
    var b := Begin(cfg, ms + [m]);
    assert (ms + [m])[..|ms|] == ms;
    InProgress(cfg, ms);
    assert (ms + [m])[b..] == ms[b..] + [m];
    ProcessKeepsContent(cfg, Run(cfg, ms).incoming, m, ms[b..]);
    if b == |ms| {
      assert ms[..b] == ms;
    }
  }

  // ---------------------------------------------------------------- every answer, from the messages alone

  /** As much of the name as is kept. */
  function Key(first: Message): string {
    match ItemName(first)
    case None => ""
    case Some(name) => name[..Min(|name|, 255)]
  }

  /** `m` goes on with the item that `first` began: a name too long to be kept whole is compared with what was kept. */
  predicate Continues(first: Message, m: Message) {
    m.command == first.command && m.sourceIndex == first.sourceIndex &&
    ItemName(first).Some? && ItemName(m) == Some(Key(first))
  }

  function ReservedBy(cfg: Config, first: Message): int {
    (first.size as real * cfg.tolerance + 0.5).Floor
  }

  /** The size that `first` declares, with the tolerance, is enough for what the messages carry. */
  predicate Suffices(cfg: Config, first: Message, ms: seq<Message>) {
    |Payloads(ms)| <= ReservedBy(cfg, first)
  }

  /** The message that began the item that is still incomplete after all of them. */
  function Opened(cfg: Config, ms: seq<Message>): (b: Option<nat>)
    ensures b.Some? ==> b.value < |ms|
  {
    if ms == [] then None
    else
      var pre, m := ms[..|ms| - 1], ms[|ms| - 1];
      var b := Opened(cfg, pre);
      if ItemName(m).None? then b
      else if b.Some? then
        if Continues(ms[b.value], m) && m.moreData && Suffices(cfg, ms[b.value], ms[b.value..]) then b else None
      else if m.moreData && 0 <= m.size && (cfg.maxObjSize == 0 || m.size <= cfg.maxObjSize) && Suffices(cfg, m, [m])
      then Some(|pre|) else None
  }

  /** The item in progress, from the messages since its first one. */
  function ItemOf(cfg: Config, since: seq<Message>): Incoming
    requires since != []
  {
    var first := since[0];
    Incoming(ItemId(Key(first), first.command, first.sourceIndex), ReservedBy(cfg, first), Payloads(since),
             FirstFormat(since))
  }

  /** What one message does to an item that was begun by the first message of `since`, if there is one. */
  ghost predicate Answered(cfg: Config, since: seq<Message>, m: Message, o: Outcome) {
    var all := since + [m];
    var goesOn := since != [] ==> Continues(since[0], m);
    var refused := since == [] && m.moreData && (m.size < 0 || (cfg.maxObjSize != 0 && m.size > cfg.maxObjSize));
    var overflows := (since != [] || m.moreData) && !Suffices(cfg, all[0], all);
    if ItemName(m).None? then
      o.status == Status(412) && o.alerts == [] && o.delivered.None? &&
      o.next == if since == [] then None else Some(ItemOf(cfg, since))
    else if !goesOn then
      o.status == NoStatus && o.alerts == [223] && o.next.None? && o.delivered.None?
    else if refused then
      o.status == Status(416) && o.alerts == [] && o.next.None? && o.delivered.None?
    else if overflows then
      o.status == Status(424) && o.alerts == [] && o.next.None? && o.delivered.None?
    else if m.moreData then
      o.status == Status(213) && o.alerts == [222] && o.next == Some(ItemOf(cfg, all)) && o.delivered.None?
    else if m.command.Other? then
      o.status == NoStatus && o.alerts == [] && o.next.None? && o.delivered.None?
    else
      o.status == FromSource && o.alerts == [] && o.next.None? &&
      o.delivered == Some(Delivery(ItemOf(cfg, all).id, Payloads(all), FirstFormat(all)))
  }

  lemma ReservedIs(cfg: Config, m: Message)
    requires cfg.tolerance > 1.0
    ensures m.size >= 0 ==> ToleranceDataSize(m.size, cfg.tolerance) == ReservedBy(cfg, m) >= 0
  {
    if m.size >= 0 {
      ToleranceInverts(m.size, cfg.tolerance, 0);
    }
  }

  lemma FirstAnswer(cfg: Config, m: Message)
    requires cfg.tolerance > 1.0
    ensures Answered(cfg, [], m, Process(cfg, None, m))
  {
    hide Payloads, FirstFormat, ToleranceDataSize, ReservedBy, Cut, ItemName;
    PayloadsAppend([], m);
    FormatAppend([], m);
    NothingSent();
    ReservedIs(cfg, m);
    assert [] + [m] == [m] && Payloads([m]) == Payload(m);
  }

  lemma LaterAnswer(cfg: Config, since: seq<Message>, m: Message)
    requires since != [] && ItemName(since[0]).Some? && Suffices(cfg, since[0], since)
    ensures Answered(cfg, since, m, Process(cfg, Some(ItemOf(cfg, since)), m))
  {
    PayloadsAppend(since, m);
    FormatAppend(since, m);
    hide Payloads, FirstFormat, ToleranceDataSize, ReservedBy;
    assert (since + [m])[0] == since[0];
  }

  /** The messages that belong to the item that is still incomplete after all of them. */
  function Since(cfg: Config, ms: seq<Message>): seq<Message> {
    match Opened(cfg, ms)
    case None => []
    case Some(b) => ms[b..]
  }

  /** A message is kept with the others exactly if it leaves an item in progress. */
  lemma SinceNext(cfg: Config, ms: seq<Message>, m: Message)
    ensures var since := Since(cfg, ms);
      Since(cfg, ms + [m]) ==
        if ItemName(m).None? then if since == [] then [] else since + [m]
        else if m.moreData && (if since != [] then Continues(since[0], m) && Suffices(cfg, since[0], since + [m])
                               else 0 <= m.size && (cfg.maxObjSize == 0 || m.size <= cfg.maxObjSize) &&
                                    Suffices(cfg, m, [m]))
        then since + [m] else []
  {
    hide Suffices, Continues;
    var all := ms + [m];
    assert all[..|ms|] == ms;
    var b := Opened(cfg, ms);
    if b.Some? {
      assert ms[b.value..] + [m] == all[b.value..];
      assert all[b.value] == ms[b.value] == Since(cfg, ms)[0];
    } else {
      assert [] + [m] == [m] == all[|ms|..];
    }
  }

  lemma RunNext(cfg: Config, ms: seq<Message>, m: Message)
    ensures Run(cfg, ms + [m]).incoming == Process(cfg, Run(cfg, ms).incoming, m).next
  {
    hide Process;
    assert (ms + [m])[..|ms|] == ms;
  }

  lemma NothingRun(cfg: Config)
    ensures Run(cfg, []).incoming.None? && Since(cfg, []) == []
  {
  }

  /** What an unnamed message changes: nothing. */
  lemma UnnamedAdds(cfg: Config, since: seq<Message>, m: Message)
    requires ItemName(m).None? && since != [] && ItemName(since[0]).Some?
    ensures Payloads(since + [m]) == Payloads(since) && ItemOf(cfg, since + [m]) == ItemOf(cfg, since)
  {
    PayloadsAppend(since, m);
    FormatAppend(since, m);
    hide Payloads, FirstFormat;
  }

  lemma SameSuffices(cfg: Config, first: Message, ms: seq<Message>, ms': seq<Message>)
    requires Payloads(ms) == Payloads(ms')
    ensures Suffices(cfg, first, ms) == Suffices(cfg, first, ms')
  {
  }

  lemma {:induction false} InProgressIs(cfg: Config, ms: seq<Message>)
    requires cfg.tolerance > 1.0
    ensures var since := Since(cfg, ms);
      if since == [] then Run(cfg, ms).incoming.None?
      else
        ItemName(since[0]).Some? && Suffices(cfg, since[0], since) && Run(cfg, ms).incoming == Some(ItemOf(cfg, since))
  {
    hide Process, Suffices, ItemOf, Since, Run, Continues;
    NothingRun(cfg);
    if ms != [] {
      var pre, m := ms[..|ms| - 1], ms[|ms| - 1];
      assert ms == pre + [m];
      InProgressIs(cfg, pre);
      RunNext(cfg, pre, m);
      SinceNext(cfg, pre, m);
      var since := Since(cfg, pre);
      if since == [] {
        FirstAnswer(cfg, m);
        assert [] + [m] == [m];
      } else {
        LaterAnswer(cfg, since, m);
        assert (since + [m])[0] == since[0];
        if ItemName(m).None? {
          UnnamedAdds(cfg, since, m);
          SameSuffices(cfg, since[0], since, since + [m]);
        }
      }
    }
  }

  /** For any messages: what the next one is answered, which alert follows, and what is handed over. */
  lemma Answers(cfg: Config, ms: seq<Message>, m: Message)
    requires cfg.tolerance > 1.0
    ensures var since := Since(cfg, ms);
      var o := Process(cfg, Run(cfg, ms).incoming, m);
      && (since != [] ==> ItemName(since[0]).Some?)
      && Answered(cfg, since, m, o)
      && (o.status == Status(213) <==> 222 in o.alerts)
      && (o.status == Status(213) <==> ItemName(m).Some? && Since(cfg, ms + [m]) != [])
  {
    InProgressIs(cfg, ms);
    InProgressIs(cfg, ms + [m]);
    assert (ms + [m])[..|ms|] == ms;
    if Since(cfg, ms) == [] {
      FirstAnswer(cfg, m);
    } else {
      LaterAnswer(cfg, Since(cfg, ms), m);
    }
    hide Payloads, FirstFormat, ReservedBy, ToleranceDataSize, Process;
  }

  // ---------------------------------------------------------------- one item, sent without interruption

  /** The messages of one item: the same name, format and source, and data in each. */
  ghost predicate OneItem(ms: seq<Message>, id: ItemId, format: Option<Format>) {
    ms != [] && !id.command.Other? &&
    forall i | 0 <= i < |ms| ::
      ItemName(ms[i]) == Some(id.key) && ms[i].command == id.command && ms[i].sourceIndex == id.sourceIndex &&
      ms[i].data.Some? && ms[i].format == format &&
      ms[i].moreData == (i < |ms| - 1)
  }

  /** When the declared size is allowed and the buffer reserved for it holds the whole item. */
  predicate Accepts(cfg: Config, declared: int, received: nat) {
    0 <= declared && (cfg.maxObjSize == 0 || declared <= cfg.maxObjSize) &&
    received <= (declared as real * cfg.tolerance + 0.5).Floor
  }

  lemma AcceptsMeans(cfg: Config, declared: int)
    ensures forall received: nat ::
      Accepts(cfg, declared, received) <==>
        !TooLarge(cfg, declared) && received <= ToleranceDataSize(declared, cfg.tolerance)
  {
  }

  function Size(deliveries: seq<Delivery>): nat {
    if deliveries == [] then 0
    else Size(deliveries[..|deliveries| - 1]) + |deliveries[|deliveries| - 1].content|
  }

  /** All the bytes that were received and are not lost. */
  function Weight(s: State): nat {
    Size(s.deliveries) + if s.incoming.Some? then |s.incoming.value.content| else 0
  }

  lemma SizeAppend(deliveries: seq<Delivery>, d: Delivery)
    ensures Size(deliveries + [d]) == Size(deliveries) + |d.content|
  {
    assert (deliveries + [d])[..|deliveries|] == deliveries;
  }

  /** No step invents data, and a refused message loses its own. */
  lemma StepWeight(cfg: Config, s: State, m: Message)
    ensures Weight(Step(cfg, s, m)) <= Weight(s) + |Payload(m)|
    ensures var o := Process(cfg, s.incoming, m);
      Payload(m) != [] && (o.status in {Status(416), Status(424)} || 223 in o.alerts) ==>
        Weight(Step(cfg, s, m)) < Weight(s) + |Payload(m)|
  {
    var o := Process(cfg, s.incoming, m);
    if o.delivered.Some? {
      SizeAppend(s.deliveries, o.delivered.value);
    }
    hide Size, ToleranceDataSize;
  }

  ghost predicate ChunkOf(m: Message, id: ItemId, format: Option<Format>) {
    ItemName(m) == Some(id.key) && m.command == id.command && m.sourceIndex == id.sourceIndex &&
    m.data.Some? && m.format == format && Payload(m) != []
  }

  lemma FirstChunk(cfg: Config, s: State, m: Message, id: ItemId, format: Option<Format>)
    requires cfg.tolerance > 1.0 && s.incoming.None? && ChunkOf(m, id, format) && m.moreData
    ensures if Accepts(cfg, m.size, |Payload(m)|)
            then Step(cfg, s, m) ==
              State(Some(Incoming(Cut(id), ToleranceDataSize(m.size, cfg.tolerance), Payload(m), format)), s.deliveries)
            else Weight(Step(cfg, s, m)) < Weight(s) + |Payload(m)|
  {
    hide Weight, ToleranceDataSize, Accepts;
    AcceptsMeans(cfg, m.size);
    StepWeight(cfg, s, m);
    assert [] + Payload(m) == Payload(m);
  }

  lemma LaterChunk(cfg: Config, s: State, m: Message, id: ItemId, format: Option<Format>)
    requires ChunkOf(m, id, format) && !id.command.Other?
    requires s.incoming.Some? && s.incoming.value.id == Cut(id) && s.incoming.value.encoding == format
    ensures var item := s.incoming.value;
      var content := item.content + Payload(m);
      if |id.key| < DIM_KEY && |content| <= item.reserved
      then Step(cfg, s, m) == if m.moreData then State(Some(item.(content := content)), s.deliveries)
                              else State(None, s.deliveries + [Delivery(Cut(id), content, format)])
      else Weight(Step(cfg, s, m)) < Weight(s) + |Payload(m)|
  {
    hide Weight;
    StepWeight(cfg, s, m);
  }

  lemma WeightInProgress(s: State, before: State)
    requires s.incoming.None? && before.incoming.Some? && before.deliveries == s.deliveries
    ensures Weight(before) == Weight(s) + |before.incoming.value.content|
  {
  }

  lemma FromStep(cfg: Config, s: State, ms: seq<Message>, k: nat)
    requires 1 <= k <= |ms|
    ensures From(cfg, s, ms[..k]) == Step(cfg, From(cfg, s, ms[..k - 1]), ms[k - 1])
    ensures Payloads(ms[..k]) == Payloads(ms[..k - 1]) + Payload(ms[k - 1])
  {
    assert ms[..k][..k - 1] == ms[..k - 1];
  }

  lemma FromNothing(cfg: Config, s: State)
    ensures From(cfg, s, []) == s && Payloads([]) == []
  {
  }

  lemma {:induction false} Chunks(cfg: Config, s: State, ms: seq<Message>, id: ItemId, format: Option<Format>, k: nat)
    requires cfg.tolerance > 1.0 && s.incoming.None? && OneItem(ms, id, format) && 1 <= k <= |ms| && 2 <= |ms|
    requires forall i | 0 <= i < |ms| :: Payload(ms[i]) != []
    ensures var content := Payloads(ms[..k]);
      if Accepts(cfg, ms[0].size, |content|) && (k == 1 || |id.key| < DIM_KEY)
      then From(cfg, s, ms[..k]) ==
        if k == |ms| then State(None, s.deliveries + [Delivery(Cut(id), content, format)])
        else
          State(Some(Incoming(Cut(id), ToleranceDataSize(ms[0].size, cfg.tolerance), content, format)), s.deliveries)
      else Weight(From(cfg, s, ms[..k])) < Weight(s) + |content|
  {
    hide Weight, Payloads, Payload, ToleranceDataSize, Step, From, Cut, Accepts;
    AcceptsMeans(cfg, ms[0].size);
    var m := ms[k - 1];
    FromStep(cfg, s, ms, k);
    FromNothing(cfg, s);
    assert ChunkOf(m, id, format);
    var before := From(cfg, s, ms[..k - 1]);
    if k == 1 {
      assert ms[..0] == [] && [] + Payload(m) == Payload(m);
      FirstChunk(cfg, s, m, id, format);
    } else {
      Chunks(cfg, s, ms, id, format, k - 1);
      StepWeight(cfg, before, m);
      if before.incoming.Some? && before.incoming.value.id == Cut(id) && before.incoming.value.encoding == format {
        LaterChunk(cfg, before, m, id, format);
        if before.deliveries == s.deliveries {
          WeightInProgress(s, before);
        }
      }
    }
  }

  /**
    An item sent in several chunks is handed over whole if and only if its declared size is
    allowed and leaves room for what is really sent, and its name is not cut.
   */
  lemma Reassembled(cfg: Config, s: State, ms: seq<Message>, id: ItemId, format: Option<Format>)
    requires cfg.tolerance > 1.0 && s.incoming.None? && OneItem(ms, id, format) && |ms| >= 2
    requires forall i | 0 <= i < |ms| :: Payload(ms[i]) != []
    ensures From(cfg, s, ms) == State(None, s.deliveries + [Delivery(Cut(id), Payloads(ms), format)])
       <==> (Accepts(cfg, ms[0].size, |Payloads(ms)|) && |id.key| <= 255)
  {
    Chunks(cfg, s, ms, id, format, |ms|);
    assert ms[..|ms|] == ms;
    SizeAppend(s.deliveries, Delivery(Cut(id), Payloads(ms), format));
  }
}
