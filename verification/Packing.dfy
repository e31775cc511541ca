/**
  What the packing loops of `SyncManager::sync` have in common: the size estimates, and the
  books that say which chunks of which items went into which messages.
 */
module Packing {
  import opened Options
  import opened Bytes
  import opened EncodingHelper
  import opened ItemReader
  import B64 = Base64

  const CHANGE_OVERHEAD: nat := 150
  const DELETE_ITEM_COMMAND_SIZE: nat := 300

  predicate IsTooBig(chunkSize: nat, maxMsgSize: nat, msgSize: nat) {
    chunkSize + CHANGE_OVERHEAD + msgSize > maxMsgSize
  }

  /** A twentieth of the message size, truncated. */
  function PercMaxMsgSize(maxMsgSize: nat): nat {
    maxMsgSize / 20
  }

  predicate IsItemTooBig(size: nat, maxMsgSize: nat, msgSize: nat) {
    if maxMsgSize < CHANGE_OVERHEAD + msgSize then true
    else if maxMsgSize - CHANGE_OVERHEAD - msgSize < PercMaxMsgSize(maxMsgSize)
    then MaxDataSizeToEncode(size) > PercMaxMsgSize(maxMsgSize)
    else false
  }

  /** Room for some of an item: not only a twentieth of the message is left, or the item is small. */
  predicate FindsRoom(size: nat, maxMsgSize: nat, msgSize: nat) {
    150 + msgSize <= maxMsgSize && (maxMsgSize / 20 <= maxMsgSize - 150 - msgSize || size / 4 * 3 <= maxMsgSize / 20)
  }

  lemma TooBigMeans(size: nat, maxMsgSize: nat, msgSize: nat)
    ensures IsItemTooBig(size, maxMsgSize, msgSize) <==> !FindsRoom(size, maxMsgSize, msgSize)
  {
  }

  /** An empty message takes some of every item, whatever its size, exactly from this limit on. */
  const LEAST_MSG_SIZE: nat := 157

  lemma StartsEveryItem(maxMsgSize: nat)
    ensures maxMsgSize >= LEAST_MSG_SIZE <==> forall size: nat :: !IsItemTooBig(size, maxMsgSize, 0)
    ensures maxMsgSize >= LEAST_MSG_SIZE ==> maxMsgSize - CHANGE_OVERHEAD >= 4
  {
    if maxMsgSize < LEAST_MSG_SIZE {
      assert IsItemTooBig(12, maxMsgSize, 0);
    }
  }

  /** None of these items is too big for an empty message. */
  ghost predicate AllStart(items: seq<bytes>, maxMsgSize: nat) {
    forall i | 0 <= i < |items| :: !IsItemTooBig(|items[i]|, maxMsgSize, 0)
  }

  /** None of the first `n` is. */
  ghost predicate Started(items: seq<bytes>, n: int, maxMsgSize: nat) {
    n <= |items| && forall i | 0 <= i < n :: !IsItemTooBig(|items[i]|, maxMsgSize, 0)
  }

  /** An item that is not too big for a message is not too big for an empty one. */
  lemma OneMoreStarted(items: seq<bytes>, n: nat, maxMsgSize: nat, msgSize: nat)
    requires Started(items, n, maxMsgSize) && n < |items| && !IsItemTooBig(|items[n]|, maxMsgSize, msgSize)
    ensures Started(items, n + 1, maxMsgSize)
  {
    if IsItemTooBig(|items[n]|, maxMsgSize, 0) {
      TooBigStays(|items[n]|, maxMsgSize, msgSize);
    }
  }

  lemma AllStarted(items: seq<bytes>, maxMsgSize: nat)
    ensures Started(items, |items|, maxMsgSize) <==> AllStart(items, maxMsgSize)
  {
  }

  lemma TooBigStays(size: nat, maxMsgSize: nat, msgSize: nat)
    requires IsItemTooBig(size, maxMsgSize, 0)
    ensures IsItemTooBig(size, maxMsgSize, msgSize)
  {
  }

  lemma NoRoom(maxMsgSize: nat, msgSize: nat)
    requires maxMsgSize < CHANGE_OVERHEAD + msgSize
    ensures forall size: nat :: IsItemTooBig(size, maxMsgSize, msgSize)
  {
  }

  /**
    A change in a message: a chunk of the item with this number, as an addition if it is new and as a
    replacement otherwise, or the removal of an item.
   */
  datatype Change = Upload(item: nat, isNew: bool, chunk: Chunk) | Removal(item: nat)

  type Package = seq<Change>

  /** The loops' estimate of the size of a message. */
  function Cost(message: Package): nat {
    if message == [] then 0
    else
      var change := message[|message| - 1];
      Cost(message[..|message| - 1]) + CHANGE_OVERHEAD + if change.Upload? then |change.chunk.data| else 0
  }

  /** All the text in the message. */
  function Letters(message: Package): bytes {
    if message == [] then []
    else
      var change := message[|message| - 1];
      Letters(message[..|message| - 1]) + if change.Upload? then change.chunk.data else []
  }

  lemma {:induction false} CostCounts(message: Package)
    ensures Cost(message) == 150 * |message| + |Letters(message)|
  {
    if message != [] {
      CostCounts(message[..|message| - 1]);
    }
  }

  /** Every item in the message is complete in it. */
  ghost predicate Closed(message: Package) {
    forall i | 0 <= i < |message| :: message[i].Upload? ==> message[i].chunk.last
  }

  /** Each item found room in what was left of the message. */
  ghost predicate Entered(message: Package, items: seq<bytes>, maxMsgSize: nat) {
    forall i | 0 <= i < |message| && message[i].Upload? ::
      message[i].item < |items| && FindsRoom(|items[message[i].item]|, maxMsgSize, Cost(message[..i]))
  }

  /**
    Within the limit, and with no item for which there is no room. A chunk that is not the last of its
    item fills the message but for less than a letter group.
   */
  ghost predicate WellPacked(message: Package, items: seq<bytes>, maxMsgSize: nat) {
    Cost(message) <= maxMsgSize && Entered(message, items, maxMsgSize) &&
    (message != [] ==> Closed(message[..|message| - 1])) &&
    (Closed(message) || Cost(message) > maxMsgSize - 4)
  }

  // ---------------------------------------------------------------- the books

  function Uploads(item: nat, isNew: bool, cs: seq<Chunk>): Package {
    seq(|cs|, i requires 0 <= i < |cs| => Upload(item, isNew, cs[i]))
  }

  /** All chunks in the order of the items they belong to; the first items are new. */
  function ByItem(newItems: nat, transfers: seq<seq<Chunk>>): Package {
    if transfers == [] then []
    else
      var k := |transfers| - 1;
      ByItem(newItems, transfers[..k]) + Uploads(k, k < newItems, transfers[k])
  }

  function Removals(items: seq<nat>): Package {
    seq(|items|, i requires 0 <= i < |items| => Removal(items[i]))
  }

  /** The message with this number, when it had this many changes. */
  datatype Place = Place(message: nat, changes: nat)

  /**
    The first `newItems` items are sent as new ones. `transfers` has the chunks of every item fetched
    so far, `dropped` the items given up with the message that they met; `removed` the deleted items
    sent. `messages` have been sent, `message` is being filled.
   */
  datatype Books = Books(
    newItems: nat, transfers: seq<seq<Chunk>>, dropped: map<nat, Place>, removed: seq<nat>,
    messages: seq<Package>, message: Package)

  function NoBooks(newItems: nat): Books {
    Books(newItems, [], map[], [], [], [])
  }

  /** The message at that place had room for less than a letter group. */
  ghost predicate NoRoomAt(b: Books, place: Place, maxMsgSize: nat) {
    place.message <= |b.messages| &&
    var message := if place.message < |b.messages| then b.messages[place.message] else b.message;
    place.changes <= |message| && maxMsgSize - 150 - Cost(message[..place.changes]) < 4
  }

  /** An item is through: sent completely, or small and given up in a message with no room for a letter group. */
  ghost predicate Settled(b: Books, items: seq<bytes>, maxMsgSize: nat, i: nat)
    requires i < |b.transfers| <= |items|
  {
    if i in b.dropped then
      b.transfers[i] == [] && items[i] != [] && NoRoomAt(b, b.dropped[i], maxMsgSize) &&
      |items[i]| / 4 * 3 <= maxMsgSize / 20
    else Complete(b.transfers[i], items[i])
  }

  /** `pending` is the stream position of the item in progress, which is the one fetched last. */
  ghost predicate Accurate(b: Books, items: seq<bytes>, maxMsgSize: nat, pending: Option<nat>) {
    |b.transfers| <= |items| &&
    (forall i | i in b.dropped :: i < |b.transfers|) &&
    (match pending
     case None => forall i | 0 <= i < |b.transfers| :: Settled(b, items, maxMsgSize, i)
     case Some(p) =>
       b.transfers != [] &&
       var k := |b.transfers| - 1;
       (forall i | 0 <= i < k :: Settled(b, items, maxMsgSize, i)) &&
       k !in b.dropped && Transfer(b.transfers[k], items[k], p) &&
       (p < |items[k]| || b.transfers[k] == [])) &&
    Concat(b.messages) + b.message == ByItem(b.newItems, b.transfers) + Removals(b.removed) &&
    (forall m | m in b.messages :: WellPacked(m, items, maxMsgSize)) &&
    WellPacked(b.message, items, maxMsgSize)
  }

  lemma AccurateCount(b: Books, items: seq<bytes>, maxMsgSize: nat, pending: Option<nat>)
    requires Accurate(b, items, maxMsgSize, pending)
    ensures |b.transfers| <= |items| && (pending.Some? ==> b.transfers != [])
    ensures pending.Some? ==> pending.value <= |items[|b.transfers| - 1]|
  {
  }

  // ---------------------------------------------------------------- the events that change them

  function Fetch(b: Books): Books {
    b.(transfers := b.transfers + [[]])
  }

  function Send(b: Books, c: Chunk): Books
    requires b.transfers != []
  {
    var k := |b.transfers| - 1;
    b.(transfers := b.transfers[k := b.transfers[k] + [c]], message := b.message + [Upload(k, k < b.newItems, c)])
  }

  function Drop(b: Books): Books
    requires b.transfers != []
  {
    b.(dropped := b.dropped[|b.transfers| - 1 := Place(|b.messages|, |b.message|)])
  }

  function Post(b: Books): Books {
    b.(messages := b.messages + [b.message], message := [])
  }

  lemma FetchKeepsBooks(b: Books, items: seq<bytes>, maxMsgSize: nat)
    requires Accurate(b, items, maxMsgSize, None) && |b.transfers| < |items|
    ensures Accurate(Fetch(b), items, maxMsgSize, Some(0))
  {
    hide WellPacked, Transfer, Complete, Cost, NoRoomAt, Removals, MaxDataSizeToEncode, ByItem;
    var k := |b.transfers|;
    TransferStarts(items[k]);
    NothingUploaded(b.newItems, b.transfers);
    forall i | 0 <= i < k ensures Settled(Fetch(b), items, maxMsgSize, i) {
      assert Settled(b, items, maxMsgSize, i);
      if i in b.dropped {
        SameNoRoom(b, Fetch(b), maxMsgSize, i);
      }
    }
  }

  lemma NothingUploaded(newItems: nat, transfers: seq<seq<Chunk>>)
    ensures ByItem(newItems, transfers + [[]]) == ByItem(newItems, transfers)
  {
    assert (transfers + [[]])[..|transfers|] == transfers;
  }

  /** What was sent stays as it is, and a message only grows at its end. */
  lemma SameNoRoom(b: Books, b': Books, maxMsgSize: nat, i: nat)
    requires i in b.dropped && NoRoomAt(b, b.dropped[i], maxMsgSize)
    requires i in b'.dropped && b'.dropped[i] == b.dropped[i]
    requires if b'.messages == b.messages then b.message <= b'.message
             else b'.messages == b.messages + [b.message]
    ensures NoRoomAt(b', b'.dropped[i], maxMsgSize)
  {
    hide Cost;
    var place := b.dropped[i];
    if place.message == |b.messages| && b'.messages == b.messages {
      assert b'.message[..place.changes] == b.message[..place.changes];
    }
  }

  lemma DropKeepsBooks(b: Books, items: seq<bytes>, maxMsgSize: nat)
    requires Accurate(b, items, maxMsgSize, Some(0)) && maxMsgSize - CHANGE_OVERHEAD - Cost(b.message) < 4
    requires var k := |b.transfers| - 1;
      items[k] != [] && MaxDataSizeToEncode(|items[k]|) <= PercMaxMsgSize(maxMsgSize)
    ensures Accurate(Drop(b), items, maxMsgSize, None)
  {
    hide WellPacked, Complete, Cost, ByItem, Removals;
    assert b.message[..|b.message|] == b.message;
    NothingSent(b.transfers[|b.transfers| - 1], items[|b.transfers| - 1]);
    hide NoRoomAt, Transfer;
    forall i | 0 <= i < |b.transfers| ensures Settled(Drop(b), items, maxMsgSize, i) {
      if i < |b.transfers| - 1 {
        assert Settled(b, items, maxMsgSize, i);
        if i in b.dropped {
          SameNoRoom(b, Drop(b), maxMsgSize, i);
        }
      }
    }
  }

  lemma NothingSent(cs: seq<Chunk>, data: bytes)
    requires Transfer(cs, data, 0) && data != []
    ensures cs == []
  {
  }

  /** No item is dropped if each is empty or too long to be put into the last twentieth of a message. */
  lemma NothingDropped(b: Books, items: seq<bytes>, maxMsgSize: nat)
    requires Accurate(b, items, maxMsgSize, None)
    requires forall i | 0 <= i < |items| :: items[i] == [] || |items[i]| / 4 * 3 > maxMsgSize / 20
    ensures b.dropped == map[]
  {
    hide WellPacked, ByItem, Removals, Complete, NoRoomAt;
    forall i | 0 <= i < |b.transfers| ensures i !in b.dropped {
      assert Settled(b, items, maxMsgSize, i);
    }
  }

  lemma ByItemGrows(newItems: nat, transfers: seq<seq<Chunk>>, c: Chunk)
    requires transfers != []
    ensures var k := |transfers| - 1;
      ByItem(newItems, transfers[k := transfers[k] + [c]])
        == ByItem(newItems, transfers) + [Upload(k, k < newItems, c)]
  {
    var k := |transfers| - 1;
    assert transfers[k := transfers[k] + [c]][..k] == transfers[..k];
    var isNew := k < newItems;
    assert Uploads(k, isNew, transfers[k] + [c]) == Uploads(k, isNew, transfers[k]) + [Upload(k, isNew, c)];
  }

  lemma MessageGrows(message: Package, items: seq<bytes>, change: Change, maxMsgSize: nat)
    requires Closed(message) && WellPacked(message, items, maxMsgSize)
    requires change.Upload? ==>
      change.item < |items| && FindsRoom(|items[change.item]|, maxMsgSize, Cost(message)) &&
      (change.chunk.last || Cost(message) + CHANGE_OVERHEAD + |change.chunk.data| > maxMsgSize - 4)
    requires Cost(message) + CHANGE_OVERHEAD + (if change.Upload? then |change.chunk.data| else 0) <= maxMsgSize
    ensures WellPacked(message + [change], items, maxMsgSize)
    ensures Cost(message + [change])
         == Cost(message) + CHANGE_OVERHEAD + if change.Upload? then |change.chunk.data| else 0
    ensures change.Upload? && change.chunk.last ==> Closed(message + [change])
  {
    var message' := message + [change];
    assert message'[..|message|] == message;
    forall i | 0 <= i < |message'| && message'[i].Upload?
      ensures message'[i].item < |items| && FindsRoom(|items[message'[i].item]|, maxMsgSize, Cost(message'[..i]))
    {
      assert i < |message| ==> message'[..i] == message[..i];
    }
  }

  lemma SendKeepsBooks(b: Books, items: seq<bytes>, maxMsgSize: nat, p: nat, c: Chunk, q: nat)
    requires Accurate(b, items, maxMsgSize, Some(p)) && b.removed == [] && Closed(b.message)
    requires Cost(b.message) + CHANGE_OVERHEAD + |c.data| <= maxMsgSize
    requires c.last || Cost(b.message) + CHANGE_OVERHEAD + |c.data| > maxMsgSize - 4
    requires FindsRoom(|items[|b.transfers| - 1]|, maxMsgSize, Cost(b.message))
    requires var k := |b.transfers| - 1;
      Transfer(b.transfers[k] + [c], items[k], q) && c.last == (q == |items[k]|)
    ensures Accurate(Send(b, c), items, maxMsgSize, if c.last then None else Some(q))
    ensures Cost(Send(b, c).message) == Cost(b.message) + CHANGE_OVERHEAD + |c.data|
    ensures c.last ==> Closed(Send(b, c).message)
  {
    hide WellPacked, Transfer, Complete, ByItem, Cost, Closed, Removals, NoRoomAt, MaxDataSizeToEncode, FindsRoom;
    var k := |b.transfers| - 1;
    var u := Upload(k, k < b.newItems, c);
    ByItemGrows(b.newItems, b.transfers, c);
    MessageGrows(b.message, items, u, maxMsgSize);
    TransferEnds(b.transfers[k] + [c], items[k], q);
    forall i | 0 <= i < k + if c.last then 1 else 0 ensures Settled(Send(b, c), items, maxMsgSize, i) {
      if i < k {
        assert Settled(b, items, maxMsgSize, i);
        if i in b.dropped {
          SameNoRoom(b, Send(b, c), maxMsgSize, i);
        }
      }
    }
    NoRemovals(ByItem(b.newItems, b.transfers));
    NoRemovals(ByItem(b.newItems, Send(b, c).transfers));
    assert Concat(b.messages) + (b.message + [u]) == (Concat(b.messages) + b.message) + [u];
  }

  lemma NoRemovals(p: Package)
    ensures p + Removals([]) == p
  {
  }

  lemma TransferEnds(cs: seq<Chunk>, data: bytes, q: nat)
    requires cs != [] && Transfer(cs, data, q)
    ensures q <= |data| && (q == |data| ==> Complete(cs, data))
  {
  }

  /** A chunk that is not the last of its item uses up the room but for less than a letter group. */
  lemma PartialChunk(data: bytes, p: nat, room: nat)
    requires p <= |data| && NextChunk(data, p, room).Some?
    ensures !NextChunk(data, p, room).value.last ==>
      |NextChunk(data, p, room).value.data| >= room - 3 && p < PieceEnd(data, p, room) < |data|
  {
    var q := PieceEnd(data, p, room);
    EncodedSize(data[p..q]);
    hide B64.Encode;
  }

  /** The chunk that `GetNextChunk` makes for the rest of the message fits and goes into it. */
  lemma ChunkSent(b: Books, items: seq<bytes>, maxMsgSize: nat, p: nat, size: nat)
    requires Accurate(b, items, maxMsgSize, Some(p)) && b.removed == [] && Closed(b.message)
    requires size == maxMsgSize - CHANGE_OVERHEAD - Cost(b.message)
    requires NextChunk(items[|b.transfers| - 1], p, size).Some?
    requires !IsItemTooBig(|items[|b.transfers| - 1]|, maxMsgSize, Cost(b.message))
    ensures var data := items[|b.transfers| - 1];
      var c, q := NextChunk(data, p, size).value, PieceEnd(data, p, size);
      |c.data| <= size && c.last == (q == |data|) &&
      Accurate(Send(b, c), items, maxMsgSize, if c.last then None else Some(q)) &&
      Cost(Send(b, c).message) == Cost(b.message) + CHANGE_OVERHEAD + |c.data| &&
      (c.last ==> Closed(Send(b, c).message))
  {
    var k := |b.transfers| - 1;
    ChunkFits(items[k], p, size);
    TransferStep(b.transfers[k], items[k], p, size);
    PartialChunk(items[k], p, size);
    TooBigMeans(|items[k]|, maxMsgSize, Cost(b.message));
    SendKeepsBooks(b, items, maxMsgSize, p, NextChunk(items[k], p, size).value, PieceEnd(items[k], p, size));
    hide Accurate, Transfer, Cost, B64.Encode, MaxDataSizeToEncode, FindsRoom, IsItemTooBig;
  }

  lemma PostKeepsBooks(b: Books, items: seq<bytes>, maxMsgSize: nat, pending: Option<nat>)
    requires Accurate(b, items, maxMsgSize, pending)
    ensures Accurate(Post(b), items, maxMsgSize, pending)
    ensures Grows(b, Post(b))
  {
    hide ByItem, Transfer, Complete, Cost, WellPacked, Removals, NoRoomAt, MaxDataSizeToEncode, Concat;
    ConcatAppend(b.messages, b.message);
    EmptyPacked(items, maxMsgSize);
    assert Concat(b.messages) + b.message + [] == Concat(b.messages) + b.message;
    assert forall m | m in b.messages + [b.message] :: m in b.messages || m == b.message;
    forall i | 0 <= i < |b.transfers| && (pending.Some? ==> i < |b.transfers| - 1)
      ensures Settled(Post(b), items, maxMsgSize, i)
    {
      assert Settled(b, items, maxMsgSize, i);
      if i in b.dropped {
        SameNoRoom(b, Post(b), maxMsgSize, i);
      }
    }
  }

  lemma EmptyPacked(items: seq<bytes>, maxMsgSize: nat)
    ensures WellPacked([], items, maxMsgSize)
  {
  }

  // ---------------------------------------------------------------- the end of a message

  /** The item with this number was complete or given up by the end of message `i`. */
  ghost predicate ThroughBy(b: Books, i: nat, k: nat) {
    (k in b.dropped && b.dropped[k].message <= i) ||
    exists m, last :: 0 <= m < |b.messages| && m <= i && LastIn(b.messages[m], k, last)
  }

  predicate LastIn(message: Package, k: nat, last: Change) {
    last.Upload? && last.item == k && last.chunk.last && last in message
  }

  /** The first item that was not through by then. */
  ghost predicate NextAfter(b: Books, i: nat, k: nat) {
    !ThroughBy(b, i, k) && forall j: nat | j < k :: ThroughBy(b, i, j)
  }

  /** Message `i` is full, or it has no room for the next item. */
  ghost predicate EndsWell(b: Books, items: seq<bytes>, maxMsgSize: nat, i: nat)
    requires i < |b.messages|
  {
    var cost := Cost(b.messages[i]);
    cost >= maxMsgSize || exists k | 0 <= k < |items| :: NextAfter(b, i, k) && !FindsRoom(|items[k]|, maxMsgSize, cost)
  }

  /** What was sent or given up before stays so; what is given up later met a later message. */
  ghost predicate Grows(b: Books, b': Books) {
    b'.newItems == b.newItems && b.messages <= b'.messages &&
    (forall k | k in b.dropped :: k in b'.dropped && b'.dropped[k] == b.dropped[k]) &&
    (forall k | k in b'.dropped :: k in b.dropped || b'.dropped[k].message >= |b.messages|)
  }

  lemma GrowsOn(b: Books, b': Books, b'': Books)
    requires Grows(b, b') && Grows(b', b'')
    ensures Grows(b, b'')
  {
  }

  lemma FetchGrows(b: Books)
    ensures Grows(b, Fetch(b)) && Grows(b, b)
  {
  }

  lemma SendGrows(b: Books, c: Chunk)
    requires b.transfers != []
    ensures Grows(b, Send(b, c))
  {
  }

  lemma RemoveGrows(b: Books, b': Books)
    requires Grows(b, b')
    ensures Grows(b, Remove(b'))
  {
  }

  lemma DropGrows(b: Books, items: seq<bytes>, maxMsgSize: nat, p: nat)
    requires Accurate(b, items, maxMsgSize, Some(p))
    ensures Grows(b, Drop(b))
  {
  }

  lemma StillEndsWell(b: Books, b': Books, items: seq<bytes>, maxMsgSize: nat, i: nat)
    requires Grows(b, b') && i < |b.messages| && EndsWell(b, items, maxMsgSize, i)
    ensures i < |b'.messages| && EndsWell(b', items, maxMsgSize, i)
  {
    hide LastIn, Cost;
    assert forall k: nat :: ThroughBy(b', i, k) <==> ThroughBy(b, i, k);
    assert forall k: nat :: NextAfter(b, i, k) ==> NextAfter(b', i, k);
  }

  lemma MessagesStay(b: Books, b': Books, b'': Books, items: seq<bytes>, maxMsgSize: nat)
    requires Grows(b, b') && Grows(b', b'')
    ensures |b.messages| <= |b''.messages| && forall i | 0 <= i < |b.messages| ::
      EndsWell(b, items, maxMsgSize, i) ==> EndsWell(b'', items, maxMsgSize, i)
  {
    hide EndsWell;
    forall i | 0 <= i < |b.messages| && EndsWell(b, items, maxMsgSize, i)
      ensures EndsWell(b'', items, maxMsgSize, i)
    {
      StillEndsWell(b, b', items, maxMsgSize, i);
      StillEndsWell(b', b'', items, maxMsgSize, i);
    }
  }

  lemma {:induction false} ByItemHas(newItems: nat, transfers: seq<seq<Chunk>>, u: Change)
    ensures u.Upload? && u in ByItem(newItems, transfers) <==>
      u.Upload? && u.item < |transfers| && u.chunk in transfers[u.item] && u.isNew == (u.item < newItems)
  {
    if transfers != [] {
      var n := |transfers| - 1;
      ByItemHas(newItems, transfers[..n], u);
      var last := Uploads(n, n < newItems, transfers[n]);
      if u.Upload? && u.item == n && u.chunk in transfers[n] && u.isNew == (n < newItems) {
        var i :| 0 <= i < |transfers[n]| && transfers[n][i] == u.chunk;
        assert last[i] == u;
      }
    }
  }

  lemma {:induction false} ConcatHas<T>(parts: seq<seq<T>>, x: T)
    ensures x in Concat(parts) <==> exists m :: 0 <= m < |parts| && x in parts[m]
  {
    if parts != [] {
      var n := |parts| - 1;
      ConcatHas(parts[..n], x);
      if m :| 0 <= m < |parts| && x in parts[m] {
        assert m < n ==> parts[..n][m] == parts[m];
      }
      if x in Concat(parts[..n]) {
        var m :| 0 <= m < n && x in parts[..n][m];
        assert x in parts[m];
      }
    }
  }

  /** Where the chunks of the books are once the message is sent. */
  lemma UploadedIn(b: Books, items: seq<bytes>, maxMsgSize: nat, pending: Option<nat>, u: Change)
    requires Accurate(b, items, maxMsgSize, pending) && u.Upload?
    ensures (exists m :: 0 <= m < |Post(b).messages| && u in Post(b).messages[m])
       <==> u.item < |b.transfers| && u.chunk in b.transfers[u.item] && u.isNew == (u.item < b.newItems)
  {
    hide ByItem, Concat, Settled, Transfer, WellPacked;
    ByItemHas(b.newItems, b.transfers, u);
    ConcatHas(Post(b).messages, u);
    ConcatAppend(b.messages, b.message);
    assert Concat(b.messages) + b.message == ByItem(b.newItems, b.transfers) + Removals(b.removed);
  }

  lemma TransferOpen(cs: seq<Chunk>, data: bytes, p: nat)
    requires Transfer(cs, data, p) && (p < |data| || cs == [])
    ensures forall c | c in cs :: !c.last
  {
    hide B64.Encode, Text;
  }

  lemma CompleteCloses(cs: seq<Chunk>, data: bytes)
    requires Complete(cs, data)
    ensures cs[|cs| - 1] in cs && cs[|cs| - 1].last
  {
    hide B64.Encode, Text;
  }

  /** A message is full, or the item in progress is the first one not through with it and finds no room. */
  lemma PostEndsWell(b: Books, items: seq<bytes>, maxMsgSize: nat, pending: Option<nat>)
    requires Accurate(b, items, maxMsgSize, pending)
    requires Cost(b.message) >= maxMsgSize ||
             (pending.Some? && IsItemTooBig(|items[|b.transfers| - 1]|, maxMsgSize, Cost(b.message)))
    ensures EndsWell(Post(b), items, maxMsgSize, |b.messages|)
  {
    hide Cost, WellPacked, ByItem, Removals, Transfer, Complete, Concat;
    if Cost(b.message) < maxMsgSize {
      var i, k := |b.messages|, |b.transfers| - 1;
      TooBigMeans(|items[k]|, maxMsgSize, Cost(b.message));
      TransferOpen(b.transfers[k], items[k], pending.value);
      forall m, u: Change | 0 <= m <= i ensures !LastIn(Post(b).messages[m], k, u) {
        if u.Upload? {
          UploadedIn(b, items, maxMsgSize, pending, u);
        }
      }
      assert !ThroughBy(Post(b), i, k);
      forall j: nat | j < k ensures ThroughBy(Post(b), i, j) {
        assert Settled(b, items, maxMsgSize, j);
        if j !in b.dropped {
          CompleteCloses(b.transfers[j], items[j]);
          var u := Upload(j, j < b.newItems, b.transfers[j][|b.transfers[j]| - 1]);
          UploadedIn(b, items, maxMsgSize, pending, u);
          var m :| 0 <= m < |Post(b).messages| && u in Post(b).messages[m];
          assert LastIn(Post(b).messages[m], j, u);
        }
      }
      assert NextAfter(Post(b), i, k);
    }
  }

  // ---------------------------------------------------------------- deleted items

  function Numbers(n: nat): (r: seq<nat>)
    ensures |r| == n && forall i | 0 <= i < n :: r[i] == i
  {
    seq(n, i => i)
  }

  /** How many deleted items go into a message of this size, by the estimate of the loop. */
  function Fitting(maxMsgSize: nat, msgSize: nat): nat {
    if IsTooBig(DELETE_ITEM_COMMAND_SIZE, maxMsgSize, msgSize) then 0
    else (maxMsgSize - msgSize - CHANGE_OVERHEAD - DELETE_ITEM_COMMAND_SIZE) / CHANGE_OVERHEAD + 1
  }

  /** After `j` of them the next one is too big exactly if no more than `j` fit. */
  lemma FittingStops(maxMsgSize: nat, msgSize: nat, j: nat)
    ensures IsTooBig(DELETE_ITEM_COMMAND_SIZE, maxMsgSize, msgSize + j * CHANGE_OVERHEAD)
       <==> j >= Fitting(maxMsgSize, msgSize)
  {
  }

  /**
    Of the first `n` deleted items those that fit behind the rest of the message were sent with it,
    and all others were given up.
   */
  ghost predicate DeletesAccurate(b: Books, message: Package, n: nat, maxMsgSize: nat) {
    var k := |b.removed|;
    b.removed == Numbers(k) && k <= |message| &&
    message[|message| - k..] == Removals(b.removed) &&
    k == Min(n, Fitting(maxMsgSize, Cost(message[..|message| - k])))
  }

  function Remove(b: Books): Books {
    b.(removed := b.removed + [|b.removed|], message := b.message + [Removal(|b.removed|)])
  }

  lemma NoDeletes(b: Books, maxMsgSize: nat)
    requires b.removed == []
    ensures DeletesAccurate(b, b.message, 0, maxMsgSize)
  {
  }

  /** A removal that fits goes behind the items. */
  lemma RemoveKeepsBooks(b: Books, items: seq<bytes>, maxMsgSize: nat)
    requires Accurate(b, items, maxMsgSize, None) && Closed(b.message)
    requires Cost(b.message) + CHANGE_OVERHEAD <= maxMsgSize
    ensures Accurate(Remove(b), items, maxMsgSize, None)
    ensures Closed(Remove(b).message) && Cost(Remove(b).message) == Cost(b.message) + CHANGE_OVERHEAD
  {
    hide WellPacked, Transfer, Complete, ByItem, Cost, Closed, Removals, NoRoomAt, MaxDataSizeToEncode;
    var n := |b.removed|;
    RemovalGrows(b.message, items, n, maxMsgSize);
    RemovalsAppend(b.removed, n);
    Associative(Concat(b.messages), b.message, [Removal(n)]);
    Associative(ByItem(b.newItems, b.transfers), Removals(b.removed), [Removal(n)]);
    forall i | 0 <= i < |b.transfers| ensures Settled(Remove(b), items, maxMsgSize, i) {
      assert Settled(b, items, maxMsgSize, i);
      if i in b.dropped {
        SameNoRoom(b, Remove(b), maxMsgSize, i);
      }
    }
  }

  lemma RemovalGrows(message: Package, items: seq<bytes>, n: nat, maxMsgSize: nat)
    requires Closed(message) && WellPacked(message, items, maxMsgSize)
    requires Cost(message) + CHANGE_OVERHEAD <= maxMsgSize
    ensures WellPacked(message + [Removal(n)], items, maxMsgSize) && Closed(message + [Removal(n)])
    ensures Cost(message + [Removal(n)]) == Cost(message) + CHANGE_OVERHEAD
  {
    MessageGrows(message, items, Removal(n), maxMsgSize);
  }

  lemma RemovalsAppend(removed: seq<nat>, n: nat)
    ensures Removals(removed + [n]) == Removals(removed) + [Removal(n)]
  {
  }

  lemma {:induction false} CostOfRemovals(message: Package, removed: seq<nat>)
    ensures Cost(message + Removals(removed)) == Cost(message) + |removed| * CHANGE_OVERHEAD
  {
    if removed == [] {
      assert message + Removals([]) == message;
    } else {
      var pre, n := removed[..|removed| - 1], removed[|removed| - 1];
      CostOfRemovals(message, pre);
      RemovalsAppend(pre, n);
      assert removed == pre + [n];
      Associative(message, Removals(pre), [Removal(n)]);
      assert (message + Removals(pre) + [Removal(n)])[..|message + Removals(pre)|] == message + Removals(pre);
    }
  }

  /** The next deleted item is sent if it fits, and given up otherwise; then none of the later ones fits either. */
  lemma DeleteStep(b: Books, n: nat, maxMsgSize: nat)
    requires DeletesAccurate(b, b.message, n, maxMsgSize)
    ensures if IsTooBig(DELETE_ITEM_COMMAND_SIZE, maxMsgSize, Cost(b.message))
            then DeletesAccurate(b, b.message, n + 1, maxMsgSize)
            else |b.removed| == n && DeletesAccurate(Remove(b), Remove(b).message, n + 1, maxMsgSize)
  {
    hide Cost, IsTooBig, Fitting, Removals;
    var k := |b.removed|;
    var rest := b.message[..|b.message| - k];
    assert b.message == rest + Removals(b.removed);
    CostOfRemovals(rest, b.removed);
    FittingStops(maxMsgSize, Cost(rest), k);
    RemovalsAppend(b.removed, k);
    assert Numbers(k) + [k] == Numbers(k + 1);
    var message := Remove(b).message;
    assert message == rest + Removals(b.removed + [k]);
    assert message[..|message| - k - 1] == rest && message[|message| - k - 1..] == Removals(b.removed + [k]);
  }

  /** A deleted item is given up exactly if it did not fit behind the rest of the message and those before it. */
  lemma GivenUp(b: Books, message: Package, n: nat, maxMsgSize: nat, i: nat)
    requires DeletesAccurate(b, message, n, maxMsgSize) && i < n
    ensures var rest := message[..|message| - |b.removed|];
      i !in b.removed <==> 300 + 150 + Cost(rest) + i * 150 > maxMsgSize
  {
    hide Cost, Fitting, Removals;
    var k := |b.removed|;
    FittingStops(maxMsgSize, Cost(message[..|message| - k]), i);
    assert i < k ==> b.removed[i] == i;
  }
}
