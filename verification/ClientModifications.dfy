/**
  The part of `SyncManager::sync` that sends the changes of one source, for base64 transfer: the
  slow sync, which sends every item, and the two-way sync, which sends the new, the updated and
  the deleted items in this order. Aborts and transport failures, which leave the loops early,
  are not part of this model.
 */
module ClientModifications {
  import opened Options
  import opened Bytes
  import opened EncodingHelper
  import opened ItemReader
  import opened Packing
  import B64 = Base64

  /**
    The enumerations of a sync source. In a two-way sync the first `newItems` of the items are
    the new ones and the others the updated ones; of a deleted item only its number matters.
   */
  class ItemSource {
    const items: seq<bytes>
    const newItems: nat
    const deletedItems: nat
    var next: nat
    var nextDeleted: nat
    /** How often the enumeration was started from the beginning. */
    var starts: nat

    constructor (items: seq<bytes>, newItems: nat, deletedItems: nat)
      ensures this.items == items && this.newItems == newItems && this.deletedItems == deletedItems
      ensures next == 0 && nextDeleted == 0 && starts == 0
    {
      this.items, this.newItems, this.deletedItems := items, newItems, deletedItems;
      next, nextDeleted, starts := 0, 0, 0;
    }

    /** `getFirstItem` and `getFirstNewItem` begin from the first item whatever was fetched before. */
    method Restart()
      modifies this`next, this`starts
      ensures starts == old(starts) + 1 && next == 0
    {
      starts, next := starts + 1, 0;
    }

    /** The next item, if it comes before `limit`. */
    method GetNext(limit: nat) returns (item: SyncItem?)
      requires limit <= |items|
      modifies this`next
      ensures if old(next) < limit
              then item != null && fresh(item) && fresh(item.inputStream) && next == old(next) + 1 &&
                   item.data == item.inputStream.data == items[old(next)] &&
                   item.inputStream.Valid() && item.inputStream.position == 0
              else item == null && next == old(next)
    {
      if next < limit {
        item := new SyncItem(items[next]);
        next := next + 1;
      } else {
        item := null;
      }
    }

    method GetNextDeletedItem() returns (found: bool)
      modifies this`nextDeleted
      ensures found == (old(nextDeleted) < deletedItems)
      ensures nextDeleted == old(nextDeleted) + if found then 1 else 0
    {
      found := nextDeleted < deletedItems;
      if found {
        nextDeleted := nextDeleted + 1;
      }
    }
  }

  datatype Packed = Completed | Partial | Dropped

  class Sender {
    const maxMsgSize: nat
    const source: ItemSource
    const itemReader: Reader
    var syncItem: SyncItem?
    var tot: nat
    var step: nat
    var last: bool
    var message: Package
    var msgSize: nat
    var messages: seq<Package>
    ghost var books: Books

    /** The stream position of the item in progress. */
    ghost function Pending(): Option<nat>
      reads this, if syncItem == null then {} else {syncItem.inputStream}
    {
      if syncItem == null then None else Some(syncItem.inputStream.position)
    }

    ghost predicate Valid()
      reads this, source, itemReader, if syncItem == null then {} else {syncItem.inputStream}
    {
      itemReader.Valid() && maxMsgSize > 0 && source.newItems <= |source.items| &&
      books.message == message && books.messages == messages &&
      msgSize == Cost(message) && source.next == |books.transfers| <= |source.items| &&
      Accurate(books, source.items, maxMsgSize, Pending()) &&
      (syncItem != null ==>
        syncItem.data == syncItem.inputStream.data == source.items[source.next - 1] &&
        syncItem.inputStream.Valid() && books.removed == []) &&
      (Pending().Some? && Pending().value > 0 ==> maxMsgSize >= CHANGE_OVERHEAD + 4) &&
      Started(source.items, if Pending() == Some(0) then source.next - 1 else source.next, maxMsgSize)
    }

    /** The message is empty and the item in turn is too big for it all the same. */
    ghost predicate Stuck()
      reads this
    {
      message == [] && syncItem != null && IsItemTooBig(|syncItem.data|, maxMsgSize, 0)
    }

    /** The message is full, or the item in turn finds no room in it. */
    ghost predicate MessageEnds()
      reads this
    {
      msgSize >= maxMsgSize || (syncItem != null && IsItemTooBig(|syncItem.data|, maxMsgSize, msgSize))
    }

    /** What is still to be sent: items not settled, then bytes of the item in progress. */
    ghost function ItemsLeft(): int
      reads this, source
    {
      |source.items| - source.next + if syncItem == null then 0 else 1
    }

    ghost function BytesLeft(): int
      reads this, source, if syncItem == null then {} else {syncItem.inputStream}
    {
      if syncItem != null then |syncItem.data| - syncItem.inputStream.position
      else if source.next < |source.items| then |source.items[source.next]| + 1
      else 0
    }

    /** The first `newItems` items will be sent as new ones: none in a slow sync. */
    constructor (source: ItemSource, maxMsgSize: nat, ghost newItems: nat)
      requires maxMsgSize > 0 && source.newItems <= |source.items|
      requires source.next == source.nextDeleted == source.starts == 0
      ensures Valid() && this.maxMsgSize == maxMsgSize && this.source == source
      ensures syncItem == null && tot == 0 && step == 0 && !last && message == [] && messages == []
      ensures books == NoBooks(newItems) && fresh(itemReader) && fresh(itemReader.buffer)
    {
      this.maxMsgSize, this.source := maxMsgSize, source;
      itemReader := new Reader(maxMsgSize);
      syncItem, tot, step, last, message, msgSize, messages := null, 0, 0, false, [], 0, [];
      books := NoBooks(newItems);
    }

    /** Fetch the next item before `limit` unless one is in progress. */
    method FetchItem(limit: nat)
      requires Valid() && limit <= |source.items| && books.removed == []
      modifies this`syncItem, this`books, source`next
      ensures Valid() && books.removed == [] && books.newItems == old(books.newItems)
      ensures syncItem == old(syncItem) || (fresh(syncItem) && fresh(syncItem.inputStream))
      ensures old(syncItem) != null ==> syncItem == old(syncItem)
      ensures old(syncItem) == null && syncItem != null ==> syncItem.inputStream.position == 0
      ensures books == if old(syncItem) == null && syncItem != null then Fetch(old(books)) else old(books)
      ensures Grows(old(books), books)
      ensures source.next == old(source.next) + if old(syncItem) == null && syncItem != null then 1 else 0
      ensures old(syncItem) == null ==> (syncItem != null <==> old(source.next) < limit)
      ensures ItemsLeft() == old(ItemsLeft()) && BytesLeft() <= old(BytesLeft())
      ensures syncItem == null ==> source.next >= limit
    {
      hide Accurate, Grows, EndsWell, Cost;
      FetchGrows(books);
      if syncItem == null {
        AccurateCount(books, source.items, maxMsgSize, None);
        if source.next < limit {
          FetchKeepsBooks(books, source.items, maxMsgSize);
          books := Fetch(books);
        }
        syncItem := source.GetNext(limit);
      }
    }

    /**
      One turn of the packing loops for an item that is not too big for the message: make its
      next chunk and add it. The check that the chunk exceeds the message never holds.
     */
    method PackChunk(isNew: bool) returns (packed: Packed)
      requires isNew == (source.next - 1 < books.newItems)
      requires Valid() && syncItem != null && !IsItemTooBig(|syncItem.data|, maxMsgSize, msgSize)
      requires Closed(message) && (message != [] ==> syncItem.inputStream.position == 0)
      modifies this`syncItem, this`message, this`msgSize, this`books, syncItem.inputStream
      modifies itemReader, itemReader.buffer
      ensures Valid() && books.removed == [] && books.newItems == old(books.newItems)
      ensures fresh(itemReader.buffer) || itemReader.buffer == old(itemReader.buffer)
      ensures var room := maxMsgSize - CHANGE_OVERHEAD - old(msgSize);
        var data, p := old(syncItem).data, old(syncItem.inputStream.position);
        && room >= 0 && p <= |data| && old(books).transfers != []
        && (packed.Dropped? <==> room < 4 && data != [])
        && (packed.Dropped? <==> NextChunk(data, p, room).None?)
        && (packed.Dropped? ==> books == Drop(old(books)))
        && (!packed.Dropped? ==>
             && books == Send(old(books), NextChunk(data, p, room).value)
             && message == old(message) + [Upload(source.next - 1, isNew, NextChunk(data, p, room).value)]
             && msgSize == old(msgSize) + CHANGE_OVERHEAD + |NextChunk(data, p, room).value.data|
             && (packed.Completed? <==> NextChunk(data, p, room).value.last))
      ensures Grows(old(books), books)
      ensures packed.Completed? ==> syncItem == null && Closed(message)
      ensures packed.Partial? ==>
        syncItem == old(syncItem) && BytesLeft() < old(BytesLeft()) && maxMsgSize < CHANGE_OVERHEAD + msgSize
      ensures packed.Dropped? ==> syncItem == null && message == old(message)
    {
      hide Accurate, Grows, EndsWell, Cost, Closed, Transfer, NextChunk, PieceEnd, Started, IsItemTooBig, B64.Encode;
      hide MaxDataSizeToEncode, DataSizeAfterEncoding, PercMaxMsgSize;
      ghost var p, room := syncItem.inputStream.position, maxMsgSize - CHANGE_OVERHEAD - msgSize;
      RoomLeft(|syncItem.data|, maxMsgSize, msgSize);
      AccurateCount(books, source.items, maxMsgSize, Some(p));
      StillToSend(books, source.items, maxMsgSize, p);
      if p == 0 {
        OneMoreStarted(source.items, source.next - 1, maxMsgSize, msgSize);
      }
      ChunkFits(syncItem.data, p, room);
      assert syncItem.data == source.items[|books.transfers| - 1];
      itemReader.SetSyncItem(syncItem);
      var chunk := itemReader.GetNextChunk(maxMsgSize - CHANGE_OVERHEAD - msgSize);
      if chunk.None? {
        NoChunk(books, source.items, maxMsgSize, p, room);
        DropKeepsBooks(books, source.items, maxMsgSize);
        DropGrows(books, source.items, maxMsgSize, 0);
        books := Drop(books);
        syncItem := null;
        return Dropped;
      }
      ChunkSent(books, source.items, maxMsgSize, p, room);
      SendGrows(books, chunk.value);
      PartialChunk(syncItem.data, p, room);
      if IsTooBig(|chunk.value.data|, maxMsgSize, msgSize) {
        assert false;
      }
      msgSize := msgSize + CHANGE_OVERHEAD + |chunk.value.data|;
      message := message + [Upload(source.next - 1, isNew, chunk.value)];
      books := Send(books, chunk.value);
      if chunk.value.last {
        syncItem := null;
        packed := Completed;
      } else {
        packed := Partial;
      }
    }

    /** If no item is too big for an empty message, the sender never gets stuck. */
    lemma NeverStuck()
      requires Valid() && AllStart(source.items, maxMsgSize)
      ensures !Stuck()
    {
      hide IsItemTooBig, Accurate, Cost;
      AccurateCount(books, source.items, maxMsgSize, Pending());
    }

    /** One message of a slow sync. */
    method PackSlow()
      requires Valid() && books.removed == [] && message == [] && !last && books.newItems == 0
      requires if source.starts == 0 then syncItem == null && tot == 0 && source.next == 0
               else source.starts == 1 && (syncItem != null || tot > 0)
      modifies this, source, itemReader, itemReader.buffer, if syncItem == null then {} else {syncItem.inputStream}
      ensures Valid() && books.removed == [] && messages == old(messages) && source.starts == 1 && books.newItems == 0
      ensures fresh(itemReader.buffer) || itemReader.buffer == old(itemReader.buffer)
      ensures syncItem == old(syncItem) || (fresh(syncItem) && fresh(syncItem.inputStream)) || syncItem == null
      ensures last ==> syncItem == null && source.next == |source.items| && msgSize < maxMsgSize
      ensures !last ==> MessageEnds() && (syncItem != null || tot > 0)
      ensures Grows(old(books), books)
      ensures !last && !Stuck() ==>
        message != [] &&
        (ItemsLeft() < old(ItemsLeft()) || (ItemsLeft() == old(ItemsLeft()) && BytesLeft() < old(BytesLeft())))
      ensures old(Stuck()) ==> Stuck() && !last && Unchanged()
    {
      hide Accurate, Grows, EndsWell, Cost, Closed, IsItemTooBig, Started, NextChunk, PieceEnd, Send, Drop;
      EmptyMessage();
      FetchGrows(books);
      if syncItem == null && tot == 0 {
        source.Restart();
        FetchItem(|source.items|);
      }
      tot := 0;
      var more := true;
      while more
        invariant Valid() && books.removed == [] && messages == old(messages) && source.starts == 1
        invariant books.newItems == 0
        invariant fresh(itemReader.buffer) || itemReader.buffer == old(itemReader.buffer)
        invariant syncItem == old(syncItem) || (fresh(syncItem) && fresh(syncItem.inputStream)) || syncItem == null
        invariant more ==> !last && Closed(message) && (message != [] ==> syncItem == null)
        invariant more || last ==> msgSize < maxMsgSize
        invariant message != [] && syncItem == null ==> tot > 0
        invariant last ==> syncItem == null && source.next == |source.items|
        invariant !more && !last ==> MessageEnds() && ((message != [] && (syncItem != null || tot > 0)) || Stuck())
        invariant Grows(old(books), books)
        invariant ItemsLeft() < old(ItemsLeft()) || (ItemsLeft() == old(ItemsLeft()) && BytesLeft() <= old(BytesLeft()))
        invariant message != [] ==>
          ItemsLeft() < old(ItemsLeft()) || (ItemsLeft() == old(ItemsLeft()) && BytesLeft() < old(BytesLeft()))
        invariant old(Stuck()) ==> Stuck() && !last && Unchanged()
        decreases more, ItemsLeft()
      {
        ghost var before := books;
        more := SlowTurn();
        GrowsOn(old(books), before, books);
      }
    }

    /** The books, the item in turn and its position are as they were. */
    twostate predicate Unchanged()
      reads this, source, if syncItem == null then {} else {syncItem.inputStream}
    {
      books == old(books) && syncItem == old(syncItem) && source.next == old(source.next) &&
      (syncItem != null ==> syncItem.inputStream.position == old(syncItem.inputStream.position))
    }

    /** One turn of the loop of `PackSlow`: the next item, or the next chunk of one, if it finds room. */
    method SlowTurn() returns (more: bool)
      requires Valid() && books.removed == [] && !last && books.newItems == 0
      requires Closed(message) && (message != [] ==> syncItem == null && tot > 0) && msgSize < maxMsgSize
      modifies this, source, itemReader, itemReader.buffer, if syncItem == null then {} else {syncItem.inputStream}
      ensures Valid() && books.removed == [] && messages == old(messages) && source.starts == old(source.starts) &&
        books.newItems == 0
      ensures fresh(itemReader.buffer) || itemReader.buffer == old(itemReader.buffer)
      ensures syncItem == old(syncItem) || (fresh(syncItem) && fresh(syncItem.inputStream)) || syncItem == null
      ensures more ==> !last && Closed(message) && syncItem == null && ItemsLeft() < old(ItemsLeft())
      ensures more || last ==> msgSize < maxMsgSize
      ensures message != [] && syncItem == null ==> tot > 0
      ensures last ==> syncItem == null && source.next == |source.items|
      ensures !more && !last ==> MessageEnds() && ((message != [] && (syncItem != null || tot > 0)) || Stuck())
      ensures old(message) != [] ==> message != []
      ensures Grows(old(books), books)
      ensures ItemsLeft() < old(ItemsLeft()) || (ItemsLeft() == old(ItemsLeft()) && BytesLeft() <= old(BytesLeft()))
      ensures old(message) == [] && message != [] ==>
        ItemsLeft() < old(ItemsLeft()) || (ItemsLeft() == old(ItemsLeft()) && BytesLeft() < old(BytesLeft()))
      ensures old(Stuck()) ==> Stuck() && !more && !last && Unchanged()
    {
      hide Accurate, Grows, EndsWell, Cost, Closed, Started, IsItemTooBig, NextChunk, PieceEnd, Send, Drop;
      EmptyMessage();
      FetchGrows(books);
      FetchItem(|source.items|);
      ghost var fetched := books;
      if syncItem == null {
        last, more := true, false;
      } else if IsItemTooBig(|syncItem.data|, maxMsgSize, msgSize) {
        more := false;
      } else {
        RoomLeft(|syncItem.data|, maxMsgSize, msgSize);
        AccurateCount(books, source.items, maxMsgSize, Pending());
        var packed := PackChunk(false);
        GrowsOn(old(books), fetched, books);
        if packed.Partial? {
          NoRoom(maxMsgSize, msgSize);
          more := false;
        } else {
          if packed.Completed? {
            tot := tot + 1;
          }
          more := msgSize < maxMsgSize;
        }
      }
    }

    /** The message is sent; the next one starts empty. */
    method PostMessage()
      requires Valid()
      modifies this`messages, this`message, this`msgSize, this`books
      ensures Valid() && messages == old(messages) + [old(message)] && message == []
      ensures books == Post(old(books))
      ensures Grows(old(books), books)
      ensures old(MessageEnds()) ==> EndsWell(books, source.items, maxMsgSize, |messages| - 1)
    {
      hide Accurate, Grows, EndsWell, Cost, IsItemTooBig, Started;
      AccurateCount(books, source.items, maxMsgSize, Pending());
      if MessageEnds() {
        PostEndsWell(books, source.items, maxMsgSize, Pending());
      }
      PostKeepsBooks(books, source.items, maxMsgSize, Pending());
      EmptyMessage();
      messages, message, msgSize := messages + [message], [], 0;
      books := Post(books);
    }

    /** The next items before `limit` are all new, or none of them is. */
    ghost predicate InTurn(limit: nat, isNew: bool)
      reads this`books, this`syncItem, source`next
    {
      if isNew then source.next <= limit <= books.newItems
      else source.next >= books.newItems + if syncItem == null then 0 else 1
    }

    /** The loop of the new and of the updated items in one message of a two-way sync. */
    method PackItems(limit: nat, isNew: bool) returns (exhausted: bool)
      requires InTurn(limit, isNew)
      requires Valid() && books.removed == [] && limit <= |source.items| && msgSize < maxMsgSize
      requires Closed(message) && (message != [] && syncItem != null ==> syncItem.inputStream.position == 0)
      modifies this`syncItem, this`tot, this`message, this`msgSize, this`books, source`next
      modifies itemReader, itemReader.buffer, if syncItem == null then {} else {syncItem.inputStream}
      ensures Valid() && books.removed == [] && messages == old(messages) && InTurn(limit, isNew) &&
        books.newItems == old(books.newItems)
      ensures fresh(itemReader.buffer) || itemReader.buffer == old(itemReader.buffer)
      ensures syncItem == old(syncItem) || (fresh(syncItem) && fresh(syncItem.inputStream)) || syncItem == null
      ensures exhausted ==>
        syncItem == null && source.next >= limit && Closed(message) && msgSize < maxMsgSize
      ensures !exhausted ==> MessageEnds() && (message != [] || Stuck())
      ensures Grows(old(books), books)
      ensures !exhausted && !Stuck() && old(message) == [] ==>
        ItemsLeft() < old(ItemsLeft()) || (ItemsLeft() == old(ItemsLeft()) && BytesLeft() < old(BytesLeft()))
      ensures old(Stuck()) ==> Stuck() && !exhausted && Unchanged()
    {
      hide Accurate, Grows, EndsWell, Cost, Closed, Started, IsItemTooBig, NextChunk, PieceEnd, Send, Drop;
      EmptyMessage();
      FetchGrows(books);
      exhausted := false;
      var more := true;
      while more
        invariant Valid() && books.removed == [] && messages == old(messages) && InTurn(limit, isNew) &&
        books.newItems == old(books.newItems)
        invariant fresh(itemReader.buffer) || itemReader.buffer == old(itemReader.buffer)
        invariant syncItem == old(syncItem) || (fresh(syncItem) && fresh(syncItem.inputStream)) || syncItem == null
        invariant more ==> msgSize < maxMsgSize
        invariant more ==>
          if syncItem == null then Closed(message)
          else if maxMsgSize < CHANGE_OVERHEAD + msgSize && message != [] then true
          else Closed(message) && (message != [] ==> syncItem.inputStream.position == 0)
        invariant exhausted ==>
          !more && syncItem == null && source.next >= limit && Closed(message) && msgSize < maxMsgSize
        invariant !more && !exhausted ==> MessageEnds() && (message != [] || Stuck())
        invariant Grows(old(books), books)
        invariant ItemsLeft() < old(ItemsLeft()) || (ItemsLeft() == old(ItemsLeft()) && BytesLeft() <= old(BytesLeft()))
        invariant message != [] && old(message) == [] ==>
          ItemsLeft() < old(ItemsLeft()) || (ItemsLeft() == old(ItemsLeft()) && BytesLeft() < old(BytesLeft()))
        invariant old(Stuck()) ==> Stuck() && !exhausted && Unchanged()
        decreases more, ItemsLeft(), if maxMsgSize < CHANGE_OVERHEAD + msgSize then 0 else 1
      {
        ghost var before := books;
        exhausted, more := ItemsTurn(limit, isNew);
        GrowsOn(old(books), before, books);
      }
    }

    /** One turn of the loop of `PackItems`. */
    method ItemsTurn(limit: nat, isNew: bool) returns (exhausted: bool, more: bool)
      requires InTurn(limit, isNew)
      requires Valid() && books.removed == [] && limit <= |source.items| && msgSize < maxMsgSize
      requires if syncItem == null then Closed(message)
               else if maxMsgSize < CHANGE_OVERHEAD + msgSize && message != [] then true
               else Closed(message) && (message != [] ==> syncItem.inputStream.position == 0)
      modifies this`syncItem, this`tot, this`message, this`msgSize, this`books, source`next
      modifies itemReader, itemReader.buffer, if syncItem == null then {} else {syncItem.inputStream}
      ensures Valid() && books.removed == [] && messages == old(messages) && InTurn(limit, isNew) &&
        books.newItems == old(books.newItems)
      ensures fresh(itemReader.buffer) || itemReader.buffer == old(itemReader.buffer)
      ensures syncItem == old(syncItem) || (fresh(syncItem) && fresh(syncItem.inputStream)) || syncItem == null
      ensures exhausted ==>
        !more && syncItem == null && source.next >= limit && Closed(message) && message == old(message) &&
        msgSize == old(msgSize)
      ensures !exhausted && !more ==> MessageEnds() && (message != [] || Stuck())
      ensures Grows(old(books), books)
      ensures more ==>
        msgSize < maxMsgSize && if syncItem == null then Closed(message) else maxMsgSize < CHANGE_OVERHEAD + msgSize
      ensures more && syncItem != null ==> message != []
      ensures old(message) != [] ==> message != []
      ensures ItemsLeft() < old(ItemsLeft()) || (ItemsLeft() == old(ItemsLeft()) && BytesLeft() <= old(BytesLeft()))
      ensures old(message) == [] && message != [] ==>
        ItemsLeft() < old(ItemsLeft()) || (ItemsLeft() == old(ItemsLeft()) && BytesLeft() < old(BytesLeft()))
      ensures more ==>
        ItemsLeft() < old(ItemsLeft()) ||
        (ItemsLeft() == old(ItemsLeft()) && CHANGE_OVERHEAD + old(msgSize) <= maxMsgSize < CHANGE_OVERHEAD + msgSize)
      ensures old(Stuck()) ==> Stuck() && !exhausted && !more && Unchanged()
    {
      hide Accurate, Grows, EndsWell, Cost, Closed, IsItemTooBig, Started, NextChunk, PieceEnd, Send, Drop;
      EmptyMessage();
      FetchGrows(books);
      if maxMsgSize < CHANGE_OVERHEAD + msgSize {
        NoRoom(maxMsgSize, msgSize);
      }
      FetchItem(limit);
      ghost var fetched := books;
      if syncItem == null {
        exhausted, more := true, false;
      } else if IsItemTooBig(|syncItem.data|, maxMsgSize, msgSize) {
        exhausted, more := false, false;
      } else {
        RoomLeft(|syncItem.data|, maxMsgSize, msgSize);
        var packed := PackChunk(isNew);
        GrowsOn(old(books), fetched, books);
        if !packed.Dropped? {
          tot := tot + 1;
        }
        exhausted, more := false, msgSize < maxMsgSize;
      }
    }

    /**
      The loop of the deleted items. Once one does not fit it is given up, and so are all behind it:
      the message stays as it is, and the loop goes on to the end of the list.
     */
    method PackDeletes(found: bool) returns (exhausted: bool)
      requires Valid() && syncItem == null && source.next == |source.items| && Closed(message) &&
        msgSize < maxMsgSize
      requires source.nextDeleted <= source.deletedItems && source.nextDeleted == if found then 1 else 0
      requires books.removed == []
      modifies this`tot, this`message, this`msgSize, this`books, source`nextDeleted
      ensures Valid() && Closed(message) && messages == old(messages) && books.newItems == old(books.newItems)
      ensures exhausted && source.nextDeleted == source.deletedItems
      ensures DeletesAccurate(books, message, source.deletedItems, maxMsgSize) && msgSize < maxMsgSize
      ensures Grows(old(books), books)
    {
      hide Accurate, Grows, EndsWell, Cost, Closed, DeletesAccurate;
      NoDeletes(books, maxMsgSize);
      FetchGrows(books);
      exhausted := false;
      var pending, more := found, true;
      while more
        invariant Valid() && Closed(message) && messages == old(messages) && msgSize < maxMsgSize
        invariant books.newItems == old(books.newItems)
        invariant source.nextDeleted <= source.deletedItems && (pending ==> source.nextDeleted > 0)
        invariant DeletesAccurate(books, message, source.nextDeleted - if pending then 1 else 0, maxMsgSize)
        invariant more <==> !exhausted
        invariant Grows(old(books), books)
        invariant exhausted ==> !pending && source.nextDeleted == source.deletedItems
        decreases more, source.deletedItems - source.nextDeleted, pending
      {
        if !pending {
          pending := source.GetNextDeletedItem();
        }
        if !pending {
          exhausted, more := true, false;
        } else {
          DeleteStep(books, source.nextDeleted - 1, maxMsgSize);
          if !IsTooBig(DELETE_ITEM_COMMAND_SIZE, maxMsgSize, msgSize) {
            RemoveKeepsBooks(books, source.items, maxMsgSize);
            RemoveGrows(old(books), books);
            books := Remove(books);
            msgSize := msgSize + CHANGE_OVERHEAD;
            message := message + [Removal(source.nextDeleted - 1)];
            tot := tot + 1;
          }
          pending := false;
          more := msgSize < maxMsgSize;
        }
      }
    }

    /** Where a two-way sync stands in its six steps. */
    ghost predicate Stage()
      reads this, source, itemReader, if syncItem == null then {} else {syncItem.inputStream}
    {
      Valid() && books.newItems == source.newItems && step <= 6 &&
      (step <= 1 ==> source.next <= source.newItems) &&
      (step >= 2 ==> source.next >= source.newItems + if syncItem == null then 0 else 1) &&
      source.nextDeleted <= source.deletedItems &&
      (step == 0 ==> source.starts == 0 && source.next == 0 && syncItem == null) &&
      (step > 0 ==> source.starts == 1) &&
      (step < 5 ==> source.nextDeleted == 0 && books.removed == []) &&
      (step in {2, 4, 5} ==> msgSize < maxMsgSize) &&
      (step in {2, 4, 5, 6} ==> syncItem == null && Closed(message)) &&
      (step >= 4 ==> source.next == |source.items|)
    }

    /** Steps 0 and 1. */
    method PackNew()
      requires Stage() && step <= 1 && message == []
      modifies this, source, itemReader, itemReader.buffer, if syncItem == null then {} else {syncItem.inputStream}
      ensures Stage() && messages == old(messages) && last == old(last) && old(step) <= step && 1 <= step <= 2
      ensures fresh(itemReader.buffer) || itemReader.buffer == old(itemReader.buffer)
      ensures syncItem == old(syncItem) || (fresh(syncItem) && fresh(syncItem.inputStream)) || syncItem == null
      ensures step == 1 ==> MessageEnds() && (message != [] || Stuck())
      ensures Grows(old(books), books)
      ensures step == old(step) && !Stuck() ==>
        ItemsLeft() < old(ItemsLeft()) || (ItemsLeft() == old(ItemsLeft()) && BytesLeft() < old(BytesLeft()))
      ensures old(Stuck()) && old(step) in {1, 3} ==> step == old(step) && Stuck() && Unchanged()
    {
      hide Accurate, Grows, EndsWell, Cost, Closed;
      EmptyMessage();
      FetchGrows(books);
      if step == 0 {
        source.Restart();
        FetchItem(source.newItems);
        step := step + 1;
        if syncItem == null {
          step := step + 1;
        }
      }
      if step == 1 {
        ghost var fetched := books;
        var exhausted := PackItems(source.newItems, true);
        GrowsOn(old(books), fetched, books);
        if exhausted {
          step := step + 1;
        }
      }
    }

    /** Steps 2 and 3. */
    method PackUpdated()
      requires Stage() && 2 <= step <= 3 && (step == 3 ==> message == [])
      modifies this, source, itemReader, itemReader.buffer, if syncItem == null then {} else {syncItem.inputStream}
      ensures Stage() && messages == old(messages) && last == old(last) && old(step) <= step && 3 <= step <= 4
      ensures fresh(itemReader.buffer) || itemReader.buffer == old(itemReader.buffer)
      ensures syncItem == old(syncItem) || (fresh(syncItem) && fresh(syncItem.inputStream)) || syncItem == null
      ensures step in {1, 3} ==> MessageEnds() && (message != [] || Stuck())
      ensures Grows(old(books), books)
      ensures step == old(step) && !Stuck() ==>
        ItemsLeft() < old(ItemsLeft()) || (ItemsLeft() == old(ItemsLeft()) && BytesLeft() < old(BytesLeft()))
      ensures old(Stuck()) && old(step) in {1, 3} ==> step == old(step) && Stuck() && Unchanged()
    {
      hide Accurate, Grows, EndsWell, Cost, Closed;
      EmptyMessage();
      FetchGrows(books);
      if step == 2 {
        FetchItem(|source.items|);
        step := step + 1;
        if syncItem == null {
          step := step + 1;
        }
      }
      if step == 3 {
        ghost var fetched := books;
        var exhausted := PackItems(|source.items|, false);
        GrowsOn(old(books), fetched, books);
        if exhausted {
          step := step + 1;
        }
      }
    }

    /** Steps 4 and 5, which are always done in one message. */
    method PackDeleted()
      requires Stage() && step == 4
      modifies this, source`nextDeleted
      ensures Stage() && messages == old(messages) && last == old(last) && step == 6
      ensures Grows(old(books), books)
      ensures DeletesAccurate(books, message, source.deletedItems, maxMsgSize) && msgSize < maxMsgSize
    {
      hide Accurate, Grows, EndsWell, Cost, Closed, DeletesAccurate;
      NoDeletes(books, maxMsgSize);
      FetchGrows(books);
      var found := source.GetNextDeletedItem();
      step := step + 1;
      if !found {
        step := step + 1;
      }
      if step == 5 {
        var exhausted := PackDeletes(found);
        if exhausted {
          step := step + 1;
        }
      }
    }

    /** One message of a two-way sync, through as many of its steps as there is room for. */
    method PackTwoWay()
      requires Stage() && message == [] && step in {0, 1, 3}
      modifies this, source, itemReader, itemReader.buffer, if syncItem == null then {} else {syncItem.inputStream}
      ensures Stage() && messages == old(messages) && old(step) <= step && step in {1, 3, 6}
      ensures last == (step == 6 || old(last))
      ensures fresh(itemReader.buffer) || itemReader.buffer == old(itemReader.buffer)
      ensures syncItem == old(syncItem) || (fresh(syncItem) && fresh(syncItem.inputStream)) || syncItem == null
      ensures step != 6 ==> MessageEnds() && (message != [] || Stuck())
      ensures Grows(old(books), books)
      ensures step == old(step) && !Stuck() ==>
        ItemsLeft() < old(ItemsLeft()) || (ItemsLeft() == old(ItemsLeft()) && BytesLeft() < old(BytesLeft()))
      ensures step == 6 ==> DeletesAccurate(books, message, source.deletedItems, maxMsgSize) && msgSize < maxMsgSize
      ensures old(Stuck()) && old(step) in {1, 3} ==> step == old(step) && Stuck() && Unchanged()
    {
      hide Accurate, Grows, EndsWell, Cost, Closed, DeletesAccurate;
      FetchGrows(books);
      tot := 0;
      if step <= 1 {
        PackNew();
      }
      ghost var before := books;
      if 2 <= step <= 3 {
        PackUpdated();
        GrowsOn(old(books), before, books);
      }
      before := books;
      if 4 <= step <= 5 {
        PackDeleted();
        GrowsOn(old(books), before, books);
      }
      if step == 6 && syncItem == null {
        last := true;
      }
    }

    lemma EmptyMessage()
      ensures Cost([]) == 0 && Closed([])
    {
    }
  }

  /**
    All messages of a slow sync, if no item is too big for an empty message: the loop ends, and the books
    show where every item went.
   */
  method SlowSync(source: ItemSource, maxMsgSize: nat) returns (messages: seq<Package>, ghost books: Books)
    requires maxMsgSize > 0 && AllStart(source.items, maxMsgSize) && source.newItems <= |source.items|
    requires source.next == source.nextDeleted == source.starts == 0
    modifies source
    ensures source.starts == 1 && books.messages == messages
    ensures Accurate(books, source.items, maxMsgSize, None)
    ensures |books.transfers| == |source.items| && books.message == [] && books.removed == [] && books.newItems == 0
    ensures messages != [] && forall i | 0 <= i < |messages| - 1 :: messages[i] != []
    ensures forall i | 0 <= i < |messages| - 1 :: EndsWell(books, source.items, maxMsgSize, i)
    ensures Cost(messages[|messages| - 1]) < maxMsgSize
  {
    hide Accurate, Grows, EndsWell, Cost, IsItemTooBig, Started, AllStart;
    var sender := new Sender(source, maxMsgSize, 0);
    while !sender.last
      invariant sender.source == source && sender.maxMsgSize == maxMsgSize
      invariant sender.Valid() && sender.books.removed == [] && sender.message == [] && sender.books.newItems == 0
      invariant fresh(sender) && fresh(sender.itemReader) && fresh(sender.itemReader.buffer)
      invariant sender.syncItem != null ==> fresh(sender.syncItem.inputStream)
      invariant if source.starts == 0
                then sender.messages == [] && sender.syncItem == null && sender.tot == 0 && source.next == 0
                else source.starts == 1 && (!sender.last ==> sender.syncItem != null || sender.tot > 0)
      invariant sender.last ==>
        sender.syncItem == null && source.next == |source.items| && sender.messages != [] &&
        Cost(sender.messages[|sender.messages| - 1]) < maxMsgSize
      invariant forall i | 0 <= i < |sender.messages| - (if sender.last then 1 else 0) ::
        sender.messages[i] != [] && EndsWell(sender.books, source.items, maxMsgSize, i)
      decreases !sender.last, sender.ItemsLeft(), sender.BytesLeft()
    {
      ghost var before := sender.books;
      sender.PackSlow();
      sender.NeverStuck();
      ghost var packed := sender.books;
      sender.PostMessage();
      MessagesStay(before, packed, sender.books, source.items, maxMsgSize);
    }
    messages, books := sender.messages, sender.books;
  }

  /**
    The first `n` messages of a slow sync of any items: the loop can only end if no item is too big for
    an empty message. Otherwise it gets stuck, and then all further messages are empty.
   */
  method SlowMessages(source: ItemSource, maxMsgSize: nat, n: nat) returns (ended: bool, messages: seq<Package>)
    requires maxMsgSize > 0 && source.newItems <= |source.items|
    requires source.next == source.nextDeleted == source.starts == 0
    modifies source
    ensures ended ==> AllStart(source.items, maxMsgSize)
    ensures !ended ==> |messages| == n
    ensures forall i, j | 0 <= i < j < |messages| && messages[i] == [] :: messages[j] == []
  {
    hide Accurate, Grows, EndsWell, Cost, IsItemTooBig, Started, AllStart;
    var sender := new Sender(source, maxMsgSize, 0);
    messages := [];
    while |messages| < n && !sender.last
      invariant |messages| <= n && sender.messages == messages
      invariant sender.source == source && sender.maxMsgSize == maxMsgSize
      invariant sender.Valid() && sender.books.removed == [] && sender.message == [] && sender.books.newItems == 0
      invariant fresh(sender) && fresh(sender.itemReader) && fresh(sender.itemReader.buffer)
      invariant sender.syncItem != null ==> fresh(sender.syncItem.inputStream)
      invariant if source.starts == 0
                then sender.messages == [] && sender.syncItem == null && sender.tot == 0 && source.next == 0
                else source.starts == 1 && (!sender.last ==> sender.syncItem != null || sender.tot > 0)
      invariant sender.last ==> sender.syncItem == null && source.next == |source.items|
      invariant forall i | 0 <= i < |messages| && messages[i] == [] :: sender.last || sender.Stuck()
      invariant forall i, j | 0 <= i < j < |messages| && messages[i] == [] :: messages[j] == []
      decreases n - |messages|
    {
      sender.PackSlow();
      sender.PostMessage();
      messages := sender.messages;
    }
    AllStarted(source.items, maxMsgSize);
    ended := sender.last;
  }

  /** If some item is too big for an empty message, an empty message comes in the end. */
  method SlowGetsStuck(source: ItemSource, maxMsgSize: nat) returns (messages: seq<Package>)
    requires maxMsgSize > 0 && !AllStart(source.items, maxMsgSize) && source.newItems <= |source.items|
    requires source.next == source.nextDeleted == source.starts == 0
    modifies source
    ensures messages != [] && messages[|messages| - 1] == []
  {
    hide Accurate, Grows, EndsWell, Cost, IsItemTooBig, Started, AllStart;
    AllStarted(source.items, maxMsgSize);
    var sender := new Sender(source, maxMsgSize, 0);
    var empty := false;
    while !empty
      invariant sender.source == source && sender.maxMsgSize == maxMsgSize && !sender.last
      invariant sender.Valid() && sender.books.removed == [] && sender.message == [] && sender.books.newItems == 0
      invariant fresh(sender) && fresh(sender.itemReader) && fresh(sender.itemReader.buffer)
      invariant sender.syncItem != null ==> fresh(sender.syncItem.inputStream)
      invariant if source.starts == 0
                then sender.messages == [] && sender.syncItem == null && sender.tot == 0 && source.next == 0
                else source.starts == 1 && (sender.syncItem != null || sender.tot > 0)
      invariant empty ==> sender.messages != [] && sender.messages[|sender.messages| - 1] == []
      decreases !empty, sender.ItemsLeft(), sender.BytesLeft()
    {
      sender.PackSlow();
      empty := sender.message == [];
      sender.PostMessage();
    }
    messages := sender.messages;
  }

  /** All messages of a two-way sync, if no item is too big for an empty message. */
  method TwoWaySync(source: ItemSource, maxMsgSize: nat) returns (messages: seq<Package>, ghost books: Books)
    requires maxMsgSize > 0 && AllStart(source.items, maxMsgSize) && source.newItems <= |source.items|
    requires source.next == source.nextDeleted == source.starts == 0
    modifies source
    ensures source.starts == 1 && books.messages == messages
    ensures Accurate(books, source.items, maxMsgSize, None)
    ensures |books.transfers| == |source.items| && books.message == [] && books.newItems == source.newItems
    ensures messages != [] && DeletesAccurate(books, messages[|messages| - 1], source.deletedItems, maxMsgSize)
    ensures forall i | 0 <= i < |messages| - 1 :: messages[i] != []
    ensures forall i | 0 <= i < |messages| - 1 :: EndsWell(books, source.items, maxMsgSize, i)
    ensures Cost(messages[|messages| - 1]) < maxMsgSize
  {
    hide Accurate, Grows, EndsWell, Cost, DeletesAccurate, IsItemTooBig, Started, AllStart;
    var sender := new Sender(source, maxMsgSize, source.newItems);
    while !sender.last
      invariant sender.source == source && sender.maxMsgSize == maxMsgSize
      invariant sender.Stage() && sender.message == [] && sender.step in {0, 1, 3, 6}
      invariant sender.last == (sender.step == 6)
      invariant sender.last ==>
        sender.messages != [] && Cost(sender.messages[|sender.messages| - 1]) < maxMsgSize &&
        DeletesAccurate(sender.books, sender.messages[|sender.messages| - 1], source.deletedItems, maxMsgSize)
      invariant forall i | 0 <= i < |sender.messages| - (if sender.last then 1 else 0) ::
        sender.messages[i] != [] && EndsWell(sender.books, source.items, maxMsgSize, i)
      invariant fresh(sender) && fresh(sender.itemReader) && fresh(sender.itemReader.buffer)
      invariant sender.syncItem != null ==> fresh(sender.syncItem.inputStream)
      decreases 6 - sender.step, sender.ItemsLeft(), sender.BytesLeft()
    {
      ghost var before := sender.books;
      sender.PackTwoWay();
      sender.NeverStuck();
      ghost var packed, message := sender.books, sender.message;
      sender.PostMessage();
      MessagesStay(before, packed, sender.books, source.items, maxMsgSize);
      PostKeepsDeletes(packed, message, source.deletedItems, maxMsgSize);
    }
    messages, books := sender.messages, sender.books;
  }

  /** The same for the first `n` messages of a two-way sync of any items. */
  method TwoWayMessages(source: ItemSource, maxMsgSize: nat, n: nat) returns (ended: bool, messages: seq<Package>)
    requires maxMsgSize > 0 && source.newItems <= |source.items|
    requires source.next == source.nextDeleted == source.starts == 0
    modifies source
    ensures ended ==> AllStart(source.items, maxMsgSize)
    ensures !ended ==> |messages| == n
    ensures forall i, j | 0 <= i < j < |messages| && messages[i] == [] :: messages[j] == []
  {
    hide Accurate, Grows, EndsWell, Cost, DeletesAccurate, IsItemTooBig, Started, AllStart;
    var sender := new Sender(source, maxMsgSize, source.newItems);
    messages := [];
    while |messages| < n && !sender.last
      invariant |messages| <= n && sender.messages == messages
      invariant sender.source == source && sender.maxMsgSize == maxMsgSize
      invariant sender.Stage() && sender.message == [] && sender.step in {0, 1, 3, 6}
      invariant sender.last == (sender.step == 6)
      invariant fresh(sender) && fresh(sender.itemReader) && fresh(sender.itemReader.buffer)
      invariant sender.syncItem != null ==> fresh(sender.syncItem.inputStream)
      invariant forall i | 0 <= i < |messages| && messages[i] == [] ::
        sender.last || (sender.Stuck() && sender.step in {1, 3})
      invariant forall i, j | 0 <= i < j < |messages| && messages[i] == [] :: messages[j] == []
      decreases n - |messages|
    {
      sender.PackTwoWay();
      sender.PostMessage();
      messages := sender.messages;
    }
    AllStarted(source.items, maxMsgSize);
    ended := sender.last;
  }

  /** The same for a two-way sync. */
  method TwoWayGetsStuck(source: ItemSource, maxMsgSize: nat) returns (messages: seq<Package>)
    requires maxMsgSize > 0 && !AllStart(source.items, maxMsgSize) && source.newItems <= |source.items|
    requires source.next == source.nextDeleted == source.starts == 0
    modifies source
    ensures messages != [] && messages[|messages| - 1] == []
  {
    hide Accurate, Grows, EndsWell, Cost, DeletesAccurate, IsItemTooBig, Started, AllStart;
    AllStarted(source.items, maxMsgSize);
    var sender := new Sender(source, maxMsgSize, source.newItems);
    var empty := false;
    while !empty
      invariant sender.source == source && sender.maxMsgSize == maxMsgSize && !sender.last
      invariant sender.Stage() && sender.message == [] && sender.step in {0, 1, 3}
      invariant fresh(sender) && fresh(sender.itemReader) && fresh(sender.itemReader.buffer)
      invariant sender.syncItem != null ==> fresh(sender.syncItem.inputStream)
      invariant empty ==> sender.messages != [] && sender.messages[|sender.messages| - 1] == []
      decreases !empty, 6 - sender.step, sender.ItemsLeft(), sender.BytesLeft()
    {
      sender.PackTwoWay();
      empty := sender.message == [];
      sender.PostMessage();
    }
    messages := sender.messages;
  }

  /**
    An item of 7275 bytes takes 9700 letters and leaves no room in a message of 10000; the item of one
    byte behind it is not too big, gets no chunk and is dropped.
   */
  method SmallItemDropped(first: bytes, second: bytes) returns (ghost books: Books, message: Package)
    requires |first| == 7275 && |second| == 1
    ensures books.dropped == map[1 := Place(0, 1)] && |books.transfers| == 2 && books.transfers[1] == []
    ensures message == [Upload(0, true, Chunk(B64.Encode(first), true, true, 9700))]
  {
    hide Accurate, Grows, EndsWell, Cost, Closed, IsItemTooBig, NextChunk, PieceEnd, B64.Encode;
    hide Started, Send, Drop, Fetch;
    var sender := FirstItemPacked(first, second);
    NoRoomLeft(second);
    SecondDropped(Chunk(B64.Encode(first), true, true, 9700));
    sender.FetchItem(2);
    var none := sender.PackChunk(true);
    books, message := sender.books, sender.message;
  }

  method FirstItemPacked(first: bytes, second: bytes) returns (sender: Sender)
    requires |first| == 7275 && |second| == 1
    ensures fresh(sender) && fresh(sender.source) && fresh(sender.itemReader) && fresh(sender.itemReader.buffer)
    ensures sender.Valid() && sender.syncItem == null && sender.maxMsgSize == 10000 && sender.msgSize == 9850
    ensures sender.source.items == [first, second] && sender.source.next == 1 && Closed(sender.message)
    ensures sender.books.newItems == 2
    ensures var c := Chunk(B64.Encode(first), true, true, 9700);
      sender.message == [Upload(0, true, c)] && sender.books == Send(Fetch(NoBooks(2)), c)
  {
    hide Accurate, Grows, EndsWell, Cost, Closed, IsItemTooBig, NextChunk, PieceEnd, B64.Encode, Started, Send, Drop;
    var source := new ItemSource([first, second], 2, 0);
    sender := new Sender(source, 10000, 2);
    sender.EmptyMessage();
    WholeItem(first);
    sender.FetchItem(2);
    var whole := sender.PackChunk(true);
  }

  lemma SecondDropped(c: Chunk)
    ensures var b := Send(Fetch(NoBooks(2)), c);
      b.removed == [] && b.message == [Upload(0, true, c)] && |b.transfers| == 1 &&
      Drop(Fetch(b)).dropped == map[1 := Place(0, 1)] && |Drop(Fetch(b)).transfers| == 2 &&
      Drop(Fetch(b)).transfers[1] == []
  {
  }

  lemma WholeItem(data: bytes)
    requires |data| == 7275
    ensures NextChunk(data, 0, 9850) == Some(Chunk(B64.Encode(data), true, true, 9700)) && |B64.Encode(data)| == 9700
    ensures !IsItemTooBig(7275, 10000, 0)
  {
    EncodedSize(data);
    assert data[0..7275] == data;
    hide B64.Encode;
  }

  lemma NoRoomLeft(data: bytes)
    requires |data| == 1
    ensures NextChunk(data, 0, 0) == None && !IsItemTooBig(1, 10000, 9850)
  {
    hide B64.Encode;
  }

  lemma PostKeepsDeletes(b: Books, message: Package, n: nat, maxMsgSize: nat)
    ensures DeletesAccurate(Post(b), message, n, maxMsgSize) == DeletesAccurate(b, message, n, maxMsgSize)
    ensures Closed([])
  {
  }

  lemma RoomLeft(size: nat, maxMsgSize: nat, msgSize: nat)
    requires !IsItemTooBig(size, maxMsgSize, msgSize)
    ensures CHANGE_OVERHEAD + msgSize <= maxMsgSize
  {
  }

  lemma StillToSend(b: Books, items: seq<bytes>, maxMsgSize: nat, p: nat)
    requires Accurate(b, items, maxMsgSize, Some(p)) && b.transfers != [] && |b.transfers| <= |items|
    ensures var data := items[|b.transfers| - 1];
      p < |data| || (p == |data| && data == [])
  {
  }

  /** No chunk can be made only of a whole small item. */
  lemma NoChunk(b: Books, items: seq<bytes>, maxMsgSize: nat, p: nat, room: nat)
    requires Accurate(b, items, maxMsgSize, Some(p))
    requires room == maxMsgSize - CHANGE_OVERHEAD - Cost(b.message)
    requires (b.message != [] ==> p == 0) && (p > 0 ==> maxMsgSize >= CHANGE_OVERHEAD + 4)
    requires var data := items[|b.transfers| - 1];
      NextChunk(data, p, room).None? && !IsItemTooBig(|data|, maxMsgSize, Cost(b.message))
    ensures room < 4 && p == 0
    ensures var data := items[|b.transfers| - 1];
      data != [] && MaxDataSizeToEncode(|data|) <= PercMaxMsgSize(maxMsgSize)
  {
    ChunkFits(items[|b.transfers| - 1], p, room);
    assert Cost([]) == 0;
    hide B64.Encode, Transfer;
  }
}
