/**
  client/CacheSyncSource.cpp: the cache holds the signature every item had when the server last
  acknowledged it; comparing it with the items yields the changes to send.
 */
module ChangeTracking {
  import opened Options
  import opened KeyValueStores

  /** The present items of a source: key and signature. */
  type Items = map<string, string>

  datatype Change = Added | Updated | Deleted

  /** What the cache says about one key. */
  function Pending(cache: map<string, string>, items: Items, key: string): Option<Change> {
    if key in items then
      if key !in cache then Some(Added)
      else if cache[key] != items[key] then Some(Updated)
      else None
    else if key in cache then Some(Deleted)
    else None
  }

  /** Those of the keys that have the given change pending, in order. */
  function WithChange(keys: seq<string>, cache: map<string, string>, items: Items, c: Change): seq<string> {
    if keys == [] then []
    else (if Pending(cache, items, keys[0]) == Some(c) then [keys[0]] else []) + WithChange(keys[1..], cache, items, c)
  }

  lemma {:induction false} WithChangeAppend(keys: seq<string>, key: string, cache: map<string, string>, items: Items,
                                            c: Change)
    ensures WithChange(keys + [key], cache, items, c)
         == WithChange(keys, cache, items, c) + if Pending(cache, items, key) == Some(c) then [key] else []
  {
    hide Pending;
    if keys == [] {
      assert [key][1..] == [];
    } else {
      assert (keys + [key])[1..] == keys[1..] + [key];
      WithChangeAppend(keys[1..], key, cache, items, c);
    }
  }

  lemma NoKeys(cache: map<string, string>, items: Items)
    ensures forall c :: WithChange([], cache, items, c) == []
  {
  }

  /** `WithChange` selects exactly the keys with that change. */
  lemma {:induction false} WithChangeSelects(keys: seq<string>, cache: map<string, string>, items: Items, c: Change,
                                             key: string)
    ensures key in WithChange(keys, cache, items, c) <==> key in keys && Pending(cache, items, key) == Some(c)
  {
    hide Pending;
    if keys != [] {
      WithChangeSelects(keys[1..], cache, items, c, key);
    }
  }

  function KeysOf(data: seq<KeyValuePair>): (keys: seq<string>)
    ensures |keys| == |data| && forall i | 0 <= i < |data| :: keys[i] == data[i].key
  {
    seq(|data|, i requires 0 <= i < |data| => data[i].key)
  }

  // ---------------------------------------------------------------- the copy of the cache

  /** The pairs whose key is not one of `keys`, in order. */
  function Without(data: seq<KeyValuePair>, keys: set<string>): seq<KeyValuePair> {
    if data == [] then []
    else (if data[0].key in keys then [] else [data[0]]) + Without(data[1..], keys)
  }

  lemma {:induction false} WithoutNothing(data: seq<KeyValuePair>)
    ensures Without(data, {}) == data
  {
    if data != [] {
      WithoutNothing(data[1..]);
    }
  }

  lemma {:induction false} WithoutFind(data: seq<KeyValuePair>, keys: set<string>, key: string)
    requires DistinctKeys(data)
    ensures forall i | 0 <= i < |Without(data, keys)| ::
      Without(data, keys)[i].key !in keys && Without(data, keys)[i].key in AsMap(data) &&
      Without(data, keys)[i].value == AsMap(data)[Without(data, keys)[i].key]
    ensures key in AsMap(data) && key !in keys ==>
      exists i :: 0 <= i < |Without(data, keys)| && Without(data, keys)[i].key == key
  {
    if data != [] {
      var rest, w := Without(data[1..], keys), Without(data, keys);
      WithoutFind(data[1..], keys, key);
      InMap(data[1..], data[0].key);
      assert data[0].key !in AsMap(data[1..]);
      var n := |w| - |rest|;
      assert forall i | n <= i < |w| :: w[i] == rest[i - n];
      if key in AsMap(data) && key !in keys {
        if key == data[0].key {
          assert w[0].key == key;
        } else {
          var i :| 0 <= i < |rest| && rest[i].key == key;
          assert w[i + n].key == key;
        }
      }
    }
  }

  lemma WithoutCons(p: KeyValuePair, rest: seq<KeyValuePair>, keys: set<string>)
    ensures Without([p] + rest, keys) == (if p.key in keys then [] else [p]) + Without(rest, keys)
  {
    assert ([p] + rest)[1..] == rest;
  }

  lemma {:induction false} WithoutOneMore(data: seq<KeyValuePair>, keys: set<string>, key: string, i: nat)
    requires DistinctKeys(data) && i < |Without(data, keys)| && Without(data, keys)[i].key == key
    ensures Without(data, keys + {key}) == Without(data, keys)[..i] + Without(data, keys)[i + 1..]
  {
    WithoutNone(keys);
    RestDistinct(data);
    hide DistinctKeys, Without;
    var p, rest := data[0], data[1..];
    var w, v := Without(data, keys), Without(rest, keys);
    assert data == [p] + rest;
    WithoutCons(p, rest, keys);
    WithoutCons(p, rest, keys + {key});
    if p.key in keys {
      assert w == v && Without(data, keys + {key}) == Without(rest, keys + {key});
      WithoutOneMore(rest, keys, key, i);
    } else if i == 0 {
      WithoutAbsent(rest, keys, key);
      assert w[..0] + w[1..] == v;
    } else {
      WithoutOneMore(rest, keys, key, i - 1);
      WithoutFirst(data, keys, i);
      assert w[..i] + w[i + 1..] == [p] + (v[..i - 1] + v[i..]);
    }
  }

  lemma WithoutNone(keys: set<string>)
    ensures Without([], keys) == []
  {
  }

  lemma WithoutFirst(data: seq<KeyValuePair>, keys: set<string>, i: nat)
    requires DistinctKeys(data) && data != [] && data[0].key !in keys && 1 <= i < |Without(data, keys)|
    ensures Without(data, keys)[i].key != data[0].key
  {
    hide AsMap;
    var rest := data[1..];
    assert Without(data, keys) == [data[0]] + Without(rest, keys);
    assert forall k | 0 <= k < |rest| :: rest[k].key == data[k + 1].key != data[0].key;
    hide Without, DistinctKeys;
    WithoutFind(rest, keys, data[0].key);
    InMap(rest, data[0].key);
  }

  lemma {:induction false} WithoutAbsent(data: seq<KeyValuePair>, keys: set<string>, key: string)
    requires forall i | 0 <= i < |data| :: data[i].key != key
    ensures Without(data, keys + {key}) == Without(data, keys)
  {
    if data != [] {
      WithoutAbsent(data[1..], keys, key);
    }
  }

  /** What is left of the copy when all items have been looked up are the deleted items. */
  lemma {:induction false} LeftAreDeleted(data: seq<KeyValuePair>, cache: map<string, string>, items: Items)
    requires forall i | 0 <= i < |data| :: data[i].key in cache
    ensures KeysOf(Without(data, items.Keys)) == WithChange(KeysOf(data), cache, items, Deleted)
  {
    if data != [] {
      LeftAreDeleted(data[1..], cache, items);
      assert KeysOf(data)[1..] == KeysOf(data[1..]);
      assert KeysOf(data)[0] == data[0].key;
      assert Pending(cache, items, data[0].key) == Some(Deleted) <==> data[0].key !in items.Keys;
      var rest := Without(data[1..], items.Keys);
      assert KeysOf([data[0]] + rest) == [data[0].key] + KeysOf(rest);
    }
  }

  /** In which list a key is. */
  lemma ListsOf(allKeys: seq<string>, data: seq<KeyValuePair>, items: Items, key: string)
    requires key in allKeys <==> key in items
    ensures var m := AsMap(data);
      && (key in WithChange(allKeys, m, items, Added) <==> key in items && key !in m)
      && (key in WithChange(allKeys, m, items, Updated) <==> key in items && key in m && items[key] != m[key])
      && (key in WithChange(KeysOf(data), m, items, Deleted) <==> key !in items && key in m)
  {
    hide AsMap;
    WithChangeSelects(allKeys, AsMap(data), items, Added, key);
    WithChangeSelects(allKeys, AsMap(data), items, Updated, key);
    WithChangeSelects(KeysOf(data), AsMap(data), items, Deleted, key);
    KeysOfMap(data, key);
  }

  // ---------------------------------------------------------------- the source

  datatype Command = Add | Replace | Del | Other(name: string)

  /** `isErrorCode` */
  predicate IsErrorCode(code: int) {
    !((200 <= code < 300 && code != 213 && code != 206 && code != 205 && code != 204) || code == 418)
  }

  /** The success codes: those of the 200s but for 204, 205, 206 and 213, and "already exists". */
  lemma SuccessCodes(code: int)
    ensures IsErrorCode(code) <==>
            !(200 <= code <= 203 || 207 <= code <= 212 || 214 <= code <= 299 || code == 418)
  {
  }

  ghost predicate Distinct(keys: seq<string>) {
    forall i, j | 0 <= i < j < |keys| :: keys[i] != keys[j]
  }

  function KeySet(keys: seq<string>): set<string> {
    set k | k in keys
  }

  class CacheSyncSource {
    const cache: KeyValueStore
    var newKeys: seq<string>
    var updatedKeys: seq<string>
    var deletedKeys: seq<string>

    constructor (cache: KeyValueStore)
      ensures this.cache == cache && newKeys == updatedKeys == deletedKeys == []
    {
      this.cache := cache;
      newKeys, updatedKeys, deletedKeys := [], [], [];
    }

    /** `fillItemModifications`; `allKeys` is the enumeration of the present items. */
    method FillItemModifications(allKeys: seq<string>, items: Items)
      requires cache.Valid() && Distinct(allKeys) && KeySet(allKeys) == items.Keys
      modifies this
      ensures newKeys == WithChange(allKeys, cache.Map(), items, Added)
      ensures updatedKeys == WithChange(allKeys, cache.Map(), items, Updated)
      ensures deletedKeys == WithChange(KeysOf(cache.data), cache.Map(), items, Deleted)
      ensures forall key ::
        && (key in newKeys <==> key in items && key !in cache.Map())
        && (key in updatedKeys <==> key in items && key in cache.Map() && items[key] != cache.Map()[key])
        && (key in deletedKeys <==> key !in items && key in cache.Map())
    {
      hide Pending, Without, AsMap, WithChange;
      ghost var data, m := cache.data, cache.Map();
      var cacheCopy := cache.data;
      WithoutNothing(data);
      NoKeys(m, items);
      newKeys, updatedKeys := [], [];
      assert KeySet(allKeys[..0]) == {} && allKeys[..0] == [];
      for n := 0 to |allKeys|
        invariant cache.data == data && cacheCopy == Without(data, KeySet(allKeys[..n]))
        invariant newKeys == WithChange(allKeys[..n], m, items, Added)
        invariant updatedKeys == WithChange(allKeys[..n], m, items, Updated)
      {
        var key := allKeys[n];
        assert allKeys[..n] + [key] == allKeys[..n + 1];
        assert KeySet(allKeys[..n + 1]) == KeySet(allKeys[..n]) + {key};
        WithChangeAppend(allKeys[..n], key, m, items, Added);
        WithChangeAppend(allKeys[..n], key, m, items, Updated);
        assert key in KeySet(allKeys);
        var foundNew, isUpdated;
        cacheCopy, foundNew, isUpdated := LookUp(cacheCopy, key, items[key], data, KeySet(allKeys[..n]));
        PendingOf(m, items, key);
        if foundNew {
          newKeys := newKeys + [key];
        } else if isUpdated {
          updatedKeys := updatedKeys + [key];
        }
      }
      assert allKeys[..|allKeys|] == allKeys;
      deletedKeys := KeysOf(cacheCopy);
      InCache(data);
      LeftAreDeleted(data, m, items);
      forall key
        ensures key in newKeys <==> key in items && key !in m
        ensures key in updatedKeys <==> key in items && key in m && items[key] != m[key]
        ensures key in deletedKeys <==> key !in items && key in m
      {
        assert key in allKeys <==> key in KeySet(allKeys);
        ListsOf(allKeys, data, items, key);
      }
    }

    /**
      `setItemStatus` with `updateInCache`; `sign` is what `getItemSignature` finds at this time. The
      cache is a `PropertyFile`, which trims keys and values.
     */
    method SetItemStatus(key: string, status: int, command: Command, sign: string)
      requires cache.Valid()
      modifies cache
      ensures cache.Valid() && cache.Map() == Acknowledge(old(cache.Map()), Ack(key, status, command, sign))
    {
      hide AsMap;
      if !IsErrorCode(status) {
        if command == Add || command == Replace {
          cache.SetTrimmed(key, sign);
        } else if command == Del {
          cache.RemoveTrimmed(key);
        }
      }
    }

    /** Look `key` up in the copy of the cache; if it is there, compare the signatures and take it out. */
    method LookUp(cacheCopy: seq<KeyValuePair>, key: string, sign: string,
                  ghost data: seq<KeyValuePair>, ghost seen: set<string>)
        returns (left: seq<KeyValuePair>, foundNew: bool, isUpdated: bool)
      requires DistinctKeys(data) && cacheCopy == Without(data, seen) && key !in seen
      ensures left == Without(data, seen + {key})
      ensures foundNew <==> key !in AsMap(data)
      ensures !foundNew ==> (isUpdated <==> sign != AsMap(data)[key])
    {
      hide Without, AsMap;
      WithoutFind(data, seen, key);
      for i := 0 to |cacheCopy|
        invariant forall k | 0 <= k < i :: cacheCopy[k].key != key
      {
        if cacheCopy[i].key == key {
          WithoutOneMore(data, seen, key, i);
          return cacheCopy[..i] + cacheCopy[i + 1..], false, sign != cacheCopy[i].value;
        }
      }
      WithoutUnknown(data, seen, key);
      return cacheCopy, true, false;
    }
  }

  // ---------------------------------------------------------------- acknowledgements

  /** A status from the server for a command, and the signature that the item has when it arrives. */
  datatype Ack = Ack(key: string, status: int, command: Command, sign: string)

  function Acknowledge(cache: map<string, string>, a: Ack): map<string, string> {
    if IsErrorCode(a.status) then cache
    else
      match a.command
      case Add => cache[Trim(a.key) := Trim(a.sign)]
      case Replace => cache[Trim(a.key) := Trim(a.sign)]
      case Del => cache - {Trim(a.key)}
      case Other(_) => cache
  }

  function AfterAcks(cache: map<string, string>, acks: seq<Ack>): map<string, string> {
    if acks == [] then cache else Acknowledge(AfterAcks(cache, acks[..|acks| - 1]), acks[|acks| - 1])
  }

  /** An acknowledgement that changes the cache. */
  predicate Counts(a: Ack) {
    !IsErrorCode(a.status) && !a.command.Other?
  }

  /** The last acknowledgement that counts for a key. */
  function LastSuccess(acks: seq<Ack>, key: string): Option<Ack> {
    if acks == [] then None
    else
      var a := acks[|acks| - 1];
      if a.key == key && Counts(a) then Some(a) else LastSuccess(acks[..|acks| - 1], key)
  }

  /** The last acknowledgement that changes the entry of a key in the cache. */
  function LastWrite(acks: seq<Ack>, key: string): Option<Ack> {
    if acks == [] then None
    else
      var a := acks[|acks| - 1];
      if Trim(a.key) == key && Counts(a) then Some(a) else LastWrite(acks[..|acks| - 1], key)
  }

  /** The entry of a key is decided by the last acknowledgement whose key trims to it, and by that alone. */
  lemma {:induction false} AfterAcksAt(cache: map<string, string>, acks: seq<Ack>, key: string)
    ensures var after := AfterAcks(cache, acks);
      match LastWrite(acks, key)
      case None => (key in after <==> key in cache) && (key in cache ==> after[key] == cache[key])
      case Some(a) => if a.command.Del? then key !in after else key in after && after[key] == Trim(a.sign)
  {
    hide IsErrorCode, Trim;
    if acks != [] {
      AfterAcksAt(cache, acks[..|acks| - 1], key);
    }
  }

  /**
    What is pending after any statuses, also when items have changed, appeared or vanished since they
    were sent: the last status that writes the entry decides, with the signature that was taken when it
    arrived, both as the cache keeps them.
   */
  lemma PendingAfterAcks(cache: map<string, string>, acks: seq<Ack>, now: Items, key: string)
    ensures Pending(AfterAcks(cache, acks), now, key)
         == match LastWrite(acks, key)
            case None => Pending(cache, now, key)
            case Some(a) =>
              if key in now then
                if a.command.Del? then Some(Added) else if Trim(a.sign) == now[key] then None else Some(Updated)
              else if a.command.Del? then None else Some(Deleted)
  {
    AfterAcksAt(cache, acks, key);
    hide AfterAcks, LastWrite, Trim;
  }

  /**
    A change made to an item after it was sent with signature `sent` is lost exactly if the signature
    kept when the last status arrived is already that of the changed item.
   */
  lemma LateChangeIsLost(cache: map<string, string>, acks: seq<Ack>, now: Items, key: string, a: Ack, sent: string)
    requires LastWrite(acks, key) == Some(a) && !a.command.Del?
    requires key in now && now[key] != sent
    ensures Pending(AfterAcks(cache, acks), now, key) == None <==> Trim(a.sign) == now[key]
    ensures Trim(a.sign) == sent ==> Pending(AfterAcks(cache, acks), now, key) == Some(Updated)
  {
    hide AfterAcks, LastWrite, Trim;
    PendingAfterAcks(cache, acks, now, key);
  }

  // ---------------------------------------------------------------- convergence

  /** All keys that the store ever kept are trimmed. */
  ghost predicate TrimmedKeys(cache: map<string, string>) {
    forall key | key in cache :: Trim(key) == key
  }

  lemma {:induction false} KeysStayTrimmed(cache: map<string, string>, acks: seq<Ack>)
    requires TrimmedKeys(cache)
    ensures TrimmedKeys(AfterAcks(cache, acks))
  {
    hide IsErrorCode, Trim;
    if acks != [] {
      KeysStayTrimmed(cache, acks[..|acks| - 1]);
      TrimLeaves(acks[|acks| - 1].key);
    }
  }

  /**
    The server answers commands that it was sent: about present items, which have not changed since,
    and about deleted ones that the cache knows.
   */
  ghost predicate Answers(acks: seq<Ack>, cache: map<string, string>, items: Items) {
    forall a | a in acks && !a.command.Other? ::
      if a.key in items then !a.command.Del? && a.sign == items[a.key] else a.command.Del? && a.key in cache
  }

  /** The change of this key is pending afterwards exactly if it was pending and not acknowledged. */
  ghost predicate Settles(cache: map<string, string>, items: Items, acks: seq<Ack>, key: string) {
    Pending(AfterAcks(cache, acks), items, key)
      == if LastSuccess(acks, key).Some? then None else Pending(cache, items, key)
  }

  /** Neither the keys nor the signatures that were acknowledged have a space at either end. */
  ghost predicate AllTrimmed(acks: seq<Ack>) {
    forall a | a in acks && Counts(a) :: Trim(a.key) == a.key && (a.command.Del? || Trim(a.sign) == a.sign)
  }

  lemma {:induction false} LastIn(acks: seq<Ack>, key: string)
    ensures match LastSuccess(acks, key)
      case Some(a) => a in acks && a.key == key && Counts(a)
      case None => forall a | a in acks :: a.key == key ==> !Counts(a)
    ensures match LastWrite(acks, key)
      case Some(a) => a in acks && Trim(a.key) == key && Counts(a)
      case None => forall a | a in acks :: Trim(a.key) == key ==> !Counts(a)
  {
    hide Trim, Counts;
    if acks != [] {
      LastIn(acks[..|acks| - 1], key);
    }
  }

  lemma {:induction false} SameLast(acks: seq<Ack>, key: string)
    requires AllTrimmed(acks)
    ensures LastWrite(acks, key) == LastSuccess(acks, key)
  {
    hide Trim, Counts;
    if acks != [] {
      var pre := acks[..|acks| - 1];
      assert forall a | a in pre :: a in acks;
      SameLast(pre, key);
    }
  }

  /**
    Convergence: whichever of the changes the server acknowledges, in whatever order and however
    often, the next comparison finds exactly the others - if and only if nothing that was acknowledged
    is trimmed by the cache.
   */
  lemma Convergence(cache: map<string, string>, items: Items, acks: seq<Ack>)
    requires TrimmedKeys(cache) && Answers(acks, cache, items)
    ensures (forall key :: Settles(cache, items, acks, key)) <==> AllTrimmed(acks)
  {
    hide Trim, AfterAcks, LastSuccess, LastWrite, Counts;
    if AllTrimmed(acks) {
      forall key ensures Settles(cache, items, acks, key) {
        SameLast(acks, key);
        LastIn(acks, key);
        CountsNotOther(acks);
        PendingAfterAcks(cache, acks, items, key);
      }
    } else {
      var a :| a in acks && Counts(a) && !(Trim(a.key) == a.key && (a.command.Del? || Trim(a.sign) == a.sign));
      CountsNotOther(acks);
      NotSettled(cache, items, acks, a);
    }
  }

  lemma CountsNotOther(acks: seq<Ack>)
    ensures forall a | a in acks && Counts(a) :: !a.command.Other?
  {
  }

  lemma NotSettled(cache: map<string, string>, items: Items, acks: seq<Ack>, a: Ack)
    requires TrimmedKeys(cache) && Answers(acks, cache, items) && a in acks && Counts(a)
    requires !(Trim(a.key) == a.key && (a.command.Del? || Trim(a.sign) == a.sign))
    ensures exists key :: !Settles(cache, items, acks, key)
  {
    hide Trim, AfterAcks, LastSuccess, LastWrite, IsErrorCode;
    var key := a.key;
    LastIn(acks, key);
    PendingAfterAcks(cache, acks, items, key);
    if Trim(key) != key {
      UntrimmedStays(cache, items, acks, key);
      assert !Settles(cache, items, acks, key);
    } else {
      var b := LastWrite(acks, key).value;
      if b.key == key {
        assert !Settles(cache, items, acks, key);
      } else {
        UntrimmedStays(cache, items, acks, b.key);
        LastIn(acks, b.key);
        TrimLeaves(b.key);
        assert !b.command.Del?;
        assert !Settles(cache, items, acks, b.key);
      }
    }
  }

  /** An item whose key has a space at either end is new for ever, whatever is acknowledged. */
  lemma UntrimmedStays(cache: map<string, string>, items: Items, acks: seq<Ack>, key: string)
    requires TrimmedKeys(cache) && Trim(key) != key
    ensures Pending(AfterAcks(cache, acks), items, key) == if key in items then Some(Added) else None
  {
    KeysStayTrimmed(cache, acks);
    hide AfterAcks, Trim;
  }

  /** A new file whose name ends in a space, acknowledged: it is new again, and its trimmed name is deleted. */
  lemma SpaceAtTheEnd(sign: string)
    ensures var after := AfterAcks(map[], [Ack("a ", 201, Add, sign)]);
      var items: Items := map["a " := sign];
      Pending(after, items, "a ") == Some(Added) && Pending(after, items, "a") == Some(Deleted)
  {
    var acks := [Ack("a ", 201, Add, sign)];
    assert acks[..0] == [] && AfterAcks(map[], []) == map[];
    assert "a "[..1] == "a" && TrimRight("a ") == TrimRight("a") == "a";
  }

  /**
    The lists of the next run hold exactly the changes of this run that were not acknowledged, if and
    only if nothing that was acknowledged is trimmed by the cache.
   */
  lemma NextRun(data: seq<KeyValuePair>, data': seq<KeyValuePair>, allKeys: seq<string>, items: Items, acks: seq<Ack>)
    requires KeySet(allKeys) == items.Keys && TrimmedKeys(AsMap(data)) && Answers(acks, AsMap(data), items)
    requires AsMap(data') == AfterAcks(AsMap(data), acks)
    ensures (forall key, c :: Carried(data, data', allKeys, items, acks, key, c)) <==> AllTrimmed(acks)
  {
    hide AsMap, Trim, AfterAcks, LastSuccess, AllTrimmed, WithChange, Settles;
    Convergence(AsMap(data), items, acks);
    if AllTrimmed(acks) {
      forall key, c ensures Carried(data, data', allKeys, items, acks, key, c) {
        NextRunAt(data, data', allKeys, items, acks, key);
        assert Settles(AsMap(data), items, acks, key);
      }
    } else {
      var key :| !Settles(AsMap(data), items, acks, key);
      NextRunAt(data, data', allKeys, items, acks, key);
    }
  }

  /** A key is in a list of the next run exactly if it is in that list now and not acknowledged. */
  ghost predicate Carried(data: seq<KeyValuePair>, data': seq<KeyValuePair>, allKeys: seq<string>, items: Items,
                          acks: seq<Ack>, key: string, c: Change)
  {
    var before := key in WithChange(if c.Deleted? then KeysOf(data) else allKeys, AsMap(data), items, c);
    var after := key in WithChange(if c.Deleted? then KeysOf(data') else allKeys, AsMap(data'), items, c);
    after <==> (before && LastSuccess(acks, key).None?)
  }

  lemma NextRunAt(data: seq<KeyValuePair>, data': seq<KeyValuePair>, allKeys: seq<string>, items: Items,
                  acks: seq<Ack>, key: string)
    requires KeySet(allKeys) == items.Keys && AsMap(data') == AfterAcks(AsMap(data), acks)
    ensures Settles(AsMap(data), items, acks, key)
       <==> forall c :: Carried(data, data', allKeys, items, acks, key, c)
  {
    hide AsMap, AfterAcks, LastSuccess, WithChange;
    KeysOfMap(data, key);
    KeysOfMap(data', key);
    assert key in allKeys <==> key in KeySet(allKeys);
    forall c ensures Carried(data, data', allKeys, items, acks, key, c) <==>
      ((Pending(AsMap(data'), items, key) == Some(c))
        <==> (Pending(AsMap(data), items, key) == Some(c) && LastSuccess(acks, key).None?))
    {
      WithChangeSelects(if c.Deleted? then KeysOf(data) else allKeys, AsMap(data), items, c, key);
      WithChangeSelects(if c.Deleted? then KeysOf(data') else allKeys, AsMap(data'), items, c, key);
    }
  }

  lemma KeysOfMap(data: seq<KeyValuePair>, key: string)
    ensures key in KeysOf(data) <==> key in AsMap(data)
  {
    InMap(data, key);
    if i :| 0 <= i < |data| && data[i].key == key {
      assert KeysOf(data)[i] == key;
    }
  }

  lemma PendingOf(cache: map<string, string>, items: Items, key: string)
    requires key in items
    ensures Pending(cache, items, key) == Some(Added) <==> key !in cache
    ensures Pending(cache, items, key) == Some(Updated) <==> key in cache && items[key] != cache[key]
  {
  }

  lemma InCache(data: seq<KeyValuePair>)
    ensures forall i | 0 <= i < |data| :: data[i].key in AsMap(data)
  {
    forall i | 0 <= i < |data| ensures data[i].key in AsMap(data) {
      InMap(data, data[i].key);
    }
  }

  lemma WithoutUnknown(data: seq<KeyValuePair>, seen: set<string>, key: string)
    requires key !in AsMap(data)
    ensures Without(data, seen + {key}) == Without(data, seen)
  {
    InMap(data, key);
    WithoutAbsent(data, seen, key);
  }
}
