/**
  client/MediaSyncSource.cpp: the items of a media folder are known to the server by numbers. The
  numbers of the present items are kept in a map that may be lost or restored from an older copy;
  the next free number is kept apart from it, in the configuration of the source.
 */
module MediaItems {
  import opened Options
  import opened Bytes
  import opened KeyValueStores
  import opened Numerals
  import ChangeTracking

  const PROPERTY_NEXT_LUID := "nextLUID"

  type Properties = map<string, string>

  /** The map of paths to LUIDs, the configuration, and the next LUID in memory. */
  datatype Luids = Luids(luidMap: Properties, config: Properties, nextLUID: int)

  function NextSaved(config: Properties): int {
    if PROPERTY_NEXT_LUID in config then ParseLong(config[PROPERTY_NEXT_LUID]) else 0
  }

  function WithNextSaved(config: Properties, n: int): (c: Properties)
    ensures NextSaved(c) == n
  {
    ParsePrinted(n);
    config[PROPERTY_NEXT_LUID := Print(n)]
  }

  /** A path that is not in the map gets the next LUID; the map holds it under the trimmed path. */
  function Allocate(s: Luids, path: string): (Luids, string) {
    if path in s.luidMap then (s, s.luidMap[path])
    else
      var luid := Print(s.nextLUID);
      (Luids(s.luidMap[Trim(path) := luid], WithNextSaved(s.config, s.nextLUID + 1), s.nextLUID + 1), luid)
  }

  function Refresh(luidMap: Properties, cached: set<string>): Properties {
    map p | p in luidMap && p in cached :: luidMap[p]
  }

  /** A source is created, with the next LUID that the application passes. */
  ghost predicate Started(luidMap: Properties, config: Properties, passed: int, s: Luids) {
    var least := if NextSaved(config) >= passed then NextSaved(config) else passed;
    && s.luidMap == luidMap
    && s.nextLUID >= least
    && (forall p | p in luidMap :: ParseLong(luidMap[p]) < s.nextLUID)
    && (s.nextLUID > least ==> exists p | p in luidMap :: s.nextLUID == ParseLong(luidMap[p]) + 1)
    && s.config == if s.nextLUID > least then WithNextSaved(config, s.nextLUID) else config
  }

  /** The first path with the given LUID. */
  function PathOf(data: seq<KeyValuePair>, luid: string): Option<string> {
    if data == [] then None
    else if data[0].value == luid then Some(data[0].key)
    else PathOf(data[1..], luid)
  }

  lemma {:induction false} PathOfFinds(data: seq<KeyValuePair>, luid: string)
    requires DistinctKeys(data)
    ensures match PathOf(data, luid)
      case Some(path) => path in AsMap(data) && AsMap(data)[path] == luid
      case None => forall path | path in AsMap(data) :: AsMap(data)[path] != luid
  {
    if data != [] {
      PathOfFinds(data[1..], luid);
      InMap(data[1..], data[0].key);
    }
  }

  class MediaSyncSource {
    const luidMap: KeyValueStore
    const configParams: KeyValueStore
    const cache: KeyValueStore
    var nextLUID: int

    ghost predicate Valid()
      reads this, luidMap, configParams, cache
    {
      && luidMap != configParams && luidMap != cache && configParams != cache
      && luidMap.Valid() && configParams.Valid() && cache.Valid()
    }

    ghost function State(): Luids
      requires Valid()
      reads this, luidMap, configParams, cache
    {
      Luids(luidMap.Map(), configParams.Map(), nextLUID)
    }

    constructor (luidMap: KeyValueStore, configParams: KeyValueStore, cache: KeyValueStore, passed: int)
      requires luidMap != configParams && luidMap != cache && configParams != cache
      requires luidMap.Valid() && configParams.Valid() && cache.Valid()
      modifies configParams
      ensures this.luidMap == luidMap && this.configParams == configParams && this.cache == cache
      ensures Valid() && Started(luidMap.Map(), old(configParams.Map()), passed, State())
    {
      this.luidMap, this.configParams, this.cache := luidMap, configParams, cache;
      nextLUID := passed;
      new;
      var next := ReadNextLUID();
      if next >= nextLUID {
        nextLUID := next;
      }
      var updated := VerifyNextLUIDValue();
      if updated {
        SaveNextLUID(nextLUID);
      }
    }

    method ReadNextLUID() returns (next: int)
      requires Valid()
      ensures next == NextSaved(configParams.Map())
    {
      var value := configParams.ReadPropertyValue(PROPERTY_NEXT_LUID);
      next := if value.Some? then ParseLong(value.value) else 0;
    }

    method SaveNextLUID(next: int)
      requires Valid()
      modifies configParams
      ensures Valid() && configParams.Map() == WithNextSaved(old(configParams.Map()), next)
      ensures configParams.Map() == old(configParams.Map())["nextLUID" := Print(next)]
    {
      configParams.SetTrimmed(PROPERTY_NEXT_LUID, Print(next));
      TrimLeaves(PROPERTY_NEXT_LUID);
      NumeralTrimmed(next);
    }

    method VerifyNextLUIDValue() returns (updated: bool)
      requires Valid()
      modifies this
      ensures Valid() && nextLUID >= old(nextLUID)
      ensures updated <==> nextLUID > old(nextLUID)
      ensures forall p | p in luidMap.Map() :: ParseLong(luidMap.Map()[p]) < nextLUID
      ensures updated ==> exists p | p in luidMap.Map() :: nextLUID == ParseLong(luidMap.Map()[p]) + 1
    {
      updated := false;
      ghost var highest := 0;
      var props := luidMap.data;
      for i := 0 to |props|
        invariant Valid() && nextLUID >= old(nextLUID) && (updated <==> nextLUID > old(nextLUID))
        invariant forall k | 0 <= k < i :: ParseLong(props[k].value) < nextLUID
        invariant updated ==> highest < i && nextLUID == ParseLong(props[highest].value) + 1
      {
        var currentLUID := ParseLong(props[i].value);
        if currentLUID >= nextLUID {
          nextLUID := currentLUID + 1;
          updated, highest := true, i;
        }
      }
      forall p | p in luidMap.Map() ensures ParseLong(luidMap.Map()[p]) < nextLUID {
        InMap(props, p);
        var k :| 0 <= k < |props| && props[k].key == p;
        MapAt(props, k);
      }
      if updated {
        MapAt(props, highest);
        assert luidMap.Map()[props[highest].key] == props[highest].value;
      }
    }

    method GetLUIDFromPath(path: string) returns (luid: string)
      requires Valid()
      modifies this, luidMap, configParams
      ensures Valid() && (State(), luid) == Allocate(old(State()), path)
      ensures path in old(luidMap.Map()) ==> luid == old(luidMap.Map())[path] && State() == old(State())
      ensures path !in old(luidMap.Map()) ==>
        && luid == Print(old(nextLUID)) && nextLUID == old(nextLUID) + 1
        && luidMap.Map() == old(luidMap.Map())[Trim(path) := luid]
        && configParams.Map() == old(configParams.Map())["nextLUID" := Print(nextLUID)]
    {
      var known := luidMap.ReadPropertyValue(path);
      if known.Some? {
        return known.value;
      }
      var newLUID := nextLUID;
      luid := Print(newLUID);
      NumeralTrimmed(newLUID);
      luidMap.SetTrimmed(path, luid);
      newLUID := newLUID + 1;
      nextLUID := newLUID;
      SaveNextLUID(newLUID);
    }

    method GetPathFromLUID(luid: string) returns (path: Option<string>)
      requires Valid()
      ensures path == PathOf(luidMap.data, luid)
    {
      var props := luidMap.data;
      assert props[0..] == props;
      for i := 0 to |props|
        invariant PathOf(props, luid) == PathOf(props[i..], luid)
      {
        if props[i].value == luid {
          return Some(props[i].key);
        }
      }
      return None;
    }

    /** The paths in the map are trimmed, as `SetTrimmed` stores them. */
    method RefreshLUIDMap() returns (updated: bool)
      requires Valid() && forall p | p in luidMap.Map() :: Trim(p) == p
      modifies luidMap
      ensures Valid() && luidMap.Map() == Refresh(old(luidMap.Map()), cache.Map().Keys)
      ensures updated <==> luidMap.Map() != old(luidMap.Map())
    {
      hide AsMap, Trim;
      updated := false;
      ghost var m, cached := luidMap.Map(), cache.Map().Keys;
      var props := luidMap.data;
      ghost var seen := {};
      for i := 0 to |props|
        invariant Valid() && cache.Map().Keys == cached
        invariant seen == set k | 0 <= k < i :: props[k].key
        invariant luidMap.Map() == map p | p in m && (p in cached || p !in seen) :: m[p]
        invariant updated <==> luidMap.Map() != m
      {
        var path := props[i].key;
        MapAt(props, i);
        seen := seen + {path};
        var inCache := cache.ReadPropertyValue(path);
        if inCache.None? {
          luidMap.RemoveTrimmed(path);
          updated := true;
        }
      }
      forall p | p in m ensures p in seen {
        InMap(props, p);
      }
    }

    /** `fillItemModifications`: the properties of the server account are no items. */
    method FillItemModifications(source: ChangeTracking.CacheSyncSource, allKeys: seq<string>,
                                 items: ChangeTracking.Items)
      requires Valid() && source.cache == cache
      requires ChangeTracking.Distinct(allKeys) && ChangeTracking.KeySet(allKeys) == items.Keys
      modifies source
      ensures source.newKeys == ChangeTracking.WithChange(allKeys, cache.Map(), items, ChangeTracking.Added)
      ensures source.updatedKeys == ChangeTracking.WithChange(allKeys, cache.Map(), items, ChangeTracking.Updated)
      ensures source.deletedKeys
           == Ordinary(ChangeTracking.WithChange(ChangeTracking.KeysOf(cache.data), cache.Map(), items,
                                                 ChangeTracking.Deleted))
    {
      hide AsMap, Ordinary, ChangeTracking.WithChange;
      source.FillItemModifications(allKeys, items);
      source.deletedKeys := RemoveSpecialProps(source.deletedKeys);
    }

    method RemoveSpecialProps(all: seq<string>) returns (keys: seq<string>)
      ensures keys == Ordinary(all)
    {
      hide Ordinary;
      keys := all;
      var i := 0;
      assert keys[..0] == [] && keys[0..] == keys;
      while i < |keys|
        invariant i <= |keys|
        invariant Ordinary(all) == keys[..i] + Ordinary(keys[i..])
        decreases |keys| - i
      {
        var front, key, rest := keys[..i], keys[i], keys[i + 1..];
        OrdinaryFirst(key, rest);
        assert keys[i..] == [key] + rest;
        if IsSpecial(key) {
          keys := keys[..i] + keys[i + 1..];
          assert keys[..i] == front && keys[i..] == rest;
        } else {
          i := i + 1;
          assert keys[..i] == front + [key] && keys[i..] == rest;
          Associative(front, [key], Ordinary(rest));
        }
      }
      OrdinaryNothing();
      assert keys[i..] == [] && keys[..i] == keys;
    }

    /** `setItemStatus`: the server's status names the LUID, the cache the path. */
    method SetItemStatus(luid: string, status: int, command: ChangeTracking.Command, sign: string)
      requires Valid()
      modifies cache
      ensures Valid()
      ensures var path := PathOf(luidMap.data, luid);
        cache.Map() == if path.None? then old(cache.Map())
                       else
                         var a := ChangeTracking.Ack(path.value, status, command, sign);
                         ChangeTracking.Acknowledge(old(cache.Map()), a)
    {
      var path := GetPathFromLUID(luid);
      if !ChangeTracking.IsErrorCode(status) && path.Some? {
        if command == ChangeTracking.Add || command == ChangeTracking.Replace {
          cache.SetTrimmed(path.value, sign);
        } else if command == ChangeTracking.Del {
          cache.RemoveTrimmed(path.value);
        }
      }
    }
  }

  predicate IsSpecial(key: string) {
    key == "_SERVER_URL_" || key == "_USERNAME_" || key == "_CLIENT_SWV_"
  }

  function Ordinary(keys: seq<string>): seq<string> {
    if keys == [] then []
    else (if IsSpecial(keys[0]) then [] else [keys[0]]) + Ordinary(keys[1..])
  }

  lemma OrdinaryFirst(key: string, rest: seq<string>)
    ensures Ordinary([key] + rest) == (if IsSpecial(key) then [] else [key]) + Ordinary(rest)
  {
    assert ([key] + rest)[1..] == rest;
  }

  lemma OrdinaryNothing()
    ensures Ordinary([]) == []
  {
  }

  lemma {:induction false} OrdinarySelects(keys: seq<string>, key: string)
    ensures key in Ordinary(keys) <==> key in keys && !IsSpecial(key)
  {
    if keys != [] {
      OrdinarySelects(keys[1..], key);
    }
  }

  /** The deleted items reported are exactly the cached paths without a file, the account's properties aside. */
  lemma DeletedItems(data: seq<KeyValuePair>, items: ChangeTracking.Items, key: string)
    ensures var keys := ChangeTracking.KeysOf(data);
      var deleted := ChangeTracking.WithChange(keys, AsMap(data), items, ChangeTracking.Deleted);
      key in Ordinary(deleted) <==>
        key in AsMap(data) && key !in items && key !in {"_SERVER_URL_", "_USERNAME_", "_CLIENT_SWV_"}
  {
    hide AsMap;
    var keys := ChangeTracking.KeysOf(data);
    OrdinarySelects(ChangeTracking.WithChange(keys, AsMap(data), items, ChangeTracking.Deleted), key);
    ChangeTracking.WithChangeSelects(keys, AsMap(data), items, ChangeTracking.Deleted, key);
    ChangeTracking.KeysOfMap(data, key);
  }

  lemma NumeralTrimmed(n: int)
    ensures Trim(Print(n)) == Print(n)
  {
    var d := Digits(if n < 0 then -n else n);
    assert d[0] in d && d[|d| - 1] in d;
    assert Print(n)[|Print(n)| - 1] == d[|d| - 1];
    TrimLeaves(Print(n));
  }

  lemma {:induction false} MapAt(data: seq<KeyValuePair>, i: nat)
    requires DistinctKeys(data) && i < |data|
    ensures data[i].key in AsMap(data) && AsMap(data)[data[i].key] == data[i].value
  {
    if i > 0 {
      MapAt(data[1..], i - 1);
    }
  }

  // ---------------------------------------------------------------- whole runs

  datatype Grant = Grant(path: string, luid: string)

  /** The state of the source, every copy of the map that there ever was, and all LUIDs given out. */
  datatype World = World(now: Luids, copies: seq<Properties>, grants: seq<Grant>)

  datatype Event =
    | GetLuid(path: string)
    | RefreshMap(cached: set<string>)
    | Restart(copy: nat, passed: int)

  /**
    At first there may be a map already, whose LUIDs count as given out. They must be below the next one
    that is saved; a higher one that the application passes is not saved until it is used.
   */
  ghost predicate First(w: World) {
    && w.copies == [w.now.luidMap] && AllGranted(w.now.luidMap, w.grants) && OnePath(w.grants)
    && Below(w.grants, NextSaved(w.now.config))
    && exists config, passed :: Started(w.now.luidMap, config, passed, w.now)
  }

  ghost predicate Next(w: World, e: Event, w': World) {
    match e
    case GetLuid(path) =>
      var (now, luid) := Allocate(w.now, path);
      w' == World(now, w.copies + [now.luidMap], w.grants + [Grant(path, luid)])
    case RefreshMap(cached) =>
      var now := w.now.(luidMap := Refresh(w.now.luidMap, cached));
      w' == World(now, w.copies + [now.luidMap], w.grants)
    case Restart(copy, passed) =>
      && copy < |w.copies| && Started(w.copies[copy], w.now.config, passed, w'.now)
      && w' == World(w'.now, w.copies + [w'.now.luidMap], w.grants)
  }

  ghost predicate IsRun(ws: seq<World>, es: seq<Event>) {
    && |ws| == |es| + 1 && First(ws[0])
    && forall i | 0 <= i < |es| :: Next(ws[i], es[i], ws[i + 1])
  }

  ghost predicate Granted(grants: seq<Grant>, path: string, luid: string) {
    exists i :: 0 <= i < |grants| && Trim(grants[i].path) == path && grants[i].luid == luid
  }

  ghost predicate OnePath(grants: seq<Grant>) {
    forall i, j | 0 <= i < |grants| && 0 <= j < |grants| ::
      grants[i].luid == grants[j].luid ==> Trim(grants[i].path) == Trim(grants[j].path)
  }

  ghost predicate Below(grants: seq<Grant>, n: int) {
    forall i | 0 <= i < |grants| :: ParseLong(grants[i].luid) < n
  }

  ghost predicate AllGranted(luidMap: Properties, grants: seq<Grant>) {
    forall p | p in luidMap :: Granted(grants, p, luidMap[p])
  }

  ghost predicate Invariant(w: World) {
    && OnePath(w.grants)
    && Below(w.grants, NextSaved(w.now.config))
    && NextSaved(w.now.config) <= w.now.nextLUID
    && w.now.luidMap in w.copies
    && forall k | 0 <= k < |w.copies| :: AllGranted(w.copies[k], w.grants)
  }

  lemma GrantedStill(luidMap: Properties, grants: seq<Grant>, g: Grant)
    requires AllGranted(luidMap, grants)
    ensures AllGranted(luidMap, grants + [g])
  {
    forall p | p in luidMap ensures Granted(grants + [g], p, luidMap[p]) {
      var i :| 0 <= i < |grants| && Trim(grants[i].path) == p && grants[i].luid == luidMap[p];
      assert (grants + [g])[i] == grants[i];
    }
  }

  lemma AllocateKeeps(w: World, path: string, w': World)
    requires Invariant(w) && Next(w, GetLuid(path), w')
    ensures Invariant(w')
  {
    hide Trim;
    var (now, luid) := Allocate(w.now, path);
    var g := Grant(path, luid);
    var n := |w.grants|;
    assert w'.grants[n] == g;
    forall k | 0 <= k < |w.copies| ensures AllGranted(w.copies[k], w'.grants) {
      GrantedStill(w.copies[k], w.grants, g);
    }
    GrantedStill(w.now.luidMap, w.grants, g);
    assert w'.copies[|w.copies|] == now.luidMap;
    if path in w.now.luidMap {
      assert Granted(w.grants, path, luid);
      var i :| 0 <= i < n && Trim(w.grants[i].path) == path && w.grants[i].luid == luid;
      TrimLeaves(w.grants[i].path);
    } else {
      ParsePrinted(w.now.nextLUID);
      assert Granted(w'.grants, Trim(path), luid);
    }
  }

  lemma StartKeeps(w: World, copy: nat, passed: int, w': World)
    requires Invariant(w) && Next(w, Restart(copy, passed), w')
    ensures Invariant(w')
  {
    assert w'.copies[|w.copies|] == w'.now.luidMap;
  }

  lemma RefreshKeeps(w: World, cached: set<string>, w': World)
    requires Invariant(w) && Next(w, RefreshMap(cached), w')
    ensures Invariant(w')
  {
    assert w'.copies[|w.copies|] == w'.now.luidMap;
    assert AllGranted(w.now.luidMap, w.grants);
  }

  lemma {:induction false} RunKeeps(ws: seq<World>, es: seq<Event>)
    requires IsRun(ws, es)
    ensures Invariant(ws[|es|])
  {
    var n := |es|;
    if n > 0 {
      RunKeeps(ws[..n], es[..n - 1]);
      match es[n - 1]
      case GetLuid(path) => AllocateKeeps(ws[n - 1], path, ws[n]);
      case RefreshMap(cached) => RefreshKeeps(ws[n - 1], cached, ws[n]);
      case Restart(copy, passed) => StartKeeps(ws[n - 1], copy, passed, ws[n]);
    }
  }

  /**
    However the source is used, refreshed and restarted, with whatever older copy of the map and
    whatever number the application passes: a LUID is only ever given to one trimmed path, and the
    LUIDs of the map are distinct and below the next one.
   */
  lemma LuidsAreUnique(ws: seq<World>, es: seq<Event>)
    requires IsRun(ws, es)
    ensures var w := ws[|es|];
      && (forall g, h | g in w.grants && h in w.grants :: g.luid == h.luid ==> Trim(g.path) == Trim(h.path))
      && (forall p, q | p in w.now.luidMap && q in w.now.luidMap :: w.now.luidMap[p] == w.now.luidMap[q] ==> p == q)
      && (forall p | p in w.now.luidMap :: Trim(p) == p && ParseLong(w.now.luidMap[p]) < w.now.nextLUID)
  {
    hide Trim, Next;
    RunKeeps(ws, es);
    var w := ws[|es|];
    forall p | p in w.now.luidMap ensures Granted(w.grants, p, w.now.luidMap[p]) && Trim(p) == p {
      assert AllGranted(w.now.luidMap, w.grants);
      var i :| 0 <= i < |w.grants| && Trim(w.grants[i].path) == p && w.grants[i].luid == w.now.luidMap[p];
      TrimLeaves(w.grants[i].path);
    }
  }

  /** The LUID of a path leads back to it, in any list that holds the map: exactly if the path is trimmed. */
  lemma LuidLeadsBack(ws: seq<World>, es: seq<Event>, path: string, data: seq<KeyValuePair>)
    requires IsRun(ws, es)
    requires DistinctKeys(data) && AsMap(data) == Allocate(ws[|es|].now, path).0.luidMap
    ensures var luid := Allocate(ws[|es|].now, path).1;
      PathOf(data, luid) == Some(Trim(path)) && (PathOf(data, luid) == Some(path) <==> Trim(path) == path)
  {
    hide Trim, AsMap, PathOf;
    var w := ws[|es|];
    var (now, luid) := Allocate(w.now, path);
    LuidsAreUnique(ws, es);
    ParsePrinted(w.now.nextLUID);
    PathOfFinds(data, luid);
    assert Trim(path) in now.luidMap && now.luidMap[Trim(path)] == luid;
    if path !in w.now.luidMap {
      forall q | q in w.now.luidMap ensures w.now.luidMap[q] != luid {
        assert ParseLong(w.now.luidMap[q]) < w.now.nextLUID;
      }
    }
  }

  /** On the first start without a map nothing is asked of the configuration and of the number passed. */
  lemma FirstStart(config: Properties, passed: int, now: Luids)
    requires Started(map[], config, passed, now)
    ensures First(World(now, [map[]], []))
  {
  }

  /**
    A LUID of an older map that is not below the saved next one can be given again: the application passes
    a higher number, the item is removed, and the application passes a lower number at the next start.
   */
  lemma UnsavedReused(config: Properties, n: int, p: string, q: string)
    requires NextSaved(config) <= n
    ensures var luidMap := map[p := Print(n)];
      var s := Luids(luidMap, config, n + 1);
      var s' := Luids(Refresh(luidMap, {}), config, n);
      && Started(luidMap, config, n + 1, s)
      && Started(Refresh(luidMap, {}), config, n, s')
      && Allocate(s', q).1 == Print(n)
  {
    ParsePrinted(n);
  }

  // ---------------------------------------------------------------- statuses by LUID

  /** The map still holds the LUID that was given out for the path. */
  predicate Live(luidMap: Properties, g: Grant) {
    Trim(g.path) in luidMap && luidMap[Trim(g.path)] == g.luid
  }

  /** A status of the server for the LUID under which an item was sent, arriving in the state `at` of a run. */
  datatype Reply = Reply(at: nat, grant: Grant, status: int, command: ChangeTracking.Command, sign: string)

  function AckOf(r: Reply): ChangeTracking.Ack {
    ChangeTracking.Ack(r.grant.path, r.status, r.command, r.sign)
  }

  function Acks(replies: seq<Reply>): (acks: seq<ChangeTracking.Ack>)
    ensures |acks| == |replies|
  {
    seq(|replies|, i requires 0 <= i < |replies| => AckOf(replies[i]))
  }

  /** `setItemStatus` for each of the statuses, with the list of LUIDs of its time. */
  function AfterReplies(cache: Properties, lists: seq<seq<KeyValuePair>>, replies: seq<Reply>): Properties
    requires forall r | r in replies :: r.at < |lists|
  {
    if replies == [] then cache
    else
      var r := replies[|replies| - 1];
      var before := AfterReplies(cache, lists, replies[..|replies| - 1]);
      var path := PathOf(lists[r.at], r.grant.luid);
      if path.None? then before else ChangeTracking.Acknowledge(before, AckOf(r).(key := path.value))
  }

  /** The lists hold the maps of the run. */
  ghost predicate Lists(lists: seq<seq<KeyValuePair>>, ws: seq<World>) {
    |lists| == |ws| && forall k | 0 <= k < |ws| :: DistinctKeys(lists[k]) && AsMap(lists[k]) == ws[k].now.luidMap
  }

  /** Every status names a LUID that was given out before it arrived. */
  ghost predicate ForGrants(replies: seq<Reply>, ws: seq<World>) {
    forall r | r in replies :: r.at < |ws| && r.grant in ws[r.at].grants
  }

  /** The statuses whose LUID the map still held when they arrived. */
  ghost function Reached(replies: seq<Reply>, ws: seq<World>): seq<Reply>
    requires ForGrants(replies, ws)
  {
    if replies == [] then []
    else
      var pre, r := replies[..|replies| - 1], replies[|replies| - 1];
      assert forall q | q in pre :: q in replies;
      Reached(pre, ws) + if Live(ws[r.at].now.luidMap, r.grant) then [r] else []
  }

  lemma {:induction false} ReachedAreLive(replies: seq<Reply>, ws: seq<World>, r: Reply)
    requires ForGrants(replies, ws)
    ensures r in Reached(replies, ws) <==> r in replies && Live(ws[r.at].now.luidMap, r.grant)
  {
    hide Live;
    if replies != [] {
      assert forall q | q in replies[..|replies| - 1] :: q in replies;
      ReachedAreLive(replies[..|replies| - 1], ws, r);
    }
  }

  lemma InvariantAt(ws: seq<World>, es: seq<Event>, k: nat)
    requires IsRun(ws, es) && k < |ws|
    ensures Invariant(ws[k])
  {
    hide Next, First, Invariant;
    RunKeeps(ws[..k + 1], es[..k]);
  }

  /** A LUID that was given out leads to the trimmed path if the map still holds it there, and to none otherwise. */
  lemma GrantLeadsTo(w: World, data: seq<KeyValuePair>, g: Grant)
    requires Invariant(w) && g in w.grants && DistinctKeys(data) && AsMap(data) == w.now.luidMap
    ensures PathOf(data, g.luid) == if Live(w.now.luidMap, g) then Some(Trim(g.path)) else None
  {
    hide Trim, AsMap, PathOf;
    PathOfFinds(data, g.luid);
    var found := PathOf(data, g.luid);
    if found.Some? {
      assert AllGranted(w.now.luidMap, w.grants);
      assert Granted(w.grants, found.value, g.luid);
    }
  }

  /**
    A status changes the cache as if it named the path that was sent, if the map still held the LUID when
    it arrived; otherwise it changes nothing.
   */
  lemma {:induction false} StatusesReach(ws: seq<World>, es: seq<Event>, lists: seq<seq<KeyValuePair>>,
                                         cache: Properties, replies: seq<Reply>)
    requires IsRun(ws, es) && Lists(lists, ws) && ForGrants(replies, ws)
    ensures AfterReplies(cache, lists, replies) == ChangeTracking.AfterAcks(cache, Acks(Reached(replies, ws)))
  {
    hide AsMap, IsRun, Trim, PathOf, Invariant, Live;
    if replies != [] {
      var pre, r := replies[..|replies| - 1], replies[|replies| - 1];
      assert forall q | q in pre :: q in replies;
      StatusesReach(ws, es, lists, cache, pre);
      InvariantAt(ws, es, r.at);
      GrantLeadsTo(ws[r.at], lists[r.at], r.grant);
      TrimmedAck(AfterReplies(cache, lists, pre), AckOf(r));
      var reached := Reached(pre, ws);
      if Live(ws[r.at].now.luidMap, r.grant) {
        assert Reached(replies, ws) == reached + [r];
        assert Acks(reached + [r])[..|reached|] == Acks(reached) && Acks(reached + [r])[|reached|] == AckOf(r);
      } else {
        assert Reached(replies, ws) == reached;
      }
    }
  }

  lemma TrimmedAck(cache: Properties, a: ChangeTracking.Ack)
    ensures ChangeTracking.Acknowledge(cache, a.(key := Trim(a.key))) == ChangeTracking.Acknowledge(cache, a)
  {
    TrimLeaves(a.key);
    hide Trim;
  }

  /** An acknowledgement of this path reached the cache. */
  ghost predicate Arrived(replies: seq<Reply>, ws: seq<World>, path: string)
    requires ForGrants(replies, ws)
  {
    exists r :: r in replies && r.grant.path == path && ChangeTracking.Counts(AckOf(r)) &&
      Live(ws[r.at].now.luidMap, r.grant)
  }

  /** The change of this path is pending afterwards exactly if it was pending and not acknowledged. */
  ghost predicate Settles(cache: Properties, after: Properties, items: ChangeTracking.Items, replies: seq<Reply>,
                          path: string)
  {
    ChangeTracking.Pending(after, items, path)
      == if ChangeTracking.LastSuccess(Acks(replies), path).Some? then None
         else ChangeTracking.Pending(cache, items, path)
  }

  /**
    What was acknowledged has no space at either end, and one of the acknowledgements of every path arrived
    while the map held its LUID, unless there was no change of it to begin with.
   */
  ghost predicate AllArrive(cache: Properties, items: ChangeTracking.Items, replies: seq<Reply>, ws: seq<World>)
    requires ForGrants(replies, ws)
  {
    forall r | r in replies && ChangeTracking.Counts(AckOf(r)) ::
      Trim(r.grant.path) == r.grant.path &&
      if Arrived(replies, ws, r.grant.path) then r.command.Del? || Trim(r.sign) == r.sign
      else ChangeTracking.Pending(cache, items, r.grant.path) == None
  }

  lemma LastOfReplies(replies: seq<Reply>, path: string)
    ensures match ChangeTracking.LastSuccess(Acks(replies), path)
      case Some(a) => exists r :: r in replies && AckOf(r) == a && a.key == path && ChangeTracking.Counts(a)
      case None => forall r | r in replies :: r.grant.path == path ==> !ChangeTracking.Counts(AckOf(r))
    ensures match ChangeTracking.LastWrite(Acks(replies), path)
      case Some(a) => exists r :: r in replies && AckOf(r) == a && Trim(a.key) == path && ChangeTracking.Counts(a)
      case None => forall r | r in replies :: Trim(r.grant.path) == path ==> !ChangeTracking.Counts(AckOf(r))
  {
    hide Trim, ChangeTracking.Counts, ChangeTracking.LastSuccess, ChangeTracking.LastWrite;
    var acks := Acks(replies);
    ChangeTracking.LastIn(acks, path);
    forall r | r in replies ensures AckOf(r) in acks {
      var i :| 0 <= i < |replies| && replies[i] == r;
      assert acks[i] == AckOf(r);
    }
    forall a | a in acks ensures exists r :: r in replies && AckOf(r) == a {
      var i :| 0 <= i < |acks| && acks[i] == a;
      assert replies[i] in replies && AckOf(replies[i]) == a;
    }
  }

  /**
    After the statuses of a session exactly the changes that were not acknowledged are pending, if and only
    if all acknowledgements arrive in this sense.
   */
  lemma MediaConvergence(ws: seq<World>, es: seq<Event>, lists: seq<seq<KeyValuePair>>, cache: Properties,
                         items: ChangeTracking.Items, replies: seq<Reply>)
    requires IsRun(ws, es) && Lists(lists, ws) && ForGrants(replies, ws)
    requires ChangeTracking.TrimmedKeys(cache) && ChangeTracking.Answers(Acks(replies), cache, items)
    ensures var after := AfterReplies(cache, lists, replies);
      (forall path :: Settles(cache, after, items, replies, path)) <==> AllArrive(cache, items, replies, ws)
  {
    hide IsRun, AfterReplies, Trim, Live, Settles, Arrived, Acks, ChangeTracking.Answers, ChangeTracking.Counts;
    var after := AfterReplies(cache, lists, replies);
    StatusesReach(ws, es, lists, cache, replies);
    if r :| r in replies && ChangeTracking.Counts(AckOf(r)) && Trim(r.grant.path) != r.grant.path {
      UntrimmedFails(cache, after, items, replies, ws, r);
    } else {
      forall path {
        SettlesAt(cache, after, items, replies, ws, path);
      }
      SettlesAll(cache, after, items, replies, ws);
    }
  }

  lemma UntrimmedFails(cache: Properties, after: Properties, items: ChangeTracking.Items, replies: seq<Reply>,
                       ws: seq<World>, r: Reply)
    requires ForGrants(replies, ws) && after == ChangeTracking.AfterAcks(cache, Acks(Reached(replies, ws)))
    requires ChangeTracking.TrimmedKeys(cache) && ChangeTracking.Answers(Acks(replies), cache, items)
    requires r in replies && ChangeTracking.Counts(AckOf(r)) && Trim(r.grant.path) != r.grant.path
    ensures !Settles(cache, after, items, replies, r.grant.path)
  {
    hide Trim, Reached, ChangeTracking.LastSuccess, ChangeTracking.AfterAcks, ChangeTracking.IsErrorCode;
    var path := r.grant.path;
    LastOfReplies(replies, path);
    var i :| 0 <= i < |replies| && replies[i] == r;
    assert Acks(replies)[i] == AckOf(r);
    ChangeTracking.UntrimmedStays(cache, items, Acks(Reached(replies, ws)), path);
  }

  /** What settling amounts to for one path. */
  ghost predicate ArrivesAt(cache: Properties, items: ChangeTracking.Items, replies: seq<Reply>, ws: seq<World>,
                            path: string)
    requires ForGrants(replies, ws)
  {
    ChangeTracking.LastSuccess(Acks(replies), path).Some? ==>
      if Arrived(replies, ws, path) then path !in items || Trim(items[path]) == items[path]
      else ChangeTracking.Pending(cache, items, path) == None
  }

  lemma SettlesAt(cache: Properties, after: Properties, items: ChangeTracking.Items, replies: seq<Reply>,
                  ws: seq<World>, path: string)
    requires ForGrants(replies, ws) && after == ChangeTracking.AfterAcks(cache, Acks(Reached(replies, ws)))
    requires ChangeTracking.Answers(Acks(replies), cache, items)
    requires forall r | r in replies && ChangeTracking.Counts(AckOf(r)) :: Trim(r.grant.path) == r.grant.path
    ensures Settles(cache, after, items, replies, path) <==> ArrivesAt(cache, items, replies, ws, path)
  {
    hide Trim, Live, ChangeTracking.LastSuccess, ChangeTracking.LastWrite, ChangeTracking.AfterAcks;
    hide ChangeTracking.IsErrorCode, Reached;
    var reached := Reached(replies, ws);
    ChangeTracking.PendingAfterAcks(cache, Acks(reached), items, path);
    LastOfReplies(replies, path);
    LastOfReplies(reached, path);
    forall r ensures r in reached <==> r in replies && Live(ws[r.at].now.luidMap, r.grant) {
      ReachedAreLive(replies, ws, r);
    }
    AnswersAt(replies, cache, items);
  }

  lemma AnswersAt(replies: seq<Reply>, cache: Properties, items: ChangeTracking.Items)
    requires ChangeTracking.Answers(Acks(replies), cache, items)
    ensures forall r | r in replies && ChangeTracking.Counts(AckOf(r)) ::
      if r.grant.path in items then !r.command.Del? && r.sign == items[r.grant.path] else r.command.Del?
  {
    forall r | r in replies && ChangeTracking.Counts(AckOf(r))
      ensures if r.grant.path in items then !r.command.Del? && r.sign == items[r.grant.path] else r.command.Del?
    {
      var i :| 0 <= i < |replies| && replies[i] == r;
      assert Acks(replies)[i] == AckOf(r);
    }
  }

  lemma SettlesAll(cache: Properties, after: Properties, items: ChangeTracking.Items, replies: seq<Reply>,
                   ws: seq<World>)
    requires ForGrants(replies, ws) && ChangeTracking.Answers(Acks(replies), cache, items)
    requires forall r | r in replies && ChangeTracking.Counts(AckOf(r)) :: Trim(r.grant.path) == r.grant.path
    requires forall path ::
      Settles(cache, after, items, replies, path) <==> ArrivesAt(cache, items, replies, ws, path)
    ensures (forall path :: Settles(cache, after, items, replies, path)) <==> AllArrive(cache, items, replies, ws)
  {
    hide Trim, Arrived, Settles, ChangeTracking.LastSuccess, ChangeTracking.Pending, ChangeTracking.Counts;
    AnswersAt(replies, cache, items);
    forall path
      ensures match ChangeTracking.LastSuccess(Acks(replies), path)
        case Some(a) => exists r :: r in replies && AckOf(r) == a && a.key == path && ChangeTracking.Counts(a)
        case None => forall r | r in replies :: r.grant.path == path ==> !ChangeTracking.Counts(AckOf(r))
    {
      LastOfReplies(replies, path);
    }
    if AllArrive(cache, items, replies, ws) {
      forall path ensures ArrivesAt(cache, items, replies, ws, path) {
      }
    } else {
      var r :| r in replies && ChangeTracking.Counts(AckOf(r)) &&
        !(if Arrived(replies, ws, r.grant.path) then r.command.Del? || Trim(r.sign) == r.sign
          else ChangeTracking.Pending(cache, items, r.grant.path) == None);
      assert !ArrivesAt(cache, items, replies, ws, r.grant.path);
    }
  }

  /** If the map holds every LUID when its acknowledgement arrives, only the spaces matter. */
  lemma LiveArrive(cache: Properties, items: ChangeTracking.Items, replies: seq<Reply>, ws: seq<World>)
    requires ForGrants(replies, ws)
    requires forall r | r in replies && ChangeTracking.Counts(AckOf(r)) :: Live(ws[r.at].now.luidMap, r.grant)
    ensures AllArrive(cache, items, replies, ws) <==> ChangeTracking.AllTrimmed(Acks(replies))
  {
    hide Trim, Live, ChangeTracking.IsErrorCode;
    forall r | r in replies ensures AckOf(r) in Acks(replies) {
      var i :| 0 <= i < |replies| && replies[i] == r;
      assert Acks(replies)[i] == AckOf(r);
    }
    forall a | a in Acks(replies) ensures exists r :: r in replies && AckOf(r) == a {
      var i :| 0 <= i < |replies| && Acks(replies)[i] == a;
      assert replies[i] in replies && AckOf(replies[i]) == a;
    }
  }

  // ---------------------------------------------------------------- how long a LUID stays in the map

  /** The event leaves the LUID of `g` in the map. */
  predicate Spares(e: Event, g: Grant) {
    match e
    case GetLuid(path) => Trim(path) == Trim(g.path) ==> path == Trim(path)
    case RefreshMap(cached) => Trim(g.path) in cached
    case Restart(_, _) => false
  }

  /** A LUID just given out is in the map. */
  lemma GrantIsLive(ws: seq<World>, es: seq<Event>, k: nat, path: string)
    requires IsRun(ws, es) && k < |es| && es[k] == GetLuid(path)
    ensures Live(ws[k + 1].now.luidMap, Grant(path, Allocate(ws[k].now, path).1))
  {
    hide Trim;
    LuidsAreUnique(ws[..k + 1], es[..k]);
    assert Next(ws[k], es[k], ws[k + 1]);
  }

  /** One step without a restart: the LUID stays if and only if the event spares it, and never comes back. */
  lemma LiveStep(ws: seq<World>, es: seq<Event>, k: nat, g: Grant)
    requires IsRun(ws, es) && k < |es| && g in ws[k].grants && !es[k].Restart?
    ensures g in ws[k + 1].grants
    ensures Live(ws[k + 1].now.luidMap, g) <==> Live(ws[k].now.luidMap, g) && Spares(es[k], g)
  {
    hide Trim, ParseLong;
    InvariantAt(ws, es, k);
    LuidsAreUnique(ws[..k + 1], es[..k]);
    assert Next(ws[k], es[k], ws[k + 1]);
    ParsePrinted(ws[k].now.nextLUID);
    assert ParseLong(g.luid) < NextSaved(ws[k].now.config);
  }

  /**
    Without a restart a LUID stays in the map exactly as long as no untrimmed variant of its path is asked
    for and no refresh misses its path in the cache.
   */
  lemma {:induction false} LiveExactly(ws: seq<World>, es: seq<Event>, i: nat, j: nat, g: Grant)
    requires IsRun(ws, es) && i <= j <= |es| && g in ws[i].grants && Live(ws[i].now.luidMap, g)
    requires forall k | i <= k < j :: !es[k].Restart?
    ensures g in ws[j].grants
    ensures Live(ws[j].now.luidMap, g) <==> forall k | i <= k < j :: Spares(es[k], g)
    decreases j - i
  {
    hide IsRun, Live, Spares;
    if i < j {
      LiveExactly(ws, es, i, j - 1, g);
      LiveStep(ws, es, j - 1, g);
    }
  }

  /**
    Two new files "a" and "a " go out in one message. The first is acknowledged, but its LUID is no longer in
    the map: it stays new, though nothing that was acknowledged has a space at either end.
   */
  lemma Overtaken(n: int, sign: string, sign': string, data: seq<KeyValuePair>)
    requires DistinctKeys(data) && n >= 0
    requires var s := Luids(map[], map[], n);
      AsMap(data) == Allocate(Allocate(s, "a").0, "a ").0.luidMap
    ensures var s := Luids(map[], map[], n);
      var (s1, luid) := Allocate(s, "a");
      var (s2, luid2) := Allocate(s1, "a ");
      var w := World(s, [map[]], []);
      var w1 := World(s1, [map[], s1.luidMap], [Grant("a", luid)]);
      var w2 := World(s2, [map[], s1.luidMap, s2.luidMap], [Grant("a", luid), Grant("a ", luid2)]);
      var replies := [Reply(2, Grant("a", luid), 201, ChangeTracking.Add, sign),
                      Reply(2, Grant("a ", luid2), 500, ChangeTracking.Add, sign')];
      && IsRun([w, w1, w2], [GetLuid("a"), GetLuid("a ")])
      && ForGrants(replies, [w, w1, w2])
      && ChangeTracking.Pending(AfterReplies(map[], [[], [], data], replies), map["a" := sign, "a " := sign'], "a")
         == Some(ChangeTracking.Added)
  {
    var s := Luids(map[], map[], n);
    TrimA();
    hide Trim, AsMap, PathOf, ChangeTracking.IsErrorCode;
    var (s1, luid) := Allocate(s, "a");
    var (s2, luid2) := Allocate(s1, "a ");
    ParsePrinted(n);
    ParsePrinted(n + 1);
    assert Started(map[], map[], n, s);
    assert s1 == Luids(map["a" := Print(n)], s1.config, n + 1) && luid == Print(n);
    assert s2.luidMap == map["a" := Print(n + 1)] && luid2 == Print(n + 1);
    PathOfFinds(data, luid);
    var w := World(s, [map[]], []);
    var w1 := World(s1, [map[], s1.luidMap], [Grant("a", luid)]);
    var w2 := World(s2, [map[], s1.luidMap, s2.luidMap], [Grant("a", luid), Grant("a ", luid2)]);
    assert Next(w, GetLuid("a"), w1) && Next(w1, GetLuid("a "), w2);
    var r1 := Reply(2, Grant("a", luid), 201, ChangeTracking.Add, sign);
    var r2 := Reply(2, Grant("a ", luid2), 500, ChangeTracking.Add, sign');
    var lists := [[], [], data];
    assert [r1][..0] == [] && [r1, r2][..1] == [r1];
    assert AfterReplies(map[], lists, [r1]) == map[];
    assert ChangeTracking.IsErrorCode(500) by { Error500(); }
    assert AfterReplies(map[], lists, [r1, r2]) == map[];
  }

  lemma TrimA()
    ensures Trim("a") == "a" && Trim("a ") == "a"
  {
    assert "a "[..1] == "a" && TrimRight("a ") == TrimRight("a") == "a";
  }

  lemma Error500()
    ensures ChangeTracking.IsErrorCode(500)
  {
  }

  /** A path with a space at either end stays a new item, whatever statuses arrive for whatever LUIDs. */
  lemma UntrimmedStaysNew(cache: Properties, lists: seq<seq<KeyValuePair>>, replies: seq<Reply>,
                          items: ChangeTracking.Items, path: string)
    requires forall r | r in replies :: r.at < |lists|
    requires ChangeTracking.TrimmedKeys(cache) && Trim(path) != path && path in items
    ensures ChangeTracking.Pending(AfterReplies(cache, lists, replies), items, path) == Some(ChangeTracking.Added)
  {
    RepliesKeepTrimmed(cache, lists, replies);
    hide AfterReplies, Trim;
  }

  lemma {:induction false} RepliesKeepTrimmed(cache: Properties, lists: seq<seq<KeyValuePair>>, replies: seq<Reply>)
    requires forall r | r in replies :: r.at < |lists|
    requires ChangeTracking.TrimmedKeys(cache)
    ensures ChangeTracking.TrimmedKeys(AfterReplies(cache, lists, replies))
  {
    hide Trim, PathOf, ChangeTracking.IsErrorCode;
    if replies != [] {
      var r := replies[|replies| - 1];
      RepliesKeepTrimmed(cache, lists, replies[..|replies| - 1]);
      var path := PathOf(lists[r.at], r.grant.luid);
      if path.Some? {
        TrimLeaves(path.value);
      }
    }
  }

  /** An untrimmed path shares its new LUID with the path it trims to, and gets another one when asked again. */
  lemma UntrimmedShares(s: Luids, path: string)
    requires path !in s.luidMap && Trim(path) != path
    ensures var (s1, luid) := Allocate(s, path);
      Allocate(s1, Trim(path)).1 == luid && Allocate(s1, path).1 != luid
  {
    ParsePrinted(s.nextLUID);
    ParsePrinted(s.nextLUID + 1);
  }
}
