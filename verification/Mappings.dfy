/**
  spds/SyncManager.cpp and MappingsManager.h: the server knows an item by its GUID, the client by its
  LUID. A mapping made when an item of the server is added stays in the store of its source until a
  message with it was answered, over as many sessions as that takes.
 */
module Mappings {
  import opened Bytes
  import KeyValueStores

  datatype SyncMode =
    | TwoWay | Slow | OneWayFromClient | RefreshFromClient | OneWayFromServer | RefreshFromServer
    | SmartOneWayFromClient | SmartOneWayFromServer
    | IncrementalSmartOneWayFromClient | IncrementalSmartOneWayFromServer

  /** In these modes the mappings of an earlier session are sent again; in the others they are dropped. */
  predicate KeepsMappings(mode: SyncMode) {
    mode.TwoWay? || mode.OneWayFromServer? || mode.SmartOneWayFromServer? || mode.IncrementalSmartOneWayFromServer?
  }

  predicate FromClient(mode: SyncMode) {
    mode.OneWayFromClient? || mode.RefreshFromClient? || mode.SmartOneWayFromClient? ||
    mode.IncrementalSmartOneWayFromClient?
  }

  datatype Mapping = Mapping(source: nat, luid: string, guid: string)

  /** A mapping as the store, a `PropertyFile`, keeps it: LUIDs that trim alike are one. */
  function Kept(m: Mapping): Mapping {
    Mapping(m.source, KeyValueStores.Trim(m.luid), KeyValueStores.Trim(m.guid))
  }

  /** LUID to GUID */
  type Store = map<string, string>

  function Entries(source: nat, store: Store): (r: set<Mapping>)
    ensures forall m :: m in r <==> m.source == source && m.luid in store && store[m.luid] == m.guid
  {
    set luid | luid in store :: Mapping(source, luid, store[luid])
  }

  ghost predicate Holds(stores: seq<Store>, m: Mapping) {
    m.source < |stores| && m in Entries(m.source, stores[m.source])
  }

  /** A Map command for one source. */
  datatype MapCommand = MapCommand(source: nat, items: seq<Mapping>)

  /** All mappings in a list of commands. */
  function Carried(commands: seq<MapCommand>): set<Mapping> {
    set c, m | c in commands && m in c.items :: m
  }

  lemma CarriedAppend(commands: seq<MapCommand>, c: MapCommand)
    ensures Carried(commands + [c]) == Carried(commands) + set m | m in c.items :: m
  {
    assert forall d :: d in commands + [c] <==> d in commands || d == c;
  }

  lemma NothingCarried()
    ensures Carried([]) == {}
  {
  }

  /**
    The changes of the server in one message: the mappings of the items added, and whether
    `checkForServerChanges` got through all of them, as it does unless the client asks to abort
    in the meantime; `final` marks the server's last message.
   */
  datatype Changes = Changes(adds: seq<Mapping>, complete: bool, final: bool)

  /** No answer that is looked at, one that is unreadable or an error, or one with item statuses and changes. */
  datatype Reply = NoReply | Refused | Answer(itemsOk: bool, changes: Changes)

  function ReplyAt(replies: seq<Reply>, i: nat): Reply {
    if i < |replies| then replies[i] else NoReply
  }

  /** What the other side does in a session, and whether the client asks to abort between `sync` and `endSync`. */
  datatype Script = Script(
    begins: seq<bool>, rounds: seq<seq<Reply>>, alert: Reply, changes: seq<Reply>, abort: bool, mapping: Reply)

  predicate Good(r: Reply) {
    r.Answer? && r.itemsOk && r.changes.complete
  }

  /** The server's changes come to an end without a failure. */
  predicate Finishes(first: Changes, replies: seq<Reply>)
    decreases |replies|
  {
    first.complete &&
    (first.final || (replies != [] && replies[0].Answer? && Finishes(replies[0].changes, replies[1..])))
  }

  /** The mappings of the changes that are received one after the other up to the final ones. */
  function Received(first: Changes, replies: seq<Reply>): seq<Mapping>
    decreases |replies|
  {
    first.adds +
      if first.final || replies == [] || !replies[0].Answer? then [] else Received(replies[0].changes, replies[1..])
  }

  /** Nothing goes wrong. */
  ghost predicate GoodScript(script: Script) {
    && (forall i | 0 <= i < |script.begins| :: script.begins[i])
    && (forall i, j | 0 <= i < |script.rounds| && 0 <= j < |script.rounds[i]| :: Good(script.rounds[i][j]))
    && script.alert.Answer? && Finishes(script.alert.changes, script.changes) && !script.abort && script.mapping.Answer?
  }

  /** How the modifications of a source end: with the first reply that is not all right. */
  function RoundsEnd(replies: seq<Reply>): Outcome
    decreases |replies|
  {
    if replies == [] then Done
    else
      match replies[0]
      case Answer(itemsOk, changes) =>
        if !itemsOk then SourceFailed else if !changes.complete then Interrupted else RoundsEnd(replies[1..])
      case _ => Failed
  }

  /** The mark of the last answer that is looked at. */
  function LastMark(mark: bool, replies: seq<Reply>): bool
    decreases |replies|
  {
    if replies == [] || !replies[0].Answer? then mark
    else if Good(replies[0]) then LastMark(replies[0].changes.final, replies[1..])
    else replies[0].changes.final
  }

  /** The server lets the session of this source begin. */
  ghost predicate Begun(script: Script, active: seq<bool>, i: nat) {
    i < |active| && i < |script.begins| && i < |script.rounds| && active[i] && script.begins[i]
  }

  ghost predicate AnyBegun(script: Script, active: seq<bool>, n: nat) {
    exists i :: 0 <= i < n && Begun(script, active, i)
  }

  /** All modifications of this source are sent and all answers are good. */
  ghost predicate Completed(script: Script, active: seq<bool>, i: nat) {
    Begun(script, active, i) && RoundsEnd(script.rounds[i]).Done?
  }

  /** No source up to `n` ends the whole session. */
  ghost predicate NoneFails(script: Script, active: seq<bool>, n: nat) {
    forall i | 0 <= i < n && Begun(script, active, i) ::
      RoundsEnd(script.rounds[i]).Done? || RoundsEnd(script.rounds[i]).SourceFailed?
  }

  ghost function MarkAfter(script: Script, active: seq<bool>, n: nat): bool {
    if n == 0 then false
    else
      var mark := MarkAfter(script, active, n - 1);
      if Begun(script, active, n - 1) then LastMark(mark, script.rounds[n - 1]) else mark
  }

  /** The last of the active sources up to `n` was not begun. */
  ghost function ErrorAfter(script: Script, active: seq<bool>, n: nat): bool
    requires n <= |active|
  {
    if n == 0 then false
    else if active[n - 1] then !Begun(script, active, n - 1)
    else ErrorAfter(script, active, n - 1)
  }

  /**
    When `sync` succeeds: no failure of the transport or of the server, a source that gets through, and the
    server's changes to their end, unless they came with the answers; then the last source must have been begun.
   */
  ghost predicate Succeeds(script: Script, active: seq<bool>) {
    && NoneFails(script, active, |active|)
    && (exists i :: Completed(script, active, i))
    && if MarkAfter(script, active, |active|) then !ErrorAfter(script, active, |active|)
       else script.alert.Answer? && Finishes(script.alert.changes, script.changes)
  }

  ghost predicate NoneFinalIn(replies: seq<Reply>) {
    forall i | 0 <= i < |replies| && replies[i].Answer? :: !replies[i].changes.final
  }

  /** No answer to a modification message is the server's last one, so that its changes are asked for. */
  ghost predicate NoneFinal(script: Script) {
    script.alert.Answer? && forall i | 0 <= i < |script.rounds| :: NoneFinalIn(script.rounds[i])
  }

  /**
    Failed: an error is returned. Interrupted: the client aborted in the server's changes, but no error
    is returned yet.
   */
  datatype Outcome = Failed | Interrupted | SourceFailed | Done

  class SyncManager {
    const modes: seq<SyncMode>
    var active: seq<bool>
    var stores: seq<Store>
    /** the Map commands in the list of commands for the next message */
    var commands: seq<MapCommand>
    /** The client has asked to abort; nothing takes it back. */
    var toAbort: bool

    /** all mappings that were ever made; those in a message that was answered; those overwritten by a
      later mapping of the same LUID; those taken out of a store without being answered; those made in this
      session; and those in the last message */
    ghost var made: set<Mapping>
    ghost var answered: set<Mapping>
    ghost var replaced: set<Mapping>
    ghost var dropped: set<Mapping>
    ghost var added: set<Mapping>
    ghost var sent: set<Mapping>

    ghost predicate Stored(m: Mapping)
      reads this
    {
      Holds(stores, m)
    }

    /** No mapping is ever lost from the books. */
    ghost predicate Valid()
      reads this
    {
      && |active| == |modes| && |stores| == |modes|
      && (forall m | m in made :: m in answered || m in replaced || m in dropped || Stored(m))
      && (forall m | m in dropped :: m.source < |modes|)
    }

    /** What the stores of the active sources up to `n` hold is in the next message or was answered. */
    ghost predicate ActiveCovered(n: nat)
      requires n <= |stores| && |active| == |stores|
      reads this
    {
      forall i | 0 <= i < n && active[i] :: Entries(i, stores[i]) <= Carried(commands) + answered
    }

    /** Only mappings of sources whose mode gives them up were dropped, apart from those of `before`. */
    ghost predicate OnlyGivenUp(before: set<Mapping>)
      reads this
    {
      forall m | m in dropped && m !in before ::
        m.source < |modes| &&
        modes[m.source] !in {TwoWay, OneWayFromServer, SmartOneWayFromServer, IncrementalSmartOneWayFromServer}
    }

    /** What is stored for a source was made in this session. */
    ghost predicate New(i: nat)
      reads this`stores, this`added
    {
      i < |stores| ==> Entries(i, stores[i]) <= added
    }

    twostate predicate StaysNew()
      reads this
    {
      forall i: nat :: old(New(i)) ==> New(i)
    }

    /** In the modes that give up the old mappings, there are only new ones for the active sources up to `n`. */
    ghost predicate GivenUpNew(n: nat)
      requires n <= |active| && n <= |modes|
      reads this
    {
      forall i | 0 <= i < n && active[i] &&
        modes[i] !in {TwoWay, OneWayFromServer, SmartOneWayFromServer, IncrementalSmartOneWayFromServer} :: New(i)
    }

    ghost predicate AllMade(adds: seq<Mapping>)
      reads this
    {
      forall m | m in adds && m.source < |stores| :: Kept(m) in made
    }

    /** The mappings of all items that the answers to modifications brought. */
    ghost predicate RoundsMade(replies: seq<Reply>, n: nat)
      requires n <= |replies|
      reads this
    {
      forall i | 0 <= i < n :: replies[i].Answer? ==> AllMade(replies[i].changes.adds)
    }

    /** The stores are what the sessions before left. */
    constructor (modes: seq<SyncMode>, stores: seq<Store>)
      requires |stores| == |modes|
      ensures Valid() && this.modes == modes && this.stores == stores
      ensures commands == [] && !toAbort && answered == {} && dropped == {} && replaced == {} && added == {}
      ensures made == set i, luid | 0 <= i < |stores| && luid in stores[i] :: Mapping(i, luid, stores[i][luid])
      ensures forall i | 0 <= i < |active| :: active[i]
    {
      this.modes, this.stores := modes, stores;
      active := seq(|modes|, _ => true);
      commands, toAbort := [], false;
      made := set i, luid | 0 <= i < |stores| && luid in stores[i] :: Mapping(i, luid, stores[i][luid]);
      answered, replaced, dropped, added, sent := {}, {}, {}, {}, {};
    }

    /** `addMapCommand`: one more command with every mapping of the store once, if there is any. */
    method AddMapCommand(i: nat)
      requires Valid() && i < |stores|
      modifies this`commands
      ensures Valid() && Carried(commands) == old(Carried(commands)) + Entries(i, stores[i])
      ensures if stores[i] == map[] then commands == old(commands)
              else commands == old(commands) + [MapCommand(i, commands[|commands| - 1].items)] &&
                   multiset(commands[|commands| - 1].items) == multiset(Entries(i, stores[i]))
    {
      hide Carried;
      var items := Enumerate(i, stores[i]);
      AllItems(items, Entries(i, stores[i]));
      assert stores[i] != map[] ==>
        exists luid :: luid in stores[i] && Mapping(i, luid, stores[i][luid]) in Entries(i, stores[i]);
      if items != [] {
        CarriedAppend(commands, MapCommand(i, items));
        commands := commands + [MapCommand(i, items)];
      }
    }

    /** `resetMappings` */
    method ResetMappings(i: nat)
      requires Valid() && i < |stores|
      modifies this`stores, this`dropped
      ensures Valid() && stores == old(stores)[i := map[]]
      ensures dropped == old(dropped) + (Entries(i, old(stores[i])) - answered)
      ensures StaysNew()
    {
      dropped := dropped + (Entries(i, stores[i]) - answered);
      stores := stores[i := map[]];
    }

    /** `addMapping` */
    method AddMapping(m: Mapping)
      requires Valid() && m.source < |stores|
      modifies this`stores, this`made, this`replaced, this`added
      ensures Valid() && made == old(made) + {Kept(m)} && added == old(added) + {Kept(m)} && StaysNew()
      ensures stores ==
        old(stores)[m.source := old(stores[m.source])[KeyValueStores.Trim(m.luid) := KeyValueStores.Trim(m.guid)]]
    {
      hide Carried, KeyValueStores.Trim;
      var store, kept := stores[m.source], Kept(m);
      if kept.luid in store && store[kept.luid] != kept.guid {
        replaced := replaced + {Mapping(kept.source, kept.luid, store[kept.luid])};
      }
      made, added := made + {kept}, added + {kept};
      stores := stores[kept.source := store[kept.luid := kept.guid]];
    }

    /** `setToAbort` */
    method SetToAbort()
      requires Valid()
      modifies this`toAbort
      ensures Valid() && toAbort
    {
      toAbort := true;
    }

    /** A message with the commands is sent, unless the client has asked to abort. */
    method SendMessage(reply: Reply) returns (received: bool)
      requires Valid()
      modifies this`commands, this`answered, this`sent
      ensures Valid() && commands == [] && received == (!toAbort && !reply.NoReply?)
      ensures sent == old(Carried(commands)) && StaysNew()
      ensures answered == if received then old(answered + Carried(commands)) else old(answered)
    {
      received := !toAbort && !reply.NoReply?;
      sent := Carried(commands);
      if received {
        answered := answered + Carried(commands);
      }
      commands := [];
    }

    /** `checkForServerChanges`, and the map commands of all sources if it succeeds. */
    method ServerChanges(changes: Changes) returns (ok: bool)
      requires Valid()
      modifies this`stores, this`made, this`replaced, this`added, this`commands, this`toAbort
      ensures Valid() && ok == changes.complete && toAbort == (old(toAbort) || !ok) && StaysNew()
      ensures ok ==> forall i | 0 <= i < |stores| :: Entries(i, stores[i]) <= Carried(commands) + answered
      ensures !ok ==> commands == old(commands)
      ensures stores == StoresWith(old(stores), changes.adds)
      ensures old(made) <= made && AllMade(changes.adds)
    {
      for k := 0 to |changes.adds|
        invariant Valid() && commands == old(commands) && toAbort == old(toAbort) && |stores| == |old(stores)|
        invariant StaysNew()
        invariant old(made) <= made && forall j | 0 <= j < k && changes.adds[j].source < |stores| ::
          Kept(changes.adds[j]) in made
        invariant StoresWith(old(stores), changes.adds) == StoresWith(stores, changes.adds[k..])
      {
        var m := changes.adds[k];
        assert changes.adds[k..][1..] == changes.adds[k + 1..];
        if m.source < |stores| {
          AddMapping(m);
        }
      }
      if !changes.complete {
        SetToAbort();
        return false;
      }
      for i := 0 to |stores|
        modifies this`commands
        invariant Valid() && forall k | 0 <= k < i :: Entries(k, stores[k]) <= Carried(commands) + answered
      {
        AddMapCommand(i);
      }
      return true;
    }

    /** One message with modifications of the source `count`, and its answer. */
    method SendModifications(count: nat, reply: Reply) returns (outcome: Outcome)
      requires Valid() && count < |stores| && active[count] && ActiveCovered(count)
      modifies this
      ensures Valid() && OnlyGivenUp(old(dropped)) && StaysNew()
      ensures old(made) <= made
      ensures modes[count] !in {TwoWay, OneWayFromServer, SmartOneWayFromServer, IncrementalSmartOneWayFromServer} ==>
        New(count)
      ensures !old(toAbort) && reply.Answer? && reply.itemsOk ==> AllMade(reply.changes.adds)
      ensures outcome == match Got(old(toAbort), reply)
        case Answer(itemsOk, changes) =>
          if !itemsOk then SourceFailed else if changes.complete then Done else Interrupted
        case _ => Failed
      ensures Got(old(toAbort), reply).NoReply? ==> answered == old(answered)
      ensures !Got(old(toAbort), reply).NoReply? ==>
        answered == old(answered + Carried(commands)) +
          if modes[count] in {TwoWay, OneWayFromServer, SmartOneWayFromServer, IncrementalSmartOneWayFromServer}
          then Entries(count, old(stores)[count]) else {}
      ensures stores == match Got(old(toAbort), reply)
        case NoReply =>
          if modes[count] in {TwoWay, OneWayFromServer, SmartOneWayFromServer, IncrementalSmartOneWayFromServer}
          then old(stores) else old(stores)[count := map[]]
        case Refused => old(stores)[count := map[]]
        case Answer(itemsOk, changes) =>
          StoresWith(old(stores)[count := map[]], if itemsOk then changes.adds else [])
      ensures outcome.Done? ==> ActiveCovered(|stores|)
      ensures outcome.SourceFailed? ==> ActiveCovered(count + 1)
      ensures active == if outcome.SourceFailed? then old(active)[count := false] else old(active)
      ensures toAbort == (old(toAbort) || outcome.Interrupted?)
    {
      hide StoresWith, Carried, Entries, Holds;
      NothingAdded(old(stores)[count := map[]]);
      var received := Exchange(count, reply);
      if !received || reply.Refused? {
        return Failed;
      }
      if !reply.itemsOk {
        active := active[count := false];
        return SourceFailed;
      }
      var ok := ServerChanges(reply.changes);
      outcome := if ok then Done else Interrupted;
    }

    /** A message of the source `count` goes out with its mappings, and they are reset if it is answered. */
    method Exchange(count: nat, reply: Reply) returns (received: bool)
      requires Valid() && count < |stores| && active[count] && ActiveCovered(count)
      modifies this`commands, this`stores, this`answered, this`dropped, this`sent
      ensures Valid() && OnlyGivenUp(old(dropped)) && commands == [] && StaysNew()
      ensures modes[count] in {TwoWay, OneWayFromServer, SmartOneWayFromServer, IncrementalSmartOneWayFromServer} ==>
        sent == old(Carried(commands)) + Entries(count, old(stores)[count])
      ensures modes[count] in {
          Slow, OneWayFromClient, RefreshFromClient, RefreshFromServer, SmartOneWayFromClient,
          IncrementalSmartOneWayFromClient} ==>
        sent == old(Carried(commands)) && stores[count] == map[]
      ensures received == !Got(toAbort, reply).NoReply?
      ensures !received ==>
        answered == old(answered) &&
        stores == if modes[count] in {TwoWay, OneWayFromServer, SmartOneWayFromServer, IncrementalSmartOneWayFromServer}
                  then old(stores) else old(stores)[count := map[]]
      ensures received ==>
        stores == old(stores)[count := map[]] && ActiveCovered(count + 1) &&
        answered == old(answered + Carried(commands)) +
          if modes[count] in {TwoWay, OneWayFromServer, SmartOneWayFromServer, IncrementalSmartOneWayFromServer}
          then Entries(count, old(stores)[count]) else {}
    {
      hide Carried;
      NothingCarried();
      if KeepsMappings(modes[count]) {
        AddMapCommand(count);
      } else {
        ResetMappings(count);
      }
      received := SendMessage(reply);
      if received {
        ResetMappings(count);
      }
      assert received ==> stores == old(stores)[count := map[]];
    }

    /** All modification messages of one source; `final` is the mark of the last answer. */
    method SendSource(count: nat, replies: seq<Reply>, wasFinal: bool) returns (outcome: Outcome, final: bool)
      requires Valid() && count < |stores| && active[count] && ActiveCovered(count) && replies != []
      modifies this
      ensures Valid() && OnlyGivenUp(old(dropped)) && StaysNew()
      ensures modes[count] !in {TwoWay, OneWayFromServer, SmartOneWayFromServer, IncrementalSmartOneWayFromServer} ==>
        New(count)
      ensures old(made) <= made
      ensures outcome.Done? || outcome.SourceFailed? ==> ActiveCovered(count + 1)
      ensures active == if outcome.SourceFailed? then old(active)[count := false] else old(active)
      ensures outcome.Done? ==> RoundsMade(replies, |replies|)
      ensures outcome == if old(toAbort) then Failed else RoundsEnd(replies)
      ensures !old(toAbort) && !outcome.Failed? ==> final == LastMark(wasFinal, replies)
      ensures !wasFinal && NoneFinalIn(replies) ==> !final
      ensures !old(toAbort) && (forall i | 0 <= i < |replies| :: Good(replies[i])) ==>
        outcome.Done? && active == old(active)
      ensures toAbort == (old(toAbort) || outcome.Interrupted?)
    {
      hide StoresWith, Carried, Entries, Holds;
      final := wasFinal;
      outcome := Done;
      for i := 0 to |replies|
        invariant old(made) <= made
        invariant Valid() && OnlyGivenUp(old(dropped)) && active == old(active) && StaysNew()
        invariant
          i > 0 && modes[count] !in {
            TwoWay, OneWayFromServer, SmartOneWayFromServer, IncrementalSmartOneWayFromServer} ==>
          New(count)
        invariant outcome == Done && toAbort == old(toAbort)
        invariant if i == 0 then ActiveCovered(count) else ActiveCovered(|stores|)
        invariant RoundsMade(replies, i)
        invariant RoundsEnd(replies) == RoundsEnd(replies[i..])
        invariant LastMark(wasFinal, replies) == LastMark(final, replies[i..])
        invariant i > 0 ==> !toAbort
        invariant !wasFinal && NoneFinalIn(replies) ==> !final
      {
        RoundsOnward(final, replies, i);
        if replies[i].Answer? {
          final := replies[i].changes.final;
        }
        outcome := SendModifications(count, replies[i]);
        if !outcome.Done? {
          return;
        }
      }
    }

    /** The server's changes, message after message; every answer resets the mappings of all sources. */
    method ReceiveChanges(first: Changes, replies: seq<Reply>) returns (outcome: Outcome)
      requires Valid() && ActiveCovered(|stores|) && commands == []
      modifies this
      ensures old(made) <= made && StaysNew()
      ensures Valid() && OnlyGivenUp(old(dropped)) && active == old(active)
      ensures stores == StoresAfter(old(stores), old(toAbort), first, replies)
      ensures outcome.Done? ==> ActiveCovered(|stores|)
      ensures toAbort == (old(toAbort) || outcome.Interrupted?)
      ensures !old(toAbort) ==> (outcome.Done? <==> Finishes(first, replies))
      ensures outcome.Done? ==> AllMade(Received(first, replies))
      ensures !outcome.SourceFailed?
    {
      hide Received, Finishes, StoresWith, StoresAfter, Carried, Entries, Holds, New;
      NothingCarried();
      var changes := first;
      var i := 0;
      ghost var before: seq<Mapping> := [];
      while true
        invariant old(made) <= made && StaysNew() && i <= |replies|
        invariant StoresAfter(old(stores), old(toAbort), first, replies)
               == StoresAfter(stores, toAbort, changes, replies[i..])
        invariant Valid() && OnlyGivenUp(old(dropped)) && active == old(active)
        invariant Finishes(first, replies) == Finishes(changes, replies[i..])
        invariant AllMade(before) && Received(first, replies) == before + Received(changes, replies[i..])
        invariant commands == [] && toAbort == old(toAbort)
        decreases |replies| - i
      {
        Onward(changes, replies, i);
        StoresOnward(stores, toAbort, changes, replies, i);
        var ok := ServerChanges(changes);
        if !ok {
          return Interrupted;
        }
        if changes.final {
          return Done;
        }
        var reply := ReplyAt(replies, i);
        var received := SendMessage(reply);
        if !received {
          return Failed;
        }
        ResetAll();
        if reply.Refused? {
          return Failed;
        }
        Associative(before, changes.adds, Received(reply.changes, replies[i + 1..]));
        before := before + changes.adds;
        changes := reply.changes;
        i := i + 1;
      }
    }

    method ResetAll()
      requires Valid() && forall i | 0 <= i < |stores| :: Entries(i, stores[i]) <= answered
      modifies this`stores, this`dropped
      ensures Valid() && dropped == old(dropped) && StaysNew()
      ensures stores == Emptied(|old(stores)|)
    {
      for i := 0 to |stores|
        modifies this`stores, this`dropped
        invariant Valid() && dropped == old(dropped) && StaysNew()
        invariant |stores| == |old(stores)| && forall k | 0 <= k < i :: stores[k] == map[]
        invariant forall k | i <= k < |stores| :: Entries(k, stores[k]) <= answered
      {
        ResetMappings(i);
      }
    }

    /** The modifications of all sources; `outcome` is done unless something ends the session. */
    method SendAll(script: Script) returns (outcome: Outcome, final: bool, anyCorrect: bool, beginError: bool)
      requires Valid() && commands == []
      requires |script.begins| == |script.rounds| == |modes| && forall i | 0 <= i < |modes| :: script.rounds[i] != []
      modifies this
      ensures Valid() && OnlyGivenUp(old(dropped)) && old(made) <= made
      ensures outcome.Done? ==> ActiveCovered(|stores|) && GivenUpNew(|stores|)
      ensures toAbort == (old(toAbort) || outcome.Interrupted?) && !outcome.SourceFailed?
      ensures outcome.Done? ==> forall i | 0 <= i < |modes| && active[i] ::
        RoundsMade(script.rounds[i], |script.rounds[i]|)
      ensures !old(toAbort) ==> (outcome.Done? <==> NoneFails(script, old(active), |modes|))
      ensures old(toAbort) && outcome.Done? ==> !anyCorrect
      ensures outcome.Done? && !old(toAbort) ==> final == MarkAfter(script, old(active), |modes|)
      ensures outcome.Done? ==>
        && anyCorrect == AnyBegun(script, old(active), |modes|)
        && beginError == ErrorAfter(script, old(active), |modes|)
        && forall i | 0 <= i < |modes| :: active[i] <==> Completed(script, old(active), i)
    {
      hide StoresWith, Carried, Entries, Holds, New, RoundsEnd, LastMark, MarkAfter, ErrorAfter, NoneFails, AnyBegun;
      NothingCarried();
      NoSource(script, active);
      outcome, final, anyCorrect, beginError := Done, false, false, false;
      for count := 0 to |modes|
        invariant old(made) <= made && outcome.Done?
        invariant Valid() && OnlyGivenUp(old(dropped)) && ActiveCovered(count) && toAbort == old(toAbort)
        invariant GivenUpNew(count)
        invariant forall i | 0 <= i < count && active[i] :: RoundsMade(script.rounds[i], |script.rounds[i]|)
        invariant !toAbort ==> NoneFails(script, old(active), count) && final == MarkAfter(script, old(active), count)
        invariant anyCorrect == AnyBegun(script, old(active), count) && (toAbort ==> !anyCorrect)
        invariant beginError == ErrorAfter(script, old(active), count)
        invariant forall i | count <= i < |modes| :: active[i] == old(active)[i]
        invariant forall i | 0 <= i < count :: active[i] <==> Completed(script, old(active), i)
      {
        NextSource(script, old(active), count);
        if active[count] {
          if !script.begins[count] {
            active := active[count := false];
            beginError := true;
          } else {
            anyCorrect := true;
            beginError := false;
            outcome, final := SendSource(count, script.rounds[count], final);
            if outcome.Failed? || outcome.Interrupted? {
              FailsBefore(script, old(active), count + 1, |modes|);
              return;
            }
            outcome := Done;
          }
        }
      }
    }

    /** `sync` */
    method Sync(script: Script) returns (outcome: Outcome)
      requires Valid() && commands == []
      requires |script.begins| == |script.rounds| == |modes| && forall i | 0 <= i < |modes| :: script.rounds[i] != []
      modifies this
      ensures Valid() && OnlyGivenUp(old(dropped)) && old(made) <= made
      ensures outcome.Done? ==> ActiveCovered(|stores|) && GivenUpNew(|stores|)
      ensures toAbort == (old(toAbort) || outcome.Interrupted?)
      ensures outcome.Done? ==> forall i | 0 <= i < |modes| && active[i] ::
        RoundsMade(script.rounds[i], |script.rounds[i]|)
      ensures outcome.Done? && NoneFinal(script) ==> AllMade(Received(script.alert.changes, script.changes))
      ensures !outcome.SourceFailed?
      ensures outcome.Done? <==> !old(toAbort) && Succeeds(script, old(active))
      ensures outcome.Done? ==> forall i | 0 <= i < |modes| :: active[i] <==> Completed(script, old(active), i)
    {
      hide Finishes, Received, StoresWith, StoresAfter, Carried, Entries, Holds, New;
      hide RoundsEnd, LastMark, NoneFails;
      NothingCarried();
      var final, isAtLeastOneSourceCorrect, beginError;
      outcome, final, isAtLeastOneSourceCorrect, beginError := SendAll(script);
      if !outcome.Done? {
        return;
      }
      if true !in active || !isAtLeastOneSourceCorrect {
        return Failed;
      }
      NoMark(script, old(active), |modes|);
      if final {
        // the error of the last source is still there to be returned
        return if beginError then Failed else Done;
      }
      var received := SendMessage(script.alert);
      if !received || !script.alert.Answer? {
        return Failed;
      }
      outcome := ReceiveChanges(script.alert.changes, script.changes);
    }

    /** What the last message of a session does not carry, though it is reset when that is answered. */
    ghost function Uncarried(): set<Mapping>
      requires |active| == |stores|
      reads this
    {
      Unanswered(active, stores, answered + Carried(commands), |stores|)
    }

    /** All active sources up to `n` only send, and there is nothing for the last message. */
    ghost predicate NothingToSend(others: bool, n: nat)
      requires n <= |modes| == |active| == |stores|
      reads this
    {
      forall i | 0 <= i < n && active[i] ::
        !others && commands == [] && stores[i] == map[] &&
        modes[i] in {OneWayFromClient, RefreshFromClient, SmartOneWayFromClient, IncrementalSmartOneWayFromClient}
    }

    /** `endSync`; `others` says if the list of commands holds statuses. An abort comes before anything is reset. */
    method EndSync(others: bool, reply: Reply) returns (ok: bool)
      requires Valid()
      modifies this
      ensures Valid() && dropped == old(dropped) + if toAbort || reply.NoReply? then {} else old(Uncarried())
      ensures made == old(made) && answered <= old(answered + Carried(commands)) && active == old(active)
      ensures toAbort == old(toAbort)
      ensures ok == ((!toAbort && reply.Answer?) || old(NothingToSend(others, |modes|)))
      ensures StaysNew()
      ensures toAbort || reply.NoReply? ==> stores == old(stores) && answered == old(answered)
      ensures !toAbort && !reply.NoReply? ==>
        forall i | 0 <= i < |stores| :: stores[i] == if old(active)[i] then map[] else old(stores)[i]
    {
      hide Carried;
      var msgToSend := false;
      for count := 0 to |modes|
        modifies {}
        invariant msgToSend == !NothingToSend(others, count)
      {
        if active[count] && !(FromClient(modes[count]) && !others && commands == [] && stores[count] == map[]) {
          msgToSend := true;
        }
      }
      if !msgToSend {
        NothingUnanswered(active, stores, answered + Carried(commands), |stores|);
        return true;
      }
      var received := SendMessage(reply);
      if !received {
        return false;
      }
      ResetActive();
      ok := reply.Answer?;
    }

    /** The stores of the active sources are reset. */
    method ResetActive()
      requires Valid()
      modifies this`stores, this`dropped
      ensures Valid() && |stores| == |old(stores)| && StaysNew()
      ensures forall i | 0 <= i < |stores| :: stores[i] == if active[i] then map[] else old(stores)[i]
      ensures dropped == old(dropped) + Unanswered(active, old(stores), answered, |stores|)
    {
      for count := 0 to |modes|
        modifies this`stores, this`dropped
        invariant Valid() && StaysNew() && forall i | 0 <= i < |stores| ::
          stores[i] == if i < count && active[i] then map[] else old(stores)[i]
        invariant dropped == old(dropped) + Unanswered(active, old(stores), answered, count)
      {
        if active[count] {
          ResetMappings(count);
        }
      }
    }

    /**
      A whole session, as `SyncClient::sync` runs it: `endSync` follows unless `sync` fails. Whatever
      happens, a mapping that is not answered stays in its store, if the mode of its source keeps
      mappings. If nothing goes wrong, all mappings are answered and the stores are empty.
     */
    method Session(script: Script, others: bool) returns (ok: bool)
      requires Valid() && commands == []
      requires |script.begins| == |script.rounds| == |modes| && forall i | 0 <= i < |modes| :: script.rounds[i] != []
      modifies this
      ensures Valid() && OnlyGivenUp(old(dropped)) && old(made) <= made
      ensures forall m | m in made && m !in old(dropped) && m.source < |modes| ::
        modes[m.source] in {TwoWay, OneWayFromServer, SmartOneWayFromServer, IncrementalSmartOneWayFromServer} ==>
          m in answered || m in replaced || Stored(m)
      ensures ok ==> GivenUpNew(|stores|)
      ensures old(toAbort) || (ok && script.abort) ==> toAbort
      ensures !old(toAbort) && Succeeds(script, old(active)) ==>
        toAbort == script.abort && (!script.abort && script.mapping.Answer? ==> ok)
      ensures ok && toAbort ==> forall i | 0 <= i < |modes| && active[i] ::
        modes[i] in {OneWayFromClient, RefreshFromClient, SmartOneWayFromClient, IncrementalSmartOneWayFromClient}
      ensures !old(toAbort) && GoodScript(script) && true in old(active) ==>
        && ok && active == old(active)
        && (forall i | 0 <= i < |modes| && active[i] :: RoundsMade(script.rounds[i], |script.rounds[i]|))
        && (NoneFinal(script) ==> AllMade(Received(script.alert.changes, script.changes)))
        && (forall i | 0 <= i < |stores| && active[i] :: stores[i] == map[])
        && (forall m | m in made && m !in old(dropped) && m.source < |modes| && active[m.source] ::
              modes[m.source] in {TwoWay, OneWayFromServer, SmartOneWayFromServer, IncrementalSmartOneWayFromServer} ==>
                m in answered || m in replaced)
    {
      GoodSucceeds(script, active);
      var outcome := Sync(script);
      if outcome.Failed? {
        return false;
      }
      if script.abort {
        SetToAbort();
      }
      ok := EndSync(others, script.mapping);
    }
  }

  /**
    Session after session, each in its own modes and starting from the stores that the last one left:
    whatever fails and whenever the client aborts, every mapping there was, and every mapping made, was
    answered, is still stored, or was overwritten, if the modes of its source all keep mappings.
   */
  method Sessions(modes: seq<seq<SyncMode>>, first: seq<Store>, scripts: seq<Script>, others: bool)
      returns (stores: seq<Store>, ghost made: set<Mapping>, ghost answered: set<Mapping>, ghost replaced: set<Mapping>)
    requires |modes| == |scripts|
    requires forall n | 0 <= n < |scripts| ::
      && |scripts[n].begins| == |scripts[n].rounds| == |modes[n]| == |first|
      && forall i | 0 <= i < |first| :: scripts[n].rounds[i] != []
    ensures |stores| == |first|
    ensures forall m | Holds(first, m) :: m in made
    ensures forall m | m in made && m.source < |first| && KeptInAll(modes, m.source) ::
      m in answered || m in replaced || Holds(stores, m)
  {
    stores := first;
    made := set i, luid | 0 <= i < |first| && luid in first[i] :: Mapping(i, luid, first[i][luid]);
    answered, replaced := {}, {};
    for n := 0 to |scripts|
      invariant |stores| == |first|
      invariant forall m | Holds(first, m) :: m in made
      invariant forall m | m in made && m.source < |first| && KeptInAll(modes, m.source) ::
        m in answered || m in replaced || Holds(stores, m)
    {
      var session := new SyncManager(modes[n], stores);
      var ok := session.Session(scripts[n], others);
      made, answered, replaced := made + session.made, answered + session.answered, replaced + session.replaced;
      stores := session.stores;
    }
  }

  /** The mappings in the stores of the active sources up to `n` that are not in `answered`. */
  function Unanswered(active: seq<bool>, stores: seq<Store>, answered: set<Mapping>, n: nat): (r: set<Mapping>)
    requires n <= |stores| == |active|
    ensures forall m :: m in r <==> m.source < n && active[m.source] && Holds(stores, m) && m !in answered
  {
    if n == 0 then {}
    else
      Unanswered(active, stores, answered, n - 1) +
        if active[n - 1] then Entries(n - 1, stores[n - 1]) - answered else {}
  }

  lemma NothingUnanswered(active: seq<bool>, stores: seq<Store>, answered: set<Mapping>, n: nat)
    requires n <= |stores| == |active| && forall i | 0 <= i < n && active[i] :: stores[i] == map[]
    ensures Unanswered(active, stores, answered, n) == {}
  {
  }

  /** In every session the mode of the source keeps mappings. */
  ghost predicate KeptInAll(modes: seq<seq<SyncMode>>, source: nat) {
    forall n | 0 <= n < |modes| ::
      source < |modes[n]| &&
      modes[n][source] in {TwoWay, OneWayFromServer, SmartOneWayFromServer, IncrementalSmartOneWayFromServer}
  }

  /** A client that aborts sees no reply. */
  function Got(toAbort: bool, reply: Reply): Reply {
    if toAbort then NoReply else reply
  }

  /** The enumeration of a store. */
  method Enumerate(source: nat, store: Store) returns (items: seq<Mapping>)
    ensures multiset(items) == multiset(Entries(source, store))
  {
    items := [];
    var left := store.Keys;
    ghost var before: set<Mapping> := {};
    while left != {}
      invariant left <= store.Keys && multiset(items) == multiset(before)
      invariant before == Entries(source, map luid | luid in store && luid !in left :: store[luid])
      decreases |left|
    {
      hide Entries;
      var luid :| luid in left;
      NextEntry(source, store, left, luid);
      NextItem(items, before, Mapping(source, luid, store[luid]));
      items := items + [Mapping(source, luid, store[luid])];
      before := before + {Mapping(source, luid, store[luid])};
      left := left - {luid};
    }
    assert store == map luid | luid in store && luid !in left :: store[luid];
  }

  lemma NextItem(items: seq<Mapping>, before: set<Mapping>, m: Mapping)
    requires multiset(items) == multiset(before) && m !in before
    ensures multiset(items + [m]) == multiset(before + {m})
  {
  }

  lemma NextEntry(source: nat, store: Store, left: set<string>, luid: string)
    requires luid in left && left <= store.Keys
    ensures var m := Mapping(source, luid, store[luid]);
      var before := Entries(source, map l | l in store && l !in left :: store[l]);
      var after := Entries(source, map l | l in store && l !in left - {luid} :: store[l]);
      m !in before && after == before + {m}
  {
  }

  lemma AllItems(items: seq<Mapping>, entries: set<Mapping>)
    requires multiset(items) == multiset(entries)
    ensures (set m | m in items :: m) == entries && (items == [] <==> entries == {})
  {
    assert forall m :: m in items <==> m in multiset(items);
    assert forall m :: m in entries <==> m in multiset(entries);
    assert |multiset(items)| == |items|;
  }

  /** The stores after the mappings were added one by one. */
  function StoresWith(stores: seq<Store>, adds: seq<Mapping>): (r: seq<Store>)
    ensures |r| == |stores|
    decreases |adds|
  {
    if adds == [] then stores
    else
      var m := Kept(adds[0]);
      StoresWith(if m.source < |stores| then stores[m.source := stores[m.source][m.luid := m.guid]] else stores,
                 adds[1..])
  }

  /** A script without a failure succeeds, and no source is lost. */
  lemma GoodSucceeds(script: Script, active: seq<bool>)
    requires |script.begins| == |script.rounds| == |active|
    ensures GoodScript(script) && true in active ==> Succeeds(script, active)
    ensures GoodScript(script) ==> forall i | 0 <= i < |active| :: active[i] <==> Completed(script, active, i)
  {
    hide Finishes, ErrorAfter, MarkAfter;
    forall i | 0 <= i < |script.rounds| && GoodScript(script) ensures RoundsEnd(script.rounds[i]).Done? {
      GoodRounds(script.rounds[i]);
    }
    if GoodScript(script) {
      NoError(script, active, |active|);
      if i :| 0 <= i < |active| && active[i] {
        assert Completed(script, active, i);
      }
    }
  }

  lemma NoSource(script: Script, active: seq<bool>)
    ensures NoneFails(script, active, 0) && !MarkAfter(script, active, 0) && !AnyBegun(script, active, 0)
    ensures !ErrorAfter(script, active, 0)
  {
  }

  lemma NextSource(script: Script, active: seq<bool>, n: nat)
    requires n < |active|
    ensures NoneFails(script, active, n + 1) <==>
      NoneFails(script, active, n) &&
      (Begun(script, active, n) ==>
        RoundsEnd(script.rounds[n]).Done? || RoundsEnd(script.rounds[n]).SourceFailed?)
    ensures AnyBegun(script, active, n + 1) <==> AnyBegun(script, active, n) || Begun(script, active, n)
    ensures MarkAfter(script, active, n + 1) ==
      if Begun(script, active, n) then LastMark(MarkAfter(script, active, n), script.rounds[n])
      else MarkAfter(script, active, n)
    ensures ErrorAfter(script, active, n + 1) ==
      if active[n] then !Begun(script, active, n) else ErrorAfter(script, active, n)
  {
    hide RoundsEnd, LastMark;
  }

  lemma FailsBefore(script: Script, active: seq<bool>, n: nat, k: nat)
    requires n <= k
    ensures NoneFails(script, active, k) ==> NoneFails(script, active, n)
  {
    hide RoundsEnd;
  }

  lemma {:induction false} GoodRounds(replies: seq<Reply>)
    requires forall i | 0 <= i < |replies| :: Good(replies[i])
    ensures RoundsEnd(replies).Done?
  {
    if replies != [] {
      assert Good(replies[0]);
      GoodRounds(replies[1..]);
    }
  }

  lemma {:induction false} NoError(script: Script, active: seq<bool>, n: nat)
    requires GoodScript(script) && n <= |active| == |script.begins| == |script.rounds|
    ensures !ErrorAfter(script, active, n)
  {
    if n > 0 && !active[n - 1] {
      NoError(script, active, n - 1);
    }
  }

  lemma {:induction false} NoLastMark(replies: seq<Reply>)
    requires NoneFinalIn(replies)
    ensures !LastMark(false, replies)
  {
    if replies != [] && Good(replies[0]) {
      NoLastMark(replies[1..]);
    }
  }

  lemma {:induction false} NoMark(script: Script, active: seq<bool>, n: nat)
    ensures NoneFinal(script) ==> !MarkAfter(script, active, n)
  {
    hide LastMark;
    if n > 0 && NoneFinal(script) {
      NoMark(script, active, n - 1);
      if Begun(script, active, n - 1) {
        NoLastMark(script.rounds[n - 1]);
      }
    }
  }

  lemma RoundsOnward(mark: bool, replies: seq<Reply>, i: nat)
    requires i < |replies|
    ensures var r := replies[i];
      && RoundsEnd(replies[i..]) == (
           if Good(r) then RoundsEnd(replies[i + 1..])
           else if !r.Answer? then Failed else if !r.itemsOk then SourceFailed else Interrupted)
      && LastMark(mark, replies[i..]) == (
           if Good(r) then LastMark(r.changes.final, replies[i + 1..]) else if r.Answer? then r.changes.final else mark)
  {
    assert replies[i..][0] == replies[i] && replies[i..][1..] == replies[i + 1..];
  }

  function Emptied(n: nat): (r: seq<Store>)
    ensures |r| == n && forall i | 0 <= i < n :: r[i] == map[]
  {
    seq(n, _ => map[])
  }

  /** Changes are received one after the other, and each answer empties all stores before its changes go in. */
  function StoresAfter(stores: seq<Store>, toAbort: bool, first: Changes, replies: seq<Reply>): seq<Store>
    decreases |replies|
  {
    var stores' := StoresWith(stores, first.adds);
    if !first.complete || first.final || toAbort || replies == [] || replies[0].NoReply? then stores'
    else if replies[0].Refused? then Emptied(|stores|)
    else StoresAfter(Emptied(|stores|), toAbort, replies[0].changes, replies[1..])
  }

  lemma StoresOnward(stores: seq<Store>, toAbort: bool, c: Changes, replies: seq<Reply>, i: nat)
    requires i <= |replies|
    ensures StoresAfter(stores, toAbort, c, replies[i..]) ==
      if !c.complete || c.final || toAbort then StoresWith(stores, c.adds)
      else match ReplyAt(replies, i)
        case NoReply => StoresWith(stores, c.adds)
        case Refused => Emptied(|stores|)
        case Answer(_, changes) => StoresAfter(Emptied(|stores|), toAbort, changes, replies[i + 1..])
  {
    hide StoresWith;
    assert i < |replies| ==> replies[i..][0] == replies[i] && replies[i..][1..] == replies[i + 1..];
  }

  lemma Onward(c: Changes, replies: seq<Reply>, i: nat)
    requires i <= |replies|
    ensures var r := ReplyAt(replies, i);
      var goesOn := !c.final && r.Answer?;
      && (Finishes(c, replies[i..])
          <==> (c.complete && (c.final || (goesOn && Finishes(r.changes, replies[i + 1..])))))
      && Received(c, replies[i..]) == c.adds + if goesOn then Received(r.changes, replies[i + 1..]) else []
  {
    assert i < |replies| ==> replies[i..][0] == replies[i] && replies[i..][1..] == replies[i + 1..];
  }

  lemma NothingAdded(stores: seq<Store>)
    ensures StoresWith(stores, []) == stores
  {
  }
}
