/** The server's side of blocking on keys: every operation keeps the index and the counts, and a round over the
    ready keys does what its specification says. */
module Blocked {
  import opened CString
  import opened BlockedIndex
  import opened BlockedWorld

  class Server {
    var clients: Clients
    /** db->blocking_keys, db->blocking_keys_unblock_on_nokey */
    var queues: Queues
    var noKey: map<Key, nat>
    /** server.blocked_clients_by_type, server.blocked_clients */
    var byType: map<BlockType, nat>
    var blockedClients: nat
    /** db->ready_keys, server.ready_keys, and the list being handled */
    var readyDict: set<Key>
    var ready: seq<Key>
    var pending: seq<Key>

    ghost predicate Valid()
      reads this
    {
      Core(clients, queues, noKey) && Rest()
    }

    ghost function Abs(): World
      reads this
    {
      World(clients, queues, pending, ready)
    }

    constructor ()
      ensures Valid() && clients == map[] && queues == map[] && ready == [] && pending == []
    {
      clients, queues, noKey := map[], map[], map[];
      byType := map[LIST := 0, ZSET := 0, STREAM := 0, MODULE := 0, WAIT := 0, WAITAOF := 0, POSTPONE := 0,
                    SHUTDOWN := 0, LAZYFREE := 0];
      blockedClients, readyDict, ready, pending := 0, {}, [], [];
      new;
      forall t: BlockType ensures t in byType && byType[t] == |OfType(clients, t)| {
        assert OfType(clients, t) == {};
        assert t.LIST? || t.ZSET? || t.STREAM? || t.MODULE? || t.WAIT? || t.WAITAOF? || t.POSTPONE? || t.SHUTDOWN?
               || t.LAZYFREE?;
      }
      assert Regular(clients) == {};
      forall k ensures Wanting(clients, QueueOf(queues, k)) == {} {}
    }

    /** A new client, with initClientBlockingState(). */
    method AddClient(c: ClientId, isModule: bool)
      requires Valid() && c !in clients
      modifies `clients
      ensures Valid() && clients == old(clients)[c := Client(isModule, None, {}, false)]
    {
      hide ReadyIs;
      ghost var all := clients;
      clients := clients[c := Client(isModule, None, {}, false)];
      forall k ensures c !in QueueOf(queues, k) && GoodQueue(clients, QueueOf(queues, k)) {
        assert GoodQueue(all, QueueOf(queues, k));
      }
      forall k ensures Wanting(clients, QueueOf(queues, k)) == Wanting(all, QueueOf(queues, k)) {}
      forall t: BlockType ensures OfType(clients, t) == OfType(all, t) {}
      assert Regular(clients) == Regular(all);
    }

    /** blockClient() */
    method BlockClient(c: ClientId, btype: BlockType)
      requires Core(clients, queues, noKey) && Counted(clients, byType, blockedClients)
      requires c in clients && clients[c].btype.None?
      modifies `clients, `byType, `blockedClients
      ensures Core(clients, queues, noKey) && Counted(clients, byType, blockedClients)
      ensures clients == old(clients)[c := old(clients)[c].(btype := Some(btype))]
    {
      hide Core, Counted;
      var after := clients[c].(btype := Some(btype));
      BlockCounts(clients, byType, blockedClients, c, after);
      RelabelKeeps(clients, queues, noKey, c, after);
      TypeKnown(clients, byType, blockedClients, btype);
      if !clients[c].isModule { blockedClients := blockedClients + 1; }
      byType := byType[btype := byType[btype] + 1];
      clients := clients[c := after];
    }

    /** The loop of blockForKeys(): the client joins the end of the queue of each distinct key. */
    method JoinQueues(c: ClientId, keys: seq<Key>, onNoKey: bool, ghost me: Client) returns (mine: set<Key>)
      requires c in clients && me.onNoKey == onNoKey && Core(clients[c := me.(keys := {})], queues, noKey)
      modifies `queues, `noKey
      ensures mine == KeySet(keys) && Core(clients[c := me.(keys := mine)], queues, noKey)
      ensures forall k :: QueueOf(queues, k) == QueueOf(old(queues), k) + if k in mine then [c] else []
    {
      hide Core, Enqueued, Bumped, QueueOf;
      mine := {};
      var j := 0;
      while j < |keys|
        invariant 0 <= j <= |keys| && mine == KeySet(keys[..j])
        invariant Core(clients[c := me.(keys := mine)], queues, noKey)
        invariant forall k :: QueueOf(queues, k) == QueueOf(old(queues), k) + if k in mine then [c] else []
      {
        var k := keys[j];
        assert keys[..j + 1] == keys[..j] + [k];
        if k !in mine {
          ghost var view := clients[c := me.(keys := mine)];
          EnqueueKeeps(view, queues, noKey, c, k);
          EnqueuedQueue(queues, k, c);
          assert WithKey(view, c, k) == clients[c := me.(keys := mine + {k})];
          mine := mine + {k};
          queues := Enqueued(queues, k, c);
          noKey := Bumped(noKey, k, onNoKey);
        }
        j := j + 1;
      }
      assert keys[..|keys|] == keys;
    }

    /** blockForKeys() */
    method BlockForKeys(c: ClientId, btype: BlockType, keys: seq<Key>, onNoKey: bool)
      requires Valid() && c in clients && clients[c].btype.None? && WaitsForKeys(btype)
      modifies `clients, `queues, `noKey, `byType, `blockedClients
      ensures Valid()
      ensures clients == old(clients)[c := Client(old(clients)[c].isModule, Some(btype), KeySet(keys), onNoKey)]
      ensures forall k :: QueueOf(queues, k) == QueueOf(old(queues), k) + if k in keys then [c] else []
      ensures Abs() == BlockedAgain(old(Abs()), c, Block(btype, keys, onNoKey))
    {
      hide Core, Counted, QueueOf, JoinAll, ReadyIs;
      NeverEmpty(clients, queues, noKey);
      EnterQueues(c, keys, onNoKey);
      ghost var waiting := clients;
      BlockClient(c, btype);
      NowBlocked(old(clients), waiting, clients, c, btype);
      NeverEmpty(clients, queues, noKey);
      JoinedAll(old(queues), queues, c, KeySet(keys));
    }

    /** The part of blockForKeys() before blockClient(). */
    method EnterQueues(c: ClientId, keys: seq<Key>, onNoKey: bool)
      requires Core(clients, queues, noKey) && Counted(clients, byType, blockedClients) && Shaped(clients)
      requires c in clients && clients[c].btype.None?
      modifies `clients, `queues, `noKey
      ensures Core(clients, queues, noKey) && Counted(clients, byType, blockedClients)
      ensures clients == old(clients)[c := Client(old(clients)[c].isModule, None, KeySet(keys), onNoKey)]
      ensures forall k :: QueueOf(queues, k) == QueueOf(old(queues), k) + if k in keys then [c] else []
    {
      hide Core, Counted, QueueOf;
      ghost var all := clients;
      ghost var me := clients[c].(onNoKey := onNoKey);
      IdleKeeps(clients, queues, noKey, c, me);
      assert me.(keys := {}) == me;
      var mine := JoinQueues(c, keys, onNoKey, me);
      assert me.(keys := mine) == Client(all[c].isModule, None, mine, onNoKey);
      clients := clients[c := Client(clients[c].isModule, None, mine, onNoKey)];
      SameCounts(all, clients);
      CountedSame(all, clients, byType, blockedClients);
    }

    /** releaseBlockedEntry(), with the key left in the client's set. */
    method ReleaseEntry(c: ClientId, k: Key, ghost view: Clients)
      requires Core(view, queues, noKey) && c in view && k in view[c].keys
      requires c in clients && clients[c].onNoKey == view[c].onNoKey
      modifies `queues, `noKey
      ensures Core(WithoutKey(view, c, k), queues, noKey)
      ensures forall x :: QueueOf(queues, x) ==
                          if x == k then Without(QueueOf(old(queues), k), c) else QueueOf(old(queues), x)
    {
      hide Core;
      DequeueKeeps(view, queues, noKey, c, k);
      DequeuedQueue(queues, k, c);
      var l := Without(queues[k], c);
      if |l| == 0 {
        queues := queues - {k};
        noKey := noKey - {k};
      } else {
        queues := queues[k := l];
        if clients[c].onNoKey {
          if noKey[k] <= 1 { noKey := noKey - {k}; } else { noKey := noKey[k := noKey[k] - 1]; }
        }
      }
    }

    /** unblockClient(): the client leaves every queue it is in. */
    method Unblock(c: ClientId)
      requires Valid() && c in clients && clients[c].btype.Some?
      modifies `clients, `queues, `noKey, `byType, `blockedClients
      ensures Valid()
      ensures clients == old(clients)[c := Client(old(clients)[c].isModule, None, {}, false)]
      ensures forall k :: QueueOf(queues, k) == Without(QueueOf(old(queues), k), c)
      ensures Abs() == Unblocked(old(Abs()), c)
    {
      hide Core, Counted, QueueOf, Without, LeaveAll, ReadyIs, Shaped;
      ghost var me := clients[c];
      LeaveQueues(c);
      Released(c, me);
      NeverEmpty(clients, queues, noKey);
      LeftAll(old(queues), queues, c);
    }

    /** The loop of unblockClientWaitingData(). */
    method LeaveQueues(c: ClientId)
      requires Core(clients, queues, noKey) && c in clients
      modifies `queues, `noKey
      ensures Core(clients[c := clients[c].(keys := {})], queues, noKey)
      ensures forall k :: QueueOf(queues, k) == Without(QueueOf(old(queues), k), c)
    {
      hide Core, QueueOf, Without;
      LeftEveryQueue(clients, queues, noKey, c);
      ghost var me := clients[c];
      assert clients[c := me.(keys := me.keys)] == clients;
      var todo := clients[c].keys;
      while todo != {}
        modifies `queues, `noKey
        invariant todo <= me.keys
        invariant Core(clients[c := me.(keys := todo)], queues, noKey)
        invariant forall k :: QueueOf(queues, k) ==
                              if k in me.keys - todo then Without(QueueOf(old(queues), k), c)
                              else QueueOf(old(queues), k)
        decreases |todo|
      {
        var k :| k in todo;
        ghost var view := clients[c := me.(keys := todo)];
        ReleaseEntry(c, k, view);
        assert WithoutKey(view, c, k) == clients[c := me.(keys := todo - {k})];
        todo := todo - {k};
      }
    }

    /** The end of unblockClient(). */
    method Released(c: ClientId, ghost me: Client)
      requires Core(clients[c := me.(keys := {})], queues, noKey)
      requires Counted(clients, byType, blockedClients) && Shaped(clients)
      requires c in clients && clients[c].btype.Some?
      modifies `clients, `byType, `blockedClients
      ensures Core(clients, queues, noKey) && Counted(clients, byType, blockedClients) && Shaped(clients)
      ensures clients == old(clients)[c := Client(old(clients)[c].isModule, None, {}, false)]
    {
      hide Core, Counted;
      var after := Client(clients[c].isModule, None, {}, false);
      ghost var view := clients[c := me.(keys := {})];
      IdleKeeps(view, queues, noKey, c, after);
      assert view[c := after] == clients[c := after];
      UnblockCounts(clients, byType, blockedClients, c, after);
      var t := clients[c].btype.value;
      TypeKnown(clients, byType, blockedClients, t);
      if !clients[c].isModule { blockedClients := blockedClients - 1; }
      byType := byType[t := byType[t] - 1];
      clients := clients[c := after];
    }

    /** unblockClientOnKey(), up to the re-execution of the command. */
    method UnblockOnKey(c: ClientId, k: Key)
      requires Valid() && c in clients && k in clients[c].keys
      requires clients[c].btype.Some? && !clients[c].btype.value.MODULE?
      modifies `clients, `queues, `noKey, `byType, `blockedClients
      ensures Valid()
      ensures clients == old(clients)[c := Client(old(clients)[c].isModule, None, {}, false)]
      ensures forall x :: QueueOf(queues, x) == Without(QueueOf(old(queues), x), c)
      ensures Abs() == Unblocked(old(Abs()), c)
    {
      hide Core, Counted, Shaped, ReadyIs, QueueOf, Without, LeaveAll;
      LeftOneQueue(clients, queues, noKey, c, k);
      LeaveOne(c, k);
      ghost var some := clients;
      Unblock(c);
      assert clients == old(clients)[c := Freed(some[c])];
      NeverEmpty(clients, queues, noKey);
      LeftAll(old(queues), queues, c);
    }

    /** The entry for the key that became ready goes first. */
    method LeaveOne(c: ClientId, k: Key)
      requires Core(clients, queues, noKey) && Counted(clients, byType, blockedClients) && Shaped(clients)
      requires c in clients && k in clients[c].keys
      modifies `clients, `queues, `noKey
      ensures Core(clients, queues, noKey) && Counted(clients, byType, blockedClients) && Shaped(clients)
      ensures clients == old(clients)[c := old(clients)[c].(keys := old(clients)[c].keys - {k})]
      ensures forall x :: QueueOf(queues, x) ==
                          if x == k then Without(QueueOf(old(queues), k), c) else QueueOf(old(queues), x)
    {
      hide Core, Counted, Shaped, QueueOf, Without;
      ghost var all := clients;
      ReleaseEntry(c, k, clients);
      clients := clients[c := clients[c].(keys := clients[c].keys - {k})];
      SameCounts(all, clients);
      CountedSame(all, clients, byType, blockedClients);
      ShapedLess(all, c, k);
    }

    /** signalKeyAsReadyLogic(). A signal is dropped only when nobody it could serve waits for the key, or
        when the key is already queued. */
    method Signal(k: Key, btype: Option<BlockType>, deleted: bool)
      requires Valid()
      modifies `readyDict, `ready
      ensures Valid()
      ensures ready == old(ready) || (ready == old(ready) + [k] && k in queues)
      ensures k in readyDict || btype.None? ||
              forall c :: c in QueueOf(queues, k) && (deleted ==> clients[c].onNoKey) ==>
                clients[c].btype != btype && clients[c].btype != Some(MODULE)
      ensures Abs() == Signaled(old(Abs()), Signaling(k, btype, deleted))
    {
      hide Indexed, GoodQueues, Shaped, ReadyIs, Heard, Wanting, OfType;
      SignalHeard(clients, queues, noKey, byType, blockedClients, Signaling(k, btype, deleted), pending, ready);
      ReadyDictIs(readyDict, pending, ready, k);
      QueueKnown(clients, queues, noKey, k);
      if btype.None? { return; }
      TypeKnown(clients, byType, blockedClients, btype.value);
      TypeKnown(clients, byType, blockedClients, MODULE);
      if byType[btype.value] == 0 && byType[MODULE] == 0 {
        NobodyOf(clients, queues, btype.value, k);
        return;
      }
      if deleted {
        if k !in noKey {
          NobodyWants(clients, queues, noKey, k);
          return;
        }
        NoKeyIsQueued(clients, queues, noKey, k);
      } else if k !in queues {
        return;
      }
      if k in readyDict { return; }
      ReadyMore(readyDict, pending, ready, k);
      readyDict := readyDict + {k};
      ready := ready + [k];
    }

    /** The start of a round of handleClientsBlockedOnKeys(). */
    method TakeReady()
      requires Valid() && pending == []
      modifies `ready, `pending
      ensures Valid() && pending == old(ready) && ready == []
      ensures Abs() == old(Abs()).(pending := old(ready), ready := [])
    {
      assert [] + ready == ready && ready + [] == ready;
      pending, ready := ready, [];
    }

    /** The next key of the round: it may be signaled again from here on. */
    method NextReady() returns (k: Key)
      requires Valid() && pending != []
      modifies `readyDict, `pending
      ensures Valid() && old(pending) == [k] + pending && readyDict == old(readyDict) - {k} && k !in readyDict
      ensures Abs() == old(Abs()).(pending := pending)
    {
      k := pending[0];
      assert (pending + ready)[1..] == pending[1..] + ready;
      readyDict := readyDict - {k};
      pending := pending[1..];
    }

    /** The re-executed command may block again, on any keys, and may signal keys. */
    method React(c: ClientId, r: Reaction)
      requires Valid() && c in clients && clients[c].btype.None? && GoodReaction(r)
      modifies this
      ensures Valid() && pending == old(pending)
      ensures clients == old(clients)[c := if r.again.None? then old(clients)[c] else
                                           Client(old(clients)[c].isModule, Some(r.again.value.btype),
                                                  KeySet(r.again.value.keys), r.again.value.onNoKey)]
      ensures forall k :: QueueOf(queues, k) == QueueOf(old(queues), k) + if BlocksOn(r, k) then [c] else []
      ensures Abs() == Reacted(old(Abs()), c, r)
    {
      hide Core, Counted, Shaped, ReadyIs, QueueOf, Signaled, JoinAll;
      if r.again.Some? {
        BlockForKeys(c, r.again.value.btype, r.again.value.keys, r.again.value.onNoKey);
      } else {
        assert clients[c := clients[c]] == clients;
      }
      ghost var blocked := Abs();
      var i := 0;
      while i < |r.signals|
        modifies `readyDict, `ready
        invariant 0 <= i <= |r.signals| && Valid()
        invariant Abs() == SignaledAll(blocked, r.signals[..i])
      {
        var g := r.signals[i];
        assert r.signals[..i + 1][..i] == r.signals[..i] && g == Signaling(g.key, g.btype, g.deleted);
        Signal(g.key, g.btype, g.deleted);
        i := i + 1;
      }
      assert r.signals[..|r.signals|] == r.signals;
    }

    /** handleClientsBlockedOnKey(): the clients in the queue are visited once each, in the order they
        blocked; those not served keep their order, and those that block again go behind them. */
    method HandleKey(k: Key, types: seq<Option<BlockType>>, reactions: seq<Reaction>) returns (served: seq<ClientId>)
      requires Valid() && |types| == |reactions| == |QueueOf(queues, k)|
      requires forall i :: 0 <= i < |reactions| ==> GoodReaction(reactions[i])
      modifies this
      ensures Valid() && pending == old(pending)
      ensures served == Served(old(clients), QueueOf(old(queues), k), types)
      ensures QueueOf(queues, k) == Waiting(old(clients), QueueOf(old(queues), k), types)
                                  + Again(old(clients), QueueOf(old(queues), k), types, reactions, k)
      ensures ServesRightly(old(clients), QueueOf(old(queues), k), types, served)
      ensures InOrder(served, QueueOf(old(queues), k))
      ensures OthersStay(QueueOf(old(queues), k), served, QueueOf(queues, k))
      ensures Abs() == Pass(old(Abs()), QueueOf(old(queues), k), types, reactions)
    {
      hide Core, Rest, QueueOf, NoDuplicates, Passed, Served, Waiting, Again, Wakes, WakesOf, Without, Pass, Visited;
      hide Untouched, GoodReaction, ServesRightly, InOrder, OthersStay, PassedOver;
      var q := QueueOf(queues, k);
      ghost var all := clients;
      QueueKnown(clients, queues, noKey, k);
      UntouchedAll(clients, q);
      served := [];
      var i := 0;
      PassStart(all, q, types, reactions, k);
      PassNothing(Abs(), q, types, reactions);
      while i < |q|
        invariant 0 <= i <= |q| && Core(clients, queues, noKey) && Rest() && pending == old(pending)
        invariant Passed(all, q, types, reactions, k, i, served, QueueOf(queues, k))
        invariant PassedOver(old(Abs()), q, types, reactions, i, Abs())
        invariant Untouched(clients, all, q, i)
      {
        var c := q[i];
        ghost var now := clients;
        UntouchedAt(clients, all, q, i);
        PassNext(all, q, types, reactions, k, i, served, QueueOf(queues, k));
        PassedQueue(all, q, types, reactions, k, i, served, QueueOf(queues, k));
        PassOneMore(old(Abs()), q, types, reactions, i, Abs());
        var woken := Visit(c, k, types[i], reactions[i]);
        WakesIs(all, c, types[i]);
        UntouchedNext(now, clients, all, q, i);
        if woken { served := served + [c]; }
        i := i + 1;
      }
      PassWhole(old(Abs()), q, types, reactions, Abs());
      PassEnd(all, q, types, reactions, k, served, QueueOf(queues, k));
      PassServes(all, q, types, reactions, k);
    }

    /** The next key of the round, with its queue. */
    method HandleNext(a: Answers, i: nat) returns (k: Key, served: seq<ClientId>)
      requires Valid() && pending != [] && forall i, j :: GoodReaction(a.reactions(i, j))
      modifies this
      ensures Valid() && old(pending) == [k] + pending
      ensures Abs() == KeyHandled(old(Abs()), i, a) && served == KeyServed(old(Abs()), i, a)
      ensures ServedOfKey(old(Abs()), a, i, served)
    {
      hide Core, Rest, GoodReaction, QueueOf, Served, Waiting, Again, Pass, ServesRightly, InOrder;
      k := NextReady();
      var n := |QueueOf(queues, k)|;
      served := HandleKey(k, TypesAt(a, i, n), ReactionsAt(a, i, n));
      assert old(pending)[1..] == pending;
    }

    /** One round of handleClientsBlockedOnKeys(): the keys that were ready are handled in order, each once; what
        is signaled meanwhile is left for the next round. The answers give, for each key and each client in its
        queue, the type found and the reaction. */
    method HandleRound(a: Answers) returns (handled: seq<Key>, served: seq<seq<ClientId>>)
      requires Valid() && pending == [] && forall i, j :: GoodReaction(a.reactions(i, j))
      modifies this
      ensures Valid() && pending == [] && handled == old(ready)
      ensures Abs() == Round(old(Abs()).(pending := old(ready), ready := []), 0, a)
      ensures served == RoundServed(old(Abs()).(pending := old(ready), ready := []), 0, a)
      ensures |served| == |handled|
      ensures ServedByKey(old(Abs()).(pending := old(ready), ready := []), a, served)
    {
      hide Core, Rest, GoodReaction, KeyHandled, KeyServed, Round, RoundServed, ServedOfKey, ServedByKey, InRound;
      TakeReady();
      handled, served := [], [];
      ghost var start := Abs();
      RoundBegins(start, a);
      while pending != []
        invariant Valid() && InRound(start, a, handled, served, Abs())
        decreases |pending|
      {
        ghost var before := Abs();
        var k, now := HandleNext(a, |handled|);
        RoundGoesOn(start, a, handled, served, before, k, now);
        handled, served := handled + [k], served + [now];
      }
      RoundIsOver(start, a, handled, served, Abs());
    }

    /** One client of the queue. */
    method Visit(c: ClientId, k: Key, t: Option<BlockType>, r: Reaction) returns (woken: bool)
      requires Core(clients, queues, noKey) && Rest() && c in clients && c in QueueOf(queues, k) && GoodReaction(r)
      modifies this
      ensures Core(clients, queues, noKey) && Rest() && pending == old(pending)
      ensures woken == Wakes(old(clients)[c], t)
      ensures forall x :: x in old(clients) && x != c ==> x in clients && clients[x] == old(clients)[x]
      ensures QueueOf(queues, k) ==
              if woken then Without(QueueOf(old(queues), k), c) + (if BlocksOn(r, k) then [c] else [])
                                    else QueueOf(old(queues), k)
      ensures Abs() == Visited(old(Abs()), c, t, r)
    {
      hide Core, Counted, Shaped, ReadyIs, QueueOf, Without, Reacted, Unblocked;
      woken := Wakes(clients[c], t);
      if woken {
        InQueue(clients, queues, noKey, c, k);
        UnblockOnKey(c, k);
        React(c, r);
      }
    }

    /** What Valid() says besides the index. */
    ghost predicate Rest()
      reads this
    {
      Counted(clients, byType, blockedClients) && Shaped(clients) && ReadyIs(readyDict, pending + ready)
    }
  }

  lemma NowBlocked(all: Clients, before: Clients, after: Clients, c: ClientId, btype: BlockType)
    requires c in all && c in before && before == all[c := before[c]] && WaitsForKeys(btype)
    requires after == before[c := before[c].(btype := Some(btype))]
    ensures after == all[c := before[c].(btype := Some(btype))] && (Shaped(all) ==> Shaped(after))
  {
  }
}
