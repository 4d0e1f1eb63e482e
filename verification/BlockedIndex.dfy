/** Clients blocked on keys: the two-way index between clients and keys, the counts that go with it, and a pass
    over the queue of a key. */
module BlockedIndex {
  import opened CString

  datatype BlockType = LIST | ZSET | STREAM | MODULE | WAIT | WAITAOF | POSTPONE | SHUTDOWN | LAZYFREE

  /** A key of a database. */
  type Key = (nat, string)

  type ClientId = nat

  /** The flags and the blocking state of a client. */
  datatype Client = Client(isModule: bool, btype: Option<BlockType>, keys: set<Key>, onNoKey: bool)

  type Clients = map<ClientId, Client>
  type Queues = map<Key, seq<ClientId>>

  predicate WaitsForKeys(t: BlockType) { t.LIST? || t.ZSET? || t.STREAM? || t.MODULE? }

  // ----- the index -----

  predicate NoDuplicates<T(==)>(q: seq<T>) { q == [] || (q[0] !in q[1..] && NoDuplicates(q[1..])) }

  lemma {:induction false} NoDuplicatesAppend<T>(q: seq<T>, x: T)
    requires NoDuplicates(q) && x !in q
    ensures NoDuplicates(q + [x])
  {
    if q == [] {
      assert q + [x] == [x] && [x][1..] == [];
    } else {
      assert (q + [x])[1..] == q[1..] + [x];
      NoDuplicatesAppend(q[1..], x);
    }
  }

  function QueueOf(queues: Queues, k: Key): seq<ClientId> { if k in queues then queues[k] else [] }

  /** A key is in a client's set exactly when the client is in the key's queue. */
  ghost predicate Indexed(clients: Clients, queues: Queues) {
    forall c, k :: c in clients ==> (k in clients[c].keys <==> c in QueueOf(queues, k))
  }

  ghost predicate GoodQueue(clients: Clients, q: seq<ClientId>) {
    NoDuplicates(q) && forall c :: c in q ==> c in clients
  }

  /** Queues are never kept empty, and hold each client once. */
  ghost predicate GoodQueues(clients: Clients, queues: Queues) {
    && (forall k :: k in queues ==> queues[k] != [])
    && (forall k :: GoodQueue(clients, QueueOf(queues, k)))
  }

  /** The queued clients that want to be woken when the key goes away. */
  function Wanting(clients: Clients, q: seq<ClientId>): set<ClientId> {
    set c | c in q && c in clients && clients[c].onNoKey
  }

  function CountOf(noKey: map<Key, nat>, k: Key): nat { if k in noKey then noKey[k] else 0 }

  ghost predicate GoodCounts(clients: Clients, queues: Queues, noKey: map<Key, nat>) {
    && (forall k :: k in noKey ==> noKey[k] > 0)
    && (forall k :: CountOf(noKey, k) == |Wanting(clients, QueueOf(queues, k))|)
  }

  ghost predicate Core(clients: Clients, queues: Queues, noKey: map<Key, nat>) {
    Indexed(clients, queues) && GoodQueues(clients, queues) && GoodCounts(clients, queues, noKey)
  }

  // ----- one more queue entry, one fewer -----

  function Enqueued(queues: Queues, k: Key, c: ClientId): Queues { queues[k := QueueOf(queues, k) + [c]] }

  function Bumped(noKey: map<Key, nat>, k: Key, onNoKey: bool): map<Key, nat> {
    if onNoKey then noKey[k := CountOf(noKey, k) + 1] else noKey
  }

  function Without(q: seq<ClientId>, c: ClientId): seq<ClientId> {
    if q == [] then [] else if q[0] == c then q[1..] else [q[0]] + Without(q[1..], c)
  }

  /** listUnlinkNode(), and the key goes with its last client. */
  function Dequeued(queues: Queues, k: Key, c: ClientId): Queues {
    var q := Without(QueueOf(queues, k), c);
    if q == [] then queues - {k} else queues[k := q]
  }

  function Dropped(noKey: map<Key, nat>, k: Key, empty: bool, onNoKey: bool): map<Key, nat> {
    if empty then noKey - {k}
    else if onNoKey && k in noKey then (if noKey[k] <= 1 then noKey - {k} else noKey[k := noKey[k] - 1])
    else noKey
  }

  lemma {:induction false} WithoutIs(q: seq<ClientId>, c: ClientId)
    requires NoDuplicates(q)
    ensures NoDuplicates(Without(q, c))
    ensures forall x :: x in Without(q, c) <==> x in q && x != c
    ensures c !in q ==> Without(q, c) == q
  {
    if q != [] { WithoutIs(q[1..], c); }
  }

  lemma EnqueuedQueue(queues: Queues, k: Key, c: ClientId)
    ensures forall x :: QueueOf(Enqueued(queues, k, c), x) ==
                        if x == k then QueueOf(queues, k) + [c] else QueueOf(queues, x)
  {}

  lemma DequeuedQueue(queues: Queues, k: Key, c: ClientId)
    ensures forall x :: QueueOf(Dequeued(queues, k, c), x) ==
                        if x == k then Without(QueueOf(queues, k), c) else QueueOf(queues, x)
  {}

  function WithKey(clients: Clients, c: ClientId, k: Key): Clients
    requires c in clients
  {
    clients[c := clients[c].(keys := clients[c].keys + {k})]
  }

  function WithoutKey(clients: Clients, c: ClientId, k: Key): Clients
    requires c in clients
  {
    clients[c := clients[c].(keys := clients[c].keys - {k})]
  }

  lemma EnqueueIndex(clients: Clients, queues: Queues, c: ClientId, k: Key)
    requires Indexed(clients, queues) && GoodQueues(clients, queues) && c in clients && k !in clients[c].keys
    ensures Indexed(WithKey(clients, c, k), Enqueued(queues, k, c))
    ensures GoodQueues(WithKey(clients, c, k), Enqueued(queues, k, c))
  {
    EnqueuedQueue(queues, k, c);
    var after, q := WithKey(clients, c, k), QueueOf(queues, k);
    assert GoodQueue(clients, q);
    NoDuplicatesAppend(q, c);
    forall x
      ensures GoodQueue(after, QueueOf(Enqueued(queues, k, c), x))
    {
      assert GoodQueue(clients, QueueOf(queues, x));
    }
  }

  lemma SameWanting(clients: Clients, after: Clients, q: seq<ClientId>)
    requires clients.Keys == after.Keys && forall c :: c in clients ==> clients[c].onNoKey == after[c].onNoKey
    ensures Wanting(clients, q) == Wanting(after, q)
  {}

  lemma WantingMore(clients: Clients, q: seq<ClientId>, c: ClientId)
    requires c in clients && c !in q
    ensures |Wanting(clients, q + [c])| == |Wanting(clients, q)| + if clients[c].onNoKey then 1 else 0
  {
    var w := Wanting(clients, q);
    assert Wanting(clients, q + [c]) == if clients[c].onNoKey then w + {c} else w;
  }

  lemma WantingLess(clients: Clients, q: seq<ClientId>, c: ClientId)
    requires c in clients && c in q && NoDuplicates(q)
    ensures |Wanting(clients, Without(q, c))| == |Wanting(clients, q)| - if clients[c].onNoKey then 1 else 0
  {
    WithoutIs(q, c);
    var w := Wanting(clients, q);
    assert Wanting(clients, Without(q, c)) == w - {c};
    assert clients[c].onNoKey <==> c in w;
  }

  lemma EnqueueCounts(clients: Clients, queues: Queues, noKey: map<Key, nat>, c: ClientId, k: Key)
    requires GoodCounts(clients, queues, noKey) && c in clients && c !in QueueOf(queues, k)
    ensures GoodCounts(WithKey(clients, c, k), Enqueued(queues, k, c), Bumped(noKey, k, clients[c].onNoKey))
  {
    hide Enqueued, Wanting, QueueOf;
    var after, bumped := WithKey(clients, c, k), Bumped(noKey, k, clients[c].onNoKey);
    EnqueuedQueue(queues, k, c);
    WantingMore(clients, QueueOf(queues, k), c);
    forall x ensures CountOf(bumped, x) == |Wanting(after, QueueOf(Enqueued(queues, k, c), x))| {
      SameWanting(clients, after, QueueOf(Enqueued(queues, k, c), x));
    }
  }

  lemma EnqueueKeeps(clients: Clients, queues: Queues, noKey: map<Key, nat>, c: ClientId, k: Key)
    requires Core(clients, queues, noKey) && c in clients && k !in clients[c].keys
    ensures Core(WithKey(clients, c, k), Enqueued(queues, k, c), Bumped(noKey, k, clients[c].onNoKey))
  {
    EnqueueIndex(clients, queues, c, k);
    EnqueueCounts(clients, queues, noKey, c, k);
  }

  lemma DequeueIndex(clients: Clients, queues: Queues, c: ClientId, k: Key)
    requires Indexed(clients, queues) && GoodQueues(clients, queues) && c in clients && k in clients[c].keys
    ensures Indexed(WithoutKey(clients, c, k), Dequeued(queues, k, c))
    ensures GoodQueues(WithoutKey(clients, c, k), Dequeued(queues, k, c))
  {
    DequeuedQueue(queues, k, c);
    var after, q := WithoutKey(clients, c, k), QueueOf(queues, k);
    assert GoodQueue(clients, q);
    WithoutIs(q, c);
    forall x
      ensures GoodQueue(after, QueueOf(Dequeued(queues, k, c), x))
    {
      assert GoodQueue(clients, QueueOf(queues, x));
    }
  }

  lemma DequeueCounts(clients: Clients, queues: Queues, noKey: map<Key, nat>, c: ClientId, k: Key)
    requires GoodCounts(clients, queues, noKey) && c in clients && c in QueueOf(queues, k)
             && NoDuplicates(QueueOf(queues, k))
    ensures var empty := Without(QueueOf(queues, k), c) == [];
            GoodCounts(WithoutKey(clients, c, k), Dequeued(queues, k, c), Dropped(noKey, k, empty, clients[c].onNoKey))
    ensures clients[c].onNoKey ==> k in noKey
  {
    hide Dequeued, QueueOf, Wanting, Without;
    var q, after := QueueOf(queues, k), WithoutKey(clients, c, k);
    var dropped := Dropped(noKey, k, Without(q, c) == [], clients[c].onNoKey);
    DequeuedQueue(queues, k, c);
    WantingLess(clients, q, c);
    WantingNobody(clients);
    forall x ensures CountOf(dropped, x) == |Wanting(after, QueueOf(Dequeued(queues, k, c), x))| {
      SameWanting(clients, after, QueueOf(Dequeued(queues, k, c), x));
    }
  }

  lemma WantingNobody(clients: Clients)
    ensures Wanting(clients, []) == {}
  {}

  lemma DequeueKeeps(clients: Clients, queues: Queues, noKey: map<Key, nat>, c: ClientId, k: Key)
    requires Core(clients, queues, noKey) && c in clients && k in clients[c].keys
    ensures var empty := Without(QueueOf(queues, k), c) == [];
            Core(WithoutKey(clients, c, k), Dequeued(queues, k, c), Dropped(noKey, k, empty, clients[c].onNoKey))
    ensures clients[c].onNoKey ==> k in noKey
    ensures k in queues
  {
    assert GoodQueue(clients, QueueOf(queues, k));
    DequeueIndex(clients, queues, c, k);
    DequeueCounts(clients, queues, noKey, c, k);
  }

  // ----- counters and the ready queue -----

  function OfType(clients: Clients, t: BlockType): set<ClientId> { set c | c in clients && clients[c].btype == Some(t) }

  /** The blocked clients that are not module clients. */
  function Regular(clients: Clients): set<ClientId> {
    set c | c in clients && clients[c].btype.Some? && !clients[c].isModule
  }

  ghost predicate Counted(clients: Clients, byType: map<BlockType, nat>, blocked: nat) {
    && (forall t: BlockType :: t in byType && byType[t] == |OfType(clients, t)|)
    && blocked == |Regular(clients)|
  }

  /** Only clients blocked on keys have keys. */
  ghost predicate Shaped(clients: Clients) {
    forall c :: c in clients ==>
      if clients[c].btype.None? then clients[c].keys == {} && !clients[c].onNoKey
      else clients[c].keys != {} ==> WaitsForKeys(clients[c].btype.value)
  }

  function KeySet(keys: seq<Key>): set<Key> { set k | k in keys }

  /** The dictionary holds the queued keys, and no key is queued twice. */
  predicate ReadyIs(dict: set<Key>, queued: seq<Key>) { NoDuplicates(queued) && dict == KeySet(queued) }

  lemma BlockCounts(clients: Clients, byType: map<BlockType, nat>, blocked: nat, c: ClientId, after: Client)
    requires Counted(clients, byType, blocked) && c in clients && clients[c].btype.None? && after.btype.Some?
    requires after.isModule == clients[c].isModule
    ensures var t := after.btype.value;
            Counted(clients[c := after], byType[t := byType[t] + 1], if after.isModule then blocked else blocked + 1)
  {
    hide OfType, Regular;
    var m := clients[c := after];
    forall t: BlockType ensures |OfType(m, t)| == |OfType(clients, t)| + if after.btype == Some(t) then 1 else 0 {
      OfTypeMore(clients, c, after, t);
    }
    RegularMore(clients, c, after);
  }

  lemma OfTypeMore(clients: Clients, c: ClientId, after: Client, t: BlockType)
    requires c in clients && clients[c].btype.None?
    ensures |OfType(clients[c := after], t)| == |OfType(clients, t)| + if after.btype == Some(t) then 1 else 0
  {
    hide OfType;
    OfTypeSet(clients, c, after, t);
  }

  lemma OfTypeSet(clients: Clients, c: ClientId, after: Client, t: BlockType)
    requires c in clients && clients[c].btype.None?
    ensures c !in OfType(clients, t)
    ensures OfType(clients[c := after], t) == OfType(clients, t) + if after.btype == Some(t) then {c} else {}
  {
  }

  lemma RegularMore(clients: Clients, c: ClientId, after: Client)
    requires c in clients && clients[c].btype.None? && after.btype.Some?
    ensures |Regular(clients[c := after])| == |Regular(clients)| + if after.isModule then 0 else 1
  {
    var s := Regular(clients);
    assert c !in s;
    assert Regular(clients[c := after]) == if after.isModule then s else s + {c};
  }

  lemma UnblockCounts(clients: Clients, byType: map<BlockType, nat>, blocked: nat, c: ClientId, after: Client)
    requires Counted(clients, byType, blocked) && c in clients && clients[c].btype.Some? && after.btype.None?
    ensures var t := clients[c].btype.value;
            byType[t] > 0 && (!clients[c].isModule ==> blocked > 0) &&
            Counted(clients[c := after], byType[t := byType[t] - 1],
                    if clients[c].isModule then blocked else blocked - 1)
  {
    var m := clients[c := after];
    forall t: BlockType ensures OfType(m, t) == OfType(clients, t) - {c} {}
    forall t: BlockType | c in OfType(clients, t) ensures clients[c].btype == Some(t) {}
    assert c in OfType(clients, clients[c].btype.value);
    assert Regular(m) == Regular(clients) - {c};
    assert c in Regular(clients) <==> !clients[c].isModule;
  }

  lemma SameCounts(clients: Clients, after: Clients)
    requires clients.Keys == after.Keys
    requires forall c :: c in clients ==> clients[c].btype == after[c].btype && clients[c].isModule == after[c].isModule
    ensures forall t: BlockType :: OfType(clients, t) == OfType(after, t)
    ensures Regular(clients) == Regular(after)
  {}

  /** Changing what a client waits for does not matter while it waits for nothing. */
  lemma IdleKeeps(clients: Clients, queues: Queues, noKey: map<Key, nat>, c: ClientId, after: Client)
    requires Core(clients, queues, noKey) && c in clients && clients[c].keys == {} && after.keys == {}
    ensures Core(clients[c := after], queues, noKey)
  {
    var m := clients[c := after];
    forall k ensures c !in QueueOf(queues, k) && GoodQueue(m, QueueOf(queues, k)) {
      assert k in clients[c].keys <==> c in QueueOf(queues, k);
      assert GoodQueue(clients, QueueOf(queues, k));
    }
    forall k ensures Wanting(m, QueueOf(queues, k)) == Wanting(clients, QueueOf(queues, k)) {}
  }

  /** Nor does the kind of blocking. */
  lemma RelabelKeeps(clients: Clients, queues: Queues, noKey: map<Key, nat>, c: ClientId, after: Client)
    requires Core(clients, queues, noKey) && c in clients
    requires after.keys == clients[c].keys && after.onNoKey == clients[c].onNoKey
    ensures Core(clients[c := after], queues, noKey)
  {
    var m := clients[c := after];
    forall k ensures GoodQueue(m, QueueOf(queues, k)) { assert GoodQueue(clients, QueueOf(queues, k)); }
    forall k ensures Wanting(m, QueueOf(queues, k)) == Wanting(clients, QueueOf(queues, k)) {
      SameWanting(clients, m, QueueOf(queues, k));
    }
  }

  // ----- a pass over the queue of a key -----

  datatype Block = Block(btype: BlockType, keys: seq<Key>, onNoKey: bool)

  /** A call of signalKeyAsReadyLogic(): the key, the type it has, and whether it was deleted. */
  datatype Signaling = Signaling(key: Key, btype: Option<BlockType>, deleted: bool)

  /** What a re-executed command does: it may block again, on any keys, and it may signal keys. */
  datatype Reaction = Reaction(again: Option<Block>, signals: seq<Signaling>)

  predicate GoodReaction(r: Reaction) { r.again.Some? ==> WaitsForKeys(r.again.value.btype) }

  predicate BlocksOn(r: Reaction, k: Key) { r.again.Some? && k in r.again.value.keys }

  /** Whether a client waiting for the key is served when the key holds a value of this type, or none. Module
      clients are told and stay blocked. */
  predicate Wakes(c: Client, t: Option<BlockType>) {
    && c.btype.Some? && !c.btype.value.MODULE?
    && ((t.Some? && c.btype == t) || c.onNoKey)
  }

  predicate WakesOf(clients: Clients, c: ClientId, t: Option<BlockType>) { c in clients && Wakes(clients[c], t) }

  function Served(clients: Clients, q: seq<ClientId>, types: seq<Option<BlockType>>): seq<ClientId>
    requires |q| == |types|
  {
    if q == [] then []
    else
      var n := |q| - 1;
      Served(clients, q[..n], types[..n]) + if WakesOf(clients, q[n], types[n]) then [q[n]] else []
  }

  function Waiting(clients: Clients, q: seq<ClientId>, types: seq<Option<BlockType>>): seq<ClientId>
    requires |q| == |types|
  {
    if q == [] then []
    else
      var n := |q| - 1;
      Waiting(clients, q[..n], types[..n]) + if WakesOf(clients, q[n], types[n]) then [] else [q[n]]
  }

  function Again(clients: Clients, q: seq<ClientId>, types: seq<Option<BlockType>>, reactions: seq<Reaction>,
                 k: Key): seq<ClientId>
    requires |q| == |types| == |reactions|
  {
    if q == [] then []
    else
      var n := |q| - 1;
      Again(clients, q[..n], types[..n], reactions[..n], k)
      + if WakesOf(clients, q[n], types[n]) && BlocksOn(reactions[n], k) then [q[n]] else []
  }

  lemma ServedNext(clients: Clients, q: seq<ClientId>, types: seq<Option<BlockType>>, reactions: seq<Reaction>, k: Key,
                   c: ClientId, t: Option<BlockType>, r: Reaction)
    requires |q| == |types| == |reactions|
    ensures Served(clients, q + [c], types + [t]) == Served(clients, q, types)
            + if WakesOf(clients, c, t) then [c] else []
    ensures Waiting(clients, q + [c], types + [t]) == Waiting(clients, q, types)
            + if WakesOf(clients, c, t) then [] else [c]
    ensures Again(clients, q + [c], types + [t], reactions + [r], k) == Again(clients, q, types, reactions, k)
            + if WakesOf(clients, c, t) && BlocksOn(r, k) then [c] else []
  {
    var n := |q|;
    assert (q + [c])[..n] == q && (types + [t])[..n] == types && (reactions + [r])[..n] == reactions;
  }

  /** Every client of the queue is either served or still waiting, and none twice. */
  lemma {:induction false} PassPartitions(clients: Clients, q: seq<ClientId>, types: seq<Option<BlockType>>)
    requires |q| == |types|
    ensures multiset(q) == multiset(Served(clients, q, types)) + multiset(Waiting(clients, q, types))
  {
    if q != [] {
      hide Wakes, WakesOf;
      var n := |q| - 1;
      PassPartitions(clients, q[..n], types[..n]);
      assert q == q[..n] + [q[n]];
      assert multiset(q) == multiset(q[..n]) + multiset{q[n]};
      if WakesOf(clients, q[n], types[n]) {
        assert multiset(Served(clients, q, types)) == multiset(Served(clients, q[..n], types[..n])) + multiset{q[n]};
      } else {
        assert multiset(Waiting(clients, q, types)) == multiset(Waiting(clients, q[..n], types[..n])) + multiset{q[n]};
      }
    }
  }

  /** Who is served when a key holds a value of the types found: of the clients in its queue those that wait for just
      this type of value, and those that asked to be woken when the key is gone or of another type; module clients
      are not served here. */
  ghost predicate ServesRightly(clients: Clients, q: seq<ClientId>, types: seq<Option<BlockType>>,
                                served: seq<ClientId>) {
    |q| == |types| && forall i :: 0 <= i < |q| ==>
      && q[i] in clients
      && (q[i] in served <==>
            && clients[q[i]].btype.Some? && clients[q[i]].btype != Some(MODULE)
            && (clients[q[i]].btype == types[i] || clients[q[i]].onNoKey))
  }

  lemma LastServed(clients: Clients, q: seq<ClientId>, types: seq<Option<BlockType>>)
    requires |q| == |types| && q != []
    ensures var n := |q| - 1;
      && Served(clients, q, types) == Served(clients, q[..n], types[..n])
                                      + (if WakesOf(clients, q[n], types[n]) then [q[n]] else [])
      && Waiting(clients, q, types) == Waiting(clients, q[..n], types[..n])
                                       + if WakesOf(clients, q[n], types[n]) then [] else [q[n]]
  {
    hide WakesOf;
  }

  lemma Distinct<T>(q: seq<T>, i: nat, j: nat)
    requires NoDuplicates(q) && i < j < |q|
    ensures q[i] != q[j]
  {
    NoDuplicatesAt(q, i);
    assert q[i + 1..][j - i - 1] == q[j];
  }

  /** A client is served exactly if it is to be woken, and is still waiting if not. */
  lemma {:induction false} ServedExactly(clients: Clients, q: seq<ClientId>, types: seq<Option<BlockType>>, i: nat)
    requires |q| == |types| && NoDuplicates(q) && i < |q|
    ensures q[i] in Served(clients, q, types) <==> WakesOf(clients, q[i], types[i])
    ensures q[i] in Waiting(clients, q, types) <==> !WakesOf(clients, q[i], types[i])
    decreases |q|
  {
    hide WakesOf, Served, Waiting, NoDuplicates;
    var n := |q| - 1;
    LastServed(clients, q, types);
    FrontNoDuplicates(q, n);
    if i < n {
      ServedExactly(clients, q[..n], types[..n], i);
      Distinct(q, i, n);
    } else {
      NoDuplicatesAt(q, n);
      ServedFrom(clients, q[..n], types[..n]);
      WaitingFrom(clients, q[..n], types[..n]);
    }
  }

  /** The elements of part stand in q in the same order. */
  ghost predicate InOrder<T>(part: seq<T>, q: seq<T>) {
    forall a, b :: 0 <= a < b < |part| ==> Before(part[a], part[b], q)
  }

  ghost predicate Before<T>(x: T, y: T, q: seq<T>) { exists i, j :: 0 <= i < j < |q| && q[i] == x && q[j] == y }

  lemma BeforeMore<T>(x: T, y: T, q: seq<T>, n: nat)
    requires n < |q|
    ensures Before(x, y, q[..n]) ==> Before(x, y, q)
    ensures x in q[..n] ==> Before(x, q[n], q)
  {
    if Before(x, y, q[..n]) {
      var i, j :| 0 <= i < j < |q[..n]| && q[..n][i] == x && q[..n][j] == y;
      assert q[i] == x && q[j] == y;
    }
    if x in q[..n] {
      var i :| 0 <= i < n && q[..n][i] == x;
      assert q[i] == x;
    }
  }

  lemma {:induction false} ServedInOrder(clients: Clients, q: seq<ClientId>, types: seq<Option<BlockType>>)
    requires |q| == |types|
    ensures InOrder(Served(clients, q, types), q)
  {
    hide WakesOf, Before;
    if q != [] {
      var n := |q| - 1;
      var front := Served(clients, q[..n], types[..n]);
      ServedInOrder(clients, q[..n], types[..n]);
      ServedFrom(clients, q[..n], types[..n]);
      forall a, b | 0 <= a < b < |front| ensures Before(front[a], front[b], q) { BeforeMore(front[a], front[b], q, n); }
      forall a | 0 <= a < |front| ensures Before(front[a], q[n], q) {
        assert front[a] in front;
        BeforeMore(front[a], q[n], q, n);
      }
    }
  }

  /** Who is not served is still in the queue. */
  ghost predicate OthersStay(q: seq<ClientId>, served: seq<ClientId>, queue: seq<ClientId>) {
    forall c :: c in q && c !in served ==> c in queue
  }

  /** Spelled out in what each client waits for. */
  lemma ServedRightly(clients: Clients, q: seq<ClientId>, types: seq<Option<BlockType>>, more: seq<ClientId>)
    requires |q| == |types| && NoDuplicates(q) && forall c :: c in q ==> c in clients
    ensures ServesRightly(clients, q, types, Served(clients, q, types))
    ensures OthersStay(q, Served(clients, q, types), Waiting(clients, q, types) + more)
  {
    hide NoDuplicates, Served, Waiting;
    forall i | 0 <= i < |q|
      ensures q[i] in Served(clients, q, types) <==> WakesOf(clients, q[i], types[i])
      ensures q[i] in Waiting(clients, q, types) <==> !WakesOf(clients, q[i], types[i])
    {
      ServedExactly(clients, q, types, i);
    }
  }

  /** A pass over the queue serves whom it should, in order, and keeps the others. */
  lemma PassServes(clients: Clients, q: seq<ClientId>, types: seq<Option<BlockType>>, reactions: seq<Reaction>, k: Key)
    requires |q| == |types| == |reactions| && NoDuplicates(q) && forall c :: c in q ==> c in clients
    ensures var served := Served(clients, q, types);
      var queue := Waiting(clients, q, types) + Again(clients, q, types, reactions, k);
      ServesRightly(clients, q, types, served) && InOrder(served, q) && OthersStay(q, served, queue)
  {
    hide NoDuplicates, Served, Waiting, Again, ServesRightly, InOrder, OthersStay;
    ServedRightly(clients, q, types, Again(clients, q, types, reactions, k));
    ServedInOrder(clients, q, types);
  }

  lemma {:induction false} FrontNoDuplicates<T>(q: seq<T>, n: nat)
    requires NoDuplicates(q) && n <= |q|
    ensures NoDuplicates(q[..n])
  {
    if n > 0 {
      FrontNoDuplicates(q[1..], n - 1);
      assert q[..n][1..] == q[1..][..n - 1];
    }
  }

  lemma {:induction false} ServedFrom(clients: Clients, q: seq<ClientId>, types: seq<Option<BlockType>>)
    requires |q| == |types|
    ensures forall c :: c in Served(clients, q, types) ==> c in q
  {
    if q != [] { ServedFrom(clients, q[..|q| - 1], types[..|q| - 1]); }
  }

  lemma {:induction false} WaitingFrom(clients: Clients, q: seq<ClientId>, types: seq<Option<BlockType>>)
    requires |q| == |types|
    ensures forall c :: c in Waiting(clients, q, types) ==> c in q
  {
    if q != [] { WaitingFrom(clients, q[..|q| - 1], types[..|q| - 1]); }
  }

  lemma {:induction false} NoDuplicatesAt<T>(q: seq<T>, i: nat)
    requires NoDuplicates(q) && i < |q|
    ensures q[i] !in q[..i] && q[i] !in q[i + 1..]
  {
    if i > 0 {
      NoDuplicatesAt(q[1..], i - 1);
      assert q[..i] == [q[0]] + q[1..][..i - 1] && q[i + 1..] == q[1..][i..];
      assert q[i] == q[1..][i - 1] && q[i] in q[1..];
    }
  }

  /** After i clients of the queue q: those served, and the queue now. */
  ghost predicate Passed(clients: Clients, q: seq<ClientId>, types: seq<Option<BlockType>>, reactions: seq<Reaction>,
                         k: Key, i: nat, served: seq<ClientId>, queue: seq<ClientId>)
    requires |q| == |types| == |reactions| && i <= |q|
  {
    && served == Served(clients, q[..i], types[..i])
    && queue == Waiting(clients, q[..i], types[..i]) + q[i..] + Again(clients, q[..i], types[..i], reactions[..i], k)
  }

  lemma PassStart(clients: Clients, q: seq<ClientId>, types: seq<Option<BlockType>>, reactions: seq<Reaction>, k: Key)
    requires |q| == |types| == |reactions|
    ensures Passed(clients, q, types, reactions, k, 0, [], q)
  {}

  lemma PassEnd(clients: Clients, q: seq<ClientId>, types: seq<Option<BlockType>>, reactions: seq<Reaction>, k: Key,
                served: seq<ClientId>, queue: seq<ClientId>)
    requires |q| == |types| == |reactions| && Passed(clients, q, types, reactions, k, |q|, served, queue)
    ensures served == Served(clients, q, types)
    ensures queue == Waiting(clients, q, types) + Again(clients, q, types, reactions, k)
  {
    assert q[..|q|] == q && types[..|q|] == types && reactions[..|q|] == reactions && q[|q|..] == [];
  }

  lemma PassedQueue(clients: Clients, q: seq<ClientId>, types: seq<Option<BlockType>>, reactions: seq<Reaction>, k: Key,
                    i: nat, served: seq<ClientId>, queue: seq<ClientId>)
    requires |q| == |types| == |reactions| && i < |q| && Passed(clients, q, types, reactions, k, i, served, queue)
    ensures q[i] in queue
  {
    hide Waiting, Again, Served;
    var w := Waiting(clients, q[..i], types[..i]);
    assert queue[|w|] == q[i];
  }

  /** Visiting the next client. */
  lemma PassNext(clients: Clients, q: seq<ClientId>, types: seq<Option<BlockType>>, reactions: seq<Reaction>, k: Key,
                 i: nat, served: seq<ClientId>, queue: seq<ClientId>)
    requires |q| == |types| == |reactions| && i < |q| && NoDuplicates(q)
    requires Passed(clients, q, types, reactions, k, i, served, queue)
    ensures var c := q[i];
            if WakesOf(clients, c, types[i])
            then Passed(clients, q, types, reactions, k, i + 1, served + [c],
                        Without(queue, c) + if BlocksOn(reactions[i], k) then [c] else [])
            else Passed(clients, q, types, reactions, k, i + 1, served, queue)
  {
    hide Waiting, Again, Served, WakesOf, Without, BlocksOn, NoDuplicates;
    var c, rest := q[i], q[i + 1..];
    var w := Waiting(clients, q[..i], types[..i]);
    var g := Again(clients, q[..i], types[..i], reactions[..i], k);
    Prefixes(q, types, reactions, i);
    ServedNext(clients, q[..i], types[..i], reactions[..i], k, c, types[i], reactions[i]);
    NotYet(q, i, w, clients, types[..i]);
    Rejoin(w, c, rest, g);
    WithoutMiddle(w, c, rest + g);
    assert Without(queue, c) == w + rest + g;
    assert g + [] == g && w + [] == w && served + [] == served && w + rest + g + [] == w + rest + g;
  }

  lemma Prefixes(q: seq<ClientId>, types: seq<Option<BlockType>>, reactions: seq<Reaction>, i: nat)
    requires |q| == |types| == |reactions| && i < |q|
    ensures q[..i + 1] == q[..i] + [q[i]] && types[..i + 1] == types[..i] + [types[i]]
    ensures reactions[..i + 1] == reactions[..i] + [reactions[i]] && q[i..] == [q[i]] + q[i + 1..]
  {}

  lemma Rejoin(w: seq<ClientId>, c: ClientId, rest: seq<ClientId>, g: seq<ClientId>)
    ensures w + ([c] + rest) + g == w + [c] + (rest + g) == w + [c] + rest + g
    ensures w + (rest + g) == w + rest + g
    ensures w + rest + g + [c] == w + rest + (g + [c])
  {}

  lemma WakesIs(clients: Clients, c: ClientId, t: Option<BlockType>)
    requires c in clients
    ensures WakesOf(clients, c, t) == Wakes(clients[c], t)
  {}

  /** A client not yet visited is not among those passed over. */
  lemma NotYet(q: seq<ClientId>, i: nat, waiting: seq<ClientId>, clients: Clients, types: seq<Option<BlockType>>)
    requires NoDuplicates(q) && i < |q| && |types| == i && waiting == Waiting(clients, q[..i], types)
    ensures q[i] !in waiting
  {
    NoDuplicatesAt(q, i);
    WaitingFrom(clients, q[..i], types);
  }

  lemma {:induction false} WithoutMiddle(a: seq<ClientId>, c: ClientId, b: seq<ClientId>)
    requires c !in a
    ensures Without(a + [c] + b, c) == a + b
  {
    var q := a + [c] + b;
    if a == [] {
      assert q == [c] + b && q[1..] == b && a + b == b;
    } else {
      assert q[1..] == a[1..] + [c] + b;
      WithoutMiddle(a[1..], c, b);
      assert a + b == [a[0]] + (a[1..] + b);
    }
  }

  lemma QueueKnown(clients: Clients, queues: Queues, noKey: map<Key, nat>, k: Key)
    requires Core(clients, queues, noKey)
    ensures NoDuplicates(QueueOf(queues, k)) && forall c :: c in QueueOf(queues, k) ==> c in clients
    ensures QueueOf(queues, k) == if k in queues then queues[k] else []
  {
    assert GoodQueue(clients, QueueOf(queues, k));
  }

  lemma InQueue(clients: Clients, queues: Queues, noKey: map<Key, nat>, c: ClientId, k: Key)
    requires Core(clients, queues, noKey) && c in clients && c in QueueOf(queues, k)
    ensures k in clients[c].keys
  {}

  lemma LeftOneQueue(clients: Clients, queues: Queues, noKey: map<Key, nat>, c: ClientId, k: Key)
    requires Core(clients, queues, noKey) && c in clients
    ensures Without(Without(QueueOf(queues, k), c), c) == Without(QueueOf(queues, k), c)
  {
    assert GoodQueue(clients, QueueOf(queues, k));
    WithoutIs(QueueOf(queues, k), c);
    WithoutIs(Without(QueueOf(queues, k), c), c);
  }

  lemma ShapedLess(clients: Clients, c: ClientId, k: Key)
    requires Shaped(clients) && c in clients
    ensures Shaped(clients[c := clients[c].(keys := clients[c].keys - {k})])
  {}

  // ----- why a signal may be dropped -----

  lemma NobodyOf(clients: Clients, queues: Queues, t: BlockType, k: Key)
    requires |OfType(clients, t)| == 0 && |OfType(clients, MODULE)| == 0
    ensures forall c :: c in QueueOf(queues, k) && c in clients ==>
              clients[c].btype != Some(t) && clients[c].btype != Some(MODULE)
  {
    forall c | c in clients ensures clients[c].btype != Some(t) && clients[c].btype != Some(MODULE) {
      assert c !in OfType(clients, t) && c !in OfType(clients, MODULE);
    }
  }

  lemma NobodyWants(clients: Clients, queues: Queues, noKey: map<Key, nat>, k: Key)
    requires GoodCounts(clients, queues, noKey) && k !in noKey
    ensures forall c :: c in QueueOf(queues, k) && c in clients ==> !clients[c].onNoKey
  {
    assert CountOf(noKey, k) == |Wanting(clients, QueueOf(queues, k))|;
    forall c | c in QueueOf(queues, k) && c in clients ensures !clients[c].onNoKey {
      assert c !in Wanting(clients, QueueOf(queues, k));
    }
  }

  lemma NoKeyIsQueued(clients: Clients, queues: Queues, noKey: map<Key, nat>, k: Key)
    requires GoodCounts(clients, queues, noKey) && k in noKey
    ensures k in queues
  {
    assert CountOf(noKey, k) == |Wanting(clients, QueueOf(queues, k))|;
    WantingNobody(clients);
  }

  lemma ReadyMore(dict: set<Key>, pending: seq<Key>, ready: seq<Key>, k: Key)
    requires ReadyIs(dict, pending + ready) && k !in dict
    ensures ReadyIs(dict + {k}, pending + (ready + [k]))
  {
    assert pending + (ready + [k]) == pending + ready + [k];
    NoDuplicatesAppend(pending + ready, k);
  }

  lemma TypeKnown(clients: Clients, byType: map<BlockType, nat>, blocked: nat, t: BlockType)
    requires Counted(clients, byType, blocked)
    ensures t in byType
  {}

  lemma CountedSame(clients: Clients, after: Clients, byType: map<BlockType, nat>, blocked: nat)
    requires Counted(clients, byType, blocked)
    requires (forall t: BlockType :: OfType(clients, t) == OfType(after, t)) && Regular(clients) == Regular(after)
    ensures Counted(after, byType, blocked)
  {}

  lemma LeftEveryQueue(clients: Clients, queues: Queues, noKey: map<Key, nat>, c: ClientId)
    requires Core(clients, queues, noKey) && c in clients
    ensures forall k :: k !in clients[c].keys ==> Without(QueueOf(queues, k), c) == QueueOf(queues, k)
  {
    forall k | k !in clients[c].keys ensures Without(QueueOf(queues, k), c) == QueueOf(queues, k) {
      assert GoodQueue(clients, QueueOf(queues, k));
      WithoutIs(QueueOf(queues, k), c);
    }
  }
}
