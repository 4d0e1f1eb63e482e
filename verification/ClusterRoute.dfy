/** getNodeByQuery(): which node serves a request, or why none does. */
module ClusterRoute {
  import opened CString
  import opened ClusterSlot

  type Node = nat

  /** A queued command: the keys (or shard channels) it names, and whether it is shard pub/sub. */
  datatype Command = Command(keys: seq<string>, shardPubsub: bool)

  /** isWrite is about the command, execWrites about the commands EXEC runs. */
  datatype Request = Request(cmds: seq<Command>, isMigrate: bool, isWrite: bool, execWrites: bool, asking: bool,
                             readonlyClient: bool, execOutsideMulti: bool)

  /** This node's view: slot owners, open slots, the keys present, and the settings that matter. */
  datatype View = View(me: Node, owner: map<nat, Node>, migratingTo: map<nat, Node>, importingFrom: map<nat, Node>,
                       present: set<string>, healthy: bool, readsWhenDown: bool, pubsubWhenDown: bool,
                       masterOfMe: Option<Node>, noRedirection: bool)

  datatype Answer =
    | Here
    | Moved(node: Node)
    | Ask(node: Node)
    | CrossSlot
    | TryAgain
    | Unbound
    | Down
    | DownReadOnly

  // ----- the keys of a request -----

  function AllKeys(cmds: seq<Command>): seq<string> {
    if cmds == [] then [] else AllKeys(cmds[..|cmds| - 1]) + cmds[|cmds| - 1].keys
  }

  predicate AnyPubsub(cmds: seq<Command>) { exists i :: 0 <= i < |cmds| && cmds[i].shardPubsub }

  /** The keys whose presence is looked up: those of the commands before the first shard pub/sub one. */
  function CheckedKeys(cmds: seq<Command>): seq<string> {
    if cmds == [] then []
    else CheckedKeys(cmds[..|cmds| - 1]) + if AnyPubsub(cmds) then [] else cmds[|cmds| - 1].keys
  }

  function Absent(keys: seq<string>, present: set<string>): nat {
    if keys == [] then 0
    else Absent(keys[..|keys| - 1], present) + if keys[|keys| - 1] in present then 0 else 1
  }

  function KeySlot(crc: string -> nat, key: string): nat { SlotOf(crc, HashedPart(key)) }

  predicate SameSlot(crc: string -> nat, keys: seq<string>) {
    forall i :: 0 <= i < |keys| ==> KeySlot(crc, keys[i]) == KeySlot(crc, keys[0])
  }

  predicate Several(keys: seq<string>) { exists i :: 0 <= i < |keys| && keys[i] != keys[0] }

  predicate Migrating(v: View, slot: nat) { slot in v.owner && v.owner[slot] == v.me && slot in v.migratingTo }

  predicate Importing(v: View, slot: nat) { !Migrating(v, slot) && slot in v.importingFrom }

  // ----- the scan of the keys -----

  datatype Scan = Scan(first: Option<string>, slot: nat, node: Node, migrating: bool, importing: bool, multiple: bool,
                       missing: nat, existing: nat, pubsub: bool)

  /** What the scan knows after some keys, of which some were looked up. */
  predicate Scanned(crc: string -> nat, v: View, s: Scan, seen: seq<string>, checked: seq<string>) {
    if seen == [] then s.first.None? && !s.migrating && !s.importing && s.missing == 0 && s.existing == 0 && !s.multiple
    else
      && s.first == Some(seen[0]) && s.slot == KeySlot(crc, seen[0]) && s.slot in v.owner && s.node == v.owner[s.slot]
      && SameSlot(crc, seen)
      && s.migrating == Migrating(v, s.slot) && s.importing == Importing(v, s.slot)
      && s.multiple == (s.importing && Several(seen))
      && s.missing == (if s.migrating || s.importing then Absent(checked, v.present) else 0)
      && s.existing == (if s.migrating || s.importing then |checked| - Absent(checked, v.present) else 0)
  }

  lemma {:induction false} AbsentBounds(keys: seq<string>, present: set<string>)
    ensures Absent(keys, present) <= |keys|
    ensures Absent(keys, present) == 0 <==> forall i :: 0 <= i < |keys| ==> keys[i] in present
    ensures Absent(keys, present) == |keys| <==> forall i :: 0 <= i < |keys| ==> keys[i] !in present
  {
    if keys != [] { AbsentBounds(keys[..|keys| - 1], present); }
  }

  /** One key of the scan; None is an error. */
  method ScanKey(crc: string -> nat, v: View, s: Scan, key: string, ghost seen: seq<string>, ghost checked: seq<string>)
    returns (r: Scan, err: Option<Answer>)
    requires Scanned(crc, v, s, seen, checked) && (seen == [] ==> checked == [])
    ensures r.pubsub == s.pubsub
    ensures err.None? ==> Scanned(crc, v, r, seen + [key], if s.pubsub then checked else checked + [key])
    ensures err.Some? <==>
            if seen == [] then KeySlot(crc, key) !in v.owner else KeySlot(crc, key) != KeySlot(crc, seen[0])
    ensures err.Some? ==> err == Some(if seen == [] then Unbound else CrossSlot)
  {
    hide HashedPart, SlotOf, Scanned, CountKey, FirstScan, LaterScan;
    var slot := KeyHashSlot(crc, key);
    assert slot == KeySlot(crc, key);
    hide KeySlot;
    ScannedFirst(crc, v, s, seen, checked);
    r, err := s, None;
    if s.first.None? {
      r := r.(first := Some(key), slot := slot);
      if slot !in v.owner { return r, Some(Unbound); }
      r := r.(node := v.owner[slot]);
      if r.node == v.me && slot in v.migratingTo {
        r := r.(migrating := true);
      } else if slot in v.importingFrom {
        r := r.(importing := true);
      }
      FirstScanIs(v, s, key, slot, r);
      FirstKey(crc, v, s, key, slot);
      assert seen + [key] == [key] && checked + [key] == [key];
    } else {
      if s.slot != slot { return r, Some(CrossSlot); }
      if s.importing && !s.multiple && s.first.value != key { r := r.(multiple := true); }
      LaterScanIs(s, key, r);
      LaterKey(crc, v, s, key, seen, checked);
    }
    CountKeyIs(v, r, key);
    if (r.migrating || r.importing) && !r.pubsub {
      if key !in v.present { r := r.(missing := r.missing + 1); } else { r := r.(existing := r.existing + 1); }
    }
  }

  /** What the first key settles, before it is looked up. */
  function FirstScan(v: View, s: Scan, key: string, slot: nat): Scan
    requires slot in v.owner
  {
    s.(first := Some(key), slot := slot, node := v.owner[slot], migrating := s.migrating || Migrating(v, slot),
       importing := s.importing || Importing(v, slot))
  }

  function LaterScan(s: Scan, key: string): Scan {
    s.(multiple := s.multiple || (s.importing && s.first != Some(key)))
  }

  function CountKey(v: View, r: Scan, key: string): Scan {
    if (r.migrating || r.importing) && !r.pubsub then
      if key !in v.present then r.(missing := r.missing + 1) else r.(existing := r.existing + 1)
    else r
  }

  lemma FirstScanIs(v: View, s: Scan, key: string, slot: nat, r: Scan)
    requires slot in v.owner
    requires var t := s.(first := Some(key), slot := slot, node := v.owner[slot]);
      r == if t.node == v.me && slot in v.migratingTo then t.(migrating := true)
           else if slot in v.importingFrom then t.(importing := true) else t
    ensures r == FirstScan(v, s, key, slot)
  {
  }

  lemma LaterScanIs(s: Scan, key: string, r: Scan)
    requires s.first.Some?
    requires r == if s.importing && !s.multiple && s.first.value != key then s.(multiple := true) else s
    ensures r == LaterScan(s, key)
  {
  }

  lemma CountKeyIs(v: View, r: Scan, key: string)
    ensures CountKey(v, r, key)
         == if (r.migrating || r.importing) && !r.pubsub then
              if key !in v.present then r.(missing := r.missing + 1) else r.(existing := r.existing + 1)
            else r
    ensures CountKey(v, r, key).pubsub == r.pubsub
  {
  }

  lemma ScannedFirst(crc: string -> nat, v: View, s: Scan, seen: seq<string>, checked: seq<string>)
    requires Scanned(crc, v, s, seen, checked)
    ensures s.first == if seen == [] then None else Some(seen[0])
    ensures seen != [] ==> s.slot == KeySlot(crc, seen[0])
  {
    hide KeySlot, SameSlot, Several, Absent;
  }

  lemma FirstKey(crc: string -> nat, v: View, s: Scan, key: string, slot: nat)
    requires Scanned(crc, v, s, [], []) && slot == KeySlot(crc, key) && slot in v.owner
    ensures Scanned(crc, v, CountKey(v, FirstScan(v, s, key, slot), key), [key], if s.pubsub then [] else [key])
    ensures FirstScan(v, s, key, slot).pubsub == s.pubsub
  {
    hide KeySlot, Absent;
    AbsentMore([], key, v.present);
    AbsentNone(v.present);
    assert [] + [key] == [key];
  }

  lemma LaterKey(crc: string -> nat, v: View, s: Scan, key: string, seen: seq<string>, checked: seq<string>)
    requires Scanned(crc, v, s, seen, checked) && seen != [] && KeySlot(crc, key) == s.slot
    ensures Scanned(crc, v, CountKey(v, LaterScan(s, key), key), seen + [key],
                    if s.pubsub then checked else checked + [key])
    ensures LaterScan(s, key).pubsub == s.pubsub
  {
    hide KeySlot, Absent, Several, SameSlot, Migrating, Importing;
    AbsentMore(checked, key, v.present);
    SeveralMore(seen, key);
    SameSlotMore(crc, seen, key);
    AbsentFits(checked, v.present);
  }

  lemma AbsentNone(present: set<string>)
    ensures Absent([], present) == 0
  {
  }

  lemma AbsentMore(keys: seq<string>, key: string, present: set<string>)
    ensures Absent(keys + [key], present) == Absent(keys, present) + if key in present then 0 else 1
  {
    assert (keys + [key])[..|keys|] == keys;
  }

  lemma AbsentFits(keys: seq<string>, present: set<string>)
    ensures Absent(keys, present) <= |keys|
  {
    AbsentBounds(keys, present);
  }

  lemma SameSlotMore(crc: string -> nat, seen: seq<string>, key: string)
    requires seen != []
    ensures SameSlot(crc, seen + [key]) <==> SameSlot(crc, seen) && KeySlot(crc, key) == KeySlot(crc, seen[0])
  {
    hide KeySlot;
    var t := seen + [key];
    assert t[|seen|] == key && forall i :: 0 <= i < |seen| ==> t[i] == seen[i];
  }

  lemma SeveralMore(seen: seq<string>, key: string)
    requires seen != []
    ensures Several(seen + [key]) <==> Several(seen) || key != seen[0]
  {
    var t := seen + [key];
    assert t[|seen|] == key && forall i :: 0 <= i < |seen| ==> t[i] == seen[i];
  }

  /** All the keys of one command. */
  method ScanCommand(crc: string -> nat, v: View, s: Scan, cmd: Command, ghost seen: seq<string>,
                     ghost checked: seq<string>)
    returns (r: Scan, err: Option<Answer>)
    requires Scanned(crc, v, s, seen, checked) && (seen == [] ==> checked == [])
    ensures r.pubsub == s.pubsub
    ensures err.None? ==> Scanned(crc, v, r, seen + cmd.keys, if s.pubsub then checked else checked + cmd.keys)
    ensures err.Some? ==> Broken(crc, v, seen + cmd.keys, err.value)
  {
    hide Scanned, KeySlot;
    r, err := s, None;
    var j := 0;
    assert seen + cmd.keys[..0] == seen && checked + cmd.keys[..0] == checked;
    while j < |cmd.keys|
      invariant 0 <= j <= |cmd.keys| && r.pubsub == s.pubsub && err.None?
      invariant Scanned(crc, v, r, seen + cmd.keys[..j], if s.pubsub then checked else checked + cmd.keys[..j])
    {
      var key := cmd.keys[j];
      ghost var now := seen + cmd.keys[..j];
      assert now + [key] == seen + cmd.keys[..j + 1];
      assert checked + cmd.keys[..j] + [key] == checked + cmd.keys[..j + 1];
      ScannedOwner(crc, v, r, now, if s.pubsub then checked else checked + cmd.keys[..j]);
      r, err := ScanKey(crc, v, r, key, now, if s.pubsub then checked else checked + cmd.keys[..j]);
      if err.Some? {
        BrokenHere(crc, v, now, key, seen + cmd.keys, err.value);
        return;
      }
      j := j + 1;
    }
    assert cmd.keys[..|cmd.keys|] == cmd.keys;
  }

  lemma ScannedOwner(crc: string -> nat, v: View, s: Scan, seen: seq<string>, checked: seq<string>)
    requires Scanned(crc, v, s, seen, checked)
    ensures seen != [] ==> KeySlot(crc, seen[0]) in v.owner
  {}

  /** Why a request cannot be routed at all. */
  predicate Broken(crc: string -> nat, v: View, keys: seq<string>, err: Answer) {
    && keys != []
    && if KeySlot(crc, keys[0]) in v.owner then err == CrossSlot && !SameSlot(crc, keys) else err == Unbound
  }

  lemma BrokenHere(crc: string -> nat, v: View, now: seq<string>, key: string, keys: seq<string>, err: Answer)
    requires now + [key] <= keys
    requires if now == [] then KeySlot(crc, key) !in v.owner && err == Unbound
             else KeySlot(crc, key) != KeySlot(crc, now[0]) && KeySlot(crc, now[0]) in v.owner && err == CrossSlot
    ensures Broken(crc, v, keys, err)
  {
    assert keys[|now|] == key && (now != [] ==> keys[0] == now[0]);
  }

  lemma BrokenMore(crc: string -> nat, v: View, keys: seq<string>, more: seq<string>, err: Answer)
    requires Broken(crc, v, keys, err) && keys <= more
    ensures Broken(crc, v, more, err)
  {
    hide KeySlot;
    assert more[0] == keys[0];
    if !SameSlot(crc, keys) {
      var i :| 0 <= i < |keys| && KeySlot(crc, keys[i]) != KeySlot(crc, keys[0]);
      assert more[i] == keys[i];
    }
  }

  lemma {:induction false} PrefixKeys(cmds: seq<Command>, i: nat)
    requires i <= |cmds|
    ensures AllKeys(cmds[..i]) <= AllKeys(cmds)
  {
    if i < |cmds| {
      assert cmds[..|cmds| - 1][..i] == cmds[..i];
      PrefixKeys(cmds[..|cmds| - 1], i);
    } else {
      assert cmds[..i] == cmds;
    }
  }

  /** All the commands of the request. */
  method ScanAll(crc: string -> nat, v: View, cmds: seq<Command>) returns (r: Scan, err: Option<Answer>)
    ensures err.None? ==> Scanned(crc, v, r, AllKeys(cmds), CheckedKeys(cmds)) && r.pubsub == AnyPubsub(cmds)
    ensures err.Some? ==> Broken(crc, v, AllKeys(cmds), err.value)
  {
    hide Scanned, Broken, KeySlot, AllKeys, CheckedKeys, AnyPubsub;
    r, err := Scan(None, 0, 0, false, false, false, 0, 0, false), None;
    NothingScanned(crc, v, r);
    var i := 0;
    assert cmds[..0] == [];
    while i < |cmds|
      invariant 0 <= i <= |cmds| && r.pubsub == AnyPubsub(cmds[..i]) && err.None?
      invariant Scanned(crc, v, r, AllKeys(cmds[..i]), CheckedKeys(cmds[..i]))
      invariant AllKeys(cmds[..i]) == [] ==> CheckedKeys(cmds[..i]) == []
    {
      ghost var before, now := cmds[..i], cmds[..i + 1];
      KeysMore(cmds, i);
      if !r.pubsub && cmds[i].shardPubsub {
        PubsubFlag(crc, v, r, AllKeys(before), CheckedKeys(before));
        r := r.(pubsub := true);
      }
      assert r.pubsub == AnyPubsub(now);
      var s := r;
      assert CheckedKeys(before) + [] == CheckedKeys(before);
      r, err := ScanCommand(crc, v, s, cmds[i], AllKeys(before), CheckedKeys(before));
      if err.Some? {
        PrefixKeys(cmds, i + 1);
        BrokenMore(crc, v, AllKeys(now), AllKeys(cmds), err.value);
        return;
      }
      i := i + 1;
    }
    assert cmds[..|cmds|] == cmds;
  }

  lemma NothingScanned(crc: string -> nat, v: View, r: Scan)
    requires r == Scan(None, 0, 0, false, false, false, 0, 0, false)
    ensures Scanned(crc, v, r, AllKeys([]), CheckedKeys([]))
    ensures AllKeys([]) == [] && CheckedKeys([]) == [] && !AnyPubsub([])
  {}

  /** One command more. */
  lemma KeysMore(cmds: seq<Command>, i: nat)
    requires i < |cmds|
    ensures AllKeys(cmds[..i + 1]) == AllKeys(cmds[..i]) + cmds[i].keys
    ensures AnyPubsub(cmds[..i + 1]) <==> AnyPubsub(cmds[..i]) || cmds[i].shardPubsub
    ensures CheckedKeys(cmds[..i + 1])
         == CheckedKeys(cmds[..i]) + if AnyPubsub(cmds[..i + 1]) then [] else cmds[i].keys
  {
    var now := cmds[..i + 1];
    assert now[..i] == cmds[..i] && now[i] == cmds[i];
    assert forall j :: 0 <= j < i ==> now[j] == cmds[..i][j];
  }

  lemma PubsubFlag(crc: string -> nat, v: View, r: Scan, seen: seq<string>, checked: seq<string>)
    requires Scanned(crc, v, r, seen, checked)
    ensures Scanned(crc, v, r.(pubsub := true), seen, checked)
  {}

  // ----- the decision -----

  /** The request names keys and the node is to look at them. */
  predicate Looked(v: View, q: Request) { !v.noRedirection && !q.execOutsideMulti && AllKeys(q.cmds) != [] }

  predicate Routable(crc: string -> nat, v: View, q: Request) {
    Looked(v, q) && SameSlot(crc, AllKeys(q.cmds)) && KeySlot(crc, AllKeys(q.cmds)[0]) in v.owner
  }

  /** A cluster that is down still serves what its settings allow. */
  predicate Serving(v: View, q: Request) {
    v.healthy || if AnyPubsub(q.cmds) then v.pubsubWhenDown else v.readsWhenDown && !q.isWrite
  }

  function Missing(v: View, q: Request): nat { Absent(CheckedKeys(q.cmds), v.present) }

  /** A replica may answer for its master. */
  predicate ReplicaServes(v: View, q: Request, n: Node) {
    (q.readonlyClient || AnyPubsub(q.cmds)) && !q.isWrite && !q.execWrites && v.masterOfMe == Some(n)
  }

  method Route(crc: string -> nat, v: View, q: Request) returns (r: Answer)
    // without keys to look at, always here; keys of several slots, or of an unbound slot, never
    ensures !Looked(v, q) ==> r.Here?
    ensures r.Unbound? <==> Looked(v, q) && KeySlot(crc, AllKeys(q.cmds)[0]) !in v.owner
    ensures r.CrossSlot?
            <==> Looked(v, q) && KeySlot(crc, AllKeys(q.cmds)[0]) in v.owner && !SameSlot(crc, AllKeys(q.cmds))
    // a cluster that is down
    ensures r.Down? || r.DownReadOnly? <==> Routable(crc, v, q) && !Serving(v, q)
    ensures r.DownReadOnly? ==> q.isWrite && v.readsWhenDown
    // an open slot
    ensures Routable(crc, v, q) && Serving(v, q) ==>
              var slot := KeySlot(crc, AllKeys(q.cmds)[0]);
              var n := v.owner[slot];
              if q.isMigrate && (Migrating(v, slot) || Importing(v, slot)) then r.Here?
              else if Migrating(v, slot) then
                && (r.Here? <==> Missing(v, q) == 0)
                && (r.Ask? <==> 0 < Missing(v, q) == |CheckedKeys(q.cmds)|)
                && (r.TryAgain? <==> 0 < Missing(v, q) < |CheckedKeys(q.cmds)|)
                && (r.Ask? ==> r.node == v.migratingTo[slot])
              else if Importing(v, slot) && q.asking then
                && (r.TryAgain? <==> Several(AllKeys(q.cmds)) && Missing(v, q) > 0)
                && (r.TryAgain? || r.Here?)
              // a closed slot
              else if ReplicaServes(v, q, n) || n == v.me then r.Here?
              else r == Moved(n)
  {
    hide KeySlot, SameSlot, Several, Absent, AllKeys, CheckedKeys, AnyPubsub, Broken;
    if v.noRedirection { return Here; }
    if q.execOutsideMulti { return Here; }
    var s, err := ScanAll(crc, v, q.cmds);
    if err.Some? {
      BrokenIs(crc, v, AllKeys(q.cmds), err.value);
      return err.value;
    }
    if s.first.None? { return Here; }
    AbsentBounds(CheckedKeys(q.cmds), v.present);
    if !v.healthy {
      if s.pubsub {
        if !v.pubsubWhenDown { return Down; }
      } else if !v.readsWhenDown {
        return Down;
      } else if q.isWrite {
        return DownReadOnly;
      }
    }
    if (s.migrating || s.importing) && q.isMigrate { return Here; }
    if s.migrating && s.missing > 0 {
      if s.existing > 0 { return TryAgain; }
      return Ask(v.migratingTo[s.slot]);
    }
    if s.importing && q.asking {
      if s.multiple && s.missing > 0 { return TryAgain; }
      return Here;
    }
    if (q.readonlyClient || s.pubsub) && !q.isWrite && !q.execWrites && v.masterOfMe == Some(s.node) { return Here; }
    return if s.node != v.me then Moved(s.node) else Here;
  }

  lemma BrokenIs(crc: string -> nat, v: View, keys: seq<string>, err: Answer)
    requires Broken(crc, v, keys, err)
    ensures keys != [] && (err == Unbound || err == CrossSlot)
    ensures err == Unbound <==> KeySlot(crc, keys[0]) !in v.owner
    ensures err == CrossSlot ==> !SameSlot(crc, keys)
  {}
}
