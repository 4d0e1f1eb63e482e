/** The generic doubly linked list: nodes on the heap that stand for a sequence. */
module Adlist {
  import opened CString

  class Node<T> {
    const value: T
    var prev: Node?<T>
    var next: Node?<T>

    constructor (value: T)
      ensures this.value == value && prev == null && next == null
    {
      this.value := value;
      prev, next := null, null;
    }
  }

  function PrevOf<T>(s: seq<Node<T>>, i: int): Node?<T>
    requires 0 <= i < |s|
  {
    if i == 0 then null else s[i - 1]
  }

  function NextOf<T>(s: seq<Node<T>>, i: int): Node?<T>
    requires 0 <= i < |s|
  {
    if i + 1 == |s| then null else s[i + 1]
  }

  ghost predicate Distinct<T>(s: seq<Node<T>>) { forall i, j :: 0 <= i < j < |s| ==> s[i] != s[j] }

  ghost predicate LinkedAt<T>(s: seq<Node<T>>, i: int)
    requires 0 <= i < |s|
    reads s
  {
    s[i].prev == PrevOf(s, i) && s[i].next == NextOf(s, i)
  }

  /** Every node points to its neighbours. */
  ghost predicate Linked<T>(s: seq<Node<T>>)
    reads s
  {
    forall i :: 0 <= i < |s| ==> LinkedAt(s, i)
  }

  // ----- relinking -----

  function Inserted<T>(s: seq<Node<T>>, k: nat, node: Node<T>): seq<Node<T>>
    requires k <= |s|
  {
    s[..k] + [node] + s[k..]
  }

  function Removed<T>(s: seq<Node<T>>, i: nat): seq<Node<T>>
    requires i < |s|
  {
    s[..i] + s[i + 1..]
  }

  ghost predicate OpenedAt<T>(s: seq<Node<T>>, k: nat, node: Node<T>, j: int)
    requires k <= |s| && 0 <= j < |s|
    reads s
  {
    && s[j].prev == (if j == k then node else PrevOf(s, j))
    && s[j].next == (if j + 1 == k then node else NextOf(s, j))
  }

  /** The nodes of s point to their neighbours, except that node comes before s[k]. */
  ghost predicate Opened<T>(s: seq<Node<T>>, k: nat, node: Node<T>)
    requires k <= |s|
    reads s, node
  {
    && (forall j :: 0 <= j < |s| ==> OpenedAt(s, k, node, j))
    && node.prev == (if k == 0 then null else s[k - 1])
    && node.next == (if k == |s| then null else s[k])
  }

  lemma InsertedLinked<T>(s: seq<Node<T>>, k: nat, node: Node<T>)
    requires k <= |s| && Distinct(s) && node !in s && Opened(s, k, node)
    ensures Distinct(Inserted(s, k, node)) && Linked(Inserted(s, k, node))
  {
    var t := Inserted(s, k, node);
    forall i | 0 <= i < |t| ensures LinkedAt(t, i) {
      if i < k { assert OpenedAt(s, k, node, i); } else if i > k { assert OpenedAt(s, k, node, i - 1); }
    }
    InsertedDistinct(s, k, node);
  }

  lemma InsertedDistinct<T>(s: seq<Node<T>>, k: nat, node: Node<T>)
    requires k <= |s| && Distinct(s) && node !in s
    ensures Distinct(Inserted(s, k, node))
  {
    var t := Inserted(s, k, node);
    assert forall i :: 0 <= i < |t| ==> t[i] == if i < k then s[i] else if i == k then node else s[i - 1];
  }

  ghost predicate ClosedAt<T>(s: seq<Node<T>>, i: nat, j: int)
    requires i < |s| && 0 <= j < |s|
    reads s
  {
    && s[j].prev == (if j == i + 1 then PrevOf(s, i) else PrevOf(s, j))
    && s[j].next == (if j + 1 == i then NextOf(s, i) else NextOf(s, j))
  }

  /** The nodes of s point to their neighbours, except that s[i] is skipped. */
  ghost predicate Closed<T>(s: seq<Node<T>>, i: nat)
    requires i < |s|
    reads s
  {
    forall j :: 0 <= j < |s| && j != i ==> ClosedAt(s, i, j)
  }

  lemma RemovedLinked<T>(s: seq<Node<T>>, i: nat)
    requires i < |s| && Distinct(s) && Closed(s, i)
    ensures Distinct(Removed(s, i)) && Linked(Removed(s, i))
  {
    var t := Removed(s, i);
    forall k | 0 <= k < |t| ensures LinkedAt(t, k) {
      if k < i { assert ClosedAt(s, i, k); } else { assert ClosedAt(s, i, k + 1); }
    }
    RemovedDistinct(s, i);
  }

  lemma RemovedDistinct<T>(s: seq<Node<T>>, i: nat)
    requires i < |s| && Distinct(s)
    ensures Distinct(Removed(s, i))
  {
    var t := Removed(s, i);
    assert forall k :: 0 <= k < |t| ==> t[k] == if k < i then s[k] else s[k + 1];
  }

  class List<T> {
    var head: Node?<T>
    var tail: Node?<T>
    var len: nat
    /** The nodes from head to tail. */
    ghost var nodes: seq<Node<T>>

    ghost predicate Valid()
      reads this, nodes
    {
      && Distinct(nodes) && Linked(nodes)
      && len == |nodes|
      && head == (if nodes == [] then null else nodes[0])
      && tail == (if nodes == [] then null else nodes[|nodes| - 1])
    }

    /** The nodes the list owns. */
    ghost function Repr(): set<Node<T>>
      reads this
    {
      set n | n in nodes
    }

    /** listCreate() */
    constructor ()
      ensures Valid() && nodes == []
    {
      head, tail, len, nodes := null, null, 0, [];
    }

    /** listEmpty(): as many steps along the list as its length says. */
    method Empty()
      requires Valid()
      modifies this
      ensures Valid() && nodes == []
    {
      var current, n := head, len;
      while n > 0
        invariant Valid() && 0 <= n <= |nodes|
        invariant current == (if n == 0 then null else nodes[|nodes| - n])
      {
        assert LinkedAt(nodes, |nodes| - n);
        current := current.next;
        n := n - 1;
      }
      head, tail, len, nodes := null, null, 0, [];
    }

    /** listLinkNodeHead() */
    method LinkHead(node: Node<T>)
      requires Valid() && node !in nodes
      modifies this, Repr(), node
      ensures Valid() && nodes == [node] + old(nodes)
    {
      hide Inserted;
      ghost var s := nodes;
      if len == 0 {
        head, tail := node, node;
        node.prev, node.next := null, null;
      } else {
        node.prev := null;
        node.next := head;
        head.prev := node;
        head := node;
      }
      len := len + 1;
      forall j | 0 <= j < |s| ensures OpenedAt(s, 0, node, j) { assert old(LinkedAt(nodes, j)); }
      InsertedLinked(s, 0, node);
      InsertedEnds(s, node);
      nodes := Inserted(s, 0, node);
    }

    /** listLinkNodeTail() */
    method LinkTail(node: Node<T>)
      requires Valid() && node !in nodes
      modifies this, Repr(), node
      ensures Valid() && nodes == old(nodes) + [node]
    {
      hide Inserted;
      ghost var s := nodes;
      if len == 0 {
        head, tail := node, node;
        node.prev, node.next := null, null;
      } else {
        node.prev := tail;
        node.next := null;
        tail.next := node;
        tail := node;
      }
      len := len + 1;
      forall j | 0 <= j < |s| ensures OpenedAt(s, |s|, node, j) { assert old(LinkedAt(nodes, j)); }
      InsertedLinked(s, |s|, node);
      InsertedEnds(s, node);
      nodes := Inserted(s, |s|, node);
    }

    /** listInsertNode() */
    method Insert(oldNode: Node<T>, value: T, after: bool, ghost i: nat) returns (node: Node<T>)
      requires Valid() && i < |nodes| && nodes[i] == oldNode
      modifies this, Repr()
      ensures Valid() && fresh(node) && node.value == value
      ensures nodes == Inserted(old(nodes), if after then i + 1 else i, node)
    {
      hide Inserted;
      ghost var s := nodes;
      ghost var k := if after then i + 1 else i;
      assert LinkedAt(s, i);
      node := new Node(value);
      if after {
        node.prev := oldNode;
        node.next := oldNode.next;
        if tail == oldNode { tail := node; }
      } else {
        node.next := oldNode;
        node.prev := oldNode.prev;
        if head == oldNode { head := node; }
      }
      forall j | 0 <= j < |s| ensures LinkedAt(s, j) { assert old(LinkedAt(nodes, j)); }
      Splice(node, k);
    }

    /** The end of listInsertNode(): the neighbours learn of the node, which already knows them. */
    method Splice(node: Node<T>, ghost k: nat)
      requires Distinct(nodes) && Linked(nodes) && len == |nodes| > 0 && k <= |nodes| && node !in nodes
      requires node.prev == (if k == 0 then null else nodes[k - 1])
               && node.next == (if k == len then null else nodes[k])
      requires head == (if k == 0 then node else nodes[0]) && tail == (if k == len then node else nodes[len - 1])
      modifies this, Repr()
      ensures Valid() && nodes == Inserted(old(nodes), k, node)
    {
      hide Inserted;
      ghost var s := nodes;
      if node.prev != null { node.prev.next := node; }
      if node.next != null { node.next.prev := node; }
      len := len + 1;
      forall j | 0 <= j < |s| ensures OpenedAt(s, k, node, j) { assert old(LinkedAt(nodes, j)); }
      InsertedLinked(s, k, node);
      InsertedEdges(s, k, node);
      nodes := Inserted(s, k, node);
    }

    /** listUnlinkNode() */
    method Unlink(node: Node<T>, ghost i: nat)
      requires Valid() && i < |nodes| && nodes[i] == node
      modifies this, Repr()
      ensures Valid() && nodes == Removed(old(nodes), i)
      ensures node.prev == null && node.next == null
    {
      hide Removed;
      ghost var s := nodes;
      assert LinkedAt(s, i);
      if node.prev != null { node.prev.next := node.next; } else { head := node.next; }
      if node.next != null { node.next.prev := node.prev; } else { tail := node.prev; }
      node.next := null;
      node.prev := null;
      len := len - 1;
      forall j | 0 <= j < |s| && j != i ensures ClosedAt(s, i, j) { assert old(LinkedAt(nodes, j)); }
      RemovedLinked(s, i);
      RemovedEdges(s, i);
      nodes := Removed(s, i);
    }

    /** listRotateTailToHead() */
    method RotateTailToHead()
      requires Valid()
      modifies this, Repr()
      ensures Valid()
      ensures nodes == if |old(nodes)| <= 1 then old(nodes)
              else [old(nodes)[|old(nodes)| - 1]] + old(nodes)[..|old(nodes)| - 1]
    {
      if len <= 1 { return; }
      ghost var s := nodes;
      assert LinkedAt(s, |s| - 1);
      var last := tail;
      tail := last.prev;
      tail.next := null;
      head.prev := last;
      last.prev := null;
      last.next := head;
      head := last;
      ghost var t := [s[|s| - 1]] + s[..|s| - 1];
      assert forall i :: 0 <= i < |t| ==> t[i] == if i == 0 then s[|s| - 1] else s[i - 1];
      forall i | 0 <= i < |t| ensures LinkedAt(t, i) { assert i > 0 ==> old(LinkedAt(nodes, i - 1)); }
      RotatedDistinct(s);
      nodes := t;
    }

    /** listRotateHeadToTail() */
    method RotateHeadToTail()
      requires Valid()
      modifies this, Repr()
      ensures Valid()
      ensures nodes == if |old(nodes)| <= 1 then old(nodes) else old(nodes)[1..] + [old(nodes)[0]]
    {
      if len <= 1 { return; }
      ghost var s := nodes;
      assert LinkedAt(s, 0);
      var first := head;
      head := first.next;
      head.prev := null;
      tail.next := first;
      first.next := null;
      first.prev := tail;
      tail := first;
      ghost var t := s[1..] + [s[0]];
      assert forall i :: 0 <= i < |t| ==> t[i] == if i == |s| - 1 then s[0] else s[i + 1];
      forall i | 0 <= i < |t| ensures LinkedAt(t, i) { assert i < |s| - 1 ==> old(LinkedAt(nodes, i + 1)); }
      RotatedDistinct(s);
      nodes := t;
    }

    /** listJoin(): the other list ends up empty. */
    method Join(o: List<T>)
      requires Valid() && o.Valid() && o != this
      requires forall n :: n in nodes ==> n !in o.nodes
      modifies this, o, Repr(), o.Repr()
      ensures Valid() && o.Valid()
      ensures nodes == old(nodes) + old(o.nodes) && o.nodes == []
    {
      if o.len == 0 { return; }
      ghost var a, b := nodes, o.nodes;
      forall i, j | 0 <= i < |a| && 0 <= j < |b| ensures a[i] != b[j] { assert a[i] in a && b[j] in b; }
      o.head.prev := tail;
      if tail != null { tail.next := o.head; } else { head := o.head; }
      tail := o.tail;
      len := len + o.len;
      o.head, o.tail, o.len, o.nodes := null, null, 0, [];
      forall i | 0 <= i < |a| ensures LeftAt(a, b, i) { assert old(LinkedAt(nodes, i)); }
      forall i | 0 <= i < |b| ensures RightAt(a, b, i) { assert old(LinkedAt(o.nodes, i)); }
      JoinedLinked(a, b);
      JoinedDistinct(a, b);
      nodes := a + b;
    }

    /** listIndex(): negative indexes count from the tail; null when out of range. */
    method Index(index: int) returns (n: Node?<T>)
      requires Valid()
      ensures n == if 0 <= index < |nodes| then nodes[index]
                   else if -|nodes| <= index < 0 then nodes[|nodes| + index]
                   else null
    {
      var i := index;
      if i < 0 {
        i := -i - 1;
        n := tail;
        ghost var at := |nodes| - 1;
        while i > 0 && n != null
          invariant 0 <= i && at - i == |nodes| + index && -1 <= at < |nodes|
          invariant n == (if at < 0 then null else nodes[at])
          decreases i
        {
          assert LinkedAt(nodes, at);
          n := n.prev;
          i := i - 1;
          at := at - 1;
        }
      } else {
        n := head;
        ghost var at := 0;
        while i > 0 && n != null
          invariant 0 <= i && at + i == index && 0 <= at <= |nodes|
          invariant n == (if at == |nodes| then null else nodes[at])
          decreases i
        {
          assert LinkedAt(nodes, at);
          n := n.next;
          i := i - 1;
          at := at + 1;
        }
      }
    }

    /** listSearchKey(): the first node whose value matches. */
    method Search(matches: T -> bool) returns (n: Node?<T>)
      requires Valid()
      ensures n == null ==> forall i :: 0 <= i < |nodes| ==> !matches(nodes[i].value)
      ensures n != null ==> exists i :: 0 <= i < |nodes| && nodes[i] == n && matches(n.value)
                                        && forall j :: 0 <= j < i ==> !matches(nodes[j].value)
    {
      var iter := new Iter.Rewind(this, true);
      ghost var at := 0;
      n := iter.Next(this, at);
      while n != null
        invariant 0 <= at <= |nodes| && n == Ahead(nodes, at, true)
        invariant iter.fromHead && (n != null ==> iter.At(nodes, at + 1))
        invariant forall j :: 0 <= j < at ==> !matches(nodes[j].value)
        decreases |nodes| - at
      {
        if matches(n.value) { return; }
        at := at + 1;
        n := iter.Next(this, at);
      }
    }
  }

  // ----- whole-list loops -----

  function KeptNodes<T>(s: seq<Node<T>>, keep: T -> bool): seq<Node<T>> {
    if s == [] then [] else (if keep(s[0].value) then [s[0]] else []) + KeptNodes(s[1..], keep)
  }

  /** One turn: the next node, deleted unless it is to be kept. The iterator stays on the node after it. */
  method VisitNext<T>(l: List<T>, iter: Iter<T>, keep: T -> bool, ghost kept: seq<Node<T>>, ghost rest: seq<Node<T>>)
    returns (current: Node?<T>)
    requires l.Valid() && iter.fromHead && l.nodes == kept + rest && iter.At(l.nodes, |kept|)
    modifies l, l.Repr(), iter
    ensures l.Valid() && iter.fromHead && l.Repr() <= old(l.Repr())
    ensures rest == [] ==> current == null && l.nodes == kept
    ensures rest != [] ==> current == rest[0]
    ensures rest != [] && keep(rest[0].value) ==> l.nodes == kept + rest && iter.At(l.nodes, |kept| + 1)
    ensures rest != [] && !keep(rest[0].value) ==> l.nodes == kept + rest[1..] && iter.At(l.nodes, |kept|)
  {
    hide Distinct, Linked, Removed;
    current := iter.Next(l, |kept|);
    if current != null {
      if !keep(current.value) {
        RemovedMiddle(kept, current, rest[1..]);
        assert kept + rest == kept + [current] + rest[1..];
        l.Unlink(current, |kept|);
      }
    }
  }

  /** The rest of a walk. */
  method WalkRest<T>(l: List<T>, iter: Iter<T>, keep: T -> bool, ghost kept: seq<Node<T>>, ghost rest: seq<Node<T>>)
    returns (visited: seq<Node<T>>)
    requires l.Valid() && iter.fromHead && l.nodes == kept + rest && iter.At(l.nodes, |kept|)
    modifies l, l.Repr(), iter
    ensures l.Valid() && visited == rest && l.nodes == kept + KeptNodes(rest, keep)
    decreases |rest|
  {
    hide Distinct, Linked, KeptNodes, Ahead;
    KeptFirst(kept, rest, keep);
    var current := VisitNext(l, iter, keep, kept, rest);
    if current == null { return []; }
    if keep(current.value) {
      visited := WalkRest(l, iter, keep, kept + [current], rest[1..]);
    } else {
      visited := WalkRest(l, iter, keep, kept, rest[1..]);
    }
    visited := [current] + visited;
  }

  lemma KeptFirst<T>(kept: seq<Node<T>>, rest: seq<Node<T>>, keep: T -> bool)
    ensures rest == [] ==> kept + KeptNodes(rest, keep) == kept
    ensures rest != [] ==> rest == [rest[0]] + rest[1..] && kept + rest == kept + [rest[0]] + rest[1..]
    ensures rest != [] && keep(rest[0].value) ==>
              kept + KeptNodes(rest, keep) == kept + [rest[0]] + KeptNodes(rest[1..], keep)
    ensures rest != [] && !keep(rest[0].value) ==> kept + KeptNodes(rest, keep) == kept + KeptNodes(rest[1..], keep)
  {
    hide KeptNodes;
    KeptNothing(keep);
    if rest != [] {
      KeptCons(rest, keep);
      var more := KeptNodes(rest[1..], keep);
      assert kept + ([rest[0]] + more) == kept + [rest[0]] + more;
    }
  }

  lemma KeptNothing<T>(keep: T -> bool)
    ensures KeptNodes([], keep) == []
  {}

  lemma KeptCons<T>(s: seq<Node<T>>, keep: T -> bool)
    requires s != []
    ensures KeptNodes(s, keep) == if keep(s[0].value) then [s[0]] + KeptNodes(s[1..], keep) else KeptNodes(s[1..], keep)
  {
    assert [] + KeptNodes(s[1..], keep) == KeptNodes(s[1..], keep);
  }

  /** Walking a list from its head with listNext() and deleting some of the nodes just returned: every node is
      visited once, in order, and exactly those deleted are gone. */
  method DeleteWhileWalking<T>(l: List<T>, keep: T -> bool) returns (visited: seq<Node<T>>)
    requires l.Valid()
    modifies l, l.Repr()
    ensures l.Valid() && visited == old(l.nodes) && l.nodes == KeptNodes(old(l.nodes), keep)
  {
    hide Distinct, Linked, KeptNodes;
    var iter := new Iter.Rewind(l, true);
    ghost var s := l.nodes;
    assert [] + s == s;
    visited := WalkRest(l, iter, keep, [], s);
    assert [] + KeptNodes(s, keep) == KeptNodes(s, keep);
  }

  // ----- the same from the tail -----

  method VisitPrevious<T>(l: List<T>, iter: Iter<T>, keep: T -> bool, ghost rest: seq<Node<T>>,
                          ghost kept: seq<Node<T>>)
    returns (current: Node?<T>)
    requires l.Valid() && !iter.fromHead && l.nodes == rest + kept && iter.At(l.nodes, |kept|)
    modifies l, l.Repr(), iter
    ensures l.Valid() && !iter.fromHead && l.Repr() <= old(l.Repr())
    ensures rest == [] ==> current == null && l.nodes == kept
    ensures rest != [] ==> current == rest[|rest| - 1]
    ensures rest != [] && keep(rest[|rest| - 1].value) ==> l.nodes == rest + kept && iter.At(l.nodes, |kept| + 1)
    ensures rest != [] && !keep(rest[|rest| - 1].value) ==>
              l.nodes == rest[..|rest| - 1] + kept && iter.At(l.nodes, |kept|)
  {
    hide Distinct, Linked, Removed;
    current := iter.Next(l, |kept|);
    if current != null {
      if !keep(current.value) {
        ghost var n := |rest| - 1;
        RemovedMiddle(rest[..n], current, kept);
        assert rest + kept == rest[..n] + [current] + kept;
        l.Unlink(current, n);
      }
    }
  }

  /** The nodes visited are collected in list order. */
  method WalkRestBack<T>(l: List<T>, iter: Iter<T>, keep: T -> bool, ghost rest: seq<Node<T>>, ghost kept: seq<Node<T>>)
    returns (visited: seq<Node<T>>)
    requires l.Valid() && !iter.fromHead && l.nodes == rest + kept && iter.At(l.nodes, |kept|)
    modifies l, l.Repr(), iter
    ensures l.Valid() && visited == rest && l.nodes == KeptNodes(rest, keep) + kept
    decreases |rest|
  {
    hide Distinct, Linked, KeptNodes, Ahead;
    KeptNothing(keep);
    var current := VisitPrevious(l, iter, keep, rest, kept);
    if current == null { return []; }
    ghost var n := |rest| - 1;
    SplitLast(rest, kept);
    KeptLast(rest, kept, keep);
    if keep(current.value) {
      visited := WalkRestBack(l, iter, keep, rest[..n], [current] + kept);
    } else {
      visited := WalkRestBack(l, iter, keep, rest[..n], kept);
    }
    visited := visited + [current];
  }

  lemma {:induction false} KeptSnoc<T>(s: seq<Node<T>>, x: Node<T>, keep: T -> bool)
    ensures KeptNodes(s + [x], keep) == KeptNodes(s, keep) + if keep(x.value) then [x] else []
  {
    hide KeptNodes;
    KeptCons(s + [x], keep);
    KeptNothing(keep);
    if s == [] {
      assert (s + [x])[1..] == [];
    } else {
      KeptCons(s, keep);
      assert (s + [x])[1..] == s[1..] + [x];
      KeptSnoc(s[1..], x, keep);
    }
  }

  lemma SplitLast<T>(rest: seq<Node<T>>, kept: seq<Node<T>>)
    requires rest != []
    ensures rest == rest[..|rest| - 1] + [rest[|rest| - 1]]
    ensures rest + kept == rest[..|rest| - 1] + ([rest[|rest| - 1]] + kept)
  {}

  lemma Regroup<T>(a: seq<Node<T>>, x: Node<T>, b: seq<Node<T>>)
    ensures a + [x] + b == a + ([x] + b) && a + [] + b == a + b
  {}

  lemma KeptLast<T>(rest: seq<Node<T>>, kept: seq<Node<T>>, keep: T -> bool)
    requires rest != []
    ensures KeptNodes(rest, keep) + kept ==
            KeptNodes(rest[..|rest| - 1], keep)
              + if keep(rest[|rest| - 1].value) then [rest[|rest| - 1]] + kept else kept
  {
    hide KeptNodes;
    var init, x := rest[..|rest| - 1], rest[|rest| - 1];
    SplitLast(rest, kept);
    KeptSnoc(init, x, keep);
    Regroup(KeptNodes(init, keep), x, kept);
  }

  /** Walking from the tail with deletions: again every node once, and exactly those deleted are gone. */
  method DeleteWhileWalkingBack<T>(l: List<T>, keep: T -> bool) returns (visited: seq<Node<T>>)
    requires l.Valid()
    modifies l, l.Repr()
    ensures l.Valid() && visited == old(l.nodes) && l.nodes == KeptNodes(old(l.nodes), keep)
  {
    hide Distinct, Linked, KeptNodes;
    var iter := new Iter.Rewind(l, false);
    ghost var s := l.nodes;
    assert s + [] == s;
    visited := WalkRestBack(l, iter, keep, s, []);
    assert KeptNodes(s, keep) + [] == KeptNodes(s, keep);
  }

  lemma RemovedMiddle<T>(a: seq<Node<T>>, x: Node<T>, b: seq<Node<T>>)
    ensures Removed(a + [x] + b, |a|) == a + b
  {
    var t := a + [x] + b;
    assert t[..|a|] == a && t[|a| + 1..] == b;
  }

  /** One turn of listDup(): the duplicated value is appended and the iterator moves on. */
  method CopyOne<T>(l: List<T>, iter: Iter<T>, copy: List<T>, value: T, ghost i: nat) returns (node: Node?<T>)
    requires l.Valid() && i < |l.nodes| && iter.At(l.nodes, i + 1) && iter.fromHead
    requires copy.Valid() && copy != l && copy.Repr() !! l.Repr()
    modifies copy, copy.Repr(), iter
    ensures l.Valid() && iter.fromHead
    ensures node == Ahead(l.nodes, i + 1, true) && (node != null ==> iter.At(l.nodes, i + 2))
    ensures copy.Valid() && |copy.nodes| == |old(copy.nodes)| + 1 && copy.nodes[..|old(copy.nodes)|] == old(copy.nodes)
    ensures fresh(copy.Repr() - old(copy.Repr())) && copy.nodes[|old(copy.nodes)|].value == value
  {
    hide Distinct, Linked;
    AppendValue(copy, value);
    node := iter.Next(l, i + 1);
  }

  method AppendValue<T>(copy: List<T>, value: T)
    requires copy.Valid()
    modifies copy, copy.Repr()
    ensures copy.Valid() && |copy.nodes| == |old(copy.nodes)| + 1 && copy.nodes[..|old(copy.nodes)|] == old(copy.nodes)
    ensures fresh(copy.Repr() - old(copy.Repr())) && copy.nodes[|old(copy.nodes)|].value == value
  {
    var added := new Node(value);
    copy.LinkTail(added);
  }

  ghost predicate Duplicates<T>(from: seq<Node<T>>, to: seq<Node<T>>, dup: T -> Option<T>, i: int)
    requires 0 <= i < |from| && i < |to|
  {
    dup(from[i].value) == Some(to[i].value)
  }

  /** listDup(): a list of its own with the duplicated values, or null when a duplication fails. */
  method Dup<T>(l: List<T>, dup: T -> Option<T>) returns (copy: List?<T>)
    requires l.Valid()
    ensures copy == null ==> exists i :: 0 <= i < |l.nodes| && dup(l.nodes[i].value).None?
    ensures copy != null ==> fresh(copy) && copy.Valid() && |copy.nodes| == |l.nodes|
                             && fresh(copy.Repr())
                             && forall i :: 0 <= i < |l.nodes| ==> Duplicates(l.nodes, copy.nodes, dup, i)
  {
    hide Distinct, Linked, Duplicates, Ahead;
    var result := new List<T>();
    var iter := new Iter.Rewind(l, true);
    ghost var i := 0;
    ghost var s := l.nodes;
    AheadIs(s, 0);
    var node: Node?<T> := iter.Next(l, 0);
    while node != null
      invariant 0 <= i <= |s| && s == l.nodes && l.Valid() && iter.fromHead && fresh(iter)
      invariant node == Ahead(s, i, true) && (node != null ==> iter.At(s, i + 1))
      invariant fresh(result) && result.Valid() && |result.nodes| == i && fresh(result.Repr())
      invariant forall j :: 0 <= j < i ==> Duplicates(s, result.nodes, dup, j)
      decreases |s| - i
    {
      AheadIs(s, i);
      var value := dup(node.value);
      if value.None? { return null; }
      ghost var before := result.nodes;
      node := CopyOne(l, iter, result, value.value, i);
      StillDuplicates(s, before, result.nodes, dup, i);
      i := i + 1;
    }
    AheadIs(s, i);
    copy := result;
  }

  lemma AheadIs<T>(nodes: seq<Node<T>>, i: nat)
    requires i <= |nodes|
    ensures Ahead(nodes, i, true) == if i == |nodes| then null else nodes[i]
  {
  }

  lemma StillDuplicates<T>(s: seq<Node<T>>, before: seq<Node<T>>, after: seq<Node<T>>, dup: T -> Option<T>, i: nat)
    requires |before| == i < |s| && |after| == i + 1 && after[..i] == before
    requires forall j :: 0 <= j < i ==> Duplicates(s, before, dup, j)
    requires dup(s[i].value) == Some(after[i].value)
    ensures forall j :: 0 <= j < i + 1 ==> Duplicates(s, after, dup, j)
  {
    forall j | 0 <= j < i
      ensures Duplicates(s, after, dup, j)
    {
      assert Duplicates(s, before, dup, j) && after[j] == after[..i][j];
    }
  }

  /** listIter: the node to return next. */
  class Iter<T> {
    var next: Node?<T>
    var fromHead: bool

    /** The iterator has i nodes behind it, counted from the end it started at. */
    ghost predicate At(nodes: seq<Node<T>>, i: int)
      reads this
    {
      0 <= i <= |nodes| && next == Ahead(nodes, i, fromHead)
    }

    /** listRewind() and listRewindTail() */
    constructor Rewind(l: List<T>, fromHead: bool)
      requires l.Valid()
      ensures At(l.nodes, 0) && this.fromHead == fromHead
    {
      next := if fromHead then l.head else l.tail;
      this.fromHead := fromHead;
    }

    /** listNext() */
    method Next(l: List<T>, ghost i: nat) returns (current: Node?<T>)
      requires l.Valid() && At(l.nodes, i)
      modifies `next
      ensures l.Valid()
      ensures current == Ahead(l.nodes, i, fromHead)
      ensures At(l.nodes, if i == |l.nodes| then i else i + 1)
    {
      current := next;
      if current != null {
        assert LinkedAt(l.nodes, if fromHead then i else |l.nodes| - 1 - i);
        next := if fromHead then current.next else current.prev;
      }
    }
  }

  /** The node after i steps from one end. */
  function Ahead<T>(nodes: seq<Node<T>>, i: int, fromHead: bool): Node?<T>
    requires 0 <= i <= |nodes|
  {
    if i == |nodes| then null else if fromHead then nodes[i] else nodes[|nodes| - 1 - i]
  }

  lemma RotatedDistinct<T>(s: seq<Node<T>>)
    requires s != [] && Distinct(s)
    ensures Distinct([s[|s| - 1]] + s[..|s| - 1]) && Distinct(s[1..] + [s[0]])
  {
    var t, u := [s[|s| - 1]] + s[..|s| - 1], s[1..] + [s[0]];
    assert forall i :: 0 <= i < |t| ==> t[i] == if i == 0 then s[|s| - 1] else s[i - 1];
    assert forall i :: 0 <= i < |u| ==> u[i] == if i == |s| - 1 then s[0] else s[i + 1];
  }

  /** The nodes of `a`, the last of which goes on with `b`. */
  ghost predicate LeftAt<T>(a: seq<Node<T>>, b: seq<Node<T>>, i: int)
    requires 0 <= i < |a| && b != []
    reads a
  {
    a[i].prev == PrevOf(a, i) && a[i].next == if i + 1 == |a| then b[0] else a[i + 1]
  }

  /** The nodes of `b`, the first of which comes after `a`. */
  ghost predicate RightAt<T>(a: seq<Node<T>>, b: seq<Node<T>>, i: int)
    requires 0 <= i < |b|
    reads b
  {
    b[i].next == NextOf(b, i) && b[i].prev == if i > 0 then b[i - 1] else if a == [] then null else a[|a| - 1]
  }

  lemma JoinedLinked<T>(a: seq<Node<T>>, b: seq<Node<T>>)
    requires b != [] && (forall i :: 0 <= i < |a| ==> LeftAt(a, b, i)) && forall i :: 0 <= i < |b| ==> RightAt(a, b, i)
    ensures Linked(a + b)
  {
    var t := a + b;
    forall i | 0 <= i < |t| ensures LinkedAt(t, i) {
      if i < |a| { assert LeftAt(a, b, i); } else { assert RightAt(a, b, i - |a|); }
    }
  }

  lemma JoinedDistinct<T>(a: seq<Node<T>>, b: seq<Node<T>>)
    requires Distinct(a) && Distinct(b) && forall n :: n in a ==> n !in b
    ensures Distinct(a + b)
  {
    var t := a + b;
    assert forall i :: 0 <= i < |t| ==> t[i] == if i < |a| then a[i] else b[i - |a|];
    forall i, j | 0 <= i < j < |t| ensures t[i] != t[j] { assert i < |a| ==> a[i] in a; }
  }

  lemma InsertedEnds<T>(s: seq<Node<T>>, node: Node<T>)
    ensures Inserted(s, 0, node) == [node] + s && Inserted(s, |s|, node) == s + [node]
  {}

  lemma InsertedEdges<T>(s: seq<Node<T>>, k: nat, node: Node<T>)
    requires k <= |s|
    ensures var t := Inserted(s, k, node);
            && |t| == |s| + 1
            && t[0] == (if k == 0 then node else s[0])
            && t[|s|] == (if k == |s| then node else s[|s| - 1])
  {}

  lemma RemovedEdges<T>(s: seq<Node<T>>, i: nat)
    requires i < |s|
    ensures var t := Removed(s, i);
            && |t| == |s| - 1
            && (t != [] ==> t[0] == (if i == 0 then s[1] else s[0]))
            && (t != [] ==> t[|t| - 1] == (if i == |s| - 1 then s[|s| - 2] else s[|s| - 1]))
  {}
}
