/**
 The intrusive doubly linked list: nodes in a ring through a sentinel, with a count and a pointer from each member to
 its list, against the sequence of its members.
 */
module Dll {
  import opened DictOrder

  // DLL_NODE_S
  class Node {
    var prev: Node?
    var next: Node?
    var pstHead: Head?

    constructor ()
      ensures pstHead == null
    {
      prev, next, pstHead := null, null, null;
    }
  }

  // The i-th member; the sentinel stands before the first and behind the last one.
  ghost function At(s: Node, nodes: seq<Node>, i: int): Node {
    if 0 <= i < |nodes| then nodes[i] else s
  }

  ghost predicate Distinct(s: Node, nodes: seq<Node>) {
    s !in nodes && forall i, j :: 0 <= i < j < |nodes| ==> nodes[i] != nodes[j]
  }

  lemma DistinctConcat(s: Node, a: seq<Node>, t: Node, b: seq<Node>)
    requires Distinct(s, a) && Distinct(t, b) && s !in b && forall x :: x in a ==> x !in b
    ensures Distinct(s, a + b)
  {
    forall i, j | 0 <= i < j < |a + b|
      ensures (a + b)[i] != (a + b)[j]
    {
      if i < |a| <= j {
        assert a[i] in a && b[j - |a|] in b;
      }
    }
  }

  // The link between the (i-1)-th and the i-th member, in both directions.
  ghost predicate LinkAt(s: Node, nodes: seq<Node>, i: nat)
    reads s, nodes
  {
    At(s, nodes, i - 1).next == At(s, nodes, i) && At(s, nodes, i).prev == At(s, nodes, i - 1)
  }

  // next and prev lead around the ring and are inverse to each other.
  ghost predicate Linked(s: Node, nodes: seq<Node>)
    reads s, nodes
  {
    forall i: nat :: i <= |nodes| ==> LinkAt(s, nodes, i)
  }

  // The forward half: what a scan along the next pointers sees.
  ghost predicate Forward(s: Node, nodes: seq<Node>)
    reads s, nodes
  {
    forall i: nat :: i <= |nodes| ==> At(s, nodes, i - 1).next == At(s, nodes, i)
  }

  lemma LinkedForward(s: Node, nodes: seq<Node>)
    requires Linked(s, nodes)
    ensures Forward(s, nodes)
  {
    forall i: nat | i <= |nodes|
      ensures At(s, nodes, i - 1).next == At(s, nodes, i)
    {
      assert LinkAt(s, nodes, i);
    }
  }

  lemma {:induction false} SamePrefix(s: Node, a: seq<Node>, b: seq<Node>, n: nat)
    requires Forward(s, a) && Forward(s, b) && s !in a && s !in b && n <= |a|
    ensures n <= |b| && a[..n] == b[..n]
  {
    if n == 0 {
    } else {
      SamePrefix(s, a, b, n - 1);
      assert At(s, a, n - 2) == At(s, b, n - 2);
      assert At(s, a, n - 1) == At(s, b, n - 1);
      assert a[n - 1] in a;
    }
  }

  /** The pointers determine the sequence: a ring represents one list at most. */
  lemma OneSequence(s: Node, a: seq<Node>, b: seq<Node>)
    requires Forward(s, a) && Forward(s, b) && s !in a && s !in b
    ensures a == b
  {
    SamePrefix(s, a, b, |a|);
    SamePrefix(s, b, a, |b|);
  }

  // A ring has no member that is its own predecessor.
  lemma OwnPredecessor(s: Node, nodes: seq<Node>, k: nat)
    requires k < |nodes| && Distinct(s, nodes) && nodes[k].prev == nodes[k]
    ensures !Linked(s, nodes)
  {
    assert At(s, nodes, k - 1) != nodes[k] && !LinkAt(s, nodes, k);
  }

  /** After DLL_INSERT_AFTER before the end no sequence at all is represented. */
  lemma BrokenForGood(s: Node, nodes: seq<Node>, other: seq<Node>)
    requires Forward(s, nodes) && s !in nodes && !Linked(s, nodes)
    ensures s !in other ==> !Linked(s, other)
  {
    if s !in other && Linked(s, other) {
      LinkedForward(s, other);
      OneSequence(s, nodes, other);
    }
  }

  // The pointer assignments of DLL_Cat, and DLL_INIT of the emptied ring.
  method Join(s: Node, ghost mine: seq<Node>, t: Node, ghost theirs: seq<Node>)
    requires Distinct(s, mine) && Distinct(t, theirs) && Linked(s, mine) && Linked(t, theirs) && theirs != []
    requires s != t && s !in theirs && t !in mine && forall x :: x in mine ==> x !in theirs
    modifies s, mine, t, theirs
    ensures Linked(s, mine + theirs) && Linked(t, [])
    ensures forall x :: x in mine + theirs ==> x.pstHead == old(x.pstHead)
  {
    ghost var m, n := |mine|, |theirs|;
    assert LinkAt(s, mine, m) && LinkAt(t, theirs, 0) && LinkAt(t, theirs, n);
    var first, last := t.next, t.prev;
    s.prev.next := first;
    first.prev := s.prev;
    s.prev := last;
    last.next := s;
    t.prev, t.next := t, t;
    forall i: nat | i <= m + n
      ensures LinkAt(s, mine + theirs, i)
    {
      if i < m {
        assert old(LinkAt(s, mine, i));
      } else if i > m {
        assert old(LinkAt(t, theirs, i - m));
      }
    }
  }

  // DLL_HEAD_S: the sentinel is the head read as a node.
  class Head {
    const sentinel: Node
    var ulCount: nat
    // The members in order.
    ghost var nodes: seq<Node>

    ghost predicate Valid()
      reads this, sentinel, nodes
    {
      && ulCount == |nodes|
      && Distinct(sentinel, nodes)
      && Linked(sentinel, nodes)
      && forall i :: 0 <= i < |nodes| ==> nodes[i].pstHead == this
    }

    // A node that is on no list can go on this one.
    ghost predicate Fresh(x: Node)
      reads this
    {
      x != sentinel && x !in nodes
    }

    // DLL_INIT
    constructor ()
      ensures Valid() && nodes == [] && fresh(sentinel)
    {
      sentinel := new Node();
      ulCount, nodes := 0, [];
      new;
      sentinel.prev, sentinel.next := sentinel, sentinel;
    }

    // DLL_FIRST
    method First() returns (first: Node?)
      requires Valid()
      ensures first == if nodes == [] then null else nodes[0]
    {
      if ulCount == 0 {
        return null;
      }
      assert LinkAt(sentinel, nodes, 0);
      return sentinel.next;
    }

    // DLL_NEXT of a member
    method Next(x: Node, ghost k: nat) returns (next: Node?)
      requires Valid() && k < |nodes| && nodes[k] == x
      ensures next == if k + 1 < |nodes| then nodes[k + 1] else null
    {
      assert LinkAt(sentinel, nodes, k + 1);
      return if x.next == sentinel then null else x.next;
    }

    // DLL_ADD_TO_HEAD
    method AddToHead(x: Node)
      requires Valid() && Fresh(x)
      modifies this, sentinel, nodes, x
      ensures Valid() && nodes == [x] + old(nodes)
    {
      assert LinkAt(sentinel, nodes, 0);
      x.pstHead := this;
      x.next := sentinel.next;
      x.prev := sentinel;
      sentinel.next.prev := x;
      sentinel.next := x;
      ulCount := ulCount + 1;
      nodes := [x] + nodes;
      forall i: nat | i <= |nodes|
        ensures LinkAt(sentinel, nodes, i)
      {
        assert old(LinkAt(sentinel, nodes, if i == 0 then 0 else i - 1));
      }
    }

    // DLL_ADD
    method Add(x: Node)
      requires Valid() && Fresh(x)
      modifies this, sentinel, nodes, x
      ensures Valid() && nodes == old(nodes) + [x]
    {
      assert LinkAt(sentinel, nodes, |nodes|);
      x.pstHead := this;
      x.next := sentinel;
      x.prev := sentinel.prev;
      sentinel.prev.next := x;
      sentinel.prev := x;
      ulCount := ulCount + 1;
      nodes := nodes + [x];
      forall i: nat | i <= |nodes|
        ensures LinkAt(sentinel, nodes, i)
      {
        assert old(LinkAt(sentinel, nodes, if i <= |nodes| then i else i - 1));
      }
    }

    // DLL_INSERT_BEFORE: before a member, or at the end when there is none.
    method InsertBefore(x: Node, before: Node?, ghost k: nat)
      requires Valid() && Fresh(x) && k <= |nodes|
      requires before == if k < |nodes| then nodes[k] else null
      modifies this, sentinel, nodes, x
      ensures Valid() && nodes == old(nodes)[..k] + [x] + old(nodes)[k..]
    {
      if before == null {
        Add(x);
      } else {
        LinkBefore(x, before, k);
      }
    }

    // The branch with a member.
    method LinkBefore(x: Node, before: Node, ghost k: nat)
      requires Valid() && Fresh(x) && k < |nodes| && before == nodes[k]
      modifies this, sentinel, nodes, x
      ensures Valid() && nodes == old(nodes)[..k] + [x] + old(nodes)[k..]
    {
      assert LinkAt(sentinel, nodes, k);
      x.pstHead := this;
      x.next := before;
      x.prev := before.prev;
      before.prev.next := x;
      before.prev := x;
      ulCount := ulCount + 1;
      nodes := nodes[..k] + [x] + nodes[k..];
      forall i: nat | i <= |nodes|
        ensures LinkAt(sentinel, nodes, i)
      {
        assert old(LinkAt(sentinel, nodes, if i <= k then i else i - 1));
      }
    }

    // DLL_NEXT of a node or of NULL, as the expression the macros repeat
    function NextOf(x: Node?): Node?
      reads this, sentinel, x
    {
      if x != null then (if x.next == sentinel then null else x.next)
      else if ulCount == 0 then null
      else sentinel.next
    }

    /** DLL_INSERT_AFTER, behind a member or, for NULL, in front of all. It hands the expression DLL_NEXT(list, after) to the
        macro DLL_INSERT_BEFORE, which evaluates it again for each of its assignments. By the last one the successor of
        `after` is x itself, so x becomes its own predecessor: the result is a list exactly when x went to the end. */
    method InsertAfter(x: Node, after: Node?, ghost k: nat)
      requires Valid() && Fresh(x) && k <= |nodes| && after == if k == 0 then null else nodes[k - 1]
      modifies this, sentinel, nodes, x
      ensures nodes == old(nodes)[..k] + [x] + old(nodes)[k..]
      ensures Distinct(sentinel, nodes) && Forward(sentinel, nodes)
      ensures Valid() <==> k == |old(nodes)|
      ensures k < |old(nodes)| ==> x.prev == x
      ensures ulCount == |nodes| && forall i :: 0 <= i < |nodes| ==> nodes[i].pstHead == this
    {
      assert LinkAt(sentinel, nodes, k);
      if NextOf(after) == null {
        Add(x);
        LinkedForward(sentinel, nodes);
      } else {
        LinkBeforeNext(x, after, k);
      }
    }

    // The pointer assignments: the predecessor of x, or the sentinel, now leads to x, and x to the node behind it and to itself.
    method PutInFrontOfNext(x: Node, after: Node?, ghost k: nat)
      requires Valid() && Fresh(x) && k < |nodes| && after == if k == 0 then null else nodes[k - 1]
      modifies sentinel, nodes, x
      ensures x.pstHead == this && x.next == nodes[k] && x.prev == x && At(sentinel, nodes, k - 1).next == x
      ensures sentinel.next == if k == 0 then x else old(sentinel.next)
      ensures forall i :: 0 <= i < |nodes| ==>
                nodes[i].pstHead == this && nodes[i].next == if i == k - 1 then x else old(nodes[i].next)
    {
      assert LinkAt(sentinel, nodes, k);
      x.pstHead := this;
      x.next := NextOf(after);
      x.prev := NextOf(after).prev;
      NextOf(after).prev.next := x;
      NextOf(after).prev := x;
    }

    // The branch of DLL_INSERT_BEFORE with a member, where the member is the expression DLL_NEXT(list, after).
    method LinkBeforeNext(x: Node, after: Node?, ghost k: nat)
      requires Valid() && Fresh(x) && k < |nodes| && after == if k == 0 then null else nodes[k - 1]
      modifies this, sentinel, nodes, x
      ensures nodes == old(nodes)[..k] + [x] + old(nodes)[k..]
      ensures Distinct(sentinel, nodes) && Forward(sentinel, nodes)
      ensures !Linked(sentinel, nodes) && x.prev == x
      ensures ulCount == |nodes| && forall i :: 0 <= i < |nodes| ==> nodes[i].pstHead == this
    {
      PutInFrontOfNext(x, after, k);
      ulCount := ulCount + 1;
      nodes := nodes[..k] + [x] + nodes[k..];
      OwnPredecessor(sentinel, nodes, k);
      forall i: nat | i <= |nodes|
        ensures At(sentinel, nodes, i - 1).next == At(sentinel, nodes, i)
      {
        assert old(LinkAt(sentinel, nodes, if i < k then i else if i == k then k else i - 1));
      }
    }

    // DLL_DEL
    method Del(x: Node, ghost k: nat)
      requires Valid() && k < |nodes| && nodes[k] == x
      modifies this, sentinel, nodes
      ensures Valid() && nodes == old(nodes)[..k] + old(nodes)[k + 1..]
      ensures x.pstHead == null && Fresh(x)
    {
      assert LinkAt(sentinel, nodes, k) && LinkAt(sentinel, nodes, k + 1);
      x.prev.next := x.next;
      x.next.prev := x.prev;
      x.pstHead := null;
      ulCount := ulCount - 1;
      nodes := nodes[..k] + nodes[k + 1..];
      forall i: nat | i <= |nodes|
        ensures LinkAt(sentinel, nodes, i)
      {
        assert old(LinkAt(sentinel, nodes, if i <= k then i else i + 1));
      }
    }

    // DLL_Get
    method Get() returns (x: Node?)
      requires Valid()
      modifies this, sentinel, nodes
      ensures Valid()
      ensures if old(nodes) == [] then x == null && nodes == []
              else x == old(nodes)[0] && nodes == old(nodes)[1..] && x.pstHead == null && Fresh(x)
    {
      x := First();
      if x != null {
        Del(x, 0);
      }
    }

    // The first k of the old members are off the list.
    ghost predicate Freed(all: seq<Node>, k: nat)
      reads this, sentinel, nodes, all
    {
      k <= |all| && Valid() && nodes == all[k..] && forall i :: 0 <= i < k ==> all[i].pstHead == null
    }

    method DelOne(x: Node, ghost all: seq<Node>, ghost k: nat)
      requires Freed(all, k) && Distinct(sentinel, all) && k < |all| && x == all[k]
      modifies this, sentinel, nodes
      ensures Freed(all, k + 1)
    {
      Del(x, 0);
    }

    /** DLL_FREE hands every member to the callback once, in order, and leaves the list empty. */
    method Free() returns (freed: seq<Node>)
      requires Valid()
      modifies this, sentinel, nodes
      ensures Valid() && nodes == []
      ensures freed == old(nodes) && forall i :: 0 <= i < |freed| ==> freed[i].pstHead == null
    {
      freed := [];
      ghost var all, k := nodes, 0;
      var x := First();
      while x != null
        invariant Freed(all, k) && freed == all[..k]
        invariant x == if k == |all| then null else all[k]
        decreases |all| - k
      {
        DelOne(x, all, k);
        freed, k := freed + [x], k + 1;
        x := First();
      }
      sentinel.prev, sentinel.next := sentinel, sentinel;
      ulCount := 0;
    }

    // The two lists share no node.
    ghost predicate Apart(other: Head)
      reads this, other
    {
      && other != this && other.sentinel != sentinel
      && sentinel !in other.nodes && other.sentinel !in nodes
      && forall x :: x in nodes ==> x !in other.nodes
    }

    /** DLL_Cat moves all members of the source behind those of this list. */
    method Cat(src: Head)
      requires Valid() && src.Valid() && Apart(src)
      modifies this, sentinel, nodes, src, src.sentinel, src.nodes
      ensures Valid() && src.Valid()
      ensures nodes == old(nodes) + old(src.nodes) && src.nodes == []
    {
      if src.ulCount == 0 {
        return;
      }
      src.GiveTo(this);
      Splice(src);
    }

    // The ring of the source is opened and put in behind the last member of this one.
    method Splice(src: Head)
      requires Valid() && Apart(src) && src.nodes != [] && src.ulCount == |src.nodes|
      requires Distinct(src.sentinel, src.nodes) && Linked(src.sentinel, src.nodes)
      requires forall i :: 0 <= i < |src.nodes| ==> src.nodes[i].pstHead == this
      modifies this, sentinel, nodes, src, src.sentinel, src.nodes
      ensures Valid() && src.Valid()
      ensures nodes == old(nodes) + old(src.nodes) && src.nodes == []
    {
      Join(sentinel, nodes, src.sentinel, src.nodes);
      DistinctConcat(sentinel, nodes, src.sentinel, src.nodes);
      ulCount := ulCount + src.ulCount;
      nodes := nodes + src.nodes;
      src.ulCount, src.nodes := 0, [];
    }

    // The scan of DLL_Cat: every member now points at the other list.
    method GiveTo(dst: Head)
      requires Valid() && nodes != []
      modifies nodes
      ensures ulCount == |nodes| && Distinct(sentinel, nodes) && Linked(sentinel, nodes)
      ensures forall i :: 0 <= i < |nodes| ==> nodes[i].pstHead == dst
      ensures forall x :: x in nodes ==> x.next == old(x.next) && x.prev == old(x.prev)
    {
      assert LinkAt(sentinel, nodes, 0);
      var x := sentinel.next;
      ghost var k := 0;
      while x != sentinel
        invariant k <= |nodes| && x == At(sentinel, nodes, k)
        invariant forall i :: 0 <= i < k ==> nodes[i].pstHead == dst
        invariant forall y :: y in nodes ==> y.next == old(y.next) && y.prev == old(y.prev)
        invariant Linked(sentinel, nodes)
        decreases |nodes| - k
      {
        assert old(LinkAt(sentinel, nodes, k + 1));
        x.pstHead := dst;
        forall i: nat | i <= |nodes|
          ensures LinkAt(sentinel, nodes, i)
        {
          assert old(LinkAt(sentinel, nodes, i));
        }
        x := x.next;
        k := k + 1;
      }
    }

    // The inner scan of DLL_Sort: x goes before the first member that is greater, or to the end.
    method InsertSorted(x: Node, cmp: (Node, Node) -> int) returns (ghost p: nat)
      requires Valid() && Fresh(x)
      modifies this, sentinel, nodes, x
      ensures Valid() && p <= |old(nodes)| && nodes == old(nodes)[..p] + [x] + old(nodes)[p..]
      ensures forall j :: 0 <= j < p ==> cmp(x, old(nodes)[j]) >= 0
      ensures p < |old(nodes)| ==> cmp(x, old(nodes)[p]) < 0
    {
      p := 0;
      var y := First();
      while y != null
        invariant Valid() && nodes == old(nodes)
        invariant p <= |nodes| && y == if p < |nodes| then nodes[p] else null
        invariant forall j :: 0 <= j < p ==> cmp(x, nodes[j]) >= 0
        decreases |nodes| - p
      {
        if cmp(x, y) < 0 {
          InsertBefore(x, y, p);
          return;
        }
        y := Next(y, p);
        p := p + 1;
      }
      Add(x);
    }

    // Between two rounds of DLL_Sort: the first m of the old members are here in order, the others are in rest.
    ghost predicate Sorting(rest: Head, all: seq<Node>, cmp: (Node, Node) -> int, m: nat)
      reads this, sentinel, nodes, rest, rest.sentinel, rest.nodes
    {
      && Valid() && rest.Valid() && Apart(rest) && Distinct(sentinel, all) && rest.sentinel !in all
      && m <= |all| && nodes == Pick(all, StableOrder(all, cmp, m)) && rest.nodes == all[m..]
    }

    // During a round: x is taken off rest and on neither list.
    ghost predicate Holding(rest: Head, all: seq<Node>, cmp: (Node, Node) -> int, m: nat, x: Node)
      reads this, sentinel, nodes, rest, rest.sentinel, rest.nodes
    {
      && Valid() && rest.Valid() && Apart(rest) && Distinct(sentinel, all) && rest.sentinel !in all
      && m < |all| && nodes == Pick(all, StableOrder(all, cmp, m)) && rest.nodes == all[m + 1..]
      && x == all[m] && Fresh(x) && rest.Fresh(x)
    }

    method TakeOne(rest: Head, ghost all: seq<Node>, cmp: (Node, Node) -> int, ghost m: nat) returns (x: Node?)
      requires Sorting(rest, all, cmp, m)
      modifies rest, rest.sentinel, rest.nodes
      ensures if m == |all| then x == null && Sorting(rest, all, cmp, m) else x != null && Holding(rest, all, cmp, m, x)
    {
      PickMisses(sentinel, all, StableOrder(all, cmp, m), m);
      x := rest.Get();
      assert Valid();
    }

    method PutOne(rest: Head, ghost all: seq<Node>, cmp: (Node, Node) -> int, ghost m: nat, x: Node)
      requires TotalPreorder(all, cmp) && Holding(rest, all, cmp, m, x)
      modifies this, sentinel, nodes, x
      ensures Sorting(rest, all, cmp, m + 1)
    {
      ghost var p := InsertSorted(x, cmp);
      assert rest.Valid() && Apart(rest);
      InsertedInOrder(all, cmp, m, p);
    }

    // One round: the first member of rest is put in its place.
    method SortOne(rest: Head, ghost all: seq<Node>, cmp: (Node, Node) -> int, ghost m: nat) returns (x: Node?)
      requires TotalPreorder(all, cmp) && Sorting(rest, all, cmp, m)
      modifies this, sentinel, all, rest, rest.sentinel
      ensures if m == |all| then x == null && Sorting(rest, all, cmp, m) else x != null && Sorting(rest, all, cmp, m + 1)
    {
      x := TakeOne(rest, all, cmp, m);
      if x != null {
        PickMisses(sentinel, all, StableOrder(all, cmp, m), m);
        PutOne(rest, all, cmp, m, x);
      }
    }

    // The loop of DLL_Sort.
    method SortAll(rest: Head, ghost all: seq<Node>, cmp: (Node, Node) -> int)
      requires TotalPreorder(all, cmp) && Sorting(rest, all, cmp, 0)
      modifies this, sentinel, all, rest, rest.sentinel
      ensures Valid() && nodes == Pick(all, StableOrder(all, cmp, |all|))
    {
      ghost var m := 0;
      var x := SortOne(rest, all, cmp, m);
      while x != null
        invariant x == null ==> m == |all| && Sorting(rest, all, cmp, m)
        invariant x != null ==> m < |all| && Sorting(rest, all, cmp, m + 1)
        decreases |all| - m, x != null
      {
        m := m + 1;
        x := SortOne(rest, all, cmp, m);
      }
    }

    /** DLL_Sort puts the members into the order of the stable sort. */
    method Sort(cmp: (Node, Node) -> int)
      requires Valid() && TotalPreorder(nodes, cmp)
      modifies this, sentinel, nodes
      ensures Valid() && nodes == Pick(old(nodes), StableOrder(old(nodes), cmp, |old(nodes)|))
    {
      ghost var all := nodes;
      var rest := new Head();
      rest.Cat(this);
      assert rest.nodes == all[0..] && nodes == Pick(all, StableOrder(all, cmp, 0));
      SortAll(rest, all, cmp);
    }
  }

  // The members at the given places.
  ghost function Pick(all: seq<Node>, order: seq<nat>): (picked: seq<Node>)
    requires Indices(order, |all|)
    ensures |picked| == |order| && forall i :: 0 <= i < |order| ==> picked[i] == all[order[i]]
  {
    seq(|order|, i requires 0 <= i < |order| => all[order[i]])
  }

  lemma PickMisses(s: Node, all: seq<Node>, order: seq<nat>, m: nat)
    requires Distinct(s, all) && m <= |all| && Indices(order, m)
    ensures forall i :: m <= i < |all| ==> all[i] !in Pick(all, order)
    ensures forall x :: x in Pick(all, order) ==> x in all
  {
  }

  // Putting the m-th node before the first greater member continues the stable sort.
  lemma InsertedInOrder(all: seq<Node>, cmp: (Node, Node) -> int, m: nat, p: nat)
    requires TotalPreorder(all, cmp) && m < |all| && p <= |StableOrder(all, cmp, m)|
    requires forall j :: 0 <= j < p ==> cmp(all[m], Pick(all, StableOrder(all, cmp, m))[j]) >= 0
    requires p < |StableOrder(all, cmp, m)| ==> cmp(all[m], Pick(all, StableOrder(all, cmp, m))[p]) < 0
    ensures var before := Pick(all, StableOrder(all, cmp, m));
            Pick(all, StableOrder(all, cmp, m + 1)) == before[..p] + [all[m]] + before[p..]
  {
    var order := StableOrder(all, cmp, m);
    PickPlace(all, cmp, order, m, p);
    PlaceContinues(all, cmp, m, p);
    PickPutAt(all, order, m, p);
  }

  lemma PickPlace(all: seq<Node>, cmp: (Node, Node) -> int, order: seq<nat>, m: nat, p: nat)
    requires m < |all| && Indices(order, |all|) && p <= |order|
    requires forall j :: 0 <= j < p ==> cmp(all[m], Pick(all, order)[j]) >= 0
    requires p < |order| ==> cmp(all[m], Pick(all, order)[p]) < 0
    ensures Place(all, cmp, order, m, p)
  {
    forall j | 0 <= j < p
      ensures cmp(all[m], all[order[j]]) >= 0
    {
      assert Pick(all, order)[j] == all[order[j]];
    }
  }

  lemma PickPutAt(all: seq<Node>, order: seq<nat>, m: nat, p: nat)
    requires m < |all| && Indices(order, |all|) && p <= |order|
    ensures Indices(PutAt(order, m, p), |all|)
    ensures Pick(all, PutAt(order, m, p)) == Pick(all, order)[..p] + [all[m]] + Pick(all, order)[p..]
  {
  }
}
