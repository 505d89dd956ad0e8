/**
 The doubly linked queue without a count: the same sentinel ring, whose operations only see the nodes they link.
 */
module Dtq {
  import opened Dll

  // DTQ_Init
  method Init(s: Node)
    modifies s
    ensures Linked(s, [])
  {
    s.next := s;
    s.prev := s;
  }

  // DTQ_AddAfter: behind a member, or behind the sentinel
  method AddAfter(s: Node, ghost nodes: seq<Node>, prev: Node, x: Node, ghost k: nat)
    requires Distinct(s, nodes) && Linked(s, nodes) && x != s && x !in nodes
    requires k <= |nodes| && prev == At(s, nodes, k - 1)
    modifies s, nodes, x
    ensures Linked(s, nodes[..k] + [x] + nodes[k..])
  {
    assert LinkAt(s, nodes, k);
    x.prev := prev;
    x.next := prev.next;
    prev.next := x;
    x.next.prev := x;
    ghost var after := nodes[..k] + [x] + nodes[k..];
    forall i: nat | i <= |after|
      ensures LinkAt(s, after, i)
    {
      assert old(LinkAt(s, nodes, if i <= k then i else i - 1));
    }
  }

  // DTQ_AddBefore: in front of a member, or in front of the sentinel
  method AddBefore(s: Node, ghost nodes: seq<Node>, next: Node, x: Node, ghost k: nat)
    requires Distinct(s, nodes) && Linked(s, nodes) && x != s && x !in nodes
    requires k <= |nodes| && next == At(s, nodes, k)
    modifies s, nodes, x
    ensures Linked(s, nodes[..k] + [x] + nodes[k..])
  {
    assert LinkAt(s, nodes, k);
    x.prev := next.prev;
    x.next := next;
    x.prev.next := x;
    x.next.prev := x;
    ghost var after := nodes[..k] + [x] + nodes[k..];
    forall i: nat | i <= |after|
      ensures LinkAt(s, after, i)
    {
      assert old(LinkAt(s, nodes, if i <= k then i else i - 1));
    }
  }

  // DTQ_Del
  method Del(s: Node, ghost nodes: seq<Node>, x: Node, ghost k: nat)
    requires Distinct(s, nodes) && Linked(s, nodes) && k < |nodes| && nodes[k] == x
    modifies s, nodes
    ensures Linked(s, nodes[..k] + nodes[k + 1..])
  {
    assert LinkAt(s, nodes, k) && LinkAt(s, nodes, k + 1);
    x.prev.next := x.next;
    x.next.prev := x.prev;
    ghost var after := nodes[..k] + nodes[k + 1..];
    forall i: nat | i <= |after|
      ensures LinkAt(s, after, i)
    {
      assert old(LinkAt(s, nodes, if i <= k then i else i + 1));
    }
  }

  // DTQ_First and DTQ_Last
  method First(s: Node, ghost nodes: seq<Node>) returns (first: Node?)
    requires Distinct(s, nodes) && Linked(s, nodes)
    ensures first == if nodes == [] then null else nodes[0]
  {
    assert LinkAt(s, nodes, 0);
    return if s.next == s then null else s.next;
  }

  method Last(s: Node, ghost nodes: seq<Node>) returns (last: Node?)
    requires Distinct(s, nodes) && Linked(s, nodes)
    ensures last == if nodes == [] then null else nodes[|nodes| - 1]
  {
    assert LinkAt(s, nodes, |nodes|);
    return if s.prev == s then null else s.prev;
  }

  // DTQ_DelHead
  method DelHead(s: Node, ghost nodes: seq<Node>) returns (x: Node?)
    requires Distinct(s, nodes) && Linked(s, nodes)
    modifies s, nodes
    ensures if nodes == [] then x == null && Linked(s, []) else x == nodes[0] && Linked(s, nodes[1..])
  {
    x := First(s, nodes);
    if x != null {
      Del(s, nodes, x, 0);
      assert nodes[..0] + nodes[1..] == nodes[1..];
    }
  }

  // DTQ_DelTail
  method DelTail(s: Node, ghost nodes: seq<Node>) returns (x: Node?)
    requires Distinct(s, nodes) && Linked(s, nodes)
    modifies s, nodes
    ensures if nodes == [] then x == null && Linked(s, [])
            else x == nodes[|nodes| - 1] && Linked(s, nodes[..|nodes| - 1])
  {
    x := Last(s, nodes);
    if x != null {
      Del(s, nodes, x, |nodes| - 1);
      assert nodes[..|nodes| - 1] + nodes[|nodes|..] == nodes[..|nodes| - 1];
    }
  }

  /** DTQ_Append moves the ring of the source, in four assignments, behind the members of the destination. */
  method Append(dst: Node, ghost mine: seq<Node>, src: Node, ghost theirs: seq<Node>)
    requires Distinct(dst, mine) && Distinct(src, theirs) && Linked(dst, mine) && Linked(src, theirs)
    requires dst != src && dst !in theirs && src !in mine && forall x :: x in mine ==> x !in theirs
    modifies dst, mine, src, theirs
    ensures Linked(dst, mine + theirs) && Linked(src, [])
  {
    ghost var m, n := |mine|, |theirs|;
    assert LinkAt(dst, mine, m) && LinkAt(src, theirs, 0) && LinkAt(src, theirs, n);
    if src.next == src {
      assert theirs == [] && mine + theirs == mine;
      return;
    }
    src.next.prev := dst.prev;
    src.prev.next := dst.prev.next;
    dst.prev.next := src.next;
    dst.prev := src.prev;
    Init(src);
    forall i: nat | i <= m + n
      ensures LinkAt(dst, mine + theirs, i)
    {
      if i < m {
        assert old(LinkAt(dst, mine, i));
      } else if i > m {
        assert old(LinkAt(src, theirs, i - m));
      }
    }
  }
}
