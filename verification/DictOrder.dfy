/**
 Walking an unsorted array in sorted order without sorting it: a successor function that keeps no state but the
 current element enumerates the stable sort.
 */
module DictOrder {

  datatype Option<+T> = None | Some(value: T)

  // What the callers' comparison functions are on the elements of the array: a total preorder, given by the sign.
  ghost predicate TotalPreorder<A>(a: seq<A>, cmp: (A, A) -> int) {
    && (forall i, j {:trigger cmp(a[i], a[j])} ::
          0 <= i < |a| && 0 <= j < |a| ==> (cmp(a[i], a[j]) < 0 <==> cmp(a[j], a[i]) > 0))
    && (forall i, j, k {:trigger cmp(a[i], a[j]), cmp(a[j], a[k])} ::
          (0 <= i < |a| && 0 <= j < |a| && 0 <= k < |a| && cmp(a[i], a[j]) <= 0 && cmp(a[j], a[k]) <= 0)
          ==> cmp(a[i], a[k]) <= 0)
  }

  // Element i comes before element j in the stable order: ties are broken by address.
  predicate Before<A>(a: seq<A>, cmp: (A, A) -> int, i: nat, j: nat)
    requires i < |a| && j < |a|
  {
    cmp(a[i], a[j]) < 0 || (cmp(a[i], a[j]) == 0 && i < j)
  }

  lemma BeforeIsStrictOrder<A>(a: seq<A>, cmp: (A, A) -> int, i: nat, j: nat, k: nat)
    requires TotalPreorder(a, cmp) && i < |a| && j < |a| && k < |a|
    ensures Before(a, cmp, i, j) && Before(a, cmp, j, k) ==> Before(a, cmp, i, k)
    ensures i != j ==> (Before(a, cmp, i, j) <==> !Before(a, cmp, j, i))
    ensures !Before(a, cmp, i, i)
  {
    var x, y, z := a[i], a[j], a[k];
    assert cmp(x, x) == 0;
    if cmp(x, y) <= 0 && cmp(y, z) <= 0 {
      assert cmp(x, z) <= 0;
      if cmp(x, z) == 0 {
        assert cmp(z, x) <= 0;
        assert cmp(y, x) <= 0 && cmp(z, y) <= 0;
      }
    }
  }

  // DictOrder_ArrayGetFirst
  method GetFirst<A>(a: seq<A>, cmp: (A, A) -> int) returns (first: Option<nat>)
    requires TotalPreorder(a, cmp)
    ensures first.None? <==> a == []
    ensures first.Some? ==> first.value < |a| &&
                            forall j :: 0 <= j < |a| && j != first.value ==> Before(a, cmp, first.value, j)
  {
    if |a| <= 0 {
      return None;
    }
    var min := 0;
    for i := 1 to |a|
      invariant 0 <= min < i
      invariant forall j :: 0 <= j < i && j != min ==> Before(a, cmp, min, j)
    {
      if cmp(a[min], a[i]) > 0 {
        forall j | 0 <= j < i
          ensures Before(a, cmp, i, j)
        {
          BeforeIsStrictOrder(a, cmp, i, min, j);
        }
        min := i;
      }
    }
    return Some(min);
  }

  // n is the successor of c in the stable order, if c has one.
  ghost predicate IsNext<A>(a: seq<A>, cmp: (A, A) -> int, c: nat, n: Option<nat>)
    requires c < |a|
  {
    match n
    case None => forall j :: 0 <= j < |a| ==> !Before(a, cmp, c, j)
    case Some(m) => m < |a| && Before(a, cmp, c, m)
                    && forall j :: 0 <= j < |a| && Before(a, cmp, c, j) && j != m ==> Before(a, cmp, m, j)
  }

  // DictOrder_ArrayGetNext
  method GetNext<A>(a: seq<A>, cmp: (A, A) -> int, curr: Option<nat>) returns (next: Option<nat>)
    requires TotalPreorder(a, cmp) && (curr.Some? ==> curr.value < |a|)
    ensures curr.None? ==> (next.None? <==> a == [])
    ensures curr.None? && next.Some? ==>
              next.value < |a| && forall j :: 0 <= j < |a| && j != next.value ==> Before(a, cmp, next.value, j)
    ensures curr.Some? ==> IsNext(a, cmp, curr.value, next)
  {
    if curr.None? {
      next := GetFirst(a, cmp);
      return;
    }
    var c := curr.value;
    next := None;
    for i := 0 to |a|
      invariant next.Some? ==> next.value < i && cmp(a[next.value], a[c]) > 0
      invariant forall j :: 0 <= j < i && Before(a, cmp, c, j) ==>
                              next.Some? && (j == next.value || Before(a, cmp, next.value, j))
      invariant forall j :: 0 <= j < i && cmp(a[j], a[c]) == 0 ==> j <= c
    {
      var ret := cmp(a[i], a[c]);
      if ret == 0 && i > c {
        forall j | 0 <= j < |a| && Before(a, cmp, c, j) && j != i
          ensures Before(a, cmp, i, j)
        {
          EqualThenLater(a, cmp, c, i, j);
        }
        return Some(i);
      }
      if ret > 0 {
        if next.None? {
          next := Some(i);
        } else if cmp(a[i], a[next.value]) < 0 {
          forall j | 0 <= j < i && Before(a, cmp, c, j)
            ensures Before(a, cmp, i, j)
          {
            BeforeIsStrictOrder(a, cmp, i, next.value, j);
          }
          next := Some(i);
        } else {
          BeforeIsStrictOrder(a, cmp, i, next.value, i);
        }
      } else {
        BeforeIsStrictOrder(a, cmp, c, i, i);
      }
    }
  }

  // The first later element equal to c is its successor.
  lemma EqualThenLater<A>(a: seq<A>, cmp: (A, A) -> int, c: nat, i: nat, j: nat)
    requires TotalPreorder(a, cmp) && c < i < |a| && j < |a| && cmp(a[i], a[c]) == 0
    requires forall k :: 0 <= k < i && cmp(a[k], a[c]) == 0 ==> k <= c
    requires Before(a, cmp, c, j) && j != i
    ensures Before(a, cmp, i, j)
  {
    BeforeIsStrictOrder(a, cmp, i, j, c);
    BeforeIsStrictOrder(a, cmp, c, j, i);
    assert cmp(a[c], a[j]) <= 0 && cmp(a[i], a[c]) <= 0;
  }

  // ----- The reference: insertion sort of the indices, equal elements in the order of their indices.

  ghost predicate Indices(order: seq<nat>, n: nat) {
    forall p :: 0 <= p < |order| ==> order[p] < n
  }

  function Insert<A>(a: seq<A>, cmp: (A, A) -> int, order: seq<nat>, k: nat): seq<nat>
    requires k < |a| && Indices(order, |a|)
  {
    if order == [] then [k]
    else
      var n := |order| - 1;
      if cmp(a[order[n]], a[k]) <= 0 then order + [k] else Insert(a, cmp, order[..n], k) + [order[n]]
  }

  function StableOrder<A>(a: seq<A>, cmp: (A, A) -> int, n: nat): (order: seq<nat>)
    requires n <= |a|
    ensures Indices(order, n) && forall i :: 0 <= i < n ==> i in order
  {
    if n == 0 then []
    else
      InsertMembers(a, cmp, StableOrder(a, cmp, n - 1), n - 1, n);
      Insert(a, cmp, StableOrder(a, cmp, n - 1), n - 1)
  }

  lemma {:induction false} InsertMembers<A>(a: seq<A>, cmp: (A, A) -> int, order: seq<nat>, k: nat, m: nat)
    requires k < m <= |a| && Indices(order, m)
    ensures Indices(Insert(a, cmp, order, k), m)
    ensures forall i :: i in Insert(a, cmp, order, k) <==> i in order || i == k
  {
    if order == [] {
    } else {
      var n := |order| - 1;
      InsertMembers(a, cmp, order[..n], k, m);
      assert order == order[..n] + [order[n]];
    }
  }

  ghost predicate Ascending<A>(a: seq<A>, cmp: (A, A) -> int, order: seq<nat>) {
    && Indices(order, |a|)
    && forall p, q :: 0 <= p < q < |order| ==> Before(a, cmp, order[p], order[q])
  }

  lemma AppendAscending<A>(a: seq<A>, cmp: (A, A) -> int, order: seq<nat>, k: nat)
    requires TotalPreorder(a, cmp) && k < |a| && Ascending(a, cmp, order)
    requires order != [] ==> Before(a, cmp, order[|order| - 1], k)
    ensures Ascending(a, cmp, order + [k])
  {
    forall p | 0 <= p < |order|
      ensures Before(a, cmp, order[p], k)
    {
      BeforeIsStrictOrder(a, cmp, order[p], order[|order| - 1], k);
    }
  }

  lemma {:induction false} InsertAscending<A>(a: seq<A>, cmp: (A, A) -> int, order: seq<nat>, k: nat)
    requires TotalPreorder(a, cmp) && k < |a| && Ascending(a, cmp, order) && Indices(order, k)
    ensures Ascending(a, cmp, Insert(a, cmp, order, k))
  {
    if order == [] {
    } else {
      var n := |order| - 1;
      if cmp(a[order[n]], a[k]) <= 0 {
        AppendAscending(a, cmp, order, k);
      } else {
        InsertAscending(a, cmp, order[..n], k);
        InsertMembers(a, cmp, order[..n], k, |a|);
        var rest := Insert(a, cmp, order[..n], k);
        if rest != [] {
          assert rest[|rest| - 1] in rest;
        }
        AppendAscending(a, cmp, rest, order[n]);
      }
    }
  }

  lemma {:induction false} StableOrderAscending<A>(a: seq<A>, cmp: (A, A) -> int, n: nat)
    requires TotalPreorder(a, cmp) && n <= |a|
    ensures Ascending(a, cmp, StableOrder(a, cmp, n))
  {
    if n == 0 {
    } else {
      StableOrderAscending(a, cmp, n - 1);
      InsertAscending(a, cmp, StableOrder(a, cmp, n - 1), n - 1);
    }
  }

  /** There is only one ascending arrangement of a set of elements. */
  lemma {:induction false} AscendingIsUnique<A>(a: seq<A>, cmp: (A, A) -> int, s: seq<nat>, t: seq<nat>)
    requires TotalPreorder(a, cmp) && Ascending(a, cmp, s) && Ascending(a, cmp, t)
    requires forall i :: i in s <==> i in t
    ensures s == t
    decreases |s|
  {
    FirstMember(s);
    FirstMember(t);
    if s == [] {
    } else {
      FirstIsLeast(a, cmp, s, t);
      forall i
        ensures i in s[1..] <==> i in t[1..]
      {
        TailMembers(a, cmp, s, i);
        TailMembers(a, cmp, t, i);
      }
      AscendingIsUnique(a, cmp, s[1..], t[1..]);
    }
  }

  lemma FirstMember(s: seq<nat>)
    ensures s == [] || s[0] in s
  {
  }

  lemma FirstIsLeast<A>(a: seq<A>, cmp: (A, A) -> int, s: seq<nat>, t: seq<nat>)
    requires TotalPreorder(a, cmp) && Ascending(a, cmp, s) && Ascending(a, cmp, t) && s != [] && t != []
    requires s[0] in t && t[0] in s
    ensures s[0] == t[0]
  {
    BeforeIsStrictOrder(a, cmp, s[0], t[0], s[0]);
  }

  lemma TailMembers<A>(a: seq<A>, cmp: (A, A) -> int, s: seq<nat>, i: nat)
    requires TotalPreorder(a, cmp) && Ascending(a, cmp, s) && s != []
    ensures i in s[1..] <==> i in s && i != s[0]
  {
    BeforeIsStrictOrder(a, cmp, s[0], s[0], s[0]);
    assert s == [s[0]] + s[1..];
  }

  // Where a scan for the first greater element puts element m.
  ghost predicate Place<A>(a: seq<A>, cmp: (A, A) -> int, order: seq<nat>, m: nat, p: nat) {
    && m < |a| && p <= |order| && Indices(order, |a|)
    && (forall j :: 0 <= j < p ==> cmp(a[m], a[order[j]]) >= 0)
    && (p < |order| ==> cmp(a[m], a[order[p]]) < 0)
  }

  function PutAt(order: seq<nat>, m: nat, p: nat): seq<nat>
    requires p <= |order|
  {
    order[..p] + [m] + order[p..]
  }

  lemma PutAtMembers(order: seq<nat>, m: nat, p: nat, i: nat)
    requires p <= |order|
    ensures i in PutAt(order, m, p) <==> i in order || i == m
  {
    assert order == order[..p] + order[p..];
  }

  lemma PutAtAscends<A>(a: seq<A>, cmp: (A, A) -> int, order: seq<nat>, m: nat, p: nat)
    requires TotalPreorder(a, cmp) && Ascending(a, cmp, order) && Indices(order, m) && Place(a, cmp, order, m, p)
    ensures Ascending(a, cmp, PutAt(order, m, p))
  {
    forall j | 0 <= j < |order|
      ensures if j < p then Before(a, cmp, order[j], m) else Before(a, cmp, m, order[j])
    {
      if j >= p {
        BeforeIsStrictOrder(a, cmp, m, order[p], order[j]);
      } else {
        BeforeIsStrictOrder(a, cmp, order[j], m, m);
      }
    }
  }

  /** Putting element m before the first greater one continues the stable sort. */
  lemma PlaceContinues<A>(a: seq<A>, cmp: (A, A) -> int, m: nat, p: nat)
    requires TotalPreorder(a, cmp) && m < |a| && Place(a, cmp, StableOrder(a, cmp, m), m, p)
    ensures StableOrder(a, cmp, m + 1) == PutAt(StableOrder(a, cmp, m), m, p)
  {
    var order := StableOrder(a, cmp, m);
    StableOrderAscending(a, cmp, m);
    StableOrderAscending(a, cmp, m + 1);
    PutAtAscends(a, cmp, order, m, p);
    forall i: nat
      ensures i in PutAt(order, m, p) <==> i in StableOrder(a, cmp, m + 1)
    {
      PutAtMembers(order, m, p, i);
      InsertMembers(a, cmp, order, m, m + 1);
    }
    AscendingIsUnique(a, cmp, PutAt(order, m, p), StableOrder(a, cmp, m + 1));
  }

  // ----- The scan.

  // The elements still to come after `curr`.
  function Remaining<A>(a: seq<A>, cmp: (A, A) -> int, curr: Option<nat>): set<nat>
    requires curr.Some? ==> curr.value < |a|
  {
    set j: nat | j < |a| && (curr.None? || Before(a, cmp, curr.value, j))
  }

  lemma RemainingShrinks<A>(a: seq<A>, cmp: (A, A) -> int, last: Option<nat>, curr: nat)
    requires TotalPreorder(a, cmp) && (last.Some? ==> last.value < |a|)
    requires curr in Remaining(a, cmp, last)
    requires forall j :: j in Remaining(a, cmp, last) && j != curr ==> Before(a, cmp, curr, j)
    ensures Remaining(a, cmp, Some(curr)) == Remaining(a, cmp, last) - {curr}
  {
    forall j: nat | j < |a|
      ensures j in Remaining(a, cmp, Some(curr)) <==> j in Remaining(a, cmp, last) - {curr}
    {
      BeforeIsStrictOrder(a, cmp, curr, j, curr);
      if last.Some? {
        BeforeIsStrictOrder(a, cmp, last.value, curr, j);
      }
    }
  }

  /** DictOrder_ArrayScan visits every element exactly once, in exactly the order of the stable sort. */
  method ArrayScan<A>(a: seq<A>, cmp: (A, A) -> int) returns (visited: seq<nat>)
    requires TotalPreorder(a, cmp)
    ensures visited == StableOrder(a, cmp, |a|)
  {
    visited := [];
    var next := GetNext(a, cmp, None);
    ghost var last: Option<nat> := None;
    while next.Some?
      invariant (last.None? ==> visited == []) && (last.Some? ==> last.value < |a|)
      invariant next.Some? ==> next.value in Remaining(a, cmp, last)
      invariant forall j :: j in Remaining(a, cmp, last) ==>
                              next.Some? && (j == next.value || Before(a, cmp, next.value, j))
      invariant Ascending(a, cmp, visited)
      invariant visited != [] ==> last == Some(visited[|visited| - 1])
      invariant forall j: nat :: j < |a| ==> (j in visited <==> j !in Remaining(a, cmp, last))
      decreases Remaining(a, cmp, last)
    {
      var curr := next.value;
      RemainingShrinks(a, cmp, last, curr);
      AppendAscending(a, cmp, visited, curr);
      visited := visited + [curr];
      last := next;
      next := GetNext(a, cmp, next);
    }
    StableOrderAscending(a, cmp, |a|);
    AscendingIsUnique(a, cmp, visited, StableOrder(a, cmp, |a|));
  }
}
