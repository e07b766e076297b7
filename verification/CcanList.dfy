/** src/ccan/list: the intrusive, circular, doubly linked list. A list head is a node
    like any other; the lists are rings. */
module CcanList {

  class Node {
    var next: Node
    var prev: Node

    /** list_node_init, list_head_init: linked to itself. */
    constructor ()
      ensures next == this && prev == this
    {
      next, prev := this, this;
    }
  }

  ghost predicate Distinct(s: seq<Node>) {
    forall i, j :: 0 <= i < j < |s| ==> s[i] != s[j]
  }

  /** y follows x, and both sides agree on it. */
  ghost predicate Linked(x: Node, y: Node)
    reads x, y
  {
    x.next == y && y.prev == x
  }

  /** Each node is linked to the one after it. */
  ghost predicate Chain(s: seq<Node>)
    reads s
  {
    && (forall i {:trigger s[i].next} :: 0 <= i < |s| - 1 ==> s[i].next == s[i + 1])
    && (forall i {:trigger s[i].prev} :: 0 < i < |s| ==> s[i].prev == s[i - 1])
  }

  function Last(s: seq<Node>): Node
    requires s != []
  {
    s[|s| - 1]
  }

  /** The nodes form a ring in this order: next leads along it, prev back. */
  ghost predicate IsRing(ring: seq<Node>)
    reads ring
  {
    ring != [] && Distinct(ring) && Chain(ring) && Linked(Last(ring), ring[0])
  }

  /** The list with head h holds these entries, first to last. */
  ghost predicate Holds(h: Node, entries: seq<Node>)
    reads h, entries
  {
    IsRing([h] + entries)
  }

  ghost predicate Disjoint(a: seq<Node>, b: seq<Node>) {
    forall x :: x in a ==> x !in b
  }

  /** A ring is determined by any one of its nodes. */
  lemma {:induction false} RingsAgree(a: seq<Node>, b: seq<Node>, k: nat)
    requires IsRing(a) && IsRing(b) && a[0] == b[0] && k < |a| && k < |b|
    ensures a[k] == b[k]
    decreases k
  {
    if k > 0 {
      RingsAgree(a, b, k - 1);
      assert a[k - 1].next == a[k] && b[k - 1].next == b[k];
    }
  }

  lemma RingNotLonger(a: seq<Node>, b: seq<Node>)
    requires IsRing(a) && IsRing(b) && a[0] == b[0]
    ensures |b| <= |a|
  {
    if |a| <= |b| {
      var k := |a| - 1;
      RingsAgree(a, b, k);
      var after := b[k].next;
      assert after == a[0];
    }
  }

  lemma RingIsUnique(a: seq<Node>, b: seq<Node>)
    requires IsRing(a) && IsRing(b) && a[0] == b[0]
    ensures a == b
  {
    RingNotLonger(a, b);
    RingNotLonger(b, a);
    forall k | 0 <= k < |a|
      ensures a[k] == b[k]
    {
      RingsAgree(a, b, k);
    }
  }

  /** The head determines the entries. */
  lemma EntriesAreUnique(h: Node, a: seq<Node>, b: seq<Node>)
    requires Holds(h, a) && Holds(h, b)
    ensures a == b
  {
    RingIsUnique([h] + a, [h] + b);
    assert ([h] + a)[1..] == a && ([h] + b)[1..] == b;
  }

  // ---- list_check ----

  /** Every next and prev stays among the nodes; nothing else is asked of the graph. */
  ghost predicate Closed(nodes: set<Node>)
    reads nodes
  {
    forall x :: x in nodes ==> x.next in nodes && x.prev in nodes
  }

  /** The nodes passed so far: each is the next of the one before, and points back. */
  ghost predicate Walk(v: seq<Node>)
    reads v
  {
    v != [] && Distinct(v) && Chain(v)
  }

  lemma {:induction false} WalkFollowsRing(v: seq<Node>, ring: seq<Node>, k: nat)
    requires Walk(v) && IsRing(ring) && v[0] == ring[0] && k < |v|
    ensures k < |ring| && v[k] == ring[k]
    decreases k
  {
    if k > 0 {
      WalkFollowsRing(v, ring, k - 1);
      assert v[k - 1].next == v[k] != v[0];
      assert k < |ring| ==> ring[k - 1].next == ring[k];
    }
  }

  /** A ring through the node forbids a bad back link at the end of the walk. */
  lemma WalkNeverMismatches(v: seq<Node>, ring: seq<Node>)
    requires Walk(v) && IsRing(ring) && v[0] == ring[0]
    ensures Last(v).next.prev == Last(v)
  {
    var k := |v| - 1;
    WalkFollowsRing(v, ring, k);
    if k < |ring| - 1 {
      assert ring[k].next == ring[k + 1] && ring[k + 1].prev == ring[k];
    }
  }

  lemma WalkExtends(v: seq<Node>, n: Node)
    requires Walk(v) && Linked(Last(v), n) && n != v[0]
    ensures Walk(v + [n])
  {
    forall k | 0 <= k < |v|
      ensures v[k] != n
    {
      assert k > 0 ==> v[k].prev == v[k - 1];
    }
  }

  lemma DistinctFits(v: seq<Node>, nodes: set<Node>)
    requires Distinct(v) && forall x :: x in v ==> x in nodes
    ensures |v| <= |nodes|
    decreases |v|
  {
    if v != [] {
      var last := v[|v| - 1];
      DistinctFits(v[..|v| - 1], nodes - {last});
    }
  }

  /** list_check_node without an abort string: NULL becomes false. It ends on every
      finite graph, and succeeds exactly on the rings. */
  method CheckNode(node: Node, ghost nodes: set<Node>) returns (ok: bool)
    requires node in nodes && Closed(nodes)
    ensures ok <==> exists ring :: IsRing(ring) && ring[0] == node
  {
    var p, n := node, node.next;
    ghost var v := [node];
    while n != node
      invariant Walk(v) && v[0] == node && Last(v) == p && n == p.next
      invariant forall x :: x in v ==> x in nodes
      invariant n in nodes
      decreases |nodes| - |v|
    {
      if n.prev != p {
        forall ring | IsRing(ring) && ring[0] == node
          ensures false
        {
          WalkNeverMismatches(v, ring);
        }
        return false;
      }
      WalkExtends(v, n);
      v := v + [n];
      DistinctFits(v, nodes);
      p, n := n, n.next;
    }
    if node.prev != p {
      forall ring | IsRing(ring) && ring[0] == node
        ensures false
      {
        WalkNeverMismatches(v, ring);
      }
      return false;
    }
    assert IsRing(v);
    return true;
  }

  /** list_check on the head of a list. */
  method Check(h: Node, ghost nodes: set<Node>) returns (ok: bool)
    requires h in nodes && Closed(nodes)
    ensures ok <==> exists entries :: Holds(h, entries)
  {
    ok := CheckNode(h, nodes);
    if ok {
      ghost var ring :| IsRing(ring) && ring[0] == h;
      assert [h] + ring[1..] == ring;
      assert Holds(h, ring[1..]);
    } else if entries :| Holds(h, entries) {
      assert ([h] + entries)[0] == h;
    }
  }

  // ---- rings in pieces ----

  /** A chain of two pieces is two chains and the link between them. */
  lemma ChainParts(a: seq<Node>, b: seq<Node>)
    ensures Chain(a + b) <==> Chain(a) && Chain(b) && (a != [] && b != [] ==> Linked(Last(a), b[0]))
  {
    var s := a + b;
    if Chain(s) {
      assert forall i :: 0 <= i < |a| ==> a[i] == s[i];
      assert forall i :: 0 <= i < |b| ==> b[i] == s[|a| + i];
      forall i | 0 <= i < |a|
        ensures i < |a| - 1 ==> a[i].next == a[i + 1]
        ensures i > 0 ==> a[i].prev == a[i - 1]
      {
        assert s[i].next == s[i].next && s[i].prev == s[i].prev;
      }
      forall i | 0 <= i < |b|
        ensures i < |b| - 1 ==> b[i].next == b[i + 1]
        ensures i > 0 ==> b[i].prev == b[i - 1]
      {
        assert s[|a| + i].next == s[|a| + i].next && s[|a| + i].prev == s[|a| + i].prev;
      }
      if a != [] && b != [] {
        assert s[|a| - 1].next == s[|a|] && s[|a|].prev == s[|a| - 1];
      }
    }
  }

  lemma DistinctParts(a: seq<Node>, b: seq<Node>)
    ensures Distinct(a + b) <==> Distinct(a) && Distinct(b) && Disjoint(a, b)
  {
    var s := a + b;
    if Distinct(s) {
      forall i, j | 0 <= i < j < |a|
        ensures a[i] != a[j]
      {
        assert s[i] != s[j];
      }
      forall i, j | 0 <= i < j < |b|
        ensures b[i] != b[j]
      {
        assert s[|a| + i] != s[|a| + j];
      }
      forall x | x in a
        ensures x !in b
      {
        var i :| 0 <= i < |a| && a[i] == x;
        forall j | 0 <= j < |b|
          ensures b[j] != x
        {
          assert s[i] != s[|a| + j];
        }
      }
    }
    if Distinct(a) && Distinct(b) && Disjoint(a, b) {
      forall i, j | 0 <= i < j < |s|
        ensures s[i] != s[j]
      {
        if j < |a| {
          assert a[i] != a[j];
        } else if |a| <= i {
          assert b[i - |a|] != b[j - |a|];
        } else {
          assert a[i] in a && b[j - |a|] in b;
        }
      }
    }
  }

  /** A ring may be read from any of its nodes on. */
  lemma Rotate(a: seq<Node>, b: seq<Node>)
    requires IsRing(a + b)
    ensures IsRing(b + a)
  {
    if a == [] {
      assert a + b == b == b + a;
    } else if b == [] {
      assert a + b == a == b + a;
    } else {
      ChainParts(a, b);
      ChainParts(b, a);
      DistinctParts(a, b);
      DistinctParts(b, a);
      assert Last(a + b) == Last(b) && Last(b + a) == Last(a);
    }
  }

  // ---- the operations ----

  /** A chain stays one while its inner pointers stay; the ends may be relinked. */
  twostate lemma ChainKept(s: seq<Node>)
    requires old(Chain(s))
    requires forall i {:trigger s[i].next} :: 0 <= i < |s| - 1 ==> s[i].next == old(s[i].next)
    requires forall i {:trigger s[i].prev} :: 0 < i < |s| ==> s[i].prev == old(s[i].prev)
    ensures Chain(s)
  {
    assert forall i :: 0 <= i < |s| - 1 ==> old(s[i].next) == s[i + 1];
    assert forall i :: 0 < i < |s| ==> old(s[i].prev) == s[i - 1];
  }

  /** list_add_after_, on the ring read from p on. */
  method LinkAfter(p: Node, n: Node, ghost rest: seq<Node>)
    requires IsRing([p] + rest) && n !in [p] + rest
    modifies n, p, p.next
    ensures IsRing([p, n] + rest)
    ensures forall r: seq<Node> :: old(allocated(r)) && old(IsRing(r)) && Disjoint(r, [p, n] + rest) ==> IsRing(r)
  {
    ghost var all := [p, n] + rest;
    ChainParts([p], rest);
    DistinctParts([p], rest);
    ChainParts([n], rest);
    DistinctParts([p, n], rest);
    n.next := p.next;
    n.prev := p;
    p.next.prev := n;
    p.next := n;
    ChainKept(rest);
    ChainParts([p, n], rest);
    assert p in all && n in all && old(p.next) in all;
    forall r: seq<Node> | old(allocated(r)) && old(IsRing(r)) && Disjoint(r, all)
      ensures IsRing(r)
    {
      assert p !in r && n !in r && old(p.next) !in r;
    }
  }

  /** list_add_before_, on the ring read from p on: n becomes its last node. */
  method LinkBefore(p: Node, n: Node, ghost rest: seq<Node>)
    requires IsRing([p] + rest) && n !in [p] + rest
    modifies n, p, p.prev
    ensures IsRing([p] + rest + [n])
    ensures forall r: seq<Node> :: old(allocated(r)) && old(IsRing(r)) && Disjoint(r, [p] + rest + [n]) ==> IsRing(r)
  {
    ghost var q, all := [p] + rest, [p] + rest + [n];
    DistinctParts(q, [n]);
    n.next := p;
    n.prev := p.prev;
    p.prev.next := n;
    p.prev := n;
    ChainKept(q);
    ChainParts(q, [n]);
    assert p in all && n in all && old(p.prev) in all;
    forall r: seq<Node> | old(allocated(r)) && old(IsRing(r)) && Disjoint(r, all)
      ensures IsRing(r)
    {
      assert p !in r && n !in r && old(p.prev) !in r;
    }
  }

  /** list_del_, on the ring read from n on; n keeps its pointers. */
  method Unlink(n: Node, ghost rest: seq<Node>)
    requires IsRing([n] + rest)
    modifies n.next, n.prev
    ensures rest != [] ==> IsRing(rest)
    ensures rest == [] ==> IsRing([n])
    ensures forall r: seq<Node> :: old(allocated(r)) && old(IsRing(r)) && Disjoint(r, [n] + rest) ==> IsRing(r)
  {
    ghost var q := [n] + rest;
    ChainParts([n], rest);
    DistinctParts([n], rest);
    n.next.prev := n.prev;
    n.prev.next := n.next;
    ChainKept(rest);
    assert old(n.prev) in q && old(n.next) in q;
    forall r: seq<Node> | old(allocated(r)) && old(IsRing(r)) && Disjoint(r, q)
      ensures IsRing(r)
    {
      assert old(n.prev) !in r && old(n.next) !in r;
    }
  }

  /** list_swap_, on the ring read from o on; o keeps its pointers, unless it was alone:
      then n ends up beside it instead of in its place. */
  method Replace(o: Node, n: Node, ghost rest: seq<Node>)
    requires IsRing([o] + rest) && n !in [o] + rest
    modifies n, o.next, o.prev
    ensures if rest != [] then IsRing([n] + rest) && unchanged(o) else IsRing([n, o])
    ensures forall r: seq<Node> ::
              old(allocated(r)) && old(IsRing(r)) && Disjoint(r, [o] + rest) && n !in r ==> IsRing(r)
  {
    ghost var q := [o] + rest;
    ChainParts([o], rest);
    DistinctParts([o], rest);
    DistinctParts([n], rest);
    n.next, n.prev := o.next, o.prev;
    n.next.prev := n;
    n.prev.next := n;
    ChainKept(rest);
    ChainParts([n], rest);
    assert old(o.prev) in q && old(o.next) in q;
    forall r: seq<Node> | old(allocated(r)) && old(IsRing(r)) && Disjoint(r, q) && n !in r
      ensures IsRing(r)
    {
      assert old(o.prev) !in r && old(o.next) !in r;
    }
  }

  // ---- the operations on a list with a head ----

  /** list_empty_ */
  method Empty(h: Node, ghost entries: seq<Node>) returns (empty: bool)
    requires Holds(h, entries)
    ensures empty <==> entries == []
  {
    ghost var ring := [h] + entries;
    empty := h.next == h;
    if entries != [] {
      assert ring[0].next == ring[1];
    }
  }

  /** list_add_ */
  method Add(h: Node, n: Node, ghost entries: seq<Node>)
    requires Holds(h, entries) && n !in [h] + entries
    modifies n, h, h.next
    ensures Holds(h, [n] + entries)
    ensures forall r: seq<Node> :: old(allocated(r)) && old(IsRing(r)) && Disjoint(r, [h, n] + entries) ==> IsRing(r)
  {
    LinkAfter(h, n, entries);
    assert [h, n] + entries == [h] + ([n] + entries);
  }

  /** list_add_tail_ */
  method AddTail(h: Node, n: Node, ghost entries: seq<Node>)
    requires Holds(h, entries) && n !in [h] + entries
    modifies n, h, h.prev
    ensures Holds(h, entries + [n])
    ensures forall r: seq<Node> :: old(allocated(r)) && old(IsRing(r)) && Disjoint(r, [h] + entries + [n]) ==> IsRing(r)
  {
    LinkBefore(h, n, entries);
    assert [h] + entries + [n] == [h] + (entries + [n]);
  }

  /** The ring of a list, read from one of its entries on. */
  lemma FromEntry(h: Node, a: seq<Node>, x: seq<Node>, b: seq<Node>)
    ensures Holds(h, a + x + b) <==> IsRing(x + (b + [h] + a))
  {
    var front := [h] + a;
    assert [h] + (a + x + b) == front + (x + b);
    assert x + (b + [h] + a) == (x + b) + front;
    if IsRing(front + (x + b)) {
      Rotate(front, x + b);
    }
    if IsRing((x + b) + front) {
      Rotate(x + b, front);
    }
  }

  /** list_add_after_ an entry */
  method AddAfter(h: Node, p: Node, n: Node, ghost a: seq<Node>, ghost b: seq<Node>)
    requires Holds(h, a + [p] + b) && n !in [h] + a + [p] + b
    modifies n, p, p.next
    ensures Holds(h, a + [p, n] + b)
    ensures forall r: seq<Node> ::
              old(allocated(r)) && old(IsRing(r)) && Disjoint(r, [h] + a + [p, n] + b) ==> IsRing(r)
  {
    FromEntry(h, a, [p], b);
    LinkAfter(p, n, b + [h] + a);
    FromEntry(h, a, [p, n], b);
  }

  /** list_add_before_ an entry */
  method AddBefore(h: Node, p: Node, n: Node, ghost a: seq<Node>, ghost b: seq<Node>)
    requires Holds(h, a + [p] + b) && n !in [h] + a + [p] + b
    modifies n, p, p.prev
    ensures Holds(h, a + [n, p] + b)
    ensures forall r: seq<Node> ::
              old(allocated(r)) && old(IsRing(r)) && Disjoint(r, [h] + a + [n, p] + b) ==> IsRing(r)
  {
    ghost var rest := b + [h] + a;
    FromEntry(h, a, [p], b);
    LinkBefore(p, n, rest);
    Rotate([p] + rest, [n]);
    assert [n] + ([p] + rest) == [n, p] + rest;
    FromEntry(h, a, [n, p], b);
  }

  /** list_del_ */
  method Del(h: Node, n: Node, ghost a: seq<Node>, ghost b: seq<Node>)
    requires Holds(h, a + [n] + b)
    modifies n.next, n.prev
    ensures Holds(h, a + b)
    ensures forall r: seq<Node> :: old(allocated(r)) && old(IsRing(r)) && Disjoint(r, [h] + a + [n] + b) ==> IsRing(r)
  {
    FromEntry(h, a, [n], b);
    Unlink(n, b + [h] + a);
    assert b + [h] + a == b + ([h] + a);
    Rotate(b, [h] + a);
    assert [h] + a + b == [h] + (a + b);
  }

  /** list_del_init_ */
  method DelInit(h: Node, n: Node, ghost a: seq<Node>, ghost b: seq<Node>)
    requires Holds(h, a + [n] + b)
    modifies n, n.next, n.prev
    ensures Holds(h, a + b) && IsRing([n])
    ensures forall r: seq<Node> :: old(allocated(r)) && old(IsRing(r)) && Disjoint(r, [h] + a + [n] + b) ==> IsRing(r)
  {
    DistinctParts([h] + a, [n] + b);
    assert ([h] + a) + ([n] + b) == [h] + (a + [n] + b);
    DistinctParts([n], b);
    assert n in [n] + b && n in [n];
    Del(h, n, a, b);
    assert n !in [h] + (a + b);
    n.next, n.prev := n, n;
    assert n in [h] + a + [n] + b;
    assert forall r: seq<Node> :: Disjoint(r, [h] + a + [n] + b) ==> n !in r;
  }

  /** list_swap_ */
  method Swap(h: Node, o: Node, n: Node, ghost a: seq<Node>, ghost b: seq<Node>)
    requires Holds(h, a + [o] + b) && n !in [h] + a + [o] + b
    modifies n, o.next, o.prev
    ensures Holds(h, a + [n] + b)
    ensures forall r: seq<Node> ::
              old(allocated(r)) && old(IsRing(r)) && Disjoint(r, [h] + a + [o] + b) && n !in r ==> IsRing(r)
  {
    FromEntry(h, a, [o], b);
    Replace(o, n, b + [h] + a);
    FromEntry(h, a, [n], b);
  }

  /** list_pop_ */
  method Pop(h: Node, ghost entries: seq<Node>) returns (n: Node?)
    requires Holds(h, entries)
    modifies h, entries
    ensures n == null <==> entries == []
    ensures n != null ==> n == entries[0] && Holds(h, entries[1..])
    ensures n == null ==> Holds(h, [])
  {
    var empty := Empty(h, entries);
    if empty {
      return null;
    }
    ghost var ring := [h] + entries;
    assert ring[0].next == ring[1];
    n := h.next;
    assert entries == [] + [n] + entries[1..];
    assert n.prev in ring && n.next in ring by {
      assert ring[1].prev == ring[0];
      assert |ring| > 2 ==> ring[1].next == ring[2];
    }
    Del(h, n, [], entries[1..]);
    assert [] + entries[1..] == entries[1..];
  }

  lemma StaysInRing(ring: seq<Node>, x: Node)
    requires IsRing(ring) && x in ring
    ensures x.next in ring && x.prev in ring
  {
    var i :| 0 <= i < |ring| && ring[i] == x;
    assert ring[i].next == if i < |ring| - 1 then ring[i + 1] else ring[0];
    assert ring[i].prev == if i > 0 then ring[i - 1] else Last(ring);
  }

  lemma HeadNeighbours(h: Node, a: seq<Node>)
    requires Holds(h, a)
    ensures h.prev == Last([h] + a)
    ensures h.next == (a + [h])[0] && h.next in a + [h]
  {
    assert a != [] ==> ([h] + a)[0].next == ([h] + a)[1];
  }

  /** The ring of a list, read so that the head comes last. */
  lemma FromHead(h: Node, a: seq<Node>)
    requires Holds(h, a)
    ensures IsRing(a + [h])
  {
    Rotate([h], a);
  }

  lemma Alone(h: Node)
    requires IsRing([h])
    ensures Holds(h, [])
  {
    assert [h] + [] == [h];
  }

  lemma EndsApart(s: seq<Node>)
    requires Distinct(s) && s != []
    ensures forall i :: 0 <= i < |s| - 1 ==> s[i] != Last(s)
    ensures forall i :: 0 < i < |s| ==> s[i] != s[0]
  {
  }

  lemma InSeq(s: seq<Node>)
    ensures forall i :: 0 <= i < |s| ==> s[i] in s
  {
  }

  /** Two rings, opened before their first nodes and joined there. list_append_list_ and
      list_prepend_list_ both make these four stores, to four different fields. */
  method Sew(s0: Node, sTail: Node, t0: Node, tTail: Node, ghost s: seq<Node>, ghost t: seq<Node>)
    requires IsRing(s) && IsRing(t) && Disjoint(s, t)
    requires s0 == s[0] && sTail == Last(s) && t0 == t[0] && tTail == Last(t)
    modifies s0`prev, tTail`next, sTail`next, t0`prev
    ensures IsRing(s + t)
  {
    EndsApart(s);
    EndsApart(t);
    InSeq(s);
    InSeq(t);
    assert sTail in s && s0 in s && tTail in t && t0 in t;
    s0.prev := tTail;
    tTail.next := s0;
    sTail.next := t0;
    t0.prev := sTail;
    assert Chain(s) by {
      hide Distinct, Chain;
      ChainKept(s);
    }
    assert Chain(t) by {
      hide Distinct, Chain;
      ChainKept(t);
    }
    hide Distinct, Chain;
    DistinctParts(s, t);
    ChainParts(s, t);
  }

  /** list_append_list_ */
  method AppendList(to: Node, from: Node, ghost a: seq<Node>, ghost b: seq<Node>)
    requires Holds(to, a) && Holds(from, b) && Disjoint([to] + a, [from] + b)
    modifies to, from, a, b
    ensures Holds(to, a + b) && Holds(from, [])
  {
    ghost var s, t := [to] + a, [from] + b;
    HeadNeighbours(to, a);
    HeadNeighbours(from, b);
    hide IsRing, Distinct;
    var fromTail := from.prev;
    var toTail := to.prev;
    assert fromTail in t && toTail in s;
    Sew(to, toTail, from, fromTail, s, t);
    assert s + t == [to] + (a + [from] + b);
    StaysInRing(s + t, from);
    DelInit(to, from, a, b);
    Alone(from);
  }

  /** list_prepend_list_ */
  method PrependList(to: Node, from: Node, ghost a: seq<Node>, ghost b: seq<Node>)
    requires Holds(to, a) && Holds(from, b) && Disjoint([to] + a, [from] + b)
    modifies to, from, a, b
    ensures Holds(to, b + a) && Holds(from, [])
  {
    ghost var s, t := a + [to], [from] + b;
    HeadNeighbours(to, a);
    HeadNeighbours(from, b);
    FromHead(to, a);
    hide IsRing, Distinct;
    var fromTail := from.prev;
    var toHead := to.next;
    assert fromTail in t && Disjoint(s, t);
    Sew(toHead, to, from, fromTail, s, t);
    assert s + t == a + ([to, from] + b);
    StaysInRing(s + t, from);
    Rotate(a, [to, from] + b);
    assert [to, from] + b + a == [to] + ([] + [from] + (b + a));
    DelInit(to, from, [], b + a);
    assert [] + (b + a) == b + a;
    Alone(from);
  }
}
