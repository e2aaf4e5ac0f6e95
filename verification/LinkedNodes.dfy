/**
 The intrusive doubly linked list of cache objects. Nodes live in an explicit memory, since the hash
 table moves them from one address to another; order is the list of their addresses.
 (CDNSimulator/libCacheSim/include/libCacheSim/cacheObj.h,
 CDNSimulator/libCacheSim/dataStructure/hashtable/chainedHashtable.c)
 */
module LinkedNodes {
  import opened Sequences

  /** Addresses: entry `index` of the gen-th table allocated, or the n-th single node. */
  datatype Ptr = Null | InTable(gen: nat, index: nat) | Single(n: nat)

  datatype Link = Link(prev: Ptr, next: Ptr)

  type Links = map<Ptr, Link>

  ghost function Before(order: seq<Ptr>, i: nat): Ptr
    requires i < |order|
  {
    if i == 0 then Null else order[i - 1]
  }

  ghost function Behind(order: seq<Ptr>, i: nat): Ptr
    requires i < |order|
  {
    if i == |order| - 1 then Null else order[i + 1]
  }

  ghost function FirstOf(order: seq<Ptr>): Ptr {
    if order == [] then Null else order[0]
  }

  ghost function LastOf(order: seq<Ptr>): Ptr {
    if order == [] then Null else order[|order| - 1]
  }

  ghost predicate LinkAt(links: Links, order: seq<Ptr>, i: nat)
    requires i < |order|
  {
    order[i] in links && links[order[i]] == Link(Before(order, i), Behind(order, i))
  }

  /** The nodes of order are linked in that order from head to tail. */
  ghost predicate Linked(links: Links, order: seq<Ptr>, head: Ptr, tail: Ptr) {
    && NoRepeats(order) && Null !in order && head == FirstOf(order) && tail == LastOf(order)
    && forall i: nat {:trigger LinkAt(links, order, i)} :: i < |order| ==> LinkAt(links, order, i)
  }

  ghost function NodeSet(order: seq<Ptr>): set<Ptr> {
    set i: nat | i < |order| :: order[i]
  }

  lemma NodeSetHas(order: seq<Ptr>, p: Ptr)
    ensures p in NodeSet(order) <==> p in order
  {
    if p in order {
      var i: nat :| i < |order| && order[i] == p;
    }
  }

  function SetNext(links: Links, p: Ptr, v: Ptr): Links
    requires p in links
  {
    links[p := links[p].(next := v)]
  }

  function SetPrev(links: Links, p: Ptr, v: Ptr): Links
    requires p in links
  {
    links[p := links[p].(prev := v)]
  }

  // ---------------------------------------------------------------------------
  // Moving a node to another address
  // ---------------------------------------------------------------------------

  /** The neighbours of a node are in memory. */
  ghost predicate Neighboured(links: Links, p: Ptr) {
    && p in links && (links[p].prev == Null || links[p].prev in links)
    && (links[p].next == Null || links[p].next in links)
  }

  /** _move_obj_to_toloc: patch the neighbours of old, then copy it to new. */
  function Relocated(links: Links, to: Ptr, from: Ptr): Links
    requires Neighboured(links, from)
  {
    var l1 := if links[from].prev != Null then SetNext(links, links[from].prev, to) else links;
    var l2 := if links[from].next != Null then SetPrev(l1, links[from].next, to) else l1;
    l2[to := l2[from]]
  }

  /** update_monitored_ptr on one monitored pointer. */
  function Monitored(p: Ptr, to: Ptr, from: Ptr): Ptr {
    if p == from then to else p
  }

  lemma LinkedNeighboured(links: Links, order: seq<Ptr>, head: Ptr, tail: Ptr, i: nat)
    requires Linked(links, order, head, tail) && i < |order|
    ensures Neighboured(links, order[i])
  {
    assert LinkAt(links, order, i);
    assert i > 0 ==> LinkAt(links, order, i - 1);
    assert i + 1 < |order| ==> LinkAt(links, order, i + 1);
  }

  /** What relocation makes of each link. */
  lemma RelocatedAt(links: Links, order: seq<Ptr>, head: Ptr, tail: Ptr, i: nat, to: Ptr, p: Ptr)
    requires Linked(links, order, head, tail) && i < |order| && Neighboured(links, order[i])
    requires to !in order && p in links && p != to
    ensures var r := Relocated(links, to, order[i]);
            && p in r && to in r && r[to] == links[order[i]] && r[order[i]] == links[order[i]]
            && r[p].next == (if i > 0 && p == order[i - 1] then to else links[p].next)
            && r[p].prev == (if i + 1 < |order| && p == order[i + 1] then to else links[p].prev)
  {
    assert LinkAt(links, order, i);
  }

  lemma RelocatedLink(links: Links, order: seq<Ptr>, head: Ptr, tail: Ptr, i: nat, to: Ptr, j: nat)
    requires Linked(links, order, head, tail) && i < |order| && Neighboured(links, order[i])
    requires to !in order && j < |order|
    ensures LinkAt(Relocated(links, to, order[i]), order[i := to], j)
  {
    assert LinkAt(links, order, j) && LinkAt(links, order, i);
    RelocatedAt(links, order, head, tail, i, to, order[j]);
  }

  /** Moving a node keeps the list, with the new address in place of the old one. */
  lemma RelocatedLinked(links: Links, order: seq<Ptr>, head: Ptr, tail: Ptr, i: nat, to: Ptr)
    requires Linked(links, order, head, tail) && i < |order| && Neighboured(links, order[i])
    requires to !in order && to != Null
    ensures Linked(Relocated(links, to, order[i]), order[i := to],
                   Monitored(head, to, order[i]), Monitored(tail, to, order[i]))
  {
    var order' := order[i := to];
    var links' := Relocated(links, to, order[i]);
    forall j: nat {:trigger LinkAt(links', order', j)} | j < |order'|
      ensures LinkAt(links', order', j)
    {
      RelocatedLink(links, order, head, tail, i, to, j);
    }
  }

  // ---------------------------------------------------------------------------
  // List operations
  // ---------------------------------------------------------------------------

  /** Append a node with empty links: the list part of cache_insert_LRU. */
  function Appended(links: Links, tail: Ptr, p: Ptr): Links
    requires p in links && (tail == Null || tail in links)
  {
    if tail == Null then links else SetPrev(SetNext(links, tail, p), p, tail)
  }

  lemma AppendedLinked(links: Links, order: seq<Ptr>, head: Ptr, tail: Ptr, p: Ptr)
    requires Linked(links, order, head, tail) && p in links && links[p] == Link(Null, Null) && p !in order && p != Null
    ensures tail == Null || tail in links
    ensures Linked(Appended(links, tail, p), order + [p], if head == Null then p else head, p)
  {
    var order' := order + [p];
    if order != [] {
      assert LinkAt(links, order, |order| - 1);
    }
    var links' := Appended(links, tail, p);
    forall j: nat {:trigger LinkAt(links', order', j)} | j < |order'|
      ensures LinkAt(links', order', j)
    {
      assert j < |order| ==> LinkAt(links, order, j);
    }
  }

  /** The list part of cache_evict. */
  function HeadDropped(links: Links, head: Ptr): Links
    requires head in links && links[head].next in links
  {
    SetPrev(links, links[head].next, Null)
  }

  lemma HeadDroppedLinked(links: Links, order: seq<Ptr>, head: Ptr, tail: Ptr)
    requires Linked(links, order, head, tail) && |order| >= 2
    ensures head in links && links[head].next == order[1] && order[1] in links
    ensures Linked(HeadDropped(links, head), order[1..], order[1], tail)
  {
    assert LinkAt(links, order, 0) && LinkAt(links, order, 1);
    var links', order' := HeadDropped(links, head), order[1..];
    forall j: nat {:trigger LinkAt(links', order', j)} | j < |order'|
      ensures LinkAt(links', order', j)
    {
      assert LinkAt(links, order, j + 1);
    }
  }

  datatype List = List(links: Links, head: Ptr, tail: Ptr)

  /** move_obj_to_tail. */
  function MovedToTail(links: Links, head: Ptr, tail: Ptr, p: Ptr): List
    requires p in links && tail in links && Neighboured(links, p)
    requires p != tail ==> links[p].next in links
    requires p != tail && p != head ==> links[p].prev in links
  {
    if head == tail then List(links, head, tail)
    else if p == head then
      var l := SetPrev(links, links[p].next, Null);
      var l' := SetNext(l, tail, p);
      List(l'[p := Link(tail, Null)], links[p].next, p)
    else if p == tail then List(links, head, tail)
    else
      var l := SetNext(links, links[p].prev, links[p].next);
      var l' := SetPrev(l, links[p].next, links[p].prev);
      var l'' := SetNext(l', tail, p);
      List(l''[p := Link(tail, Null)], head, p)
  }

  ghost function Rotated(order: seq<Ptr>, i: nat): seq<Ptr>
    requires i < |order|
  {
    order[..i] + order[i + 1..] + [order[i]]
  }

  lemma RotatedHas(order: seq<Ptr>, i: nat, p: Ptr)
    requires i < |order|
    ensures p in Rotated(order, i) <==> p in order
  {
    assert order == order[..i] + [order[i]] + order[i + 1..];
  }

  lemma MovableToTail(links: Links, order: seq<Ptr>, head: Ptr, tail: Ptr, i: nat)
    requires Linked(links, order, head, tail) && i < |order|
    ensures var p := order[i];
            && p in links && tail in links && Neighboured(links, p)
            && (p != tail ==> links[p].next in links)
            && (p != tail && p != head ==> links[p].prev in links)
  {
    LinkedNeighboured(links, order, head, tail, i);
    assert LinkAt(links, order, i) && LinkAt(links, order, |order| - 1);
    assert i + 1 < |order| ==> LinkAt(links, order, i + 1);
  }

  lemma RotatedDistinct(order: seq<Ptr>, i: nat)
    requires i < |order| && NoRepeats(order)
    ensures NoRepeats(Rotated(order, i))
  {
  }

  lemma MovedLink(links: Links, order: seq<Ptr>, head: Ptr, tail: Ptr, i: nat, j: nat)
    requires Linked(links, order, head, tail) && i + 1 < |order| && j < |order|
    requires order[i] in links && tail in links && Neighboured(links, order[i])
    requires links[order[i]].next in links && (order[i] != head ==> links[order[i]].prev in links)
    ensures LinkAt(MovedToTail(links, head, tail, order[i]).links, Rotated(order, i), j)
  {
    var n := |order|;
    assert LinkAt(links, order, i) && LinkAt(links, order, i + 1) && LinkAt(links, order, n - 1);
    assert i > 0 ==> LinkAt(links, order, i - 1);
    assert LinkAt(links, order, j) && (j + 1 < n ==> LinkAt(links, order, j + 1));
    var r := Rotated(order, i);
    assert r[j] == (if j < i then order[j] else if j < n - 1 then order[j + 1] else order[i]);
  }

  /** move_obj_to_tail makes the node the last of the list and keeps the order of the others. */
  lemma MovedToTailLinked(links: Links, order: seq<Ptr>, head: Ptr, tail: Ptr, i: nat)
    requires Linked(links, order, head, tail) && i < |order|
    requires order[i] in links && tail in links && Neighboured(links, order[i])
    requires order[i] != tail ==> links[order[i]].next in links
    requires order[i] != tail && order[i] != head ==> links[order[i]].prev in links
    ensures var l := MovedToTail(links, head, tail, order[i]); Linked(l.links, Rotated(order, i), l.head, l.tail)
  {
    var r := Rotated(order, i);
    if i == |order| - 1 {
      assert r == order;
    } else {
      assert LinkAt(links, order, i);
      RotatedDistinct(order, i);
      RotatedHas(order, i, Null);
      var l := MovedToTail(links, head, tail, order[i]);
      forall j: nat {:trigger LinkAt(l.links, r, j)} | j < |r|
        ensures LinkAt(l.links, r, j)
      {
        MovedLink(links, order, head, tail, i, j);
      }
    }
  }

  /** List operations leave the links of nodes outside the list alone. */
  lemma MovedToTailFrame(links: Links, order: seq<Ptr>, head: Ptr, tail: Ptr, i: nat, p: Ptr)
    requires Linked(links, order, head, tail) && i < |order| && p !in order
    requires order[i] in links && tail in links && Neighboured(links, order[i])
    requires order[i] != tail ==> links[order[i]].next in links
    requires order[i] != tail && order[i] != head ==> links[order[i]].prev in links
    ensures var l := MovedToTail(links, head, tail, order[i]).links;
            l.Keys == links.Keys && (p in links ==> l[p] == links[p])
  {
    assert LinkAt(links, order, i) && LinkAt(links, order, |order| - 1);
    assert i > 0 ==> LinkAt(links, order, i - 1);
    assert i + 1 < |order| ==> LinkAt(links, order, i + 1);
  }
}
