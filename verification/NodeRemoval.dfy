/**
 chained_hashtable_delete on any node of the table, on the recency list or off it. The table always
 comes out right; the list does when the node has been unlinked first, and otherwise exactly when the
 node is bridged where it stands.
 */
module NodeRemoval {
  import opened Sequences
  import opened LinkedNodes
  import opened ChainedTable
  import opened RelocatingTable

  /** Bridge the neighbours of p and clear the monitored pointers to it. */
  function Detached(m: Memory, p: Ptr): Memory
    requires Neighboured(m.links, p)
  {
    var link := m.links[p];
    var l1 := if link.prev != Null then SetNext(m.links, link.prev, link.next) else m.links;
    var l2 := if link.next != Null then SetPrev(l1, link.next, link.prev) else l1;
    m.(links := l2, head := Monitored(m.head, Null, p), tail := Monitored(m.tail, Null, p))
  }

  /** The node at position k of a chain is deleted: the second node takes the place of the first, a lone
      node is zeroed, a later one is bypassed and freed. */
  function Deleted(m: Memory, chain: seq<Ptr>, k: nat): Memory
    requires k < |chain| && chain[k] in m.cells && Neighboured(m.links, chain[k])
    requires k == 0 && |chain| > 1 ==> chain[1] in m.cells && Neighboured(m.links, chain[1])
    requires k > 0 ==> chain[k - 1] in m.cells
  {
    if k > 0 then BypassedIn(Detached(m, chain[k]), chain[k - 1], chain[k])
    else if |chain| > 1 then PulledUp(m, chain[0], chain[1])
    else Emptied(Detached(m, chain[0]), chain[0])
  }

  function DeletedChain(chain: seq<Ptr>, k: nat): seq<Ptr>
    requires k < |chain|
  {
    if k == 0 && |chain| > 1 then [chain[0]] + chain[2..] else chain[..k] + chain[k + 1..]
  }

  /** The address that is free afterwards. */
  function Vacated(chain: seq<Ptr>, k: nat): Ptr
    requires k < |chain|
  {
    if k == 0 && |chain| > 1 then chain[1] else chain[k]
  }

  /** The node at position k of the chain of bucket b, with all that the deletion touches, is in memory. */
  ghost predicate Removable(m: Memory, chains: seq<seq<Ptr>>, b: nat, k: nat) {
    && b < |chains| && k < |chains[b]| && chains[b][k] in m.cells && Neighboured(m.links, chains[b][k])
    && (k == 0 && |chains[b]| > 1 ==> chains[b][1] in m.cells && Neighboured(m.links, chains[b][1]))
    && (k > 0 ==> chains[b][k - 1] in m.cells)
  }

  // ---------------------------------------------------------------------------
  // A node that has been taken off the list
  // ---------------------------------------------------------------------------

  /** Whatever p's own links say, its former neighbours have been linked to each other. */
  ghost predicate Loose(m: Memory, p: Ptr) {
    && Neighboured(m.links, p) && p != m.head && p != m.tail
    && (m.links[p].prev != Null ==> m.links[m.links[p].prev].next == m.links[p].next)
    && (m.links[p].next != Null ==> m.links[m.links[p].next].prev == m.links[p].prev)
  }

  lemma LooseStays(m: Memory, p: Ptr)
    requires Loose(m, p)
    ensures Detached(m, p) == m
  {
    assert Detached(m, p).links == m.links;
  }

  /** Dropping the first node, dropping the last one and remove_obj_from_list on any other all leave the
      node loose. */
  lemma UnlinkedIsLoose(m: Memory, order: seq<Ptr>, p: Ptr)
    requires Linked(m.links, order, m.head, m.tail) && p !in order && p != Null && p in m.links
    requires m.links[p] in {Link(Null, m.head), Link(m.tail, Null), Link(Null, Null)}
    ensures Loose(m, p)
  {
    if order != [] {
      assert LinkAt(m.links, order, 0) && LinkAt(m.links, order, |order| - 1);
    }
  }

  /** The list afterwards: one address may have changed. */
  ghost function OrderAfter(order: seq<Ptr>, chain: seq<Ptr>, k: nat): seq<Ptr>
    requires k < |chain|
  {
    if k == 0 && |chain| > 1 && exists i :: 0 <= i < |order| && order[i] == chain[1]
    then var i :| 0 <= i < |order| && order[i] == chain[1]; order[i := chain[0]]
    else order
  }

  lemma DeletedLoose(hash: nat -> nat, m: Memory, order: seq<Ptr>, chains: seq<seq<Ptr>>, b: nat, k: nat)
    requires Linked(m.links, order, m.head, m.tail) && Removable(m, chains, b, k)
    requires chains[b][k] !in order && Loose(m, chains[b][k])
    requires TableInv(hash, m, NodeSet(order) + {chains[b][k]}, chains, [])
    ensures var chain := chains[b]; var m', order' := Deleted(m, chain, k), OrderAfter(order, chain, k);
            && Inv(hash, m', order', chains[b := DeletedChain(chain, k)], [])
            && Entries(m'.cells, order') == Entries(m.cells, order) && |order'| == |order|
  {
    var chain := chains[b];
    LooseStays(m, chain[k]);
    assert ChainOk(m.cells, hash, m.power, m.gen, b, chain);
    if k > 0 {
      BypassedInv(hash, m, order, chains, b, k);
    } else if |chain| > 1 {
      assert OnChain(chains, b, chain[1]);
      NodeSetHas(order, chain[1]);
      var i: nat :| i < |order| && order[i] == chain[1];
      PulledUpInv(hash, m, order, chains, b, i);
    } else {
      EmptiedInv(hash, m, order, chains, b);
      assert chain[..k] + chain[k + 1..] == [];
    }
  }

  // ---------------------------------------------------------------------------
  // A node that is still on the list
  // ---------------------------------------------------------------------------

  ghost function Skipping<T>(s: seq<T>, i: nat): seq<T>
    requires i < |s|
  {
    s[..i] + s[i + 1..]
  }

  /** delete_obj_in_table bridges the node at position i: it has two neighbours or none. */
  predicate Inside(n: nat, i: nat) {
    0 < i < n - 1 || n == 1
  }

  lemma DetachedLink(m: Memory, order: seq<Ptr>, i: nat, j: nat)
    requires Linked(m.links, order, m.head, m.tail) && 0 < i < |order| - 1 && j < |order| - 1
    requires Neighboured(m.links, order[i])
    ensures LinkAt(Detached(m, order[i]).links, Skipping(order, i), j)
  {
    var r := Skipping(order, i);
    assert r[j] == order[if j < i then j else j + 1];
    assert j > 0 ==> r[j - 1] == order[if j - 1 < i then j - 1 else j];
    assert j + 1 < |r| ==> r[j + 1] == order[if j + 1 < i then j + 1 else j + 2];
    assert LinkAt(m.links, order, i) && LinkAt(m.links, order, j) && LinkAt(m.links, order, j + 1);
  }

  lemma DetachedLinked(m: Memory, order: seq<Ptr>, i: nat)
    requires Linked(m.links, order, m.head, m.tail) && i < |order| && Inside(|order|, i) && Neighboured(m.links, order[i])
    ensures var m' := Detached(m, order[i]); Linked(m'.links, Skipping(order, i), m'.head, m'.tail)
    ensures order[i] !in Skipping(order, i)
  {
    var m', r := Detached(m, order[i]), Skipping(order, i);
    forall j: nat {:trigger LinkAt(m'.links, r, j)} | j < |r|
      ensures LinkAt(m'.links, r, j)
    {
      DetachedLink(m, order, i, j);
    }
  }

  lemma SkippingNodes(order: seq<Ptr>, i: nat)
    requires i < |order| && NoRepeats(order)
    ensures NodeSet(Skipping(order, i)) == NodeSet(order) - {order[i]}
  {
    var r := Skipping(order, i);
    assert order == order[..i] + [order[i]] + order[i + 1..];
    forall p
      ensures p in NodeSet(r) <==> p in NodeSet(order) - {order[i]}
    {
      NodeSetHas(order, p);
      NodeSetHas(r, p);
    }
  }

  /** The list pointers change, the table does not. */
  lemma DetachedTable(hash: nat -> nat, m: Memory, order: seq<Ptr>, chains: seq<seq<Ptr>>, i: nat)
    requires Inv(hash, m, order, chains, []) && i < |order| && Neighboured(m.links, order[i])
    ensures TableInv(hash, Detached(m, order[i]), NodeSet(order), chains, [])
  {
    var m' := Detached(m, order[i]);
    assert LinkAt(m.links, order, i);
    forall x: nat {:trigger chains[x]} | x < |chains| && chains[x] == []
      ensures InTable(m.gen, x) in m'.links && m'.links[InTable(m.gen, x)] == Link(Null, Null)
    {
      EmptyNotNode(hash, m, NodeSet(order), chains, [], x);
      NodeSetHas(order, InTable(m.gen, x));
    }
    DetachedMembers(hash, m, m', NodeSet(order), chains);
  }

  lemma DetachedMembers(hash: nat -> nat, m: Memory, m': Memory, nodes: set<Ptr>, chains: seq<seq<Ptr>>)
    requires TableInv(hash, m, nodes, chains, []) && m' == m.(links := m'.links, head := m'.head, tail := m'.tail)
    requires m'.links.Keys == m.links.Keys
    ensures Members(hash, m', nodes, chains, []) && Bounded(m')
  {
    forall p {:trigger MemberOk(hash, m', chains, [], p)} | p in nodes
      ensures MemberOk(hash, m', chains, [], p)
    {
      assert MemberOk(hash, m, chains, [], p);
    }
    forall p {:trigger Known(m', p)} | p in m'.cells
      ensures Known(m', p)
    {
      assert Known(m, p);
    }
  }

  /** The identifiers that the table knows. */
  ghost function Ids(cells: Cells, nodes: set<Ptr>): set<nat> {
    set p | p in nodes && p in cells :: cells[p].id
  }

  /** No list over these nodes fits the links and the monitored pointers. */
  ghost predicate NoList(m: Memory, nodes: set<Ptr>) {
    forall order: seq<Ptr> {:trigger NodeSet(order)} ::
      NodeSet(order) == nodes ==> !Linked(m.links, order, m.head, m.tail)
  }

  /** A first or last node of several loses the monitored pointer to its end of the list. */
  lemma EndLost(m: Memory, nodes: set<Ptr>)
    requires (m.head == Null || m.tail == Null) && nodes != {}
    ensures NoList(m, nodes)
  {
    forall order: seq<Ptr> {:trigger NodeSet(order)} | NodeSet(order) == nodes
      ensures !Linked(m.links, order, m.head, m.tail)
    {
      assert order == [] ==> NodeSet(order) == {};
    }
  }

  /** A neighbour that p names does not name p. */
  ghost predicate Torn(links: Links, p: Ptr) {
    p in links && var q, r := links[p].next, links[p].prev;
    || (q != Null && (q == p || q !in links || links[q].prev != p))
    || (r != Null && (r == p || r !in links || links[r].next != p))
  }

  lemma TornNoList(m: Memory, nodes: set<Ptr>, p: Ptr)
    requires p in nodes && Torn(m.links, p)
    ensures NoList(m, nodes)
  {
    forall order: seq<Ptr> {:trigger NodeSet(order)} | NodeSet(order) == nodes
      ensures !Linked(m.links, order, m.head, m.tail)
    {
      if Linked(m.links, order, m.head, m.tail) {
        LinkedNotTorn(m.links, order, m.head, m.tail, p);
      }
    }
  }

  lemma LinkedNotTorn(links: Links, order: seq<Ptr>, head: Ptr, tail: Ptr, p: Ptr)
    requires Linked(links, order, head, tail) && p in NodeSet(order)
    ensures !Torn(links, p)
  {
    var i: nat :| i < |order| && order[i] == p;
    assert LinkAt(links, order, i);
    assert i + 1 < |order| ==> LinkAt(links, order, i + 1);
    assert i > 0 ==> LinkAt(links, order, i - 1);
  }

  /** Pulling the second node up over a listed first one leaves a neighbour of the latter pointing at the
      wrong object, or the moved node pointing at itself. */
  lemma PulledUpTorn(m: Memory, order: seq<Ptr>, i: nat, j: nat) returns (p: Ptr)
    requires Linked(m.links, order, m.head, m.tail) && i < |order| && j < |order| && i != j
    requires order[j] in m.cells && Neighboured(m.links, order[j])
    ensures p in NodeSet(order) - {order[j]} && Torn(PulledUp(m, order[i], order[j]).links, p)
  {
    var n := if i > 0 then i - 1 else 1;
    p := if n == j then order[i] else order[n];
    assert LinkAt(m.links, order, i) && LinkAt(m.links, order, j) && LinkAt(m.links, order, n);
    NodeSetHas(order, p);
  }

  lemma PulledUpNoList(m: Memory, order: seq<Ptr>, i: nat, j: nat)
    requires Linked(m.links, order, m.head, m.tail) && i < |order| && j < |order| && i != j
    requires order[j] in m.cells && Neighboured(m.links, order[j])
    ensures NoList(PulledUp(m, order[i], order[j]), NodeSet(order) - {order[j]})
  {
    var p := PulledUpTorn(m, order, i, j);
    TornNoList(PulledUp(m, order[i], order[j]), NodeSet(order) - {order[j]}, p);
  }

  /** Deleting a listed node leaves the table right. */
  lemma DeletedTable(hash: nat -> nat, m: Memory, order: seq<Ptr>, chains: seq<seq<Ptr>>, b: nat, k: nat, i: nat)
    requires Inv(hash, m, order, chains, []) && Removable(m, chains, b, k) && i < |order| && order[i] == chains[b][k]
    ensures TableInv(hash, Deleted(m, chains[b], k), NodeSet(order) - {Vacated(chains[b], k)},
                     chains[b := DeletedChain(chains[b], k)], [])
  {
    var chain := chains[b];
    if k > 0 {
      DetachedTable(hash, m, order, chains, i);
      BypassedTableInv(hash, Detached(m, chain[k]), NodeSet(order), chains, b, k);
    } else if |chain| > 1 {
      assert OnChain(chains, b, chain[1]);
      NodeSetHas(order, chain[1]);
      var j: nat :| j < |order| && order[j] == chain[1];
      PulledUpTableInv(hash, m, NodeSet(order), order, chains, b, j);
    } else {
      DetachedTable(hash, m, order, chains, i);
      EmptiedTableInv(hash, Detached(m, chain[0]), NodeSet(order), chains, b);
      assert chain[..k] + chain[k + 1..] == [];
    }
  }

  /** The table loses the identifier of the node and no other. */
  lemma DeletedIds(hash: nat -> nat, m: Memory, order: seq<Ptr>, chains: seq<seq<Ptr>>, b: nat, k: nat, i: nat)
    requires Inv(hash, m, order, chains, []) && Removable(m, chains, b, k) && i < |order| && order[i] == chains[b][k]
    ensures Ids(Deleted(m, chains[b], k).cells, NodeSet(order) - {Vacated(chains[b], k)}) ==
            Ids(m.cells, NodeSet(order)) - {m.cells[chains[b][k]].id}
  {
    var chain, nodes := chains[b], NodeSet(order);
    var p, cells' := chain[k], Deleted(m, chain, k).cells;
    assert ChainOk(m.cells, hash, m.power, m.gen, b, chain);
    NodeSetHas(order, p);
    assert k == 0 && |chain| > 1 ==> OnChain(chains, b, chain[1]) && chain[1] != p;
    forall id
      ensures id in Ids(cells', nodes - {Vacated(chain, k)}) <==> id in Ids(m.cells, nodes) - {m.cells[p].id}
    {
      if id in Ids(cells', nodes - {Vacated(chain, k)}) {
        var q :| q in nodes - {Vacated(chain, k)} && q in cells' && cells'[q].id == id;
        var q0 := if k == 0 && |chain| > 1 && q == p then chain[1] else q;
        assert q0 in nodes && q0 in m.cells && m.cells[q0].id == id && q0 != p;
      }
      if id in Ids(m.cells, nodes) - {m.cells[p].id} {
        var q :| q in nodes && q in m.cells && m.cells[q].id == id;
        var q1 := if k == 0 && |chain| > 1 && q == chain[1] then p else q;
        assert q1 in nodes - {Vacated(chain, k)} && q1 in cells' && cells'[q1].id == id;
      }
    }
  }

  /** The deletion is of a kind that keeps the list: no other node moves onto the address, and the node
      is not at one end of a longer list. */
  predicate Bridged(n: nat, i: nat, chain: seq<Ptr>, k: nat) {
    Inside(n, i) && (k > 0 || |chain| == 1)
  }

  /** Bridged, the list loses the node and nothing else. */
  lemma DeletedBridged(hash: nat -> nat, m: Memory, order: seq<Ptr>, chains: seq<seq<Ptr>>, b: nat, k: nat, i: nat)
    requires Inv(hash, m, order, chains, []) && Removable(m, chains, b, k) && i < |order| && order[i] == chains[b][k]
    requires Bridged(|order|, i, chains[b], k)
    ensures var m' := Deleted(m, chains[b], k);
            && Inv(hash, m', Skipping(order, i), chains[b := DeletedChain(chains[b], k)], [])
            && Entries(m'.cells, Skipping(order, i)) == Skipping(Entries(m.cells, order), i)
  {
    var chain, r := chains[b], Skipping(order, i);
    var d := Detached(m, order[i]);
    DetachedTable(hash, m, order, chains, i);
    DetachedLinked(m, order, i);
    SkippingNodes(order, i);
    NodeSetHas(order, order[i]);
    assert NodeSet(r) + {order[i]} == NodeSet(order);
    if k > 0 {
      BypassedInv(hash, d, r, chains, b, k);
    } else {
      EmptiedInv(hash, d, r, chains, b);
      assert chain[..k] + chain[k + 1..] == [];
    }
    assert Entries(m.cells, r) == Skipping(Entries(m.cells, order), i);
  }

  /** Not bridged, no list is left. */
  lemma DeletedUnbridged(hash: nat -> nat, m: Memory, order: seq<Ptr>, chains: seq<seq<Ptr>>, b: nat, k: nat, i: nat)
    requires Inv(hash, m, order, chains, []) && Removable(m, chains, b, k) && i < |order| && order[i] == chains[b][k]
    requires !Bridged(|order|, i, chains[b], k)
    ensures NoList(Deleted(m, chains[b], k), NodeSet(order) - {Vacated(chains[b], k)})
  {
    var chain := chains[b];
    if k == 0 && |chain| > 1 {
      assert ChainOk(m.cells, hash, m.power, m.gen, b, chain);
      assert OnChain(chains, b, chain[1]);
      NodeSetHas(order, chain[1]);
      var j: nat :| j < |order| && order[j] == chain[1];
      PulledUpNoList(m, order, i, j);
    } else {
      var other := order[if i == 0 then 1 else 0];
      NodeSetHas(order, other);
      assert other in NodeSet(order) - {chain[k]};
      EndLost(Deleted(m, chain, k), NodeSet(order) - {chain[k]});
    }
  }
}
