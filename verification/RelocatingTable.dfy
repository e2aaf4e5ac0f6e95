/**
 The memory of an LRU cache: one set of nodes that are on hash chains and on the recency list at the
 same time, and whose addresses change when the table expands or deletes.
 */
module RelocatingTable {
  import opened Sequences
  import opened Bits
  import opened LinkedNodes
  import opened ChainedTable
  import opened Recency

  /** head and tail are the monitored pointers; tables and single nodes are numbered as they are allocated. */
  datatype Memory = Memory(links: Links, cells: Cells, head: Ptr, tail: Ptr, power: nat, gen: nat, singles: nat)

  /** Entries of the current table that are empty have empty links too, as after memset. */
  ghost predicate Blank(links: Links, gen: nat, chains: seq<seq<Ptr>>) {
    forall b: nat {:trigger chains[b]} ::
      b < |chains| && chains[b] == [] ==> InTable(gen, b) in links && links[InTable(gen, b)] == Link(Null, Null)
  }

  ghost predicate MemberOk(hash: nat -> nat, m: Memory, chains: seq<seq<Ptr>>, pending: seq<Ptr>, p: Ptr) {
    && p in m.cells && m.cells[p].size > 0
    && (p in pending || OnChain(chains, BucketOf(hash, m.power, m.cells[p].id), p))
  }

  /** The nodes are those on the chains of the current table and those still to be moved into it. */
  ghost predicate Members(hash: nat -> nat, m: Memory, nodes: set<Ptr>, chains: seq<seq<Ptr>>, pending: seq<Ptr>) {
    && (forall x: nat, p {:trigger OnChain(chains, x, p)} :: OnChain(chains, x, p) ==> p in nodes && p !in pending)
    && (forall p {:trigger MemberOk(hash, m, chains, pending, p)} :: p in nodes ==> MemberOk(hash, m, chains, pending, p))
    && (forall p :: p in pending ==> p in nodes && !(p.InTable? && p.gen == m.gen))
    && NoRepeats(pending)
  }

  ghost predicate Unique(cells: Cells, nodes: set<Ptr>) {
    forall p, q {:trigger cells[p], cells[q]} ::
      p in nodes && q in nodes && p in cells && q in cells && p != q ==> cells[p].id != cells[q].id
  }

  ghost predicate Known(m: Memory, p: Ptr) {
    match p
    case Null => false
    case InTable(g, b) => g <= m.gen && (g == m.gen ==> b < Pow2(m.power))
    case Single(n) => n < m.singles
  }

  ghost predicate Bounded(m: Memory) {
    m.links.Keys == m.cells.Keys && forall p {:trigger Known(m, p)} :: p in m.cells ==> Known(m, p)
  }

  ghost predicate TableInv(hash: nat -> nat, m: Memory, nodes: set<Ptr>, chains: seq<seq<Ptr>>, pending: seq<Ptr>) {
    && Table(m.cells, hash, m.power, m.gen, chains) && Blank(m.links, m.gen, chains)
    && Members(hash, m, nodes, chains, pending) && Unique(m.cells, nodes) && Bounded(m)
  }

  ghost predicate Inv(hash: nat -> nat, m: Memory, order: seq<Ptr>, chains: seq<seq<Ptr>>, pending: seq<Ptr>) {
    Linked(m.links, order, m.head, m.tail) && TableInv(hash, m, NodeSet(order), chains, pending)
  }

  ghost function Entry(cells: Cells, p: Ptr): Obj {
    if p in cells then Obj(cells[p].id, cells[p].size) else Obj(0, 0)
  }

  /** The cached objects from least to most recently used. */
  ghost function Entries(cells: Cells, order: seq<Ptr>): seq<Obj> {
    seq(|order|, i requires 0 <= i < |order| => Entry(cells, order[i]))
  }

  lemma EntriesSame(cells: Cells, cells': Cells, order: seq<Ptr>, order': seq<Ptr>)
    requires |order'| == |order|
    requires forall i :: 0 <= i < |order| ==> Entry(cells', order'[i]) == Entry(cells, order[i])
    ensures Entries(cells', order') == Entries(cells, order)
  {
  }

  lemma NodeSetUpdate(order: seq<Ptr>, i: nat, d: Ptr)
    requires NoRepeats(order) && i < |order| && d !in order
    ensures NodeSet(order[i := d]) == NodeSet(order) - {order[i]} + {d}
  {
    var order' := order[i := d];
    forall p
      ensures p in NodeSet(order') <==> p in NodeSet(order) - {order[i]} + {d}
    {
      if p in NodeSet(order) && p != order[i] {
        var j: nat :| j < |order| && order[j] == p;
        assert order'[j] == p;
      }
      if p == d {
        assert order'[i] == d;
      }
    }
  }

  // ---------------------------------------------------------------------------
  // Moving one pending node into the current table
  // ---------------------------------------------------------------------------

  /** Node p gets its new place d at the end of a chain; freed is what is then given back. */
  function Rehomed(m: Memory, chain: seq<Ptr>, p: Ptr, d: Ptr, freed: set<Ptr>, singles: nat): Memory
    requires p in m.cells && Neighboured(m.links, p) && (chain == [] || chain[|chain| - 1] in m.cells)
  {
    m.(links := Relocated(m.links, d, p) - freed,
       cells := LinkedIn(m.cells, chain, d, m.cells[p].(hashNext := Null)) - freed,
       head := Monitored(m.head, d, p), tail := Monitored(m.tail, d, p), singles := singles)
  }

  /** d is a place for the first pending node p of bucket b. */
  ghost predicate HomeOk(m: Memory, order: seq<Ptr>, b: nat, chains: seq<seq<Ptr>>, p: Ptr, d: Ptr, freed: set<Ptr>, singles: nat) {
    && b < |chains| && Attachable(m.gen, b, chains[b], d) && d !in order && d != Null
    && freed <= {p} && !(p.InTable? && p.gen == m.gen) && m.singles <= singles
    && (d in m.cells ==> d == InTable(m.gen, b)) && (d.Single? ==> d.n < singles)
  }

  lemma RehomedTable(hash: nat -> nat, m: Memory, order: seq<Ptr>, chains: seq<seq<Ptr>>, pending: seq<Ptr>,
                     p: Ptr, d: Ptr, freed: set<Ptr>, singles: nat)
    requires Inv(hash, m, order, chains, [p] + pending) && p in m.cells && Neighboured(m.links, p)
    requires var b := BucketOf(hash, m.power, m.cells[p].id); HomeOk(m, order, b, chains, p, d, freed, singles)
    ensures var b := BucketOf(hash, m.power, m.cells[p].id); chains[b] == [] || chains[b][|chains[b]| - 1] in m.cells
    ensures var b := BucketOf(hash, m.power, m.cells[p].id);
            var m' := Rehomed(m, chains[b], p, d, freed, singles);
            Table(m'.cells, hash, m'.power, m'.gen, chains[b := chains[b] + [d]])
  {
    var b := BucketOf(hash, m.power, m.cells[p].id);
    var c := m.cells[p].(hashNext := Null);
    PendingIsNode(hash, m, order, chains, pending, p);
    forall x: nat {:trigger OnChain(chains, x, d)}
      ensures !OnChain(chains, x, d)
    {
      NodeSetHas(order, d);
    }
    LinkedInTable(m.cells, hash, m.power, m.gen, chains, b, d, c);
    var cells', chains' := LinkedIn(m.cells, chains[b], d, c), chains[b := chains[b] + [d]];
    forall x: nat, q {:trigger OnChain(chains', x, q)} | OnChain(chains', x, q)
      ensures q !in freed
    {
      assert OnChain(chains, x, q) || q == d;
      assert p in [p] + pending;
    }
    FreedTable(cells', hash, m.power, m.gen, chains', freed);
  }

  lemma PendingIsNode(hash: nat -> nat, m: Memory, order: seq<Ptr>, chains: seq<seq<Ptr>>, pending: seq<Ptr>, p: Ptr)
    requires Inv(hash, m, order, chains, [p] + pending)
    ensures p in order && p in m.cells && m.cells[p].size > 0 && p != Null
    ensures BucketOf(hash, m.power, m.cells[p].id) < |chains|
  {
    assert p in [p] + pending;
    NodeSetHas(order, p);
    assert MemberOk(hash, m, chains, [p] + pending, p);
    LowBound(hash(m.cells[p].id), m.power);
  }

  lemma RelocatedFrame(links: Links, order: seq<Ptr>, head: Ptr, tail: Ptr, i: nat, d: Ptr, q: Ptr)
    requires Linked(links, order, head, tail) && i < |order| && Neighboured(links, order[i])
    requires q in links && q !in order && q != d
    ensures q in Relocated(links, d, order[i]) && Relocated(links, d, order[i])[q] == links[q]
  {
    assert LinkAt(links, order, i);
  }

  lemma RelocatedKeys(links: Links, order: seq<Ptr>, head: Ptr, tail: Ptr, i: nat, d: Ptr)
    requires Linked(links, order, head, tail) && i < |order| && Neighboured(links, order[i])
    ensures Relocated(links, d, order[i]).Keys == links.Keys + {d}
  {
  }

  lemma RehomedBlank(hash: nat -> nat, m: Memory, order: seq<Ptr>, chains: seq<seq<Ptr>>, i: nat, b: nat, d: Ptr, freed: set<Ptr>)
    requires Linked(m.links, order, m.head, m.tail) && Blank(m.links, m.gen, chains) && i < |order| && d !in order
    requires Neighboured(m.links, order[i]) && freed <= {order[i]} && b < |chains| && !(order[i].InTable? && order[i].gen == m.gen)
    requires forall x: nat {:trigger chains[x]} :: x < |chains| && chains[x] == [] ==> InTable(m.gen, x) !in order
    requires d == InTable(m.gen, b) || d.Single?
    ensures Blank(Relocated(m.links, d, order[i]) - freed, m.gen, chains[b := chains[b] + [d]])
  {
    var links', chains' := Relocated(m.links, d, order[i]) - freed, chains[b := chains[b] + [d]];
    forall x: nat {:trigger chains'[x]} | x < |chains'| && chains'[x] == []
      ensures InTable(m.gen, x) in links' && links'[InTable(m.gen, x)] == Link(Null, Null)
    {
      assert x != b && chains'[x] == chains[x];
      RelocatedFrame(m.links, order, m.head, m.tail, i, d, InTable(m.gen, x));
    }
  }

  /** An empty bucket's table entry is not a node. */
  lemma EmptyNotNode(hash: nat -> nat, m: Memory, nodes: set<Ptr>, chains: seq<seq<Ptr>>, pending: seq<Ptr>, x: nat)
    requires TableInv(hash, m, nodes, chains, pending) && x < |chains| && chains[x] == []
    ensures InTable(m.gen, x) !in nodes
  {
    var p := InTable(m.gen, x);
    if p in nodes {
      assert MemberOk(hash, m, chains, pending, p);
      var b := BucketOf(hash, m.power, m.cells[p].id);
      MemberOf(m.cells, hash, m.power, m.gen, chains, b, p);
    }
  }

  lemma RehomedCell(m: Memory, chain: seq<Ptr>, p: Ptr, d: Ptr, freed: set<Ptr>, singles: nat, q: Ptr)
    requires p in m.cells && Neighboured(m.links, p) && (chain == [] || chain[|chain| - 1] in m.cells)
    requires q in m.cells && q != d && q !in freed
    ensures var m' := Rehomed(m, chain, p, d, freed, singles);
            q in m'.cells && m'.cells[q].id == m.cells[q].id && m'.cells[q].size == m.cells[q].size
    ensures chain == [] || q != chain[|chain| - 1] ==> Rehomed(m, chain, p, d, freed, singles).cells[q] == m.cells[q]
  {
  }

  lemma RehomedMember(hash: nat -> nat, m: Memory, chains: seq<seq<Ptr>>, pending: seq<Ptr>, p: Ptr, d: Ptr,
                      freed: set<Ptr>, singles: nat, b: nat, q: Ptr)
    requires p in m.cells && Neighboured(m.links, p) && b < |chains| && freed <= {p} && d !in freed
    requires chains[b] == [] || chains[b][|chains[b]| - 1] in m.cells
    requires b == BucketOf(hash, m.power, m.cells[p].id) && m.cells[p].size > 0
    requires q != p && q != d ==> MemberOk(hash, m, chains, [p] + pending, q)
    requires q == p ==> q == d
    ensures MemberOk(hash, Rehomed(m, chains[b], p, d, freed, singles), chains[b := chains[b] + [d]], pending, q)
  {
    if q != d {
      RehomedCell(m, chains[b], p, d, freed, singles, q);
    }
  }

  lemma RehomedMembers(hash: nat -> nat, m: Memory, nodes: set<Ptr>, chains: seq<seq<Ptr>>, pending: seq<Ptr>,
                       p: Ptr, d: Ptr, freed: set<Ptr>, singles: nat, b: nat)
    requires Members(hash, m, nodes, chains, [p] + pending) && p in m.cells && Neighboured(m.links, p)
    requires b < |chains| && freed <= {p} && d !in freed && d !in nodes
    requires chains[b] == [] || chains[b][|chains[b]| - 1] in m.cells
    requires b == BucketOf(hash, m.power, m.cells[p].id) && m.cells[p].size > 0
    ensures Members(hash, Rehomed(m, chains[b], p, d, freed, singles), nodes - {p} + {d}, chains[b := chains[b] + [d]], pending)
  {
    var all := [p] + pending;
    var m', nodes', chains' := Rehomed(m, chains[b], p, d, freed, singles), nodes - {p} + {d}, chains[b := chains[b] + [d]];
    assert all[0] == p && forall j :: 0 <= j < |pending| ==> all[j + 1] == pending[j];
    assert p in all && p !in pending && forall q :: q in pending ==> q in all;
    forall x: nat, q {:trigger OnChain(chains', x, q)} | OnChain(chains', x, q)
      ensures q in nodes' && q !in pending
    {
      assert OnChain(chains, x, q) || q == d;
    }
    forall q {:trigger MemberOk(hash, m', chains', pending, q)} | q in nodes'
      ensures MemberOk(hash, m', chains', pending, q)
    {
      assert q != d ==> MemberOk(hash, m, chains, all, q);
      RehomedMember(hash, m, chains, pending, p, d, freed, singles, b, q);
    }
  }

  lemma RehomedUnique(m: Memory, nodes: set<Ptr>, chain: seq<Ptr>, p: Ptr, d: Ptr, freed: set<Ptr>, singles: nat)
    requires p in m.cells && Neighboured(m.links, p) && (chain == [] || chain[|chain| - 1] in m.cells)
    requires Unique(m.cells, nodes) && p in nodes && freed <= {p} && d !in freed && nodes <= m.cells.Keys
    ensures Unique(Rehomed(m, chain, p, d, freed, singles).cells, nodes - {p} + {d})
  {
    var cells', nodes' := Rehomed(m, chain, p, d, freed, singles).cells, nodes - {p} + {d};
    forall x, y {:trigger cells'[x], cells'[y]} | x in nodes' && y in nodes' && x in cells' && y in cells' && x != y
      ensures cells'[x].id != cells'[y].id
    {
      var x0, y0 := if x == d then p else x, if y == d then p else y;
      assert m.cells[x0].id != m.cells[y0].id;
    }
  }

  lemma RehomedBounded(m: Memory, order: seq<Ptr>, i: nat, chain: seq<Ptr>, d: Ptr, freed: set<Ptr>, singles: nat)
    requires Linked(m.links, order, m.head, m.tail) && i < |order| && Bounded(m) && m.singles <= singles
    requires order[i] in m.cells && Neighboured(m.links, order[i]) && (chain == [] || chain[|chain| - 1] in m.cells)
    requires d in m.cells || (d.Single? && d.n < singles)
    ensures Bounded(Rehomed(m, chain, order[i], d, freed, singles))
  {
    RelocatedKeys(m.links, order, m.head, m.tail, i, d);
    var m' := Rehomed(m, chain, order[i], d, freed, singles);
    forall p {:trigger Known(m', p)} | p in m'.cells
      ensures Known(m', p)
    {
      assert p in m.cells ==> Known(m, p);
    }
  }

  lemma RehomedEntries(m: Memory, order: seq<Ptr>, i: nat, chain: seq<Ptr>, d: Ptr, freed: set<Ptr>, singles: nat)
    requires Linked(m.links, order, m.head, m.tail) && i < |order| && d !in order
    requires order[i] in m.cells && Neighboured(m.links, order[i]) && (chain == [] || chain[|chain| - 1] in m.cells)
    requires freed <= {order[i]}
    ensures Entries(Rehomed(m, chain, order[i], d, freed, singles).cells, order[i := d]) == Entries(m.cells, order)
  {
    var m', order' := Rehomed(m, chain, order[i], d, freed, singles), order[i := d];
    forall j | 0 <= j < |order|
      ensures Entry(m'.cells, order'[j]) == Entry(m.cells, order[j])
    {
      if j != i && order[j] in m.cells {
        RehomedCell(m, chain, order[i], d, freed, singles, order[j]);
      }
    }
    EntriesSame(m.cells, m'.cells, order, order');
  }

  /** Moving the first pending node to a new address keeps the invariant and the cached objects. */
  lemma RehomedInv(hash: nat -> nat, m: Memory, order: seq<Ptr>, chains: seq<seq<Ptr>>, pending: seq<Ptr>,
                   i: nat, d: Ptr, freed: set<Ptr>, singles: nat)
    requires i < |order| && Inv(hash, m, order, chains, [order[i]] + pending)
    requires order[i] in m.cells && Neighboured(m.links, order[i])
    requires var b := BucketOf(hash, m.power, m.cells[order[i]].id);
             HomeOk(m, order, b, chains, order[i], d, freed, singles) && (chains[b] == [] || chains[b][|chains[b]| - 1] in m.cells)
    ensures var b := BucketOf(hash, m.power, m.cells[order[i]].id);
            var m' := Rehomed(m, chains[b], order[i], d, freed, singles);
            Inv(hash, m', order[i := d], chains[b := chains[b] + [d]], pending) &&
            Entries(m'.cells, order[i := d]) == Entries(m.cells, order)
  {
    var p := order[i];
    var b := BucketOf(hash, m.power, m.cells[p].id);
    var nodes := NodeSet(order);
    PendingIsNode(hash, m, order, chains, pending, p);
    RelocatedLinked(m.links, order, m.head, m.tail, i, d);
    RehomedTable(hash, m, order, chains, pending, p, d, freed, singles);
    forall x: nat {:trigger chains[x]} | x < |chains| && chains[x] == []
      ensures InTable(m.gen, x) !in order
    {
      EmptyNotNode(hash, m, nodes, chains, [p] + pending, x);
      NodeSetHas(order, InTable(m.gen, x));
    }
    RehomedBlank(hash, m, order, chains, i, b, d, freed);
    NodeSetHas(order, d);
    NodeSetHas(order, p);
    assert ChainOk(m.cells, hash, m.power, m.gen, b, chains[b]);
    RehomedMembers(hash, m, nodes, chains, pending, p, d, freed, singles, b);
    NodesInMemory(hash, m, nodes, chains, [p] + pending);
    RehomedUnique(m, nodes, chains[b], p, d, freed, singles);
    RehomedBounded(m, order, i, chains[b], d, freed, singles);
    NodeSetUpdate(order, i, d);
    StillLinked(Relocated(m.links, d, p), order[i := d], Monitored(m.head, d, p), Monitored(m.tail, d, p), freed);
    RehomedEntries(m, order, i, chains[b], d, freed, singles);
  }

  lemma NodesInMemory(hash: nat -> nat, m: Memory, nodes: set<Ptr>, chains: seq<seq<Ptr>>, pending: seq<Ptr>)
    requires Members(hash, m, nodes, chains, pending)
    ensures nodes <= m.cells.Keys
  {
    forall q | q in nodes
      ensures q in m.cells
    {
      assert MemberOk(hash, m, chains, pending, q);
    }
  }

  lemma StillLinked(links: Links, order: seq<Ptr>, head: Ptr, tail: Ptr, freed: set<Ptr>)
    requires Linked(links, order, head, tail) && forall p :: p in freed ==> p !in order
    ensures Linked(links - freed, order, head, tail)
  {
    forall i: nat {:trigger LinkAt(links - freed, order, i)} | i < |order|
      ensures LinkAt(links - freed, order, i)
    {
      assert LinkAt(links, order, i);
    }
  }

  // ---------------------------------------------------------------------------
  // Linking a pending single node into the current table where it is
  // ---------------------------------------------------------------------------

  function Relinked(m: Memory, chain: seq<Ptr>, p: Ptr): Memory
    requires p in m.cells && (chain == [] || chain[|chain| - 1] in m.cells)
  {
    m.(cells := LinkedIn(m.cells, chain, p, m.cells[p].(hashNext := Null)))
  }

  lemma RelinkedCell(m: Memory, chain: seq<Ptr>, p: Ptr, q: Ptr)
    requires p in m.cells && (chain == [] || chain[|chain| - 1] in m.cells) && q in m.cells
    ensures var m' := Relinked(m, chain, p);
            q in m'.cells && m'.cells[q].id == m.cells[q].id && m'.cells[q].size == m.cells[q].size
    ensures q != p && (chain == [] || q != chain[|chain| - 1]) ==> Relinked(m, chain, p).cells[q] == m.cells[q]
  {
  }

  lemma RelinkedMembers(hash: nat -> nat, m: Memory, nodes: set<Ptr>, chains: seq<seq<Ptr>>, pending: seq<Ptr>, p: Ptr, b: nat)
    requires Members(hash, m, nodes, chains, [p] + pending) && p in m.cells && b < |chains|
    requires chains[b] == [] || chains[b][|chains[b]| - 1] in m.cells
    requires b == BucketOf(hash, m.power, m.cells[p].id) && m.cells[p].size > 0
    ensures Members(hash, Relinked(m, chains[b], p), nodes, chains[b := chains[b] + [p]], pending)
  {
    var all := [p] + pending;
    var m', chains' := Relinked(m, chains[b], p), chains[b := chains[b] + [p]];
    assert all[0] == p && forall j :: 0 <= j < |pending| ==> all[j + 1] == pending[j];
    assert p in all && p !in pending && forall q :: q in pending ==> q in all;
    forall x: nat, q {:trigger OnChain(chains', x, q)} | OnChain(chains', x, q)
      ensures q in nodes && q !in pending
    {
      assert OnChain(chains, x, q) || q == p;
    }
    forall q {:trigger MemberOk(hash, m', chains', pending, q)} | q in nodes
      ensures MemberOk(hash, m', chains', pending, q)
    {
      assert MemberOk(hash, m, chains, all, q);
      RelinkedCell(m, chains[b], p, q);
    }
  }

  lemma RelinkedUnique(m: Memory, nodes: set<Ptr>, chain: seq<Ptr>, p: Ptr)
    requires p in m.cells && (chain == [] || chain[|chain| - 1] in m.cells)
    requires Unique(m.cells, nodes) && nodes <= m.cells.Keys
    ensures Unique(Relinked(m, chain, p).cells, nodes)
  {
    var cells' := Relinked(m, chain, p).cells;
    forall x, y {:trigger cells'[x], cells'[y]} | x in nodes && y in nodes && x in cells' && y in cells' && x != y
      ensures cells'[x].id != cells'[y].id
    {
      assert m.cells[x].id != m.cells[y].id;
    }
  }

  lemma RelinkedTable(hash: nat -> nat, m: Memory, order: seq<Ptr>, chains: seq<seq<Ptr>>, pending: seq<Ptr>, p: Ptr, b: nat)
    requires Inv(hash, m, order, chains, [p] + pending) && p in m.cells && p.Single?
    requires b == BucketOf(hash, m.power, m.cells[p].id) && b < |chains| && chains[b] != []
    ensures chains[b][|chains[b]| - 1] in m.cells
    ensures Table(Relinked(m, chains[b], p).cells, hash, m.power, m.gen, chains[b := chains[b] + [p]])
  {
    PendingIsNode(hash, m, order, chains, pending, p);
    assert p in [p] + pending;
    assert !OnChain(chains, b, p);
    LinkedInTable(m.cells, hash, m.power, m.gen, chains, b, p, m.cells[p].(hashNext := Null));
  }

  /** Linking the first pending node in keeps the invariant and the cached objects. */
  lemma RelinkedInv(hash: nat -> nat, m: Memory, order: seq<Ptr>, chains: seq<seq<Ptr>>, pending: seq<Ptr>, p: Ptr, b: nat)
    requires Inv(hash, m, order, chains, [p] + pending) && p in m.cells && p.Single?
    requires b == BucketOf(hash, m.power, m.cells[p].id) && b < |chains| && chains[b] != []
    requires chains[b][|chains[b]| - 1] in m.cells
    ensures Inv(hash, Relinked(m, chains[b], p), order, chains[b := chains[b] + [p]], pending)
    ensures Entries(Relinked(m, chains[b], p).cells, order) == Entries(m.cells, order)
  {
    var m', nodes := Relinked(m, chains[b], p), NodeSet(order);
    PendingIsNode(hash, m, order, chains, pending, p);
    RelinkedTable(hash, m, order, chains, pending, p, b);
    RelinkedMembers(hash, m, nodes, chains, pending, p, b);
    NodesInMemory(hash, m, nodes, chains, [p] + pending);
    RelinkedUnique(m, nodes, chains[b], p);
    assert m'.cells.Keys == m.cells.Keys;
    forall q {:trigger Known(m', q)} | q in m'.cells
      ensures Known(m', q)
    {
      assert Known(m, q);
    }
    forall j | 0 <= j < |order|
      ensures Entry(m'.cells, order[j]) == Entry(m.cells, order[j])
    {
      if order[j] in m.cells {
        RelinkedCell(m, chains[b], p, order[j]);
      }
    }
    EntriesSame(m.cells, m'.cells, order, order);
  }

  // ---------------------------------------------------------------------------
  // Inserting a new node
  // ---------------------------------------------------------------------------

  /** chained_hashtable_insert puts the object at d, a zeroed node. */
  function Inserted(m: Memory, chain: seq<Ptr>, d: Ptr, o: Obj, singles: nat): Memory
    requires chain == [] || chain[|chain| - 1] in m.cells
  {
    m.(links := m.links[d := Link(Null, Null)], cells := LinkedIn(m.cells, chain, d, Cell(o.id, o.size, Null)), singles := singles)
  }

  /** d is the empty table entry of bucket b or a newly allocated node. */
  ghost predicate PlaceOk(m: Memory, nodes: set<Ptr>, b: nat, chains: seq<seq<Ptr>>, d: Ptr, singles: nat) {
    && b < |chains| && Attachable(m.gen, b, chains[b], d) && d !in nodes && d != Null && m.singles <= singles
    && (d in m.cells ==> d == InTable(m.gen, b)) && (d.Single? ==> d.n < singles)
  }

  lemma InsertedCell(m: Memory, chain: seq<Ptr>, d: Ptr, o: Obj, singles: nat, q: Ptr)
    requires (chain == [] || chain[|chain| - 1] in m.cells) && q in m.cells && q != d
    ensures var m' := Inserted(m, chain, d, o, singles);
            q in m'.cells && m'.cells[q].id == m.cells[q].id && m'.cells[q].size == m.cells[q].size
  {
  }

  lemma InsertedMembers(hash: nat -> nat, m: Memory, nodes: set<Ptr>, chains: seq<seq<Ptr>>, d: Ptr, o: Obj, singles: nat, b: nat)
    requires Members(hash, m, nodes, chains, []) && b < |chains| && b == BucketOf(hash, m.power, o.id) && o.size > 0
    requires chains[b] == [] || chains[b][|chains[b]| - 1] in m.cells
    ensures Members(hash, Inserted(m, chains[b], d, o, singles), nodes + {d}, chains[b := chains[b] + [d]], [])
  {
    var m', nodes', chains' := Inserted(m, chains[b], d, o, singles), nodes + {d}, chains[b := chains[b] + [d]];
    forall x: nat, q {:trigger OnChain(chains', x, q)} | OnChain(chains', x, q)
      ensures q in nodes'
    {
      assert OnChain(chains, x, q) || q == d;
    }
    forall q {:trigger MemberOk(hash, m', chains', [], q)} | q in nodes'
      ensures MemberOk(hash, m', chains', [], q)
    {
      if q == d {
        assert OnChain(chains', b, d);
      } else {
        assert MemberOk(hash, m, chains, [], q);
        InsertedCell(m, chains[b], d, o, singles, q);
        assert OnChain(chains', BucketOf(hash, m.power, m.cells[q].id), q);
      }
    }
  }

  lemma InsertedUnique(m: Memory, nodes: set<Ptr>, chain: seq<Ptr>, d: Ptr, o: Obj, singles: nat)
    requires (chain == [] || chain[|chain| - 1] in m.cells) && Unique(m.cells, nodes) && nodes <= m.cells.Keys && d !in nodes
    requires forall p :: p in nodes ==> m.cells[p].id != o.id
    ensures Unique(Inserted(m, chain, d, o, singles).cells, nodes + {d})
  {
    var cells', nodes' := Inserted(m, chain, d, o, singles).cells, nodes + {d};
    forall x, y {:trigger cells'[x], cells'[y]} | x in nodes' && y in nodes' && x in cells' && y in cells' && x != y
      ensures cells'[x].id != cells'[y].id
    {
      assert x != d && y != d ==> m.cells[x].id != m.cells[y].id;
    }
  }

  lemma InsertedBounded(m: Memory, chain: seq<Ptr>, d: Ptr, o: Obj, singles: nat)
    requires (chain == [] || chain[|chain| - 1] in m.cells) && Bounded(m) && m.singles <= singles
    requires d in m.cells || (d.Single? && d.n < singles)
    ensures Bounded(Inserted(m, chain, d, o, singles))
  {
    var m' := Inserted(m, chain, d, o, singles);
    forall p {:trigger Known(m', p)} | p in m'.cells
      ensures Known(m', p)
    {
      assert p in m.cells ==> Known(m, p);
    }
  }

  lemma InsertedInv(hash: nat -> nat, m: Memory, nodes: set<Ptr>, chains: seq<seq<Ptr>>, d: Ptr, o: Obj, singles: nat, b: nat)
    requires TableInv(hash, m, nodes, chains, []) && PlaceOk(m, nodes, b, chains, d, singles)
    requires b == BucketOf(hash, m.power, o.id) && o.size > 0
    requires forall p :: p in nodes && p in m.cells ==> m.cells[p].id != o.id
    ensures chains[b] == [] || chains[b][|chains[b]| - 1] in m.cells
    ensures TableInv(hash, Inserted(m, chains[b], d, o, singles), nodes + {d}, chains[b := chains[b] + [d]], [])
  {
    assert !OnChain(chains, b, d);
    LinkedInTable(m.cells, hash, m.power, m.gen, chains, b, d, Cell(o.id, o.size, Null));
    InsertedMembers(hash, m, nodes, chains, d, o, singles, b);
    NodesInMemory(hash, m, nodes, chains, []);
    InsertedUnique(m, nodes, chains[b], d, o, singles);
    assert ChainOk(m.cells, hash, m.power, m.gen, b, chains[b]);
    InsertedBounded(m, chains[b], d, o, singles);
  }

  /** The list does not notice a new node that is not on it. */
  lemma LinkedFrame(links: Links, links': Links, order: seq<Ptr>, head: Ptr, tail: Ptr)
    requires Linked(links, order, head, tail)
    requires forall p :: p in order && p in links ==> p in links' && links'[p] == links[p]
    ensures Linked(links', order, head, tail)
  {
    forall i: nat {:trigger LinkAt(links', order, i)} | i < |order|
      ensures LinkAt(links', order, i)
    {
      assert LinkAt(links, order, i);
    }
  }

  // ---------------------------------------------------------------------------
  // Deleting a node
  // ---------------------------------------------------------------------------

  /** The node p, in the table entry of its bucket, is overwritten with the second node of its chain. */
  function PulledUp(m: Memory, p: Ptr, second: Ptr): Memory
    requires second in m.cells && Neighboured(m.links, second)
  {
    m.(links := Relocated(m.links, p, second) - {second}, cells := m.cells[p := m.cells[second]] - {second},
       head := Monitored(m.head, p, second), tail := Monitored(m.tail, p, second))
  }

  lemma PulledUpMembers(hash: nat -> nat, m: Memory, nodes: set<Ptr>, chains: seq<seq<Ptr>>, b: nat)
    requires Members(hash, m, nodes, chains, []) && Table(m.cells, hash, m.power, m.gen, chains) && b < |chains| && |chains[b]| >= 2
    requires chains[b][1] in m.cells && Neighboured(m.links, chains[b][1])
    ensures Members(hash, PulledUp(m, chains[b][0], chains[b][1]), nodes - {chains[b][1]},
                    chains[b := [chains[b][0]] + chains[b][2..]], [])
  {
    var chain := chains[b];
    var p, second := chain[0], chain[1];
    var m', nodes', chains' := PulledUp(m, p, second), nodes - {second}, chains[b := [p] + chain[2..]];
    assert ChainOk(m.cells, hash, m.power, m.gen, b, chain);
    assert NodeOk(m.cells, hash, m.power, b, chain, 1);
    assert second in chain && p in chain;
    forall x: nat, q {:trigger OnChain(chains', x, q)} | OnChain(chains', x, q)
      ensures q in nodes'
    {
      assert OnChain(chains, x, q);
      if x != b {
        OtherChain(m.cells, hash, m.power, m.gen, chains, b, x, second);
      }
    }
    forall q {:trigger MemberOk(hash, m', chains', [], q)} | q in nodes'
      ensures MemberOk(hash, m', chains', [], q)
    {
      if q == p {
        assert OnChain(chains', b, p);
      } else {
        assert MemberOk(hash, m, chains, [], q);
        var x := BucketOf(hash, m.power, m.cells[q].id);
        assert chain == [p, second] + chain[2..];
        assert OnChain(chains', x, q);
      }
    }
  }

  lemma PulledUpUnique(m: Memory, nodes: set<Ptr>, p: Ptr, second: Ptr)
    requires second in m.cells && Neighboured(m.links, second) && p in nodes && second in nodes && p != second
    requires Unique(m.cells, nodes) && nodes <= m.cells.Keys
    ensures Unique(PulledUp(m, p, second).cells, nodes - {second})
  {
    var cells', nodes' := PulledUp(m, p, second).cells, nodes - {second};
    forall x, y {:trigger cells'[x], cells'[y]} | x in nodes' && y in nodes' && x in cells' && y in cells' && x != y
      ensures cells'[x].id != cells'[y].id
    {
      var x0, y0 := if x == p then second else x, if y == p then second else y;
      assert m.cells[x0].id != m.cells[y0].id;
    }
  }

  lemma PulledUpBlank(m: Memory, order: seq<Ptr>, chains: seq<seq<Ptr>>, i: nat, b: nat, p: Ptr, chain: seq<Ptr>)
    requires Linked(m.links, order, m.head, m.tail) && Blank(m.links, m.gen, chains) && i < |order|
    requires p == InTable(m.gen, b) && order[i].Single? && Neighboured(m.links, order[i])
    requires b < |chains| && chain != []
    requires forall x: nat {:trigger chains[x]} :: x < |chains| && chains[x] == [] ==> InTable(m.gen, x) !in order
    ensures Blank(Relocated(m.links, p, order[i]) - {order[i]}, m.gen, chains[b := chain])
  {
    var links', chains' := Relocated(m.links, p, order[i]) - {order[i]}, chains[b := chain];
    forall x: nat {:trigger chains'[x]} | x < |chains'| && chains'[x] == []
      ensures InTable(m.gen, x) in links' && links'[InTable(m.gen, x)] == Link(Null, Null)
    {
      assert x != b && chains'[x] == chains[x];
      RelocatedFrame(m.links, order, m.head, m.tail, i, p, InTable(m.gen, x));
    }
  }

  lemma PulledUpTable(hash: nat -> nat, m: Memory, nodes: set<Ptr>, chains: seq<seq<Ptr>>, b: nat)
    requires TableInv(hash, m, nodes, chains, []) && b < |chains| && |chains[b]| >= 2
    requires chains[b][1] in m.cells && Neighboured(m.links, chains[b][1])
    ensures var chain := chains[b]; var m' := PulledUp(m, chain[0], chain[1]);
            Table(m'.cells, hash, m.power, m.gen, chains[b := [chain[0]] + chain[2..]])
  {
    var chain := chains[b];
    var p, second := chain[0], chain[1];
    assert ChainOk(m.cells, hash, m.power, m.gen, b, chain);
    PulledUpChain(m.cells, hash, m.power, m.gen, b, chain);
    var cells' := m.cells[p := m.cells[second]] - {second};
    assert second in chain && p in chain;
    OnlyChain(m.cells, cells', hash, m.power, m.gen, chains, b, [p] + chain[2..]);
  }

  lemma PulledUpBounded(m: Memory, order: seq<Ptr>, i: nat, p: Ptr)
    requires Linked(m.links, order, m.head, m.tail) && i < |order| && Bounded(m) && p in m.cells
    requires order[i] in m.cells && Neighboured(m.links, order[i])
    ensures Bounded(PulledUp(m, p, order[i]))
  {
    RelocatedKeys(m.links, order, m.head, m.tail, i, p);
    var m' := PulledUp(m, p, order[i]);
    forall q {:trigger Known(m', q)} | q in m'.cells
      ensures Known(m', q)
    {
      assert q in m.cells ==> Known(m, q);
    }
  }

  lemma PulledUpEntries(m: Memory, order: seq<Ptr>, i: nat, p: Ptr)
    requires NoRepeats(order) && i < |order| && order[i] in m.cells && Neighboured(m.links, order[i]) && p !in order
    ensures Entries(PulledUp(m, p, order[i]).cells, order[i := p]) == Entries(m.cells, order)
  {
    var cells' := PulledUp(m, p, order[i]).cells;
    forall j | 0 <= j < |order|
      ensures Entry(cells', order[i := p][j]) == Entry(m.cells, order[j])
    {
    }
    EntriesSame(m.cells, cells', order, order[i := p]);
  }

  /** When p, the first node of its chain, is deleted and the second one moves up, the table is right
      whether or not p is on the list. */
  lemma PulledUpTableInv(hash: nat -> nat, m: Memory, nodes: set<Ptr>, order: seq<Ptr>, chains: seq<seq<Ptr>>, b: nat, i: nat)
    requires Linked(m.links, order, m.head, m.tail) && b < |chains| && |chains[b]| >= 2 && i < |order|
    requires TableInv(hash, m, nodes, chains, []) && NodeSet(order) <= nodes
    requires chains[b][1] in m.cells && Neighboured(m.links, chains[b][1]) && order[i] == chains[b][1]
    ensures var chain := chains[b];
            TableInv(hash, PulledUp(m, chain[0], chain[1]), nodes - {chain[1]}, chains[b := [chain[0]] + chain[2..]], [])
  {
    var chain := chains[b];
    var p := chain[0];
    assert ChainOk(m.cells, hash, m.power, m.gen, b, chain);
    assert NodeOk(m.cells, hash, m.power, b, chain, 0) && NodeOk(m.cells, hash, m.power, b, chain, 1);
    assert OnChain(chains, b, p) && OnChain(chains, b, chain[1]);
    PulledUpTable(hash, m, nodes, chains, b);
    forall x: nat {:trigger chains[x]} | x < |chains| && chains[x] == []
      ensures InTable(m.gen, x) !in order
    {
      EmptyNotNode(hash, m, nodes, chains, [], x);
      NodeSetHas(order, InTable(m.gen, x));
    }
    PulledUpBlank(m, order, chains, i, b, p, [p] + chain[2..]);
    PulledUpMembers(hash, m, nodes, chains, b);
    NodesInMemory(hash, m, nodes, chains, []);
    PulledUpUnique(m, nodes, p, order[i]);
    PulledUpBounded(m, order, i, p);
  }

  /** Deleting the first node of a chain: its successor takes over its address. */
  lemma PulledUpInv(hash: nat -> nat, m: Memory, order: seq<Ptr>, chains: seq<seq<Ptr>>, b: nat, i: nat)
    requires Linked(m.links, order, m.head, m.tail) && b < |chains| && |chains[b]| >= 2 && i < |order|
    requires chains[b][0] !in order && TableInv(hash, m, NodeSet(order) + {chains[b][0]}, chains, [])
    requires chains[b][1] in m.cells && Neighboured(m.links, chains[b][1]) && order[i] == chains[b][1]
    ensures var chain := chains[b]; var m' := PulledUp(m, chain[0], chain[1]);
            Inv(hash, m', order[i := chain[0]], chains[b := [chain[0]] + chain[2..]], []) &&
            Entries(m'.cells, order[i := chain[0]]) == Entries(m.cells, order)
  {
    var chain, nodes := chains[b], NodeSet(order) + {chains[b][0]};
    var p := chain[0];
    assert ChainOk(m.cells, hash, m.power, m.gen, b, chain);
    assert NodeOk(m.cells, hash, m.power, b, chain, 0);
    RelocatedLinked(m.links, order, m.head, m.tail, i, p);
    StillLinked(Relocated(m.links, p, order[i]), order[i := p], Monitored(m.head, p, order[i]), Monitored(m.tail, p, order[i]),
                {order[i]});
    NodeSetHas(order, p);
    NodeSetHas(order, order[i]);
    NodeSetUpdate(order, i, p);
    assert NodeSet(order[i := p]) == nodes - {order[i]};
    PulledUpTableInv(hash, m, nodes, order, chains, b, i);
    PulledUpEntries(m, order, i, p);
  }

  /** The only node of its chain is zeroed. */
  function Emptied(m: Memory, p: Ptr): Memory {
    m.(links := m.links[p := Link(Null, Null)], cells := m.cells[p := Zero])
  }

  /** What is left when a node is taken out of the chain of bucket b and off the node set. */
  lemma LeftOver(hash: nat -> nat, m: Memory, m': Memory, nodes: set<Ptr>, chains: seq<seq<Ptr>>, b: nat, p: Ptr, chain: seq<Ptr>)
    requires TableInv(hash, m, nodes, chains, []) && b < |chains| && p in chains[b] && m'.power == m.power
    requires forall q :: q in chain ==> q in chains[b] && q != p
    requires forall q :: q in chains[b] && q != p ==> q in chain
    requires forall q :: q in nodes && q != p && q in m.cells ==>
               q in m'.cells && m'.cells[q].id == m.cells[q].id && m'.cells[q].size == m.cells[q].size
    ensures Members(hash, m', nodes - {p}, chains[b := chain], []) && Unique(m'.cells, nodes - {p})
  {
    var nodes', chains' := nodes - {p}, chains[b := chain];
    forall x: nat, q {:trigger OnChain(chains', x, q)} | OnChain(chains', x, q)
      ensures q in nodes'
    {
      assert OnChain(chains, x, q);
      if x != b {
        OtherChain(m.cells, hash, m.power, m.gen, chains, b, x, p);
      }
    }
    forall q {:trigger MemberOk(hash, m', chains', [], q)} | q in nodes'
      ensures MemberOk(hash, m', chains', [], q)
    {
      assert MemberOk(hash, m, chains, [], q);
      assert OnChain(chains', BucketOf(hash, m.power, m.cells[q].id), q);
    }
    forall x, y {:trigger m'.cells[x], m'.cells[y]} | x in nodes' && y in nodes' && x in m'.cells && y in m'.cells && x != y
      ensures m'.cells[x].id != m'.cells[y].id
    {
      assert MemberOk(hash, m, chains, [], x) && MemberOk(hash, m, chains, [], y);
      assert m.cells[x].id != m.cells[y].id;
    }
  }

  lemma EmptiedTableInv(hash: nat -> nat, m: Memory, nodes: set<Ptr>, chains: seq<seq<Ptr>>, b: nat)
    requires b < |chains| && |chains[b]| == 1 && TableInv(hash, m, nodes, chains, [])
    ensures TableInv(hash, Emptied(m, chains[b][0]), nodes - {chains[b][0]}, chains[b := []], [])
  {
    var p := chains[b][0];
    var m' := Emptied(m, p);
    assert ChainOk(m.cells, hash, m.power, m.gen, b, chains[b]);
    assert NodeOk(m.cells, hash, m.power, b, chains[b], 0);
    assert p in chains[b] && forall q :: q in chains[b] ==> q == p;
    EmptiedChain(m.cells, hash, m.power, m.gen, b);
    OnlyChain(m.cells, m'.cells, hash, m.power, m.gen, chains, b, []);
    LeftOver(hash, m, m', nodes, chains, b, p, []);
    forall q {:trigger Known(m', q)} | q in m'.cells
      ensures Known(m', q)
    {
      assert Known(m, q);
    }
  }

  lemma EmptiedInv(hash: nat -> nat, m: Memory, order: seq<Ptr>, chains: seq<seq<Ptr>>, b: nat)
    requires Linked(m.links, order, m.head, m.tail) && b < |chains| && |chains[b]| == 1
    requires chains[b][0] !in order && TableInv(hash, m, NodeSet(order) + {chains[b][0]}, chains, [])
    ensures var m' := Emptied(m, chains[b][0]);
            Inv(hash, m', order, chains[b := []], []) && Entries(m'.cells, order) == Entries(m.cells, order)
  {
    var p, nodes := chains[b][0], NodeSet(order) + {chains[b][0]};
    var m' := Emptied(m, p);
    LinkedFrame(m.links, m'.links, order, m.head, m.tail);
    EmptiedTableInv(hash, m, nodes, chains, b);
    NodeSetHas(order, p);
    assert nodes - {p} == NodeSet(order);
    EntriesSame(m.cells, m'.cells, order, order);
  }

  /** A later node of a chain is bypassed and freed. */
  function BypassedIn(m: Memory, prev: Ptr, p: Ptr): Memory
    requires prev in m.cells && p in m.cells
  {
    m.(links := m.links - {p}, cells := Bypassed(m.cells, prev, p))
  }

  lemma BypassedTableInv(hash: nat -> nat, m: Memory, nodes: set<Ptr>, chains: seq<seq<Ptr>>, b: nat, j: nat)
    requires b < |chains| && 0 < j < |chains[b]| && TableInv(hash, m, nodes, chains, [])
    requires chains[b][j - 1] in m.cells && chains[b][j] in m.cells
    ensures var chain := chains[b];
            TableInv(hash, BypassedIn(m, chain[j - 1], chain[j]), nodes - {chain[j]}, chains[b := chain[..j] + chain[j + 1..]], [])
  {
    var chain := chains[b];
    var p := chain[j];
    var m', chain' := BypassedIn(m, chain[j - 1], p), chain[..j] + chain[j + 1..];
    assert ChainOk(m.cells, hash, m.power, m.gen, b, chain);
    assert NodeOk(m.cells, hash, m.power, b, chain, j);
    BypassedChain(m.cells, hash, m.power, m.gen, b, chain, j);
    assert chain == chain[..j] + [p] + chain[j + 1..];
    assert chain[j - 1] in chain && p in chain;
    OnlyChain(m.cells, m'.cells, hash, m.power, m.gen, chains, b, chain');
    LeftOver(hash, m, m', nodes, chains, b, p, chain');
    BypassedRest(m, [], chain[j - 1], p);
  }

  lemma BypassedInv(hash: nat -> nat, m: Memory, order: seq<Ptr>, chains: seq<seq<Ptr>>, b: nat, j: nat)
    requires Linked(m.links, order, m.head, m.tail) && b < |chains| && 0 < j < |chains[b]|
    requires chains[b][j] !in order && TableInv(hash, m, NodeSet(order) + {chains[b][j]}, chains, [])
    requires chains[b][j - 1] in m.cells && chains[b][j] in m.cells
    ensures var chain := chains[b]; var m' := BypassedIn(m, chain[j - 1], chain[j]);
            Inv(hash, m', order, chains[b := chain[..j] + chain[j + 1..]], []) && Entries(m'.cells, order) == Entries(m.cells, order)
  {
    var p, nodes := chains[b][j], NodeSet(order) + {chains[b][j]};
    StillLinked(m.links, order, m.head, m.tail, {p});
    BypassedTableInv(hash, m, nodes, chains, b, j);
    NodeSetHas(order, p);
    assert nodes - {p} == NodeSet(order);
    BypassedRest(m, order, chains[b][j - 1], p);
  }

  lemma BypassedRest(m: Memory, order: seq<Ptr>, prev: Ptr, p: Ptr)
    requires Bounded(m) && prev in m.cells && p in m.cells && p !in order
    ensures Bounded(BypassedIn(m, prev, p)) && Entries(BypassedIn(m, prev, p).cells, order) == Entries(m.cells, order)
  {
    var m' := BypassedIn(m, prev, p);
    forall q {:trigger Known(m', q)} | q in m'.cells
      ensures Known(m', q)
    {
      assert Known(m, q);
    }
    EntriesSame(m.cells, m'.cells, order, order);
  }

  // ---------------------------------------------------------------------------
  // Allocating a table of twice the size, and freeing the old one
  // ---------------------------------------------------------------------------

  /** The addresses of the entries of a table. */
  function Slots(gen: nat, n: nat): set<Ptr> {
    set b: nat | b < n :: InTable(gen, b)
  }

  /** A new zeroed table replaces the old one, which stays in memory. */
  function Allocated(m: Memory): Memory {
    var slots := Slots(m.gen + 1, Pow2(m.power + 1));
    m.(links := m.links + map p | p in slots :: Link(Null, Null), cells := m.cells + map p | p in slots :: Zero,
       power := m.power + 1, gen := m.gen + 1)
  }

  /** The nodes of the chains from bucket b on, in the order in which expansion visits them. */
  ghost function Flat(chains: seq<seq<Ptr>>, b: nat): seq<Ptr>
    decreases |chains| - b
  {
    if b >= |chains| then [] else chains[b] + Flat(chains, b + 1)
  }

  lemma {:induction false} FlatHas(chains: seq<seq<Ptr>>, b: nat, x: nat, p: Ptr)
    requires b <= x && OnChain(chains, x, p)
    ensures p in Flat(chains, b)
    decreases |chains| - b
  {
    if b < x {
      FlatHas(chains, b + 1, x, p);
    }
  }

  lemma {:induction false} FlatFrom(chains: seq<seq<Ptr>>, b: nat, p: Ptr) returns (x: nat)
    requires p in Flat(chains, b)
    ensures b <= x && OnChain(chains, x, p)
    decreases |chains| - b
  {
    if p in chains[b] {
      x := b;
    } else {
      x := FlatFrom(chains, b + 1, p);
    }
  }

  lemma {:induction false} FlatDistinct(cells: Cells, hash: nat -> nat, power: nat, gen: nat, chains: seq<seq<Ptr>>, b: nat)
    requires Table(cells, hash, power, gen, chains)
    ensures NoRepeats(Flat(chains, b))
    decreases |chains| - b
  {
    if b < |chains| {
      FlatDistinct(cells, hash, power, gen, chains, b + 1);
      assert ChainOk(cells, hash, power, gen, b, chains[b]);
      forall p | p in chains[b]
        ensures p !in Flat(chains, b + 1)
      {
        if p in Flat(chains, b + 1) {
          var x := FlatFrom(chains, b + 1, p);
          OtherChain(cells, hash, power, gen, chains, b, x, p);
        }
      }
      DistinctConcat(chains[b], Flat(chains, b + 1));
    }
  }

  lemma DistinctConcat(a: seq<Ptr>, b: seq<Ptr>)
    requires NoRepeats(a) && NoRepeats(b) && forall p :: p in a ==> p !in b
    ensures NoRepeats(a + b)
  {
    var c := a + b;
    forall i, j | 0 <= i < j < |c|
      ensures c[i] != c[j]
    {
      if i < |a| <= j {
        assert a[i] in a && b[j - |a|] in b;
      }
    }
  }

  lemma AllocatedCells(m: Memory, p: Ptr)
    requires Bounded(m)
    ensures p in m.cells ==> p in Allocated(m).cells && Allocated(m).cells[p] == m.cells[p]
    ensures p in m.links ==> p in Allocated(m).links && Allocated(m).links[p] == m.links[p]
    ensures p in Slots(m.gen + 1, Pow2(m.power + 1)) ==>
              p in Allocated(m).cells && Allocated(m).cells[p] == Zero && Allocated(m).links[p] == Link(Null, Null)
    ensures p in Allocated(m).cells ==> p in m.cells || p in Slots(m.gen + 1, Pow2(m.power + 1))
  {
    if p in m.cells {
      assert Known(m, p);
    }
  }

  lemma AllocatedTable(hash: nat -> nat, m: Memory)
    requires Bounded(m)
    ensures var m' := Allocated(m); var chains' := seq(Pow2(m'.power), _ => []);
            Table(m'.cells, hash, m'.power, m'.gen, chains') && Blank(m'.links, m'.gen, chains') && Bounded(m')
  {
    var m' := Allocated(m);
    forall b: nat {:trigger InTable(m'.gen, b)} | b < Pow2(m'.power)
      ensures InTable(m'.gen, b) in m'.cells && m'.cells[InTable(m'.gen, b)] == Zero
      ensures InTable(m'.gen, b) in m'.links && m'.links[InTable(m'.gen, b)] == Link(Null, Null)
    {
      AllocatedCells(m, InTable(m'.gen, b));
    }
    EmptyTable(m'.cells, hash, m'.power, m'.gen);
    forall p {:trigger Known(m', p)} | p in m'.cells
      ensures Known(m', p)
    {
      AllocatedCells(m, p);
      assert p in m.cells ==> Known(m, p);
    }
  }

  lemma AllocatedMembers(hash: nat -> nat, m: Memory, nodes: set<Ptr>, chains: seq<seq<Ptr>>)
    requires TableInv(hash, m, nodes, chains, [])
    ensures Members(hash, Allocated(m), nodes, seq(Pow2(m.power + 1), _ => []), Flat(chains, 0))
    ensures Unique(Allocated(m).cells, nodes)
  {
    var m', pending := Allocated(m), Flat(chains, 0);
    var chains' := seq(Pow2(m.power + 1), _ => []);
    FlatDistinct(m.cells, hash, m.power, m.gen, chains, 0);
    forall p {:trigger MemberOk(hash, m', chains', pending, p)} | p in nodes
      ensures MemberOk(hash, m', chains', pending, p)
    {
      assert MemberOk(hash, m, chains, [], p);
      FlatHas(chains, 0, BucketOf(hash, m.power, m.cells[p].id), p);
      AllocatedCells(m, p);
    }
    forall p | p in pending
      ensures p in nodes && !(p.InTable? && p.gen == m'.gen)
    {
      var x := FlatFrom(chains, 0, p);
      assert OnChain(chains, x, p);
      MemberOf(m.cells, hash, m.power, m.gen, chains, x, p);
      assert Known(m, p);
    }
    forall p, q {:trigger m'.cells[p], m'.cells[q]} | p in nodes && q in nodes && p in m'.cells && q in m'.cells && p != q
      ensures m'.cells[p].id != m'.cells[q].id
    {
      assert MemberOk(hash, m, chains, [], p) && MemberOk(hash, m, chains, [], q);
      AllocatedCells(m, p);
      AllocatedCells(m, q);
    }
  }

  /** With a new empty table every node is still to be moved. */
  lemma AllocatedInv(hash: nat -> nat, m: Memory, order: seq<Ptr>, chains: seq<seq<Ptr>>)
    requires Inv(hash, m, order, chains, [])
    ensures Inv(hash, Allocated(m), order, seq(Pow2(m.power + 1), _ => []), Flat(chains, 0))
    ensures Entries(Allocated(m).cells, order) == Entries(m.cells, order)
    ensures forall p :: p in m.cells ==> p in Allocated(m).cells && Allocated(m).cells[p] == m.cells[p]
  {
    var m' := Allocated(m);
    forall p
      ensures p in m.cells ==> p in m'.cells && m'.cells[p] == m.cells[p]
      ensures p in m.links ==> p in m'.links && m'.links[p] == m.links[p]
    {
      AllocatedCells(m, p);
    }
    LinkedFrame(m.links, m'.links, order, m.head, m.tail);
    AllocatedTable(hash, m);
    AllocatedMembers(hash, m, NodeSet(order), chains);
    NodesInMemory(hash, m, NodeSet(order), chains, []);
    forall i | 0 <= i < |order|
      ensures Entry(m'.cells, order[i]) == Entry(m.cells, order[i])
    {
      NodeSetHas(order, order[i]);
    }
    EntriesSame(m.cells, m'.cells, order, order);
  }

  function WithoutTable(m: Memory, gen: nat, n: nat): Memory {
    m.(links := m.links - Slots(gen, n), cells := m.cells - Slots(gen, n))
  }

  /** Once every node has been moved the old table can be freed. */
  lemma WithoutTableInv(hash: nat -> nat, m: Memory, order: seq<Ptr>, chains: seq<seq<Ptr>>, gen: nat, n: nat)
    requires Inv(hash, m, order, chains, []) && gen != m.gen
    ensures Inv(hash, WithoutTable(m, gen, n), order, chains, [])
    ensures Entries(WithoutTable(m, gen, n).cells, order) == Entries(m.cells, order)
  {
    var m', slots := WithoutTable(m, gen, n), Slots(gen, n);
    forall p | p in NodeSet(order)
      ensures p !in slots && MemberOk(hash, m', chains, [], p)
    {
      assert MemberOk(hash, m, chains, [], p);
      MemberOf(m.cells, hash, m.power, m.gen, chains, BucketOf(hash, m.power, m.cells[p].id), p);
    }
    assert forall p :: p in order ==> p in NodeSet(order);
    StillLinked(m.links, order, m.head, m.tail, slots);
    FreedTable(m.cells, hash, m.power, m.gen, chains, slots);
    forall p {:trigger Known(m', p)} | p in m'.cells
      ensures Known(m', p)
    {
      assert Known(m, p);
    }
    EntriesSame(m.cells, m'.cells, order, order);
  }
}
