/**
 The LRU cache (CDNSimulator/libCacheSim/cache/cache.c, CDNSimulator/libCacheSim/evictionAlgo/LRU.c)
 on top of the relocating hash table. Its contents are one list of objects by recency; every operation
 does to that list what the specification says, whatever addresses its nodes move to.
 */
module LruCaches {
  import opened Sequences
  import opened Bits
  import opened LinkedNodes
  import opened ChainedTable
  import opened Recency
  import opened RelocatingTable
  import opened NodeRemoval

  class LruCache {
    const hash: nat -> nat
    const capacity: nat
    /** Table, nodes and the monitored pointers list_head and list_tail. */
    var mem: Memory
    /** n_cur_item of the table. */
    var items: nat
    /** n_obj and occupied_size of the cache. */
    var objects: nat
    var occupied: nat
    ghost var order: seq<Ptr>
    ghost var chains: seq<seq<Ptr>>

    ghost predicate Valid()
      reads this
    {
      && Inv(hash, mem, order, chains, [])
      && items == objects == |order| && occupied == Total(Contents())
    }

    /** The cached objects from least to most recently used. */
    ghost function Contents(): seq<Obj>
      reads this
    {
      Entries(mem.cells, order)
    }

    constructor (hash: nat -> nat, capacity: nat, power: nat)
      ensures Valid() && Contents() == [] && this.hash == hash && this.capacity == capacity && mem.power == power
    {
      this.hash, this.capacity := hash, capacity;
      mem := EmptyMemory(power);
      items, objects, occupied := 0, 0, 0;
      order, chains := [], seq(Pow2(power), _ => []);
      new;
      EmptyMemoryInv(hash, power);
    }

    // -------------------------------------------------------------------------
    // The hash table
    // -------------------------------------------------------------------------

    /** chained_hashtable_find. */
    method Find(id: nat) returns (p: Ptr)
      requires Inv(hash, mem, order, chains, [])
      ensures p == Null <==> !Cached(Contents(), id)
      ensures p != Null ==> p in order && p in mem.cells && mem.cells[p].id == id
    {
      var b := BucketOf(hash, mem.power, id);
      LowBound(hash(id), mem.power);
      ghost var chain := chains[b];
      assert ChainOk(mem.cells, hash, mem.power, mem.gen, b, chain);
      p := InTable(mem.gen, b);
      if mem.cells[p].size == 0 {
        assert chain != [] ==> NodeOk(mem.cells, hash, mem.power, b, chain, 0);
        NotFound(hash, mem, order, chains, id);
        return Null;
      }
      ghost var i: nat := 0;
      ChainNotNull(mem.cells, hash, mem.power, mem.gen, b, chain);
      while p != Null
        invariant i <= |chain| && p == (if i < |chain| then chain[i] else Null)
        invariant forall j :: 0 <= j < i ==> chain[j] in mem.cells && mem.cells[chain[j]].id != id
        invariant Null !in chain
        decreases |chain| - i
      {
        assert NodeOk(mem.cells, hash, mem.power, b, chain, i);
        if mem.cells[p].id == id {
          assert OnChain(chains, b, p);
          NodeSetHas(order, p);
          FoundMeansCached(mem.cells, order, p, id);
          return;
        }
        p := mem.cells[p].hashNext;
        i := i + 1;
      }
      NotFound(hash, mem, order, chains, id);
    }

    /** _last_obj_in_bucket, for a bucket that is not empty. */
    method LastInBucket(b: nat) returns (p: Ptr)
      requires Table(mem.cells, hash, mem.power, mem.gen, chains) && b < |chains| && chains[b] != []
      ensures p == chains[b][|chains[b]| - 1] && p in mem.cells
    {
      ghost var chain := chains[b];
      assert ChainOk(mem.cells, hash, mem.power, mem.gen, b, chain);
      p := InTable(mem.gen, b);
      ghost var i: nat := 0;
      assert NodeOk(mem.cells, hash, mem.power, b, chain, 0);
      while mem.cells[p].hashNext != Null
        invariant i < |chain| && p == chain[i] && NodeOk(mem.cells, hash, mem.power, b, chain, i)
        decreases |chain| - i
      {
        p := mem.cells[p].hashNext;
        i := i + 1;
        assert NodeOk(mem.cells, hash, mem.power, b, chain, i);
      }
      NextIsNode(mem.cells, hash, mem.power, mem.gen, b, chain, i);
    }

    /** What moving the first pending node into the current table leaves as it was. */
    twostate predicate OneMoved(pending: seq<Ptr>)
      reads this
    {
      && Inv(hash, mem, order, chains, pending)
      && Contents() == old(Contents()) && |order| == |old(order)|
      && mem.power == old(mem.power) && mem.gen == old(mem.gen)
      && UntouchedCells(old(mem), mem, pending)
    }

    /** The table entry of the bucket is free: the node moves there. */
    method MoveToSlot(p: Ptr, b: nat, ghost pending: seq<Ptr>, ghost i: nat)
      requires Inv(hash, mem, order, chains, [p] + pending) && i < |order| && order[i] == p && p in mem.cells
      requires b == BucketOf(hash, mem.power, mem.cells[p].id) && b < |chains| && chains[b] == [] && Neighboured(mem.links, p)
      modifies this`mem, this`order, this`chains
      ensures OneMoved(pending)
    {
      var slot := InTable(mem.gen, b);
      ghost var freed := if p.InTable? then {} else {p};
      SlotIsHome(hash, mem, order, chains, pending, p, b);
      RehomedInv(hash, mem, order, chains, pending, i, slot, freed, mem.singles);
      PendingElsewhere(hash, mem, NodeSet(order), chains, pending, p);
      RehomedOthers(mem, [], p, slot, freed, mem.singles, pending);
      mem := mem.(links := Relocated(mem.links, slot, p), cells := mem.cells[slot := mem.cells[p].(hashNext := Null)],
                  head := Monitored(mem.head, slot, p), tail := Monitored(mem.tail, slot, p));
      if !p.InTable? {
        mem := mem.(links := mem.links - {p}, cells := mem.cells - {p});
      }
      NothingFreed(mem.links, mem.cells);
      order, chains := order[i := slot], chains[b := chains[b] + [slot]];
    }

    /** A node of the old table moves to a newly allocated one at the end of the chain. */
    method MoveToNewNode(p: Ptr, b: nat, last: Ptr, ghost pending: seq<Ptr>, ghost i: nat)
      requires Inv(hash, mem, order, chains, [p] + pending) && i < |order| && order[i] == p && p in mem.cells
      requires b == BucketOf(hash, mem.power, mem.cells[p].id) && b < |chains| && Neighboured(mem.links, p) && p.InTable?
      requires chains[b] != [] && last == chains[b][|chains[b]| - 1] && last in mem.cells
      modifies this`mem, this`order, this`chains
      ensures OneMoved(pending)
    {
      var d := Single(mem.singles);
      FreshIsNew(hash, mem, order, chains, [p] + pending, b);
      PendingElsewhere(hash, mem, NodeSet(order), chains, pending, p);
      LastOutside(hash, mem, NodeSet(order), chains, pending, p, b);
      RehomedInv(hash, mem, order, chains, pending, i, d, {}, mem.singles + 1);
      RehomedOthers(mem, chains[b], p, d, {}, mem.singles + 1, pending);
      mem := mem.(links := Relocated(mem.links, d, p),
                  cells := mem.cells[last := mem.cells[last].(hashNext := d)][d := mem.cells[p].(hashNext := Null)],
                  head := Monitored(mem.head, d, p), tail := Monitored(mem.tail, d, p), singles := mem.singles + 1);
      NothingFreed(mem.links, mem.cells);
      order, chains := order[i := d], chains[b := chains[b] + [d]];
    }

    /** A single node is linked to the end of the chain where it is. */
    method LinkInPlace(p: Ptr, b: nat, last: Ptr, ghost pending: seq<Ptr>)
      requires Inv(hash, mem, order, chains, [p] + pending) && p in mem.cells && p.Single?
      requires b == BucketOf(hash, mem.power, mem.cells[p].id) && b < |chains|
      requires chains[b] != [] && last == chains[b][|chains[b]| - 1] && last in mem.cells
      modifies this`mem, this`chains
      ensures OneMoved(pending)
    {
      PendingElsewhere(hash, mem, NodeSet(order), chains, pending, p);
      LastOutside(hash, mem, NodeSet(order), chains, pending, p, b);
      RelinkedInv(hash, mem, order, chains, pending, p, b);
      RelinkedOthers(mem, chains[b], p, pending);
      mem := mem.(cells := mem.cells[last := mem.cells[last].(hashNext := p)][p := mem.cells[p].(hashNext := Null)]);
      chains := chains[b := chains[b] + [p]];
    }

    /** _move_into_new_table: the first pending node goes to its bucket of the current table. */
    method MoveIntoNewTable(p: Ptr, partOfOldTable: bool, ghost pending: seq<Ptr>)
      requires Inv(hash, mem, order, chains, [p] + pending) && partOfOldTable == p.InTable?
      modifies this`mem, this`order, this`chains
      ensures OneMoved(pending)
    {
      PendingIsNode(hash, mem, order, chains, pending, p);
      ghost var i: nat :| i < |order| && order[i] == p;
      LinkedNeighboured(mem.links, order, mem.head, mem.tail, i);
      var b := BucketOf(hash, mem.power, mem.cells[p].id);
      assert ChainOk(mem.cells, hash, mem.power, mem.gen, b, chains[b]);
      assert chains[b] != [] ==> NodeOk(mem.cells, hash, mem.power, b, chains[b], 0);
      if mem.cells[InTable(mem.gen, b)].size == 0 {
        MoveToSlot(p, b, pending, i);
      } else {
        var last := LastInBucket(b);
        if partOfOldTable {
          MoveToNewNode(p, b, last, pending, i);
        } else {
          LinkInPlace(p, b, last, pending);
        }
      }
    }

    /** Node j of the chain of bucket i of the old table moves into the current table. */
    method MoveNode(cur: Ptr, ghost power: nat, ghost gen: nat, ghost was: seq<seq<Ptr>>, ghost i: nat, ghost j: nat)
      requires i < |was| && j < |was[i]| && cur == was[i][j] && mem.gen == gen + 1
      requires Inv(hash, mem, order, chains, was[i][j..] + Flat(was, i + 1))
      requires RestOf(mem.cells, was[i], j + 1) && OldTable(mem.cells, hash, power, gen, was, i + 1)
      modifies this`mem, this`order, this`chains
      ensures OneMoved(was[i][j + 1..] + Flat(was, i + 1))
      ensures RestOf(mem.cells, was[i], j + 1) && OldTable(mem.cells, hash, power, gen, was, i + 1)
    {
      ghost var before := mem;
      assert was[i][j..] + Flat(was, i + 1) == [cur] + (was[i][j + 1..] + Flat(was, i + 1));
      MoveIntoNewTable(cur, cur.InTable?, was[i][j + 1..] + Flat(was, i + 1));
      StillOld(hash, before, mem, power, gen, was, i, was[i], j + 1);
    }

    /** Expansion moves the chain of bucket i of the old table, node by node. */
    method MoveChain(ghost power: nat, gen: nat, i: nat, ghost was: seq<seq<Ptr>>)
      requires Inv(hash, mem, order, chains, Flat(was, i)) && mem.gen == gen + 1
      requires i < |was| && was[i] != [] && OldTable(mem.cells, hash, power, gen, was, i)
      modifies this`mem, this`order, this`chains
      ensures Inv(hash, mem, order, chains, Flat(was, i + 1)) && OldTable(mem.cells, hash, power, gen, was, i + 1)
      ensures Contents() == old(Contents()) && |order| == |old(order)|
      ensures mem.power == old(mem.power) && mem.gen == old(mem.gen)
    {
      ChainRest(mem.cells, hash, power, gen, was, i);
      var cur := InTable(gen, i);
      var next := mem.cells[cur].hashNext;
      assert was[i][0..] == was[i];
      MoveNode(cur, power, gen, was, i, 0);
      ghost var j: nat := 1;
      while next != Null
        invariant j <= |was[i]| && next == (if j < |was[i]| then was[i][j] else Null)
        invariant Inv(hash, mem, order, chains, was[i][j..] + Flat(was, i + 1))
        invariant mem.power == old(mem.power) && mem.gen == gen + 1
        invariant RestOf(mem.cells, was[i], j) && OldTable(mem.cells, hash, power, gen, was, i + 1)
        invariant Contents() == old(Contents()) && |order| == |old(order)|
        decreases |was[i]| - j
      {
        cur := next;
        assert RestAt(mem.cells, was[i], j);
        next := mem.cells[cur].hashNext;
        MoveNode(cur, power, gen, was, i, j);
        j := j + 1;
      }
      RestEnds(mem.cells, was[i], j, Flat(was, i + 1));
    }

    method MoveBucket(ghost power: nat, gen: nat, i: nat, ghost was: seq<seq<Ptr>>)
      requires Inv(hash, mem, order, chains, Flat(was, i)) && mem.gen == gen + 1
      requires i < |was| && OldTable(mem.cells, hash, power, gen, was, i)
      modifies this`mem, this`order, this`chains
      ensures Inv(hash, mem, order, chains, Flat(was, i + 1)) && OldTable(mem.cells, hash, power, gen, was, i + 1)
      ensures Contents() == old(Contents()) && |order| == |old(order)|
      ensures mem.power == old(mem.power) && mem.gen == old(mem.gen)
    {
      assert ChainOk(mem.cells, hash, power, gen, i, was[i]);
      assert was[i] != [] ==> NodeOk(mem.cells, hash, power, i, was[i], 0);
      if mem.cells[InTable(gen, i)].size == 0 {
        assert [] + Flat(was, i + 1) == Flat(was, i + 1);
      } else {
        MoveChain(power, gen, i, was);
      }
    }

    /** _chained_hashtable_expand: addresses change, the cached objects and their order do not. */
    method Expand()
      requires Inv(hash, mem, order, chains, [])
      modifies this`mem, this`order, this`chains
      ensures Inv(hash, mem, order, chains, [])
      ensures Contents() == old(Contents()) && |order| == |old(order)| && mem.power == old(mem.power) + 1
    {
      var power, gen := mem.power, mem.gen;
      ghost var was := chains;
      AllocatedInv(hash, mem, order, chains);
      OldTableStarts(hash, mem, chains, Allocated(mem));
      mem := Allocated(mem);
      chains := seq(Pow2(mem.power), _ => []);
      for i := 0 to Pow2(power)
        invariant Inv(hash, mem, order, chains, Flat(was, i)) && OldTable(mem.cells, hash, power, gen, was, i)
        invariant Contents() == old(Contents()) && |order| == |old(order)|
        invariant mem.power == power + 1 && mem.gen == gen + 1
      {
        MoveBucket(power, gen, i, was);
      }
      WithoutTableInv(hash, mem, order, chains, gen, Pow2(power));
      mem := WithoutTable(mem, gen, Pow2(power));
    }

    /** The object o is in the table at p, and p is ready for the list. */
    twostate predicate Added(p: Ptr, o: Obj)
      reads this
    {
      && Linked(mem.links, order, mem.head, mem.tail) && TableInv(hash, mem, NodeSet(order) + {p}, chains, [])
      && p !in order && p != Null && p in mem.links && mem.links[p] == Link(Null, Null) && Entry(mem.cells, p) == o
      && Contents() == old(Contents()) && |order| == |old(order)|
    }

    /** The table entry of the bucket is free. */
    method InsertInSlot(o: Obj, b: nat) returns (p: Ptr)
      requires Inv(hash, mem, order, chains, []) && !Cached(Contents(), o.id) && o.size > 0
      requires b == BucketOf(hash, mem.power, o.id) && b < |chains| && chains[b] == []
      modifies this`mem, this`chains
      ensures Added(p, o) && mem.power == old(mem.power)
    {
      p := InTable(mem.gen, b);
      assert ChainOk(mem.cells, hash, mem.power, mem.gen, b, chains[b]);
      NoSuchId(hash, mem, order, chains, o.id);
      EmptyNotNode(hash, mem, NodeSet(order), chains, [], b);
      NodeSetHas(order, p);
      InsertedInv(hash, mem, NodeSet(order), chains, p, o, mem.singles, b);
      InsertedOthers(mem, order, chains[b], p, o, mem.singles);
      assert mem.links[p := Link(Null, Null)] == mem.links;
      mem := mem.(cells := mem.cells[p := mem.cells[p].(id := o.id, size := o.size)]);
      chains := chains[b := chains[b] + [p]];
    }

    /** The object goes to a new node at the end of the chain. */
    method InsertAtEnd(o: Obj, b: nat) returns (p: Ptr)
      requires Inv(hash, mem, order, chains, []) && !Cached(Contents(), o.id) && o.size > 0
      requires b == BucketOf(hash, mem.power, o.id) && b < |chains| && chains[b] != []
      modifies this`mem, this`chains
      ensures Added(p, o) && mem.power == old(mem.power)
    {
      var last := LastInBucket(b);
      p := Single(mem.singles);
      NoSuchId(hash, mem, order, chains, o.id);
      FreshIsNew(hash, mem, order, chains, [], b);
      NodeSetHas(order, p);
      InsertedInv(hash, mem, NodeSet(order), chains, p, o, mem.singles + 1, b);
      InsertedOthers(mem, order, chains[b], p, o, mem.singles + 1);
      mem := mem.(links := mem.links[p := Link(Null, Null)], singles := mem.singles + 1,
                  cells := mem.cells[last := mem.cells[last].(hashNext := p)][p := Cell(o.id, o.size, Null)]);
      chains := chains[b := chains[b] + [p]];
    }

    /** chained_hashtable_insert, which may expand the table first. */
    method HashtableInsert(o: Obj) returns (p: Ptr)
      requires Inv(hash, mem, order, chains, []) && !Cached(Contents(), o.id) && o.size > 0
      modifies this`mem, this`order, this`chains, this`items
      ensures Added(p, o) && items == old(items) + 1
      ensures mem.power == old(mem.power) + if 5 * old(items) > 4 * Pow2(old(mem.power)) then 1 else 0
    {
      if items > Pow2(mem.power) * 4 / 5 {
        Expand();
      }
      var b := BucketOf(hash, mem.power, o.id);
      LowBound(hash(o.id), mem.power);
      assert ChainOk(mem.cells, hash, mem.power, mem.gen, b, chains[b]);
      assert chains[b] != [] ==> NodeOk(mem.cells, hash, mem.power, b, chains[b], 0);
      if mem.cells[InTable(mem.gen, b)].size == 0 {
        p := InsertInSlot(o, b);
      } else {
        p := InsertAtEnd(o, b);
      }
      items := items + 1;
    }

    /** delete_obj_in_table. */
    method DetachFromList(p: Ptr)
      requires Neighboured(mem.links, p)
      modifies this`mem
      ensures mem == Detached(old(mem), p)
    {
      var link := mem.links[p];
      if link.prev != Null {
        mem := mem.(links := SetNext(mem.links, link.prev, link.next));
      }
      if link.next != Null {
        mem := mem.(links := SetPrev(mem.links, link.next, link.prev));
      }
      mem := mem.(head := Monitored(mem.head, Null, p), tail := Monitored(mem.tail, Null, p));
    }

    /** chained_hashtable_delete on the first node of a chain: the second one, if any, takes its place. */
    method DeleteFirst(p: Ptr, b: nat)
      requires Table(mem.cells, hash, mem.power, mem.gen, chains) && Removable(mem, chains, b, 0) && chains[b][0] == p
      modifies this`mem, this`chains
      ensures mem == Deleted(old(mem), old(chains[b]), 0) && chains == old(chains)[b := DeletedChain(old(chains[b]), 0)]
    {
      assert ChainOk(mem.cells, hash, mem.power, mem.gen, b, chains[b]);
      assert NodeOk(mem.cells, hash, mem.power, b, chains[b], 0);
      NextIsNode(mem.cells, hash, mem.power, mem.gen, b, chains[b], 0);
      if mem.cells[p].hashNext != Null {
        var second := mem.cells[p].hashNext;
        mem := mem.(links := Relocated(mem.links, p, second), cells := mem.cells[p := mem.cells[second]],
                    head := Monitored(mem.head, p, second), tail := Monitored(mem.tail, p, second));
        mem := mem.(links := mem.links - {second}, cells := mem.cells - {second});
      } else {
        DetachFromList(p);
        mem := mem.(links := mem.links[p := Link(Null, Null)], cells := mem.cells[p := Zero]);
      }
      chains := chains[b := DeletedChain(chains[b], 0)];
    }

    /** chained_hashtable_delete on a later node: walk to it, bypass it and free it. */
    method DeleteLater(p: Ptr, b: nat, ghost k: nat)
      requires Table(mem.cells, hash, mem.power, mem.gen, chains) && Removable(mem, chains, b, k) && k > 0 && chains[b][k] == p
      modifies this`mem, this`chains
      ensures mem == Deleted(old(mem), old(chains[b]), k) && chains == old(chains)[b := DeletedChain(old(chains[b]), k)]
    {
      ghost var chain := chains[b];
      assert ChainOk(mem.cells, hash, mem.power, mem.gen, b, chain);
      var prev, cur := Null, InTable(mem.gen, b);
      ghost var j: nat := 0;
      while cur != p
        invariant j <= k && cur == chain[j] && (j > 0 ==> prev == chain[j - 1])
        decreases k - j
      {
        assert NodeOk(mem.cells, hash, mem.power, b, chain, j);
        prev := cur;
        cur := mem.cells[cur].hashNext;
        j := j + 1;
      }
      DetachFromList(p);
      mem := mem.(cells := mem.cells[prev := mem.cells[prev].(hashNext := mem.cells[p].hashNext)]);
      mem := mem.(links := mem.links - {p}, cells := mem.cells - {p});
      chains := chains[b := DeletedChain(chain, k)];
    }

    /** The chain walk of chained_hashtable_delete, whatever the list is like. */
    method DeleteNode(p: Ptr) returns (ghost b: nat, ghost k: nat)
      requires Linked(mem.links, order, mem.head, mem.tail) && Neighboured(mem.links, p)
      requires TableInv(hash, mem, NodeSet(order) + {p}, chains, [])
      modifies this`mem, this`chains
      ensures Removable(old(mem), old(chains), b, k) && old(chains[b])[k] == p
      ensures mem == Deleted(old(mem), old(chains[b]), k) && chains == old(chains)[b := DeletedChain(old(chains[b]), k)]
    {
      assert MemberOk(hash, mem, chains, [], p);
      var bucket := BucketOf(hash, mem.power, mem.cells[p].id);
      b := bucket;
      k := CanRemove(hash, mem, order, chains, bucket, p);
      assert ChainOk(mem.cells, hash, mem.power, mem.gen, b, chains[b]);
      assert NodeOk(mem.cells, hash, mem.power, b, chains[b], k);
      if p == InTable(mem.gen, bucket) {
        DeleteFirst(p, bucket);
      } else {
        DeleteLater(p, bucket, k);
      }
    }

    /** chained_hashtable_delete. A node that has been taken off the list leaves it as it is. For a node
        that is still on it, the table is right in any case, and the list exactly when the node is bridged. */
    method HashtableDelete(p: Ptr) returns (ghost nodes: set<Ptr>)
      requires Linked(mem.links, order, mem.head, mem.tail) && items > 0
      requires TableInv(hash, mem, NodeSet(order) + {p}, chains, []) && (p in order || Loose(mem, p))
      modifies this`mem, this`order, this`chains, this`items
      ensures items == old(items) - 1
      ensures p !in old(order) ==>
                Inv(hash, mem, order, chains, []) && Contents() == old(Contents()) && |order| == |old(order)|
      ensures p in old(order) ==> TableInv(hash, mem, nodes, chains, [])
      ensures p in old(order) ==>
                p in old(mem.cells) && Ids(mem.cells, nodes) == old(Ids(mem.cells, NodeSet(order))) - {old(mem.cells)[p].id}
      ensures forall i: nat :: i < |old(order)| && old(order)[i] == p ==>
                if StaysListed(old(mem), |old(order)|, i, p)
                then Inv(hash, mem, order, chains, []) && Contents() == Skipping(old(Contents()), i)
                else NoList(mem, nodes)
    {
      ghost var m, was := mem, chains;
      items := items - 1;
      ghost var i: nat := 0;
      if p in order {
        i :| i < |order| && order[i] == p;
        LinkedNeighboured(mem.links, order, mem.head, mem.tail, i);
      }
      var b, k := DeleteNode(p);
      nodes := NodeSet(order) - {Vacated(was[b], k)};
      if p in order {
        NodeSetHas(order, p);
        assert NodeSet(order) + {p} == NodeSet(order);
        DeletedListed(hash, m, order, was, b, k, i);
        if StaysListed(m, |order|, i, p) {
          order := Skipping(order, i);
        }
      } else {
        DeletedLoose(hash, m, order, was, b, k);
        order := OrderAfter(order, was[b], k);
      }
    }

    // -------------------------------------------------------------------------
    // The cache
    // -------------------------------------------------------------------------

    /** LRU_check with update_cache: a hit takes the size of the request and moves to the tail. */
    method Check(o: Obj) returns (hit: bool)
      requires Valid() && o.size > 0
      modifies this`mem, this`order, this`occupied
      ensures Valid() && hit == Cached(old(Contents()), o.id)
      ensures Contents() == if hit then Touched(old(Contents()), o) else old(Contents())
    {
      var p := Find(o.id);
      if p == Null {
        return false;
      }
      ghost var i: nat :| i < |order| && order[i] == p;
      PositionOf(hash, mem, order, chains, i);
      TotalTouched(Contents(), o);
      TotalWithout(Contents(), i);
      if mem.cells[p].size != o.size {
        occupied := occupied - mem.cells[p].size;
        occupied := occupied + o.size;
      }
      Refresh(p, o, i);
      return true;
    }

    /** Take the size of the request and move to the tail. */
    method Refresh(p: Ptr, o: Obj, ghost i: nat)
      requires Inv(hash, mem, order, chains, []) && i < |order| && order[i] == p && p in mem.cells && mem.cells[p].id == o.id
      requires o.size > 0 && Position(Contents(), o.id) == i
      modifies this`mem, this`order
      ensures Inv(hash, mem, order, chains, []) && Contents() == Touched(old(Contents()), o) && |order| == |old(order)|
    {
      ResizedInv(hash, mem, order, chains, i, o.size);
      mem := mem.(cells := mem.cells[p := mem.cells[p].(size := o.size)]);
      MovableToTail(mem.links, order, mem.head, mem.tail, i);
      RotatedInv(hash, mem, order, chains, i);
      var l := MovedToTail(mem.links, mem.head, mem.tail, p);
      mem := mem.(links := l.links, head := l.head, tail := l.tail);
      RotatedEntries(old(mem.cells), mem.cells, order, i, o);
      order := Rotated(order, i);
    }

    /** cache_insert_LRU. */
    method Insert(o: Obj)
      requires Valid() && o.size > 0 && !Cached(Contents(), o.id)
      modifies this
      ensures Valid() && Contents() == old(Contents()) + [o]
    {
      TotalConcat(Contents(), [o]);
      TotalOne(o);
      occupied := occupied + o.size;
      var p := HashtableInsert(o);
      objects := objects + 1;
      AppendedLinked(mem.links, order, mem.head, mem.tail, p);
      AppendedInv(hash, mem, order, chains, p);
      if mem.head == Null {
        mem := mem.(head := p, tail := p);
      } else {
        mem := mem.(links := SetPrev(SetNext(mem.links, mem.tail, p), p, mem.tail));
      }
      mem := mem.(tail := p);
      EntriesAppend(mem.cells, order, p);
      order := order + [p];
    }

    /** cache_evict: the least recently used object goes. It must not be the only one. */
    method Evict()
      requires Valid() && |Contents()| >= 2
      modifies this
      ensures Valid() && Contents() == old(Contents())[1..]
    {
      HeadDroppedLinked(mem.links, order, mem.head, mem.tail);
      HeadDroppedInv(hash, mem, order, chains);
      var p := mem.head;
      ghost var contents := Contents();
      objects := objects - 1;
      mem := mem.(head := mem.links[p].next, links := HeadDropped(mem.links, p));
      order := order[1..];
      assert Contents() == contents[1..];
      occupied := occupied - mem.cells[p].size;
      UnlinkedIsLoose(mem, order, p);
      var _ := HashtableDelete(p);
    }

    /** LRU_get: the request does to the contents what the specification says, and the eviction loop
        never runs out of objects. */
    method Get(o: Obj) returns (hit: bool)
      requires Valid() && o.size > 0
      modifies this
      ensures Valid() && hit == Cached(old(Contents()), o.id)
      ensures Contents() == Requested(old(Contents()), capacity, o)
    {
      hit := Check(o);
      if o.size <= capacity {
        if !hit {
          Insert(o);
        }
        Shrink(o);
      }
    }

    /** The eviction loop of cache_get: the last object is the one requested, and it fits alone. */
    method Shrink(ghost o: Obj)
      requires Valid() && Contents() != [] && Contents()[|Contents()| - 1] == o && o.size <= capacity
      modifies this
      ensures Valid() && Contents() == Trimmed(old(Contents()), capacity)
    {
      while occupied > capacity
        invariant Valid() && Contents() != [] && Contents()[|Contents()| - 1] == o
        invariant Trimmed(Contents(), capacity) == Trimmed(old(Contents()), capacity)
        decreases |Contents()|
      {
        LastDoesNotFit(Contents(), capacity);
        Evict();
      }
    }
  }

  // ---------------------------------------------------------------------------
  // Facts behind the methods
  // ---------------------------------------------------------------------------

  function EmptyMemory(power: nat): Memory {
    Memory(map p | p in Slots(0, Pow2(power)) :: Link(Null, Null), map p | p in Slots(0, Pow2(power)) :: Zero,
           Null, Null, power, 0, 0)
  }

  lemma EmptyMemoryInv(hash: nat -> nat, power: nat)
    ensures Inv(hash, EmptyMemory(power), [], seq(Pow2(power), _ => []), [])
  {
    var m := EmptyMemory(power);
    forall b: nat {:trigger InTable(m.gen, b)} | b < Pow2(power)
      ensures InTable(m.gen, b) in m.cells && m.cells[InTable(m.gen, b)] == Zero
      ensures InTable(m.gen, b) in m.links && m.links[InTable(m.gen, b)] == Link(Null, Null)
    {
    }
    EmptyTable(m.cells, hash, power, 0);
    assert m.links.Keys == m.cells.Keys;
  }

  /** No node of the bucket has the identifier, so no node has. */
  lemma NotFound(hash: nat -> nat, m: Memory, order: seq<Ptr>, chains: seq<seq<Ptr>>, id: nat)
    requires Inv(hash, m, order, chains, []) && BucketOf(hash, m.power, id) < |chains|
    requires forall p :: p in chains[BucketOf(hash, m.power, id)] && p in m.cells ==> m.cells[p].id != id
    ensures !Cached(Entries(m.cells, order), id)
  {
    var s := Entries(m.cells, order);
    forall i | 0 <= i < |s|
      ensures s[i].id != id
    {
      NodeSetHas(order, order[i]);
      assert MemberOk(hash, m, chains, [], order[i]);
    }
  }

  lemma FoundMeansCached(cells: Cells, order: seq<Ptr>, p: Ptr, id: nat)
    requires p in order && p in cells && cells[p].id == id
    ensures Cached(Entries(cells, order), id)
  {
    var i: nat :| i < |order| && order[i] == p;
    assert Entries(cells, order)[i].id == id;
  }

  /** Where p is on its chain, and what its deletion needs. */
  lemma CanRemove(hash: nat -> nat, m: Memory, order: seq<Ptr>, chains: seq<seq<Ptr>>, b: nat, p: Ptr) returns (k: nat)
    requires Linked(m.links, order, m.head, m.tail) && TableInv(hash, m, NodeSet(order) + {p}, chains, [])
    requires OnChain(chains, b, p) && Neighboured(m.links, p)
    ensures Removable(m, chains, b, k) && chains[b][k] == p
  {
    var chain := chains[b];
    k :| k < |chain| && chain[k] == p;
    assert ChainOk(m.cells, hash, m.power, m.gen, b, chain);
    assert NodeOk(m.cells, hash, m.power, b, chain, k);
    assert k > 0 ==> NodeOk(m.cells, hash, m.power, b, chain, k - 1);
    if k == 0 && |chain| > 1 {
      assert NodeOk(m.cells, hash, m.power, b, chain, 1) && OnChain(chains, b, chain[1]);
      NodeSetHas(order, chain[1]);
      var i: nat :| i < |order| && order[i] == chain[1];
      LinkedNeighboured(m.links, order, m.head, m.tail, i);
    }
  }

  /** Deleting the listed node p, at position i of n, keeps the list: it is inside the list or alone, and
      it is not a table entry with a successor. */
  predicate StaysListed(m: Memory, n: nat, i: nat, p: Ptr)
    requires p in m.cells
  {
    Inside(n, i) && (!p.InTable? || m.cells[p].hashNext == Null)
  }

  lemma StaysIsBridged(hash: nat -> nat, m: Memory, order: seq<Ptr>, chains: seq<seq<Ptr>>, b: nat, k: nat, i: nat)
    requires Inv(hash, m, order, chains, []) && Removable(m, chains, b, k) && i < |order| && order[i] == chains[b][k]
    ensures StaysListed(m, |order|, i, order[i]) <==> Bridged(|order|, i, chains[b], k)
  {
    assert ChainOk(m.cells, hash, m.power, m.gen, b, chains[b]);
    assert NodeOk(m.cells, hash, m.power, b, chains[b], k);
    NextIsNode(m.cells, hash, m.power, m.gen, b, chains[b], k);
  }

  /** A listed node is deleted. */
  lemma DeletedListed(hash: nat -> nat, m: Memory, order: seq<Ptr>, chains: seq<seq<Ptr>>, b: nat, k: nat, i: nat)
    requires Inv(hash, m, order, chains, []) && Removable(m, chains, b, k) && i < |order| && order[i] == chains[b][k]
    ensures var m', nodes := Deleted(m, chains[b], k), NodeSet(order) - {Vacated(chains[b], k)};
            var chains' := chains[b := DeletedChain(chains[b], k)];
            && TableInv(hash, m', nodes, chains', [])
            && Ids(m'.cells, nodes) == Ids(m.cells, NodeSet(order)) - {m.cells[order[i]].id}
            && if StaysListed(m, |order|, i, order[i])
               then Inv(hash, m', Skipping(order, i), chains', []) &&
                    Entries(m'.cells, Skipping(order, i)) == Skipping(Entries(m.cells, order), i)
               else NoList(m', nodes)
  {
    DeletedTable(hash, m, order, chains, b, k, i);
    DeletedIds(hash, m, order, chains, b, k, i);
    StaysIsBridged(hash, m, order, chains, b, k, i);
    if Bridged(|order|, i, chains[b], k) {
      DeletedBridged(hash, m, order, chains, b, k, i);
    } else {
      DeletedUnbridged(hash, m, order, chains, b, k, i);
    }
  }

  lemma ChainNotNull(cells: Cells, hash: nat -> nat, power: nat, gen: nat, b: nat, chain: seq<Ptr>)
    requires ChainOk(cells, hash, power, gen, b, chain)
    ensures Null !in chain
  {
    forall i: nat | i < |chain|
      ensures chain[i] != Null
    {
      assert NodeOk(cells, hash, power, b, chain, i);
    }
  }

  lemma NextIsNode(cells: Cells, hash: nat -> nat, power: nat, gen: nat, b: nat, chain: seq<Ptr>, i: nat)
    requires ChainOk(cells, hash, power, gen, b, chain) && i < |chain| && NodeOk(cells, hash, power, b, chain, i)
    ensures cells[chain[i]].hashNext == Null <==> i == |chain| - 1
  {
    ChainNotNull(cells, hash, power, gen, b, chain);
    assert i + 1 < |chain| ==> chain[i + 1] in chain;
  }

  /** A pending node is not an entry of the current table. */
  lemma PendingElsewhere(hash: nat -> nat, m: Memory, nodes: set<Ptr>, chains: seq<seq<Ptr>>, pending: seq<Ptr>, p: Ptr)
    requires TableInv(hash, m, nodes, chains, [p] + pending)
    ensures !(p.InTable? && p.gen == m.gen) && p !in pending
    ensures forall q :: q in pending ==> q in m.cells && !(q.InTable? && q.gen == m.gen)
  {
    var all := [p] + pending;
    assert all[0] == p && forall j :: 0 <= j < |pending| ==> all[j + 1] == pending[j];
    assert p in all;
    forall q | q in pending
      ensures q in m.cells && !(q.InTable? && q.gen == m.gen)
    {
      assert q in all;
      assert MemberOk(hash, m, chains, all, q);
    }
  }

  /** The last node of a bucket is a node of the current table: neither pending nor in an old table. */
  lemma LastOutside(hash: nat -> nat, m: Memory, nodes: set<Ptr>, chains: seq<seq<Ptr>>, pending: seq<Ptr>, p: Ptr, b: nat)
    requires TableInv(hash, m, nodes, chains, [p] + pending) && b < |chains| && chains[b] != []
    ensures var last := chains[b][|chains[b]| - 1]; last !in pending && last != p && !(last.InTable? && last.gen != m.gen)
  {
    var last := chains[b][|chains[b]| - 1];
    assert OnChain(chains, b, last);
    MemberOf(m.cells, hash, m.power, m.gen, chains, b, last);
    assert p in [p] + pending && forall q :: q in pending ==> q in [p] + pending;
  }

  lemma FreshIsNew(hash: nat -> nat, m: Memory, order: seq<Ptr>, chains: seq<seq<Ptr>>, pending: seq<Ptr>, b: nat)
    requires Inv(hash, m, order, chains, pending) && b < |chains|
    ensures Single(m.singles) !in m.cells && Single(m.singles) !in order && Single(m.singles) !in chains[b]
  {
    var d := Single(m.singles);
    assert !Known(m, d);
    NodesInMemory(hash, m, NodeSet(order), chains, pending);
    NodeSetHas(order, d);
    assert d in chains[b] ==> OnChain(chains, b, d);
  }

  /** Pending nodes and the entries of old tables keep their cells. */
  ghost predicate UntouchedCells(m: Memory, m': Memory, pending: seq<Ptr>) {
    forall q :: q in m.cells && (q in pending || (q.InTable? && q.gen != m.gen)) ==> q in m'.cells && m'.cells[q] == m.cells[q]
  }

  lemma NothingFreed(links: Links, cells: Cells)
    ensures links - {} == links && cells - {} == cells
  {
  }

  /** The free table entry of its bucket is a place for a pending node. */
  lemma SlotIsHome(hash: nat -> nat, m: Memory, order: seq<Ptr>, chains: seq<seq<Ptr>>, pending: seq<Ptr>, p: Ptr, b: nat)
    requires Inv(hash, m, order, chains, [p] + pending) && b < |chains| && chains[b] == []
    ensures HomeOk(m, order, b, chains, p, InTable(m.gen, b), if p.InTable? then {} else {p}, m.singles)
    ensures InTable(m.gen, b) in m.cells
  {
    EmptyNotNode(hash, m, NodeSet(order), chains, [p] + pending, b);
    NodeSetHas(order, InTable(m.gen, b));
    PendingElsewhere(hash, m, NodeSet(order), chains, pending, p);
    assert ChainOk(m.cells, hash, m.power, m.gen, b, chains[b]);
  }

  lemma RehomedOthers(m: Memory, chain: seq<Ptr>, p: Ptr, d: Ptr, freed: set<Ptr>, singles: nat, pending: seq<Ptr>)
    requires p in m.cells && Neighboured(m.links, p) && (chain == [] || chain[|chain| - 1] in m.cells)
    requires freed <= {p} && p !in pending && (p in freed ==> p.Single?) && !(p.InTable? && p.gen == m.gen)
    requires d !in m.cells || (d.InTable? && d.gen == m.gen)
    requires forall q :: q in pending ==> q in m.cells && !(q.InTable? && q.gen == m.gen)
    requires chain != [] ==> var last := chain[|chain| - 1]; last !in pending && !(last.InTable? && last.gen != m.gen)
    ensures UntouchedCells(m, Rehomed(m, chain, p, d, freed, singles), pending)
  {
    var cells' := Rehomed(m, chain, p, d, freed, singles).cells;
    forall q | q in m.cells && (q in pending || (q.InTable? && q.gen != m.gen))
      ensures q in cells' && cells'[q] == m.cells[q]
    {
      RehomedCell(m, chain, p, d, freed, singles, q);
    }
  }

  lemma RelinkedOthers(m: Memory, chain: seq<Ptr>, p: Ptr, pending: seq<Ptr>)
    requires p in m.cells && chain != [] && chain[|chain| - 1] in m.cells && p.Single? && p !in pending
    requires var last := chain[|chain| - 1]; last !in pending && !(last.InTable? && last.gen != m.gen)
    ensures UntouchedCells(m, Relinked(m, chain, p), pending)
  {
  }

  // ---------------------------------------------------------------------------
  // Expansion
  // ---------------------------------------------------------------------------

  /** The chains of the old table from bucket i on are as they were. */
  ghost predicate OldTable(cells: Cells, hash: nat -> nat, power: nat, gen: nat, was: seq<seq<Ptr>>, i: nat) {
    forall b: nat {:trigger ChainOk(cells, hash, power, gen, b, was[b])} ::
      i <= b < |was| ==> ChainOk(cells, hash, power, gen, b, was[b])
  }

  ghost predicate RestAt(cells: Cells, chain: seq<Ptr>, k: nat)
    requires k < |chain|
  {
    chain[k] in cells && chain[k].Single? && cells[chain[k]].hashNext == Behind(chain, k)
  }

  /** The nodes of a chain from j on are single nodes linked by hash_next. */
  ghost predicate RestOf(cells: Cells, chain: seq<Ptr>, j: nat) {
    forall k: nat {:trigger RestAt(cells, chain, k)} :: j <= k < |chain| ==> RestAt(cells, chain, k)
  }

  lemma OldTableStarts(hash: nat -> nat, m: Memory, was: seq<seq<Ptr>>, m': Memory)
    requires Table(m.cells, hash, m.power, m.gen, was)
    requires forall p :: p in m.cells ==> p in m'.cells && m'.cells[p] == m.cells[p]
    ensures OldTable(m'.cells, hash, m.power, m.gen, was, 0)
  {
    forall b: nat {:trigger ChainOk(m'.cells, hash, m.power, m.gen, b, was[b])} | b < |was|
      ensures ChainOk(m'.cells, hash, m.power, m.gen, b, was[b])
    {
      assert ChainOk(m.cells, hash, m.power, m.gen, b, was[b]);
      ChainInMemory(m.cells, hash, m.power, m.gen, b, was[b]);
      ChainFrame(m.cells, m'.cells, hash, m.power, m.gen, b, was[b]);
    }
  }

  lemma ChainRest(cells: Cells, hash: nat -> nat, power: nat, gen: nat, was: seq<seq<Ptr>>, i: nat)
    requires OldTable(cells, hash, power, gen, was, i) && i < |was| && was[i] != []
    ensures RestOf(cells, was[i], 1) && InTable(gen, i) in cells && was[i][0] == InTable(gen, i)
    ensures cells[InTable(gen, i)].hashNext == if |was[i]| > 1 then was[i][1] else Null
    ensures OldTable(cells, hash, power, gen, was, i + 1)
  {
    assert ChainOk(cells, hash, power, gen, i, was[i]);
    assert NodeOk(cells, hash, power, i, was[i], 0);
    forall k: nat {:trigger RestAt(cells, was[i], k)} | 1 <= k < |was[i]|
      ensures RestAt(cells, was[i], k)
    {
      assert NodeOk(cells, hash, power, i, was[i], k);
    }
  }

  /** Moving a node leaves the rest of its chain and the later chains alone. */
  lemma StillOld(hash: nat -> nat, m: Memory, m': Memory, power: nat, gen: nat, was: seq<seq<Ptr>>, i: nat, chain: seq<Ptr>, j: nat)
    requires j <= |chain| && UntouchedCells(m, m', chain[j..] + Flat(was, i + 1)) && m.gen != gen
    requires RestOf(m.cells, chain, j)
    requires OldTable(m.cells, hash, power, gen, was, i + 1)
    ensures RestOf(m'.cells, chain, j) && OldTable(m'.cells, hash, power, gen, was, i + 1)
  {
    var pending := chain[j..] + Flat(was, i + 1);
    forall k: nat {:trigger RestAt(m'.cells, chain, k)} | j <= k < |chain|
      ensures RestAt(m'.cells, chain, k)
    {
      assert RestAt(m.cells, chain, k);
      assert pending[k - j] == chain[k];
    }
    forall b: nat {:trigger ChainOk(m'.cells, hash, power, gen, b, was[b])} | i + 1 <= b < |was|
      ensures ChainOk(m'.cells, hash, power, gen, b, was[b])
    {
      assert ChainOk(m.cells, hash, power, gen, b, was[b]);
      ChainInMemory(m.cells, hash, power, gen, b, was[b]);
      forall p | p in was[b]
        ensures p in pending
      {
        assert OnChain(was, b, p);
        FlatHas(was, i + 1, b, p);
      }
      ChainFrame(m.cells, m'.cells, hash, power, gen, b, was[b]);
    }
  }

  lemma RestEnds(cells: Cells, chain: seq<Ptr>, j: nat, rest: seq<Ptr>)
    requires j <= |chain| && RestOf(cells, chain, j)
    ensures if j < |chain| then chain[j] != Null else chain[j..] + rest == rest
  {
    if j < |chain| {
      assert RestAt(cells, chain, j);
    }
  }

  // ---------------------------------------------------------------------------
  // Insertion
  // ---------------------------------------------------------------------------

  lemma NoSuchId(hash: nat -> nat, m: Memory, order: seq<Ptr>, chains: seq<seq<Ptr>>, id: nat)
    requires Inv(hash, m, order, chains, []) && !Cached(Entries(m.cells, order), id)
    ensures forall p :: p in NodeSet(order) && p in m.cells ==> m.cells[p].id != id
  {
    forall p | p in NodeSet(order) && p in m.cells
      ensures m.cells[p].id != id
    {
      NodeSetHas(order, p);
      if m.cells[p].id == id {
        FoundMeansCached(m.cells, order, p, id);
      }
    }
  }

  /** The list and the cached objects do not notice the new node. */
  lemma InsertedOthers(m: Memory, order: seq<Ptr>, chain: seq<Ptr>, d: Ptr, o: Obj, singles: nat)
    requires Linked(m.links, order, m.head, m.tail) && d !in order && (chain == [] || chain[|chain| - 1] in m.cells)
    requires m.links.Keys == m.cells.Keys
    ensures var m' := Inserted(m, chain, d, o, singles);
            Linked(m'.links, order, m.head, m.tail) && Entries(m'.cells, order) == Entries(m.cells, order)
  {
    var m' := Inserted(m, chain, d, o, singles);
    LinkedFrame(m.links, m'.links, order, m.head, m.tail);
    forall i | 0 <= i < |order|
      ensures Entry(m'.cells, order[i]) == Entry(m.cells, order[i])
    {
      assert LinkAt(m.links, order, i);
      InsertedCell(m, chain, d, o, singles, order[i]);
    }
    EntriesSame(m.cells, m'.cells, order, order);
  }

  /** Changing the links of list nodes only, and not the set of addresses, keeps the table. */
  lemma RelinkedListInv(hash: nat -> nat, m: Memory, m': Memory, nodes: set<Ptr>, chains: seq<seq<Ptr>>)
    requires TableInv(hash, m, nodes, chains, []) && m'.cells == m.cells && m'.power == m.power && m'.gen == m.gen
    requires m'.singles == m.singles && m'.links.Keys == m.links.Keys
    requires forall p :: p in m.links && p !in nodes ==> p in m'.links && m'.links[p] == m.links[p]
    ensures TableInv(hash, m', nodes, chains, [])
  {
    forall b: nat {:trigger chains[b]} | b < |chains| && chains[b] == []
      ensures InTable(m.gen, b) in m'.links && m'.links[InTable(m.gen, b)] == Link(Null, Null)
    {
      EmptyNotNode(hash, m, nodes, chains, [], b);
    }
    forall p {:trigger MemberOk(hash, m', chains, [], p)} | p in nodes
      ensures MemberOk(hash, m', chains, [], p)
    {
      assert MemberOk(hash, m, chains, [], p);
    }
    forall p {:trigger Known(m', p)} | p in m'.cells
      ensures Known(m', p)
    {
      assert Known(m, p);
    }
  }

  lemma AppendedInv(hash: nat -> nat, m: Memory, order: seq<Ptr>, chains: seq<seq<Ptr>>, p: Ptr)
    requires Linked(m.links, order, m.head, m.tail) && TableInv(hash, m, NodeSet(order) + {p}, chains, [])
    requires p !in order && p != Null && p in m.links && m.links[p] == Link(Null, Null) && (m.tail == Null || m.tail in m.links)
    ensures var m' := m.(links := Appended(m.links, m.tail, p), head := if m.head == Null then p else m.head, tail := p);
            Inv(hash, m', order + [p], chains, [])
  {
    var m' := m.(links := Appended(m.links, m.tail, p), head := if m.head == Null then p else m.head, tail := p);
    AppendedLinked(m.links, order, m.head, m.tail, p);
    assert NodeSet(order + [p]) == NodeSet(order) + {p} by {
      forall q
        ensures q in NodeSet(order + [p]) <==> q in NodeSet(order) + {p}
      {
        NodeSetHas(order + [p], q);
        NodeSetHas(order, q);
      }
    }
    NodeSetHas(order, m.tail);
    RelinkedListInv(hash, m, m', NodeSet(order) + {p}, chains);
  }

  lemma EntriesAppend(cells: Cells, order: seq<Ptr>, p: Ptr)
    ensures Entries(cells, order + [p]) == Entries(cells, order) + [Entry(cells, p)]
  {
  }

  // ---------------------------------------------------------------------------
  // Eviction and hits
  // ---------------------------------------------------------------------------

  lemma HeadDroppedInv(hash: nat -> nat, m: Memory, order: seq<Ptr>, chains: seq<seq<Ptr>>)
    requires Inv(hash, m, order, chains, []) && |order| >= 2
    requires m.head in m.links && m.links[m.head].next in m.links && m.links[m.head].next == order[1]
    ensures var m' := m.(head := order[1], links := HeadDropped(m.links, m.head));
            && TableInv(hash, m', NodeSet(order[1..]) + {m.head}, chains, [])
            && m.head !in order[1..] && m.head in m'.cells && m'.links[m.head] == Link(Null, order[1])
            && Entries(m'.cells, order[1..]) == Entries(m.cells, order)[1..]
            && Entries(m.cells, order)[0] == Obj(m.cells[m.head].id, m.cells[m.head].size)
  {
    var m' := m.(head := order[1], links := HeadDropped(m.links, m.head));
    assert LinkAt(m.links, order, 0) && LinkAt(m.links, order, 1);
    assert NodeSet(order[1..]) + {m.head} == NodeSet(order) by {
      forall q
        ensures q in NodeSet(order[1..]) + {m.head} <==> q in NodeSet(order)
      {
        NodeSetHas(order[1..], q);
        NodeSetHas(order, q);
        assert order == [m.head] + order[1..];
      }
    }
    NodeSetHas(order, order[1]);
    RelinkedListInv(hash, m, m', NodeSet(order), chains);
  }

  /** Identifiers are unique, so a node's position on the list is that of its identifier. */
  lemma PositionOf(hash: nat -> nat, m: Memory, order: seq<Ptr>, chains: seq<seq<Ptr>>, i: nat)
    requires Inv(hash, m, order, chains, []) && i < |order|
    ensures order[i] in m.cells && Position(Entries(m.cells, order), m.cells[order[i]].id) == i
    ensures Entries(m.cells, order)[i].size == m.cells[order[i]].size
  {
    var s := Entries(m.cells, order);
    NodeSetHas(order, order[i]);
    assert MemberOk(hash, m, chains, [], order[i]);
    var j := Position(s, m.cells[order[i]].id);
    assert s[i].id == m.cells[order[i]].id;
    assert j <= i;
    NodeSetHas(order, order[j]);
    assert MemberOk(hash, m, chains, [], order[j]);
    assert m.cells[order[j]].id == m.cells[order[i]].id;
  }

  lemma ResizedTable(cells: Cells, cells': Cells, hash: nat -> nat, power: nat, gen: nat, chains: seq<seq<Ptr>>, p: Ptr, size: nat)
    requires Table(cells, hash, power, gen, chains) && p in cells && size > 0 && cells' == cells[p := cells[p].(size := size)]
    requires forall b: nat {:trigger chains[b]} :: b < |chains| && chains[b] == [] ==> p != InTable(gen, b)
    ensures Table(cells', hash, power, gen, chains)
  {
    forall b: nat {:trigger ChainOk(cells', hash, power, gen, b, chains[b])} | b < |chains|
      ensures ChainOk(cells', hash, power, gen, b, chains[b])
    {
      assert ChainOk(cells, hash, power, gen, b, chains[b]);
      forall i: nat {:trigger NodeOk(cells', hash, power, b, chains[b], i)} | i < |chains[b]|
        ensures NodeOk(cells', hash, power, b, chains[b], i)
      {
        assert NodeOk(cells, hash, power, b, chains[b], i);
      }
    }
  }

  lemma ResizedInv(hash: nat -> nat, m: Memory, order: seq<Ptr>, chains: seq<seq<Ptr>>, i: nat, size: nat)
    requires Inv(hash, m, order, chains, []) && i < |order| && order[i] in m.cells && size > 0
    ensures Inv(hash, m.(cells := m.cells[order[i] := m.cells[order[i]].(size := size)]), order, chains, [])
  {
    var p, nodes := order[i], NodeSet(order);
    var m' := m.(cells := m.cells[p := m.cells[p].(size := size)]);
    NodeSetHas(order, p);
    forall b: nat {:trigger chains[b]} | b < |chains| && chains[b] == []
      ensures p != InTable(m.gen, b)
    {
      EmptyNotNode(hash, m, nodes, chains, [], b);
    }
    ResizedTable(m.cells, m'.cells, hash, m.power, m.gen, chains, p, size);
    forall q {:trigger MemberOk(hash, m', chains, [], q)} | q in nodes
      ensures MemberOk(hash, m', chains, [], q)
    {
      assert MemberOk(hash, m, chains, [], q);
    }
    forall x, y {:trigger m'.cells[x], m'.cells[y]} | x in nodes && y in nodes && x in m'.cells && y in m'.cells && x != y
      ensures m'.cells[x].id != m'.cells[y].id
    {
      assert m.cells[x].id != m.cells[y].id;
    }
    forall q {:trigger Known(m', q)} | q in m'.cells
      ensures Known(m', q)
    {
      assert Known(m, q);
    }
  }

  lemma RotatedInv(hash: nat -> nat, m: Memory, order: seq<Ptr>, chains: seq<seq<Ptr>>, i: nat)
    requires Inv(hash, m, order, chains, []) && i < |order|
    requires order[i] in m.links && m.tail in m.links && Neighboured(m.links, order[i])
    requires order[i] != m.tail ==> m.links[order[i]].next in m.links
    requires order[i] != m.tail && order[i] != m.head ==> m.links[order[i]].prev in m.links
    ensures var l := MovedToTail(m.links, m.head, m.tail, order[i]);
            Inv(hash, m.(links := l.links, head := l.head, tail := l.tail), Rotated(order, i), chains, [])
  {
    var l := MovedToTail(m.links, m.head, m.tail, order[i]);
    var m' := m.(links := l.links, head := l.head, tail := l.tail);
    MovedToTailLinked(m.links, order, m.head, m.tail, i);
    assert NodeSet(Rotated(order, i)) == NodeSet(order) by {
      forall q
        ensures q in NodeSet(Rotated(order, i)) <==> q in NodeSet(order)
      {
        NodeSetHas(Rotated(order, i), q);
        NodeSetHas(order, q);
        RotatedHas(order, i, q);
      }
    }
    forall q | q !in NodeSet(order)
      ensures q in m.links ==> q in m'.links && m'.links[q] == m.links[q]
    {
      NodeSetHas(order, q);
      MovedToTailFrame(m.links, order, m.head, m.tail, i, q);
    }
    NodeSetHas(order, Null);
    RelinkedListInv(hash, m, m', NodeSet(order), chains);
  }

  lemma RotatedEntries(cells: Cells, cells': Cells, order: seq<Ptr>, i: nat, o: Obj)
    requires i < |order| && order[i] in cells && NoRepeats(order) && o.id == cells[order[i]].id
    requires cells' == cells[order[i] := cells[order[i]].(size := o.size)]
    requires Position(Entries(cells, order), o.id) == i
    ensures Entries(cells', Rotated(order, i)) == Touched(Entries(cells, order), o)
  {
    var s := Entries(cells, order);
    var r := Rotated(order, i);
    forall j | 0 <= j < |order|
      ensures Entry(cells', r[j]) == (s[..i] + s[i + 1..] + [o])[j]
    {
      assert r[j] == (if j < i then order[j] else if j < |order| - 1 then order[j + 1] else order[i]);
    }
  }

  /** When the objects do not fit there are at least two of them, since the last one fits alone. */
  lemma LastDoesNotFit(s: seq<Obj>, capacity: nat)
    requires s != [] && s[|s| - 1].size <= capacity
    ensures |s| >= 2 || Total(s) <= capacity
  {
    if |s| == 1 {
      assert s[1..] == [];
    }
  }
}
