/**
 The chains of the hash table of cache objects
 (CDNSimulator/libCacheSim/dataStructure/hashtable/chainedHashtable.c). The first node of a chain is
 baked into the table, the others are allocated one by one.
 */
module ChainedTable {
  import opened Sequences
  import opened Bits
  import opened LinkedNodes

  /** The part of a cache object that the hash table uses; size 0 marks an empty table entry. */
  datatype Cell = Cell(id: nat, size: nat, hashNext: Ptr)

  type Cells = map<Ptr, Cell>

  const Zero := Cell(0, 0, Null)

  function BucketOf(hash: nat -> nat, power: nat, id: nat): nat {
    Low(hash(id), power)
  }

  /** Node i of the chain of bucket b. */
  ghost predicate NodeOk(cells: Cells, hash: nat -> nat, power: nat, b: nat, chain: seq<Ptr>, i: nat)
    requires i < |chain|
  {
    && chain[i] in cells && cells[chain[i]].size > 0 && BucketOf(hash, power, cells[chain[i]].id) == b
    && cells[chain[i]].hashNext == Behind(chain, i)
    && (i > 0 ==> chain[i].Single?)
  }

  ghost predicate ChainOk(cells: Cells, hash: nat -> nat, power: nat, gen: nat, b: nat, chain: seq<Ptr>) {
    && InTable(gen, b) in cells
    && (chain == [] ==> cells[InTable(gen, b)] == Zero)
    && (chain != [] ==> chain[0] == InTable(gen, b))
    && NoRepeats(chain)
    && forall i: nat {:trigger NodeOk(cells, hash, power, b, chain, i)} ::
         i < |chain| ==> NodeOk(cells, hash, power, b, chain, i)
  }

  /** Every bucket of the table holds its chain. */
  ghost predicate Table(cells: Cells, hash: nat -> nat, power: nat, gen: nat, chains: seq<seq<Ptr>>) {
    && |chains| == Pow2(power)
    && forall b: nat {:trigger ChainOk(cells, hash, power, gen, b, chains[b])} ::
         b < |chains| ==> ChainOk(cells, hash, power, gen, b, chains[b])
  }

  /** A node of a chain belongs to the bucket of its identifier. */
  lemma MemberOf(cells: Cells, hash: nat -> nat, power: nat, gen: nat, chains: seq<seq<Ptr>>, b: nat, p: Ptr)
    requires Table(cells, hash, power, gen, chains) && b < |chains| && p in chains[b]
    ensures p in cells && cells[p].size > 0 && BucketOf(hash, power, cells[p].id) == b
    ensures p == InTable(gen, b) || p.Single?
  {
    var i: nat :| i < |chains[b]| && chains[b][i] == p;
    assert ChainOk(cells, hash, power, gen, b, chains[b]);
    assert NodeOk(cells, hash, power, b, chains[b], i);
  }

  ghost predicate OnChain(chains: seq<seq<Ptr>>, b: nat, p: Ptr) {
    b < |chains| && p in chains[b]
  }

  /** No bucket but b has p on its chain. */
  lemma OtherChain(cells: Cells, hash: nat -> nat, power: nat, gen: nat, chains: seq<seq<Ptr>>, b: nat, x: nat, p: Ptr)
    requires Table(cells, hash, power, gen, chains) && b < |chains| && p in chains[b] && x < |chains| && x != b
    ensures p !in chains[x] && p != InTable(gen, x)
  {
    MemberOf(cells, hash, power, gen, chains, b, p);
    if p in chains[x] {
      MemberOf(cells, hash, power, gen, chains, x, p);
    }
  }

  // ---------------------------------------------------------------------------
  // Linking a node to the end of a chain
  // ---------------------------------------------------------------------------

  /** Write c at p and link p to the end of the chain; an empty chain takes p itself as its first node. */
  function LinkedIn(cells: Cells, chain: seq<Ptr>, p: Ptr, c: Cell): Cells
    requires chain == [] || chain[|chain| - 1] in cells
  {
    (if chain == [] then cells
     else cells[chain[|chain| - 1] := cells[chain[|chain| - 1]].(hashNext := p)])[p := c]
  }

  /** p can become the last node of the chain of bucket b. */
  ghost predicate Attachable(gen: nat, b: nat, chain: seq<Ptr>, p: Ptr) {
    p !in chain && if chain == [] then p == InTable(gen, b) else p.Single?
  }

  lemma LinkedInChain(cells: Cells, hash: nat -> nat, power: nat, gen: nat, b: nat, chain: seq<Ptr>, p: Ptr, c: Cell)
    requires ChainOk(cells, hash, power, gen, b, chain) && Attachable(gen, b, chain, p)
    requires c.size > 0 && c.hashNext == Null && BucketOf(hash, power, c.id) == b
    ensures chain == [] || chain[|chain| - 1] in cells
    ensures ChainOk(LinkedIn(cells, chain, p, c), hash, power, gen, b, chain + [p])
  {
    if chain != [] {
      assert NodeOk(cells, hash, power, b, chain, |chain| - 1);
      assert NodeOk(cells, hash, power, b, chain, 0);
    }
    var cells', chain' := LinkedIn(cells, chain, p, c), chain + [p];
    forall i: nat {:trigger NodeOk(cells', hash, power, b, chain', i)} | i < |chain'|
      ensures NodeOk(cells', hash, power, b, chain', i)
    {
      assert i < |chain| ==> NodeOk(cells, hash, power, b, chain, i);
    }
  }

  /** Changing cells off a chain does not matter to it. */
  lemma ChainFrame(cells: Cells, cells': Cells, hash: nat -> nat, power: nat, gen: nat, b: nat, chain: seq<Ptr>)
    requires ChainOk(cells, hash, power, gen, b, chain)
    requires forall p :: p in chain || p == InTable(gen, b) ==> p in cells && p in cells' && cells'[p] == cells[p]
    ensures ChainOk(cells', hash, power, gen, b, chain)
  {
    forall i: nat {:trigger NodeOk(cells', hash, power, b, chain, i)} | i < |chain|
      ensures NodeOk(cells', hash, power, b, chain, i)
    {
      assert NodeOk(cells, hash, power, b, chain, i);
    }
  }

  lemma ChainInMemory(cells: Cells, hash: nat -> nat, power: nat, gen: nat, b: nat, chain: seq<Ptr>)
    requires ChainOk(cells, hash, power, gen, b, chain)
    ensures forall p :: p in chain || p == InTable(gen, b) ==> p in cells
  {
    forall p | p in chain
      ensures p in cells
    {
      var i: nat :| i < |chain| && chain[i] == p;
      assert NodeOk(cells, hash, power, b, chain, i);
    }
  }

  /** Bucket b gets a new chain; the cells of the other chains are as before. */
  lemma TableUpdate(cells: Cells, cells': Cells, hash: nat -> nat, power: nat, gen: nat, chains: seq<seq<Ptr>>,
                    b: nat, chain: seq<Ptr>)
    requires Table(cells, hash, power, gen, chains) && b < |chains| && ChainOk(cells', hash, power, gen, b, chain)
    requires forall x: nat, p {:trigger OnChain(chains, x, p)} ::
               OnChain(chains, x, p) && x != b ==> p in cells && p in cells' && cells'[p] == cells[p]
    requires forall x: nat {:trigger InTable(gen, x)} :: x < |chains| && x != b && InTable(gen, x) in cells ==>
               InTable(gen, x) in cells' && cells'[InTable(gen, x)] == cells[InTable(gen, x)]
    ensures Table(cells', hash, power, gen, chains[b := chain])
  {
    var chains' := chains[b := chain];
    forall x: nat {:trigger ChainOk(cells', hash, power, gen, x, chains'[x])} | x < |chains'|
      ensures ChainOk(cells', hash, power, gen, x, chains'[x])
    {
      if x != b {
        assert ChainOk(cells, hash, power, gen, x, chains[x]);
        assert forall p :: p in chains[x] ==> OnChain(chains, x, p);
        ChainFrame(cells, cells', hash, power, gen, x, chains[x]);
      }
    }
  }

  /** Linking a node that is on no chain to the end of the chain of bucket b. */
  lemma LinkedInTable(cells: Cells, hash: nat -> nat, power: nat, gen: nat, chains: seq<seq<Ptr>>, b: nat, p: Ptr, c: Cell)
    requires Table(cells, hash, power, gen, chains) && b < |chains| && Attachable(gen, b, chains[b], p)
    requires forall x: nat {:trigger OnChain(chains, x, p)} :: !OnChain(chains, x, p)
    requires c.size > 0 && c.hashNext == Null && BucketOf(hash, power, c.id) == b
    ensures chains[b] == [] || chains[b][|chains[b]| - 1] in cells
    ensures Table(LinkedIn(cells, chains[b], p, c), hash, power, gen, chains[b := chains[b] + [p]])
  {
    assert ChainOk(cells, hash, power, gen, b, chains[b]);
    LinkedInChain(cells, hash, power, gen, b, chains[b], p, c);
    var cells' := LinkedIn(cells, chains[b], p, c);
    forall x: nat, q {:trigger OnChain(chains, x, q)} | OnChain(chains, x, q) && x != b
      ensures q in cells && q in cells' && cells'[q] == cells[q]
    {
      MemberOf(cells, hash, power, gen, chains, x, q);
      if q in chains[b] {
        MemberOf(cells, hash, power, gen, chains, b, q);
      }
    }
    forall x: nat {:trigger InTable(gen, x)} | x < |chains| && x != b && InTable(gen, x) in cells
      ensures InTable(gen, x) in cells' && cells'[InTable(gen, x)] == cells[InTable(gen, x)]
    {
      if InTable(gen, x) in chains[b] {
        MemberOf(cells, hash, power, gen, chains, b, InTable(gen, x));
      }
    }
    TableUpdate(cells, cells', hash, power, gen, chains, b, chains[b] + [p]);
  }

  /** Memory that is neither on a chain nor a table entry can be freed. */
  lemma FreedTable(cells: Cells, hash: nat -> nat, power: nat, gen: nat, chains: seq<seq<Ptr>>, freed: set<Ptr>)
    requires Table(cells, hash, power, gen, chains)
    requires forall x: nat, p {:trigger OnChain(chains, x, p)} :: OnChain(chains, x, p) ==> p !in freed
    requires forall x: nat {:trigger InTable(gen, x)} :: x < |chains| ==> InTable(gen, x) !in freed
    ensures Table(cells - freed, hash, power, gen, chains)
  {
    forall x: nat {:trigger ChainOk(cells - freed, hash, power, gen, x, chains[x])} | x < |chains|
      ensures ChainOk(cells - freed, hash, power, gen, x, chains[x])
    {
      assert ChainOk(cells, hash, power, gen, x, chains[x]);
      ChainInMemory(cells, hash, power, gen, x, chains[x]);
      assert forall p :: p in chains[x] ==> OnChain(chains, x, p);
      ChainFrame(cells, cells - freed, hash, power, gen, x, chains[x]);
    }
  }

  // ---------------------------------------------------------------------------
  // Deleting a node
  // ---------------------------------------------------------------------------

  /** The second node of a chain moves into the table entry of the deleted first one. */
  lemma PulledUpChain(cells: Cells, hash: nat -> nat, power: nat, gen: nat, b: nat, chain: seq<Ptr>)
    requires ChainOk(cells, hash, power, gen, b, chain) && |chain| >= 2
    ensures chain[1] in cells
    ensures ChainOk(cells[chain[0] := cells[chain[1]]] - {chain[1]}, hash, power, gen, b, [chain[0]] + chain[2..])
  {
    assert NodeOk(cells, hash, power, b, chain, 1) && NodeOk(cells, hash, power, b, chain, 0);
    var cells', chain' := cells[chain[0] := cells[chain[1]]] - {chain[1]}, [chain[0]] + chain[2..];
    forall i: nat {:trigger NodeOk(cells', hash, power, b, chain', i)} | i < |chain'|
      ensures NodeOk(cells', hash, power, b, chain', i)
    {
      assert NodeOk(cells, hash, power, b, chain, if i == 0 then 0 else i + 1);
    }
  }

  lemma EmptiedChain(cells: Cells, hash: nat -> nat, power: nat, gen: nat, b: nat)
    ensures ChainOk(cells[InTable(gen, b) := Zero], hash, power, gen, b, [])
  {
  }

  function Bypassed(cells: Cells, prev: Ptr, p: Ptr): Cells
    requires prev in cells && p in cells
  {
    cells[prev := cells[prev].(hashNext := cells[p].hashNext)] - {p}
  }

  /** A later node of a chain is bypassed and freed. */
  lemma BypassedChain(cells: Cells, hash: nat -> nat, power: nat, gen: nat, b: nat, chain: seq<Ptr>, j: nat)
    requires ChainOk(cells, hash, power, gen, b, chain) && 0 < j < |chain|
    ensures chain[j - 1] in cells && chain[j] in cells
    ensures ChainOk(Bypassed(cells, chain[j - 1], chain[j]), hash, power, gen, b, chain[..j] + chain[j + 1..])
  {
    assert NodeOk(cells, hash, power, b, chain, j - 1) && NodeOk(cells, hash, power, b, chain, j);
    assert NodeOk(cells, hash, power, b, chain, 0);
    var cells', chain' := Bypassed(cells, chain[j - 1], chain[j]), chain[..j] + chain[j + 1..];
    forall i: nat {:trigger NodeOk(cells', hash, power, b, chain', i)} | i < |chain'|
      ensures NodeOk(cells', hash, power, b, chain', i)
    {
      assert NodeOk(cells, hash, power, b, chain, if i < j then i else i + 1);
    }
  }

  /** Only nodes of the chain of bucket b, and its table entry, change. */
  lemma OnlyChain(cells: Cells, cells': Cells, hash: nat -> nat, power: nat, gen: nat, chains: seq<seq<Ptr>>,
                  b: nat, chain: seq<Ptr>)
    requires Table(cells, hash, power, gen, chains) && b < |chains| && ChainOk(cells', hash, power, gen, b, chain)
    requires forall p :: p in cells && p !in chains[b] ==> p in cells' && cells'[p] == cells[p]
    ensures Table(cells', hash, power, gen, chains[b := chain])
  {
    forall x: nat, q {:trigger OnChain(chains, x, q)} | OnChain(chains, x, q) && x != b
      ensures q in cells && q in cells' && cells'[q] == cells[q]
    {
      MemberOf(cells, hash, power, gen, chains, x, q);
      if q in chains[b] {
        MemberOf(cells, hash, power, gen, chains, b, q);
      }
    }
    forall x: nat {:trigger InTable(gen, x)} | x < |chains| && x != b && InTable(gen, x) in cells
      ensures InTable(gen, x) in cells' && cells'[InTable(gen, x)] == cells[InTable(gen, x)]
    {
      if InTable(gen, x) in chains[b] {
        MemberOf(cells, hash, power, gen, chains, b, InTable(gen, x));
      }
    }
    TableUpdate(cells, cells', hash, power, gen, chains, b, chain);
  }

  /** A table of empty entries. */
  lemma EmptyTable(cells: Cells, hash: nat -> nat, power: nat, gen: nat)
    requires forall b: nat {:trigger InTable(gen, b)} :: b < Pow2(power) ==> InTable(gen, b) in cells && cells[InTable(gen, b)] == Zero
    ensures Table(cells, hash, power, gen, seq(Pow2(power), _ => []))
  {
  }
}
