/**
 Splay trees as they are in memory (CDNSimulator/libCacheSim/dataStructure/splay.c): rotations and links
 are writes to the fields of nodes, and the two assembly trees hang below a dummy node. A node is
 addressed by its key, which is its own and never changes.
 */
module SplayInPlace {
  import opened SplayTree

  datatype Ptr = Null | To(key: int)

  datatype Cell = Cell(size: int, left: Ptr, right: Ptr)

  type Cells = map<int, Cell>

  function RootOf(t: Tree): Ptr {
    if t.Leaf? then Null else To(t.key)
  }

  /** The nodes of a tree. */
  ghost function KeySet(t: Tree): set<int> {
    if t.Leaf? then {} else KeySet(t.left) + {t.key} + KeySet(t.right)
  }

  /** No node occurs twice. */
  ghost predicate Once(t: Tree) {
    t.Node? ==>
      && t.key !in KeySet(t.left) && t.key !in KeySet(t.right) && KeySet(t.left) !! KeySet(t.right)
      && Once(t.left) && Once(t.right)
  }

  /** The memory holds the tree. */
  ghost predicate Holds(cells: Cells, t: Tree) {
    t.Node? ==>
      && t.key in cells && cells[t.key] == Cell(t.size, RootOf(t.left), RootOf(t.right))
      && Holds(cells, t.left) && Holds(cells, t.right)
  }

  /** The memories agree on the nodes given. */
  ghost predicate SameOn(cells: Cells, cells': Cells, keys: set<int>) {
    forall k {:trigger k in keys} :: k in keys && k in cells ==> k in cells' && cells'[k] == cells[k]
  }

  lemma {:induction false} HoldsFrame(cells: Cells, cells': Cells, t: Tree)
    requires Holds(cells, t) && SameOn(cells, cells', KeySet(t))
    ensures Holds(cells', t)
  {
    if t.Node? {
      HoldsFrame(cells, cells', t.left);
      HoldsFrame(cells, cells', t.right);
    }
  }

  lemma {:induction false} KeySetHas(t: Tree, k: int)
    ensures k in KeySet(t) <==> k in Keys(t)
  {
    if t.Node? {
      KeySetHas(t.left, k);
      KeySetHas(t.right, k);
    }
  }

  /** A search tree has no node twice. */
  lemma {:induction false} SortedApart(t: Tree)
    requires Sorted(Keys(t))
    ensures Once(t)
  {
    if t.Node? {
      SortedNode(t);
      SortedApart(t.left);
      SortedApart(t.right);
      forall k
        ensures k in KeySet(t.left) ==> k < t.key
        ensures k in KeySet(t.right) ==> k > t.key
      {
        KeySetHas(t.left, k);
        KeySetHas(t.right, k);
      }
    }
  }

  // ---------------------------------------------------------------------------
  // Assembly trees
  // ---------------------------------------------------------------------------

  /** The left assembly tree grows on the right of its innermost node, the right one on the left. */
  datatype Side = L | R

  function Outer(c: Cell, s: Side): Ptr {
    if s.L? then c.left else c.right
  }

  function Inner(c: Cell, s: Side): Ptr {
    if s.L? then c.right else c.left
  }

  function WithInner(c: Cell, s: Side, p: Ptr): Cell {
    if s.L? then c.(right := p) else c.(left := p)
  }

  ghost function FrameSet(f: Frame): set<int> {
    KeySet(f.sub) + {f.key}
  }

  ghost predicate FrameHeld(cells: Cells, fs: seq<Frame>, s: Side, j: nat)
    requires j < |fs|
  {
    var f := fs[j];
    && f.key in cells && Outer(cells[f.key], s) == RootOf(f.sub) && cells[f.key].size == f.size && Holds(cells, f.sub)
    && (j + 1 < |fs| ==> Inner(cells[f.key], s) == To(fs[j + 1].key))
  }

  function FirstOf(fs: seq<Frame>): Ptr {
    if fs == [] then Null else To(fs[0].key)
  }

  function LastOf(fs: seq<Frame>): Ptr {
    if fs == [] then Null else To(fs[|fs| - 1].key)
  }

  /** The memory holds the nodes of an assembly tree from the outermost to the innermost. */
  ghost predicate Hung(cells: Cells, fs: seq<Frame>, s: Side) {
    forall j: nat {:trigger FrameHeld(cells, fs, s, j)} :: j < |fs| ==> FrameHeld(cells, fs, s, j)
  }

  ghost predicate FramesApart(fs: seq<Frame>) {
    && (forall j: nat {:trigger fs[j]} :: j < |fs| ==> Once(fs[j].sub) && fs[j].key !in KeySet(fs[j].sub))
    && (forall i: nat, j: nat {:trigger fs[i], fs[j]} :: i < j < |fs| ==> FrameSet(fs[i]) !! FrameSet(fs[j]))
  }

  /** None of the nodes given is in the assembly tree. */
  ghost predicate Clear(fs: seq<Frame>, keys: set<int>) {
    forall j: nat {:trigger fs[j]} :: j < |fs| ==> FrameSet(fs[j]) !! keys
  }

  ghost predicate Disjoint(fs: seq<Frame>, gs: seq<Frame>) {
    forall i: nat, j: nat {:trigger fs[i], gs[j]} :: i < |fs| && j < |gs| ==> FrameSet(fs[i]) !! FrameSet(gs[j])
  }

  lemma HungFrame(cells: Cells, cells': Cells, fs: seq<Frame>, s: Side, keys: set<int>)
    requires Hung(cells, fs, s) && Clear(fs, keys)
    requires forall k :: k in cells && k !in keys ==> k in cells' && cells'[k] == cells[k]
    ensures Hung(cells', fs, s)
  {
    forall j: nat {:trigger FrameHeld(cells', fs, s, j)} | j < |fs|
      ensures FrameHeld(cells', fs, s, j)
    {
      assert FrameHeld(cells, fs, s, j) && fs[j].key in FrameSet(fs[j]);
      assert KeySet(fs[j].sub) <= FrameSet(fs[j]);
      HoldsFrame(cells, cells', fs[j].sub);
    }
  }

  /** Where p->inner = v goes: into the innermost node, or into the dummy when there is none. */
  function Hooked(cells: Cells, last: Ptr, s: Side, v: Ptr): Cells
    requires last == Null || last.key in cells
  {
    if last == Null then cells else cells[last.key := WithInner(cells[last.key], s, v)]
  }

  /** Writing the inner field of the innermost node. */
  lemma HookedHung(cells: Cells, fs: seq<Frame>, s: Side, v: Ptr)
    requires Hung(cells, fs, s) && FramesApart(fs)
    ensures LastOf(fs) == Null || LastOf(fs).key in cells
    ensures Hung(Hooked(cells, LastOf(fs), s, v), fs, s)
    ensures fs != [] ==> Inner(Hooked(cells, LastOf(fs), s, v)[fs[|fs| - 1].key], s) == v
  {
    if fs != [] {
      var n := |fs| - 1;
      assert FrameHeld(cells, fs, s, n);
      var cells' := Hooked(cells, LastOf(fs), s, v);
      forall j: nat {:trigger FrameHeld(cells', fs, s, j)} | j < |fs|
        ensures FrameHeld(cells', fs, s, j)
      {
        assert FrameHeld(cells, fs, s, j);
        assert j < n ==> fs[n].key in FrameSet(fs[n]) && fs[j].key in FrameSet(fs[j]);
        HoldsFrame(cells, cells', fs[j].sub);
      }
    }
  }

  /** The node of a tree, with its outer subtree, becomes the innermost node. */
  lemma PushHung(cells: Cells, fs: seq<Frame>, s: Side, f: Frame)
    requires Hung(cells, fs, s) && FrameHeld(cells, [f], s, 0)
    requires fs != [] ==> fs[|fs| - 1].key in cells && Inner(cells[fs[|fs| - 1].key], s) == To(f.key)
    ensures Hung(cells, fs + [f], s)
  {
    var gs := fs + [f];
    forall j: nat {:trigger FrameHeld(cells, gs, s, j)} | j < |gs|
      ensures FrameHeld(cells, gs, s, j)
    {
      assert j < |fs| ==> FrameHeld(cells, fs, s, j);
    }
  }

  // ---------------------------------------------------------------------------
  // The steps of the main loop
  // ---------------------------------------------------------------------------

  ghost predicate ZipApart(z: Zip) {
    && Once(z.t) && FramesApart(z.left) && FramesApart(z.right)
    && Clear(z.left, KeySet(z.t)) && Clear(z.right, KeySet(z.t)) && Disjoint(z.left, z.right)
  }

  /** The memory holds the current tree and both assembly trees, which share no node. */
  ghost predicate Split(cells: Cells, z: Zip) {
    z.t.Node? && Holds(cells, z.t) && Hung(cells, z.left, L) && Hung(cells, z.right, R) && ZipApart(z)
  }

  /** All nodes are among the ones given. */
  ghost predicate Among(z: Zip, nodes: set<int>) {
    && KeySet(z.t) <= nodes
    && (forall j: nat {:trigger z.left[j]} :: j < |z.left| ==> FrameSet(z.left[j]) <= nodes)
    && (forall j: nat {:trigger z.right[j]} :: j < |z.right| ==> FrameSet(z.right[j]) <= nodes)
  }

  lemma RotateApart(t: Tree)
    requires t.Node? && Once(t)
    ensures t.left.Node? ==> Once(RotateRight(t)) && KeySet(RotateRight(t)) == KeySet(t)
    ensures t.right.Node? ==> Once(RotateLeft(t)) && KeySet(RotateLeft(t)) == KeySet(t)
  {
  }

  /** The writes of a rotation to the right, in order. */
  function RotatedRight(cells: Cells, t: Tree): Cells
    requires t.Node? && t.left.Node? && t.key in cells && t.left.key in cells && t.key != t.left.key
  {
    var y := t.left;
    var c1 := cells[t.key := cells[t.key].(left := cells[y.key].right)];
    var c2 := c1[y.key := c1[y.key].(right := To(t.key))];
    c2[t.key := c2[t.key].(size := SizeOf(y.right) + SizeOf(t.right) + 1)]
  }

  function RotatedLeft(cells: Cells, t: Tree): Cells
    requires t.Node? && t.right.Node? && t.key in cells && t.right.key in cells && t.key != t.right.key
  {
    var y := t.right;
    var c1 := cells[t.key := cells[t.key].(right := cells[y.key].left)];
    var c2 := c1[y.key := c1[y.key].(left := To(t.key))];
    c2[t.key := c2[t.key].(size := SizeOf(t.left) + SizeOf(y.left) + 1)]
  }

  lemma RotatedRightHolds(cells: Cells, t: Tree)
    requires t.Node? && t.left.Node? && Holds(cells, t) && Once(t)
    ensures t.key in cells && t.left.key in cells && t.key != t.left.key
    ensures Holds(RotatedRight(cells, t), RotateRight(t))
  {
    var cells', y := RotatedRight(cells, t), t.left;
    HoldsFrame(cells, cells', y.left);
    HoldsFrame(cells, cells', y.right);
    HoldsFrame(cells, cells', t.right);
  }

  lemma RotatedLeftHolds(cells: Cells, t: Tree)
    requires t.Node? && t.right.Node? && Holds(cells, t) && Once(t)
    ensures t.key in cells && t.right.key in cells && t.key != t.right.key
    ensures Holds(RotatedLeft(cells, t), RotateLeft(t))
  {
    var cells', y := RotatedLeft(cells, t), t.right;
    HoldsFrame(cells, cells', y.left);
    HoldsFrame(cells, cells', y.right);
    HoldsFrame(cells, cells', t.left);
  }

  lemma RotatedRightSplit(cells: Cells, z: Zip)
    requires Split(cells, z) && z.t.left.Node?
    ensures z.t.key in cells && z.t.left.key in cells && z.t.key != z.t.left.key
    ensures Split(RotatedRight(cells, z.t), z.(t := RotateRight(z.t))) && KeySet(RotateRight(z.t)) == KeySet(z.t)
  {
    RotateApart(z.t);
    RotatedRightHolds(cells, z.t);
    HungFrame(cells, RotatedRight(cells, z.t), z.left, L, KeySet(z.t));
    HungFrame(cells, RotatedRight(cells, z.t), z.right, R, KeySet(z.t));
  }

  lemma RotatedLeftSplit(cells: Cells, z: Zip)
    requires Split(cells, z) && z.t.right.Node?
    ensures z.t.key in cells && z.t.right.key in cells && z.t.key != z.t.right.key
    ensures Split(RotatedLeft(cells, z.t), z.(t := RotateLeft(z.t))) && KeySet(RotateLeft(z.t)) == KeySet(z.t)
  {
    RotateApart(z.t);
    RotatedLeftHolds(cells, z.t);
    HungFrame(cells, RotatedLeft(cells, z.t), z.left, L, KeySet(z.t));
    HungFrame(cells, RotatedLeft(cells, z.t), z.right, R, KeySet(z.t));
  }

  /** A frame that is taken from the current tree fits on either assembly tree. */
  lemma PushApart(fs: seq<Frame>, gs: seq<Frame>, f: Frame, keys: set<int>)
    requires FramesApart(fs) && Clear(fs, keys) && FrameSet(f) <= keys && Once(f.sub) && f.key !in KeySet(f.sub)
    requires Clear(gs, keys) && Disjoint(fs, gs)
    ensures FramesApart(fs + [f]) && Disjoint(fs + [f], gs) && Disjoint(gs, fs + [f])
  {
  }

  lemma LinkApart(z: Zip)
    requires z.t.Node? && ZipApart(z)
    ensures ZipApart(LinkRight(z)) && ZipApart(LinkLeft(z))
  {
    var f, g := Frame(z.t.key, z.t.size, z.t.right), Frame(z.t.key, z.t.size, z.t.left);
    assert Disjoint(z.right, z.left);
    PushApart(z.right, z.left, f, KeySet(z.t));
    PushApart(z.left, z.right, g, KeySet(z.t));
    assert KeySet(z.t.left) <= KeySet(z.t) && KeySet(z.t.right) <= KeySet(z.t);
  }

  /** Writing into the innermost node of an assembly tree touches nothing else. */
  lemma HookedElsewhere(cells: Cells, z: Zip, s: Side, v: Ptr)
    requires Split(cells, z)
    ensures var last := LastOf(if s.L? then z.left else z.right); last == Null || last.key in cells
    ensures var fs := if s.L? then z.left else z.right;
            var cells' := Hooked(cells, LastOf(fs), s, v);
            Split(cells', z) && (fs != [] ==> fs[|fs| - 1].key in cells' && Inner(cells'[fs[|fs| - 1].key], s) == v)
  {
    var fs, gs := if s.L? then z.left else z.right, if s.L? then z.right else z.left;
    HookedHung(cells, fs, s, v);
    if fs != [] {
      var k := fs[|fs| - 1].key;
      assert k in FrameSet(fs[|fs| - 1]);
      HungFrame(cells, Hooked(cells, LastOf(fs), s, v), gs, if s.L? then R else L, {k});
      HoldsFrame(cells, Hooked(cells, LastOf(fs), s, v), z.t);
    }
  }

  lemma LinkRightSplit(cells: Cells, z: Zip)
    requires Split(cells, z) && z.t.left.Node?
    ensures LastOf(z.right) == Null || LastOf(z.right).key in cells
    ensures Split(Hooked(cells, LastOf(z.right), R, To(z.t.key)), LinkRight(z))
  {
    HookedElsewhere(cells, z, R, To(z.t.key));
    PushHung(Hooked(cells, LastOf(z.right), R, To(z.t.key)), z.right, R, Frame(z.t.key, z.t.size, z.t.right));
    LinkApart(z);
  }

  lemma LinkLeftSplit(cells: Cells, z: Zip)
    requires Split(cells, z) && z.t.right.Node?
    ensures LastOf(z.left) == Null || LastOf(z.left).key in cells
    ensures Split(Hooked(cells, LastOf(z.left), L, To(z.t.key)), LinkLeft(z))
  {
    HookedElsewhere(cells, z, L, To(z.t.key));
    PushHung(Hooked(cells, LastOf(z.left), L, To(z.t.key)), z.left, L, Frame(z.t.key, z.t.size, z.t.left));
    LinkApart(z);
  }

  // ---------------------------------------------------------------------------
  // Sizes along an inner path, and assembling
  // ---------------------------------------------------------------------------

  /** The inner path of an assembly tree is ended by NULL. */
  ghost predicate Ended(cells: Cells, fs: seq<Frame>, s: Side) {
    fs != [] ==> fs[|fs| - 1].key in cells && Inner(cells[fs[|fs| - 1].key], s) == Null
  }

  lemma ResizedEnded(cells: Cells, fs: seq<Frame>, s: Side, n: nat, size: int)
    requires Ended(cells, fs, s) && n < |fs| && fs[n].key in cells
    ensures Ended(cells[fs[n].key := cells[fs[n].key].(size := size)], fs[n := fs[n].(size := size)], s)
  {
  }

  lemma ResizedHung(cells: Cells, fs: seq<Frame>, s: Side, n: nat, size: int)
    requires Hung(cells, fs, s) && FramesApart(fs) && n < |fs|
    ensures fs[n].key in cells
    ensures var cells', fs' := cells[fs[n].key := cells[fs[n].key].(size := size)], fs[n := fs[n].(size := size)];
            Hung(cells', fs', s) && FramesApart(fs')
  {
    assert FrameHeld(cells, fs, s, n);
    var cells', fs' := cells[fs[n].key := cells[fs[n].key].(size := size)], fs[n := fs[n].(size := size)];
    forall j: nat {:trigger fs'[j]} | j < |fs'| ensures FrameSet(fs'[j]) == FrameSet(fs[j]) && fs'[j].key == fs[j].key && fs'[j].sub == fs[j].sub {}
    forall j: nat {:trigger FrameHeld(cells', fs', s, j)} | j < |fs'|
      ensures FrameHeld(cells', fs', s, j)
    {
      assert FrameHeld(cells, fs, s, j);
      assert fs[j].key in FrameSet(fs[j]) && fs[n].key in FrameSet(fs[n]);
      HoldsFrame(cells, cells', fs[j].sub);
    }
  }

  ghost function LinkedOn(s: Side, fs: seq<Frame>, inner: Tree): Tree {
    if s.L? then LinkedLeft(fs, inner) else LinkedRight(fs, inner)
  }

  /** An assembly tree whose innermost node points at inner is, in memory, the linked tree. */
  lemma {:induction false} HungHolds(cells: Cells, fs: seq<Frame>, s: Side, inner: Tree)
    requires Hung(cells, fs, s) && Holds(cells, inner)
    requires fs != [] ==> fs[|fs| - 1].key in cells && Inner(cells[fs[|fs| - 1].key], s) == RootOf(inner)
    ensures Holds(cells, LinkedOn(s, fs, inner))
    ensures RootOf(LinkedOn(s, fs, inner)) == if fs == [] then RootOf(inner) else FirstOf(fs)
    decreases |fs|
  {
    if fs != [] {
      var n := |fs| - 1;
      var f, gs := fs[n], fs[..n];
      assert FrameHeld(cells, fs, s, n) && (n > 0 ==> FrameHeld(cells, fs, s, n - 1));
      forall j: nat {:trigger FrameHeld(cells, gs, s, j)} | j < |gs|
        ensures FrameHeld(cells, gs, s, j)
      {
        assert FrameHeld(cells, fs, s, j);
      }
      HungHolds(cells, gs, s, if s.L? then Node(f.sub, f.key, f.size, inner) else Node(inner, f.key, f.size, f.sub));
    }
  }

  lemma {:induction false} LinkedSet(s: Side, fs: seq<Frame>, inner: Tree, keys: set<int>)
    requires Clear(fs, keys) && KeySet(inner) !! keys
    ensures KeySet(LinkedOn(s, fs, inner)) !! keys
    decreases |fs|
  {
    if fs != [] {
      var n := |fs| - 1;
      var f := fs[n];
      assert Clear(fs[..n], keys) && FrameSet(f) !! keys;
      LinkedSet(s, fs[..n], if s.L? then Node(f.sub, f.key, f.size, inner) else Node(inner, f.key, f.size, f.sub), keys);
    }
  }

  /** The memory outside the given nodes is untouched, and no node is lost. */
  ghost predicate Outside(cells: Cells, cells': Cells, nodes: set<int>) {
    cells'.Keys == cells.Keys && forall k {:trigger k in nodes} :: k in cells && k !in nodes ==> cells'[k] == cells[k]
  }

  function Value(cells: Cells, p: Ptr): int
    requires p == Null || p.key in cells
  {
    if p == Null then 0 else cells[p.key].size
  }

  lemma RootValue(cells: Cells, t: Tree)
    requires Holds(cells, t)
    ensures (RootOf(t) == Null || RootOf(t).key in cells) && Value(cells, RootOf(t)) == SizeOf(t)
  {
  }

  /** The inner path of an assembly tree while its sizes are corrected. */
  datatype Path = Path(before: seq<Frame>, fs: seq<Frame>, total: int)

  ghost predicate PathFixed(cells: Cells, p: Path, s: Side, j: nat) {
    && Fixed(p.before, p.fs, j, p.total) && Hung(cells, p.fs, s) && FramesApart(p.fs) && Ended(cells, p.fs, s)
    && FramesSized(p.before)
  }

  lemma SameKeys(cells: Cells, p: Path, s: Side, j: nat)
    requires PathFixed(cells, p, s, j) && j < |p.before|
    ensures p.fs[j].key == p.before[j].key && (j + 1 < |p.fs| ==> p.fs[j + 1].key == p.before[j + 1].key)
    ensures p.fs[j].key in PathKeys(p.before)
  {
  }

  lemma WeightNext(fs: seq<Frame>, j: nat)
    requires j < |fs|
    ensures Weight(fs[..j + 1]) == Weight(fs[..j]) + |Keys(fs[j].sub)| + 1
  {
    assert fs[..j + 1][..j] == fs[..j];
  }

  lemma FixedNext(before: seq<Frame>, fs: seq<Frame>, j: nat, total: int)
    requires Fixed(before, fs, j, total) && j < |fs|
    ensures Fixed(before, fs[j := fs[j].(size := total - Weight(before[..j]))], j + 1, total)
    ensures fs[j].key == before[j].key && fs[j].sub == before[j].sub && fs[|fs| - 1].key == before[|fs| - 1].key
  {
  }

  /** The local variables of splay: the current node, the innermost nodes of the assembly trees (NULL for
      the dummy node), the two fields of the dummy node and the sizes. */
  datatype Locals = Locals(t: int, l: Ptr, r: Ptr, nLeft: Ptr, nRight: Ptr, lSize: int, rSize: int)

  ghost predicate State(cells: Cells, z: Zip, v: Locals, nodes: set<int>) {
    && Split(cells, z) && v.t == z.t.key && v.l == LastOf(z.left) && v.r == LastOf(z.right)
    && v.nLeft == FirstOf(z.right) && v.nRight == FirstOf(z.left)
    && Weighed(z, v.lSize, v.rSize) && Among(z, nodes)
  }

  lemma LinkAmong(z: Zip, nodes: set<int>)
    requires z.t.Node? && Among(z, nodes)
    ensures Among(LinkRight(z), nodes) && Among(LinkLeft(z), nodes)
    ensures LastOf(z.left) == Null || LastOf(z.left).key in nodes
    ensures LastOf(z.right) == Null || LastOf(z.right).key in nodes
  {
    assert z.left != [] ==> z.left[|z.left| - 1].key in FrameSet(z.left[|z.left| - 1]);
    assert z.right != [] ==> z.right[|z.right| - 1].key in FrameSet(z.right[|z.right| - 1]);
  }

  /** Both assembly trees end in NULL. */
  ghost predicate Closed(cells: Cells, z: Zip) {
    Split(cells, z) && Ended(cells, z.left, L) && Ended(cells, z.right, R)
  }

  lemma RootSized(cells: Cells, z: Zip, total: int)
    requires Split(cells, z)
    ensures z.t.key in cells
    ensures Split(cells[z.t.key := cells[z.t.key].(size := total)], z.(t := z.t.(size := total)))
  {
    var cells' := cells[z.t.key := cells[z.t.key].(size := total)];
    HoldsFrame(cells, cells', z.t.left);
    HoldsFrame(cells, cells', z.t.right);
    HungFrame(cells, cells', z.left, L, KeySet(z.t));
    HungFrame(cells, cells', z.right, R, KeySet(z.t));
  }

  /** Ending the right assembly tree leaves the left one ended. */
  lemma EndedStays(cells: Cells, z: Zip)
    requires Split(cells, z) && Ended(cells, z.left, L) && (LastOf(z.right) == Null || LastOf(z.right).key in cells)
    ensures Ended(Hooked(cells, LastOf(z.right), R, Null), z.left, L)
  {
    if z.left != [] && z.right != [] {
      var f, g := z.left[|z.left| - 1], z.right[|z.right| - 1];
      assert f.key in FrameSet(f) && g.key in FrameSet(g);
    }
  }

  ghost function PathKeys(fs: seq<Frame>): set<int> {
    set j: nat | j < |fs| :: fs[j].key
  }

  lemma PathKeysAmong(z: Zip, nodes: set<int>)
    requires Among(z, nodes)
    ensures PathKeys(z.left) <= nodes && PathKeys(z.right) <= nodes
  {
    forall j: nat | j < |z.left| ensures z.left[j].key in nodes { assert z.left[j].key in FrameSet(z.left[j]); }
    forall j: nat | j < |z.right| ensures z.right[j].key in nodes { assert z.right[j].key in FrameSet(z.right[j]); }
  }

  lemma PathKeysClear(z: Zip)
    requires ZipApart(z)
    ensures Clear(z.left, PathKeys(z.right)) && Clear(z.right, PathKeys(z.left))
    ensures PathKeys(z.left) !! KeySet(z.t) && PathKeys(z.right) !! KeySet(z.t)
  {
    forall j: nat | j < |z.left| ensures z.left[j].key !in KeySet(z.t) { assert z.left[j].key in FrameSet(z.left[j]); }
    forall j: nat | j < |z.right| ensures z.right[j].key !in KeySet(z.t) { assert z.right[j].key in FrameSet(z.right[j]); }
    forall i: nat, j: nat | i < |z.left| && j < |z.right|
      ensures z.right[j].key !in FrameSet(z.left[i]) && z.left[i].key !in FrameSet(z.right[j])
    {
      assert z.left[i].key in FrameSet(z.left[i]) && z.right[j].key in FrameSet(z.right[j]);
    }
  }

  lemma EndedFrame(cells: Cells, cells': Cells, fs: seq<Frame>, s: Side, keys: set<int>)
    requires Ended(cells, fs, s) && Clear(fs, keys) && Outside(cells, cells', keys)
    ensures Ended(cells', fs, s)
  {
    assert fs != [] ==> fs[|fs| - 1].key in FrameSet(fs[|fs| - 1]);
  }

  lemma FixedSets(before: seq<Frame>, fs: seq<Frame>, total: int)
    requires Fixed(before, fs, |before|, total)
    ensures |fs| == |before| && forall j: nat {:trigger fs[j]} {:trigger before[j]} :: j < |fs| ==> FrameSet(fs[j]) == FrameSet(before[j])
  {
  }

  lemma FixedClear(before: seq<Frame>, fs: seq<Frame>, keys: set<int>)
    requires |fs| == |before| && forall j: nat {:trigger fs[j]} {:trigger before[j]} :: j < |fs| ==> FrameSet(fs[j]) == FrameSet(before[j])
    requires Clear(before, keys)
    ensures Clear(fs, keys)
  {
    forall j: nat {:trigger fs[j]} | j < |fs| ensures FrameSet(fs[j]) !! keys { assert FrameSet(before[j]) !! keys; }
  }

  lemma FixedApart(z: Zip, left: seq<Frame>, right: seq<Frame>)
    requires ZipApart(z) && FramesApart(left) && FramesApart(right)
    requires |left| == |z.left| && forall j: nat {:trigger left[j]} {:trigger z.left[j]} :: j < |left| ==> FrameSet(left[j]) == FrameSet(z.left[j])
    requires |right| == |z.right| && forall j: nat {:trigger right[j]} {:trigger z.right[j]} :: j < |right| ==> FrameSet(right[j]) == FrameSet(z.right[j])
    ensures ZipApart(Zip(z.t, left, right))
  {
    FixedClear(z.left, left, KeySet(z.t));
    FixedClear(z.right, right, KeySet(z.t));
    forall i: nat, j: nat {:trigger left[i], right[j]} | i < |left| && j < |right|
      ensures FrameSet(left[i]) !! FrameSet(right[j])
    {
      assert FrameSet(z.left[i]) !! FrameSet(z.right[j]);
    }
  }

  /** The tree that a root and two assembly trees make. */
  ghost function Joined(z: Zip): Tree
    requires z.t.Node?
  {
    Node(LinkedLeft(z.left, z.t.left), z.t.key, z.t.size, LinkedRight(z.right, z.t.right))
  }

  ghost predicate InnerIs(cells: Cells, fs: seq<Frame>, s: Side, p: Ptr) {
    fs != [] ==> fs[|fs| - 1].key in cells && Inner(cells[fs[|fs| - 1].key], s) == p
  }

  lemma LastIsOnPath(fs: seq<Frame>)
    ensures LastOf(fs) == Null || LastOf(fs).key in PathKeys(fs)
  {
  }

  lemma InnerStays(cells: Cells, z: Zip, p: Ptr)
    requires Split(cells, z) && InnerIs(cells, z.left, L, RootOf(z.t.left)) && (LastOf(z.right) == Null || LastOf(z.right).key in cells)
    ensures InnerIs(Hooked(cells, LastOf(z.right), R, p), z.left, L, RootOf(z.t.left))
  {
    if z.left != [] && z.right != [] {
      var f, g := z.left[|z.left| - 1], z.right[|z.right| - 1];
      assert f.key in FrameSet(f) && g.key in FrameSet(g);
    }
  }

  lemma JoinedHolds(cells: Cells, z: Zip)
    requires Split(cells, z) && InnerIs(cells, z.left, L, RootOf(z.t.left)) && InnerIs(cells, z.right, R, RootOf(z.t.right))
    ensures z.t.key in cells
    ensures var nRight := if z.left == [] then RootOf(z.t.left) else FirstOf(z.left);
            var nLeft := if z.right == [] then RootOf(z.t.right) else FirstOf(z.right);
            Holds(cells[z.t.key := Cell(z.t.size, nRight, nLeft)], Joined(z))
  {
    HungHolds(cells, z.left, L, z.t.left);
    HungHolds(cells, z.right, R, z.t.right);
    assert Clear(z.left, {z.t.key}) && Clear(z.right, {z.t.key});
    LinkedSet(L, z.left, z.t.left, {z.t.key});
    LinkedSet(R, z.right, z.t.right, {z.t.key});
    var cells' := cells[z.t.key := Cell(z.t.size, RootOf(Joined(z).left), RootOf(Joined(z).right))];
    HoldsFrame(cells, cells', Joined(z).left);
    HoldsFrame(cells, cells', Joined(z).right);
  }

  /** The inner paths are those of another state. */
  ghost predicate SamePaths(z: Zip, z': Zip) {
    && PathKeys(z'.left) == PathKeys(z.left) && FirstOf(z'.left) == FirstOf(z.left) && LastOf(z'.left) == LastOf(z.left)
    && PathKeys(z'.right) == PathKeys(z.right) && FirstOf(z'.right) == FirstOf(z.right) && LastOf(z'.right) == LastOf(z.right)
  }

  lemma FixedPath(before: seq<Frame>, fs: seq<Frame>, total: int)
    requires Fixed(before, fs, |before|, total)
    ensures PathKeys(fs) == PathKeys(before) && FirstOf(fs) == FirstOf(before) && LastOf(fs) == LastOf(before)
  {
  }

  /** A splayed search tree is made of the same nodes, each once. */
  lemma SplayedOnce(i: int, t: Tree)
    requires Sized(t) && Sorted(Keys(t))
    ensures Once(Splayed(i, t)) && KeySet(Splayed(i, t)) == KeySet(t) && Sized(Splayed(i, t)) && Sorted(Keys(Splayed(i, t)))
    ensures t.Node? ==> (Splayed(i, t).key == i <==> i in KeySet(t))
  {
    SplayedKeys(i, t);
    SortedApart(Splayed(i, t));
    forall k ensures k in KeySet(Splayed(i, t)) <==> k in KeySet(t) {
      KeySetHas(t, k);
      KeySetHas(Splayed(i, t), k);
    }
    if t.Node? {
      SplayedRoot(i, t);
      KeySetHas(t, i);
    }
  }

  /** A new root above a splayed tree whose root is larger. */
  lemma InsertedBelow(cells: Cells, i: int, r: Tree)
    requires r.Node? && Holds(cells, r) && Once(r) && i !in KeySet(r)
    ensures var root := Node(Leaf, r.key, 1 + SizeOf(r.right), r.right);
            var c := cells[r.key := Cell(root.size, Null, RootOf(r.right))];
            Holds(c[i := Cell(1 + SizeOf(r.left) + SizeOf(root), RootOf(r.left), To(r.key))],
                  Node(r.left, i, 1 + SizeOf(r.left) + SizeOf(root), root))
  {
    var root := Node(Leaf, r.key, 1 + SizeOf(r.right), r.right);
    var c := cells[r.key := Cell(root.size, Null, RootOf(r.right))];
    var c' := c[i := Cell(1 + SizeOf(r.left) + SizeOf(root), RootOf(r.left), To(r.key))];
    HoldsFrame(cells, c', r.left);
    HoldsFrame(cells, c', r.right);
  }

  lemma InsertedBeyond(cells: Cells, i: int, r: Tree)
    requires r.Node? && Holds(cells, r) && Once(r) && i !in KeySet(r)
    ensures var root := Node(r.left, r.key, 1 + SizeOf(r.left), Leaf);
            var c := cells[r.key := Cell(root.size, RootOf(r.left), Null)];
            Holds(c[i := Cell(1 + SizeOf(root) + SizeOf(r.right), To(r.key), RootOf(r.right))],
                  Node(root, i, 1 + SizeOf(root) + SizeOf(r.right), r.right))
  {
    var root := Node(r.left, r.key, 1 + SizeOf(r.left), Leaf);
    var c := cells[r.key := Cell(root.size, RootOf(r.left), Null)];
    var c' := c[i := Cell(1 + SizeOf(root) + SizeOf(r.right), To(r.key), RootOf(r.right))];
    HoldsFrame(cells, c', r.left);
    HoldsFrame(cells, c', r.right);
  }

  /** The tree insert makes of a splayed tree without the key. */
  ghost function NewRoot(i: int, r: Tree, below: bool): (t: Tree)
    requires r.Node?
    ensures t.Node?
  {
    if below then
      var root := Node(Leaf, r.key, 1 + SizeOf(r.right), r.right);
      Node(r.left, i, 1 + SizeOf(r.left) + SizeOf(root), root)
    else
      var root := Node(r.left, r.key, 1 + SizeOf(r.left), Leaf);
      Node(root, i, 1 + SizeOf(root) + SizeOf(r.right), r.right)
  }

  lemma {:induction false} HeldKeys(cells: Cells, t: Tree)
    requires Holds(cells, t)
    ensures KeySet(t) <= cells.Keys
  {
    if t.Node? {
      HeldKeys(cells, t.left);
      HeldKeys(cells, t.right);
    }
  }

  /** The tree splay_delete makes of a splayed tree, but for the size of its root. */
  ghost function WithoutRoot(i: int, r: Tree): Tree
    requires r.Node?
  {
    if r.left.Leaf? then r.right else var x := Splayed(i, r.left); x.(right := r.right)
  }

  lemma Regrafted(cells: Cells, x: Tree, right: Tree)
    requires x.Node? && Holds(cells, x) && Once(x) && Holds(cells, right) && x.key !in KeySet(right)
    ensures x.key in cells && Holds(cells[x.key := cells[x.key].(right := RootOf(right))], x.(right := right))
  {
    var cells' := cells[x.key := cells[x.key].(right := RootOf(right))];
    HoldsFrame(cells, cells', x.left);
    HoldsFrame(cells, cells', right);
  }

  /** Freeing the deleted node and setting the size of the new root. */
  lemma RootDropped(cells: Cells, i: int, r: Tree, size: int)
    requires r.Node? && Once(r) && Sized(r) && r.key == i && Sorted(Keys(r)) && Holds(cells, WithoutRoot(i, r))
    ensures var x, c := WithoutRoot(i, r), cells - {i};
            x.Node? ==> x.key in c && Holds(c[x.key := c[x.key].(size := size)], x.(size := size))
  {
    var x, c := WithoutRoot(i, r), cells - {i};
    if x.Node? {
      WithoutRootOnce(i, r);
      var c' := c[x.key := c[x.key].(size := size)];
      HoldsFrame(cells, c', x.left);
      HoldsFrame(cells, c', x.right);
    }
  }

  lemma WithoutRootOnce(i: int, r: Tree)
    requires r.Node? && Once(r) && Sized(r) && r.key == i && Sorted(Keys(r))
    ensures Once(WithoutRoot(i, r)) && KeySet(WithoutRoot(i, r)) <= KeySet(r) - {i}
  {
    if r.left.Node? {
      SortedNode(r);
      SplayedOnce(i, r.left);
    }
  }

  lemma {:induction false} SidesHave(s: seq<int>, i: int, k: int)
    ensures k in Less(s, i) <==> k in s && k < i
    ensures k in More(s, i) <==> k in s && k > i
    decreases |s|
  {
    if s != [] {
      SidesHave(s[1..], i, k);
      assert s == [s[0]] + s[1..];
    }
  }

  /** insert adds one node at most. */
  lemma InsertedSet(i: int, t: Tree)
    requires Sized(t) && Sorted(Keys(t))
    ensures KeySet(Inserted(i, t)) == KeySet(t) + {i}
  {
    InsertedKeys(i, t);
    forall k ensures k in KeySet(Inserted(i, t)) <==> k in KeySet(t) + {i} {
      KeySetHas(t, k);
      KeySetHas(Inserted(i, t), k);
      SidesHave(Keys(t), i, k);
    }
  }

  /** splay_delete drops one node at most. */
  lemma DeletedSet(i: int, t: Tree)
    requires Sized(t) && Sorted(Keys(t))
    ensures KeySet(Deleted(i, t)) == KeySet(t) - {i}
  {
    DeletedKeys(i, t);
    forall k ensures k in KeySet(Deleted(i, t)) <==> k in KeySet(t) - {i} {
      KeySetHas(t, k);
      KeySetHas(Deleted(i, t), k);
      SidesHave(Keys(t), i, k);
    }
  }

  /** The memory holds the search tree and no node besides. */
  ghost predicate Exactly(cells: Cells, root: Ptr, t: Tree) {
    Holds(cells, t) && root == RootOf(t) && cells.Keys == KeySet(t) && Sized(t) && Sorted(Keys(t))
  }

  lemma ExactlySplayed(cells: Cells, cells': Cells, root: Ptr, t: Tree, i: int)
    requires Exactly(cells, root, t) && Holds(cells', Splayed(i, t)) && Outside(cells, cells', KeySet(t))
    ensures Exactly(cells', RootOf(Splayed(i, t)), Splayed(i, t))
  {
    SplayedOnce(i, t);
  }

  lemma ExactlyInserted(cells: Cells, cells': Cells, root: Ptr, t: Tree, i: int)
    requires Exactly(cells, root, t) && Holds(cells', Inserted(i, t)) && cells'.Keys == cells.Keys + {i}
    ensures Exactly(cells', RootOf(Inserted(i, t)), Inserted(i, t))
  {
    InsertedKeys(i, t);
    InsertedSet(i, t);
  }

  lemma ExactlyDeleted(cells: Cells, cells': Cells, root: Ptr, t: Tree, i: int)
    requires Exactly(cells, root, t) && Holds(cells', Deleted(i, t)) && i in KeySet(t) && cells'.Keys == cells.Keys - {i}
    ensures Exactly(cells', RootOf(Deleted(i, t)), Deleted(i, t))
  {
    DeletedKeys(i, t);
    DeletedSet(i, t);
  }

  class Nodes {
    var cells: Cells

    constructor ()
      ensures cells == map[]
    {
      cells := map[];
    }

    method RotateRightAt(t: int, ghost tree: Tree) returns (y: int)
      requires tree.Node? && tree.left.Node? && Holds(cells, tree) && Once(tree) && t == tree.key
      modifies this
      ensures y == tree.left.key && t in old(cells) && y in old(cells) && t != y && cells == RotatedRight(old(cells), tree)
    {
      y := cells[t].left.key;
      RootValue(cells, tree.left.right);
      RootValue(cells, tree.right);
      cells := cells[t := cells[t].(left := cells[y].right)];
      cells := cells[y := cells[y].(right := To(t))];
      cells := cells[t := cells[t].(size := Value(cells, cells[t].left) + Value(cells, cells[t].right) + 1)];
    }

    method RotateLeftAt(t: int, ghost tree: Tree) returns (y: int)
      requires tree.Node? && tree.right.Node? && Holds(cells, tree) && Once(tree) && t == tree.key
      modifies this
      ensures y == tree.right.key && t in old(cells) && y in old(cells) && t != y && cells == RotatedLeft(old(cells), tree)
    {
      y := cells[t].right.key;
      RootValue(cells, tree.left);
      RootValue(cells, tree.right.left);
      cells := cells[t := cells[t].(right := cells[y].left)];
      cells := cells[y := cells[y].(left := To(t))];
      cells := cells[t := cells[t].(size := Value(cells, cells[t].left) + Value(cells, cells[t].right) + 1)];
    }

    /** One round of a loop that corrects sizes: a node gets the rest, and the rest loses what is outside. */
    method FixOne(y: int, rest: int, s: Side, ghost p: Path, ghost j: nat) returns (rest': int, next: Ptr, ghost p': Path)
      requires PathFixed(cells, p, s, j) && j < |p.fs| && y == p.fs[j].key && rest == p.total - Weight(p.before[..j])
      modifies this
      ensures p' == p.(fs := p.fs[j := p.fs[j].(size := rest)]) && PathFixed(cells, p', s, j + 1)
      ensures y in old(cells) && cells == old(cells)[y := old(cells)[y].(size := rest)]
      ensures rest' == p.total - Weight(p.before[..j + 1])
      ensures next == if j + 1 < |p.fs| then To(p.fs[j + 1].key) else Null
    {
      assert FrameHeld(cells, p.fs, s, j);
      ResizedHung(cells, p.fs, s, j, rest);
      ResizedEnded(cells, p.fs, s, j, rest);
      FixedNext(p.before, p.fs, j, p.total);
      WeightNext(p.before, j);
      cells := cells[y := cells[y].(size := rest)];
      p' := p.(fs := p.fs[j := p.fs[j].(size := rest)]);
      assert FrameHeld(cells, p'.fs, s, j);
      RootValue(cells, p'.fs[j].sub);
      SizeOfSized(p.before[j].sub);
      rest' := rest - (1 + Value(cells, Outer(cells[y], s)));
      next := Inner(cells[y], s);
    }

    /** One of the loops that correct the sizes along the inner path of an assembly tree. */
    method FixSizesAt(first: Ptr, total: int, s: Side, ghost before: seq<Frame>) returns (ghost fs: seq<Frame>)
      requires PathFixed(cells, Path(before, before, total), s, 0) && first == FirstOf(before)
      modifies this
      ensures PathFixed(cells, Path(before, fs, total), s, |before|) && Outside(old(cells), cells, PathKeys(before))
    {
      ghost var p, j: nat := Path(before, before, total), 0;
      var y, rest := first, total;
      while y != Null
        invariant j <= |before| && y == (if j < |before| then To(before[j].key) else Null)
        invariant p.before == before && p.total == total && PathFixed(cells, p, s, j)
        invariant rest == total - Weight(before[..j]) && Outside(old(cells), cells, PathKeys(before))
        decreases |before| - j
      {
        SameKeys(cells, p, s, j);
        rest, y, p := FixOne(y.key, rest, s, p, j);
        j := j + 1;
      }
      fs := p.fs;
    }

    /** Link the current node to the right assembly tree and go on at its left child. */
    method LinkRightAt(v: Locals, ghost z: Zip, ghost nodes: set<int>) returns (v': Locals)
      requires State(cells, z, v, nodes) && z.t.left.Node?
      modifies this
      ensures State(cells, LinkRight(z), v', nodes) && Outside(old(cells), cells, nodes)
    {
      LinkWeighed(z, v.lSize, v.rSize);
      LinkRightSplit(cells, z);
      LinkAmong(z, nodes);
      RootValue(cells, z.t.right);
      var rSize := v.rSize + (1 + Value(cells, cells[v.t].right));
      cells := Hooked(cells, v.r, R, To(v.t));
      v' := v.(r := To(v.t), nLeft := if v.r == Null then To(v.t) else v.nLeft, t := cells[v.t].left.key, rSize := rSize);
    }

    method LinkLeftAt(v: Locals, ghost z: Zip, ghost nodes: set<int>) returns (v': Locals)
      requires State(cells, z, v, nodes) && z.t.right.Node?
      modifies this
      ensures State(cells, LinkLeft(z), v', nodes) && Outside(old(cells), cells, nodes)
    {
      LinkWeighed(z, v.lSize, v.rSize);
      LinkLeftSplit(cells, z);
      LinkAmong(z, nodes);
      RootValue(cells, z.t.left);
      var lSize := v.lSize + (1 + Value(cells, cells[v.t].left));
      cells := Hooked(cells, v.l, L, To(v.t));
      v' := v.(l := To(v.t), nRight := if v.l == Null then To(v.t) else v.nRight, t := cells[v.t].right.key, lSize := lSize);
    }

    method TurnRightAt(v: Locals, ghost z: Zip, ghost nodes: set<int>) returns (v': Locals)
      requires State(cells, z, v, nodes) && z.t.left.Node?
      modifies this
      ensures State(cells, z.(t := RotateRight(z.t)), v', nodes) && Outside(old(cells), cells, nodes)
    {
      RotateWeighed(z, v.lSize, v.rSize);
      RotatedRightSplit(cells, z);
      var y := RotateRightAt(v.t, z.t);
      v' := v.(t := y);
    }

    method TurnLeftAt(v: Locals, ghost z: Zip, ghost nodes: set<int>) returns (v': Locals)
      requires State(cells, z, v, nodes) && z.t.right.Node?
      modifies this
      ensures State(cells, z.(t := RotateLeft(z.t)), v', nodes) && Outside(old(cells), cells, nodes)
    {
      RotateWeighed(z, v.lSize, v.rSize);
      RotatedLeftSplit(cells, z);
      var y := RotateLeftAt(v.t, z.t);
      v' := v.(t := y);
    }

    /** The main loop of splay. */
    method DescendAt(i: int, root: int, ghost tree: Tree) returns (v: Locals, ghost z: Zip)
      requires tree.Node? && Holds(cells, tree) && Once(tree) && Sized(tree) && root == tree.key
      modifies this
      ensures z == Descend(i, Zip(tree, [], [])) && State(cells, z, v, KeySet(tree))
      ensures Outside(old(cells), cells, KeySet(tree))
    {
      z, v := Zip(tree, [], []), Locals(root, Null, Null, Null, Null, 0, 0);
      while true
        invariant State(cells, z, v, KeySet(tree)) && Descend(i, z) == Descend(i, Zip(tree, [], []))
        invariant Outside(old(cells), cells, KeySet(tree))
        decreases z.t
      {
        if i < v.t {
          if cells[v.t].left == Null { break; }
          if i < cells[v.t].left.key {
            v := TurnRightAt(v, z, KeySet(tree));
            z := z.(t := RotateRight(z.t));
            if cells[v.t].left == Null { break; }
          }
          v := LinkRightAt(v, z, KeySet(tree));
          z := LinkRight(z);
        } else if i > v.t {
          if cells[v.t].right == Null { break; }
          if i > cells[v.t].right.key {
            v := TurnLeftAt(v, z, KeySet(tree));
            z := z.(t := RotateLeft(z.t));
            if cells[v.t].right == Null { break; }
          }
          v := LinkLeftAt(v, z, KeySet(tree));
          z := LinkLeft(z);
        } else {
          break;
        }
      }
    }

    /** The new size of the root, and NULL at the inner end of both assembly trees. */
    method CloseAt(v: Locals, total: int, ghost z: Zip, ghost nodes: set<int>)
      requires State(cells, z, v, nodes)
      modifies this
      ensures Closed(cells, z.(t := z.t.(size := total))) && Outside(old(cells), cells, nodes)
    {
      ghost var z' := z.(t := z.t.(size := total));
      RootSized(cells, z, total);
      LinkAmong(z, nodes);
      cells := cells[v.t := cells[v.t].(size := total)];
      HookedElsewhere(cells, z', L, Null);
      cells := Hooked(cells, v.l, L, Null);
      HookedElsewhere(cells, z', R, Null);
      EndedStays(cells, z');
      cells := Hooked(cells, v.r, R, Null);
    }

    /** Both loops that correct sizes. */
    method FixBothAt(v: Locals, lSize: int, rSize: int, ghost z: Zip, ghost nodes: set<int>) returns (ghost z': Zip)
      requires Closed(cells, z) && v.nLeft == FirstOf(z.right) && v.nRight == FirstOf(z.left) && ZipSized(z) && Among(z, nodes)
      modifies this
      ensures z'.t == z.t && Fixed(z.left, z'.left, |z.left|, lSize) && Fixed(z.right, z'.right, |z.right|, rSize)
      ensures Split(cells, z') && SamePaths(z, z') && Outside(old(cells), cells, nodes)
    {
      PathKeysAmong(z, nodes);
      PathKeysClear(z);
      ghost var before := cells;
      ghost var left := FixSizesAt(v.nRight, lSize, L, z.left);
      HoldsFrame(before, cells, z.t);
      HungFrame(before, cells, z.right, R, PathKeys(z.left));
      EndedFrame(before, cells, z.right, R, PathKeys(z.left));
      before := cells;
      ghost var right := FixSizesAt(v.nLeft, rSize, R, z.right);
      HoldsFrame(before, cells, z.t);
      FixedSets(z.left, left, lSize);
      FixedSets(z.right, right, rSize);
      z' := Zip(z.t, left, right);
      FixedClear(z.left, left, PathKeys(z.right));
      HungFrame(before, cells, left, L, PathKeys(z.right));
      FixedApart(z, left, right);
      FixedPath(z.left, left, lSize);
      FixedPath(z.right, right, rSize);
    }

    /** Hang the subtrees of the root into the assembly trees. */
    method HookBothAt(v: Locals, ghost z: Zip, ghost nodes: set<int>)
      requires Split(cells, z) && v.t == z.t.key && v.l == LastOf(z.left) && v.r == LastOf(z.right)
      requires PathKeys(z.left) <= nodes && PathKeys(z.right) <= nodes
      modifies this
      ensures Split(cells, z) && Outside(old(cells), cells, nodes)
      ensures InnerIs(cells, z.left, L, RootOf(z.t.left)) && InnerIs(cells, z.right, R, RootOf(z.t.right))
    {
      HookedElsewhere(cells, z, L, RootOf(z.t.left));
      LastIsOnPath(z.left);
      LastIsOnPath(z.right);
      cells := Hooked(cells, v.l, L, cells[v.t].left);
      HookedElsewhere(cells, z, R, RootOf(z.t.right));
      InnerStays(cells, z, RootOf(z.t.right));
      cells := Hooked(cells, v.r, R, cells[v.t].right);
    }

    /** Hang the assembly trees below the root. */
    method JoinAt(v: Locals, ghost z: Zip, ghost nodes: set<int>)
      requires Split(cells, z) && v.t == z.t.key && v.l == LastOf(z.left) && v.r == LastOf(z.right)
      requires v.nLeft == FirstOf(z.right) && v.nRight == FirstOf(z.left) && v.t in nodes
      requires InnerIs(cells, z.left, L, RootOf(z.t.left)) && InnerIs(cells, z.right, R, RootOf(z.t.right))
      modifies this
      ensures Holds(cells, Joined(z)) && Outside(old(cells), cells, nodes)
    {
      JoinedHolds(cells, z);
      ghost var before := cells;
      var nRight := if v.l == Null then cells[v.t].left else v.nRight;
      var nLeft := if v.r == Null then cells[v.t].right else v.nLeft;
      cells := cells[v.t := cells[v.t].(left := nRight)];
      cells := cells[v.t := cells[v.t].(right := nLeft)];
      assert cells == before[v.t := Cell(z.t.size, nRight, nLeft)];
    }

    /** What splay does after the main loop. */
    method FinishAt(v: Locals, ghost z: Zip, ghost nodes: set<int>)
      requires State(cells, z, v, nodes)
      modifies this
      ensures Holds(cells, Assemble(z)) && Outside(old(cells), cells, nodes)
    {
      RootValue(cells, z.t.left);
      RootValue(cells, z.t.right);
      var lSize, rSize := v.lSize + Value(cells, cells[v.t].left), v.rSize + Value(cells, cells[v.t].right);
      CloseAt(v, lSize + rSize + 1, z, nodes);
      var z' := FixBothAt(v, lSize, rSize, z.(t := z.t.(size := lSize + rSize + 1)), nodes);
      AssembledFrom(z, z'.left, z'.right, lSize, rSize);
      PathKeysAmong(z, nodes);
      HookBothAt(v, z', nodes);
      JoinAt(v, z', nodes);
    }

    /** splay, in place: the memory holds the splayed tree, made of the same nodes, and nothing else changes. */
    method SplayAt(i: int, root: Ptr, ghost tree: Tree) returns (top: Ptr)
      requires Holds(cells, tree) && Once(tree) && Sized(tree) && root == RootOf(tree)
      modifies this
      ensures Holds(cells, Splayed(i, tree)) && top == RootOf(Splayed(i, tree))
      ensures Outside(old(cells), cells, KeySet(tree))
    {
      if root == Null {
        return Null;
      }
      var v, z := DescendAt(i, root.key, tree);
      FinishAt(v, z, KeySet(tree));
      top := To(v.t);
    }

    /** insert when the new key is smaller than that of the splayed root t. */
    method InsertBelowAt(i: int, t: int, ghost r: Tree)
      requires r.Node? && Holds(cells, r) && Once(r) && i !in KeySet(r) && t == r.key
      modifies this
      ensures Holds(cells, NewRoot(i, r, true)) && cells.Keys == old(cells).Keys + {i}
      ensures forall k :: k in old(cells) && k != i && k != t ==> cells[k] == old(cells)[k]
    {
      RootValue(cells, r.left);
      RootValue(cells, r.right);
      InsertedBelow(cells, i, r);
      ghost var before := cells;
      cells := cells[i := Cell(1, cells[t].left, To(t))];
      cells := cells[t := cells[t].(left := Null, size := 1 + Value(cells, cells[t].right))];
      cells := cells[i := cells[i].(size := 1 + Value(cells, cells[i].left) + Value(cells, cells[i].right))];
      assert cells == before[t := Cell(1 + SizeOf(r.right), Null, RootOf(r.right))]
                            [i := Cell(NewRoot(i, r, true).size, RootOf(r.left), To(t))];
    }

    /** insert when the new key is larger than that of the splayed root t. */
    method InsertBeyondAt(i: int, t: int, ghost r: Tree)
      requires r.Node? && Holds(cells, r) && Once(r) && i !in KeySet(r) && t == r.key
      modifies this
      ensures Holds(cells, NewRoot(i, r, false)) && cells.Keys == old(cells).Keys + {i}
      ensures forall k :: k in old(cells) && k != i && k != t ==> cells[k] == old(cells)[k]
    {
      RootValue(cells, r.left);
      RootValue(cells, r.right);
      InsertedBeyond(cells, i, r);
      ghost var before := cells;
      cells := cells[i := Cell(1, To(t), cells[t].right)];
      cells := cells[t := cells[t].(right := Null, size := 1 + Value(cells, cells[t].left))];
      cells := cells[i := cells[i].(size := 1 + Value(cells, cells[i].left) + Value(cells, cells[i].right))];
      assert cells == before[t := Cell(1 + SizeOf(r.left), RootOf(r.left), Null)]
                            [i := Cell(NewRoot(i, r, false).size, To(t), RootOf(r.right))];
    }

    /** insert, in place. The node is allocated when it is linked; one that would be freed again is not. */
    method InsertAt(i: int, root: Ptr, ghost tree: Tree) returns (top: Ptr)
      requires Holds(cells, tree) && Sorted(Keys(tree)) && Sized(tree) && root == RootOf(tree)
      requires i in KeySet(tree) || i !in cells
      modifies this
      ensures Holds(cells, Inserted(i, tree)) && top == RootOf(Inserted(i, tree)) && cells.Keys == old(cells).Keys + {i}
      ensures forall k :: k in old(cells) && k !in KeySet(tree) ==> cells[k] == old(cells)[k]
    {
      if root == Null {
        cells := cells[i := Cell(1, Null, Null)];
        return To(i);
      }
      SortedApart(tree);
      SplayedOnce(i, tree);
      HeldKeys(cells, tree);
      top := SplayAt(i, root, tree);
      if i < top.key {
        InsertBelowAt(i, top.key, Splayed(i, tree));
        top := To(i);
      } else if i > top.key {
        InsertBeyondAt(i, top.key, Splayed(i, tree));
        top := To(i);
      }
    }

    /** splay_delete on the splayed root: its right subtree goes below the largest node of the left one. */
    method DropRoot(i: int, ghost r: Tree) returns (x: Ptr)
      requires r.Node? && Holds(cells, r) && Once(r) && Sized(r) && r.key == i && Sorted(Keys(r))
      modifies this
      ensures Holds(cells, WithoutRoot(i, r)) && x == RootOf(WithoutRoot(i, r)) && Outside(old(cells), cells, KeySet(r))
    {
      if cells[i].left == Null {
        return cells[i].right;
      }
      SortedNode(r);
      SplayedOnce(i, r.left);
      ghost var before := cells;
      x := SplayAt(i, cells[i].left, r.left);
      HoldsFrame(before, cells, r.right);
      Regrafted(cells, Splayed(i, r.left), r.right);
      cells := cells[x.key := cells[x.key].(right := cells[i].right)];
    }

    /** Drop the splayed root, free it and set the size of the new one. */
    method FreeRoot(i: int, size: int, ghost r: Tree) returns (x: Ptr)
      requires r.Node? && Holds(cells, r) && Once(r) && Sized(r) && r.key == i && Sorted(Keys(r))
      modifies this
      ensures var t := WithoutRoot(i, r);
              x == RootOf(t) && Holds(cells, if t.Leaf? then Leaf else t.(size := size))
      ensures cells.Keys == old(cells).Keys - {i}
      ensures forall k :: k in old(cells) && k !in KeySet(r) ==> k in cells && cells[k] == old(cells)[k]
    {
      x := DropRoot(i, r);
      RootDropped(cells, i, r, size);
      WithoutRootOnce(i, r);
      cells := cells - {i};
      if x != Null {
        cells := cells[x.key := cells[x.key].(size := size)];
      }
    }

    /** splay_delete, in place: the node of the key is freed, and no other is lost. */
    method SplayDeleteAt(i: int, root: Ptr, ghost tree: Tree) returns (x: Ptr)
      requires Holds(cells, tree) && Sorted(Keys(tree)) && Sized(tree) && root == RootOf(tree)
      modifies this
      ensures Holds(cells, Deleted(i, tree)) && x == RootOf(Deleted(i, tree))
      ensures cells.Keys == if i in KeySet(tree) then old(cells).Keys - {i} else old(cells).Keys
      ensures forall k :: k in old(cells) && k !in KeySet(tree) ==> k in cells && cells[k] == old(cells)[k]
    {
      if root == Null {
        return Null;
      }
      SortedApart(tree);
      SplayedOnce(i, tree);
      var size := cells[root.key].size;
      x := SplayAt(i, root, tree);
      if x.key == i {
        x := FreeRoot(i, size - 1, Splayed(i, tree));
      }
    }
  }
}
