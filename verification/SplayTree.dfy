/**
 Top-down splay trees whose nodes count their subtrees
 (CDNSimulator/libCacheSim/dataStructure/splay.c).
 */
module SplayTree {

  datatype Tree = Leaf | Node(left: Tree, key: int, size: int, right: Tree)

  /** node_value. */
  function SizeOf(t: Tree): int {
    if t.Leaf? then 0 else t.size
  }

  /** The keys in order. */
  ghost function Keys(t: Tree): seq<int> {
    if t.Leaf? then [] else Keys(t.left) + [t.key] + Keys(t.right)
  }

  /** Every size field is the number of nodes of its subtree. */
  ghost predicate Sized(t: Tree) {
    t.Node? ==> t.size == |Keys(t)| && Sized(t.left) && Sized(t.right)
  }

  ghost predicate Sorted(s: seq<int>) {
    forall i, j :: 0 <= i < j < |s| ==> s[i] < s[j]
  }

  ghost predicate Below(s: seq<int>, k: int) {
    forall i :: 0 <= i < |s| ==> s[i] < k
  }

  ghost predicate Above(s: seq<int>, k: int) {
    forall i :: 0 <= i < |s| ==> s[i] > k
  }

  /** The elements smaller than k, in order. */
  ghost function Less(s: seq<int>, k: int): seq<int> {
    if s == [] then [] else (if s[0] < k then [s[0]] else []) + Less(s[1..], k)
  }

  /** The elements larger than k, in order. */
  ghost function More(s: seq<int>, k: int): seq<int> {
    if s == [] then [] else (if s[0] > k then [s[0]] else []) + More(s[1..], k)
  }

  lemma Associate(a: seq<int>, b: seq<int>, c: seq<int>)
    ensures a + (b + c) == (a + b) + c
  {
  }

  lemma {:induction false} LessConcat(x: seq<int>, y: seq<int>, k: int)
    ensures Less(x + y, k) == Less(x, k) + Less(y, k)
    decreases |x|
  {
    if x == [] {
      assert x + y == y;
    } else {
      LessConcat(x[1..], y, k);
      assert (x + y)[1..] == x[1..] + y;
      Associate(if x[0] < k then [x[0]] else [], Less(x[1..], k), Less(y, k));
    }
  }

  lemma {:induction false} MoreConcat(x: seq<int>, y: seq<int>, k: int)
    ensures More(x + y, k) == More(x, k) + More(y, k)
    decreases |x|
  {
    if x == [] {
      assert x + y == y;
    } else {
      MoreConcat(x[1..], y, k);
      assert (x + y)[1..] == x[1..] + y;
      Associate(if x[0] > k then [x[0]] else [], More(x[1..], k), More(y, k));
    }
  }

  lemma {:induction false} SplitBelow(s: seq<int>, k: int)
    requires Below(s, k)
    ensures Less(s, k) == s && More(s, k) == []
    decreases |s|
  {
    if s != [] {
      SplitBelow(s[1..], k);
    }
  }

  lemma {:induction false} SplitAbove(s: seq<int>, k: int)
    requires Above(s, k)
    ensures Less(s, k) == [] && More(s, k) == s
    decreases |s|
  {
    if s != [] {
      SplitAbove(s[1..], k);
    }
  }

  /** Keys below k, then keys above it. */
  lemma SplitTwo(a: seq<int>, b: seq<int>, k: int)
    requires Below(a, k) && Above(b, k)
    ensures Less(a + b, k) == a && More(a + b, k) == b
  {
    LessConcat(a, b, k);
    MoreConcat(a, b, k);
    SplitBelow(a, k);
    SplitAbove(b, k);
  }

  lemma SplitAround(a: seq<int>, b: seq<int>, k: int)
    requires Below(a, k) && Above(b, k)
    ensures Less(a + [k] + b, k) == a && More(a + [k] + b, k) == b
  {
    LessConcat(a + [k], b, k);
    LessConcat(a, [k], k);
    MoreConcat(a + [k], b, k);
    MoreConcat(a, [k], k);
    SplitBelow(a, k);
    SplitAbove(b, k);
    assert [k][1..] == [];
  }

  lemma SizeOfSized(t: Tree)
    requires Sized(t)
    ensures SizeOf(t) == |Keys(t)|
  {
  }

  lemma SortedNode(t: Tree)
    requires t.Node? && Sorted(Keys(t))
    ensures Sorted(Keys(t.left)) && Sorted(Keys(t.right)) && Below(Keys(t.left), t.key) && Above(Keys(t.right), t.key)
  {
    SortedParts(Keys(t.left), t.key, Keys(t.right));
  }

  lemma SortedParts(a: seq<int>, k: int, b: seq<int>)
    requires Sorted(a + [k] + b)
    ensures Sorted(a) && Sorted(b) && Below(a, k) && Above(b, k)
  {
    var s := a + [k] + b;
    assert s[|a|] == k;
    assert forall i :: 0 <= i < |a| ==> s[i] == a[i];
    assert forall i :: 0 <= i < |b| ==> s[|a| + 1 + i] == b[i];
  }

  lemma SortedConcat(a: seq<int>, k: int, b: seq<int>)
    requires Sorted(a) && Sorted(b) && Below(a, k) && Above(b, k)
    ensures Sorted(a + b)
  {
    forall i, j | 0 <= i < j < |a + b|
      ensures (a + b)[i] < (a + b)[j]
    {
      if i < |a| <= j {
        assert a[i] < k < b[j - |a|];
      }
    }
  }

  lemma SortedJoin(a: seq<int>, k: int, b: seq<int>)
    requires Sorted(a) && Sorted(b) && Below(a, k) && Above(b, k)
    ensures Sorted(a + [k] + b)
  {
  }

  /** A node with the right size. */
  function Branch(left: Tree, key: int, right: Tree): Tree {
    Node(left, key, 1 + SizeOf(left) + SizeOf(right), right)
  }

  // ---------------------------------------------------------------------------
  // Descending
  // ---------------------------------------------------------------------------

  /** A node linked to the left or right assembly tree: sub is its subtree on the outer side. */
  datatype Frame = Frame(key: int, size: int, sub: Tree)

  /** The state of the loop: the current node and the two assembly trees, outermost node first. */
  datatype Zip = Zip(t: Tree, left: seq<Frame>, right: seq<Frame>)

  /** Rotate right at t, whose left child is a node. The size of the new root is left as it was. */
  function RotateRight(t: Tree): (r: Tree)
    requires t.Node? && t.left.Node?
    ensures r.Node?
  {
    var y := t.left;
    Node(y.left, y.key, y.size, Branch(y.right, t.key, t.right))
  }

  function RotateLeft(t: Tree): (r: Tree)
    requires t.Node? && t.right.Node?
    ensures r.Node?
  {
    var y := t.right;
    Node(Branch(t.left, t.key, y.left), y.key, y.size, y.right)
  }

  /** Link t to the right assembly tree and go on at its left child. */
  function LinkRight(z: Zip): Zip
    requires z.t.Node?
  {
    Zip(z.t.left, z.left, z.right + [Frame(z.t.key, z.t.size, z.t.right)])
  }

  function LinkLeft(z: Zip): Zip
    requires z.t.Node?
  {
    Zip(z.t.right, z.left + [Frame(z.t.key, z.t.size, z.t.left)], z.right)
  }

  /** The main loop of splay from state z on. */
  function Descend(i: int, z: Zip): (r: Zip)
    requires z.t.Node?
    ensures r.t.Node?
    decreases z.t
  {
    if i < z.t.key then
      if z.t.left.Leaf? then z
      else if i < z.t.left.key then
        var y := z.(t := RotateRight(z.t));
        if y.t.left.Leaf? then y else Descend(i, LinkRight(y))
      else Descend(i, LinkRight(z))
    else if i > z.t.key then
      if z.t.right.Leaf? then z
      else if i > z.t.right.key then
        var y := z.(t := RotateLeft(z.t));
        if y.t.right.Leaf? then y else Descend(i, LinkLeft(y))
      else Descend(i, LinkLeft(z))
    else z
  }

  /** The keys of the left assembly tree, all before those of t. */
  ghost function LeftKeys(fs: seq<Frame>): seq<int> {
    if fs == [] then []
    else LeftKeys(fs[..|fs| - 1]) + Keys(fs[|fs| - 1].sub) + [fs[|fs| - 1].key]
  }

  ghost function RightKeys(fs: seq<Frame>): seq<int> {
    if fs == [] then []
    else [fs[|fs| - 1].key] + Keys(fs[|fs| - 1].sub) + RightKeys(fs[..|fs| - 1])
  }

  ghost function AllKeys(z: Zip): seq<int> {
    LeftKeys(z.left) + Keys(z.t) + RightKeys(z.right)
  }

  lemma RotateKeys(t: Tree)
    requires t.Node?
    ensures t.left.Node? ==> Keys(RotateRight(t)) == Keys(t)
    ensures t.right.Node? ==> Keys(RotateLeft(t)) == Keys(t)
  {
    if t.left.Node? {
      var y := t.left;
      RegroupMiddle(Keys(y.left), [y.key], Keys(y.right), [t.key], Keys(t.right));
      assert Keys(RotateRight(t)) == Keys(y.left) + [y.key] + (Keys(y.right) + [t.key] + Keys(t.right));
    }
    if t.right.Node? {
      var y := t.right;
      RegroupMiddle(Keys(t.left), [t.key], Keys(y.left), [y.key], Keys(y.right));
      assert Keys(RotateLeft(t)) == (Keys(t.left) + [t.key] + Keys(y.left)) + [y.key] + Keys(y.right);
    }
  }

  lemma RegroupMiddle(a: seq<int>, b: seq<int>, c: seq<int>, d: seq<int>, e: seq<int>)
    ensures (a + b + c) + d + e == a + b + (c + d + e)
  {
  }

  lemma LinkKeys(z: Zip)
    requires z.t.Node?
    ensures AllKeys(LinkRight(z)) == AllKeys(z) && AllKeys(LinkLeft(z)) == AllKeys(z)
  {
    var f, g := Frame(z.t.key, z.t.size, z.t.right), Frame(z.t.key, z.t.size, z.t.left);
    assert (z.right + [f])[..|z.right|] == z.right && (z.left + [g])[..|z.left|] == z.left;
  }

  /** The loop keeps the keys of the two assembly trees and the current tree in order. */
  lemma {:induction false} DescendKeys(i: int, z: Zip)
    requires z.t.Node?
    ensures AllKeys(Descend(i, z)) == AllKeys(z)
    decreases z.t
  {
    RotateKeys(z.t);
    LinkKeys(z);
    if i < z.t.key && z.t.left.Node? {
      if i < z.t.left.key {
        var y := z.(t := RotateRight(z.t));
        LinkKeys(y);
        if y.t.left.Node? {
          DescendKeys(i, LinkRight(y));
        }
      } else {
        DescendKeys(i, LinkRight(z));
      }
    } else if i > z.t.key && z.t.right.Node? {
      if i > z.t.right.key {
        var y := z.(t := RotateLeft(z.t));
        LinkKeys(y);
        if y.t.right.Node? {
          DescendKeys(i, LinkLeft(y));
        }
      } else {
        DescendKeys(i, LinkLeft(z));
      }
    }
  }

  ghost predicate FramesSized(fs: seq<Frame>) {
    forall j :: 0 <= j < |fs| ==> Sized(fs[j].sub)
  }

  /** All subtrees have right sizes; the sizes on the path need not be right. */
  ghost predicate ZipSized(z: Zip) {
    z.t.Node? && Sized(z.t.left) && Sized(z.t.right) && FramesSized(z.left) && FramesSized(z.right)
  }

  lemma BranchSized(left: Tree, key: int, right: Tree)
    requires Sized(left) && Sized(right)
    ensures Sized(Branch(left, key, right))
  {
  }

  lemma RotateSized(t: Tree)
    requires t.Node? && Sized(t.left) && Sized(t.right)
    ensures t.left.Node? ==> Sized(RotateRight(t).left) && Sized(RotateRight(t).right)
    ensures t.right.Node? ==> Sized(RotateLeft(t).left) && Sized(RotateLeft(t).right)
  {
    if t.left.Node? {
      BranchSized(t.left.right, t.key, t.right);
    }
    if t.right.Node? {
      BranchSized(t.left, t.key, t.right.left);
    }
  }

  lemma {:induction false} DescendSized(i: int, z: Zip)
    requires ZipSized(z)
    ensures ZipSized(Descend(i, z))
    decreases z.t
  {
    RotateSized(z.t);
    if i < z.t.key && z.t.left.Node? {
      if i < z.t.left.key {
        var y := z.(t := RotateRight(z.t));
        if y.t.left.Node? {
          DescendSized(i, LinkRight(y));
        }
      } else {
        DescendSized(i, LinkRight(z));
      }
    } else if i > z.t.key && z.t.right.Node? {
      if i > z.t.right.key {
        var y := z.(t := RotateLeft(z.t));
        if y.t.right.Node? {
          DescendSized(i, LinkLeft(y));
        }
      } else {
        DescendSized(i, LinkLeft(z));
      }
    }
  }

  /** What has been linked is on its side of i. */
  ghost predicate Apart(i: int, z: Zip) {
    && z.t.Node? && Sorted(Keys(z.t))
    && Below(LeftKeys(z.left), i) && Above(RightKeys(z.right), i)
  }

  lemma LinkRightApart(i: int, z: Zip)
    requires Apart(i, z) && i < z.t.key && z.t.left.Node?
    ensures Apart(i, LinkRight(z))
  {
    SortedNode(z.t);
    var f := Frame(z.t.key, z.t.size, z.t.right);
    assert (z.right + [f])[..|z.right|] == z.right;
    assert RightKeys(z.right + [f]) == [f.key] + Keys(f.sub) + RightKeys(z.right);
  }

  lemma LinkLeftApart(i: int, z: Zip)
    requires Apart(i, z) && i > z.t.key && z.t.right.Node?
    ensures Apart(i, LinkLeft(z))
  {
    SortedNode(z.t);
    var f := Frame(z.t.key, z.t.size, z.t.left);
    assert (z.left + [f])[..|z.left|] == z.left;
    assert LeftKeys(z.left + [f]) == LeftKeys(z.left) + Keys(f.sub) + [f.key];
  }

  /** The node a binary search for i ends at. */
  ghost function LastOnPath(i: int, t: Tree): int
    requires t.Node?
  {
    if i < t.key && t.left.Node? then LastOnPath(i, t.left)
    else if i > t.key && t.right.Node? then LastOnPath(i, t.right)
    else t.key
  }

  lemma RotateRightApart(i: int, z: Zip)
    requires Apart(i, z) && i < z.t.key && z.t.left.Node? && i < z.t.left.key
    ensures var y := z.(t := RotateRight(z.t));
            Apart(i, y) && i < y.t.key && LastOnPath(i, y.t) == LastOnPath(i, z.t) && Above(Keys(y.t.right), i)
  {
    RotateKeys(z.t);
    SortedNode(RotateRight(z.t));
  }

  lemma RotateLeftApart(i: int, z: Zip)
    requires Apart(i, z) && i > z.t.key && z.t.right.Node? && i > z.t.right.key
    ensures var y := z.(t := RotateLeft(z.t));
            Apart(i, y) && i > y.t.key && LastOnPath(i, y.t) == LastOnPath(i, z.t) && Below(Keys(y.t.left), i)
  {
    RotateKeys(z.t);
    SortedNode(RotateLeft(z.t));
  }

  /** The loop ends at the node a binary search ends at, with everything else on its side of i. */
  lemma {:induction false} DescendApart(i: int, z: Zip)
    requires Apart(i, z)
    ensures var r := Descend(i, z);
            && Apart(i, r) && r.t.key == LastOnPath(i, z.t)
            && Below(Keys(r.t.left), i) && Above(Keys(r.t.right), i)
    decreases z.t
  {
    SortedNode(z.t);
    if i < z.t.key && z.t.left.Node? {
      if i < z.t.left.key {
        var y := z.(t := RotateRight(z.t));
        RotateRightApart(i, z);
        if y.t.left.Node? {
          LinkRightApart(i, y);
          DescendApart(i, LinkRight(y));
        }
      } else {
        LinkRightApart(i, z);
        DescendApart(i, LinkRight(z));
      }
    } else if i > z.t.key && z.t.right.Node? {
      if i > z.t.right.key {
        var y := z.(t := RotateLeft(z.t));
        RotateLeftApart(i, z);
        if y.t.right.Node? {
          LinkLeftApart(i, y);
          DescendApart(i, LinkLeft(y));
        }
      } else {
        LinkLeftApart(i, z);
        DescendApart(i, LinkLeft(z));
      }
    }
  }

  // ---------------------------------------------------------------------------
  // Assembling
  // ---------------------------------------------------------------------------

  /** The left assembly tree with inner hung below its innermost node, all sizes right. */
  ghost function BuildLeft(fs: seq<Frame>, inner: Tree): Tree {
    if fs == [] then inner
    else var f := fs[|fs| - 1]; BuildLeft(fs[..|fs| - 1], Branch(f.sub, f.key, inner))
  }

  ghost function BuildRight(fs: seq<Frame>, inner: Tree): Tree {
    if fs == [] then inner
    else var f := fs[|fs| - 1]; BuildRight(fs[..|fs| - 1], Branch(inner, f.key, f.sub))
  }

  lemma RegroupRight(a: seq<int>, b: seq<int>, c: seq<int>, d: seq<int>)
    ensures a + (b + c + d) == a + b + c + d
  {
  }

  lemma RegroupLeft(a: seq<int>, b: seq<int>, c: seq<int>, d: seq<int>)
    ensures (a + b + c) + d == a + (b + c + d)
  {
  }

  lemma {:induction false} BuildLeftKeys(fs: seq<Frame>, inner: Tree)
    requires FramesSized(fs) && Sized(inner)
    ensures Keys(BuildLeft(fs, inner)) == LeftKeys(fs) + Keys(inner) && Sized(BuildLeft(fs, inner))
    decreases |fs|
  {
    if fs != [] {
      var f := fs[|fs| - 1];
      BranchSized(f.sub, f.key, inner);
      BuildLeftKeys(fs[..|fs| - 1], Branch(f.sub, f.key, inner));
      RegroupRight(LeftKeys(fs[..|fs| - 1]), Keys(f.sub), [f.key], Keys(inner));
    }
  }

  lemma {:induction false} BuildRightKeys(fs: seq<Frame>, inner: Tree)
    requires FramesSized(fs) && Sized(inner)
    ensures Keys(BuildRight(fs, inner)) == Keys(inner) + RightKeys(fs) && Sized(BuildRight(fs, inner))
    decreases |fs|
  {
    if fs != [] {
      var f := fs[|fs| - 1];
      BranchSized(inner, f.key, f.sub);
      BuildRightKeys(fs[..|fs| - 1], Branch(inner, f.key, f.sub));
      RegroupLeft(Keys(inner), [f.key], Keys(f.sub), RightKeys(fs[..|fs| - 1]));
    }
  }

  ghost function Assemble(z: Zip): Tree
    requires z.t.Node?
  {
    Branch(BuildLeft(z.left, z.t.left), z.t.key, BuildRight(z.right, z.t.right))
  }

  /** What splay makes of a tree with right sizes. */
  ghost function Splayed(i: int, t: Tree): (r: Tree)
    ensures r.Node? <==> t.Node?
  {
    if t.Leaf? then Leaf else Assemble(Descend(i, Zip(t, [], [])))
  }

  lemma AssembleKeys(z: Zip)
    requires ZipSized(z)
    ensures Keys(Assemble(z)) == AllKeys(z) && Sized(Assemble(z))
    ensures Keys(Assemble(z).left) == LeftKeys(z.left) + Keys(z.t.left)
    ensures Keys(Assemble(z).right) == Keys(z.t.right) + RightKeys(z.right)
  {
    BuildLeftKeys(z.left, z.t.left);
    BuildRightKeys(z.right, z.t.right);
    BranchSized(BuildLeft(z.left, z.t.left), z.t.key, BuildRight(z.right, z.t.right));
    Regroup(LeftKeys(z.left), Keys(z.t.left), [z.t.key], Keys(z.t.right), RightKeys(z.right));
  }

  lemma Regroup(a: seq<int>, b: seq<int>, c: seq<int>, d: seq<int>, e: seq<int>)
    ensures (a + b) + c + (d + e) == a + (b + c + d) + e
  {
  }

  /** Splaying keeps the keys in order and the sizes right. */
  lemma SplayedKeys(i: int, t: Tree)
    requires Sized(t)
    ensures Keys(Splayed(i, t)) == Keys(t) && Sized(Splayed(i, t))
  {
    if t.Node? {
      var z := Zip(t, [], []);
      DescendKeys(i, z);
      DescendSized(i, z);
      AssembleKeys(Descend(i, z));
    }
  }

  /** Splaying brings i to the root if it is in the tree, and else a neighbour of it: the node at which a
      binary search ends, with all smaller keys in the left subtree and all larger ones in the right. */
  lemma SplayedRoot(i: int, t: Tree)
    requires Sized(t) && Sorted(Keys(t)) && t.Node?
    ensures var r := Splayed(i, t);
            && r.key == LastOnPath(i, t) && (r.key == i <==> i in Keys(t))
            && Below(Keys(r.left), i) && Above(Keys(r.right), i)
  {
    var z := Zip(t, [], []);
    DescendSized(i, z);
    DescendApart(i, z);
    AssembleKeys(Descend(i, z));
    SplayedKeys(i, t);
    var r := Splayed(i, t);
    MiddleIs(i, Keys(r.left), r.key, Keys(r.right));
  }

  lemma MiddleIs(i: int, a: seq<int>, k: int, b: seq<int>)
    requires Below(a, i) && Above(b, i)
    ensures k == i <==> i in a + [k] + b
  {
    assert (a + [k] + b)[|a|] == k;
    assert i !in a && i !in b;
  }

  // ---------------------------------------------------------------------------
  // What the loops of splay compute
  // ---------------------------------------------------------------------------

  function LinkedLeft(fs: seq<Frame>, inner: Tree): Tree {
    if fs == [] then inner
    else var f := fs[|fs| - 1]; LinkedLeft(fs[..|fs| - 1], Node(f.sub, f.key, f.size, inner))
  }

  function LinkedRight(fs: seq<Frame>, inner: Tree): Tree {
    if fs == [] then inner
    else var f := fs[|fs| - 1]; LinkedRight(fs[..|fs| - 1], Node(inner, f.key, f.size, f.sub))
  }

  /** The number of nodes of an assembly tree. */
  ghost function Weight(fs: seq<Frame>): nat {
    if fs == [] then 0 else Weight(fs[..|fs| - 1]) + |Keys(fs[|fs| - 1].sub)| + 1
  }

  lemma {:induction false} WeightKeys(fs: seq<Frame>)
    ensures |LeftKeys(fs)| == Weight(fs) == |RightKeys(fs)|
    decreases |fs|
  {
    if fs != [] {
      WeightKeys(fs[..|fs| - 1]);
    }
  }

  lemma WeightPush(fs: seq<Frame>, f: Frame)
    ensures Weight(fs + [f]) == Weight(fs) + |Keys(f.sub)| + 1
  {
    assert (fs + [f])[..|fs|] == fs;
  }

  /** Frames with the sizes that the fixing loops give them: total counts the whole assembly tree and
      what hangs below it. */
  ghost predicate Fixed(before: seq<Frame>, fs: seq<Frame>, n: nat, total: int) {
    && |fs| == |before| && n <= |fs|
    && (forall j :: 0 <= j < |fs| ==> fs[j].key == before[j].key && fs[j].sub == before[j].sub)
    && (forall j :: 0 <= j < n ==> fs[j].size == total - Weight(before[..j]))
  }

  lemma FixedPrefix(before: seq<Frame>, fs: seq<Frame>, n: nat, total: int)
    requires Fixed(before, fs, |before|, total) && n <= |before|
    ensures Fixed(before[..n], fs[..n], n, total)
  {
    assert forall j :: 0 <= j < n ==> before[..n][..j] == before[..j];
  }

  /** What the innermost frame counts, and what hangs below the next one. */
  lemma FixedLast(before: seq<Frame>, fs: seq<Frame>, inner: Tree, total: int)
    requires before != [] && Fixed(before, fs, |before|, total) && FramesSized(before) && Sized(inner)
    requires total == Weight(before) + |Keys(inner)|
    ensures var n := |before| - 1; var f := before[n];
            && fs[n] == Frame(f.key, 1 + SizeOf(f.sub) + SizeOf(inner), f.sub) && FramesSized(before[..n])
            && Sized(Branch(f.sub, f.key, inner)) && Sized(Branch(inner, f.key, f.sub))
            && total == Weight(before[..n]) + |Keys(Branch(f.sub, f.key, inner))|
            && total == Weight(before[..n]) + |Keys(Branch(inner, f.key, f.sub))|
  {
    var f := before[|before| - 1];
    SizeOfSized(f.sub);
    SizeOfSized(inner);
    BranchSized(f.sub, f.key, inner);
    BranchSized(inner, f.key, f.sub);
  }

  /** With the sizes fixed, linking gives the assembled tree. */
  lemma {:induction false} FixedLeft(before: seq<Frame>, fs: seq<Frame>, inner: Tree, total: int)
    requires Fixed(before, fs, |before|, total) && FramesSized(before) && Sized(inner)
    requires total == Weight(before) + |Keys(inner)|
    ensures LinkedLeft(fs, inner) == BuildLeft(before, inner)
    decreases |before|
  {
    if before != [] {
      var n := |before| - 1;
      var f := before[n];
      FixedPrefix(before, fs, n, total);
      FixedLast(before, fs, inner, total);
      FixedLeft(before[..n], fs[..n], Branch(f.sub, f.key, inner), total);
    }
  }

  lemma {:induction false} FixedRight(before: seq<Frame>, fs: seq<Frame>, inner: Tree, total: int)
    requires Fixed(before, fs, |before|, total) && FramesSized(before) && Sized(inner)
    requires total == Weight(before) + |Keys(inner)|
    ensures LinkedRight(fs, inner) == BuildRight(before, inner)
    decreases |before|
  {
    if before != [] {
      var n := |before| - 1;
      var f := before[n];
      FixedPrefix(before, fs, n, total);
      FixedLast(before, fs, inner, total);
      FixedRight(before[..n], fs[..n], Branch(inner, f.key, f.sub), total);
    }
  }

  /** What the main loop keeps: the sizes of the assembly trees. */
  ghost predicate Weighed(z: Zip, lSize: int, rSize: int) {
    ZipSized(z) && lSize == Weight(z.left) && rSize == Weight(z.right)
  }

  lemma LinkWeighed(z: Zip, lSize: int, rSize: int)
    requires Weighed(z, lSize, rSize)
    ensures z.t.left.Node? ==> Weighed(LinkRight(z), lSize, rSize + 1 + SizeOf(z.t.right))
    ensures z.t.right.Node? ==> Weighed(LinkLeft(z), lSize + 1 + SizeOf(z.t.left), rSize)
  {
    SizeOfSized(z.t.left);
    SizeOfSized(z.t.right);
    WeightPush(z.right, Frame(z.t.key, z.t.size, z.t.right));
    WeightPush(z.left, Frame(z.t.key, z.t.size, z.t.left));
  }

  lemma RotateWeighed(z: Zip, lSize: int, rSize: int)
    requires Weighed(z, lSize, rSize)
    ensures z.t.left.Node? ==> Weighed(z.(t := RotateRight(z.t)), lSize, rSize)
    ensures z.t.right.Node? ==> Weighed(z.(t := RotateLeft(z.t)), lSize, rSize)
  {
    RotateSized(z.t);
  }

  /** With the sizes fixed, linking both assembly trees to the last node gives the splayed tree. */
  lemma AssembledFrom(z: Zip, left: seq<Frame>, right: seq<Frame>, lSize: int, rSize: int)
    requires ZipSized(z) && Fixed(z.left, left, |z.left|, lSize) && Fixed(z.right, right, |z.right|, rSize)
    requires lSize == Weight(z.left) + SizeOf(z.t.left) && rSize == Weight(z.right) + SizeOf(z.t.right)
    ensures Node(LinkedLeft(left, z.t.left), z.t.key, lSize + rSize + 1, LinkedRight(right, z.t.right)) == Assemble(z)
  {
    SizeOfSized(z.t.left);
    SizeOfSized(z.t.right);
    FixedLeft(z.left, left, z.t.left, lSize);
    FixedRight(z.right, right, z.t.right, rSize);
    BuildLeftKeys(z.left, z.t.left);
    BuildRightKeys(z.right, z.t.right);
    WeightKeys(z.left);
    WeightKeys(z.right);
    SizeOfSized(BuildLeft(z.left, z.t.left));
    SizeOfSized(BuildRight(z.right, z.t.right));
  }

  // ---------------------------------------------------------------------------
  // sedgewickized_splay
  // ---------------------------------------------------------------------------

  datatype Shape = Nil | Fork(left: Shape, key: int, right: Shape)

  /** A tree without its sizes. */
  function ShapeOf(t: Tree): Shape {
    if t.Leaf? then Nil else Fork(ShapeOf(t.left), t.key, ShapeOf(t.right))
  }

  datatype Hook = Hook(key: int, sub: Shape)

  datatype Cut = Cut(t: Shape, left: seq<Hook>, right: seq<Hook>)

  function HooksOf(fs: seq<Frame>): seq<Hook> {
    seq(|fs|, j requires 0 <= j < |fs| => Hook(fs[j].key, ShapeOf(fs[j].sub)))
  }

  function CutOf(z: Zip): Cut {
    Cut(ShapeOf(z.t), HooksOf(z.left), HooksOf(z.right))
  }

  function HungLeft(hs: seq<Hook>, inner: Shape): Shape {
    if hs == [] then inner
    else var h := hs[|hs| - 1]; HungLeft(hs[..|hs| - 1], Fork(h.sub, h.key, inner))
  }

  function HungRight(hs: seq<Hook>, inner: Shape): Shape {
    if hs == [] then inner
    else var h := hs[|hs| - 1]; HungRight(hs[..|hs| - 1], Fork(inner, h.key, h.sub))
  }

  lemma HooksPush(fs: seq<Frame>, f: Frame)
    ensures HooksOf(fs + [f]) == HooksOf(fs) + [Hook(f.key, ShapeOf(f.sub))]
  {
  }

  lemma {:induction false} HungLeftShape(fs: seq<Frame>, inner: Tree)
    ensures HungLeft(HooksOf(fs), ShapeOf(inner)) == ShapeOf(BuildLeft(fs, inner))
    decreases |fs|
  {
    if fs != [] {
      var f := fs[|fs| - 1];
      assert HooksOf(fs)[..|fs| - 1] == HooksOf(fs[..|fs| - 1]);
      HungLeftShape(fs[..|fs| - 1], Branch(f.sub, f.key, inner));
    }
  }

  lemma {:induction false} HungRightShape(fs: seq<Frame>, inner: Tree)
    ensures HungRight(HooksOf(fs), ShapeOf(inner)) == ShapeOf(BuildRight(fs, inner))
    decreases |fs|
  {
    if fs != [] {
      var f := fs[|fs| - 1];
      assert HooksOf(fs)[..|fs| - 1] == HooksOf(fs[..|fs| - 1]);
      HungRightShape(fs[..|fs| - 1], Branch(inner, f.key, f.sub));
    }
  }

  lemma RotateShape(t: Tree)
    requires t.Node?
    ensures ShapeOf(t) == Fork(ShapeOf(t.left), t.key, ShapeOf(t.right))
    ensures (ShapeOf(t.left).Fork? <==> t.left.Node?) && (ShapeOf(t.right).Fork? <==> t.right.Node?)
    ensures t.left.Node? ==> var y := t.left;
              && ShapeOf(y) == Fork(ShapeOf(y.left), y.key, ShapeOf(y.right))
              && ShapeOf(RotateRight(t)) == Fork(ShapeOf(y.left), y.key, Fork(ShapeOf(y.right), t.key, ShapeOf(t.right)))
    ensures t.right.Node? ==> var y := t.right;
              && ShapeOf(y) == Fork(ShapeOf(y.left), y.key, ShapeOf(y.right))
              && ShapeOf(RotateLeft(t)) == Fork(Fork(ShapeOf(t.left), t.key, ShapeOf(y.left)), y.key, ShapeOf(y.right))
  {
  }

  lemma LinkShape(z: Zip)
    requires z.t.Node?
    ensures var c := CutOf(z);
            && CutOf(LinkRight(z)) == Cut(c.t.left, c.left, c.right + [Hook(c.t.key, c.t.right)])
            && CutOf(LinkLeft(z)) == Cut(c.t.right, c.left + [Hook(c.t.key, c.t.left)], c.right)
  {
    HooksPush(z.right, Frame(z.t.key, z.t.size, z.t.right));
    HooksPush(z.left, Frame(z.t.key, z.t.size, z.t.left));
  }

  /** sedgewickized_splay, which keeps no sizes, gives the same shape as splay. */
  method SedgewickizedSplay(i: int, t: Shape, ghost sized: Tree) returns (r: Shape)
    requires t == ShapeOf(sized)
    ensures r == ShapeOf(Splayed(i, sized))
  {
    if t.Nil? {
      return Nil;
    }
    var c := Cut(t, [], []);
    ghost var z := Zip(sized, [], []);
    while true
      invariant z.t.Node? && c == CutOf(z) && Descend(i, z) == Descend(i, Zip(sized, [], []))
      decreases z.t
    {
      RotateShape(z.t);
      if i < c.t.key {
        ghost var y := if z.t.left.Node? && i < z.t.left.key then z.(t := RotateRight(z.t)) else z;
        if c.t.left.Fork? && i < c.t.left.key {
          var l := c.t.left;
          c := c.(t := Fork(l.left, l.key, Fork(l.right, c.t.key, c.t.right)));
        }
        assert c == CutOf(y);
        if c.t.left.Nil? {
          z := y;
          break;
        }
        LinkShape(y);
        c := Cut(c.t.left, c.left, c.right + [Hook(c.t.key, c.t.right)]);
        z := LinkRight(y);
      } else if i > c.t.key {
        ghost var y := if z.t.right.Node? && i > z.t.right.key then z.(t := RotateLeft(z.t)) else z;
        if c.t.right.Fork? && i > c.t.right.key {
          var l := c.t.right;
          c := c.(t := Fork(Fork(c.t.left, c.t.key, l.left), l.key, l.right));
        }
        assert c == CutOf(y);
        if c.t.right.Nil? {
          z := y;
          break;
        }
        LinkShape(y);
        c := Cut(c.t.right, c.left + [Hook(c.t.key, c.t.left)], c.right);
        z := LinkLeft(y);
      } else {
        break;
      }
    }
    HungLeftShape(z.left, z.t.left);
    HungRightShape(z.right, z.t.right);
    r := Fork(HungLeft(c.left, c.t.left), c.t.key, HungRight(c.right, c.t.right));
  }

  // ---------------------------------------------------------------------------
  // Insertion and deletion
  // ---------------------------------------------------------------------------

  ghost function Inserted(i: int, t: Tree): Tree {
    if t.Leaf? then Node(Leaf, i, 1, Leaf)
    else
      var r := Splayed(i, t);
      if i < r.key then
        var root := Node(Leaf, r.key, 1 + SizeOf(r.right), r.right);
        Node(r.left, i, 1 + SizeOf(r.left) + SizeOf(root), root)
      else if i > r.key then
        var root := Node(r.left, r.key, 1 + SizeOf(r.left), Leaf);
        Node(root, i, 1 + SizeOf(root) + SizeOf(r.right), r.right)
      else r
  }

  ghost function Deleted(i: int, t: Tree): Tree {
    if t.Leaf? then Leaf
    else
      var r := Splayed(i, t);
      if r.key != i then r
      else
        var x := if r.left.Leaf? then r.right else Splayed(i, r.left).(right := r.right);
        if x.Leaf? then Leaf else x.(size := t.size - 1)
  }

  /** insert adds the key, or leaves the keys alone if it is there, with all sizes right. */
  lemma InsertedKeys(i: int, t: Tree)
    requires Sized(t) && Sorted(Keys(t))
    ensures Keys(Inserted(i, t)) == Less(Keys(t), i) + [i] + More(Keys(t), i)
    ensures Sized(Inserted(i, t)) && Sorted(Keys(Inserted(i, t)))
  {
    if t.Node? {
      var r := Splayed(i, t);
      SplayedKeys(i, t);
      SplayedRoot(i, t);
      SortedNode(r);
      var a, b := SplitRoot(i, r);
      SortedJoin(a, i, b);
      InsertedCases(i, t, a, b);
    }
  }

  /** insert leaves the key at the root; splay_delete leaves the largest smaller key there, if there is one. */
  lemma OnTop(i: int, t: Tree)
    requires Sized(t) && Sorted(Keys(t))
    ensures Inserted(i, t).Node? && Inserted(i, t).key == i
    ensures i in Keys(t) && Less(Keys(t), i) != [] ==>
              Deleted(i, t).Node? && Deleted(i, t).key == Less(Keys(t), i)[|Less(Keys(t), i)| - 1]
  {
    if t.Node? {
      SplayedRoot(i, t);
      SplayedSides(i, t);
      var r := Splayed(i, t);
      if r.key == i && r.left.Node? {
        LargestOnTop(i, r.left);
        var x := Splayed(i, r.left);
        assert Keys(r.left)[|Keys(r.left)| - 1] == x.key;
      }
    }
  }

  lemma InsertedCases(i: int, t: Tree, a: seq<int>, b: seq<int>)
    requires t.Node? && Sized(Splayed(i, t))
    requires a == Keys(Splayed(i, t).left) + (if i > Splayed(i, t).key then [Splayed(i, t).key] else [])
    requires b == (if i < Splayed(i, t).key then [Splayed(i, t).key] else []) + Keys(Splayed(i, t).right)
    ensures Keys(Inserted(i, t)) == a + [i] + b && Sized(Inserted(i, t))
  {
    var r := Splayed(i, t);
    InsertedAbove(i, r);
    if i < r.key {
      assert a == Keys(r.left) && Inserted(i, t) == Branch(r.left, i, Branch(Leaf, r.key, r.right));
    } else if i > r.key {
      assert b == Keys(r.right) && Inserted(i, t) == Branch(Branch(r.left, r.key, Leaf), i, r.right);
    } else {
      assert a == Keys(r.left) && b == Keys(r.right);
    }
  }

  /** The keys before and after i in a tree splayed at i. */
  lemma SplitRoot(i: int, r: Tree) returns (a: seq<int>, b: seq<int>)
    requires r.Node? && Sorted(Keys(r)) && Below(Keys(r.left), i) && Above(Keys(r.right), i)
    ensures a == Keys(r.left) + (if i > r.key then [r.key] else []) && b == (if i < r.key then [r.key] else []) + Keys(r.right)
    ensures Below(a, i) && Above(b, i) && Sorted(a) && Sorted(b) && (r.key != i ==> Keys(r) == a + b)
    ensures a == Less(Keys(r), i) && b == More(Keys(r), i)
  {
    SortedNode(r);
    a, b := SplitKeys(i, Keys(r.left), r.key, Keys(r.right));
  }

  lemma SplitKeys(i: int, x: seq<int>, k: int, y: seq<int>) returns (a: seq<int>, b: seq<int>)
    requires Below(x, k) && Above(y, k) && Sorted(x) && Sorted(y) && Below(x, i) && Above(y, i)
    ensures a == x + (if i > k then [k] else []) && b == (if i < k then [k] else []) + y
    ensures Below(a, i) && Above(b, i) && Sorted(a) && Sorted(b) && (k != i ==> x + [k] + y == a + b)
    ensures a == Less(x + [k] + y, i) && b == More(x + [k] + y, i)
  {
    a, b := x + (if i > k then [k] else []), (if i < k then [k] else []) + y;
    SidesSorted(i, x, k, y, a, b);
    if i == k {
      SplitAround(a, b, i);
    } else {
      SplitTwo(a, b, i);
    }
  }

  lemma SidesSorted(i: int, x: seq<int>, k: int, y: seq<int>, a: seq<int>, b: seq<int>)
    requires Below(x, k) && Above(y, k) && Sorted(x) && Sorted(y) && Below(x, i) && Above(y, i)
    requires a == x + (if i > k then [k] else []) && b == (if i < k then [k] else []) + y
    ensures Below(a, i) && Above(b, i) && Sorted(a) && Sorted(b) && (if k == i then a == x && b == y else x + [k] + y == a + b)
  {
  }

  /** The root of insert above a splayed tree. */
  lemma InsertedAbove(i: int, r: Tree)
    requires r.Node? && Sized(r)
    ensures i < r.key ==>
              var t := Branch(r.left, i, Branch(Leaf, r.key, r.right)); Sized(t) && Keys(t) == Keys(r.left) + [i] + ([r.key] + Keys(r.right))
    ensures i > r.key ==>
              var t := Branch(Branch(r.left, r.key, Leaf), i, r.right); Sized(t) && Keys(t) == (Keys(r.left) + [r.key]) + [i] + Keys(r.right)
  {
    BranchSized(Leaf, r.key, r.right);
    BranchSized(r.left, r.key, Leaf);
    assert Keys(Branch(Leaf, r.key, r.right)) == [r.key] + Keys(r.right);
    assert Keys(Branch(r.left, r.key, Leaf)) == Keys(r.left) + [r.key];
    if i < r.key {
      BranchSized(r.left, i, Branch(Leaf, r.key, r.right));
    } else {
      BranchSized(Branch(r.left, r.key, Leaf), i, r.right);
    }
  }

  lemma LargestOnTop(i: int, t: Tree)
    requires Sized(t) && Sorted(Keys(t)) && t.Node? && Below(Keys(t), i)
    ensures var x := Splayed(i, t); x.right.Leaf? && Keys(x.left) + [x.key] == Keys(t) && Sized(x)
  {
    SplayedKeys(i, t);
    SplayedRoot(i, t);
    var x := Splayed(i, t);
    if x.right.Node? {
      var n := |Keys(x.left)| + 1 + |Keys(x.right.left)|;
      assert Keys(t)[n] == x.right.key;
      assert Keys(x.right)[|Keys(x.right.left)|] == x.right.key;
    }
  }

  lemma DeletedSized(left: Tree, key: int, right: Tree, size: int)
    requires Sized(left) && Sized(right) && size == |Keys(left)| + |Keys(right)| + 1
    ensures Sized(Node(left, key, size, right)) && Keys(Node(left, key, size, right)) == Keys(left) + [key] + Keys(right)
  {
  }

  lemma DeletedRoot(i: int, t: Tree)
    requires t.Node? && Sized(t) && Splayed(i, t).key == i && Keys(Splayed(i, t)) == Keys(t)
    requires Sized(Splayed(i, t)) && Sorted(Keys(Splayed(i, t).left)) && Below(Keys(Splayed(i, t).left), i)
    ensures Keys(Deleted(i, t)) == Keys(Splayed(i, t).left) + Keys(Splayed(i, t).right) && Sized(Deleted(i, t))
  {
    var r := Splayed(i, t);
    assert |Keys(t)| == |Keys(r.left)| + 1 + |Keys(r.right)|;
    if r.left.Node? {
      LargestOnTop(i, r.left);
      var x := Splayed(i, r.left);
      DeletedSized(x.left, x.key, r.right, t.size - 1);
    } else {
      assert Keys(r.left) + Keys(r.right) == Keys(r.right);
    }
  }

  /** The keys of a tree splayed at i, on either side of i. */
  lemma SplayedSides(i: int, t: Tree)
    requires Sized(t) && Sorted(Keys(t)) && t.Node?
    ensures var r := Splayed(i, t);
            && Keys(r) == Keys(t) && Sized(r) && Sorted(Keys(r.left)) && Below(Keys(r.left), i)
            && Sorted(Less(Keys(t), i) + More(Keys(t), i))
            && if r.key == i then Keys(r.left) == Less(Keys(t), i) && Keys(r.right) == More(Keys(t), i)
               else Keys(t) == Less(Keys(t), i) + More(Keys(t), i)
  {
    var r := Splayed(i, t);
    SplayedKeys(i, t);
    SplayedRoot(i, t);
    SortedNode(r);
    var a, b := SplitRoot(i, r);
    SortedConcat(a, i, b);
    assert r.key == i ==> a == Keys(r.left) && b == Keys(r.right);
  }

  /** splay_delete removes the key, or leaves the keys alone if it is not there, with all sizes right. */
  lemma DeletedKeys(i: int, t: Tree)
    requires Sized(t) && Sorted(Keys(t))
    ensures Keys(Deleted(i, t)) == Less(Keys(t), i) + More(Keys(t), i)
    ensures Sized(Deleted(i, t)) && Sorted(Keys(Deleted(i, t)))
  {
    if t.Node? {
      SplayedSides(i, t);
      if Splayed(i, t).key == i {
        DeletedRoot(i, t);
      }
    }
  }
}
