/**
 What splaying is for: it roughly halves the depth of every node on the way to the key
 (CDNSimulator/libCacheSim/dataStructure/splay.c).
 */
module SplayDepth {
  import opened SplayTree

  /** The keys that a binary search for i meets. */
  ghost function SearchPath(i: int, t: Tree): seq<int> {
    if t.Leaf? then []
    else [t.key] + if i < t.key then SearchPath(i, t.left) else if i > t.key then SearchPath(i, t.right) else []
  }

  /** A node with key k is at depth d. */
  ghost predicate AtDepth(t: Tree, k: int, d: nat) {
    t.Node? && if d == 0 then t.key == k else AtDepth(t.left, k, d - 1) || AtDepth(t.right, k, d - 1)
  }

  /** k is the key of a frame, or that of the root of what hangs outside it. */
  ghost predicate Fits(f: Frame, k: int) {
    f.key == k || (f.sub.Node? && f.sub.key == k)
  }

  /** k fits a frame that is one of the first of its assembly tree, as the place q of k on the search path says. */
  ghost predicate InFrames(fs: seq<Frame>, k: int, q: nat) {
    exists j: nat {:trigger fs[j]} :: j < |fs| && 2 * j <= q && Fits(fs[j], k)
  }

  ghost predicate Passed(z: Zip, k: int, q: nat) {
    InFrames(z.left, k, q) || InFrames(z.right, k, q)
  }

  /** The first nodes of the search path are in the assembly trees, and the rest is still to come. An assembly
      tree that grows next has at most half as many frames as nodes have been passed. */
  ghost predicate Halved(i: int, path: seq<int>, z: Zip, p: nat) {
    && z.t.Node? && p <= |path| && path[p..] == SearchPath(i, z.t)
    && (forall q: nat {:trigger path[q]} :: q < p ==> Passed(z, path[q], q))
    && 2 * |z.left| <= p + 1 && 2 * |z.right| <= p + 1
    && (i < z.t.key ==> 2 * |z.right| <= p) && (i > z.t.key ==> 2 * |z.left| <= p)
  }

  lemma FramesPush(fs: seq<Frame>, f: Frame, k: int, q: nat)
    ensures InFrames(fs, k, q) ==> InFrames(fs + [f], k, q)
    ensures 2 * |fs| <= q && Fits(f, k) ==> InFrames(fs + [f], k, q)
  {
    var gs := fs + [f];
    if InFrames(fs, k, q) {
      var j: nat :| j < |fs| && 2 * j <= q && Fits(fs[j], k);
      assert gs[j] == fs[j];
    }
    assert gs[|fs|] == f;
  }

  /** A new frame takes in the next nodes of the path. */
  lemma PushedRight(path: seq<int>, z: Zip, y: Zip, f: Frame, p: nat, n: nat)
    requires p <= n <= |path| && y.left == z.left && y.right == z.right + [f] && 2 * |z.right| <= p
    requires forall q: nat {:trigger path[q]} :: q < p ==> Passed(z, path[q], q)
    requires forall q: nat {:trigger path[q]} :: p <= q < n ==> Fits(f, path[q])
    ensures forall q: nat {:trigger path[q]} :: q < n ==> Passed(y, path[q], q)
  {
    forall q: nat {:trigger path[q]} | q < n
      ensures Passed(y, path[q], q)
    {
      FramesPush(z.right, f, path[q], q);
    }
  }

  lemma PushedLeft(path: seq<int>, z: Zip, y: Zip, f: Frame, p: nat, n: nat)
    requires p <= n <= |path| && y.right == z.right && y.left == z.left + [f] && 2 * |z.left| <= p
    requires forall q: nat {:trigger path[q]} :: q < p ==> Passed(z, path[q], q)
    requires forall q: nat {:trigger path[q]} :: p <= q < n ==> Fits(f, path[q])
    ensures forall q: nat {:trigger path[q]} :: q < n ==> Passed(y, path[q], q)
  {
    forall q: nat {:trigger path[q]} | q < n
      ensures Passed(y, path[q], q)
    {
      FramesPush(z.left, f, path[q], q);
    }
  }

  /** The subtree in which the search for i goes on. */
  ghost predicate Toward(i: int, t: Tree, child: Tree) {
    t.Node? && ((i < t.key && child == t.left) || (i > t.key && child == t.right))
  }

  lemma NextOne(i: int, t: Tree, child: Tree)
    requires Toward(i, t, child)
    ensures SearchPath(i, t) == [t.key] + SearchPath(i, child)
  {
  }

  lemma Forward(path: seq<int>, p: nat, k: int, rest: seq<int>)
    requires p <= |path| && path[p..] == [k] + rest
    ensures p < |path| && path[p] == k && path[p + 1..] == rest
  {
    assert path[p] == path[p..][0] && path[p + 1..] == path[p..][1..];
  }

  /** Linking one node. */
  lemma LinkRightHalved(i: int, path: seq<int>, z: Zip, p: nat)
    requires Halved(i, path, z, p) && i < z.t.key && z.t.left.Node? && !(i < z.t.left.key)
    ensures Halved(i, path, LinkRight(z), p + 1)
  {
    NextOne(i, z.t, z.t.left);
    Forward(path, p, z.t.key, SearchPath(i, z.t.left));
    PushedRight(path, z, LinkRight(z), Frame(z.t.key, z.t.size, z.t.right), p, p + 1);
  }

  lemma LinkLeftHalved(i: int, path: seq<int>, z: Zip, p: nat)
    requires Halved(i, path, z, p) && i > z.t.key && z.t.right.Node? && !(i > z.t.right.key)
    ensures Halved(i, path, LinkLeft(z), p + 1)
  {
    NextOne(i, z.t, z.t.right);
    Forward(path, p, z.t.key, SearchPath(i, z.t.right));
    PushedLeft(path, z, LinkLeft(z), Frame(z.t.key, z.t.size, z.t.left), p, p + 1);
  }

  /** The search goes twice to the same side. */
  lemma NextTwo(i: int, path: seq<int>, t: Tree, p: nat, child: Tree, rest: Tree)
    requires p <= |path| && path[p..] == SearchPath(i, t) && Toward(i, t, child) && Toward(i, child, rest)
    ensures p + 2 <= |path| && path[p] == t.key && path[p + 1] == child.key && path[p + 2..] == SearchPath(i, rest)
  {
    NextOne(i, t, child);
    NextOne(i, child, rest);
    Forward(path, p, t.key, SearchPath(i, child));
    Forward(path, p + 1, child.key, SearchPath(i, rest));
  }

  /** Rotating and linking takes two nodes off the path. */
  lemma RotateRightHalved(i: int, path: seq<int>, z: Zip, p: nat)
    requires Halved(i, path, z, p) && i < z.t.key && z.t.left.Node? && i < z.t.left.key && z.t.left.left.Node?
    ensures Halved(i, path, LinkRight(z.(t := RotateRight(z.t))), p + 2)
  {
    var t, y := z.t, LinkRight(z.(t := RotateRight(z.t)));
    NextTwo(i, path, t, p, t.left, t.left.left);
    PushedRight(path, z, y, y.right[|z.right|], p, p + 2);
  }

  lemma RotateLeftHalved(i: int, path: seq<int>, z: Zip, p: nat)
    requires Halved(i, path, z, p) && i > z.t.key && z.t.right.Node? && i > z.t.right.key && z.t.right.right.Node?
    ensures Halved(i, path, LinkLeft(z.(t := RotateLeft(z.t))), p + 2)
  {
    var t, y := z.t, LinkLeft(z.(t := RotateLeft(z.t)));
    NextTwo(i, path, t, p, t.right, t.right.right);
    PushedLeft(path, z, y, y.left[|z.left|], p, p + 2);
  }

  /** The path is used up but for the current node and perhaps one more, which is then the root of its right or
      left subtree. */
  ghost predicate Arrived(path: seq<int>, e: Zip, r: nat) {
    && e.t.Node? && |path| - 2 <= r < |path|
    && (forall q: nat {:trigger path[q]} :: q < r ==> Passed(e, path[q], q))
    && path[|path| - 1] == e.t.key
    && (r == |path| - 2 ==> (e.t.right.Node? && e.t.right.key == path[r] && 2 * |e.right| <= r) ||
                            (e.t.left.Node? && e.t.left.key == path[r] && 2 * |e.left| <= r))
  }

  lemma LastTwo(i: int, path: seq<int>, t: Tree, p: nat, child: Tree)
    requires p <= |path| && path[p..] == SearchPath(i, t) && Toward(i, t, child) && Toward(i, child, Leaf)
    ensures |path| == p + 2 && path[p] == t.key && path[p + 1] == child.key
  {
    NextTwo(i, path, t, p, child, Leaf);
  }

  /** The ways the loop ends: with the left or right child rotated to the top, or where it is. */
  lemma StopRight(i: int, path: seq<int>, z: Zip, p: nat)
    requires Halved(i, path, z, p) && i < z.t.key && z.t.left.Node? && i < z.t.left.key && z.t.left.left.Leaf?
    ensures Arrived(path, z.(t := RotateRight(z.t)), p)
  {
    LastTwo(i, path, z.t, p, z.t.left);
    SameFrames(path, z, z.(t := RotateRight(z.t)), p);
  }

  lemma StopLeft(i: int, path: seq<int>, z: Zip, p: nat)
    requires Halved(i, path, z, p) && i > z.t.key && z.t.right.Node? && i > z.t.right.key && z.t.right.right.Leaf?
    ensures Arrived(path, z.(t := RotateLeft(z.t)), p)
  {
    LastTwo(i, path, z.t, p, z.t.right);
    SameFrames(path, z, z.(t := RotateLeft(z.t)), p);
  }

  lemma StopHere(i: int, path: seq<int>, z: Zip, p: nat)
    requires Halved(i, path, z, p) && (i < z.t.key ==> z.t.left.Leaf?) && (i > z.t.key ==> z.t.right.Leaf?)
    ensures Arrived(path, z, p)
  {
    assert SearchPath(i, z.t) == [z.t.key] + [];
    Forward(path, p, z.t.key, []);
  }

  lemma SameFrames(path: seq<int>, z: Zip, y: Zip, p: nat)
    requires p <= |path| && y.left == z.left && y.right == z.right
    requires forall q: nat {:trigger path[q]} :: q < p ==> Passed(z, path[q], q)
    ensures forall q: nat {:trigger path[q]} :: q < p ==> Passed(y, path[q], q)
  {
  }

  /** The loop goes on. */
  ghost predicate GoesOn(i: int, t: Tree) {
    t.Node? && ((i < t.key && t.left.Node? && (i < t.left.key ==> t.left.left.Node?)) ||
                (i > t.key && t.right.Node? && (i > t.right.key ==> t.right.right.Node?)))
  }

  /** One round of the main loop keeps the search path halved. */
  lemma Round(i: int, path: seq<int>, z: Zip, p: nat) returns (y: Zip, n: nat)
    requires Halved(i, path, z, p) && GoesOn(i, z.t)
    ensures Halved(i, path, y, n) && Descend(i, z) == Descend(i, y) && (z.t decreases to y.t)
  {
    if i < z.t.key {
      if i < z.t.left.key {
        RotateRightHalved(i, path, z, p);
        y, n := LinkRight(z.(t := RotateRight(z.t))), p + 2;
      } else {
        LinkRightHalved(i, path, z, p);
        y, n := LinkRight(z), p + 1;
      }
    } else {
      if i > z.t.right.key {
        RotateLeftHalved(i, path, z, p);
        y, n := LinkLeft(z.(t := RotateLeft(z.t))), p + 2;
      } else {
        LinkLeftHalved(i, path, z, p);
        y, n := LinkLeft(z), p + 1;
      }
    }
  }

  lemma LastRound(i: int, path: seq<int>, z: Zip, p: nat)
    requires Halved(i, path, z, p) && !GoesOn(i, z.t)
    ensures Arrived(path, Descend(i, z), p)
  {
    if i < z.t.key && z.t.left.Node? {
      StopRight(i, path, z, p);
    } else if i > z.t.key && z.t.right.Node? {
      StopLeft(i, path, z, p);
    } else {
      StopHere(i, path, z, p);
    }
  }

  lemma {:induction false} DescendHalves(i: int, path: seq<int>, z: Zip, p: nat) returns (r: nat)
    requires Halved(i, path, z, p)
    ensures Arrived(path, Descend(i, z), r)
    decreases z.t
  {
    if GoesOn(i, z.t) {
      var y, n := Round(i, path, z, p);
      r := DescendHalves(i, path, y, n);
    } else {
      LastRound(i, path, z, p);
      r := p;
    }
  }

  // ---------------------------------------------------------------------------
  // Depths after assembling
  // ---------------------------------------------------------------------------

  /** What hangs below all frames is as deep as there are frames. */
  lemma {:induction false} BuiltInner(fs: seq<Frame>, inner: Tree, k: int, d: nat)
    requires AtDepth(inner, k, d)
    ensures AtDepth(BuildLeft(fs, inner), k, |fs| + d) && AtDepth(BuildRight(fs, inner), k, |fs| + d)
    decreases |fs|
  {
    if fs != [] {
      var f := fs[|fs| - 1];
      BuiltInner(fs[..|fs| - 1], Branch(f.sub, f.key, inner), k, d + 1);
      BuiltInner(fs[..|fs| - 1], Branch(inner, f.key, f.sub), k, d + 1);
    }
  }

  /** Frame j is at depth j, and the root of what hangs outside it one deeper. */
  lemma {:induction false} BuiltFrame(fs: seq<Frame>, inner: Tree, j: nat)
    requires j < |fs|
    ensures AtDepth(BuildLeft(fs, inner), fs[j].key, j) && AtDepth(BuildRight(fs, inner), fs[j].key, j)
    ensures fs[j].sub.Node? ==> AtDepth(BuildLeft(fs, inner), fs[j].sub.key, j + 1) && AtDepth(BuildRight(fs, inner), fs[j].sub.key, j + 1)
    decreases |fs|
  {
    var n := |fs| - 1;
    var f := fs[n];
    if j < n {
      BuiltFrame(fs[..n], Branch(f.sub, f.key, inner), j);
      BuiltFrame(fs[..n], Branch(inner, f.key, f.sub), j);
    } else {
      BuiltInner(fs[..n], Branch(f.sub, f.key, inner), f.key, 0);
      BuiltInner(fs[..n], Branch(inner, f.key, f.sub), f.key, 0);
      if f.sub.Node? {
        assert AtDepth(f.sub, f.sub.key, 0);
        BuiltInner(fs[..n], Branch(f.sub, f.key, inner), f.sub.key, 1);
        BuiltInner(fs[..n], Branch(inner, f.key, f.sub), f.sub.key, 1);
      }
    }
  }

  lemma FrameDepth(z: Zip, k: int, q: nat) returns (d: nat)
    requires z.t.Node? && Passed(z, k, q)
    ensures AtDepth(Assemble(z), k, d) && 2 * d <= q + 4
  {
    if InFrames(z.left, k, q) {
      var j: nat :| j < |z.left| && 2 * j <= q && Fits(z.left[j], k);
      BuiltFrame(z.left, z.t.left, j);
      d := if z.left[j].key == k then j + 1 else j + 2;
    } else {
      var j: nat :| j < |z.right| && 2 * j <= q && Fits(z.right[j], k);
      BuiltFrame(z.right, z.t.right, j);
      d := if z.right[j].key == k then j + 1 else j + 2;
    }
  }

  /** The q-th node on the way to the key is at depth q / 2 + 2 or less after splaying. */
  lemma SplayHalves(i: int, t: Tree, q: nat) returns (d: nat)
    requires q < |SearchPath(i, t)|
    ensures AtDepth(Splayed(i, t), SearchPath(i, t)[q], d) && 2 * d <= q + 4
  {
    var path, z := SearchPath(i, t), Zip(t, [], []);
    assert path[0..] == path;
    var r := DescendHalves(i, path, z, 0);
    var e := Descend(i, z);
    if q < r {
      d := FrameDepth(e, path[q], q);
    } else if q == |path| - 1 {
      d := 0;
    } else if e.t.right.Node? && e.t.right.key == path[r] && 2 * |e.right| <= r {
      BuiltInner(e.right, e.t.right, path[r], 0);
      d := |e.right| + 1;
    } else {
      BuiltInner(e.left, e.t.left, path[r], 0);
      d := |e.left| + 1;
    }
  }
}
