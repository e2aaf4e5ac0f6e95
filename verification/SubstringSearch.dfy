/**
 Knuth-Morris-Pratt search with the optimised failure table, forwards and backwards
 (CDNSimulator/libCacheSim/dataStructure/ut/utstring.h).
 */
module SubstringSearch {
  import opened Sequences

  // ---------------------------------------------------------------------------
  // Borders
  // ---------------------------------------------------------------------------

  /** The first k characters of p are also the last k of its first i characters. */
  ghost predicate Border(p: seq<char>, i: int, k: int) {
    0 <= k < i <= |p| && p[..k] == p[i - k..i]
  }

  /** j is the longest proper border of the first i characters; -1 for the empty prefix. */
  ghost predicate Longest(p: seq<char>, i: int, j: int) {
    && -1 <= j < i && (j >= 0 ==> Border(p, i, j))
    && forall k {:trigger Border(p, i, k)} :: j < k && Border(p, i, k) ==> false
  }

  /** t is the longest border of the first i characters that is followed by another character than
      they are; -1 if there is none. */
  ghost predicate Fails(p: seq<char>, i: int, t: int) {
    && 0 <= i < |p| && -1 <= t < i
    && (t >= 0 ==> Border(p, i, t) && p[t] != p[i])
    && forall k {:trigger Border(p, i, k)} :: t < k && Border(p, i, k) ==> p[k] == p[i]
  }

  /** Shorter borders of a prefix are the borders of its longer borders. */
  lemma BorderOfBorder(p: seq<char>, i: int, j: int, k: int)
    requires Border(p, i, j) && 0 <= k < j
    ensures Border(p, i, k) <==> Border(p, j, k)
  {
    assert p[j - k..j] == p[..j][j - k..];
    assert p[i - j..i][j - k..] == p[i - k..i];
  }

  /** A border grows by one character exactly when both of its ends do. */
  lemma BorderGrows(p: seq<char>, i: int, k: int)
    requires 0 <= k < i < |p|
    ensures Border(p, i + 1, k + 1) <==> Border(p, i, k) && p[k] == p[i]
  {
    assert p[..k + 1] == p[..k] + [p[k]];
    assert p[i - k..i + 1] == p[i - k..i] + [p[i]];
  }

  /** While the table is being built, j runs through the borders of the first i characters. */
  ghost predicate Candidate(p: seq<char>, i: int, j: int) {
    && 0 <= i < |p| && -1 <= j < i && (j >= 0 ==> Border(p, i, j))
    && forall k {:trigger Border(p, i, k)} :: j < k && Border(p, i, k) ==> p[k] != p[i]
  }

  lemma NextCandidate(p: seq<char>, i: int, j: int, t: int)
    requires Candidate(p, i, j) && j >= 0 && p[i] != p[j] && Fails(p, j, t)
    ensures Candidate(p, i, t)
  {
    if t >= 0 {
      BorderOfBorder(p, i, j, t);
    }
    forall k {:trigger Border(p, i, k)} | t < k && Border(p, i, k)
      ensures p[k] != p[i]
    {
      if k < j {
        BorderOfBorder(p, i, j, k);
      }
    }
  }

  lemma LongestIsCandidate(p: seq<char>, i: int, j: int)
    requires Longest(p, i, j) && 0 <= i < |p|
    ensures Candidate(p, i, j)
  {
  }

  /** The first candidate that is followed by the same character gives the longest border of the next prefix. */
  lemma NextLongest(p: seq<char>, i: int, j: int)
    requires Candidate(p, i, j) && (j >= 0 ==> p[i] == p[j])
    ensures Longest(p, i + 1, j + 1)
  {
    if j >= 0 {
      BorderGrows(p, i, j);
    }
    forall k {:trigger Border(p, i + 1, k)} | j + 1 < k && Border(p, i + 1, k)
      ensures false
    {
      BorderGrows(p, i, k - 1);
    }
  }

  /** The table entry for the longest border j of the first i characters. */
  lemma NextFails(p: seq<char>, i: int, j: int, t: int)
    requires Longest(p, i, j) && 0 <= j < i < |p|
    requires if p[i] == p[j] then Fails(p, j, t) else t == j
    ensures Fails(p, i, t)
  {
    if p[i] == p[j] {
      if t >= 0 {
        BorderOfBorder(p, i, j, t);
      }
      forall k {:trigger Border(p, i, k)} | t < k && Border(p, i, k)
        ensures p[k] == p[i]
      {
        if k < j {
          BorderOfBorder(p, i, j, k);
        }
      }
    }
  }

  /** The failure table of a needle. */
  ghost predicate TableOk(p: seq<char>, table: seq<int>) {
    && |table| == |p| + 1 && p != []
    && forall i {:trigger table[i]} :: 0 <= i < |p| ==> Fails(p, i, table[i])
  }

  // ---------------------------------------------------------------------------
  // Occurrences
  // ---------------------------------------------------------------------------

  ghost predicate Occurs(p: seq<char>, h: seq<char>, s: int) {
    0 <= s && s + |p| <= |h| && h[s..s + |p|] == p
  }

  /** The first i characters of the needle end at position j of the haystack, and no occurrence starts
      before them; i is -1 when none starts up to j either. */
  ghost predicate Matched(p: seq<char>, h: seq<char>, i: int, j: int) {
    && -1 <= i <= |p| && 0 <= j <= |h| && i <= j
    && (i >= 0 ==> p[..i] == h[j - i..j])
    && forall s {:trigger Occurs(p, h, s)} :: s < j - i ==> !Occurs(p, h, s)
  }

  /** An occurrence that overlaps the matched part is a border of it. */
  lemma OverlapIsBorder(p: seq<char>, h: seq<char>, i: int, j: int, s: int)
    requires Matched(p, h, i, j) && 0 <= i < |p| && j < |h| && j - i <= s <= j
    ensures Occurs(p, h, s) ==> p[j - s] == h[j] && (s > j - i ==> Border(p, i, j - s))
  {
    var k := j - s;
    if Occurs(p, h, s) {
      assert h[s..s + |p|][..k] == h[s..j];
      assert h[j - i..j][i - k..] == h[s..j];
      assert p[..i][i - k..] == p[i - k..i];
      assert h[s..s + |p|][k] == h[j];
    }
  }

  /** After a mismatch the needle moves along to the table entry, and no occurrence is lost. */
  lemma Skip(p: seq<char>, h: seq<char>, i: int, j: int, t: int)
    requires Matched(p, h, i, j) && 0 <= i < |p| && j < |h| && p[i] != h[j] && Fails(p, i, t)
    ensures Matched(p, h, t, j)
  {
    if t >= 0 {
      assert h[j - i..j][i - t..] == h[j - t..j];
      assert p[..i][i - t..] == p[i - t..i];
    }
    forall s {:trigger Occurs(p, h, s)} | s < j - t
      ensures !Occurs(p, h, s)
    {
      NoneHere(p, h, i, j, t, s);
    }
  }

  lemma NoneHere(p: seq<char>, h: seq<char>, i: int, j: int, t: int, s: int)
    requires Matched(p, h, i, j) && 0 <= i < |p| && j < |h| && p[i] != h[j] && Fails(p, i, t) && s < j - t
    ensures !Occurs(p, h, s)
  {
    if j - i <= s {
      OverlapIsBorder(p, h, i, j, s);
    }
  }

  /** The next character matches. */
  lemma Advance(p: seq<char>, h: seq<char>, i: int, j: int)
    requires Matched(p, h, i, j) && i < |p| && j < |h| && (i >= 0 ==> p[i] == h[j])
    ensures Matched(p, h, i + 1, j + 1)
  {
    if i >= 0 {
      assert p[..i + 1] == p[..i] + [p[i]];
      assert h[j - i..j + 1] == h[j - i..j] + [h[j]];
    }
  }

  // ---------------------------------------------------------------------------
  // Left to right
  // ---------------------------------------------------------------------------

  /** The inner loop of _utstring_BuildTable. */
  method FallBack(p: seq<char>, table: array<int>, i: int, start: int) returns (j: int)
    requires table.Length == |p| + 1 && Candidate(p, i, start)
    requires forall x {:trigger table[x]} :: 0 <= x <= i ==> Fails(p, x, table[x])
    ensures Candidate(p, i, j) && (j > -1 ==> p[i] == p[j])
  {
    j := start;
    while j > -1 && p[i] != p[j]
      invariant Candidate(p, i, j)
      decreases j
    {
      NextCandidate(p, i, j, table[j]);
      j := table[j];
    }
  }

  /** _utstring_BuildTable. */
  method BuildTable(p: seq<char>, table: array<int>)
    requires p != [] && table.Length == |p| + 1
    modifies table
    ensures TableOk(p, table[..]) && Longest(p, |p|, table[|p|])
  {
    var i, j := 0, -1;
    table[0] := -1;
    while i < |p|
      invariant 0 <= i <= |p| && Longest(p, i, j)
      invariant forall x {:trigger table[x]} :: 0 <= x <= i && x < |p| ==> Fails(p, x, table[x])
      invariant i == |p| ==> table[i] == j
    {
      LongestIsCandidate(p, i, j);
      j := FallBack(p, table, i, j);
      NextLongest(p, i, j);
      i := i + 1;
      j := j + 1;
      if i < |p| {
        if p[i] == p[j] {
          NextFails(p, i, j, table[j]);
          table[i] := table[j];
        } else {
          NextFails(p, i, j, j);
          table[i] := j;
        }
      } else {
        table[i] := j;
      }
    }
  }

  /** The inner loop of _utstring_find. */
  method Shift(p: seq<char>, h: seq<char>, table: array<int>, start: int, j: int) returns (i: int)
    requires TableOk(p, table[..]) && Matched(p, h, start, j) && start < |p| && j < |h|
    ensures Matched(p, h, i, j) && i < |p| && (i > -1 ==> p[i] == h[j])
  {
    i := start;
    while i > -1 && p[i] != h[j]
      invariant Matched(p, h, i, j) && i < |p|
      decreases i
    {
      assert table[..][i] == table[i];
      Skip(p, h, i, j, table[i]);
      i := table[i];
    }
  }

  /** What a search from the left answers. */
  ghost predicate FirstAt(p: seq<char>, h: seq<char>, found: int) {
    if found == -1 then forall s {:trigger Occurs(p, h, s)} :: !Occurs(p, h, s)
    else Occurs(p, h, found) && forall s {:trigger Occurs(p, h, s)} :: s < found ==> !Occurs(p, h, s)
  }

  /** _utstring_find: the first occurrence, or -1 exactly when there is none. */
  method Find(h: seq<char>, p: seq<char>, table: array<int>) returns (found: int)
    requires TableOk(p, table[..])
    ensures FirstAt(p, h, found)
  {
    found := -1;
    var i, j := 0, 0;
    while j < |h| && |h| - j + i >= |p|
      invariant 0 <= i < |p| && Matched(p, h, i, j) && found == -1
      decreases |h| - j
    {
      i := Shift(p, h, table, i, j);
      Advance(p, h, i, j);
      i := i + 1;
      j := j + 1;
      if i >= |p| {
        found := j - i;
        assert p[..i] == p;
        return;
      }
    }
  }

  // ---------------------------------------------------------------------------
  // Right to left
  // ---------------------------------------------------------------------------

  /** The failure table of a needle read from the right, as the failure table of the reversed needle. */
  ghost function Mirrored(p: seq<char>, table: seq<int>): seq<int> {
    seq(|table|, x requires 0 <= x < |table| => |p| - 1 - table[|table| - 1 - x])
  }

  /** Occurrences in the reversed haystack are occurrences, counted from the other end. */
  lemma OccursReversed(p: seq<char>, h: seq<char>, s: int)
    ensures Occurs(Reversed(p), Reversed(h), s) <==> Occurs(p, h, |h| - |p| - s)
  {
    var t := |h| - |p| - s;
    if 0 <= s && s + |p| <= |h| {
      var a, b := Reversed(h)[s..s + |p|], h[t..t + |p|];
      assert forall k :: 0 <= k < |p| ==> a[k] == b[|p| - 1 - k];
      if b == p {
        assert a == Reversed(p);
      }
      if a == Reversed(p) {
        forall k | 0 <= k < |p|
          ensures b[k] == p[k]
        {
          assert a[|p| - 1 - k] == Reversed(p)[|p| - 1 - k];
        }
      }
    }
  }

  /** What a search from the right answers. */
  ghost predicate LastAt(p: seq<char>, h: seq<char>, found: int) {
    if found == -1 then forall s {:trigger Occurs(p, h, s)} :: !Occurs(p, h, s)
    else Occurs(p, h, found) && forall s {:trigger Occurs(p, h, s)} :: s > found ==> !Occurs(p, h, s)
  }

  lemma FirstIsLast(p: seq<char>, h: seq<char>, found: int)
    requires FirstAt(Reversed(p), Reversed(h), found)
    ensures LastAt(p, h, if found == -1 then -1 else |h| - |p| - found)
  {
    forall s {:trigger Occurs(p, h, s)} | found == -1 || s > |h| - |p| - found
      ensures !Occurs(p, h, s)
    {
      OccursReversed(p, h, |h| - |p| - s);
    }
    if found != -1 {
      OccursReversed(p, h, found);
    }
  }

  /** Entry x of the table of a needle read from the right. */
  ghost predicate FailsR(p: seq<char>, x: int, t: int) {
    Fails(Reversed(p), |p| - x, |p| - 1 - t)
  }

  lemma ReversedAt(s: seq<char>, i: int)
    requires 0 <= i < |s|
    ensures Reversed(s)[|s| - 1 - i] == s[i]
  {
  }

  /** The entries after i are there. */
  ghost predicate FilledR(p: seq<char>, table: seq<int>, i: int) {
    |table| == |p| + 1 && forall x {:trigger FailsR(p, x, table[x])} :: i < x <= |p| && x > 0 ==> FailsR(p, x, table[x])
  }

  lemma FilledAt(p: seq<char>, table: seq<int>, i: int, x: int)
    requires FilledR(p, table, i) && i < x <= |p| && x > 0
    ensures FailsR(p, x, table[x])
  {
  }

  lemma FilledNext(p: seq<char>, table: seq<int>, i: int, t: int)
    requires FilledR(p, table, i) && 0 <= i <= |p| && (i > 0 ==> FailsR(p, i, t))
    ensures FilledR(p, table[i := t], i - 1)
  {
    var table' := table[i := t];
    forall x {:trigger FailsR(p, x, table'[x])} | i - 1 < x <= |p| && x > 0
      ensures FailsR(p, x, table'[x])
    {
      if x > i {
        FilledAt(p, table, i, x);
      }
    }
  }

  lemma NextCandidateR(p: seq<char>, i: int, j: int, t: int)
    requires Candidate(Reversed(p), |p| - 1 - i, |p| - 1 - j) && j < |p| && p[i] != p[j] && FailsR(p, j + 1, t)
    ensures Candidate(Reversed(p), |p| - 1 - i, |p| - 1 - t) && t > j
  {
    ReversedAt(p, i);
    ReversedAt(p, j);
    NextCandidate(Reversed(p), |p| - 1 - i, |p| - 1 - j, |p| - 1 - t);
  }

  /** The inner loop of _utstring_BuildTableR; positions count from the right in the reversed needle. */
  method FallBackR(p: seq<char>, table: array<int>, i: int, start: int) returns (j: int)
    requires Candidate(Reversed(p), |p| - 1 - i, |p| - 1 - start) && FilledR(p, table[..], i)
    ensures Candidate(Reversed(p), |p| - 1 - i, |p| - 1 - j) && (j < |p| ==> p[i] == p[j])
  {
    j := start;
    while j < |p| && p[i] != p[j]
      invariant Candidate(Reversed(p), |p| - 1 - i, |p| - 1 - j)
      decreases |p| - j
    {
      FilledAt(p, table[..], i, j + 1);
      NextCandidateR(p, i, j, table[j + 1]);
      j := table[j + 1];
    }
  }

  /** The next entry, when j is the longest border. */
  method EntryR(p: seq<char>, table: array<int>, i: int, j: int) returns (t: int)
    requires table.Length == |p| + 1 && 0 <= i < |p| - 1 && Longest(Reversed(p), |p| - 1 - i, |p| - 1 - j) && j < |p|
    requires FailsR(p, j + 1, table[j + 1])
    ensures FailsR(p, i + 1, t)
  {
    ReversedAt(p, i);
    ReversedAt(p, j);
    if p[i] == p[j] {
      t := table[j + 1];
    } else {
      t := j;
    }
    NextFails(Reversed(p), |p| - 1 - i, |p| - 1 - j, |p| - 1 - t);
  }

  lemma NextLongestR(p: seq<char>, i: int, j: int)
    requires 0 <= i < |p| && Candidate(Reversed(p), |p| - 1 - i, |p| - 1 - j) && (j < |p| ==> p[i] == p[j])
    ensures Longest(Reversed(p), |p| - i, |p| - j)
  {
    ReversedAt(p, i);
    if j < |p| {
      ReversedAt(p, j);
    }
    NextLongest(Reversed(p), |p| - 1 - i, |p| - 1 - j);
  }

  lemma LongestRange(p: seq<char>, i: int, j: int)
    requires Longest(p, i, j) && 0 < i <= |p|
    ensures 0 <= j < i
  {
    assert Border(p, i, 0);
  }

  lemma FirstEntryR(p: seq<char>, table: seq<int>)
    requires p != [] && |table| == |p| + 1 && table[|p|] == |p|
    ensures FilledR(p, table, |p| - 1)
  {
    assert Fails(Reversed(p), 0, -1);
  }

  lemma MirroredOk(p: seq<char>, table: seq<int>)
    requires p != [] && |table| == |p| + 1
    requires FilledR(p, table, -1)
    ensures TableOk(Reversed(p), Mirrored(p, table))
  {
    var t := Mirrored(p, table);
    forall i {:trigger t[i]} | 0 <= i < |p|
      ensures Fails(Reversed(p), i, t[i])
    {
      assert FailsR(p, |p| - i, table[|p| - i]);
    }
  }

  /** The longest border for the next position to the left. */
  method BorderR(p: seq<char>, table: array<int>, i: int, j: int) returns (j': int)
    requires 0 <= i < |p| && Longest(Reversed(p), |p| - 1 - i, |p| - 1 - j) && FilledR(p, table[..], i)
    ensures Longest(Reversed(p), |p| - i, |p| - 1 - j') && i <= j' < |p|
  {
    LongestIsCandidate(Reversed(p), |p| - 1 - i, |p| - 1 - j);
    j' := FallBackR(p, table, i, j);
    NextLongestR(p, i, j');
    LongestRange(Reversed(p), |p| - i, |p| - j');
    j' := j' - 1;
  }

  /** _utstring_BuildTableR. */
  method BuildTableR(p: seq<char>, table: array<int>)
    requires p != [] && table.Length == |p| + 1
    modifies table
    ensures TableOk(Reversed(p), Mirrored(p, table[..])) && Longest(Reversed(p), |p|, |p| - 1 - table[0])
  {
    var i, j := |p| - 1, |p|;
    table[i + 1] := j;
    FirstEntryR(p, table[..]);
    while i >= 0
      invariant -1 <= i < |p| && Longest(Reversed(p), |p| - 1 - i, |p| - 1 - j)
      invariant FilledR(p, table[..], i) && (i == -1 ==> table[0] == j)
    {
      j := BorderR(p, table, i, j);
      i := i - 1;
      var t := j;
      if i >= 0 {
        FilledAt(p, table[..], i + 1, j + 1);
        t := EntryR(p, table, i, j);
      }
      FilledNext(p, table[..], i + 1, t);
      table[i + 1] := t;
    }
    MirroredOk(p, table[..]);
  }

  /** The inner loop of _utstring_findR. */
  method ShiftR(p: seq<char>, h: seq<char>, table: array<int>, start: int, j: int) returns (i: int)
    requires table.Length == |p| + 1 && TableOk(Reversed(p), Mirrored(p, table[..])) && 0 <= start && 0 <= j < |h|
    requires Matched(Reversed(p), Reversed(h), |p| - 1 - start, |h| - 1 - j)
    ensures Matched(Reversed(p), Reversed(h), |p| - 1 - i, |h| - 1 - j) && 0 <= i && (i < |p| ==> p[i] == h[j])
  {
    ghost var q, g := Reversed(p), Reversed(h);
    i := start;
    while i < |p| && p[i] != h[j]
      invariant Matched(q, g, |p| - 1 - i, |h| - 1 - j) && 0 <= i
      decreases |p| - i
    {
      assert q[|p| - 1 - i] == p[i] && g[|h| - 1 - j] == h[j];
      assert Mirrored(p, table[..])[|p| - 1 - i] == |p| - 1 - table[i + 1];
      Skip(q, g, |p| - 1 - i, |h| - 1 - j, |p| - 1 - table[i + 1]);
      i := table[i + 1];
    }
  }

  lemma AdvanceR(p: seq<char>, h: seq<char>, i: int, j: int)
    requires Matched(Reversed(p), Reversed(h), |p| - 1 - i, |h| - 1 - j) && 0 <= i && 0 <= j < |h| && (i < |p| ==> p[i] == h[j])
    ensures Matched(Reversed(p), Reversed(h), |p| - i, |h| - j)
  {
    ReversedAt(h, j);
    if i < |p| {
      ReversedAt(p, i);
    }
    Advance(Reversed(p), Reversed(h), |p| - 1 - i, |h| - 1 - j);
  }

  /** _utstring_findR: the last occurrence, or -1 exactly when there is none. */
  method FindR(h: seq<char>, p: seq<char>, table: array<int>) returns (found: int)
    requires table.Length == |p| + 1 && TableOk(Reversed(p), Mirrored(p, table[..]))
    ensures LastAt(p, h, found)
  {
    ghost var q, g := Reversed(p), Reversed(h);
    found := -1;
    var i, j := |p| - 1, |h| - 1;
    while j >= 0 && j >= i
      invariant 0 <= i < |p| && -1 <= j && Matched(q, g, |p| - 1 - i, |h| - 1 - j) && found == -1
      decreases j
    {
      i := ShiftR(p, h, table, i, j);
      AdvanceR(p, h, i, j);
      i := i - 1;
      j := j - 1;
      if i < 0 {
        found := j + 1;
        assert q[..|p|] == q;
        FirstIsLast(p, h, |h| - |p| - found);
        return;
      }
    }
    FirstIsLast(p, h, -1);
  }

  // ---------------------------------------------------------------------------
  // utstring_find and utstring_findR
  // ---------------------------------------------------------------------------

  /** A UT_string: the allocated buffer and the length of the text in it, which a null follows. */
  datatype Text = Text(d: seq<char>, i: nat)

  ghost predicate Terminated(t: Text) {
    t.i < |t.d| && t.d[t.i] == '\0'
  }

  /** Where a search starts; a negative position counts from the end. */
  function StartOf(t: Text, position: int): (start: int)
    ensures position >= 0 ==> start == position
    ensures position < 0 ==> t.i - start == -position
  {
    if position < 0 then t.i + position else position
  }

  /** utstring_find: the first occurrence in the text at or after the start position; -1 for an empty needle.
      A search begins with a comparison at the start; outside is set when that is not in the buffer. */
  method StringFind(t: Text, position: int, p: seq<char>) returns (found: int, outside: bool)
    requires Terminated(t)
    ensures outside <==> 0 < |p| <= t.i - StartOf(t, position) && !(0 <= StartOf(t, position) < |t.d|)
    ensures var s, start := t.d[..t.i], StartOf(t, position);
            if outside then found == -1
            else if found == -1 then p == [] || forall x {:trigger Occurs(p, s, x)} :: start <= x ==> !Occurs(p, s, x)
            else start <= found && Occurs(p, s, found) && p != [] &&
                 forall x {:trigger Occurs(p, s, x)} :: start <= x < found ==> !Occurs(p, s, x)
  {
    var start := StartOf(t, position);
    var length := t.i - start;
    found, outside := -1, false;
    if length >= |p| && |p| > 0 {
      if start < 0 {
        outside := true;
        return;
      }
      ghost var s := t.d[..t.i];
      var table := new int[|p| + 1];
      BuildTable(p, table);
      assert t.d[start..start + length] == s[start..];
      found := Find(t.d[start..start + length], p, table);
      forall x {:trigger Occurs(p, s, x)} | start <= x
        ensures Occurs(p, s, x) <==> Occurs(p, s[start..], x - start)
      {
        OccursIn(p, s, start, x);
      }
      if found >= 0 {
        OccursIn(p, s, start, found + start);
        found := found + start;
      }
    }
  }

  lemma OccursIn(p: seq<char>, s: seq<char>, start: int, x: int)
    requires 0 <= start <= |s| && start <= x
    ensures Occurs(p, s, x) <==> Occurs(p, s[start..], x - start)
  {
    if x + |p| <= |s| {
      assert s[start..][x - start..x - start + |p|] == s[x..x + |p|];
    }
  }

  /** utstring_findR: the last occurrence in the buffer that ends at or before the start position. At a position
      behind the text that takes in the null and whatever the buffer holds behind it. A search begins with a
      comparison at the start; outside is set when that is not in the buffer. */
  method StringFindR(t: Text, position: int, p: seq<char>) returns (found: int, outside: bool)
    requires Terminated(t)
    ensures outside <==> 0 < |p| <= StartOf(t, position) + 1 && !(0 <= StartOf(t, position) < |t.d|)
    ensures var end := StartOf(t, position) + 1;
            if outside then found == -1
            else if found == -1 then p == [] || forall x {:trigger Occurs(p, t.d, x)} :: x + |p| <= end ==> !Occurs(p, t.d, x)
            else found + |p| <= end && Occurs(p, t.d, found) && p != [] &&
                 forall x {:trigger Occurs(p, t.d, x)} :: found < x && x + |p| <= end ==> !Occurs(p, t.d, x)
  {
    var end := StartOf(t, position) + 1;
    found, outside := -1, false;
    if end >= |p| && |p| > 0 {
      if end > |t.d| {
        outside := true;
        return;
      }
      var table := new int[|p| + 1];
      BuildTableR(p, table);
      found := FindR(t.d[..end], p, table);
      forall x {:trigger Occurs(p, t.d, x)} | x + |p| <= end
        ensures Occurs(p, t.d, x) <==> Occurs(p, t.d[..end], x)
      {
        OccursBefore(p, t.d, end, x);
      }
    }
  }

  lemma OccursBefore(p: seq<char>, s: seq<char>, end: int, x: int)
    requires 0 <= end <= |s| && x + |p| <= end
    ensures Occurs(p, s, x) <==> Occurs(p, s[..end], x)
  {
    if 0 <= x {
      assert s[..end][x..x + |p|] == s[x..x + |p|];
    }
  }

  // ---------------------------------------------------------------------------
  // Searches that leave the text
  // ---------------------------------------------------------------------------

  /** Three characters looked for from three before the end of a text of two. */
  method FindBeforeText() returns (found: int, outside: bool)
    ensures outside
  {
    found, outside := StringFind(Text("ab\0", 2), -3, "abc");
  }

  /** One character looked for backwards from behind the buffer. */
  method FindBehindBuffer() returns (found: int, outside: bool)
    ensures outside
  {
    found, outside := StringFindR(Text("ab\0", 2), 3, "a");
  }

  /** Looked for backwards from its length on, a text has an occurrence that is not in it but takes in the null. */
  method FindWithNull() returns (found: int, outside: bool)
    ensures found == 1 && !outside && !Occurs("b\0", "ab", 1)
  {
    var t := Text("ab\0", 2);
    found, outside := StringFindR(t, 2, "b\0");
    assert t.d[1..3] == "b\0";
    assert Occurs("b\0", t.d, 1);
  }
}
