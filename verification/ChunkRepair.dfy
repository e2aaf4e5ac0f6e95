/**
 Repairing the erasure-code chunks of an object after a chunk hit
 (CDNSimulator/src/cacheCluster.cpp).
 */
module ChunkRepair {
  import opened Sequences

  datatype Status = Correct | Incorrect | NoChunk | NotChecked

  // ---------------------------------------------------------------------------
  // Counting
  // ---------------------------------------------------------------------------

  /** How many identifiers from `from` on have not been seen. */
  ghost function Missing(cnt: seq<nat>, from: nat): nat
    decreases |cnt| - from
  {
    if from >= |cnt| then 0 else (if cnt[from] == 0 then 1 else 0) + Missing(cnt, from + 1)
  }

  /** How many positions from `from` on do not hold a correct chunk. */
  ghost function Open(status: seq<Status>, from: nat): nat
    decreases |status| - from
  {
    if from >= |status| then 0 else (if status[from] == Correct then 0 else 1) + Open(status, from + 1)
  }

  lemma {:induction false} MissingUpdate(cnt: seq<nat>, from: nat, x: nat, c: nat)
    requires x < |cnt|
    ensures Missing(cnt[x := c], from) ==
            Missing(cnt, from) + if from <= x then (if c == 0 then 1 else 0) - (if cnt[x] == 0 then 1 else 0) else 0
    decreases |cnt| - from
  {
    if from < |cnt| {
      MissingUpdate(cnt, from + 1, x, c);
    }
  }

  lemma {:induction false} OpenUpdate(status: seq<Status>, from: nat, q: nat, s: Status)
    requires q < |status|
    ensures Open(status[q := s], from) ==
            Open(status, from) + if from <= q then (if s == Correct then 0 else 1) - (if status[q] == Correct then 0 else 1) else 0
    decreases |status| - from
  {
    if from < |status| {
      OpenUpdate(status, from + 1, q, s);
    }
  }

  lemma {:induction false} AllMissing(n: nat, from: nat)
    requires from <= n
    ensures Missing(seq(n, _ => 0), from) == n - from && Open(seq(n, _ => NotChecked), from) == n - from
    decreases n - from
  {
    if from < n {
      AllMissing(n, from + 1);
    }
  }

  lemma {:induction false} NoneOpen(status: seq<Status>, from: nat, q: nat)
    requires Open(status, from) == 0 && from <= q < |status|
    ensures status[q] == Correct
    decreases |status| - from
  {
    if from < q {
      NoneOpen(status, from + 1, q);
    }
  }

  // ---------------------------------------------------------------------------
  // What the servers hold
  // ---------------------------------------------------------------------------

  /** Identifiers are below n; -1 stands for no chunk. */
  ghost predicate IdsBelow(held: seq<int>, n: nat) {
    forall s :: 0 <= s < |held| ==> -1 <= held[s] < n
  }

  ghost predicate InRange(servers: seq<nat>, held: seq<int>) {
    forall q :: 0 <= q < |servers| ==> servers[q] < |held|
  }

  /** The mapped servers are different ones. */
  ghost predicate Mapped(servers: seq<nat>, held: seq<int>) {
    NoRepeats(servers) && InRange(servers, held)
  }

  /** Position q has its final chunk: it is before i, or it held a correct one from the start. */
  ghost predicate Done(status: seq<Status>, i: nat, q: nat) {
    q < |status| && (q < i || status[q] == Correct)
  }

  /** owner[x] is the finished position that holds chunk x, or -1. */
  ghost predicate OwnerOk(held: seq<int>, servers: seq<nat>, status: seq<Status>, i: nat, owner: seq<int>, x: nat)
    requires x < |owner|
  {
    owner[x] >= -1 && (owner[x] >= 0 ==> owner[x] < |servers| && Done(status, i, owner[x]) && servers[owner[x]] < |held| && held[servers[owner[x]]] == x)
  }

  ghost predicate PositionOk(held: seq<int>, servers: seq<nat>, status: seq<Status>, i: nat, owner: seq<int>, q: nat)
    requires q < |servers|
  {
    Done(status, i, q) ==> servers[q] < |held| && 0 <= held[servers[q]] < |owner| && owner[held[servers[q]]] == q
  }

  /** Finished positions and the chunks they hold correspond one to one. */
  ghost predicate Owned(held: seq<int>, servers: seq<nat>, status: seq<Status>, i: nat, owner: seq<int>) {
    && |status| == |servers| == |owner|
    && (forall x: nat {:trigger OwnerOk(held, servers, status, i, owner, x)} ::
          x < |owner| ==> OwnerOk(held, servers, status, i, owner, x))
    && (forall q: nat {:trigger PositionOk(held, servers, status, i, owner, q)} ::
          q < |servers| ==> PositionOk(held, servers, status, i, owner, q))
  }

  /** The mapped servers hold the chunks 0 to n - 1, each exactly once. */
  ghost predicate Complete(held: seq<int>, servers: seq<nat>) {
    && (forall q :: 0 <= q < |servers| ==> servers[q] < |held| && 0 <= held[servers[q]] < |servers|)
    && (forall p, q :: 0 <= p < q < |servers| ==> held[servers[p]] != held[servers[q]])
    && (forall x: nat {:trigger HeldBy(held, servers, x)} :: x < |servers| ==> HeldBy(held, servers, x))
  }

  ghost predicate HeldBy(held: seq<int>, servers: seq<nat>, x: nat) {
    exists q: nat :: q < |servers| && servers[q] < |held| && held[servers[q]] == x
  }

  lemma OwnedIsComplete(held: seq<int>, servers: seq<nat>, status: seq<Status>, i: nat, owner: seq<int>)
    requires Owned(held, servers, status, i, owner) && Mapped(servers, held)
    requires forall q: nat {:trigger Done(status, i, q)} :: q < |servers| ==> Done(status, i, q)
    requires forall x: nat {:trigger owner[x]} :: x < |owner| ==> owner[x] >= 0
    ensures Complete(held, servers)
  {
    forall q: nat {:trigger servers[q]} | q < |servers|
      ensures 0 <= held[servers[q]] < |servers| && owner[held[servers[q]]] == q
    {
      assert PositionOk(held, servers, status, i, owner, q) && Done(status, i, q);
    }
    forall x: nat {:trigger HeldBy(held, servers, x)} | x < |servers|
      ensures HeldBy(held, servers, x)
    {
      assert owner[x] >= 0 && OwnerOk(held, servers, status, i, owner, x);
    }
  }

  // ---------------------------------------------------------------------------
  // _get_chunk_info
  // ---------------------------------------------------------------------------

  /** What _get_chunk_info has found out after looking at the first p positions. */
  ghost predicate Info(held: seq<int>, servers: seq<nat>, p: nat, status: seq<Status>, cnt: seq<nat>, hits: nat, owner: seq<int>) {
    && |cnt| == |servers| && p <= |servers| && Owned(held, servers, status, 0, owner)
    && (forall q :: p <= q < |status| ==> status[q] == NotChecked)
    && (forall x: nat {:trigger cnt[x]} :: x < |cnt| ==> (cnt[x] == 0 <==> owner[x] == -1))
    && hits + Missing(cnt, 0) == |servers| && hits + Open(status, 0) == |servers|
  }

  lemma InfoCorrect(held: seq<int>, servers: seq<nat>, p: nat, status: seq<Status>, cnt: seq<nat>, hits: nat, owner: seq<int>)
    requires Info(held, servers, p, status, cnt, hits, owner) && p < |servers| && servers[p] < |held|
    requires 0 <= held[servers[p]] < |cnt| && cnt[held[servers[p]]] == 0
    ensures var x := held[servers[p]]; Info(held, servers, p + 1, status[p := Correct], cnt[x := cnt[x] + 1], hits + 1, owner[x := p])
  {
    var x := held[servers[p]];
    MissingUpdate(cnt, 0, x, 1);
    OpenUpdate(status, 0, p, Correct);
    var status', owner' := status[p := Correct], owner[x := p];
    forall y: nat {:trigger OwnerOk(held, servers, status', 0, owner', y)} | y < |owner'|
      ensures OwnerOk(held, servers, status', 0, owner', y)
    {
      assert OwnerOk(held, servers, status, 0, owner, y);
    }
    forall q: nat {:trigger PositionOk(held, servers, status', 0, owner', q)} | q < |servers|
      ensures PositionOk(held, servers, status', 0, owner', q)
    {
      assert PositionOk(held, servers, status, 0, owner, q);
    }
  }

  lemma InfoOther(held: seq<int>, servers: seq<nat>, p: nat, status: seq<Status>, cnt: seq<nat>, hits: nat, owner: seq<int>, s: Status)
    requires Info(held, servers, p, status, cnt, hits, owner) && p < |servers| && s != Correct
    ensures Info(held, servers, p + 1, status[p := s], cnt, hits, owner)
  {
    OpenUpdate(status, 0, p, s);
    var status' := status[p := s];
    forall y: nat {:trigger OwnerOk(held, servers, status', 0, owner, y)} | y < |owner|
      ensures OwnerOk(held, servers, status', 0, owner, y)
    {
      assert OwnerOk(held, servers, status, 0, owner, y);
    }
    forall q: nat {:trigger PositionOk(held, servers, status', 0, owner, q)} | q < |servers|
      ensures PositionOk(held, servers, status', 0, owner, q)
    {
      assert PositionOk(held, servers, status, 0, owner, q);
    }
  }

  lemma InfoCount(held: seq<int>, servers: seq<nat>, p: nat, status: seq<Status>, cnt: seq<nat>, hits: nat, owner: seq<int>, x: nat)
    requires Info(held, servers, p, status, cnt, hits, owner) && x < |cnt| && cnt[x] > 0
    ensures Info(held, servers, p, status, cnt[x := cnt[x] + 1], hits, owner)
  {
    MissingUpdate(cnt, 0, x, cnt[x] + 1);
  }

  lemma InfoStarts(held: seq<int>, servers: seq<nat>)
    ensures var n := |servers|; Info(held, servers, 0, seq(n, _ => NotChecked), seq(n, _ => 0), 0, seq(n, _ => -1))
  {
    AllMissing(|servers|, 0);
  }

  /** None of the servers holds chunk x. */
  ghost predicate Absent(held: seq<int>, servers: seq<nat>, x: int) {
    forall q :: 0 <= q < |servers| && servers[q] < |held| ==> held[servers[q]] != x
  }

  /** The number of different chunks on the servers. */
  ghost function Found(held: seq<int>, servers: seq<nat>): nat {
    if servers == [] then 0
    else
      var rest, s := servers[..|servers| - 1], servers[|servers| - 1];
      Found(held, rest) + if s < |held| && held[s] >= 0 && Absent(held, rest, held[s]) then 1 else 0
  }

  /** Exactly the chunks on the servers have been counted. */
  ghost predicate Seen(held: seq<int>, servers: seq<nat>, cnt: seq<nat>) {
    forall x: nat {:trigger Absent(held, servers, x)} :: x < |cnt| ==> (cnt[x] == 0 <==> Absent(held, servers, x))
  }

  lemma SeenNext(held: seq<int>, servers: seq<nat>, p: nat, cnt: seq<nat>)
    requires p < |servers| && servers[p] < |held| && -1 <= held[servers[p]] < |cnt| && Seen(held, servers[..p], cnt)
    ensures var x := held[servers[p]]; Seen(held, servers[..p + 1], if x >= 0 then cnt[x := cnt[x] + 1] else cnt)
    ensures var x := held[servers[p]];
            Found(held, servers[..p + 1]) == Found(held, servers[..p]) + if x >= 0 && cnt[x] == 0 then 1 else 0
  {
    var x := held[servers[p]];
    var a, b := servers[..p], servers[..p + 1];
    assert b == a + [servers[p]] && b[..p] == a;
    var cnt' := if x >= 0 then cnt[x := cnt[x] + 1] else cnt;
    forall y: nat {:trigger Absent(held, b, y)} | y < |cnt'|
      ensures cnt'[y] == 0 <==> Absent(held, b, y)
    {
      AbsentPush(held, a, servers[p], y);
      assert cnt[y] == 0 <==> Absent(held, a, y);
    }
    if x >= 0 {
      assert cnt[x] == 0 <==> Absent(held, a, x);
    }
  }

  lemma AbsentPush(held: seq<int>, servers: seq<nat>, s: nat, x: int)
    requires s < |held|
    ensures Absent(held, servers + [s], x) <==> Absent(held, servers, x) && held[s] != x
  {
    var t := servers + [s];
    assert t[|servers|] == s && forall q :: 0 <= q < |servers| ==> t[q] == servers[q];
  }

  /** What a mapped server is found to hold: the first copy of a chunk, a further one or none. */
  ghost function StatusOf(held: seq<int>, servers: seq<nat>, q: nat): Status
    requires q < |servers| && servers[q] < |held|
  {
    if held[servers[q]] < 0 then NoChunk
    else if Absent(held, servers[..q], held[servers[q]]) then Correct
    else Incorrect
  }

  ghost predicate StatusesOk(held: seq<int>, servers: seq<nat>, p: nat, status: seq<Status>) {
    |status| == |servers| && InRange(servers, held) &&
    forall q: nat {:trigger status[q]} :: q < p && q < |servers| ==> status[q] == StatusOf(held, servers, q)
  }

  /** The positions of the servers that hold chunk x. */
  ghost function Copies(held: seq<int>, servers: seq<nat>, x: int): set<nat> {
    set q: nat | q < |servers| && servers[q] < |held| && held[servers[q]] == x
  }

  ghost predicate CopiesCounted(held: seq<int>, servers: seq<nat>, cnt: seq<nat>) {
    forall x: nat {:trigger cnt[x]} :: x < |cnt| ==> cnt[x] == |Copies(held, servers, x)|
  }

  /** The first p positions that have been found to hold a further copy. */
  ghost function Further(status: seq<Status>, p: nat): set<nat> {
    set q: nat | q < p && q < |status| && status[q] == Incorrect
  }

  lemma CopiesNext(held: seq<int>, servers: seq<nat>, p: nat, cnt: seq<nat>)
    requires p < |servers| && servers[p] < |held| && -1 <= held[servers[p]] < |cnt| && CopiesCounted(held, servers[..p], cnt)
    ensures var x := held[servers[p]]; CopiesCounted(held, servers[..p + 1], if x >= 0 then cnt[x := cnt[x] + 1] else cnt)
  {
    var x, a, b := held[servers[p]], servers[..p], servers[..p + 1];
    forall y: nat | y < |cnt|
      ensures |Copies(held, b, y)| == |Copies(held, a, y)| + if y == x then 1 else 0
    {
      assert p !in Copies(held, a, y);
      assert Copies(held, b, y) == if y == x then Copies(held, a, y) + {p} else Copies(held, a, y);
    }
  }

  lemma FurtherNext(status: seq<Status>, p: nat, s: Status)
    requires p < |status|
    ensures |Further(status[p := s], p + 1)| == |Further(status, p)| + if s == Incorrect then 1 else 0
  {
    assert p !in Further(status, p);
    assert Further(status[p := s], p + 1) == if s == Incorrect then Further(status, p) + {p} else Further(status, p);
  }

  /** Statuses, numbers of copies and the count of further copies after the first p positions. */
  ghost predicate Looked(held: seq<int>, servers: seq<nat>, p: nat, status: seq<Status>, cnt: seq<nat>, duplicates: nat) {
    && p <= |servers| && StatusesOk(held, servers, p, status) && CopiesCounted(held, servers[..p], cnt)
    && duplicates == |Further(status, p)|
  }

  lemma LookedStarts(held: seq<int>, servers: seq<nat>)
    requires InRange(servers, held)
    ensures Looked(held, servers, 0, seq(|servers|, _ => NotChecked), seq(|servers|, _ => 0), 0)
  {
    var status := seq(|servers|, _ => NotChecked);
    assert Further(status, 0) == {};
    forall x: nat ensures Copies(held, servers[..0], x) == {} {
    }
  }

  lemma LookedNext(held: seq<int>, servers: seq<nat>, p: nat, status: seq<Status>, cnt: seq<nat>, duplicates: nat, s: Status)
    requires Looked(held, servers, p, status, cnt, duplicates) && p < |servers| && -1 <= held[servers[p]] < |cnt|
    requires s == StatusOf(held, servers, p)
    ensures var x := held[servers[p]];
            Looked(held, servers, p + 1, status[p := s], if x >= 0 then cnt[x := cnt[x] + 1] else cnt,
                   duplicates + if s == Incorrect then 1 else 0)
  {
    CopiesNext(held, servers, p, cnt);
    FurtherNext(status, p, s);
  }

  /** _get_chunk_info: which mapped servers hold the first copy of a chunk, how many hold each chunk, and how many
      copies are further ones. */
  method GetChunkInfo(held: seq<int>, servers: seq<nat>) returns (status: seq<Status>, cnt: seq<nat>, hits: nat, duplicates: nat, ghost owner: seq<int>)
    requires Mapped(servers, held) && IdsBelow(held, |servers|)
    ensures Info(held, servers, |servers|, status, cnt, hits, owner) && Seen(held, servers, cnt) && hits == Found(held, servers)
    ensures Looked(held, servers, |servers|, status, cnt, duplicates)
  {
    var n := |servers|;
    status, cnt, hits, duplicates := seq(n, _ => NotChecked), seq(n, _ => 0), 0, 0;
    owner := seq(n, _ => -1);
    InfoStarts(held, servers);
    LookedStarts(held, servers);
    for p := 0 to n
      invariant Scanned(held, servers, p, status, cnt, hits, duplicates, owner)
    {
      status, cnt, hits, duplicates, owner := LookAt(held, servers, p, status, cnt, hits, duplicates, owner);
    }
    assert servers[..n] == servers;
  }

  /** What has been found out at the first p positions. */
  ghost predicate Scanned(held: seq<int>, servers: seq<nat>, p: nat, status: seq<Status>, cnt: seq<nat>, hits: nat, duplicates: nat, owner: seq<int>) {
    && p <= |servers| && Info(held, servers, p, status, cnt, hits, owner) && Looked(held, servers, p, status, cnt, duplicates)
    && Seen(held, servers[..p], cnt) && hits == Found(held, servers[..p])
  }

  lemma ScanFirst(held: seq<int>, servers: seq<nat>, p: nat, status: seq<Status>, cnt: seq<nat>, hits: nat, duplicates: nat, owner: seq<int>)
    requires Mapped(servers, held) && IdsBelow(held, |servers|) && p < |servers|
    requires Scanned(held, servers, p, status, cnt, hits, duplicates, owner)
    requires held[servers[p]] >= 0 && cnt[held[servers[p]]] == 0
    ensures var x := held[servers[p]];
            Scanned(held, servers, p + 1, status[p := Correct], cnt[x := cnt[x] + 1], hits + 1, duplicates, owner[x := p])
  {
    LookFirst(held, servers, p, status, cnt, duplicates);
    var x := held[servers[p]];
    assert Seen(held, servers[..p + 1], cnt[x := cnt[x] + 1]) && hits + 1 == Found(held, servers[..p + 1]) by {
      SeenNext(held, servers, p, cnt);
    }
    InfoCorrect(held, servers, p, status, cnt, hits, owner);
  }

  lemma LookFirst(held: seq<int>, servers: seq<nat>, p: nat, status: seq<Status>, cnt: seq<nat>, duplicates: nat)
    requires Looked(held, servers, p, status, cnt, duplicates) && p < |servers| && 0 <= held[servers[p]] < |cnt|
    requires Seen(held, servers[..p], cnt) && cnt[held[servers[p]]] == 0
    ensures var x := held[servers[p]];
            Looked(held, servers, p + 1, status[p := Correct], cnt[x := cnt[x] + 1], duplicates)
  {
    assert Absent(held, servers[..p], held[servers[p]]);
    LookedNext(held, servers, p, status, cnt, duplicates, Correct);
  }

  lemma ScanFurther(held: seq<int>, servers: seq<nat>, p: nat, status: seq<Status>, cnt: seq<nat>, hits: nat, duplicates: nat, owner: seq<int>)
    requires Mapped(servers, held) && IdsBelow(held, |servers|) && p < |servers|
    requires Scanned(held, servers, p, status, cnt, hits, duplicates, owner)
    requires held[servers[p]] >= 0 && cnt[held[servers[p]]] > 0
    ensures var x := held[servers[p]];
            Scanned(held, servers, p + 1, status[p := Incorrect], cnt[x := cnt[x] + 1], hits, duplicates + 1, owner)
  {
    SeenNext(held, servers, p, cnt);
    assert !Absent(held, servers[..p], held[servers[p]]);
    LookedNext(held, servers, p, status, cnt, duplicates, Incorrect);
    InfoOther(held, servers, p, status, cnt, hits, owner, Incorrect);
    InfoCount(held, servers, p + 1, status[p := Incorrect], cnt, hits, owner, held[servers[p]]);
  }

  lemma ScanNone(held: seq<int>, servers: seq<nat>, p: nat, status: seq<Status>, cnt: seq<nat>, hits: nat, duplicates: nat, owner: seq<int>)
    requires Mapped(servers, held) && IdsBelow(held, |servers|) && p < |servers|
    requires Scanned(held, servers, p, status, cnt, hits, duplicates, owner) && held[servers[p]] < 0
    ensures Scanned(held, servers, p + 1, status[p := NoChunk], cnt, hits, duplicates, owner)
  {
    SeenNext(held, servers, p, cnt);
    LookedNext(held, servers, p, status, cnt, duplicates, NoChunk);
    InfoOther(held, servers, p, status, cnt, hits, owner, NoChunk);
  }

  /** One position. */
  method LookAt(held: seq<int>, servers: seq<nat>, p: nat, status0: seq<Status>, cnt0: seq<nat>, hits0: nat, duplicates0: nat, ghost owner0: seq<int>)
    returns (status: seq<Status>, cnt: seq<nat>, hits: nat, duplicates: nat, ghost owner: seq<int>)
    requires Mapped(servers, held) && IdsBelow(held, |servers|) && p < |servers|
    requires Scanned(held, servers, p, status0, cnt0, hits0, duplicates0, owner0)
    ensures Scanned(held, servers, p + 1, status, cnt, hits, duplicates, owner)
  {
    status, cnt, hits, duplicates, owner := status0, cnt0, hits0, duplicates0, owner0;
    var x := held[servers[p]];
    if x >= 0 {
      if cnt[x] == 0 {
        ScanFirst(held, servers, p, status, cnt, hits, duplicates, owner);
        hits := hits + 1;
        status := status[p := Correct];
        owner := owner[x := p];
      } else {
        ScanFurther(held, servers, p, status, cnt, hits, duplicates, owner);
        duplicates := duplicates + 1;
        status := status[p := Incorrect];
      }
      cnt := cnt[x := cnt[x] + 1];
    } else {
      ScanNone(held, servers, p, status, cnt, hits, duplicates, owner);
      status := status[p := NoChunk];
    }
  }

  // ---------------------------------------------------------------------------
  // Restoring missing chunks
  // ---------------------------------------------------------------------------

  /** Chunks below j are all owned; of the others, those that were seen are. */
  ghost predicate OwnedBelow(cnt: seq<nat>, owner: seq<int>, j: nat) {
    |cnt| == |owner| && forall x: nat {:trigger owner[x]} :: x < |owner| ==> (owner[x] == -1 <==> x >= j && cnt[x] == 0)
  }

  lemma Assigned(held: seq<int>, servers: seq<nat>, status: seq<Status>, i: nat, owner: seq<int>, j: nat)
    requires Owned(held, servers, status, i, owner) && Mapped(servers, held) && i < |servers| && status[i] != Correct
    requires j < |owner| && owner[j] == -1
    ensures Owned(held[servers[i] := j], servers, status, i + 1, owner[j := i])
  {
    var held', owner' := held[servers[i] := j], owner[j := i];
    forall y: nat {:trigger OwnerOk(held', servers, status, i + 1, owner', y)} | y < |owner'|
      ensures OwnerOk(held', servers, status, i + 1, owner', y)
    {
      assert OwnerOk(held, servers, status, i, owner, y);
    }
    forall q: nat {:trigger PositionOk(held', servers, status, i + 1, owner', q)} | q < |servers|
      ensures PositionOk(held', servers, status, i + 1, owner', q)
    {
      assert PositionOk(held, servers, status, i, owner, q);
    }
  }

  lemma Skipped(held: seq<int>, servers: seq<nat>, status: seq<Status>, i: nat, owner: seq<int>)
    requires Owned(held, servers, status, i, owner) && i < |status| && status[i] == Correct
    ensures Owned(held, servers, status, i + 1, owner)
  {
    forall y: nat {:trigger OwnerOk(held, servers, status, i + 1, owner, y)} | y < |owner|
      ensures OwnerOk(held, servers, status, i + 1, owner, y)
    {
      assert OwnerOk(held, servers, status, i, owner, y);
    }
    forall q: nat {:trigger PositionOk(held, servers, status, i + 1, owner, q)} | q < |servers|
      ensures PositionOk(held, servers, status, i + 1, owner, q)
    {
      assert PositionOk(held, servers, status, i, owner, q);
    }
  }

  /** Servers with a correct chunk keep it, and the others below position i have got chunks in increasing order. */
  ghost predicate InOrder(before: seq<int>, held: seq<int>, servers: seq<nat>, status: seq<Status>, i: nat) {
    && |held| == |before| && InRange(servers, held) && |status| == |servers|
    && (forall q: nat {:trigger status[q]} :: q < |servers| && (status[q] == Correct || q >= i) ==> held[servers[q]] == before[servers[q]])
    && (forall p: nat, q: nat {:trigger status[p], status[q]} ::
          p < q < i && q < |servers| && status[p] != Correct && status[q] != Correct ==> held[servers[p]] < held[servers[q]])
  }

  /** First copies stay, and the other servers have got chunks in increasing order. */
  ghost predicate InPlace(before: seq<int>, held: seq<int>, servers: seq<nat>) {
    && |held| == |before| && InRange(servers, held)
    && (forall q: nat {:trigger StatusOf(before, servers, q)} ::
          q < |servers| && StatusOf(before, servers, q) == Correct ==> held[servers[q]] == before[servers[q]])
    && (forall p: nat, q: nat {:trigger StatusOf(before, servers, p), StatusOf(before, servers, q)} ::
          p < q < |servers| && StatusOf(before, servers, p) != Correct && StatusOf(before, servers, q) != Correct ==>
            held[servers[p]] < held[servers[q]])
  }

  lemma OrderedInPlace(before: seq<int>, held: seq<int>, servers: seq<nat>, status: seq<Status>)
    requires InOrder(before, held, servers, status, |servers|) && StatusesOk(before, servers, |servers|, status)
    ensures InPlace(before, held, servers)
  {
    forall q: nat {:trigger StatusOf(before, servers, q)} | q < |servers|
      ensures status[q] == StatusOf(before, servers, q)
    {
    }
  }

  ghost predicate FilledBelow(held: seq<int>, servers: seq<nat>, status: seq<Status>, i: nat, j: nat) {
    InRange(servers, held) && |status| == |servers| &&
    forall q: nat {:trigger status[q]} :: q < i && q < |servers| && status[q] != Correct ==> held[servers[q]] < j
  }

  /** The next missing chunk goes to the next server without a correct one. */
  lemma NextInOrder(before: seq<int>, held: seq<int>, servers: seq<nat>, status: seq<Status>, i: nat, j: nat)
    requires NoRepeats(servers) && i < |servers| == |status| && status[i] != Correct && InRange(servers, held) && |held| == |before|
    requires exists start: nat {:trigger InOrder(before, held, servers, status, start)} :: start <= i &&
               InOrder(before, held, servers, status, start) && FilledBelow(held, servers, status, start, j) &&
               forall q :: start <= q < i ==> status[q] == Correct
    ensures var held' := held[servers[i] := j];
            InOrder(before, held', servers, status, i + 1) && FilledBelow(held', servers, status, i + 1, j + 1)
  {
    var held' := held[servers[i] := j];
    forall q: nat {:trigger status[q]} | q < |servers| && q != i
      ensures held'[servers[q]] == held[servers[q]]
    {
      assert servers[q] != servers[i];
    }
  }

  lemma RestInOrder(before: seq<int>, held: seq<int>, servers: seq<nat>, status: seq<Status>, i: nat)
    requires InOrder(before, held, servers, status, i) && i <= |servers| && forall q: nat {:trigger status[q]} :: i <= q < |servers| ==> status[q] == Correct
    ensures InOrder(before, held, servers, status, |servers|)
  {
  }

  class Cluster {
    /** The chunk of the object that each server holds, or -1. */
    var held: array<int>
    /** How often how many chunks were missing. */
    var nMiss: array<nat>

    /** Go on to the next position without a correct chunk; there is one. */
    method NextOpen(servers: seq<nat>, status: seq<Status>, start: nat, ghost owner: seq<int>) returns (i: nat)
      requires Owned(held[..], servers, status, start, owner) && Open(status, start) > 0
      ensures start <= i < |servers| && status[i] != Correct && Owned(held[..], servers, status, i, owner)
      ensures Open(status, i) == Open(status, start) && forall q :: start <= q < i ==> status[q] == Correct
    {
      i := start;
      while status[i] == Correct
        invariant start <= i < |servers| && Owned(held[..], servers, status, i, owner) && Open(status, i) == Open(status, start)
        invariant forall q :: start <= q < i ==> status[q] == Correct
        decreases |servers| - i
      {
        Skipped(held[..], servers, status, i, owner);
        i := i + 1;
      }
    }

    /** The loop that restores missing chunks: afterwards every chunk is on exactly one mapped server, and
        no other server has changed. The assertion that a position is left never fails. */
    method Restore(servers: seq<nat>, status: seq<Status>, cnt: seq<nat>, ghost owner0: seq<int>)
      requires Mapped(servers, held[..]) && Owned(held[..], servers, status, 0, owner0) && OwnedBelow(cnt, owner0, 0)
      requires Open(status, 0) == Missing(cnt, 0)
      modifies held
      ensures Complete(held[..], servers)
      ensures forall s: nat {:trigger held[s]} :: s < held.Length && s !in servers ==> held[s] == old(held[s])
      ensures InOrder(old(held[..]), held[..], servers, status, |servers|)
    {
      var n, i: nat := |servers|, 0;
      ghost var owner := owner0;
      for j := 0 to n
        invariant i <= n && Owned(held[..], servers, status, i, owner) && OwnedBelow(cnt, owner, j)
        invariant Open(status, i) == Missing(cnt, j)
        invariant forall s: nat {:trigger held[s]} :: s < held.Length && s !in servers ==> held[s] == old(held[s])
        invariant InOrder(old(held[..]), held[..], servers, status, i) && FilledBelow(held[..], servers, status, i, j)
      {
        if cnt[j] == 0 {
          i := NextOpen(servers, status, i, owner);
          assert i < n;
          Assigned(held[..], servers, status, i, owner, j);
          ghost var before := held[..];
          held[servers[i]] := j;
          assert held[..] == before[servers[i] := j];
          NextInOrder(old(held[..]), before, servers, status, i, j);
          owner := owner[j := i];
          i := i + 1;
        }
      }
      forall q: nat {:trigger Done(status, i, q)} | q < |servers|
        ensures Done(status, i, q)
      {
        if q >= i {
          NoneOpen(status, i, q);
        }
      }
      forall q: nat {:trigger status[q]} | i <= q < |servers|
        ensures status[q] == Correct
      {
        NoneOpen(status, i, q);
      }
      forall x: nat {:trigger owner[x]} | x < |owner|
        ensures owner[x] >= 0
      {
        assert OwnerOk(held[..], servers, status, i, owner, x);
      }
      OwnedIsComplete(held[..], servers, status, i, owner);
      RestInOrder(old(held[..]), held[..], servers, status, i);
    }

    /** Look at servers outside the mapping; cnt is not updated, so a chunk may be counted twice. */
    method Probe(more: seq<nat>, cnt: seq<nat>, checked0: set<nat>, hits0: nat, ghost mapped: seq<nat>) returns (hits: nat, checked: set<nat>)
      requires IdsBelow(held[..], |cnt|) && Seen(held[..], mapped, cnt) && InRange(more, held[..])
      ensures hits == hits0 + Probed(held[..], more, mapped, checked0)
      ensures forall s :: s in checked <==> s in checked0 || s in more
    {
      hits, checked := hits0, checked0;
      for q := 0 to |more|
        invariant hits == hits0 + Probed(held[..], more[..q], mapped, checked0)
        invariant forall s :: s in checked <==> s in checked0 || s in more[..q]
      {
        assert more[..q + 1] == more[..q] + [more[q]] && more[..q + 1][..q] == more[..q];
        var s := more[q];
        if s !in checked {
          checked := checked + {s};
          var x := held[s];
          if x >= 0 {
            assert cnt[x] == 0 <==> Absent(held[..], mapped, x);
            if cnt[x] == 0 {
              hits := hits + 1;
            }
          }
        }
      }
      assert more[..|more|] == more;
    }

    /** The count of chunk hits: first the n mapped servers, then the spare ones, then the server that last
        had the parity chunk. */
    method CountHits(servers: seq<nat>, n: nat, k: nat, probing: bool, rebalancing: bool, prev: seq<nat>, cnt: seq<nat>, found: nat)
      returns (hits: nat)
      requires n <= |servers| && InRange(servers, held[..]) && IdsBelow(held[..], n) && |cnt| == n && found == Found(held[..], servers[..n])
      requires Seen(held[..], servers[..n], cnt) && InRange(prev, held[..])
      ensures hits == TotalHits(held[..], servers, n, k, probing, rebalancing, prev)
    {
      hits := found;
      if hits < k {
        var checked := Elements(servers[..n]);
        if probing || rebalancing {
          hits, checked := Probe(servers[n..], cnt, checked, hits, servers[..n]);
        }
        if hits < k && rebalancing {
          CheckedSame(servers, n, checked);
          hits, checked := Probe(prev, cnt, checked, hits, servers[..n]);
        }
      }
    }

    /** _cache_hit_chunk_obj: k of the n chunks are needed; servers lists the n mapped servers and then the
        spare ones, which may repeat a mapped one after parity has been placed; prev is the server that last
        had the parity chunk, if there is one. Afterwards every chunk is on exactly one mapped server: a first copy stays
        where it is, and the missing chunks go to the other mapped servers in their order. The index into n_miss is in range exactly unless all n chunks are needed, one is missing and both spare
        servers count as hits. */
    method CacheHitChunk(servers: seq<nat>, n: nat, k: nat, probing: bool, rebalancing: bool, prev: seq<nat>)
      returns (hits: nat, inRange: bool)
      requires 0 < k <= n <= |servers| <= n + 2 && |prev| <= 1 && nMiss.Length == n
      requires Mapped(servers[..n], held[..]) && InRange(servers, held[..]) && InRange(prev, held[..]) && IdsBelow(held[..], n)
      requires exists q :: 0 <= q < n && held[servers[q]] >= 0
      modifies held, nMiss
      ensures Complete(held[..], servers[..n])
      ensures forall s: nat {:trigger held[s]} :: s < held.Length && s !in servers[..n] ==> held[s] == old(held[s])
      ensures InPlace(old(held[..]), held[..], servers[..n])
      ensures hits == old(TotalHits(held[..], servers, n, k, probing, rebalancing, prev))
      ensures inRange <==> 0 <= n - hits < n
      ensures !inRange <==> old(Overcounts(held[..], servers, n, k, probing, rebalancing))
      ensures inRange ==> nMiss[n - hits] == old(nMiss[n - hits]) + 1
      ensures forall x: nat {:trigger nMiss[x]} :: x < n && x != n - hits ==> nMiss[x] == old(nMiss[x])
    {
      var mapped := servers[..n];
      var status, cnt, found, duplicates, owner := GetChunkInfo(held[..], mapped);
      SomeFound(held[..], mapped, cnt, found, status, owner);
      hits := CountHits(servers, n, k, probing, rebalancing, prev, cnt, found);
      HitsBound(held[..], servers, n, k, probing, rebalancing, prev);
      ghost var before := held[..];
      Restore(mapped, status, cnt, owner);
      OrderedInPlace(before, held[..], mapped, status);
      inRange := 0 <= n - hits < n;
      if inRange {
        nMiss[n - hits] := nMiss[n - hits] + 1;
      }
    }
  }

  function Elements(s: seq<nat>): set<nat> {
    set q | 0 <= q < |s| :: s[q]
  }

  lemma CheckedSame(servers: seq<nat>, n: nat, checked: set<nat>)
    requires n <= |servers|
    requires (forall s :: s in checked <==> s in Elements(servers[..n]) || s in servers[n..]) || checked == Elements(servers[..n])
    ensures (forall s :: s in checked <==> s in Elements(servers[..n]) || s in servers[n..]) ==> checked == Elements(servers)
  {
    assert servers == servers[..n] + servers[n..];
    forall s: nat
      ensures s in Elements(servers) <==> s in Elements(servers[..n]) || s in servers[n..]
    {
      ElementsHas(servers, s);
      ElementsHas(servers[..n], s);
    }
  }

  lemma ElementsHas(s: seq<nat>, x: nat)
    ensures x in Elements(s) <==> x in s
  {
    if x in s {
      var q :| 0 <= q < |s| && s[q] == x;
    }
  }

  /** The number of chunk hits that is reported. */
  ghost function TotalHits(held: seq<int>, servers: seq<nat>, n: nat, k: nat, probing: bool, rebalancing: bool, prev: seq<nat>): nat
    requires n <= |servers|
  {
    var mapped := servers[..n];
    var found := Found(held, mapped);
    if found >= k then found
    else
      var extra := if probing || rebalancing then Probed(held, servers[n..], mapped, Elements(mapped)) else 0;
      if found + extra < k && rebalancing then found + extra + Probed(held, prev, mapped, Elements(servers))
      else found + extra
  }

  /** How many of the servers that have not been checked hold a chunk that the mapped servers do not hold. */
  ghost function Probed(held: seq<int>, more: seq<nat>, mapped: seq<nat>, checked: set<nat>): nat {
    if more == [] then 0
    else
      var rest, s := more[..|more| - 1], more[|more| - 1];
      Probed(held, rest, mapped, checked) +
      if s !in checked && s !in rest && s < |held| && held[s] >= 0 && Absent(held, mapped, held[s]) then 1 else 0
  }

  lemma {:induction false} ProbedBound(held: seq<int>, more: seq<nat>, mapped: seq<nat>, checked: set<nat>)
    ensures Probed(held, more, mapped, checked) <= |more|
    decreases |more|
  {
    if more != [] {
      ProbedBound(held, more[..|more| - 1], mapped, checked);
    }
  }

  /** When some mapped server holds a chunk, at least one hit is counted, and never more than n. */
  lemma SomeFound(held: seq<int>, servers: seq<nat>, cnt: seq<nat>, hits: nat, status: seq<Status>, owner: seq<int>)
    requires Info(held, servers, |servers|, status, cnt, hits, owner) && Mapped(servers, held) && IdsBelow(held, |servers|)
    requires Seen(held, servers, cnt) && exists q :: 0 <= q < |servers| && held[servers[q]] >= 0
    ensures 1 <= hits <= |servers|
  {
    var q :| 0 <= q < |servers| && held[servers[q]] >= 0;
    assert !Absent(held, servers, held[servers[q]]);
    MissingBound(cnt, 0, held[servers[q]]);
  }

  lemma {:induction false} MissingBound(cnt: seq<nat>, from: nat, x: nat)
    requires from <= |cnt|
    ensures Missing(cnt, from) <= |cnt| - from
    ensures from <= x < |cnt| && cnt[x] > 0 ==> Missing(cnt, from) < |cnt| - from
    decreases |cnt| - from
  {
    if from < |cnt| {
      MissingBound(cnt, from + 1, x);
    }
  }

  /** All n chunks are needed, one is missing, and two spare servers count as hits. */
  ghost predicate Overcounts(held: seq<int>, servers: seq<nat>, n: nat, k: nat, probing: bool, rebalancing: bool)
    requires n <= |servers|
  {
    && n == k && (probing || rebalancing) && Found(held, servers[..n]) == k - 1
    && Probed(held, servers[n..], servers[..n], Elements(servers[..n])) == 2
  }

  /** The number of hits exceeds n only when n equals k, one chunk is missing and two spare servers count. */
  lemma HitsBound(held: seq<int>, servers: seq<nat>, n: nat, k: nat, probing: bool, rebalancing: bool, prev: seq<nat>)
    requires 0 < k <= n <= |servers| <= n + 2 && |prev| <= 1 && 1 <= Found(held, servers[..n]) <= n
    ensures TotalHits(held, servers, n, k, probing, rebalancing, prev) >= 1
    ensures TotalHits(held, servers, n, k, probing, rebalancing, prev) > n <==> Overcounts(held, servers, n, k, probing, rebalancing)
  {
    ProbedBound(held, servers[n..], servers[..n], Elements(servers[..n]));
    ProbedBound(held, prev, servers[..n], Elements(servers));
  }

  // ---------------------------------------------------------------------------
  // The hits as sets
  // ---------------------------------------------------------------------------

  /** The chunks on the servers. */
  ghost function Chunks(held: seq<int>, servers: seq<nat>): set<int> {
    set q: nat | q < |servers| && servers[q] < |held| && held[servers[q]] >= 0 :: held[servers[q]]
  }

  /** The servers of a list, other than those checked, that hold a chunk which is not on the mapped ones. */
  ghost function Useful(held: seq<int>, more: seq<nat>, mapped: seq<nat>, checked: set<nat>): set<nat> {
    set s | s in Elements(more) && s !in checked && s < |held| && held[s] >= 0 && held[s] !in Chunks(held, mapped)
  }

  lemma {:induction false} FoundIsCard(held: seq<int>, servers: seq<nat>)
    ensures Found(held, servers) == |Chunks(held, servers)|
    decreases |servers|
  {
    if servers == [] {
      assert Chunks(held, servers) == {};
    } else {
      var rest, s := servers[..|servers| - 1], servers[|servers| - 1];
      FoundIsCard(held, rest);
      assert servers == rest + [s];
      ChunksPush(held, rest, s);
      if s < |held| && held[s] >= 0 {
        CardPush(Chunks(held, rest), held[s]);
      }
    }
  }

  lemma CardPush(xs: set<int>, x: int)
    ensures |xs + {x}| == if x in xs then |xs| else |xs| + 1
  {
    if x in xs {
      assert xs + {x} == xs;
    }
  }

  lemma ElementsPush(s: seq<nat>, x: nat)
    ensures Elements(s + [x]) == Elements(s) + {x}
  {
    forall y: nat ensures y in Elements(s + [x]) <==> y in Elements(s) + {x} {
      ElementsHas(s + [x], y);
      ElementsHas(s, y);
    }
  }

  lemma ChunksPush(held: seq<int>, rest: seq<nat>, s: nat)
    ensures Chunks(held, rest + [s]) == if s < |held| && held[s] >= 0 then Chunks(held, rest) + {held[s]} else Chunks(held, rest)
    ensures s < |held| && held[s] >= 0 ==> (held[s] in Chunks(held, rest) <==> !Absent(held, rest, held[s]))
  {
    var servers := rest + [s];
    assert servers[|rest|] == s;
    forall x
      ensures x in Chunks(held, servers) <==> x in Chunks(held, rest) || (s < |held| && held[s] >= 0 && x == held[s])
    {
      if x in Chunks(held, rest) {
        var q: nat :| q < |rest| && rest[q] < |held| && held[rest[q]] >= 0 && x == held[rest[q]];
        assert servers[q] == rest[q];
      }
    }
  }

  lemma {:induction false} ProbedIsCard(held: seq<int>, more: seq<nat>, mapped: seq<nat>, checked: set<nat>)
    ensures Probed(held, more, mapped, checked) == |Useful(held, more, mapped, checked)|
    decreases |more|
  {
    if more == [] {
      assert Useful(held, more, mapped, checked) == {};
    } else {
      var rest, s := more[..|more| - 1], more[|more| - 1];
      ProbedIsCard(held, rest, mapped, checked);
      assert more == rest + [s];
      UsefulPush(held, rest, s, mapped, checked);
    }
  }

  lemma UsefulPush(held: seq<int>, rest: seq<nat>, s: nat, mapped: seq<nat>, checked: set<nat>)
    ensures |Useful(held, rest + [s], mapped, checked)| == |Useful(held, rest, mapped, checked)| +
            if s !in checked && s !in rest && s < |held| && held[s] >= 0 && Absent(held, mapped, held[s]) then 1 else 0
  {
    ElementsHas(rest, s);
    ChunksPush(held, mapped, s);
    ElementsPush(rest, s);
    var before := Useful(held, rest, mapped, checked);
    assert Useful(held, rest + [s], mapped, checked) ==
           if s !in checked && s < |held| && held[s] >= 0 && Absent(held, mapped, held[s]) then before + {s} else before;
  }

  /** The hits reported: the different chunks on the mapped servers; if these are fewer than k, also the spare
      servers with a chunk that is not on them, when spare servers are looked at; and if these are still fewer
      than k, with parity rebalancing also the server that last had the parity chunk. */
  lemma HitsAre(held: seq<int>, servers: seq<nat>, n: nat, k: nat, probing: bool, rebalancing: bool, prev: seq<nat>)
    requires n <= |servers|
    ensures var chunks := |Chunks(held, servers[..n])|;
            var spare := if probing || rebalancing then |Useful(held, servers[n..], servers[..n], Elements(servers[..n]))| else 0;
            var last := if rebalancing then |Useful(held, prev, servers[..n], Elements(servers))| else 0;
            TotalHits(held, servers, n, k, probing, rebalancing, prev) ==
            if chunks >= k then chunks else if chunks + spare >= k then chunks + spare else chunks + spare + last
  {
    FoundIsCard(held, servers[..n]);
    ProbedIsCard(held, servers[n..], servers[..n], Elements(servers[..n]));
    ProbedIsCard(held, prev, servers[..n], Elements(servers));
  }

  /** A chunk on the server that last had the parity chunk turns one hit too few into a hit. */
  lemma LastParityCounts(held: seq<int>, servers: seq<nat>, n: nat, k: nat, s: nat)
    requires n <= |servers| && s < |held| && s !in servers && held[s] >= 0 && Absent(held, servers[..n], held[s])
    requires TotalHits(held, servers, n, k, true, true, []) == k - 1
    ensures TotalHits(held, servers, n, k, true, true, [s]) == k
  {
    ElementsHas(servers, s);
    assert [s][..0] == [];
    assert Probed(held, [s], servers[..n], Elements(servers)) == 1;
  }

  /** With n equal to k the count can exceed n: three mapped servers of which two hold chunks 0 and 1, and two
      spare servers that both hold chunk 2. */
  lemma TooManyHits()
    ensures TotalHits([0, 1, -1, 2, 2], [0, 1, 2, 3, 4], 3, 3, true, false, []) == 4
    ensures Overcounts([0, 1, -1, 2, 2], [0, 1, 2, 3, 4], 3, 3, true, false)
  {
    var held, servers, mapped := [0, 1, -1, 2, 2], [0, 1, 2, 3, 4], [0, 1, 2];
    assert servers[..3] == mapped && mapped[..2] == [0, 1] && [0, 1][..1] == [0] && [0][..0] == [];
    assert servers[3..] == [3, 4] && [3, 4][..1] == [3] && [3][..0] == [];
    assert Absent(held, [], 0) && Absent(held, [0], 1);
    assert Found(held, [0]) == 1;
    assert Found(held, [0, 1]) == 2;
    assert Found(held, mapped) == 2;
    assert Absent(held, mapped, 2);
    ElementsHas(mapped, 3);
    ElementsHas(mapped, 4);
    assert Probed(held, [3], mapped, Elements(mapped)) == 1;
    assert Probed(held, [3, 4], mapped, Elements(mapped)) == 2;
  }
}
