/** A FAT volume as its files see it: every file is a chain of clusters, and over every run of
    creating, extending and removing files the chains stay whole and disjoint (fs_alloc, the linking
    in fs_write, and the release loop of fs_rm). */
module Volumes {
  import opened FatEntries
  import opened Clusters
  import opened FileSpec
  import opened Options

  /** The FAT, the FSInfo words, and the chain of every file; an empty file has no cluster. */
  datatype Volume = Volume(table: seq<nat>, info: FsInfo, files: seq<seq<nat>>)

  function Start(ch: seq<nat>): nat
  {
    if ch == [] then 0 else ch[0]
  }

  ghost predicate Apart(a: seq<nat>, b: seq<nat>)
  {
    forall x :: x in a ==> x !in b
  }

  /** Every file is a chain of its own. */
  ghost predicate Chains(t: seq<nat>, total: nat, files: seq<seq<nat>>)
    requires TableOk(t, total)
  {
    && (forall i :: 0 <= i < |files| ==> IsChain(t, total, Start(files[i]), files[i]))
    && (forall i, j :: 0 <= i < j < |files| ==> Apart(files[i], files[j]))
  }

  ghost predicate InNone(c: nat, files: seq<seq<nat>>)
  {
    forall i :: 0 <= i < |files| ==> c !in files[i]
  }

  /** The chains are whole and disjoint, and the hint is not followed or the cluster after it is a data
      cluster of no file. */
  ghost predicate VolumeOk(v: Volume, total: nat)
  {
    && TableOk(v.table, total) && Chains(v.table, total, v.files)
    && v.info.nextFree <= 0xFFFF_FFFF && v.info.freeCount <= 0xFFFF_FFFF
    && (!Followed(v.info) || (2 <= v.info.nextFree + 1 <= total + 1 && InNone(v.info.nextFree + 1, v.files)))
  }

  /** Create makes an empty file; Append gives file i one more cluster: fs_alloc, then the first
      cluster of the file or a link behind its last one; Remove releases the chain of file i. */
  datatype VolumeOp = Create | Append(i: nat) | Remove(i: nat)

  /** A free cluster exists when the fallback search runs. */
  predicate Allowed(v: Volume, total: nat, op: VolumeOp)
    requires TableOk(v.table, total)
  {
    match op
    case Create => true
    case Append(i) => i < |v.files| && Candidate(v.table, total, v.info) < |v.table|
    case Remove(i) => i < |v.files|
  }

  /** The cluster fs_alloc hands out next, if it does not fail. */
  function Next(v: Volume, total: nat): Option<nat>
    requires TableOk(v.table, total) && Candidate(v.table, total, v.info) < |v.table|
  {
    Alloc(v.table, total, v.info).clus
  }

  /** The chain and its entry behind file i's last cluster, as fs_write links them. */
  function Linked(t: seq<nat>, ch: seq<nat>, c: nat): seq<nat>
    requires ch != [] ==> ch[|ch| - 1] < |t|
  {
    if ch == [] then t else Set(t, ch[|ch| - 1], c)
  }

  ghost function VolumeStep(v: Volume, total: nat, op: VolumeOp): Volume
    requires VolumeOk(v, total) && Allowed(v, total, op)
  {
    match op
    case Create => v.(files := v.files + [[]])
    case Append(i) =>
      var r := Alloc(v.table, total, v.info);
      var ch := v.files[i];
      if r.clus.None? then Volume(r.table, r.info, v.files)
      else
        LastInTable(v, total, i);
        Volume(Linked(r.table, ch, r.clus.value), r.info, v.files[i := ch + [r.clus.value]])
    case Remove(i) =>
      Volume(Release(v.table, total, Start(v.files[i])), v.info, v.files[..i] + v.files[i + 1..])
  }

  lemma LastInTable(v: Volume, total: nat, i: nat)
    requires VolumeOk(v, total) && i < |v.files|
    ensures var ch := v.files[i]; ch != [] ==> 2 <= ch[|ch| - 1] < |v.table|
  {
    assert IsChain(v.table, total, Start(v.files[i]), v.files[i]);
  }

  // ----- one step -----

  /** A free cluster is in no file. */
  lemma FreeInNone(t: seq<nat>, total: nat, files: seq<seq<nat>>, c: nat)
    requires TableOk(t, total) && Chains(t, total, files) && c < |t| && Succ(t, c) == 0
    ensures InNone(c, files)
  {
    forall i | 0 <= i < |files| ensures c !in files[i] {
      ChainInUse(t, total, Start(files[i]), files[i]);
    }
  }

  /** The candidate of an allocation is a data cluster of no file, even after allocations that
      failed. */
  lemma CandidateInNone(v: Volume, total: nat)
    requires VolumeOk(v, total) && Candidate(v.table, total, v.info) < |v.table|
    ensures var c := Candidate(v.table, total, v.info); 2 <= c <= total + 1 && InNone(c, v.files)
  {
    hide Chains;
    var c := Candidate(v.table, total, v.info);
    if UsesFallback(v.info) { FreeInNone(v.table, total, v.files, c); }
  }

  /** Changing the entry of a cluster in no file leaves all chains. */
  lemma ChainsKept(t: seq<nat>, u: seq<nat>, total: nat, files: seq<seq<nat>>, c: nat)
    requires TableOk(t, total) && Chains(t, total, files) && InNone(c, files)
    requires |u| == |t| && forall d :: 0 <= d < |t| && d != c ==> u[d] == t[d]
    ensures TableOk(u, total) && Chains(u, total, files)
  {
    forall i | 0 <= i < |files| ensures IsChain(u, total, Start(files[i]), files[i]) {
      SameChain(t, u, total, Start(files[i]), files[i]);
    }
  }

  /** A chain whose entries are unchanged is the same chain. */
  lemma SameChain(t: seq<nat>, u: seq<nat>, total: nat, start: nat, ch: seq<nat>)
    requires TableOk(t, total) && IsChain(t, total, start, ch) && |u| == |t|
    requires forall d :: d in ch && d < |t| ==> u[d] == t[d]
    ensures TableOk(u, total) && IsChain(u, total, start, ch)
  {
    forall k | 0 <= k < |ch| ensures u[ch[k]] == t[ch[k]] { assert ch[k] in ch; }
  }

  /** Appending a marked cluster of no file extends one chain and leaves the others. */
  lemma LinkKeeps(t: seq<nat>, total: nat, files: seq<seq<nat>>, i: nat, c: nat)
    requires TableOk(t, total) && Chains(t, total, files) && i < |files|
    requires 2 <= c <= total + 1 && InNone(c, files) && Succ(t, c) > total + 1
    ensures files[i] != [] ==> files[i][|files[i]| - 1] < |t|
    ensures var u := Linked(t, files[i], c);
      TableOk(u, total) && Chains(u, total, files[i := files[i] + [c]])
  {
    var ch := files[i];
    assert IsChain(t, total, Start(ch), ch);
    if ch != [] { ChainAppended(t, total, Start(ch), ch, c); }
    var u, fs := Linked(t, ch, c), files[i := ch + [c]];
    forall j | 0 <= j < |fs| ensures IsChain(u, total, Start(fs[j]), fs[j]) {
      if j != i {
        OtherKept(t, u, total, files, i, j);
      }
    }
    forall j, k | 0 <= j < k < |fs| ensures Apart(fs[j], fs[k]) {
      assert Apart(files[j], files[k]);
    }
  }

  lemma OtherKept(t: seq<nat>, u: seq<nat>, total: nat, files: seq<seq<nat>>, i: nat, j: nat)
    requires TableOk(t, total) && Chains(t, total, files) && i < |files| && j < |files| && i != j
    requires |u| == |t| && forall d :: 0 <= d < |t| && d !in files[i] ==> u[d] == t[d]
    ensures TableOk(u, total) && IsChain(u, total, Start(files[j]), files[j])
  {
    assert if i < j then Apart(files[i], files[j]) else Apart(files[j], files[i]);
    SameChain(t, u, total, Start(files[j]), files[j]);
  }

  /** A chain is what is reachable from its first cluster. */
  lemma ChainReaches(t: seq<nat>, total: nat, ch: seq<nat>, d: nat)
    requires TableOk(t, total) && IsChain(t, total, Start(ch), ch)
    ensures Reaches(t, total, Start(ch), d) <==> d in ch
  {
    if ch != [] {
      if d in ch {
        var k: nat :| k < |ch| && ch[k] == d;
        WalkAlong(t, total, ch, 0, k);
      }
      if Reaches(t, total, Start(ch), d) {
        var n: nat :| ReachesIn(t, total, ch[0], d, n);
        WalkInside(t, total, ch, 0, d, n);
      }
    } else {
      assert forall n: nat :: !ReachesIn(t, total, 0, d, n);
    }
  }

  lemma {:induction false} WalkAlong(t: seq<nat>, total: nat, ch: seq<nat>, i: nat, k: nat)
    requires TableOk(t, total) && IsChain(t, total, Start(ch), ch) && i <= k < |ch|
    ensures ReachesIn(t, total, ch[i], ch[k], k - i)
    decreases k - i
  {
    if i < k { WalkAlong(t, total, ch, i + 1, k); }
  }

  lemma {:induction false} WalkInside(t: seq<nat>, total: nat, ch: seq<nat>, i: nat, d: nat, n: nat)
    requires TableOk(t, total) && IsChain(t, total, Start(ch), ch) && i < |ch|
    requires ReachesIn(t, total, ch[i], d, n)
    ensures d in ch
    decreases n
  {
    if n > 0 && i < |ch| - 1 { WalkInside(t, total, ch, i + 1, d, n - 1); }
  }

  /** Removing one file frees its clusters and leaves the other chains. */
  lemma RemoveKeeps(t: seq<nat>, total: nat, files: seq<seq<nat>>, i: nat)
    requires TableOk(t, total) && Chains(t, total, files) && i < |files|
    ensures var u := Release(t, total, Start(files[i]));
      && |u| == |t| && TableOk(u, total) && Chains(u, total, files[..i] + files[i + 1..])
      && forall d :: 0 <= d < |t| ==> u[d] == if d in files[i] then NewEntry(t[d], 0) else t[d]
  {
    var ch, u := files[i], Release(t, total, Start(files[i]));
    assert IsChain(t, total, Start(ch), ch);
    forall d: nat | d < |t| ensures u[d] == if d in ch then NewEntry(t[d], 0) else t[d] {
      ReleaseZeroesReachable(t, total, Start(ch), d);
      ChainReaches(t, total, ch, d);
    }
    var rest := files[..i] + files[i + 1..];
    forall j | 0 <= j < |rest| ensures IsChain(u, total, Start(rest[j]), rest[j]) {
      OtherKept(t, u, total, files, i, if j < i then j else j + 1);
    }
    forall j, k | 0 <= j < k < |rest| ensures Apart(rest[j], rest[k]) {
      assert Apart(files[if j < i then j else j + 1], files[if k < i then k else k + 1]);
    }
  }

  /** Every step keeps the chains whole and disjoint; a cluster appended was in no file. */
  lemma VolumeStepKeeps(v: Volume, total: nat, op: VolumeOp)
    requires VolumeOk(v, total) && Allowed(v, total, op)
    ensures VolumeOk(VolumeStep(v, total, op), total)
    ensures op.Append? && Next(v, total).Some? ==> InNone(Next(v, total).value, v.files)
  {
    match op
    case Create =>
      var fs := v.files + [[]];
      forall j, k | 0 <= j < k < |fs| ensures Apart(fs[j], fs[k]) {
        assert k < |v.files| ==> Apart(v.files[j], v.files[k]);
      }
    case Append(i) => AppendKeeps(v, total, i);
    case Remove(i) => RemoveKeeps(v.table, total, v.files, i);
  }

  /** What the steps do: a new empty file; one more cluster behind file i, linked from its last one and
      marked as the end, or none when the allocation fails; file i gone and its entries free. The other files
      stay, and so do the entries of their clusters. */
  lemma VolumeStepExact(v: Volume, total: nat, op: VolumeOp)
    requires VolumeOk(v, total) && Allowed(v, total, op)
    ensures var w := VolumeStep(v, total, op);
      match op
      case Create => w == v.(files := v.files + [[]])
      case Append(i) =>
        if Next(v, total).None? then
          && w.files == v.files && w.info == v.info && |w.table| == |v.table|
          && Succ(w.table, Candidate(v.table, total, v.info)) == 0x0FFF_FFFF
        else
          var c, ch := Next(v, total).value, v.files[i];
          && w.files == v.files[i := ch + [c]] && c < |w.table| && Succ(w.table, c) == 0x0FFF_FFFF
          && (ch != [] ==> ch[|ch| - 1] < |w.table| && Succ(w.table, ch[|ch| - 1]) == c)
      case Remove(i) =>
        && w.files == v.files[..i] + v.files[i + 1..] && w.info == v.info
        && forall d :: d in v.files[i] ==> Free(w.table, d)
  {
    match op
    case Create =>
    case Append(i) =>
      AllocEffect(v.table, total, v.info);
      if Next(v, total).Some? { AppendExact(v, total, i); }
    case Remove(i) =>
      RemoveKeeps(v.table, total, v.files, i);
      assert IsChain(v.table, total, Start(v.files[i]), v.files[i]);
      forall d | d in v.files[i] ensures Free(VolumeStep(v, total, op).table, d) { NewEntryLow(v.table[d], 0); }
  }

  lemma AppendExact(v: Volume, total: nat, i: nat)
    requires VolumeOk(v, total) && Allowed(v, total, Append(i)) && Next(v, total).Some?
    ensures var w, c, ch := VolumeStep(v, total, Append(i)), Next(v, total).value, v.files[i];
      && w.files == v.files[i := ch + [c]] && c < |w.table| && Succ(w.table, c) == 0x0FFF_FFFF
      && (ch != [] ==> ch[|ch| - 1] < |w.table| && Succ(w.table, ch[|ch| - 1]) == c)
  {
    var r, ch := Alloc(v.table, total, v.info), v.files[i];
    AllocEffect(v.table, total, v.info);
    CandidateInNone(v, total);
    LastInTable(v, total, i);
    hide Chains, Alloc;
    if ch != [] {
      assert ch[|ch| - 1] in ch;
      NewEntryLow(r.table[ch[|ch| - 1]], r.clus.value);
    }
  }

  lemma AppendKeeps(v: Volume, total: nat, i: nat)
    requires VolumeOk(v, total) && Allowed(v, total, Append(i))
    ensures VolumeOk(VolumeStep(v, total, Append(i)), total)
    ensures Next(v, total).Some? ==> InNone(Next(v, total).value, v.files)
    ensures Next(v, total).Some? ==>
              HintFree(VolumeStep(v, total, Append(i)).table, total, VolumeStep(v, total, Append(i)).info)
  {
    hide Chains, Alloc, InNone;
    var r, c := Alloc(v.table, total, v.info), Candidate(v.table, total, v.info);
    CandidateInNone(v, total);
    AllocEffect(v.table, total, v.info);
    ChainsKept(v.table, r.table, total, v.files, c);
    LastInTable(v, total, i);
    if r.clus.Some? {
      LinkKeeps(r.table, total, v.files, i, c);
      var ch := v.files[i];
      var w := VolumeStep(v, total, Append(i));
      if ch != [] {
        LastUsed(r.table, total, v.files, i);
        HintLinked(r.table, total, r.info, ch[|ch| - 1], c);
      }
      assert w == Volume(Linked(r.table, ch, c), r.info, v.files[i := ch + [c]]);
      FreeInNone(w.table, total, w.files, w.info.nextFree + 1);
    } else {
      FailedHint(v, total);
    }
  }

  lemma LastUsed(t: seq<nat>, total: nat, files: seq<seq<nat>>, i: nat)
    requires TableOk(t, total) && Chains(t, total, files) && i < |files| && files[i] != []
    ensures var last := files[i][|files[i]| - 1]; last < |t| && Succ(t, last) != 0
  {
    ChainInUse(t, total, Start(files[i]), files[i]);
  }

  /** Linking behind a cluster in use leaves the cluster after the hint free. */
  lemma HintLinked(t: seq<nat>, total: nat, info: FsInfo, last: nat, c: nat)
    requires TableOk(t, total) && HintFree(t, total, info) && last < |t| && Succ(t, last) != 0
    ensures HintFree(Set(t, last, c), total, info)
  {
  }

  lemma FailedHint(v: Volume, total: nat)
    requires TableOk(v.table, total) && Candidate(v.table, total, v.info) < |v.table| && Next(v, total).None?
    ensures Alloc(v.table, total, v.info).info == v.info
  {
  }

  // ----- runs -----

  ghost predicate VolumeReaches(v: Volume, total: nat, ops: seq<VolumeOp>, w: Volume)
    decreases |ops|
  {
    if ops == [] then v == w
    else VolumeOk(v, total) && Allowed(v, total, ops[0])
         && VolumeReaches(VolumeStep(v, total, ops[0]), total, ops[1..], w)
  }

  /** Over every run from such a volume, every file's chain stays whole, no two files
      share a cluster, and the next cluster fs_alloc hands out belongs to none. */
  lemma {:induction false} VolumeRun(v: Volume, total: nat, ops: seq<VolumeOp>, w: Volume)
    requires VolumeOk(v, total) && VolumeReaches(v, total, ops, w)
    ensures TableOk(w.table, total)
    ensures forall i :: 0 <= i < |w.files| ==> IsChain(w.table, total, Start(w.files[i]), w.files[i])
    ensures forall i, j :: 0 <= i < j < |w.files| ==> Apart(w.files[i], w.files[j])
    ensures Candidate(w.table, total, w.info) < |w.table| && Next(w, total).Some? ==>
              2 <= Next(w, total).value <= total + 1 && InNone(Next(w, total).value, w.files)
    decreases |ops|
  {
    if ops != [] {
      VolumeStepKeeps(v, total, ops[0]);
      VolumeRun(VolumeStep(v, total, ops[0]), total, ops[1..], w);
    } else if Candidate(w.table, total, w.info) < |w.table| {
      CandidateInNone(w, total);
      AllocEffect(w.table, total, w.info);
    }
  }

  /** Every allocation of the run succeeds. */
  ghost predicate NoneFails(v: Volume, total: nat, ops: seq<VolumeOp>)
    decreases |ops|
  {
    ops == [] ||
    (VolumeOk(v, total) && Allowed(v, total, ops[0]) && (ops[0].Append? ==> Next(v, total).Some?)
     && NoneFails(VolumeStep(v, total, ops[0]), total, ops[1..]))
  }

  /** The entry of every cluster the run allocates was 0 before. */
  ghost predicate AllFresh(v: Volume, total: nat, ops: seq<VolumeOp>)
    decreases |ops|
  {
    ops == [] || !VolumeOk(v, total) || !Allowed(v, total, ops[0]) ||
    ((ops[0].Append? && Next(v, total).Some? ==> Free(v.table, Next(v, total).value))
     && AllFresh(VolumeStep(v, total, ops[0]), total, ops[1..]))
  }

  /** While fs_alloc is going to take a free cluster and no allocation fails, every cluster allocated
      was free, and fs_alloc is again going to take a free one. */
  lemma {:induction false} HintStaysFree(v: Volume, total: nat, ops: seq<VolumeOp>, w: Volume)
    requires VolumeOk(v, total) && HintReady(v.table, total, v.info)
    requires NoneFails(v, total, ops) && VolumeReaches(v, total, ops, w)
    ensures AllFresh(v, total, ops) && VolumeOk(w, total) && HintReady(w.table, total, w.info)
    decreases |ops|
  {
    hide VolumeStep, HintReady, Alloc, Succ;
    if ops != [] {
      HintStep(v, total, ops[0]);
      HintStaysFree(VolumeStep(v, total, ops[0]), total, ops[1..], w);
    }
  }

  lemma HintStep(v: Volume, total: nat, op: VolumeOp)
    requires VolumeOk(v, total) && HintReady(v.table, total, v.info) && Allowed(v, total, op)
    requires op.Append? ==> Next(v, total).Some?
    ensures VolumeOk(VolumeStep(v, total, op), total)
    ensures HintReady(VolumeStep(v, total, op).table, total, VolumeStep(v, total, op).info)
    ensures op.Append? ==> Free(v.table, Next(v, total).value)
  {
    hide Chains, InNone;
    VolumeStepKeeps(v, total, op);
    match op
    case Create =>
    case Append(i) =>
      AppendKeeps(v, total, i);
      AllocEffect(v.table, total, v.info);
      var w := VolumeStep(v, total, op);
      CandidateReady(w.table, total, w.info);
    case Remove(i) =>
      RemoveKeeps(v.table, total, v.files, i);
      var w := VolumeStep(v, total, op);
      HintReadyKept(v.table, w.table, total, v.info);
  }
}
