/**
  The FAT as a graph: `l[c]` is the cluster that follows c, or one of the negative meanings.
  Chains, what freeing and growing them does to the table, and the invariant that the files of
  a volume own pairwise disjoint chains while the free counter is exact.
 */
module FatLinks {
  import opened Machine
  import opened FatEncoding

  type Links = seq<int>

  /** Clusters are numbered from MINCL; the table has one entry for each number up to maxcl. */
  predicate Cluster(l: Links, c: int) {
    MINCL <= c < |l|
  }

  /** Every entry is a cluster number or a negative meaning. */
  predicate Table(l: Links) {
    forall c :: 0 <= c < |l| && l[c] > 0 ==> Cluster(l, l[c])
  }

  lemma DecodeIsTable(t: FatType, maxcl: nat, s: seq<byte>)
    requires EntryEnd(t, maxcl) <= |s|
    ensures Table(Decode(t, maxcl, s))
  {
  }

  function Next(l: Links, c: int): int {
    if Cluster(l, c) then l[c] else CLILLEGAL
  }

  /** n single steps from c, ending early at the first value that is not a cluster. */
  function Walk(l: Links, c: int, n: nat): int
    decreases n
  {
    if n == 0 then c
    else
      var v := Next(l, c);
      if v <= 0 then v else Walk(l, v, n - 1)
  }

  lemma {:induction false} WalkCompose(l: Links, c: int, m: nat, n: nat)
    requires Table(l) && Cluster(l, c)
    ensures Walk(l, c, m + n) == if Walk(l, c, m) <= 0 then Walk(l, c, m) else Walk(l, Walk(l, c, m), n)
    decreases m
  {
    if m > 0 && Next(l, c) > 0 {
      WalkCompose(l, Next(l, c), m - 1, n);
    }
  }

  // ---------------------------------------------------------------- chains

  /** s lists, in order, the clusters reached from s[0] up to the one marked as last. */
  ghost predicate IsChain(l: Links, s: seq<int>) {
    && |s| > 0
    && (forall i :: 0 <= i < |s| ==> Cluster(l, s[i]))
    && (forall i :: 0 <= i < |s| - 1 ==> l[s[i]] == s[i + 1])
    && l[s[|s| - 1]] == CLLAST
  }

  ghost predicate NoDup(s: seq<int>) {
    forall i, j :: 0 <= i < j < |s| ==> s[i] != s[j]
  }

  /** A list that ends in CLLAST cannot revisit a cluster. */
  lemma {:induction false} ChainAcyclic(l: Links, s: seq<int>)
    requires IsChain(l, s)
    ensures NoDup(s)
  {
    forall i, j | 0 <= i < j < |s|
      ensures s[i] != s[j]
    {
      ChainApart(l, s, i, j);
    }
  }

  lemma {:induction false} ChainApart(l: Links, s: seq<int>, i: nat, j: nat)
    requires IsChain(l, s) && i < j < |s|
    ensures s[i] != s[j]
    decreases |s| - j
  {
    assert l[s[i]] == s[i + 1] && Cluster(l, s[i + 1]);
    if j + 1 < |s| {
      ChainApart(l, s, i + 1, j + 1);
      assert l[s[j]] == s[j + 1];
    }
  }

  lemma ChainInUse(l: Links, s: seq<int>)
    requires IsChain(l, s)
    ensures forall i :: 0 <= i < |s| ==> l[s[i]] != CLFREE
  {
    forall i | 0 <= i < |s|
      ensures l[s[i]] != CLFREE
    {
      if i + 1 < |s| {
        assert l[s[i]] == s[i + 1] && Cluster(l, s[i + 1]);
      }
    }
  }

  /** A chain is determined by its first cluster, so chains that meet run on together. */
  lemma {:induction false} ChainsMeet(l: Links, s: seq<int>, i: nat, t: seq<int>, j: nat)
    requires IsChain(l, s) && IsChain(l, t)
    requires i < |s| && j < |t| && s[i] == t[j]
    ensures s[i..] == t[j..]
    decreases |s| - i
  {
    if j + 1 < |t| {
      assert l[t[j]] == t[j + 1] && Cluster(l, t[j + 1]);
    }
    if i + 1 < |s| {
      assert l[s[i]] == s[i + 1] && Cluster(l, s[i + 1]);
      ChainsMeet(l, s, i + 1, t, j + 1);
      assert s[i..] == [s[i]] + s[i + 1..] && t[j..] == [t[j]] + t[j + 1..];
    }
  }

  /** Walking a chain: n steps lead n places on, or report the end of the chain. */
  lemma {:induction false} WalkChain(l: Links, s: seq<int>, i: nat, n: nat)
    requires IsChain(l, s) && i < |s|
    ensures Walk(l, s[i], n) == if i + n < |s| then s[i + n] else CLLAST
    decreases n
  {
    if n > 0 && i + 1 < |s| {
      WalkChain(l, s, i + 1, n - 1);
    }
  }

  // ---------------------------------------------------------------- counting free clusters

  function FreeCount(l: Links, lo: nat, hi: nat): (n: nat)
    requires hi <= |l|
  {
    if hi <= lo then 0 else FreeCount(l, lo, hi - 1) + if l[hi - 1] == CLFREE then 1 else 0
  }

  lemma {:induction false} FreeCountUpdate(l: Links, c: nat, v: int, lo: nat, hi: nat)
    requires hi <= |l| && c < |l|
    ensures FreeCount(l[c := v], lo, hi) ==
      if lo <= c < hi
      then FreeCount(l, lo, hi) - (if l[c] == CLFREE then 1 else 0) + (if v == CLFREE then 1 else 0)
      else FreeCount(l, lo, hi)
  {
    if lo < hi {
      FreeCountUpdate(l, c, v, lo, hi - 1);
    }
  }

  lemma {:induction false} FreeCountBound(l: Links, lo: nat, hi: nat)
    requires hi <= |l|
    ensures FreeCount(l, lo, hi) <= if lo <= hi then hi - lo else 0
    ensures FreeCount(l, lo, hi) == 0 <==> forall c :: lo <= c < hi ==> l[c] != CLFREE
  {
    if lo < hi {
      FreeCountBound(l, lo, hi - 1);
    }
  }

  lemma {:induction false} FreeCountSplit(l: Links, lo: nat, mid: nat, hi: nat)
    requires lo <= mid <= hi <= |l|
    ensures FreeCount(l, lo, hi) == FreeCount(l, lo, mid) + FreeCount(l, mid, hi)
  {
    if mid < hi {
      FreeCountSplit(l, lo, mid, hi - 1);
    }
  }

  function NonFree(l: Links): nat {
    FreeCountBound(l, 0, |l|);
    |l| - FreeCount(l, 0, |l|)
  }

  // ---------------------------------------------------------------- growing and freeing

  /** Cluster c, which was free, becomes the last cluster behind prev (0: of a new chain). */
  function Linked(l: Links, prev: int, c: int): (r: Links)
    requires Cluster(l, c) && (prev == 0 || Cluster(l, prev))
    ensures |r| == |l|
  {
    if prev == 0 then l[c := CLLAST] else l[c := CLLAST][prev := c]
  }

  /** The table with every cluster of s marked free. */
  function FreeAll(l: Links, s: seq<int>): (r: Links)
    ensures |r| == |l|
    ensures forall c :: 0 <= c < |l| ==> r[c] == if c in s then CLFREE else l[c]
  {
    seq(|l|, c requires 0 <= c < |l| => if c in s then CLFREE else l[c])
  }

  /**
    What del_chain does to any table, well formed or not: it clears entries along the links and
    reports an error when they do not end in CLLAST. Each step clears an entry that was in use.
   */
  function Deleted(l: Links, c: int): (r: (Links, int))
    requires Table(l)
    ensures |r.0| == |l| && Table(r.0)
    decreases NonFree(l)
  {
    var next := Next(l, c);
    if next > 0 then
      FreeCountUpdate(l, c, CLFREE, 0, |l|);
      Deleted(l[c := CLFREE], next)
    else if next == CLLAST then
      (l[c := CLFREE], E_OK)
    else
      (l, EERROR)
  }

  /** Deleting a chain frees exactly its clusters. */
  lemma {:induction false} DeletedChain(l: Links, s: seq<int>)
    requires Table(l) && IsChain(l, s)
    ensures Deleted(l, s[0]) == (FreeAll(l, s), E_OK)
    decreases |s|
  {
    ChainAcyclic(l, s);
    if |s| == 1 {
      assert l[s[0] := CLFREE] == FreeAll(l, s);
    } else {
      var l' := l[s[0] := CLFREE];
      var s' := s[1..];
      assert forall i :: 0 <= i < |s'| ==> s'[i] == s[i + 1];
      assert IsChain(l', s');
      DeletedChain(l', s');
      assert s == [s[0]] + s';
      assert FreeAll(l', s') == FreeAll(l, s);
    }
  }

  /** On a corrupted volume whose links run into a loop, the whole loop is freed and EERROR reported. */
  lemma {:induction false} DeletedLoop(l: Links, s: seq<int>, back: nat)
    requires Table(l) && 0 < |s| && NoDup(s) && back < |s|
    requires forall i :: 0 <= i < |s| ==> Cluster(l, s[i])
    requires forall i :: 0 <= i < |s| - 1 ==> Next(l, s[i]) == s[i + 1]
    requires Next(l, s[|s| - 1]) == s[back]
    ensures Deleted(l, s[0]) == (FreeAll(l, s), EERROR)
  {
    DeletedToFree(l, s, s[back]);
  }

  lemma DeletedStep(l: Links, s: seq<int>, e: int)
    requires Table(l) && NoDup(s) && Cluster(l, e) && |s| > 0 && Cluster(l, s[0])
    requires forall i :: 0 <= i < |s| ==> Cluster(l, s[i])
    requires forall i :: 0 <= i < |s| - 1 ==> Next(l, s[i]) == s[i + 1]
    requires Next(l, s[|s| - 1]) == e
    ensures var l', s' := l[s[0] := CLFREE], s[1..];
      && Table(l') && NoDup(s') && (e in s ==> e in s' || l'[e] == CLFREE)
      && (forall i :: 0 <= i < |s'| ==> Cluster(l', s'[i]))
      && (forall i :: 0 <= i < |s'| - 1 ==> Next(l', s'[i]) == s'[i + 1])
      && (|s'| > 0 ==> Next(l', s'[|s'| - 1]) == e)
      && Deleted(l, s[0]) == Deleted(l', if |s'| > 0 then s'[0] else e)
  {
    hide NonFree;
    var l', s' := l[s[0] := CLFREE], s[1..];
    assert forall i :: 0 <= i < |s'| ==> s'[i] == s[i + 1] && s'[i] != s[0];
  }

  lemma DeletedFree(l: Links, e: int)
    requires Table(l) && Cluster(l, e) && l[e] == CLFREE
    ensures Deleted(l, e) == (l, EERROR)
  {
  }

  lemma FreeAllNone(l: Links)
    ensures FreeAll(l, []) == l
  {
  }

  lemma FreeAllStep(l: Links, s: seq<int>)
    requires |s| > 0 && 0 <= s[0] < |l|
    ensures FreeAll(l[s[0] := CLFREE], s[1..]) == FreeAll(l, s)
  {
    assert s == [s[0]] + s[1..];
  }

  /** As above, once part of the loop is cleared: the last link may lead to a cleared entry. */
  lemma {:induction false} DeletedToFree(l: Links, s: seq<int>, e: int)
    requires Table(l) && NoDup(s) && Cluster(l, e)
    requires forall i :: 0 <= i < |s| ==> Cluster(l, s[i])
    requires forall i :: 0 <= i < |s| - 1 ==> Next(l, s[i]) == s[i + 1]
    requires |s| > 0 ==> Next(l, s[|s| - 1]) == e
    requires e in s || l[e] == CLFREE
    ensures Deleted(l, if |s| > 0 then s[0] else e) == (FreeAll(l, s), EERROR)
    decreases |s|
  {
    hide Deleted, FreeAll;
    if |s| == 0 {
      DeletedFree(l, e);
      FreeAllNone(l);
    } else {
      DeletedStep(l, s, e);
      DeletedToFree(l[s[0] := CLFREE], s[1..], e);
      FreeAllStep(l, s);
    }
  }

  /** Whatever it is given, del_chain only clears entries, and the free count grows by their number. */
  lemma {:induction false} DeletedOnlyFrees(l: Links, c: int)
    requires Table(l)
    ensures forall d :: 0 <= d < |l| ==> Deleted(l, c).0[d] == l[d] || Deleted(l, c).0[d] == CLFREE
    ensures Deleted(l, c).1 == E_OK || Deleted(l, c).1 == EERROR
    decreases NonFree(l)
  {
    if Next(l, c) > 0 {
      FreeCountUpdate(l, c, CLFREE, 0, |l|);
      DeletedOnlyFrees(l[c := CLFREE], l[c]);
    }
  }

  // ---------------------------------------------------------------- chains under change

  lemma ChainFrame(l: Links, l': Links, s: seq<int>)
    requires IsChain(l, s) && |l'| == |l|
    requires forall i :: 0 <= i < |s| ==> l'[s[i]] == l[s[i]]
    ensures IsChain(l', s)
  {
  }

  /** Linking a free cluster behind the last one makes the chain exactly one cluster longer. */
  lemma ChainGrows(l: Links, s: seq<int>, c: int)
    requires IsChain(l, s) && Cluster(l, c) && l[c] == CLFREE
    ensures c !in s
    ensures IsChain(Linked(l, s[|s| - 1], c), s + [c])
  {
    ChainAcyclic(l, s);
    ChainInUse(l, s);
    var l' := Linked(l, s[|s| - 1], c);
    var t := s + [c];
    forall i | 0 <= i < |t| - 1
      ensures l'[t[i]] == t[i + 1]
    {
    }
  }

  /** Freeing a tail and marking the cluster before it as last leaves the front as the chain. */
  lemma ChainCut(l: Links, s: seq<int>, keep: nat)
    requires IsChain(l, s) && 0 < keep <= |s|
    ensures IsChain(FreeAll(l, s[keep..])[s[keep - 1] := CLLAST], s[..keep])
    ensures keep < |s| ==> IsChain(l, s[keep..])
  {
    ChainAcyclic(l, s);
    var l' := FreeAll(l, s[keep..])[s[keep - 1] := CLLAST];
    forall i | 0 <= i < keep - 1
      ensures l'[s[i]] == s[i + 1]
    {
      assert s[i] !in s[keep..];
    }
  }

  // ---------------------------------------------------------------- the volume

  /** The links, the chain each file owns, and the cached number of free clusters (or -1). */
  datatype Volume = Volume(links: Links, files: map<nat, seq<int>>, free: int)

  ghost predicate Disjoint(s: seq<int>, t: seq<int>) {
    forall i, j :: 0 <= i < |s| && 0 <= j < |t| ==> s[i] != t[j]
  }

  /** Every file owns a chain of its own below top, and the counter, if known, is exact. */
  ghost predicate Forest(top: nat, v: Volume) {
    && MINCL < top <= |v.links|
    && Table(v.links)
    && (forall f :: f in v.files ==> IsChain(v.links, v.files[f]))
    && (forall f, i :: f in v.files && 0 <= i < |v.files[f]| ==> v.files[f][i] < top)
    && (forall f, g :: f in v.files && g in v.files && f != g ==> Disjoint(v.files[f], v.files[g]))
    && (v.free >= 0 ==> v.free == FreeCount(v.links, MINCL, top))
  }

  /** How the table and the counter change; `f` is the file concerned. */
  datatype Op =
    | Create(f: nat, c: int)
    | Extend(f: nat, c: int)
    | Delete(f: nat)
    | Truncate(f: nat, keep: nat)

  /** The counter follows the number of clusters freed (or, negated, taken). */
  function Counted(free: int, freed: int): int {
    if free < 0 then free else free + freed
  }

  ghost predicate CanStep(top: nat, v: Volume, op: Op) {
    match op
    case Create(f, c) => f !in v.files && MINCL <= c < top <= |v.links| && v.links[c] == CLFREE
    case Extend(f, c) =>
      f in v.files && IsChain(v.links, v.files[f]) && MINCL <= c < top <= |v.links| && v.links[c] == CLFREE
    case Delete(f) => f in v.files
    case Truncate(f, keep) => f in v.files && IsChain(v.links, v.files[f]) && 0 < keep <= |v.files[f]|
  }

  /** The effect of the operations, as the contracts of nextcl, del_chain and FTruncate state it. */
  ghost function Apply(top: nat, v: Volume, op: Op): Volume
    requires CanStep(top, v, op)
  {
    match op
    case Create(f, c) =>
      Volume(Linked(v.links, 0, c), v.files[f := [c]], Counted(v.free, -1))
    case Extend(f, c) =>
      var s := v.files[f];
      Volume(Linked(v.links, s[|s| - 1], c), v.files[f := s + [c]], Counted(v.free, -1))
    case Delete(f) =>
      Volume(FreeAll(v.links, v.files[f]), v.files - {f}, Counted(v.free, |v.files[f]|))
    case Truncate(f, keep) =>
      var s := v.files[f];
      Volume(FreeAll(v.links, s[keep..])[s[keep - 1] := CLLAST], v.files[f := s[..keep]],
             Counted(v.free, |s| - keep))
  }

  lemma {:induction false} FreeAllCount(l: Links, s: seq<int>, lo: nat, hi: nat)
    requires NoDup(s) && hi <= |l|
    requires forall i :: 0 <= i < |s| ==> lo <= s[i] < hi && l[s[i]] != CLFREE
    ensures FreeCount(FreeAll(l, s), lo, hi) == FreeCount(l, lo, hi) + |s|
    decreases |s|
  {
    if |s| == 0 {
      assert FreeAll(l, s) == l;
    } else {
      var n := |s| - 1;
      var s' := s[..n];
      assert s == s' + [s[n]];
      FreeAllCount(l, s', lo, hi);
      assert FreeAll(l, s) == FreeAll(l, s')[s[n] := CLFREE];
      assert s[n] !in s';
      FreeCountUpdate(FreeAll(l, s'), s[n], CLFREE, lo, hi);
    }
  }

  /** Deleting the rest of a chain frees exactly that rest, and so many clusters are counted. */
  lemma DeletedRest(l: Links, s: seq<int>, keep: nat)
    requires Table(l) && IsChain(l, s) && keep < |s|
    ensures Deleted(l, s[keep]) == (FreeAll(l, s[keep..]), E_OK)
    ensures NonFree(l) - NonFree(FreeAll(l, s[keep..])) == |s| - keep
  {
    ChainAcyclic(l, s);
    ChainInUse(l, s);
    var t := s[keep..];
    assert forall i :: 0 <= i < |t| ==> t[i] == s[keep + i];
    assert IsChain(l, t);
    DeletedChain(l, t);
    FreeAllCount(l, t, 0, |l|);
  }

  lemma ForestCreate(top: nat, v: Volume, f: nat, c: int)
    requires Forest(top, v) && CanStep(top, v, Create(f, c))
    ensures Forest(top, Apply(top, v, Create(f, c)))
  {
    hide FreeCount, NoDup;
    var w := Apply(top, v, Create(f, c));
    FreeCountUpdate(v.links, c, CLLAST, MINCL, top);
    forall g | g in v.files
      ensures IsChain(w.links, v.files[g]) && c !in v.files[g]
    {
      ChainInUse(v.links, v.files[g]);
      ChainFrame(v.links, w.links, v.files[g]);
    }
  }

  lemma ForestExtend(top: nat, v: Volume, f: nat, c: int)
    requires Forest(top, v) && CanStep(top, v, Extend(f, c))
    ensures Forest(top, Apply(top, v, Extend(f, c)))
  {
    hide FreeCount, NoDup;
    var w := Apply(top, v, Extend(f, c));
    var s := v.files[f];
    var e := s[|s| - 1];
    FreeCountUpdate(v.links, c, CLLAST, MINCL, top);
    FreeCountUpdate(v.links[c := CLLAST], e, c, MINCL, top);
    ChainGrows(v.links, s, c);
    forall g | g in v.files && g != f
      ensures IsChain(w.links, v.files[g]) && c !in v.files[g]
    {
      assert Disjoint(s, v.files[g]);
      ChainInUse(v.links, v.files[g]);
      ChainFrame(v.links, w.links, v.files[g]);
    }
  }

  lemma ForestDelete(top: nat, v: Volume, f: nat)
    requires Forest(top, v) && CanStep(top, v, Delete(f))
    ensures Forest(top, Apply(top, v, Delete(f)))
  {
    hide FreeCount, NoDup;
    var w := Apply(top, v, Delete(f));
    ChainAcyclic(v.links, v.files[f]);
    ChainInUse(v.links, v.files[f]);
    FreeAllCount(v.links, v.files[f], MINCL, top);
    forall g | g in w.files
      ensures IsChain(w.links, v.files[g])
    {
      assert Disjoint(v.files[g], v.files[f]);
      ChainFrame(v.links, w.links, v.files[g]);
    }
  }

  /** What cutting a chain does to the free count. */
  lemma CutFree(l: Links, s: seq<int>, keep: nat, top: nat)
    requires IsChain(l, s) && Table(l) && 0 < keep <= |s| && top <= |l| && forall i :: 0 <= i < |s| ==> s[i] < top
    ensures FreeCount(FreeAll(l, s[keep..])[s[keep - 1] := CLLAST], MINCL, top) == FreeCount(l, MINCL, top) + |s| - keep
  {
    hide FreeCount;
    var rest := s[keep..];
    ChainAcyclic(l, s);
    ChainInUse(l, s);
    assert forall i :: 0 <= i < |rest| ==> rest[i] == s[keep + i];
    FreeAllCount(l, rest, MINCL, top);
    assert s[keep - 1] !in rest;
    FreeCountUpdate(FreeAll(l, rest), s[keep - 1], CLLAST, MINCL, top);
  }

  lemma TruncateOwn(top: nat, v: Volume, f: nat, keep: nat)
    requires Forest(top, v) && CanStep(top, v, Truncate(f, keep))
    ensures var w := Apply(top, v, Truncate(f, keep));
      && Table(w.links) && IsChain(w.links, v.files[f][..keep])
      && FreeCount(w.links, MINCL, top) == FreeCount(v.links, MINCL, top) + |v.files[f]| - keep
  {
    hide FreeCount, NoDup, Disjoint;
    ChainCut(v.links, v.files[f], keep);
    CutFree(v.links, v.files[f], keep, top);
  }

  lemma ForestTruncate(top: nat, v: Volume, f: nat, keep: nat)
    requires Forest(top, v) && CanStep(top, v, Truncate(f, keep))
    ensures Forest(top, Apply(top, v, Truncate(f, keep)))
  {
    hide FreeCount, NoDup;
    var w := Apply(top, v, Truncate(f, keep));
    var s := v.files[f];
    TruncateOwn(top, v, f, keep);
    forall g | g in v.files && g != f
      ensures IsChain(w.links, v.files[g]) && Disjoint(v.files[g], s[..keep])
    {
      assert Disjoint(v.files[g], s);
      ChainFrame(v.links, w.links, v.files[g]);
    }
  }

  lemma ForestStep(top: nat, v: Volume, op: Op)
    requires Forest(top, v) && CanStep(top, v, op)
    ensures Forest(top, Apply(top, v, op))
  {
    match op
    case Create(f, c) => ForestCreate(top, v, f, c);
    case Extend(f, c) => ForestExtend(top, v, f, c);
    case Delete(f) => ForestDelete(top, v, f);
    case Truncate(f, keep) => ForestTruncate(top, v, f, keep);
  }

  /** vs lists the states of a run that performs the operations of ops one after the other. */
  ghost predicate IsRun(top: nat, vs: seq<Volume>, ops: seq<Op>) {
    && |vs| == |ops| + 1
    && forall i :: 0 <= i < |ops| ==> CanStep(top, vs[i], ops[i]) && vs[i + 1] == Apply(top, vs[i], ops[i])
  }

  /** Whatever is created, extended, deleted and truncated, in whatever order: chains stay acyclic,
      disjoint and properly ended, and the free counter stays exact. */
  lemma {:induction false} ForestRun(top: nat, vs: seq<Volume>, ops: seq<Op>, k: nat)
    requires IsRun(top, vs, ops) && Forest(top, vs[0]) && k < |vs|
    ensures Forest(top, vs[k])
    ensures forall f :: f in vs[k].files ==> NoDup(vs[k].files[f])
    decreases k
  {
    if k > 0 {
      ForestRun(top, vs, ops, k - 1);
      ForestStep(top, vs[k - 1], ops[k - 1]);
    }
    forall f | f in vs[k].files
      ensures NoDup(vs[k].files[f])
    {
      ChainAcyclic(vs[k].links, vs[k].files[f]);
    }
  }
}
