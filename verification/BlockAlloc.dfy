/**
  The chunk map of a cache block: which chunks are covered by which unit. Units occupy disjoint
  ranges inside the block, `used` and `active` agree about them, and `free` counts the rest.
 */
module BlockAlloc {
  import opened Machine
  import opened BlockUnit

  const CHUNK_SIZE := 512

  /** bio_get_chunks */
  function NChunks(size: nat): nat {
    (size + (CHUNK_SIZE - 1)) / CHUNK_SIZE
  }

  /** The least number of chunks that hold so many bytes. */
  lemma ChunksHold(size: nat)
    ensures size <= 512 * NChunks(size) < size + 512
  {
  }

  function Zeros(used: seq<nat>): nat {
    if used == [] then 0 else Zeros(used[..|used| - 1]) + if used[|used| - 1] == 0 then 1 else 0
  }

  /** used with the n entries from at on replaced by v. */
  function Marked(used: seq<nat>, at: nat, n: nat, v: nat): (r: seq<nat>)
    requires at + n <= |used|
    ensures |r| == |used|
    ensures forall j :: 0 <= j < |used| ==> r[j] == if at <= j < at + n then v else used[j]
  {
    seq(|used|, j requires 0 <= j < |used| => if at <= j < at + n then v else used[j])
  }

  /** The range of a unit that the block b lists at position p. */
  ghost predicate InPlace(b: Cbl, used: seq<nat>, u: Unit, p: nat) {
    && u.cbl == b && u.pos == p && 0 < u.size && p + NChunks(u.size) <= |used|
    && forall j :: p <= j < p + NChunks(u.size) ==> used[j] == p + 1
  }

  ghost predicate AllocOK(b: Cbl, used: seq<nat>, active: seq<Unit?>, free: int) {
    && |used| == |active|
    && (forall p :: 0 <= p < |active| && active[p] != null ==> InPlace(b, used, active[p], p))
    && (forall j :: 0 <= j < |used| && used[j] != 0 ==>
          used[j] - 1 <= j && active[used[j] - 1] != null && j < used[j] - 1 + NChunks(active[used[j] - 1].size))
    && free == Zeros(used)
  }

  lemma {:induction false} ZerosSplit(used: seq<nat>, m: nat)
    requires m <= |used|
    ensures Zeros(used) == Zeros(used[..m]) + Zeros(used[m..])
    decreases |used|
  {
    if m == |used| {
      assert used[..m] == used && used[m..] == [];
    } else {
      var n := |used| - 1;
      ZerosSplit(used[..n], m);
      assert used[..n][..m] == used[..m] && used[..n][m..] == used[m..][..n - m];
      assert used[m..][n - m] == used[n];
    }
  }

  lemma {:induction false} ZerosConst(used: seq<nat>, v: nat)
    requires forall j :: 0 <= j < |used| ==> used[j] == v
    ensures Zeros(used) == if v == 0 then |used| else 0
  {
    if used != [] {
      ZerosConst(used[..|used| - 1], v);
    }
  }

  /** Marking a uniform range changes the count of zeros by the length of the range, or not at all. */
  lemma ZerosMarked(used: seq<nat>, at: nat, n: nat, v: nat, v': nat)
    requires at + n <= |used| && forall j :: at <= j < at + n ==> used[j] == v
    ensures Zeros(Marked(used, at, n, v'))
         == Zeros(used) + (if v' == 0 then n else 0) - (if v == 0 then n else 0)
  {
    hide Zeros;
    var m := Marked(used, at, n, v');
    ZerosThree(used, at, n);
    ZerosThree(m, at, n);
    assert m[..at] == used[..at] && m[at + n..] == used[at + n..];
    ZerosConst(used[at..at + n], v);
    ZerosConst(m[at..at + n], v');
  }

  lemma ZerosThree(used: seq<nat>, at: nat, n: nat)
    requires at + n <= |used|
    ensures Zeros(used) == Zeros(used[..at]) + Zeros(used[at..at + n]) + Zeros(used[at + n..])
  {
    hide Zeros;
    ZerosSplit(used, at + n);
    ZerosSplit(used[..at + n], at);
    assert used[..at + n][..at] == used[..at] && used[..at + n][at..] == used[at..at + n];
  }

  /** Units of one block never share a chunk. */
  lemma UnitsApart(b: Cbl, used: seq<nat>, active: seq<Unit?>, free: int, p: nat, q: nat)
    requires AllocOK(b, used, active, free) && p < |active| && q < |active| && p != q
    requires active[p] != null && active[q] != null
    ensures p + NChunks(active[p].size) <= q || q + NChunks(active[q].size) <= p
  {
    assert InPlace(b, used, active[p], p) && InPlace(b, used, active[q], q);
    assert used[p] == p + 1 && used[q] == q + 1;
  }

  lemma NChunksPos(size: nat)
    requires 0 < size
    ensures 0 < NChunks(size)
  {
  }

  lemma FirstChunk(b: Cbl, used: seq<nat>, active: seq<Unit?>, free: int, p: nat)
    requires AllocOK(b, used, active, free) && p < |used|
    ensures active[p] != null ==> used[p] == p + 1
  {
    if active[p] != null {
      NChunksPos(active[p].size);
    }
  }

  /** Removing a unit frees exactly its chunks. */
  lemma AllocRemove(b: Cbl, used: seq<nat>, active: seq<Unit?>, free: int, p: nat)
    requires AllocOK(b, used, active, free) && p < |active| && active[p] != null
    ensures InPlace(b, used, active[p], p)
    ensures AllocOK(b, Marked(used, p, NChunks(active[p].size), 0), active[p := null], free + NChunks(active[p].size))
  {
    hide Zeros, NChunks;
    var n := NChunks(active[p].size);
    assert InPlace(b, used, active[p], p);
    ZerosMarked(used, p, n, p + 1, 0);
    var used', active' := Marked(used, p, n, 0), active[p := null];
    forall q | 0 <= q < |active'| && active'[q] != null
      ensures InPlace(b, used', active'[q], q)
    {
      UnitsApart(b, used, active, free, p, q);
      assert InPlace(b, used, active[q], q);
    }
    forall j | 0 <= j < |used'| && used'[j] != 0
      ensures used'[j] - 1 <= j && active'[used'[j] - 1] != null
      ensures j < used'[j] - 1 + NChunks(active'[used'[j] - 1].size)
    {
      assert used[j] == used'[j] && used[j] - 1 != p;
    }
  }

  /** Entering a unit into free chunks. */
  lemma AllocAdd(b: Cbl, used: seq<nat>, active: seq<Unit?>, free: int, u: Unit)
    requires AllocOK(b, used, active, free) && u.cbl == b && 0 < u.size
    requires u.pos + NChunks(u.size) <= |used|
    requires forall j :: u.pos <= j < u.pos + NChunks(u.size) ==> used[j] == 0
    ensures AllocOK(b, Marked(used, u.pos, NChunks(u.size), u.pos + 1), active[u.pos := u], free - NChunks(u.size))
  {
    hide Zeros, NChunks;
    var n := NChunks(u.size);
    NChunksPos(u.size);
    FirstChunk(b, used, active, free, u.pos);
    ZerosMarked(used, u.pos, n, 0, u.pos + 1);
    var used', active' := Marked(used, u.pos, n, u.pos + 1), active[u.pos := u];
    forall q | 0 <= q < |active'| && active'[q] != null
      ensures InPlace(b, used', active'[q], q)
    {
      if q != u.pos {
        assert InPlace(b, used, active[q], q);
        forall j | q <= j < q + NChunks(active[q].size)
          ensures used'[j] == q + 1
        {
          assert used[j] == q + 1;
        }
      }
    }
    forall j | 0 <= j < |used'| && used'[j] != 0
      ensures used'[j] - 1 <= j && active'[used'[j] - 1] != null
      ensures j < used'[j] - 1 + NChunks(active'[used'[j] - 1].size)
    {
    }
  }

  /** The map while a range is being claimed: its first i chunks are marked although no unit is
      entered yet; with those chunks taken as free, the map is in order. */
  ghost predicate Claiming(b: Cbl, used: seq<nat>, active: seq<Unit?>, free: int, found: nat, i: nat) {
    && found + i <= |used|
    && (forall j :: found <= j < found + i ==> used[j] == found + 1)
    && AllocOK(b, Marked(used, found, i, 0), active, free)
  }

  lemma ClaimStart(b: Cbl, used: seq<nat>, active: seq<Unit?>, free: int, found: nat)
    requires AllocOK(b, used, active, free) && found <= |used|
    ensures Claiming(b, used, active, free, found, 0)
  {
    assert Marked(used, found, 0, 0) == used;
  }

  lemma Positions(b: Cbl, used: seq<nat>, active: seq<Unit?>, free: int)
    requires AllocOK(b, used, active, free)
    ensures forall p :: 0 <= p < |active| && active[p] != null ==>
      active[p].cbl == b && active[p].pos == p && 0 < active[p].size && p + NChunks(active[p].size) <= |used|
  {
  }

  lemma ClaimPositions(b: Cbl, used: seq<nat>, active: seq<Unit?>, free: int, found: nat, i: nat)
    requires Claiming(b, used, active, free, found, i)
    ensures forall p :: 0 <= p < |active| && active[p] != null ==> active[p].cbl == b && active[p].pos == p
  {
  }

  /** Evicting the unit that covers the next chunk of the range disturbs no chunk already claimed. */
  lemma ClaimEvict(b: Cbl, used: seq<nat>, active: seq<Unit?>, free: int, found: nat, i: nat)
    requires Claiming(b, used, active, free, found, i) && found + i < |used| && used[found + i] != 0
    ensures var p := used[found + i] - 1;
      && |active| == |used| && p < |active| && active[p] != null && active[p].cbl == b && active[p].pos == p
      && p + NChunks(active[p].size) <= |used|
      && Claiming(b, Marked(used, p, NChunks(active[p].size), 0), active[p := null], free + NChunks(active[p].size),
        found, i)
      && Marked(used, p, NChunks(active[p].size), 0)[found + i] == 0
  {
    var used0 := Marked(used, found, i, 0);
    var p := used[found + i] - 1;
    assert used0[found + i] == used[found + i];
    AllocRemove(b, used0, active, free, p);
    MarkedTwice(used, found, i, p, NChunks(active[p].size));
  }

  lemma MarkedTwice(used: seq<nat>, found: nat, i: nat, p: nat, n: nat)
    requires found + i <= |used| && p + n <= |used|
    requires forall j :: p <= j < p + n ==> Marked(used, found, i, 0)[j] == p + 1
    ensures forall j :: found <= j < found + i ==> Marked(used, p, n, 0)[j] == used[j]
    ensures Marked(Marked(used, p, n, 0), found, i, 0) == Marked(Marked(used, found, i, 0), p, n, 0)
  {
    forall j | found <= j < found + i
      ensures Marked(used, p, n, 0)[j] == used[j]
    {
      assert Marked(used, found, i, 0)[j] == 0;
    }
  }

  /** Marking the next chunk, once it is free. */
  lemma ClaimNext(b: Cbl, used: seq<nat>, active: seq<Unit?>, free: int, found: nat, i: nat)
    requires Claiming(b, used, active, free, found, i) && found + i < |used| && used[found + i] == 0
    ensures Claiming(b, used[found + i := found + 1], active, free, found, i + 1)
  {
    assert Marked(used[found + i := found + 1], found, i + 1, 0) == Marked(used, found, i, 0);
  }

  /** Entering the unit into the range claimed for it. */
  lemma ClaimDone(b: Cbl, used: seq<nat>, active: seq<Unit?>, free: int, u: Unit)
    requires u.cbl == b && 0 < u.size && Claiming(b, used, active, free, u.pos, NChunks(u.size))
    ensures u.pos < |active| && active[u.pos] == null
    ensures AllocOK(b, used, active[u.pos := u], free - NChunks(u.size))
  {
    var used0 := Marked(used, u.pos, NChunks(u.size), 0);
    NChunksPos(u.size);
    FirstChunk(b, used0, active, free, u.pos);
    AllocAdd(b, used0, active, free, u);
    assert Marked(used0, u.pos, NChunks(u.size), u.pos + 1) == used;
  }
}
