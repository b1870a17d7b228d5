/**
  The data area as bytes: a file's bytes are those of its clusters, one after the other. Reading
  or writing a run of neighbouring clusters in one transfer acts on the file as one byte range.
 */
module FatData {
  import opened Machine
  import opened FatEncoding
  import opened FatLinks

  /** Where a cluster begins in the data area. */
  function ClusterAt(c: int, cs: nat): nat {
    if c < MINCL then 0 else Times(c - MINCL, cs)
  }

  /** Every cluster of s lies below maxcl, and the data area holds all those clusters. */
  predicate Holds(data: seq<byte>, cs: nat, maxcl: nat, s: seq<int>) {
    && MINCL <= maxcl && ClusterAt(maxcl, cs) <= |data|
    && forall i :: 0 <= i < |s| ==> MINCL <= s[i] < maxcl
  }

  lemma ClusterInside(data: seq<byte>, cs: nat, maxcl: nat, c: int)
    requires MINCL <= c < maxcl && ClusterAt(maxcl, cs) <= |data|
    ensures ClusterAt(c, cs) + cs <= |data|
  {
    TimesMono(c - MINCL, maxcl - MINCL, cs);
  }

  /** The bytes of one cluster. */
  function ClusterBytes(data: seq<byte>, cs: nat, c: int): (b: seq<byte>)
    ensures |b| == cs
  {
    var at := ClusterAt(c, cs);
    if at + cs <= |data| then data[at..at + cs] else seq(cs, _ => 0)
  }

  /** The bytes of a list of clusters. */
  function Bytes(data: seq<byte>, cs: nat, s: seq<int>): (b: seq<byte>)
    ensures |b| == Times(|s|, cs)
  {
    if |s| == 0 then [] else Bytes(data, cs, s[..|s| - 1]) + ClusterBytes(data, cs, s[|s| - 1])
  }

  lemma {:induction false} ByteAt(data: seq<byte>, cs: nat, maxcl: nat, s: seq<int>, k: nat, o: nat)
    requires Holds(data, cs, maxcl, s) && k < |s| && o < cs
    ensures Times(k, cs) + o < Times(|s|, cs) && ClusterAt(s[k], cs) + o < |data|
    ensures Bytes(data, cs, s)[Times(k, cs) + o] == data[ClusterAt(s[k], cs) + o]
  {
    hide Times, ClusterAt, Bytes, ClusterBytes;
    var n := |s| - 1;
    ClusterInside(data, cs, maxcl, s[k]);
    TimesMono(k, n, cs);
    BytesSplit(data, cs, s);
    var front, last := Bytes(data, cs, s[..n]), ClusterBytes(data, cs, s[n]);
    if k < n {
      ByteAt(data, cs, maxcl, s[..n], k, o);
      assert (front + last)[Times(k, cs) + o] == front[Times(k, cs) + o];
    } else {
      assert (front + last)[|front| + o] == last[o];
      LastByte(data, cs, s[n], o);
    }
  }

  /** The bytes of a list are those of its front, and those of its last cluster. */
  lemma BytesSplit(data: seq<byte>, cs: nat, s: seq<int>)
    requires s != []
    ensures var n := |s| - 1;
      && Bytes(data, cs, s) == Bytes(data, cs, s[..n]) + ClusterBytes(data, cs, s[n])
      && |Bytes(data, cs, s[..n])| == Times(n, cs) && |ClusterBytes(data, cs, s[n])| == cs
      && Times(|s|, cs) == Times(n, cs) + cs
  {
  }

  lemma LastByte(data: seq<byte>, cs: nat, c: int, o: nat)
    requires o < cs && ClusterAt(c, cs) + cs <= |data|
    ensures |ClusterBytes(data, cs, c)| == cs && ClusterBytes(data, cs, c)[o] == data[ClusterAt(c, cs) + o]
  {
  }

  /** Every byte position lies in one cluster of the list. */
  lemma ByteIn(cs: nat, n: nat, j: nat) returns (k: nat, o: nat)
    requires 0 < cs && j < Times(n, cs)
    ensures k < n && o < cs && j == Times(k, cs) + o
  {
    k, o := j / cs, j % cs;
    TimesIs(k, cs);
    if n <= k {
      TimesMono(n, k, cs);
    }
  }

  /** Two splices next to each other are one. */
  lemma SpliceMore(buf: seq<byte>, b: seq<byte>, p: nat, at: nat, n: nat)
    requires p + at + n <= |b| && at + n <= |buf|
    ensures Splice(Splice(buf, 0, b[p..p + at]), at, b[p + at..p + at + n]) == Splice(buf, 0, b[p..p + at + n])
  {
  }

  /** From place k of s on, n clusters follow each other on the medium as well. */
  predicate Neighbours(s: seq<int>, k: nat, n: nat) {
    k + n <= |s| && forall m :: k <= m < k + n ==> s[m] == s[k] + (m - k)
  }

  lemma ClusterPlus(c: int, m: nat, cs: nat)
    requires MINCL <= c
    ensures ClusterAt(c + m, cs) == ClusterAt(c, cs) + Times(m, cs)
  {
    TimesAdd(c - MINCL, m, cs);
    assert c + m - MINCL == c - MINCL + m;
  }

  lemma RunInside(data: seq<byte>, cs: nat, maxcl: nat, s: seq<int>, k: nat, n: nat)
    requires Holds(data, cs, maxcl, s) && 0 < n && Neighbours(s, k, n)
    ensures ClusterAt(s[k], cs) + Times(n, cs) <= |data|
    ensures Times(k, cs) + Times(n, cs) <= Times(|s|, cs)
  {
    ClusterInside(data, cs, maxcl, s[k + n - 1]);
    ClusterPlus(s[k], n - 1, cs);
    TimesAdd(k, n, cs);
    TimesMono(k + n, |s|, cs);
  }

  /** One transfer over neighbouring clusters reads the bytes that the file has there. */
  lemma ReadRun(data: seq<byte>, cs: nat, maxcl: nat, s: seq<int>, k: nat, n: nat, off: nat, len: nat)
    requires Holds(data, cs, maxcl, s) && 0 < cs && 0 < n && Neighbours(s, k, n)
    requires off + len <= Times(n, cs)
    ensures ClusterAt(s[k], cs) + Times(n, cs) <= |data|
    ensures Times(k, cs) + Times(n, cs) <= Times(|s|, cs)
    ensures data[ClusterAt(s[k], cs) + off..ClusterAt(s[k], cs) + off + len]
         == Bytes(data, cs, s)[Times(k, cs) + off..Times(k, cs) + off + len]
  {
    hide Times, Bytes, ClusterBytes, ClusterAt;
    RunInside(data, cs, maxcl, s, k, n);
    var x := data[ClusterAt(s[k], cs) + off..ClusterAt(s[k], cs) + off + len];
    var y := Bytes(data, cs, s)[Times(k, cs) + off..Times(k, cs) + off + len];
    forall i | 0 <= i < len
      ensures x[i] == y[i]
    {
      RunByte(data, cs, maxcl, s, k, n, off + i);
    }
  }

  lemma RunByte(data: seq<byte>, cs: nat, maxcl: nat, s: seq<int>, k: nat, n: nat, j: nat)
    requires Holds(data, cs, maxcl, s) && 0 < cs && 0 < n && Neighbours(s, k, n) && j < Times(n, cs)
    ensures ClusterAt(s[k], cs) + j < |data| && Times(k, cs) + j < Times(|s|, cs)
    ensures data[ClusterAt(s[k], cs) + j] == Bytes(data, cs, s)[Times(k, cs) + j]
  {
    hide Times, Bytes, ClusterBytes, ClusterAt;
    RunInside(data, cs, maxcl, s, k, n);
    var m, o := ByteIn(cs, n, j);
    TimesAdd(k, m, cs);
    ClusterPlus(s[k], m, cs);
    ByteAt(data, cs, maxcl, s, k + m, o);
    assert s[k + m] == s[k] + m;
  }

  /** Clusters outside a run keep their bytes when the run is written. */
  lemma OutsideRun(c: int, first: int, n: nat, cs: nat)
    requires MINCL <= c && MINCL <= first && !(first <= c < first + n)
    ensures ClusterAt(c, cs) + cs <= ClusterAt(first, cs) || ClusterAt(first, cs) + Times(n, cs) <= ClusterAt(c, cs)
  {
    if c < first {
      TimesMono(c - MINCL, first - MINCL, cs);
    } else {
      ClusterPlus(first, n, cs);
      TimesMono(first + n - MINCL, c - MINCL, cs);
    }
  }

  /** One transfer into neighbouring clusters replaces the bytes that the file has there. */
  lemma WriteRun(data: seq<byte>, cs: nat, maxcl: nat, s: seq<int>, k: nat, n: nat, off: nat, x: seq<byte>)
    requires Holds(data, cs, maxcl, s) && NoDup(s) && 0 < cs && 0 < n && Neighbours(s, k, n)
    requires off + |x| <= Times(n, cs)
    ensures ClusterAt(s[k], cs) + Times(n, cs) <= |data|
    ensures Times(k, cs) + Times(n, cs) <= Times(|s|, cs)
    ensures Holds(Splice(data, ClusterAt(s[k], cs) + off, x), cs, maxcl, s)
    ensures Bytes(Splice(data, ClusterAt(s[k], cs) + off, x), cs, s)
         == Splice(Bytes(data, cs, s), Times(k, cs) + off, x)
  {
    hide Times, Bytes, ClusterBytes, ClusterAt;
    RunInside(data, cs, maxcl, s, k, n);
    var data' := Splice(data, ClusterAt(s[k], cs) + off, x);
    var b, b' := Bytes(data, cs, s), Bytes(data', cs, s);
    forall j | 0 <= j < |b|
      ensures b'[j] == Splice(b, Times(k, cs) + off, x)[j]
    {
      var m, o := ByteIn(cs, |s|, j);
      ByteAt(data, cs, maxcl, s, m, o);
      ByteAt(data', cs, maxcl, s, m, o);
      WriteByte(cs, s, k, n, off, |x|, m, o);
    }
  }

  /** Place m * cs + o of the file lies in the written range exactly if its place on the medium does. */
  lemma WriteByte(cs: nat, s: seq<int>, k: nat, n: nat, off: nat, len: nat, m: nat, o: nat)
    requires NoDup(s) && 0 < n && Neighbours(s, k, n) && off + len <= Times(n, cs)
    requires forall i :: 0 <= i < |s| ==> MINCL <= s[i]
    requires m < |s| && o < cs
    ensures Times(k, cs) + off <= Times(m, cs) + o < Times(k, cs) + off + len <==>
      ClusterAt(s[k], cs) + off <= ClusterAt(s[m], cs) + o < ClusterAt(s[k], cs) + off + len
    ensures Times(k, cs) + off <= Times(m, cs) + o < Times(k, cs) + off + len ==>
      Times(m, cs) + o - Times(k, cs) == ClusterAt(s[m], cs) + o - ClusterAt(s[k], cs)
  {
    NotInRun(s, k, n, m);
    var p, q := Times(k, cs), Times(m, cs);
    var p', q' := ClusterAt(s[k], cs), ClusterAt(s[m], cs);
    if k <= m < k + n {
      assert q - p == q' - p' by {
        SamePlace(cs, k, m, s[k], s[m]);
      }
    } else {
      assert q' + cs <= p' || p' + Times(n, cs) <= q' by {
        OutsideRun(s[m], s[k], n, cs);
      }
      assert q + cs <= p || p + Times(n, cs) <= q by {
        PlacesApart(k, n, m, cs);
      }
    }
  }

  lemma SamePlace(cs: nat, k: nat, m: nat, c: int, d: int)
    requires MINCL <= c && k <= m && d - c == m - k
    ensures Times(m, cs) - Times(k, cs) == ClusterAt(d, cs) - ClusterAt(c, cs)
  {
    TimesAdd(k, m - k, cs);
    ClusterPlus(c, m - k, cs);
  }

  lemma PlacesApart(k: nat, n: nat, m: nat, cs: nat)
    requires !(k <= m < k + n)
    ensures Times(m, cs) + cs <= Times(k, cs) || Times(k, cs) + Times(n, cs) <= Times(m, cs)
  {
    if m < k {
      TimesMono(m, k, cs);
    } else {
      TimesAdd(k, n, cs);
      TimesMono(k + n, m, cs);
    }
  }

  lemma NotInRun(s: seq<int>, k: nat, n: nat, m: nat)
    requires NoDup(s) && Neighbours(s, k, n) && 0 < n && m < |s|
    ensures s[k] <= s[m] < s[k] + n ==> k <= m < k + n
  {
    if s[k] <= s[m] < s[k] + n {
      var m' := k + (s[m] - s[k]);
      assert s[m'] == s[m];
    }
  }

  /** Lists that avoid the run keep all their bytes. */
  lemma BytesFrame(data: seq<byte>, cs: nat, maxcl: nat, t: seq<int>, first: int, n: nat, off: nat, x: seq<byte>)
    requires Holds(data, cs, maxcl, t) && MINCL <= first && 0 < n && 0 < cs
    requires off + |x| <= Times(n, cs) && ClusterAt(first, cs) + Times(n, cs) <= |data|
    requires forall i :: 0 <= i < |t| ==> !(first <= t[i] < first + n)
    ensures Bytes(Splice(data, ClusterAt(first, cs) + off, x), cs, t) == Bytes(data, cs, t)
  {
    hide Times, Bytes, ClusterBytes, ClusterAt, Holds, Splice;
    var data' := Splice(data, ClusterAt(first, cs) + off, x);
    HoldsMore(data, data', cs, maxcl, t);
    var b, b' := Bytes(data, cs, t), Bytes(data', cs, t);
    forall j | 0 <= j < |b|
      ensures b'[j] == b[j]
    {
      var m, o := ByteIn(cs, |t|, j);
      ByteAt(data, cs, maxcl, t, m, o);
      ByteAt(data', cs, maxcl, t, m, o);
      OutsideRun(t[m], first, n, cs);
    }
  }

  lemma HoldsMore(data: seq<byte>, data': seq<byte>, cs: nat, maxcl: nat, t: seq<int>)
    requires Holds(data, cs, maxcl, t) && |data'| == |data|
    ensures Holds(data', cs, maxcl, t)
    ensures forall i :: 0 <= i < |t| ==> MINCL <= t[i]
    ensures |Bytes(data, cs, t)| == |Bytes(data', cs, t)| == Times(|t|, cs)
  {
  }

  lemma {:induction false} BytesOfFront(data: seq<byte>, cs: nat, s: seq<int>, n: nat)
    requires n <= |s|
    ensures Bytes(data, cs, s[..n]) <= Bytes(data, cs, s)
    decreases |s|
  {
    if n < |s| {
      BytesOfFront(data, cs, s[..|s| - 1], n);
      assert s[..|s| - 1][..n] == s[..n];
    } else {
      assert s[..n] == s;
    }
  }

  /** A run inside one list meets no cluster of a disjoint list. */
  lemma RunAvoids(s: seq<int>, k: nat, n: nat, t: seq<int>)
    requires Disjoint(s, t) && Neighbours(s, k, n) && 0 < n
    ensures forall i :: 0 <= i < |t| ==> !(s[k] <= t[i] < s[k] + n)
  {
    forall i | 0 <= i < |t|
      ensures !(s[k] <= t[i] < s[k] + n)
    {
      var j := k + (t[i] - s[k]);
      assert 0 <= j < |s| ==> s[j] != t[i];
    }
  }
}
