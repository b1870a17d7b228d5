/**
  Files of a FAT volume: __FIO, fatfs_lseek and __FTRUNCATE. A handle walks its file's chain of
  clusters; the file itself is the sequence of the first flen bytes of that chain.
 */
module FatFile {
  import opened Machine
  import opened FatEncoding
  import opened FatLinks
  import opened FatData
  import opened FatTable

  const SEEK_SET := 0
  const SEEK_CUR := 1
  const SEEK_END := 2

  /** A file as the directory knows it: first cluster (0: none yet) and length in bytes. */
  class Cookie {
    ghost const id: nat
    var stcl: int
    var flen: int

    constructor (ghost id: nat)
      ensures this.id == id && stcl == 0 && flen == 0
    {
      this.id := id;
      stcl, flen := 0, 0;
    }
  }

  /** An open file: the position, and the cluster reached with its number in the chain. */
  class FilePtr {
    const c: Cookie
    var pos: int
    var current: int
    var cl: int
    var error: int

    constructor (c: Cookie)
      ensures this.c == c && pos == 0 && current == c.stcl && cl == 0 && error == 0
    {
      this.c := c;
      pos, current, cl, error := 0, c.stcl, 0, 0;
    }
  }

  class FileSys {
    const d: DevInfo
    const data: array<byte>   // the data area: cluster 2 and all that follow
    const clsizb: nat         // CLUSTSIZE: bytes a cluster
    const rdonly: bool
    ghost const inStep: bool  // whether the FAT copies agreed when the volume was mounted
    ghost const slack: bool   // whether the entry MAXCL of a FAT12 is free: searches may hand it out
    ghost var files: map<nat, seq<int>>

    constructor (d: DevInfo, data: array<byte>, clsizb: nat, rdonly: bool, ghost inStep: bool,
                 ghost files: map<nat, seq<int>>)
      requires d.Valid() && d.secsize <= clsizb && data != d.fat && (inStep ==> d.Mirrored())
      requires ClusterAt(d.maxcl, clsizb) <= data.Length && Forest(d.Top(), Volume(d.Links(), files, d.freecl))
      requires forall g, i :: g in files && 0 <= i < |files[g]| ==> files[g][i] < d.maxcl
      ensures Valid()
      ensures this.d == d && this.data == data && this.clsizb == clsizb && this.rdonly == rdonly
      ensures this.inStep == inStep && this.files == files
      ensures this.slack <==> d.ftype == Fat12 && d.Links()[d.maxcl] == CLFREE
    {
      this.d, this.data, this.clsizb, this.rdonly := d, data, clsizb, rdonly;
      this.inStep, this.files := inStep, files;
      this.slack := d.ftype == Fat12 && d.Links()[d.maxcl] == CLFREE;
    }

    ghost function Vol(): Volume
      requires d.Geometry()
      reads this, d, d.fat
    {
      Volume(d.Links(), files, d.freecl)
    }

    /** The files own disjoint chains inside the data area, the free counter is exact, and FAT
        copies that once agreed still agree. */
    ghost predicate Valid()
      reads this, d, d.fat
    {
      && d.Valid() && 0 < clsizb && d.secsize <= clsizb && data != d.fat && (inStep ==> d.Mirrored())
      && ClusterAt(d.maxcl, clsizb) <= data.Length
      && Forest(d.Top(), Vol()) && (slack <==> d.ftype == Fat12 && d.Links()[d.maxcl] == CLFREE)
      && forall g, i :: g in files && 0 <= i < |files[g]| ==> files[g][i] < d.maxcl
    }

    ghost function Chain(g: nat): seq<int>
      reads this
    {
      if g in files then files[g] else []
    }

    /** Everything the clusters of a file hold, including what lies behind its end. */
    ghost function Stored(g: nat): (b: seq<byte>)
      reads this, data
      ensures |b| == Times(|Chain(g)|, clsizb)
    {
      Bytes(data[..], clsizb, Chain(g))
    }

    ghost predicate FileOK(c: Cookie)
      reads this, c
    {
      && (if c.id in files then |files[c.id]| > 0 && c.stcl == files[c.id][0] else c.stcl == 0)
      && 0 <= c.flen <= Times(|Chain(c.id)|, clsizb)
    }

    /** The file as a sequence of bytes. */
    ghost function Content(c: Cookie): (b: seq<byte>)
      requires FileOK(c)
      reads this, data, c
      ensures |b| == c.flen
    {
      Stored(c.id)[..c.flen]
    }

    /** The handle knows the cl-th cluster of the chain, which does not lie behind the position. */
    ghost predicate HandleOK(f: FilePtr)
      reads this, f, f.c
    {
      && FileOK(f.c) && 0 <= f.cl && 0 <= f.pos && Times(f.cl, clsizb) <= f.pos
      && if f.c.id in files
         then f.cl < |files[f.c.id]| && f.current == files[f.c.id][f.cl]
         else f.cl == 0 && f.current == 0
    }

    /** s is a chain of the volume inside the data area. */
    ghost predicate OnChain(s: seq<int>)
      reads d.fat
    {
      && d.Geometry() && 0 < clsizb && data != d.fat && ClusterAt(d.maxcl, clsizb) <= data.Length
      && IsChain(d.Links(), s) && forall i :: 0 <= i < |s| ==> s[i] < d.maxcl
    }

    /** ... and b is what its clusters hold. */
    ghost predicate OnFile(s: seq<int>, b: seq<byte>)
      reads d.fat, data
    {
      OnChain(s) && b == Bytes(data[..], clsizb, s)
    }

    lemma OnFileHolds(s: seq<int>, b: seq<byte>)
      requires OnFile(s, b)
      ensures OnChain(s) && Holds(data[..], clsizb, d.maxcl, s) && b == Bytes(data[..], clsizb, s)
      ensures 0 < clsizb && data != d.fat && |b| == Times(|s|, clsizb)
    {
    }

    lemma ValidOnFile(g: nat)
      requires Valid() && g in files
      ensures OnFile(files[g], Stored(g))
    {
    }

    // -------------------------------------------------------------- transfers of whole clusters

    /** bio_data_l_read: neighbouring clusters in one transfer; refused outside the data area. */
    method DataLRead(cluster: int, blocks: nat, buf: array<byte>, at: nat) returns (r: int)
      requires 0 < clsizb && MINCL <= d.maxcl && ClusterAt(d.maxcl, clsizb) <= data.Length
      requires buf != data && at + Times(blocks, clsizb) <= buf.Length
      modifies buf
      ensures r == if MINCL <= cluster && cluster + blocks <= d.maxcl then E_OK else EREAD
      ensures r == E_OK ==>
        && ClusterAt(cluster, clsizb) + Times(blocks, clsizb) <= data.Length
        && buf[..] == Splice(old(buf[..]), at,
          data[ClusterAt(cluster, clsizb)..ClusterAt(cluster, clsizb) + Times(blocks, clsizb)])
      ensures r != E_OK ==> buf[..] == old(buf[..])
    {
      if cluster < MINCL || cluster + blocks > d.maxcl {
        return EREAD;
      }
      ClusterPlus(cluster, blocks, clsizb);
      TimesMono(cluster + blocks - MINCL, d.maxcl - MINCL, clsizb);
      var from, len := ClusterAt(cluster, clsizb), Times(blocks, clsizb);
      forall i | 0 <= i < len {
        buf[at + i] := data[from + i];
      }
      return E_OK;
    }

    /** The part of one cluster's unit that the position and the request select. */
    method CopyFromUnit(cluster: int, offset: nat, len: nat, buf: array<byte>, at: nat)
      requires MINCL <= cluster < d.maxcl && ClusterAt(d.maxcl, clsizb) <= data.Length
      requires buf != data && offset + len <= clsizb && at + len <= buf.Length
      modifies buf
      ensures ClusterAt(cluster, clsizb) + offset + len <= data.Length
      ensures buf[..] == Splice(old(buf[..]), at,
        data[ClusterAt(cluster, clsizb) + offset..ClusterAt(cluster, clsizb) + offset + len])
    {
      ClusterInside(data[..], clsizb, d.maxcl, cluster);
      var from := ClusterAt(cluster, clsizb) + offset;
      forall i | 0 <= i < len {
        buf[at + i] := data[from + i];
      }
    }

    // -------------------------------------------------------------- reading

    /** Follow the chain to its temp-th cluster. */
    method WalkRead(f: FilePtr, temp: nat, current0: int, ghost s: seq<int>) returns (current: int)
      requires OnChain(s) && temp < |s| && 0 <= f.cl <= temp && current0 == f.current == s[f.cl]
      modifies f`current, f`cl
      ensures f.cl == temp && current == f.current == s[temp]
    {
      current := current0;
      while temp > f.cl
        invariant 0 <= f.cl <= temp && current == f.current == s[f.cl]
      {
        WalkChain(d.Links(), s, f.cl, 1);
        current := d.GetCl(current, 1);
        f.current := current;
        f.cl := f.cl + 1;
      }
    }

    /** The linear optimisation: as many further clusters as follow each other on the medium. */
    method RunRead(f: FilePtr, todo: nat, ghost s: seq<int>) returns (cls: nat, len: nat)
      requires OnChain(s) && clsizb <= todo && 0 <= f.cl < |s| && f.current == s[f.cl]
      modifies f`current, f`cl
      ensures 0 < cls && len == Times(cls, clsizb) && clsizb <= len <= todo
      ensures f.cl == old(f.cl) + cls - 1 && Neighbours(s, old(f.cl), cls) && f.current == s[f.cl]
    {
      ghost var l := d.Links();
      cls, len := 1, clsizb;
      if todo - len > clsizb {
        var oldcl := f.current;
        var newcl := d.GetCl(oldcl, 1);
        while newcl > 0 && newcl == oldcl + 1
          invariant 0 < cls && len == Times(cls, clsizb) && clsizb <= len < todo - clsizb
          invariant f.cl == old(f.cl) + cls - 1 && Neighbours(s, old(f.cl), cls)
          invariant f.current == s[f.cl] == oldcl && newcl == Walk(l, oldcl, 1)
          decreases todo - len
        {
          WalkChain(l, s, f.cl, 1);
          len := len + clsizb;
          cls := cls + 1;
          f.current := f.current + 1;
          f.cl := f.cl + 1;
          if todo - len > clsizb {
            oldcl := newcl;
            newcl := d.GetCl(oldcl, 1);
          } else {
            break;
          }
        }
      }
    }

    lemma PlaceInChain(temp: nat, offset: nat, cl: nat, n: nat)
      requires 0 < clsizb && offset < clsizb
      requires Times(cl, clsizb) <= Times(temp, clsizb) + offset < Times(n, clsizb)
      ensures cl <= temp < n
    {
      if n <= temp {
        TimesMono(n, temp, clsizb);
      }
      if temp < cl {
        TimesMono(temp, cl, clsizb);
      }
    }

    /** One round of the transfer loop: a run of whole clusters, or a part of one cluster. */
    method ReadPart(f: FilePtr, current0: int, todo: nat, buf: array<byte>, at: nat, ghost s: seq<int>,
                    ghost b: seq<byte>)
      returns (n: nat)
      requires OnFile(s, b) && buf != data && buf != d.fat && 0 < todo && at + todo <= buf.Length
      requires 0 <= f.cl < |s| && current0 == f.current == s[f.cl]
      requires Times(f.cl, clsizb) <= f.pos && f.pos + todo <= Times(|s|, clsizb)
      modifies f`current, f`cl, buf
      ensures 0 < n <= todo
      ensures 0 <= f.cl < |s| && f.current == s[f.cl] && Times(f.cl, clsizb) <= f.pos + n
      ensures buf[..] == Splice(old(buf[..]), at, b[f.pos..f.pos + n])
    {
      hide Bytes, Times, ClusterAt, OnFile, OnChain, Holds;
      OnFileHolds(s, b);
      var temp, offset := DivMod(f.pos, clsizb);
      PlaceInChain(temp, offset, f.cl, |s|);
      var current := WalkRead(f, temp, current0, s);
      if todo >= clsizb && offset == 0 {
        n := ReadClusters(f, current, todo, buf, at, s, b);
      } else {
        n := Min(todo, clsizb - offset);
        ReadWithin(f.current, offset, n, buf, at, s, b, temp);
      }
    }

    method ReadWithin(current: int, offset: nat, n: nat, buf: array<byte>, at: nat, ghost s: seq<int>,
                      ghost b: seq<byte>, ghost k: nat)
      requires 0 < clsizb && Holds(data[..], clsizb, d.maxcl, s) && b == Bytes(data[..], clsizb, s)
      requires buf != data && at + n <= buf.Length && k < |s| && current == s[k] && offset + n <= clsizb
      modifies buf
      ensures Times(k, clsizb) + offset + n <= Times(|s|, clsizb)
      ensures buf[..] == Splice(old(buf[..]), at, b[Times(k, clsizb) + offset..Times(k, clsizb) + offset + n])
    {
      hide Times, Bytes, ClusterBytes, ClusterAt;
      TimesOne(1, clsizb);
      ReadRun(data[..], clsizb, d.maxcl, s, k, 1, offset, n);
      CopyFromUnit(current, offset, n, buf, at);
    }

    method ReadClusters(f: FilePtr, current: int, todo: nat, buf: array<byte>, at: nat, ghost s: seq<int>,
                        ghost b: seq<byte>)
      returns (n: nat)
      requires OnFile(s, b) && buf != data && buf != d.fat && clsizb <= todo && at + todo <= buf.Length
      requires 0 <= f.cl < |s| && current == f.current == s[f.cl]
      modifies f`current, f`cl, buf
      ensures 0 < n <= todo && Times(old(f.cl), clsizb) + n <= Times(|s|, clsizb)
      ensures 0 <= f.cl < |s| && f.current == s[f.cl] && Times(f.cl, clsizb) <= Times(old(f.cl), clsizb) + n
      ensures buf[..] == Splice(old(buf[..]), at, b[Times(old(f.cl), clsizb)..Times(old(f.cl), clsizb) + n])
    {
      hide Times, Bytes, ClusterAt, OnFile, OnChain, Holds;
      OnFileHolds(s, b);
      ghost var k := f.cl;
      var cls;
      cls, n := RunRead(f, todo, s);
      ReadNeighbours(current, cls, n, buf, at, s, b, k);
      TimesMono(f.cl, k + cls, clsizb);
      TimesAdd(k, cls, clsizb);
    }

    method ReadNeighbours(current: int, cls: nat, n: nat, buf: array<byte>, at: nat,
                          ghost s: seq<int>, ghost b: seq<byte>, ghost k: nat)
      requires 0 < clsizb && Holds(data[..], clsizb, d.maxcl, s) && b == Bytes(data[..], clsizb, s)
      requires 0 < cls && n == Times(cls, clsizb) && Neighbours(s, k, cls) && current == s[k]
      requires buf != data && at + n <= buf.Length
      modifies buf
      ensures Times(k, clsizb) + n <= Times(|s|, clsizb)
      ensures buf[..] == Splice(old(buf[..]), at, b[Times(k, clsizb)..Times(k, clsizb) + n])
    {
      hide Times, Bytes, ClusterBytes, ClusterAt;
      ReadRun(data[..], clsizb, d.maxcl, s, k, cls, 0, n);
      assert s[k + cls - 1] < d.maxcl;
      var e := DataLRead(current, cls, buf, at);
    }

    /** __FIO with mode READ: exactly the bytes of the file from the position on, up to its end. */
    method Read(f: FilePtr, buf: array<byte>, bytes0: int) returns (r: int)
      requires Valid() && HandleOK(f) && buf != data && buf != d.fat && bytes0 <= buf.Length
      modifies f, buf
      ensures Valid() && HandleOK(f)
      ensures old(f.error) < 0 ==>
        r == old(f.error) && f.error == 0 && f.pos == old(f.pos) && buf[..] == old(buf[..])
      ensures old(f.error) >= 0 ==>
        && r == Max(0, Min(bytes0, f.c.flen - old(f.pos))) && f.pos == old(f.pos) + r
        && (r > 0 ==> buf[..] == Splice(old(buf[..]), 0, Content(f.c)[old(f.pos)..old(f.pos) + r]))
        && (r == 0 ==> buf[..] == old(buf[..]))
      ensures old(f.error) >= 0 ==> f.error == old(f.error)
    {
      hide Forest, Times, Bytes, IsChain, OnFile, DevInfo.Geometry;
      var current := f.current;
      var temp := f.c.flen - f.pos;
      if f.error < 0 {
        r := f.error;
        f.error := 0;
        return;
      }
      if bytes0 <= 0 || temp <= 0 {
        return 0;
      }
      var bytes := Min(bytes0, temp);
      ValidOnFile(f.c.id);
      ReadAll(f, current, bytes, buf, files[f.c.id], Stored(f.c.id));
      return bytes;
    }

    /** The transfer loop of __FIO with mode READ. */
    method ReadAll(f: FilePtr, current0: int, bytes: nat, buf: array<byte>, ghost s: seq<int>, ghost b: seq<byte>)
      requires OnFile(s, b) && buf != data && buf != d.fat && bytes <= buf.Length
      requires 0 <= f.cl < |s| && current0 == f.current == s[f.cl]
      requires Times(f.cl, clsizb) <= f.pos && f.pos + bytes <= Times(|s|, clsizb)
      modifies f`current, f`cl, f`pos, buf
      ensures f.pos == old(f.pos) + bytes
      ensures 0 <= f.cl < |s| && f.current == s[f.cl] && Times(f.cl, clsizb) <= f.pos
      ensures buf[..] == Splice(old(buf[..]), 0, b[old(f.pos)..f.pos])
    {
      hide *;
      OnFileHolds(s, b);
      var current, todo: int, at: nat := current0, bytes, 0;
      while todo > 0
        invariant 0 <= todo && at + todo == bytes && f.pos == old(f.pos) + at
        invariant 0 <= f.cl < |s| && current == f.current == s[f.cl] && Times(f.cl, clsizb) <= f.pos
        invariant buf[..] == Splice(old(buf[..]), 0, b[old(f.pos)..f.pos])
        decreases todo
      {
        var n := ReadPart(f, current, todo, buf, at, s, b);
        SpliceMore(old(buf[..]), b, old(f.pos), at, n);
        current := f.current;
        at := at + n;
        todo := todo - n;
        f.pos := f.pos + n;
      }
    }

    // -------------------------------------------------------------- writing

    /** Where the search for the next cluster of the file g begins. */
    ghost function Hint(g: nat): int
      reads this, d`lastcl
    {
      if g in files && |files[g]| > 0 then files[g][|files[g]| - 1] else d.lastcl
    }

    /** Clusters that the file g can still get; in the case of slack, before MAXCL is handed out. */
    ghost function Avail(g: nat): nat
      requires d.Geometry()
      reads this, d`lastcl, d.fat
    {
      if !d.ValidCluster(Hint(g)) then 0
      else if slack then FreeCount(d.Links(), Hint(g), d.maxcl)
      else d.Room(d.Links(), Hint(g))
    }

    /** How long the file g can become with them. */
    ghost function Cap(g: nat): nat
      requires d.Geometry()
      reads this, d`lastcl, d.fat
    {
      Times(|Chain(g)| + Avail(g), clsizb)
    }

    /** A file can get every free cluster of the volume, except that on FAT12 the cluster in front of
        its last one is not found when it is the only one, that with another FAT copy than the first
        active only two sectors of the FAT are searched, and that with slack only those up to MAXCL
        come before MAXCL itself. */
    lemma AvailIsFree(g: nat)
      requires Valid()
      ensures d.Geometry() && d.ValidCluster(Hint(g))
      ensures d.ftype == Fat16 || (d.ftype == Fat32 && d.prim == 0) ==>
        Avail(g) == FreeCount(d.Links(), MINCL, d.Top())
      ensures d.ftype == Fat12 && !slack && g in files ==>
        var l, e := d.Links(), Hint(g);
        (Avail(g) == FreeCount(l, MINCL, d.Top()) <==>
           || e == MINCL || l[e - 1] != CLFREE
           || exists c :: MINCL <= c < d.maxcl && c != e - 1 && l[c] == CLFREE)
    {
      hide Forest, Times, Decode, FreeCount, DevInfo.Room, DevInfo.Mirrored;
      HintOK(g);
      d.RoomIsFree(d.Links(), Hint(g));
    }

    /** Where the clusters of a file with slack end, nextcl hands out MAXCL, or nothing from cluster 2. */
    lemma SlackEnds(g: nat, r: int)
      requires Valid() && d.Geometry() && slack && Avail(g) == 0
      requires d.ValidCluster(Hint(g)) && |d.Links()| == d.maxcl + 1 && d.Finds(d.Links(), Hint(g), r)
      ensures r == if Hint(g) == MINCL then EACCES else d.maxcl
    {
      d.FoundBehind(d.Links(), Hint(g), r);
    }

    lemma HintOK(g: nat)
      requires Valid()
      ensures d.Geometry() && d.ValidCluster(Hint(g)) && (g in files ==> d.Links()[Hint(g)] == CLLAST)
      ensures |d.Links()| == d.maxcl + 1 && MINCL <= Hint(g) <= d.maxcl
      ensures Avail(g) == if slack then FreeCount(d.Links(), Hint(g), d.maxcl) else d.Room(d.Links(), Hint(g))
    {
      hide Times, Decode, FreeCount, DevInfo.Room, DevInfo.Mirrored;
    }

    /** nextcl for the file g, at the k-th cluster of its chain or (k < 0) for its first one. */
    method Grow(cluster: int, ghost g: nat, ghost k: int) returns (r: int)
      requires Valid() && -1 <= k < |Chain(g)|
      requires if g !in files then cluster == 0 else k >= 0 && cluster == files[g][k]
      requires d.Geometry() && (slack && k + 1 == |Chain(g)| ==> Avail(g) > 0)
      modifies this`files, d, d.fat
      ensures Valid()
      ensures k + 1 < old(|Chain(g)|) ==>
        r > 0 && r == old(Chain(g))[k + 1] && files == old(files) && Avail(g) == old(Avail(g))
      ensures k + 1 == old(|Chain(g)|) && old(Avail(g)) > 0 ==>
        r > 0 && files == old(files)[g := old(Chain(g)) + [r]] && Avail(g) == old(Avail(g)) - 1
      ensures k + 1 == old(|Chain(g)|) && old(Avail(g)) == 0 ==>
        r < 0 && files == old(files) && Avail(g) == 0
    {
      hide Forest, Times, Decode, FreeCount, Linked, DevInfo.Room, DevInfo.Finds, DevInfo.Reserved, DevInfo.Mirrored;
      ghost var v, l, s, hint := Vol(), d.Links(), Chain(g), Hint(g);
      HintOK(g);
      NextInside(d.Top(), v, g, k, cluster);
      r := d.NextCl(cluster);
      if k + 1 == |s| {
        FindsSign(l, hint, r);
        if r > 0 {
          FindsBelow(l, hint, r);
          GrowStep(d.Top(), v, g, r);
          TakenOnly(l, cluster, r);
          OneLess(l, hint, cluster, r, d.Links());
          files := files[g := s + [r]];
          assert [] + [r] == [r];
        }
      }
    }

    lemma FindsSign(l: Links, hint: int, r: int)
      requires d.Geometry() && d.ValidCluster(hint) && |l| == d.maxcl + 1 && d.Finds(l, hint, r)
      requires slack ==> d.ftype == Fat12 && FreeCount(l, hint, d.maxcl) > 0
      ensures r != 0 && (r > 0 <==> slack || d.Room(l, hint) > 0)
    {
      d.RoomFound(l, hint, r);
      if slack {
        d.FoundBelow(l, hint, r);
      }
    }

    lemma FindsBelow(l: Links, hint: int, r: int)
      requires d.Geometry() && d.ValidCluster(hint) && |l| == d.maxcl + 1 && d.Finds(l, hint, r) && r > 0
      requires slack ==> d.ftype == Fat12 && FreeCount(l, hint, d.maxcl) > 0
      requires d.ftype == Fat12 && !slack ==> l[d.maxcl] != CLFREE
      ensures MINCL <= r < d.maxcl && l[r] == CLFREE
    {
      if slack {
        d.FoundBelow(l, hint, r);
      }
    }

    /** With the cluster r taken there is one less to be had from r on. */
    lemma OneLess(l: Links, hint: int, prev: int, r: int, l': Links)
      requires d.Geometry() && d.ValidCluster(hint) && |l| == d.maxcl + 1 && d.Finds(l, hint, r)
      requires MINCL <= r < d.maxcl && l[r] == CLFREE && (prev == 0 || (Cluster(l, prev) && l[prev] == CLLAST))
      requires l' == Linked(l, prev, r)
      requires slack ==> d.ftype == Fat12 && FreeCount(l, hint, d.maxcl) > 0
      requires d.ftype == Fat12 && !slack ==> l[d.maxcl] != CLFREE
      ensures slack ==> FreeCount(l', r, d.maxcl) == FreeCount(l, hint, d.maxcl) - 1
      ensures !slack ==> d.Room(l', r) == d.Room(l, hint) - 1
      ensures l'[d.maxcl] == CLFREE <==> l[d.maxcl] == CLFREE
    {
      hide DevInfo.Room, DevInfo.Finds;
      TakenOnly(l, prev, r);
      TakenCount(l, prev, r, MINCL, d.Top());
      if slack {
        d.FoundBelow(l, hint, r);
        TakenCount(l, prev, r, r, d.maxcl);
      } else {
        d.RoomStep(l, hint, r, l');
      }
    }

    lemma TakenCount(l: Links, prev: int, r: int, lo: nat, hi: nat)
      requires Cluster(l, r) && l[r] == CLFREE && (prev == 0 || (Cluster(l, prev) && l[prev] == CLLAST))
      requires lo <= r < hi <= |l|
      ensures FreeCount(Linked(l, prev, r), lo, hi) == FreeCount(l, lo, hi) - 1
    {
      FreeCountUpdate(l, r, CLLAST, lo, hi);
      if prev != 0 {
        FreeCountUpdate(l[r := CLLAST], prev, r, lo, hi);
      }
    }

    /** Inside its chain a cluster leads to the next one; at the end of it nextcl begins a search. */
    lemma NextInside(top: nat, v: Volume, g: nat, k: int, cluster: int)
      requires Forest(top, v)
      requires if g in v.files then 0 <= k < |v.files[g]| && cluster == v.files[g][k] else k == -1 && cluster == 0
      ensures g in v.files ==>
        && cluster != 0 && Cluster(v.links, cluster)
        && Next(v.links, cluster) == if k + 1 < |v.files[g]| then v.files[g][k + 1] else CLLAST
      ensures g in v.files && k + 1 < |v.files[g]| ==> v.files[g][k + 1] >= MINCL
    {
      if g in v.files {
        WalkChain(v.links, v.files[g], k, 1);
      }
    }

    /** Linking the cluster r takes it and no other. */
    lemma TakenOnly(l: Links, prev: int, r: int)
      requires Cluster(l, r) && l[r] == CLFREE && (prev == 0 || (Cluster(l, prev) && l[prev] == CLLAST))
      ensures Linked(l, prev, r)[r] != CLFREE
      ensures forall c :: 0 <= c < |l| && c != r ==> (Linked(l, prev, r)[c] == CLFREE <==> l[c] == CLFREE)
    {
    }

    lemma GrowStep(top: nat, v: Volume, g: nat, r: int)
      requires Forest(top, v) && MINCL <= r < top && v.links[r] == CLFREE
      ensures g !in v.files ==>
        Forest(top, Volume(Linked(v.links, 0, r), v.files[g := [r]], Counted(v.free, -1)))
      ensures g in v.files ==>
        var s := v.files[g];
        Forest(top, Volume(Linked(v.links, s[|s| - 1], r), v.files[g := s + [r]], Counted(v.free, -1)))
      ensures g !in v.files ==>
        FreeCount(Linked(v.links, 0, r), MINCL, top) == FreeCount(v.links, MINCL, top) - 1
      ensures g in v.files ==>
        var s := v.files[g];
        FreeCount(Linked(v.links, s[|s| - 1], r), MINCL, top) == FreeCount(v.links, MINCL, top) - 1
    {
      FreeCountUpdate(v.links, r, CLLAST, MINCL, top);
      if g in v.files {
        var s := v.files[g];
        ForestStep(top, v, Extend(g, r));
        ChainInUse(v.links, s);
        FreeCountUpdate(v.links[r := CLLAST], s[|s| - 1], r, MINCL, top);
      } else {
        ForestStep(top, v, Create(g, r));
      }
    }

    /** nextcl for an error number changes nothing and yields another one. */
    method GrowNowhere(cluster: int, ghost g: nat) returns (r: int)
      requires Valid() && d.Geometry() && cluster < 0
      modifies this`files, d, d.fat
      ensures Valid() && r < 0 && files == old(files) && Avail(g) == old(Avail(g))
    {
      hide Forest, Times, Decode, FreeCount, DevInfo.Room;
      r := d.NextCl(cluster);
    }

    /** From files0 to files1 only the chain of g grew, and by as many clusters as free ones went. */
    ghost predicate Grew(files0: map<nat, seq<int>>, free0: nat, files1: map<nat, seq<int>>, free1: nat, g: nat) {
      && g in files0 && g in files1 && files1 == files0[g := files1[g]]
      && files0[g] <= files1[g] && |files1[g]| + free1 == |files0[g]| + free0
    }

    lemma GrewTwice(files0: map<nat, seq<int>>, free0: nat, files1: map<nat, seq<int>>, free1: nat,
                    files2: map<nat, seq<int>>, free2: nat, g: nat)
      requires Grew(files0, free0, files1, free1, g) && Grew(files1, free1, files2, free2, g)
      ensures Grew(files0, free0, files2, free2, g)
    {
    }

    lemma GrewBound(files0: map<nat, seq<int>>, free0: nat, files1: map<nat, seq<int>>, free1: nat, g: nat)
      requires Grew(files0, free0, files1, free1, g)
      ensures g in files0 && g in files1 && files1 == files0[g := files1[g]]
      ensures files0[g] <= files1[g] && |files1[g]| + free1 == |files0[g]| + free0
    {
    }

    lemma GrewNot(files0: map<nat, seq<int>>, free0: nat, g: nat)
      requires g in files0
      ensures Grew(files0, free0, files0, free0, g)
    {
    }

    /** A chain that has grown from n0 to n1 clusters to make room for the bytes in front of `target` has
        none in vain. */
    ghost predicate Snug(n0: nat, n1: nat, target: int) {
      n1 <= n0 || Times(n1 - 1, clsizb) < target
    }

    lemma SnugTwice(n0: nat, n1: nat, n2: nat, target: int)
      requires Snug(n0, n1, target) && Snug(n1, n2, target)
      ensures Snug(n0, n2, target)
    {
      if n0 < n2 <= n1 {
        TimesMono(n2 - 1, n1 - 1, clsizb);
      }
    }

    lemma SnugNot(n: nat, target: int)
      ensures Snug(n, n, target)
    {
    }

    /** Clusters up to the k-th one, where the bytes do not end in front of it. */
    lemma SnugUpTo(n0: nat, n1: nat, k: nat, target: int)
      requires n1 <= Max(n0, k + 1) && Times(k, clsizb) < target
      ensures Snug(n0, n1, target)
    {
      if n0 < n1 {
        TimesMono(n1 - 1, k, clsizb);
      }
    }

    twostate predicate Grown(g: nat)
      requires d.Geometry()
      reads this, d, d.fat
    {
      Grew(old(files), old(Avail(g)), files, Avail(g), g)
    }

    /** The handle knows the cl-th cluster of its file. */
    ghost predicate Knows(f: FilePtr)
      reads this, f
    {
      f.c.id in files && 0 <= f.cl < |files[f.c.id]| && f.current == files[f.c.id][f.cl]
    }

    /** The chain cannot be followed further: the handle stays at its end, no cluster is free. */
    ghost predicate Stuck(f: FilePtr, current: int)
      requires d.Geometry()
      reads this, f, d, d.fat
    {
      Knows(f) && current < 0 && f.cl == |files[f.c.id]| - 1 && Avail(f.c.id) == 0
    }

    /** nextcl behind the handle's cluster. */
    method GrowAt(f: FilePtr) returns (r: int)
      requires d.Geometry() && Valid() && Knows(f)
      requires slack ==> f.cl + 1 < |files[f.c.id]| + Avail(f.c.id)
      modifies this`files, d, d.fat
      ensures Valid() && Knows(f) && Grown(f.c.id) && |files[f.c.id]| <= Max(|old(files[f.c.id])|, f.cl + 2)
      ensures if f.cl + 1 < |files[f.c.id]| then r > 0 && r == files[f.c.id][f.cl + 1] else Stuck(f, r)
    {
      hide Valid, Avail, Times, DevInfo.Geometry;
      r := Grow(f.current, f.c.id, f.cl);
    }

    /** Follow the chain to its temp-th cluster, linking new ones behind its end. */
    method WalkWrite(f: FilePtr, temp: nat, current0: int) returns (current: int)
      requires d.Geometry() && Valid() && Knows(f) && f.cl <= temp && current0 == f.current
      requires slack ==> temp < |files[f.c.id]| + Avail(f.c.id)
      modifies f`current, f`cl, f`error, this`files, d, d.fat
      ensures Valid() && Knows(f) && Grown(f.c.id) && |files[f.c.id]| <= Max(|old(files[f.c.id])|, temp + 1)
      ensures if temp < old(|files[f.c.id]| + Avail(f.c.id))
        then f.cl == temp && current == f.current
        else Stuck(f, current) && f.cl < temp
    {
      hide Valid, Avail, Times, DevInfo.Geometry;
      current := current0;
      while temp > f.cl
        invariant Valid() && Knows(f) && Grown(f.c.id) && f.cl <= temp && current == f.current
        invariant |files[f.c.id]| <= Max(|old(files[f.c.id])|, temp + 1)
        decreases temp - f.cl
      {
        current := GrowAt(f);
        if current <= 0 {
          f.error := current;
          break;
        }
        f.current := current;
        f.cl := f.cl + 1;
      }
    }

    /** While more than one cluster is to be written behind cls clusters, the next one is within reach. */
    lemma RunRoom(cl: nat, cls: nat, todo: nat, total: nat)
      requires Times(cls, clsizb) + clsizb < todo
      ensures Times(cl, clsizb) + todo <= Times(total, clsizb) ==> cl + cls < total
    {
      if total <= cl + cls {
        TimesMono(total, cl + cls, clsizb);
        TimesAdd(cl, cls, clsizb);
      }
    }

    /** The same behind a run of cls clusters from the cl0-th one on, after other growth. */
    method GrowOn(f: FilePtr, ghost files0: map<nat, seq<int>>, ghost free0: nat, ghost cl0: nat, ghost cls: nat,
                  ghost todo: nat) returns (r: int)
      requires d.Geometry() && Valid() && Knows(f) && Grew(files0, free0, files, Avail(f.c.id), f.c.id)
      requires 0 < cls && f.cl == cl0 + cls - 1 && Neighbours(files[f.c.id], cl0, cls)
      requires slack ==> cl0 + cls < |files[f.c.id]| + Avail(f.c.id)
      requires Times(cls, clsizb) < todo && Frugal(files0, f.c.id, cl0, todo)
      modifies this`files, d, d.fat
      ensures Valid() && Knows(f) && Grew(files0, free0, files, Avail(f.c.id), f.c.id)
      ensures Neighbours(files[f.c.id], cl0, cls) && Frugal(files0, f.c.id, cl0, todo)
      ensures r > 0 ==> f.cl + 1 < |files[f.c.id]| && r == files[f.c.id][f.cl + 1]
    {
      hide Valid, Avail, Times, DevInfo.Geometry, Snug;
      r := GrowAt(f);
      FrugalMore(files0, f.c.id, |old(files[f.c.id])|, cl0, cls, todo);
    }

    /** The chain of g has grown since files0 for nothing but the bytes that begin with its cl-th cluster. */
    ghost predicate Frugal(files0: map<nat, seq<int>>, g: nat, cl: nat, todo: nat)
      reads this`files
    {
      g in files0 && g in files && Snug(|files0[g]|, |files[g]|, Times(cl, clsizb) + todo)
    }

    lemma FrugalNot(g: nat, cl: nat, todo: nat)
      requires g in files
      ensures Frugal(files, g, cl, todo)
    {
    }

    lemma FrugalMore(files0: map<nat, seq<int>>, g: nat, n1: nat, cl: nat, cls: nat, todo: nat)
      requires g in files0 && g in files && Snug(|files0[g]|, n1, Times(cl, clsizb) + todo)
      requires |files[g]| <= Max(n1, cl + cls + 1) && Times(cls, clsizb) < todo
      ensures Frugal(files0, g, cl, todo)
    {
      hide Times, Snug;
      TimesAdd(cl, cls, clsizb);
      SnugUpTo(n1, |files[g]|, cl + cls, Times(cl, clsizb) + todo);
      SnugTwice(|files0[g]|, n1, |files[g]|, Times(cl, clsizb) + todo);
    }

    /** As many further clusters as follow each other; what lies behind the run is linked as well. */
    method RunWrite(f: FilePtr, todo: nat) returns (cls: nat, len: nat)
      requires d.Geometry() && Valid() && Knows(f) && 0 < clsizb <= todo
      requires slack ==> Times(f.cl, clsizb) + todo <= Cap(f.c.id)
      modifies f`current, f`cl, this`files, d, d.fat
      ensures Valid() && Knows(f) && Grown(f.c.id)
      ensures Frugal(old(files), f.c.id, old(f.cl), todo)
      ensures 0 < cls && len == Times(cls, clsizb) && clsizb <= len <= todo
      ensures f.cl == old(f.cl) + cls - 1 && Neighbours(files[f.c.id], old(f.cl), cls)
    {
      hide Valid, Avail, Times, DevInfo.Geometry, Grew, Snug, Frugal;
      ghost var g := f.c.id;
      ghost var total := |files[g]| + Avail(g);
      GrewNot(files, Avail(g), g);
      FrugalNot(g, f.cl, todo);
      TimesOne(1, clsizb);
      cls, len := 1, clsizb;
      if todo - len > clsizb {
        RunRoom(f.cl, cls, todo, total);
        var newcl := GrowOn(f, files, Avail(g), f.cl, cls, todo);
        while newcl > 0 && newcl == f.current + 1
          invariant Valid() && Knows(f) && Grown(f.c.id)
          invariant Frugal(old(files), g, old(f.cl), todo)
          invariant 0 < cls && len == Times(cls, clsizb) && clsizb <= len < todo - clsizb
          invariant f.cl == old(f.cl) + cls - 1 && Neighbours(files[f.c.id], old(f.cl), cls)
          invariant newcl > 0 ==> f.cl + 1 < |files[f.c.id]| && newcl == files[f.c.id][f.cl + 1]
          decreases todo - len
        {
          TimesStep(cls, clsizb);
          len := len + clsizb;
          cls := cls + 1;
          f.current := f.current + 1;
          f.cl := f.cl + 1;
          if todo - len > clsizb {
            RunRoom(old(f.cl), cls, todo, total);
            GrewBound(old(files), old(Avail(g)), files, Avail(g), g);
            newcl := GrowOn(f, old(files), old(Avail(g)), old(f.cl), cls, todo);
          } else {
            break;
          }
        }
      }
    }

    /** bio_data_l_write: neighbouring clusters in one transfer; refused outside the data area. */
    method DataLWrite(cluster: int, blocks: nat, buf: array<byte>, at: nat) returns (r: int)
      requires 0 < clsizb && MINCL <= d.maxcl && ClusterAt(d.maxcl, clsizb) <= data.Length
      requires buf != data && at + Times(blocks, clsizb) <= buf.Length
      modifies data
      ensures r == if MINCL <= cluster && cluster + blocks <= d.maxcl then E_OK else EWRITE
      ensures r == E_OK ==>
        && ClusterAt(cluster, clsizb) + Times(blocks, clsizb) <= data.Length
        && data[..] == Splice(old(data[..]), ClusterAt(cluster, clsizb), buf[at..at + Times(blocks, clsizb)])
      ensures r != E_OK ==> data[..] == old(data[..])
    {
      if cluster < MINCL || cluster + blocks > d.maxcl {
        return EWRITE;
      }
      ClusterPlus(cluster, blocks, clsizb);
      TimesMono(cluster + blocks - MINCL, d.maxcl - MINCL, clsizb);
      var to, len := ClusterAt(cluster, clsizb), Times(blocks, clsizb);
      forall i | 0 <= i < len {
        data[to + i] := buf[at + i];
      }
      return E_OK;
    }

    method CopyToUnit(cluster: int, offset: nat, len: nat, buf: array<byte>, at: nat)
      requires MINCL <= cluster < d.maxcl && ClusterAt(d.maxcl, clsizb) <= data.Length
      requires buf != data && offset + len <= clsizb && at + len <= buf.Length
      modifies data
      ensures ClusterAt(cluster, clsizb) + offset + len <= data.Length
      ensures data[..] == Splice(old(data[..]), ClusterAt(cluster, clsizb) + offset, buf[at..at + len])
    {
      ClusterInside(data[..], clsizb, d.maxcl, cluster);
      var to := ClusterAt(cluster, clsizb) + offset;
      forall i | 0 <= i < len {
        data[to + i] := buf[at + i];
      }
    }

    /** Writing into a run of clusters of g acts on the bytes of g and on those of no other file. */
    lemma WriteEffect(b: seq<byte>, g: nat, k: nat, cls: nat, off: nat, x: seq<byte>)
      requires Apart(g) && |b| == data.Length && Neighbours(files[g], k, cls) && 0 < cls
      requires off + |x| <= Times(cls, clsizb)
      ensures ClusterAt(files[g][k], clsizb) + Times(cls, clsizb) <= |b|
      ensures Times(k, clsizb) + Times(cls, clsizb) <= Times(|files[g]|, clsizb)
      ensures var b' := Splice(b, ClusterAt(files[g][k], clsizb) + off, x);
        && Bytes(b', clsizb, files[g]) == Splice(Bytes(b, clsizb, files[g]), Times(k, clsizb) + off, x)
        && forall h :: h in files && h != g ==> Bytes(b', clsizb, files[h]) == Bytes(b, clsizb, files[h])
    {
      hide Times, Bytes, ClusterBytes, ClusterAt, Disjoint, NoDup;
      var s := files[g];
      assert Holds(b, clsizb, d.maxcl, s);
      WriteRun(b, clsizb, d.maxcl, s, k, cls, off, x);
      forall h | h in files && h != g
        ensures Bytes(Splice(b, ClusterAt(s[k], clsizb) + off, x), clsizb, files[h]) == Bytes(b, clsizb, files[h])
      {
        RunAvoids(s, k, cls, files[h]);
        assert Holds(b, clsizb, d.maxcl, files[h]);
        BytesFrame(b, clsizb, d.maxcl, files[h], s[k], cls, off, x);
      }
    }

    /** What writing to the file g needs of Valid(): its clusters are its own and on the medium. */
    ghost predicate Apart(g: nat)
      reads this
    {
      && g in files && 0 < clsizb && NoDup(files[g])
      && MINCL <= d.maxcl && ClusterAt(d.maxcl, clsizb) <= data.Length
      && (forall h, i :: h in files && 0 <= i < |files[h]| ==> MINCL <= files[h][i] < d.maxcl)
      && forall h :: h in files && h != g ==> Disjoint(files[g], files[h])
    }

    lemma ValidApart(g: nat)
      requires Valid() && g in files
      ensures Apart(g)
    {
      ChainAcyclic(d.Links(), files[g]);
    }

    lemma StoreInside(g: nat, k: nat, cls: nat)
      requires Apart(g) && 0 < cls && Neighbours(files[g], k, cls)
      ensures k < |files[g]| && MINCL <= files[g][k] && files[g][k] + cls <= d.maxcl
    {
      hide Disjoint, NoDup, ClusterAt;
      assert files[g][k + cls - 1] == files[g][k] + (cls - 1);
    }

    /** A run of clusters of the file g is written in one transfer. */
    method StoreRun(cluster: int, cls: nat, n: nat, buf: array<byte>, at: nat, ghost g: nat, ghost k: nat)
      returns (r: int)
      requires Apart(g) && 0 < cls && Neighbours(files[g], k, cls)
      requires n == Times(cls, clsizb) && buf != data && at + n <= buf.Length
      requires cluster == files[g][k] || cluster < 0
      modifies data
      ensures r == if cluster < 0 then EWRITE else E_OK
      ensures Times(k, clsizb) + n <= |old(Stored(g))|
      ensures Stored(g) ==
        if cluster < 0 then old(Stored(g)) else Splice(old(Stored(g)), Times(k, clsizb), buf[at..at + n])
      ensures forall h :: h in files && h != g ==> Stored(h) == old(Stored(h))
    {
      hide Times, Bytes, ClusterBytes, ClusterAt, Disjoint, NoDup, Splice, Neighbours;
      StoreInside(g, k, cls);
      WriteEffect(data[..], g, k, cls, 0, buf[at..at + n]);
      r := DataLWrite(cluster, cls, buf, at);
    }

    /** A part of one cluster of the file g is written through its unit. */
    method StoreWithin(cluster: int, offset: nat, n: nat, buf: array<byte>, at: nat, ghost g: nat, ghost k: nat)
      requires Apart(g) && k < |files[g]| && cluster == files[g][k]
      requires offset + n <= clsizb && buf != data && at + n <= buf.Length
      modifies data
      ensures Times(k, clsizb) + offset + n <= |old(Stored(g))|
      ensures Stored(g) == Splice(old(Stored(g)), Times(k, clsizb) + offset, buf[at..at + n])
      ensures forall h :: h in files && h != g ==> Stored(h) == old(Stored(h))
    {
      hide Times, Bytes, ClusterBytes, ClusterAt, Disjoint, NoDup;
      TimesOne(1, clsizb);
      WriteEffect(data[..], g, k, 1, offset, buf[at..at + n]);
      CopyToUnit(cluster, offset, n, buf, at);
    }

    lemma ApartFacts(g: nat)
      requires Valid() && g in files
      ensures Apart(g) && data != d.fat && 0 < clsizb
      ensures forall i :: 0 <= i < |files[g]| ==> 0 < files[g][i]
    {
      ValidApart(g);
    }

    /** b' is b with the bytes x put at pos; where b had none, other bytes may have appeared. */
    ghost predicate Overlaid(b: seq<byte>, b': seq<byte>, pos: nat, x: seq<byte>) {
      && |b| <= |b'| && (|x| > 0 ==> pos + |x| <= |b'|)
      && (forall j :: pos <= j < pos + |x| ==> b'[j] == x[j - pos])
      && forall j :: 0 <= j < |b| && !(pos <= j < pos + |x|) ==> b'[j] == b[j]
    }

    lemma OverlaidOnMore(b: seq<byte>, b1: seq<byte>, b2: seq<byte>, pos: nat, x: seq<byte>)
      requires b <= b1 && Overlaid(b1, b2, pos, x)
      ensures Overlaid(b, b2, pos, x)
    {
    }

    lemma OverlaidTwice(b: seq<byte>, b1: seq<byte>, b2: seq<byte>, pos: nat, buf: seq<byte>, at: nat, n: nat)
      requires at + n <= |buf| && Overlaid(b, b1, pos, buf[..at]) && Overlaid(b1, b2, pos + at, buf[at..at + n])
      ensures Overlaid(b, b2, pos, buf[..at + n])
    {
    }

    lemma OverlaidNot(b: seq<byte>, b1: seq<byte>, pos: nat)
      requires b <= b1
      ensures Overlaid(b, b1, pos, [])
    {
    }

    /** What is stored in all files while the chain of g may have grown. */
    twostate predicate DataKept(g: nat)
      reads this, data
    {
      && g in old(files) && g in files && old(Stored(g)) <= Stored(g)
      && forall h :: h in old(files) && h != g ==> h in files && Stored(h) == old(Stored(h))
    }

    twostate lemma GrownKeeps(g: nat)
      requires old(Valid()) && Valid() && Grown(g) && data[..] == old(data[..])
      ensures DataKept(g)
    {
      hide Valid, Times, ClusterBytes, Avail;
      BytesOfFront(data[..], clsizb, files[g], old(|files[g]|));
      assert files[g][..old(|files[g]|)] == old(files[g]);
    }

    /** The inner loop of __FIO: to the temp-th cluster, or as far as it goes. */
    method WalkTo(f: FilePtr, temp: nat, current0: int) returns (current: int)
      requires d.Geometry() && Valid() && Knows(f) && f.cl <= temp
      requires current0 == f.current || (Stuck(f, current0) && f.cl < temp)
      requires slack ==> current0 == f.current && temp < |files[f.c.id]| + Avail(f.c.id)
      modifies f`current, f`cl, f`error, this`files, d, d.fat
      ensures Valid() && Knows(f) && Grown(f.c.id) && DataKept(f.c.id)
      ensures |files[f.c.id]| <= Max(|old(files[f.c.id])|, temp + 1)
      ensures if current0 == old(f.current) && temp < old(|files[f.c.id]| + Avail(f.c.id))
        then f.cl == temp && current == f.current
        else Stuck(f, current) && f.cl < temp
    {
      hide Valid, Avail, Times, DevInfo.Geometry, Stored;
      ApartFacts(f.c.id);
      if current0 < 0 {
        current := GrowNowhere(current0, f.c.id);
        f.error := current;
      } else {
        current := WalkWrite(f, temp, current0);
      }
      GrownKeeps(f.c.id);
    }

    /** The whole clusters of one round; without a cluster to start from the transfer is refused. */
    method WriteClusters(f: FilePtr, current0: int, todo: nat, buf: array<byte>, at: nat)
      returns (n: nat, current: int)
      requires d.Geometry() && Valid() && Knows(f) && clsizb <= todo
      requires buf != data && buf != d.fat && at + todo <= buf.Length
      requires current0 == f.current || Stuck(f, current0)
      requires slack ==> Times(f.cl, clsizb) + todo <= Cap(f.c.id)
      modifies f`current, f`cl, f`error, this`files, d, d.fat, data
      ensures Valid() && Knows(f) && Grown(f.c.id)
      ensures Snug(|old(files[f.c.id])|, |files[f.c.id]|, Times(old(f.cl), clsizb) + todo)
      ensures forall h :: h in old(files) && h != f.c.id ==> Stored(h) == old(Stored(h))
      ensures current0 == old(f.current) && current0 > 0 ==>
        && f.error == 0 && clsizb <= n <= todo && current == f.current
        && Times(f.cl, clsizb) <= Times(old(f.cl), clsizb) + n <= Times(|files[f.c.id]|, clsizb)
        && Overlaid(old(Stored(f.c.id)), Stored(f.c.id), Times(old(f.cl), clsizb), buf[at..at + n])
      ensures current0 < 0 ==>
        && f.error != 0 && n == 0 && current == current0 && Stuck(f, current)
        && f.cl == old(f.cl) && files == old(files) && Stored(f.c.id) == old(Stored(f.c.id))
    {
      hide Valid, Avail, Times, DevInfo.Geometry, Bytes, Apart, Splice, ClusterBytes, Grew, Overlaid, Stored, Cap, Snug;
      ghost var g, k := f.c.id, f.cl;
      ApartFacts(g);
      var cls, len := RunWrite(f, todo);
      GrownKeeps(g);
      GrewBound(old(files), old(Avail(g)), files, Avail(g), g);
      ghost var m := Stored(g);
      if current0 < 0 {
        assert files[g] == old(files[g]) && files == old(files);
      }
      ApartFacts(g);
      f.error := StoreRun(current0, cls, len, buf, at, g, k);
      StoredSize(g);
      if f.error != 0 {
        return 0, current0;
      }
      RunStored(old(Stored(g)), m, k, cls, f.cl, |files[g]|, buf[at..at + len]);
      return len, f.current;
    }

    /** A run of cls clusters stored over the bytes m of total clusters. */
    lemma RunStored(b: seq<byte>, m: seq<byte>, k: nat, cls: nat, cl: nat, total: nat, x: seq<byte>)
      requires b <= m && |m| == Times(total, clsizb) && |x| == Times(cls, clsizb)
      requires Times(k, clsizb) + |x| <= |m| && cl <= k + cls
      ensures Overlaid(b, Splice(m, Times(k, clsizb), x), Times(k, clsizb), x)
      ensures Times(cl, clsizb) <= Times(k, clsizb) + |x|
    {
      hide Times, Splice, Overlaid;
      SpliceOverlaid(m, Times(k, clsizb), x);
      OverlaidOnMore(b, m, Splice(m, Times(k, clsizb), x), Times(k, clsizb), x);
      TimesMono(cl, k + cls, clsizb);
      TimesAdd(k, cls, clsizb);
    }

    /** A part of the last cluster walked to is written through its unit, wherever the position is. */
    method WriteWithin(f: FilePtr, todo: nat, offset: nat, buf: array<byte>, at: nat) returns (n: nat)
      requires d.Geometry() && Valid() && Knows(f) && offset < clsizb && 0 < todo
      requires buf != data && buf != d.fat && at + todo <= buf.Length
      modifies data
      ensures Valid() && n == Min(todo, clsizb - offset)
      ensures forall h :: h in files && h != f.c.id ==> Stored(h) == old(Stored(h))
      ensures Times(f.cl, clsizb) + offset + n <= Times(|files[f.c.id]|, clsizb) == |old(Stored(f.c.id))|
      ensures Stored(f.c.id) == Splice(old(Stored(f.c.id)), Times(f.cl, clsizb) + offset, buf[at..at + n])
    {
      hide Valid, Avail, Times, DevInfo.Geometry, Bytes, Apart, Splice;
      ApartFacts(f.c.id);
      n := Min(todo, clsizb - offset);
      StoreWithin(f.current, offset, n, buf, at, f.c.id, f.cl);
    }

    lemma SpliceOverlaid(b: seq<byte>, at: nat, x: seq<byte>)
      requires at + |x| <= |b|
      ensures Overlaid(b, Splice(b, at, x), at, x)
    {
    }

    /** The transfer of a round, once the chain was followed to the temp-th cluster or to its end. */
    method WriteHere(f: FilePtr, current0: int, ghost temp: nat, offset: nat, todo: nat, buf: array<byte>, at: nat)
      returns (n: nat, current: int, ok: bool)
      requires d.Geometry() && Knows(f) && 0 < todo && offset < clsizb
      requires buf != data && buf != d.fat && at + todo <= buf.Length && f.pos == Times(temp, clsizb) + offset
      requires if current0 > 0 then current0 == f.current && f.cl == temp
        else Stuck(f, current0) && Times(|files[f.c.id]|, clsizb) <= f.pos
      requires Valid()
      requires slack ==> current0 > 0 && f.pos + todo <= Cap(f.c.id)
      modifies f`current, f`cl, f`error, this`files, d, d.fat, data
      ensures Knows(f) && Grown(f.c.id) && Snug(|old(files[f.c.id])|, |files[f.c.id]|, f.pos + todo)
      ensures forall h :: h in old(files) && h != f.c.id ==> Stored(h) == old(Stored(h))
      ensures current0 > 0 ==>
        && ok && 0 < n <= todo && current == f.current
        && Times(f.cl, clsizb) <= f.pos + n <= Times(|files[f.c.id]|, clsizb)
        && Overlaid(old(Stored(f.c.id)), Stored(f.c.id), f.pos, buf[at..at + n])
      ensures current0 <= 0 ==>
        && Stuck(f, current) && files == old(files) && f.cl == old(f.cl)
        && TakenInto(old(Stored(f.c.id)), Stored(f.c.id), f.pos, buf[at..at + todo], ok, n)
      ensures Valid()
    {
      hide Valid, Avail, Times, DevInfo.Geometry, Bytes, Apart, Stored, Overlaid, Grew;
      hide ClusterBytes, ClusterAt, Splice, TakenInto, Snug;
      ghost var g, m := f.c.id, Stored(f.c.id);
      ApartFacts(g);
      SnugNot(|files[g]|, f.pos + todo);
      if todo >= clsizb && offset == 0 {
        n, current := WriteClusters(f, current0, todo, buf, at);
        ok := f.error == 0;
      } else {
        ok, current := true, current0;
        n := WriteWithin(f, todo, offset, buf, at);
        GrewNot(files, Avail(g), g);
        SpliceOverlaid(m, Times(f.cl, clsizb) + offset, buf[at..at + n]);
      }
      if current0 <= 0 {
        LastAt(|files[g]|);
        StoredSize(g);
        TakenIs(m, Stored(g), temp, offset, f.pos, buf[..], at, todo, ok, n);
      }
    }

    /** One round of the transfer loop: a run of whole clusters, or a part of one cluster. When the
        chain could not be followed, only the inner loop was left: a request for whole clusters is
        refused, but a part of a cluster goes into the last cluster reached. The bytes stored before
        that are m. */
    method WritePart(f: FilePtr, current0: int, todo: nat, buf: array<byte>, at: nat)
      returns (n: nat, current: int, ok: bool, ghost m: seq<byte>)
      requires d.Geometry() && Valid() && Knows(f) && 0 < todo && Times(f.cl, clsizb) <= f.pos
      requires buf != data && buf != d.fat && at + todo <= buf.Length
      requires current0 == f.current || (Stuck(f, current0) && Times(|files[f.c.id]|, clsizb) <= f.pos)
      requires slack ==> current0 == f.current && f.pos + todo <= Cap(f.c.id)
      modifies f`current, f`cl, f`error, this`files, d, d.fat, data
      ensures Valid() && Knows(f) && Grown(f.c.id) && Times(f.cl, clsizb) <= f.pos + n
      ensures Snug(|old(files[f.c.id])|, |files[f.c.id]|, f.pos + todo)
      ensures forall h :: h in old(files) && h != f.c.id ==> Stored(h) == old(Stored(h))
      ensures current0 == old(f.current) && f.pos < Times(old(|files[f.c.id]| + Avail(f.c.id)), clsizb) ==>
        && ok && 0 < n <= todo && current == f.current
        && f.pos + n <= Times(|files[f.c.id]|, clsizb)
        && Overlaid(old(Stored(f.c.id)), Stored(f.c.id), f.pos, buf[at..at + n])
      ensures current0 != old(f.current) || f.pos >= Times(old(|files[f.c.id]| + Avail(f.c.id)), clsizb) ==>
        && Stuck(f, current) && Times(|files[f.c.id]|, clsizb) <= f.pos
        && old(Stored(f.c.id)) <= m && 0 < clsizb && TakenInto(m, Stored(f.c.id), f.pos, buf[at..at + todo], ok, n)
        && (current0 != old(f.current) ==> m == old(Stored(f.c.id)))
    {
      hide Valid, Avail, Times, DevInfo.Geometry, Bytes, Apart, Stored, Overlaid, Grew;
      hide ClusterBytes, ClusterAt, Splice, TakenInto, Snug;
      ghost var g := f.c.id;
      ApartFacts(g);
      var temp, offset := DivMod(f.pos, clsizb);
      WalkBounds(temp, offset, f.cl, |files[g]|, |files[g]| + Avail(g));
      current := WalkTo(f, temp, current0);
      GrewBound(old(files), old(Avail(g)), files, Avail(g), g);
      ApartFacts(g);
      WalkBounds(temp, offset, f.cl, |files[g]|, |files[g]|);
      m := Stored(g);
      SnugUpTo(|old(files[g])|, |files[g]|, temp, f.pos + todo);
      ghost var files1, free1, good := files, Avail(g), current > 0;
      n, current, ok := WriteHere(f, current, temp, offset, todo, buf, at);
      SnugTwice(|old(files[g])|, |files1[g]|, |files[g]|, f.pos + todo);
      GrewTwice(old(files), old(Avail(g)), files1, free1, files, Avail(g), g);
      if good {
        OverlaidOnMore(old(Stored(g)), m, Stored(g), f.pos, buf[at..at + n]);
      }
    }

    /** Where the last of n clusters begins. */
    lemma LastAt(n: nat)
      requires 0 < n
      ensures Times(n - 1, clsizb) + clsizb == Times(n, clsizb)
    {
    }

    /** What a round does without a cluster for the position p: it takes n of the bytes x over the
        last cluster of b, or refuses whole clusters. */
    ghost predicate TakenInto(b: seq<byte>, b1: seq<byte>, p: nat, x: seq<byte>, ok: bool, n: nat)
      requires 0 < clsizb
    {
      if |x| >= clsizb && p % clsizb == 0 then !ok && n == 0 && b1 == b
      else
        && ok && 0 < n == Min(|x|, clsizb - p % clsizb) && clsizb <= |b|
        && b1 == Splice(b, |b| - clsizb + p % clsizb, x[..n])
    }

    lemma TakenIs(b: seq<byte>, b1: seq<byte>, q: nat, offset: nat, p: nat, buf: seq<byte>, at: nat, todo: nat,
                  ok: bool, n: nat)
      requires 0 < clsizb && p == Times(q, clsizb) + offset && offset < clsizb <= |b| && 0 < todo && at + todo <= |buf|
      requires if todo >= clsizb && offset == 0 then !ok && n == 0 && b1 == b
        else ok && n == Min(todo, clsizb - offset) && b1 == Splice(b, |b| - clsizb + offset, buf[at..at + n])
      ensures TakenInto(b, b1, p, buf[at..at + todo], ok, n)
    {
      hide Times, Splice;
      OffsetIs(q, offset);
      assert n <= todo ==> buf[at..at + todo][..n] == buf[at..at + n];
    }

    lemma OffsetIs(q: nat, offset: nat)
      requires 0 < clsizb && offset < clsizb
      ensures (Times(q, clsizb) + offset) % clsizb == offset
    {
      hide Times;
      QuotientIs(q, Times(q, clsizb) + offset, clsizb);
      TimesIs(q, clsizb);
    }

    lemma WalkBounds(temp: nat, offset: nat, cl: nat, n: nat, total: nat)
      requires 0 < clsizb && offset < clsizb
      ensures Times(cl, clsizb) <= Times(temp, clsizb) + offset <==> cl <= temp
      ensures Times(n, clsizb) <= Times(temp, clsizb) + offset <==> n <= temp
      ensures Times(total, clsizb) <= Times(temp, clsizb) + offset <==> total <= temp
    {
      hide Times;
      WalkBound(temp, offset, cl);
      WalkBound(temp, offset, n);
      WalkBound(temp, offset, total);
    }

    lemma WalkBound(temp: nat, offset: nat, m: nat)
      requires 0 < clsizb && offset < clsizb
      ensures Times(m, clsizb) <= Times(temp, clsizb) + offset <==> m <= temp
    {
      hide Times;
      if m <= temp {
        TimesMono(m, temp, clsizb);
      } else {
        TimesMono(temp, m, clsizb);
      }
    }

    /** Whether a write from pos on has a good end: all bytes find room up to cap, or so many do not
        that what is left over begins with a whole cluster. */
    predicate Fits(pos: int, bytes: int, cap: int) {
      pos + bytes <= cap || (pos <= cap && cap + clsizb <= pos + bytes)
    }

    /** How many bytes find room from pos on. */
    function Roomy(pos: nat, bytes: nat, cap: nat): nat {
      Max(0, Min(bytes, cap - pos))
    }

    /** What becomes of bytes x for which there is no cluster, from position p on: they go over the last
        cluster of the bytes b, until whole clusters are refused. */
    function Misplaced(b: seq<byte>, p: nat, x: seq<byte>): (r: seq<byte>)
      requires 0 < clsizb <= |b|
      ensures |r| == |b|
      decreases |x|
    {
      if x == [] || (|x| >= clsizb && p % clsizb == 0) then b
      else
        var n := Min(|x|, clsizb - p % clsizb);
        Misplaced(Splice(b, |b| - clsizb + p % clsizb, x[..n]), p + n, x[n..])
    }

    /** How many of t such bytes are taken. */
    function Misled(p: nat, t: nat): (r: nat)
      requires 0 < clsizb
      ensures r <= t
      decreases t
    {
      if t == 0 || (t >= clsizb && p % clsizb == 0) then 0
      else
        var n := Min(t, clsizb - p % clsizb);
        n + Misled(p + n, t - n)
    }

    lemma MisplacedStep(b: seq<byte>, b1: seq<byte>, p: nat, x: seq<byte>, at: nat, ok: bool, n: nat)
      requires 0 < clsizb <= |b| && at < |x| && TakenInto(b, b1, p, x[at..], ok, n)
      ensures |b1| == |b|
      ensures ok ==>
        && at + n <= |x| && Misplaced(b, p, x[at..]) == Misplaced(b1, p + n, x[at + n..])
        && Misled(p, |x| - at) == n + Misled(p + n, |x| - at - n)
      ensures !ok ==> b1 == b && Misplaced(b, p, x[at..]) == b && Misled(p, |x| - at) == 0
    {
      assert n <= |x| - at ==> x[at..][n..] == x[at + n..];
    }

    lemma MisplacedAll(b: seq<byte>, p: nat, x: seq<byte>)
      requires 0 < clsizb <= |b|
      ensures Misplaced(b, p, x[|x|..]) == b && Misled(p, 0) == 0
    {
    }

    /** The outcome of a write of x that does not fit: what finds room goes into m, and the rest over
        the last cluster. */
    ghost predicate Spoilt(b0: seq<byte>, m: seq<byte>, b1: seq<byte>, pos: nat, x: seq<byte>, cap: nat, r: nat)
      requires 0 < clsizb
    {
      var k := Roomy(pos, |x|, cap);
      && clsizb <= |m| == cap && Overlaid(b0, m, pos, x[..k])
      && b1 == Misplaced(m, pos + k, x[k..]) && r == k + Misled(pos + k, |x| - k)
    }

    /** On the way there: at of the bytes are done. */
    ghost predicate Astray(b0: seq<byte>, m: seq<byte>, b1: seq<byte>, pos: nat, x: seq<byte>, cap: nat, at: nat)
      requires 0 < clsizb
    {
      var k := Roomy(pos, |x|, cap);
      && clsizb <= |m| == |b1| == cap && at <= |x| && Overlaid(b0, m, pos, x[..k])
      && Misplaced(m, pos + k, x[k..]) == Misplaced(b1, pos + at, x[at..])
      && k + Misled(pos + k, |x| - k) == at + Misled(pos + at, |x| - at)
    }

    lemma AstrayBegins(b0: seq<byte>, b: seq<byte>, m: seq<byte>, b1: seq<byte>,
                       pos: nat, x: seq<byte>, cap: nat, at: nat, ok: bool, n: nat)
      requires 0 < clsizb <= |m| == cap && at < |x| && Overlaid(b0, b, pos, x[..at]) && b <= m
      requires cap <= pos + at && (at > 0 ==> pos + at == cap) && cap % clsizb == 0
      requires TakenInto(m, b1, pos + at, x[at..], ok, n)
      ensures ok ==> at + n <= |x| && !Fits(pos, |x|, cap) && Astray(b0, m, b1, pos, x, cap, at + n)
      ensures !ok && Fits(pos, |x|, cap) ==> pos + at == cap && Overlaid(b0, b1, pos, x[..at])
      ensures !ok && !Fits(pos, |x|, cap) ==> cap < pos + at && Spoilt(b0, m, b1, pos, x, cap, at)
    {
      hide Overlaid, TakenInto, Misplaced, Misled;
      OverlaidThenMore(b0, b, m, pos, x[..at]);
      MisplacedStep(m, b1, pos + at, x, at, ok, n);
      TakenWhen(m, b1, pos + at, x[at..], ok, n);
    }

    lemma TakenWhen(b: seq<byte>, b1: seq<byte>, p: nat, x: seq<byte>, ok: bool, n: nat)
      requires 0 < clsizb && TakenInto(b, b1, p, x, ok, n)
      ensures ok <==> !(|x| >= clsizb && p % clsizb == 0)
      ensures ok ==> n > 0
    {
    }

    lemma AstrayGoesOn(b0: seq<byte>, m: seq<byte>, b: seq<byte>, b1: seq<byte>,
                       pos: nat, x: seq<byte>, cap: nat, at: nat, ok: bool, n: nat)
      requires 0 < clsizb && at < |x| && Astray(b0, m, b, pos, x, cap, at) && TakenInto(b, b1, pos + at, x[at..], ok, n)
      ensures ok ==> at + n <= |x| && Astray(b0, m, b1, pos, x, cap, at + n)
      ensures !ok ==> Spoilt(b0, m, b1, pos, x, cap, at)
    {
      hide Overlaid, TakenInto, Misplaced, Misled;
      MisplacedStep(b, b1, pos + at, x, at, ok, n);
    }

    lemma AstrayEnds(b0: seq<byte>, m: seq<byte>, b1: seq<byte>, pos: nat, x: seq<byte>, cap: nat)
      requires 0 < clsizb && Astray(b0, m, b1, pos, x, cap, |x|)
      ensures Spoilt(b0, m, b1, pos, x, cap, |x|)
    {
      hide Overlaid, Misplaced, Misled;
      MisplacedAll(b1, pos + |x|, x);
    }

    lemma OverlaidThenMore(b: seq<byte>, b1: seq<byte>, b2: seq<byte>, pos: nat, x: seq<byte>)
      requires Overlaid(b, b1, pos, x) && b1 <= b2
      ensures Overlaid(b, b2, pos, x)
    {
    }

    /** What is stored after at of the bytes x: all is well, or (lost) a part of a cluster has already
        gone to the wrong place. */
    ghost predicate OnTrack(lost: bool, m: seq<byte>, b0: seq<byte>, b: seq<byte>, pos: nat, x: seq<byte>, cap: nat,
                            at: nat)
      requires 0 < clsizb && at <= |x|
    {
      if lost then cap < pos + at && !Fits(pos, |x|, cap) && Astray(b0, m, b, pos, x, cap, at)
      else Overlaid(b0, b, pos, x[..at])
    }

    /** What is stored when the loop has ended after at of the bytes x. */
    ghost predicate Outcome(m: seq<byte>, b0: seq<byte>, b: seq<byte>, pos: nat, x: seq<byte>, cap: nat, at: nat)
      requires 0 < clsizb && at <= |x|
    {
      if Fits(pos, |x|, cap) then at == Min(|x|, cap - pos) && Overlaid(b0, b, pos, x[..at])
      else cap < pos + at && Spoilt(b0, m, b, pos, x, cap, at)
    }

    /** A round of the loop, from the bytes b to b1 by way of b'. */
    lemma RoundOf(lost: bool, m: seq<byte>, b0: seq<byte>, b: seq<byte>, b': seq<byte>, b1: seq<byte>,
                  pos: nat, x: seq<byte>, cap: nat, at: nat, ok: bool, n: nat) returns (lost1: bool, m1: seq<byte>)
      requires 0 < clsizb && at < |x| && OnTrack(lost, m, b0, b, pos, x, cap, at) && clsizb <= cap && cap % clsizb == 0
      requires !lost && at > 0 ==> pos + at <= cap
      requires if lost || cap <= pos + at
        then b <= b' && |b'| == cap && TakenInto(b', b1, pos + at, x[at..], ok, n) && (lost ==> b' == b)
        else ok && at + n <= |x| && Overlaid(b, b1, pos + at, x[at..at + n])
      ensures lost1 == (lost || (ok && cap <= pos + at)) && (ok ==> at + n <= |x|)
      ensures ok ==> OnTrack(lost1, m1, b0, b1, pos, x, cap, at + n)
      ensures !ok ==> Outcome(m1, b0, b1, pos, x, cap, at)
    {
      hide Overlaid, TakenInto, Astray, Spoilt;
      lost1, m1 := lost || (ok && cap <= pos + at), m;
      if lost {
        TakenSizes(b', b1, pos + at, x[at..], ok, n);
        AstrayGoesOn(b0, m, b, b1, pos, x, cap, at, ok, n);
      } else if cap <= pos + at {
        m1 := b';
        TakenSizes(b', b1, pos + at, x[at..], ok, n);
        AstrayBegins(b0, b, b', b1, pos, x, cap, at, ok, n);
      } else {
        OverlaidTwice(b0, b, b1, pos, x, at, n);
      }
    }

    lemma TakenSizes(b: seq<byte>, b1: seq<byte>, p: nat, x: seq<byte>, ok: bool, n: nat)
      requires 0 < clsizb && TakenInto(b, b1, p, x, ok, n)
      ensures |b1| == |b| && (ok ==> 0 < n <= |x|) && (!ok ==> n == 0)
    {
    }

    /** The state of the transfer loop after at of the bytes x. */
    ghost predicate Going(f: FilePtr, current: int, at: nat, x: seq<byte>, lost: bool, m: seq<byte>,
                          files0: map<nat, seq<int>>, free0: nat, b0: seq<byte>, pos0: nat)
      requires d.Geometry() && at <= |x| && 0 < clsizb
      reads this, d, d.fat, data, f
    {
      var g := f.c.id;
      && Valid() && Knows(f) && Times(f.cl, clsizb) <= f.pos == pos0 + at
      && Grew(files0, free0, files, Avail(g), g)
      && Snug(|files0[g]|, |files[g]|, pos0 + |x|)
      && OnTrack(lost, m, b0, Stored(g), pos0, x, Times(|files0[g]| + free0, clsizb), at)
      && if lost then Stuck(f, current) else current == f.current && (at > 0 ==> f.pos <= Times(|files[g]|, clsizb))
    }

    /** How the loop has ended after at of the bytes x. */
    ghost predicate Ended(f: FilePtr, at: nat, x: seq<byte>, m: seq<byte>,
                          files0: map<nat, seq<int>>, free0: nat, b0: seq<byte>, pos0: nat)
      requires d.Geometry() && at <= |x| && 0 < clsizb
      reads this, d, d.fat, data, f
    {
      var g := f.c.id;
      && Valid() && Knows(f) && Times(f.cl, clsizb) <= f.pos == pos0 + at
      && Grew(files0, free0, files, Avail(g), g) && Snug(|files0[g]|, |files[g]|, pos0 + |x|)
      && var cap := Times(|files0[g]| + free0, clsizb);
         && Outcome(m, b0, Stored(g), pos0, x, cap, at)
         && if Fits(pos0, |x|, cap) then f.pos <= Times(|files[g]|, clsizb) else Avail(g) == 0
    }

    /** A round of the loop, but for moving the position on. */
    method WriteStep(f: FilePtr, current0: int, todo: nat, buf: array<byte>, at: nat, ghost lost0: bool,
                     ghost m0: seq<byte>, ghost b0: seq<byte>, ghost pos0: nat, ghost cap: nat)
      returns (n: nat, current: int, ok: bool, ghost lost: bool, ghost m: seq<byte>)
      requires d.Geometry() && 0 < clsizb && buf != data && buf != d.fat && at + todo <= buf.Length && 0 < todo
      requires Knows(f) && Times(f.cl, clsizb) <= f.pos == pos0 + at && cap == Cap(f.c.id)
      requires OnTrack(lost0, m0, b0, Stored(f.c.id), pos0, buf[..at + todo], cap, at)
      requires if lost0 then Stuck(f, current0)
        else current0 == f.current && (at > 0 ==> f.pos <= Times(|files[f.c.id]|, clsizb))
      requires slack ==> pos0 + at + todo <= cap
      requires Valid()
      modifies f`current, f`cl, f`error, this`files, d, d.fat, data
      ensures Knows(f) && Grown(f.c.id) && Times(f.cl, clsizb) <= f.pos + n
      ensures Snug(|old(files[f.c.id])|, |files[f.c.id]|, f.pos + todo)
      ensures forall h :: h in old(files) && h != f.c.id ==> Stored(h) == old(Stored(h))
      ensures n <= todo && (ok <==> n > 0)
      ensures ok ==> OnTrack(lost, m, b0, Stored(f.c.id), pos0, buf[..at + todo], cap, at + n)
      ensures ok ==> if lost then Stuck(f, current)
        else current == f.current && f.pos + n <= Times(|files[f.c.id]|, clsizb)
      ensures !ok ==> Outcome(m, b0, Stored(f.c.id), pos0, buf[..at + todo], cap, at)
      ensures !ok ==> Avail(f.c.id) == 0 && (f.pos <= cap ==> f.pos <= Times(|files[f.c.id]|, clsizb))
      ensures Valid()
    {
      hide Valid, Avail, Times, DevInfo.Geometry, Bytes, Stored, Overlaid, Grew, TakenInto, OnTrack, Outcome, Snug;
      ghost var g, x := f.c.id, buf[..at + todo];
      ghost var total := |files[g]| + Avail(g);
      ghost var files1, free1, b1 := files, Avail(g), Stored(g);
      ApartFacts(g);
      TimesMod(total, clsizb);
      OneCluster(total);
      TimesMono(|files1[g]|, total, clsizb);
      LostBeyond(lost0, m0, b0, b1, pos0, x, cap, at);
      n, current, ok, m := WritePart(f, current0, todo, buf, at);
      assert x[at..] == buf[at..at + todo] && (at + n <= |x| ==> x[at..at + n] == buf[at..at + n]);
      GrewBound(files1, free1, files, Avail(g), g);
      StoredSize(g);
      if lost0 || cap <= pos0 + at {
        TakenSizes(m, Stored(g), pos0 + at, x[at..], ok, n);
      }
      lost, m := RoundOf(lost0, m0, b0, b1, m, Stored(g), pos0, x, cap, at, ok, n);
    }

    method WriteRound(f: FilePtr, current0: int, todo: nat, buf: array<byte>, at: nat, ghost lost0: bool,
                      ghost m0: seq<byte>, ghost files0: map<nat, seq<int>>, ghost free0: nat, ghost b0: seq<byte>,
                      ghost pos0: nat)
      returns (n: nat, current: int, ok: bool, ghost lost: bool, ghost m: seq<byte>)
      requires d.Geometry() && 0 < clsizb && buf != data && buf != d.fat && at + todo <= buf.Length && 0 < todo
      requires Going(f, current0, at, buf[..at + todo], lost0, m0, files0, free0, b0, pos0)
      requires slack ==> pos0 + at + todo <= Times(|files0[f.c.id]| + free0, clsizb)
      modifies f`current, f`cl, f`error, f`pos, this`files, d, d.fat, data
      ensures forall h :: h in old(files) && h != f.c.id ==> Stored(h) == old(Stored(h))
      ensures files == old(files)[f.c.id := Chain(f.c.id)]
      ensures ok ==> 0 < n <= todo && Going(f, current, at + n, buf[..at + todo], lost, m, files0, free0, b0, pos0)
      ensures !ok ==> n == 0 && Ended(f, at, buf[..at + todo], m, files0, free0, b0, pos0)
    {
      hide Valid, Avail, Times, DevInfo.Geometry, Bytes, Stored, Overlaid, Grew, OnTrack, Outcome, Snug;
      ghost var g, files1, free1 := f.c.id, files, Avail(f.c.id);
      GrewBound(files0, free0, files1, free1, g);
      n, current, ok, lost, m := WriteStep(f, current0, todo, buf, at, lost0, m0, b0, pos0, Cap(g));
      GrewBound(files1, free1, files, Avail(g), g);
      SnugTwice(|files0[g]|, |files1[g]|, |files[g]|, pos0 + at + todo);
      GrewTwice(files0, free0, files1, free1, files, Avail(g), g);
      if !ok {
        OutcomeMeans(m, b0, Stored(g), pos0, buf[..at + todo], Times(|files0[g]| + free0, clsizb), at);
      }
      f.pos := f.pos + n;
    }

    lemma StoredSize(g: nat)
      ensures |Stored(g)| == Times(|Chain(g)|, clsizb)
    {
    }

    lemma OneCluster(n: nat)
      requires 0 < n
      ensures clsizb <= Times(n, clsizb)
    {
      TimesMono(1, n, clsizb);
      TimesOne(1, clsizb);
    }

    lemma LostBeyond(lost: bool, m: seq<byte>, b0: seq<byte>, b: seq<byte>, pos: nat, x: seq<byte>, cap: nat, at: nat)
      requires 0 < clsizb && at <= |x| && OnTrack(lost, m, b0, b, pos, x, cap, at)
      ensures lost ==> cap < pos + at && !Fits(pos, |x|, cap)
    {
    }

    lemma OutcomeMeans(m: seq<byte>, b0: seq<byte>, b: seq<byte>, pos: nat, x: seq<byte>, cap: nat, at: nat)
      requires 0 < clsizb && at <= |x| && Outcome(m, b0, b, pos, x, cap, at)
      ensures if Fits(pos, |x|, cap) then at == Min(|x|, cap - pos) && Overlaid(b0, b, pos, x[..at])
        else cap < pos + at && Spoilt(b0, m, b, pos, x, cap, at)
    {
    }

    lemma TrackBegins(b: seq<byte>, pos: nat, x: seq<byte>, cap: nat)
      requires 0 < clsizb
      ensures OnTrack(false, [], b, b, pos, x, cap, 0)
    {
      OverlaidNot(b, b, pos);
      assert x[..0] == [];
    }

    lemma TrackEnds(lost: bool, m: seq<byte>, b0: seq<byte>, b: seq<byte>, pos: nat, x: seq<byte>, cap: nat)
      requires 0 < clsizb && OnTrack(lost, m, b0, b, pos, x, cap, |x|) && (!lost ==> x == [] || pos + |x| <= cap)
      ensures x != [] ==> Outcome(m, b0, b, pos, x, cap, |x|)
    {
      hide Overlaid, Astray, Spoilt;
      if lost {
        AstrayEnds(b0, m, b, pos, x, cap);
      }
    }

    /** The transfer loop of __FIO with mode WRITE. */
    method WriteAll(f: FilePtr, bytes: nat, buf: array<byte>) returns (done: nat, ghost m: seq<byte>)
      requires d.Geometry() && Valid() && Knows(f) && Times(f.cl, clsizb) <= f.pos
      requires buf != data && buf != d.fat && 0 < bytes <= buf.Length
      requires slack ==> f.pos + bytes <= Cap(f.c.id)
      modifies f`current, f`cl, f`error, f`pos, this`files, d, d.fat, data
      ensures done <= bytes && 0 < clsizb
      ensures Ended(f, done, buf[..bytes], m, old(files), old(Avail(f.c.id)), old(Stored(f.c.id)), old(f.pos))
      ensures forall h :: h in old(files) && h != f.c.id ==> Stored(h) == old(Stored(h))
    {
      hide Valid, Avail, Times, DevInfo.Geometry, Bytes, Stored, Overlaid, Grew, OnTrack, Outcome, Snug;
      ghost var g, x := f.c.id, buf[..bytes];
      ghost var b0, files0, free0, pos0 := Stored(g), files, Avail(g), f.pos;
      ApartFacts(g);
      GrewNot(files0, free0, g);
      SnugNot(|files0[g]|, pos0 + bytes);
      TrackBegins(b0, pos0, x, Times(|files0[g]| + free0, clsizb));
      m := [];
      var current, todo: int, at: nat := f.current, bytes, 0;
      ghost var lost := false;
      while todo > 0
        invariant 0 <= todo && at + todo == bytes
        invariant Going(f, current, at, x, lost, m, files0, free0, b0, pos0)
        invariant forall h :: h in files0 && h != g ==> Stored(h) == old(Stored(h))
        decreases todo
      {
        var n, ok;
        ghost var files1, free1 := files, Avail(g);
        n, current, ok, lost, m := WriteRound(f, current, todo, buf, at, lost, m, files0, free0, b0, pos0);
        GrewBound(files0, free0, files1, free1, g);
        if !ok {
          return at, m;
        }
        at := at + n;
        todo := todo - n;
      }
      GrewBound(files0, free0, files, Avail(g), g);
      TimesMono(|files[g]|, |files0[g]| + free0, clsizb);
      LostBeyond(lost, m, b0, Stored(g), pos0, x, Times(|files0[g]| + free0, clsizb), bytes);
      TrackEnds(lost, m, b0, Stored(g), pos0, x, Times(|files0[g]| + free0, clsizb));
      return at, m;
    }

    lemma FileFacts(c: Cookie)
      requires Valid()
      ensures data != d.fat && 0 < clsizb
      ensures c.id in files ==> |files[c.id]| > 0 && files[c.id][0] != 0
      ensures |Stored(c.id)| == Times(|Chain(c.id)|, clsizb)
      ensures c.id !in files ==> Stored(c.id) == []
    {
    }

    /** The first cluster of an empty file is linked before anything is written. */
    method FirstCluster(f: FilePtr) returns (ok: bool)
      requires d.Geometry() && Valid() && HandleOK(f)
      requires slack ==> |Chain(f.c.id)| + Avail(f.c.id) > 0
      modifies f`current, f.c`stcl, this`files, d, d.fat
      ensures Valid() && HandleOK(f) && ok == (old(|Chain(f.c.id)| + Avail(f.c.id)) > 0)
      ensures ok ==> f.c.id in files && Knows(f) && Cap(f.c.id) == old(Cap(f.c.id))
      ensures ok ==> |Chain(f.c.id)| == Max(|old(Chain(f.c.id))|, 1)
      ensures if ok then files == old(files)[f.c.id := Chain(f.c.id)] else files == old(files)
      ensures old(Stored(f.c.id)) <= Stored(f.c.id) && old(Chain(f.c.id)) <= Chain(f.c.id)
      ensures Content(f.c) == old(Content(f.c)) && f.c.flen == old(f.c.flen)
      ensures forall h :: h in old(files) && h != f.c.id ==> Stored(h) == old(Stored(h))
    {
      hide Valid, Avail, Times, DevInfo.Geometry, Bytes;
      ghost var g := f.c.id;
      FileFacts(f.c);
      ok := true;
      if f.c.stcl == 0 {
        var current := Grow(0, g, -1);
        FileFacts(f.c);
        if current <= 0 {
          return false;
        }
        f.c.stcl := current;
        f.current := current;
      }
    }

    /** What HandleOK says of a handle that knows its cluster. */
    lemma KnownFile(f: FilePtr)
      requires Knows(f)
      ensures FileOK(f.c) <==> f.c.stcl == files[f.c.id][0] && 0 <= f.c.flen <= Times(|files[f.c.id]|, clsizb)
      ensures HandleOK(f) <==> FileOK(f.c) && 0 <= f.pos && Times(f.cl, clsizb) <= f.pos
    {
      hide Times;
    }

    lemma FirstSnug(n0: nat, n1: nat, n2: nat, target: int)
      requires n1 == Max(n0, 1) && 0 < target && Snug(n1, n2, target)
      ensures Snug(n0, n2, target)
    {
      SnugUpTo(n0, n1, 0, target);
      SnugTwice(n0, n1, n2, target);
    }

    /** The end of a write: a file reached over is longer from now on. */
    method EndWrite(f: FilePtr)
      requires d.Geometry() && Knows(f) && Times(f.cl, clsizb) <= f.pos
      requires f.c.stcl == files[f.c.id][0] && 0 <= f.c.flen && Valid()
      modifies f`error, f.c`flen
      ensures f.error == E_OK
      ensures Valid() && f.c.flen == Max(old(f.c.flen), f.pos)
      ensures forall h :: h in files ==> Stored(h) == old(Stored(h))
      ensures FileOK(f.c) <==> f.c.flen <= Times(|files[f.c.id]|, clsizb)
      ensures FileOK(f.c) ==> HandleOK(f) && Content(f.c) == Stored(f.c.id)[..f.c.flen]
    {
      hide Valid, Times, DevInfo.Geometry, Stored;
      if f.pos > f.c.flen {
        f.c.flen := f.pos;
      }
      f.error := E_OK;
      KnownFile(f);
    }

    /** The transfer, and the new length of the file. */
    method WriteOpen(f: FilePtr, bytes: nat, buf: array<byte>) returns (r: nat, ghost m: seq<byte>)
      requires d.Geometry() && Valid() && HandleOK(f) && Knows(f)
      requires buf != data && buf != d.fat && 0 < bytes <= buf.Length
      requires slack ==> f.pos + bytes <= Cap(f.c.id)
      modifies f, f.c, this`files, d, d.fat, data
      ensures Valid() && files == old(files)[f.c.id := Chain(f.c.id)] && old(Chain(f.c.id)) <= Chain(f.c.id)
      ensures forall h :: h in old(files) && h != f.c.id ==> Stored(h) == old(Stored(h))
      ensures f.error == E_OK && Snug(|old(Chain(f.c.id))|, |Chain(f.c.id)|, old(f.pos) + bytes)
      ensures r <= bytes && f.pos == old(f.pos) + r && f.c.stcl == old(f.c.stcl)
        && f.c.flen == Max(old(f.c.flen), f.pos)
      ensures FileOK(f.c) <==> Fits(old(f.pos), bytes, old(Cap(f.c.id)))
      ensures FileOK(f.c) ==>
        && HandleOK(f) && r == Min(bytes, old(Cap(f.c.id)) - old(f.pos))
        && Overlaid(old(Content(f.c)), Content(f.c), old(f.pos), buf[..r])
      ensures !FileOK(f.c) ==>
        && 0 < clsizb && |Stored(f.c.id)| == old(Cap(f.c.id))
        && Spoilt(old(Stored(f.c.id)), m, Stored(f.c.id), old(f.pos), buf[..bytes], old(Cap(f.c.id)), r)
    {
      hide Valid, Avail, Times, DevInfo.Geometry, Bytes, Stored, Grew, Overlaid, Outcome, Spoilt, Fits, Cap;
      hide FileOK, Snug;
      ghost var g, x := f.c.id, buf[..bytes];
      ghost var files1, free1, b1, pos0, len0, cap := files, Avail(g), Stored(g), f.pos, f.c.flen, Cap(g);
      FileFacts(f.c);
      CapIs(g);
      KnownFile(f);
      r, m := WriteAll(f, bytes, buf);
      OutcomeMeans(m, b1, Stored(g), pos0, x, cap, r);
      GrewBound(files1, free1, files, Avail(g), g);
      assert x[..r] == buf[..r];
      TimesMono(|files1[g]|, |files[g]|, clsizb);
      assert files[g][0] == files1[g][0];
      StoredSize(g);
      EndWrite(f);
      if Fits(pos0, bytes, cap) {
        OverlaidFront(b1, Stored(g), pos0, buf[..r], len0, f.c.flen);
      }
    }

    lemma OverlaidFront(b: seq<byte>, b1: seq<byte>, pos: nat, x: seq<byte>, len: nat, len1: nat)
      requires Overlaid(b, b1, pos, x) && len <= |b| && len1 == Max(len, pos + |x|) <= |b1|
      ensures Overlaid(b[..len], b1[..len1], pos, x)
    {
    }

    /** Whether a write gets as far as the transfer. */
    ghost predicate Starts(f: FilePtr, bytes: int)
      requires d.Geometry()
      reads this, d`lastcl, d.fat, f
    {
      f.error >= 0 && bytes > 0 && !rdonly && Cap(f.c.id) > 0
    }

    /** The part of a write behind the tests: the first cluster, if there is none, and the transfer. */
    method WriteSome(f: FilePtr, bytes: nat, buf: array<byte>) returns (r: int, ghost m: seq<byte>)
      requires d.Geometry() && HandleOK(f) && buf != data && buf != d.fat && 0 < bytes <= buf.Length
      requires Valid()
      requires slack ==> f.pos + bytes <= Cap(f.c.id)
      modifies f, f.c, this`files, d, d.fat, data
      ensures Valid() && old(Chain(f.c.id)) <= Chain(f.c.id)
      ensures forall h :: h in old(files) && h != f.c.id ==> Stored(h) == old(Stored(h))
      ensures files == old(files) || files == old(files)[f.c.id := Chain(f.c.id)]
      ensures old(Cap(f.c.id)) == 0 ==>
        && r == EACCES && HandleOK(f) && f.pos == old(f.pos) && f.error == old(f.error)
        && Content(f.c) == old(Content(f.c)) && files == old(files)
      ensures old(Cap(f.c.id)) > 0 ==>
        && f.error == E_OK && Snug(|old(Chain(f.c.id))|, |Chain(f.c.id)|, old(f.pos) + bytes)
        && 0 <= r <= bytes && f.pos == old(f.pos) + r && f.c.flen == Max(old(f.c.flen), f.pos)
        && (FileOK(f.c) <==> Fits(old(f.pos), bytes, old(Cap(f.c.id))))
      ensures old(Cap(f.c.id)) > 0 && FileOK(f.c) ==>
        && HandleOK(f) && r == Min(bytes, old(Cap(f.c.id)) - old(f.pos))
        && Overlaid(old(Content(f.c)), Content(f.c), old(f.pos), buf[..r])
      ensures old(Cap(f.c.id)) > 0 && !FileOK(f.c) ==>
        && 0 < clsizb && |Stored(f.c.id)| == old(Cap(f.c.id))
        && Spoilt(old(Stored(f.c.id)), m, Stored(f.c.id), old(f.pos), buf[..bytes], old(Cap(f.c.id)), r)
    {
      hide Valid, Avail, Times, DevInfo.Geometry, Bytes, Stored, Overlaid, Spoilt, Cap, Fits, Content, Snug;
      hide FileOK, Chain, Forest;
      m := [];
      FileFacts(f.c);
      CapPositive(f.c.id);
      var ok := FirstCluster(f);
      if !ok {
        return EACCES, m;
      }
      ghost var b1 := Stored(f.c.id);
      ghost var n1 := |Chain(f.c.id)|;
      r, m := WriteOpen(f, bytes, buf);
      FirstSnug(|old(Chain(f.c.id))|, n1, |Chain(f.c.id)|, old(f.pos) + bytes);
      if !FileOK(f.c) {
        SpoiltOnMore(old(Stored(f.c.id)), b1, m, Stored(f.c.id), old(f.pos), buf[..bytes], old(Cap(f.c.id)), r);
      }
    }

    /** __FIO with mode WRITE. A write that Fits puts its bytes into the file and nothing else; any
        other write leaves a file longer than its clusters, whose last one the bytes without room
        have gone over. */
    method Write(f: FilePtr, buf: array<byte>, bytes: int) returns (r: int, ghost m: seq<byte>)
      requires d.Geometry() && Valid() && HandleOK(f) && buf != data && buf != d.fat && bytes <= buf.Length
      requires slack && f.error >= 0 && bytes > 0 && !rdonly ==> f.pos + bytes <= Cap(f.c.id)
      modifies f, f.c, this`files, d, d.fat, data
      ensures Valid() && old(Chain(f.c.id)) <= Chain(f.c.id)
      ensures forall h :: h in old(files) && h != f.c.id ==> Stored(h) == old(Stored(h))
      ensures files == old(files) || files == old(files)[f.c.id := Chain(f.c.id)]
      ensures !old(Starts(f, bytes)) ==>
        && r == (if old(f.error) < 0 then old(f.error) else if bytes <= 0 || rdonly then 0 else EACCES)
        && HandleOK(f) && f.pos == old(f.pos) && Content(f.c) == old(Content(f.c)) && files == old(files)
      ensures old(Starts(f, bytes)) ==> Snug(|old(Chain(f.c.id))|, |Chain(f.c.id)|, old(f.pos) + bytes)
      ensures f.error == if old(f.error) < 0 || old(Starts(f, bytes)) then E_OK else old(f.error)
      ensures old(Starts(f, bytes)) ==>
        && 0 <= r <= bytes && f.pos == old(f.pos) + r && f.c.flen == Max(old(f.c.flen), f.pos)
        && (FileOK(f.c) <==> Fits(old(f.pos), bytes, old(Cap(f.c.id))))
      ensures old(Starts(f, bytes)) && FileOK(f.c) ==>
        && HandleOK(f) && r == Min(bytes, old(Cap(f.c.id)) - old(f.pos))
        && Overlaid(old(Content(f.c)), Content(f.c), old(f.pos), buf[..r])
      ensures old(Starts(f, bytes)) && !FileOK(f.c) ==>
        && 0 < clsizb && |Stored(f.c.id)| == old(Cap(f.c.id))
        && Spoilt(old(Stored(f.c.id)), m, Stored(f.c.id), old(f.pos), buf[..bytes], old(Cap(f.c.id)), r)
    {
      hide Valid, Avail, Times, DevInfo.Geometry, Bytes, Stored, Overlaid, Spoilt, Cap, Fits, Content, Snug;
      m := [];
      if f.error < 0 {
        r := f.error;
        f.error := 0;
        return;
      }
      if bytes <= 0 {
        return 0, m;
      }
      if rdonly {
        return 0, m;
      }
      r, m := WriteSome(f, bytes, buf);
    }

    /** Other open handles after such a write: chains grow only behind their end, so a handle stays
        where it is, unless it was opened on a file without clusters and the file has some by now. */
    twostate lemma HandlesKept(others: set<FilePtr>)
      requires forall h :: h in others ==> old(HandleOK(h)) && unchanged(h) && FileOK(h.c)
      requires forall h :: h in others ==> old(Chain(h.c.id)) <= Chain(h.c.id)
      ensures forall h :: h in others ==> (HandleOK(h) <==> old(h.c.stcl) != 0 || h.c.stcl == 0)
    {
      forall h | h in others
        ensures HandleOK(h) <==> old(h.c.stcl) != 0 || h.c.stcl == 0
      {
        assert old(HandleOK(h)) && h.current == old(h.current) && h.cl == old(h.cl);
      }
    }

    lemma SpoiltOnMore(b: seq<byte>, b0: seq<byte>, m: seq<byte>, b1: seq<byte>, pos: nat, x: seq<byte>, cap: nat,
                       r: nat)
      requires 0 < clsizb && b <= b0 && Spoilt(b0, m, b1, pos, x, cap, r)
      ensures Spoilt(b, m, b1, pos, x, cap, r)
    {
      hide Misplaced, Misled, Overlaid;
      OverlaidOnMore(b, b0, m, pos, x[..Roomy(pos, |x|, cap)]);
    }

    lemma CapIs(g: nat)
      requires d.Geometry()
      ensures Cap(g) == Times(|Chain(g)| + Avail(g), clsizb)
    {
    }

    lemma CapPositive(g: nat)
      requires d.Geometry() && 0 < clsizb
      ensures Cap(g) > 0 <==> |Chain(g)| + Avail(g) > 0
    {
      hide Avail, Times;
      if |Chain(g)| + Avail(g) > 0 {
        OneCluster(|Chain(g)| + Avail(g));
      } else {
        SeekStart();
      }
    }

    // -------------------------------------------------------------- seeking and truncating

    /** The place that a caller of fatfs_lseek asks for, and the one that it computes as a long. */
    function SeekTarget(pos: int, flen: int, where: int, whence: int): int {
      if whence == SEEK_CUR then where + pos
      else if whence == SEEK_END then where + flen
      else where
    }

    /** A place that a long can hold is the one computed, and the end of a file of 2 GB is none. */
    lemma SeekTargetHeld(pos: int, flen: int, where: long, whence: int)
      ensures var to := SeekTarget(pos, flen, where, whence);
        Wrapped(to) == to <==> -0x8000_0000 <= to < 0x8000_0000
      ensures Wrapped(SeekTarget(pos, 0x8000_0000, 0, SEEK_END)) < 0
    {
    }

    /** The number of the cluster for a place in the file; its end still belongs to the last one. */
    ghost predicate Reached(cl: int, where: int, flen: int) {
      if where == 0 then cl == 0
      else 0 <= cl && Times(cl, clsizb) <= where && if where == flen
        then Times(cl, clsizb) < where <= Times(cl, clsizb) + clsizb
        else where < Times(cl, clsizb) + clsizb
    }

    /** fatfs_lseek: every position from 0 on can be sought, and the handle knows the cluster there, or
        the last one for a position behind the end. */
    method LSeek(f: FilePtr, where0: long, whence: int) returns (r: int)
      requires Valid() && 0 <= f.pos && FileOK(f.c) && (HandleOK(f) || (where0 == 0 && whence == SEEK_SET))
      modifies f
      ensures Valid() && f.error == old(f.error) && HandleOK(f)
      ensures var to := Wrapped(SeekTarget(old(f.pos), f.c.flen, where0, whence));
        if whence != SEEK_SET && whence != SEEK_CUR && whence != SEEK_END
        then r == ENOSYS && f.pos == old(f.pos)
        else if to < 0 then r == EBADARG && f.pos == old(f.pos)
        else r == f.pos == to && Reached(f.cl, Min(to, f.c.flen), f.c.flen)
      ensures whence == 0 && 0 <= where0 ==> r == f.pos == where0
      ensures whence == 1 && 0 <= old(f.pos) + where0 < 0x8000_0000 ==> r == f.pos == old(f.pos) + where0
      ensures whence == 2 && 0 <= f.c.flen + where0 < 0x8000_0000 ==> r == f.pos == f.c.flen + where0
    {
      hide Forest, Times, Decode, Bytes, Valid, OnChain, Reached, Wrapped;
      SeekTargetHeld(f.pos, f.c.flen, where0, whence);
      ValidSize();
      SeekStart();
      var where: int := where0;
      if whence == SEEK_SET {
      } else if whence == SEEK_CUR {
        where := Wrapped(where + f.pos);
      } else if whence == SEEK_END {
        where := Wrapped(where + f.c.flen);
      } else {
        return ENOSYS;
      }
      if where < 0 {
        return EBADARG;
      }
      f.pos := where;
      if where > f.c.flen {
        where := f.c.flen;
      }
      if where == 0 {
        f.cl := 0;
        f.current := f.c.stcl;
        ReachedStart(f.c.flen);
        return f.pos;
      }
      SeekWithin(f, where);
      return f.pos;
    }

    lemma ReachedStart(flen: int)
      ensures Reached(0, 0, flen)
    {
    }

    /** The cluster for a place within the file. */
    method SeekWithin(f: FilePtr, where: nat)
      requires Valid() && FileOK(f.c) && Knows(f) && 0 < where <= f.c.flen && where <= f.pos
      modifies f`cl, f`current
      ensures HandleOK(f) && Reached(f.cl, where, f.c.flen)
    {
      hide Forest, Times, Decode, Bytes, Valid, OnChain;
      ValidSize();
      var q, o := DivMod(where, clsizb);
      var cl: int := q;
      if o == 0 && where == f.c.flen {
        cl := cl - 1;
      }
      SeekPlace(q, o, cl, f.c.flen, f.c.id);
      if cl != f.cl {
        ValidOnFile(f.c.id);
        var current;
        if cl > f.cl {
          current := StepAlong(f.current, cl - f.cl, files[f.c.id], f.cl);
        } else {
          current := StepAlong(f.c.stcl, cl, files[f.c.id], 0);
        }
        f.cl := cl;
        f.current := current;
      }
    }

    /** GETCL inside a chain; the callers' error exits (current <= 0) are then not taken. */
    method StepAlong(cluster: int, n: nat, ghost s: seq<int>, ghost i: nat) returns (current: int)
      requires OnChain(s) && i + n < |s| && cluster == s[i]
      ensures current == s[i + n] && current >= MINCL
    {
      WalkChain(d.Links(), s, i, n);
      current := d.GetCl(cluster, n);
    }

    lemma ValidSize()
      requires Valid()
      ensures 1 < clsizb && d.Geometry() && data != d.fat
    {
    }

    lemma SeekStart()
      ensures Times(0, clsizb) == 0
    {
    }

    lemma SeekPlace(q: nat, o: nat, cl: int, flen: int, g: nat)
      requires 0 < clsizb && o < clsizb && 0 < Times(q, clsizb) + o <= flen <= Times(|Chain(g)|, clsizb)
      requires cl == if o == 0 && Times(q, clsizb) + o == flen then q - 1 else q
      ensures 0 <= cl < |Chain(g)| && Times(cl, clsizb) <= Times(q, clsizb) + o
      ensures Reached(cl, Times(q, clsizb) + o, flen)
    {
      SeekStart();
      if q == 0 {
        assert Times(q, clsizb) == 0;
      }
      TimesMono(cl, q, clsizb);
      if |Chain(g)| <= cl {
        TimesMono(|Chain(g)|, cl, clsizb);
      }
    }

    /** How many clusters a file of that length keeps; even an empty one keeps its first. */
    ghost predicate Keeps(newlen: int, keep: int) {
      && 0 < keep && newlen <= Times(keep, clsizb)
      && (keep > 1 ==> Times(keep - 1, clsizb) < newlen)
    }

    /** That number. */
    ghost function Needs(len: nat): (n: nat)
      requires 0 < clsizb
      ensures 0 < n
    {
      if len <= clsizb then 1 else 1 + Needs(len - clsizb)
    }

    lemma {:induction false} NeedsKeeps(len: nat)
      requires 0 < clsizb
      ensures Keeps(len, Needs(len))
    {
      TimesOne(1, clsizb);
      if len > clsizb {
        NeedsKeeps(len - clsizb);
        TimesStep(Needs(len - clsizb), clsizb);
        if Needs(len - clsizb) > 1 {
          TimesStep(Needs(len - clsizb) - 1, clsizb);
        }
      }
    }

    /** No other number of clusters is kept, and a chain that holds len bytes has as many. */
    lemma NeedsOnly(len: nat, keep: nat)
      requires 0 < clsizb
      ensures Keeps(len, keep) ==> keep == Needs(len)
      ensures 0 < len <= Times(keep, clsizb) ==> Needs(len) <= keep
    {
      var n := Needs(len);
      NeedsKeeps(len);
      if keep < n {
        TimesMono(keep, n - 1, clsizb);
      } else if n < keep {
        TimesMono(n, keep - 1, clsizb);
      }
      SeekStart();
    }

    /** What deleting the rest of a chain and closing its front does to the whole volume. */
    lemma TruncateEffect(top: nat, v: Volume, g: nat, keep: nat, free: int)
      requires Forest(top, v) && g in v.files && 0 < keep < |v.files[g]|
      requires free == Counted(v.free, NonFree(v.links) - NonFree(FreeAll(v.links, v.files[g][keep..])))
      ensures var s := v.files[g];
        && Deleted(v.links, s[keep]) == (FreeAll(v.links, s[keep..]), E_OK)
        && Forest(top, Volume(FreeAll(v.links, s[keep..])[s[keep - 1] := CLLAST], v.files[g := s[..keep]], free))
    {
      DeletedRest(v.links, v.files[g], keep);
      ForestStep(top, v, Truncate(g, keep));
    }

    lemma TruncateCount(top: nat, v: Volume, g: nat, keep: nat)
      requires Forest(top, v) && g in v.files && 0 < keep < |v.files[g]|
      ensures Deleted(v.links, v.files[g][keep]) == (FreeAll(v.links, v.files[g][keep..]), E_OK)
      ensures Cluster(v.links, v.files[g][keep - 1])
    {
      DeletedRest(v.links, v.files[g], keep);
    }

    lemma KeepsLast(l: Links, s: seq<int>, keep: nat)
      requires 0 < keep <= |s| && |l| == d.maxcl + 1 && forall i :: 0 <= i < |s| ==> 0 <= s[i] < d.maxcl
      ensures FreeAll(l, s[keep..])[s[keep - 1] := CLLAST][d.maxcl] == l[d.maxcl]
    {
      assert forall i :: 0 <= i < |s[keep..]| ==> s[keep..][i] == s[keep + i];
    }

    lemma LinksSize()
      requires d.Geometry()
      ensures |d.Links()| == d.maxcl + 1
    {
    }

    /** The rest of a chain is freed, and its front closed. */
    method FreeBehind(current: int, r: int, ghost v: Volume, ghost g: nat, ghost keep: nat)
      requires d.Valid() && v.links == d.Links() && v.free == d.freecl && Forest(d.Top(), v)
      requires g in v.files && 0 < keep < |v.files[g]| && current == v.files[g][keep - 1] && r == v.files[g][keep]
      requires forall i :: 0 <= i < |v.files[g]| ==> MINCL <= v.files[g][i] < d.maxcl
      modifies d, d.fat
      ensures d.Valid() && (old(d.Mirrored()) ==> d.Mirrored())
      ensures |d.Links()| == d.maxcl + 1 && d.Links()[d.maxcl] == v.links[d.maxcl]
      ensures Forest(d.Top(), Volume(d.Links(), v.files[g := v.files[g][..keep]], d.freecl))
    {
      hide Forest, Times, Decode, Deleted, FreeAll, NonFree, FreeCount, Counted, ClusterAt;
      hide DevInfo.Links, DevInfo.Mirrored, DevInfo.Reserved;
      TruncateCount(d.Top(), v, g, keep);
      LinksSize();
      KeepsLast(v.links, v.files[g], keep);
      var e := d.DelChain(r);
      TruncateEffect(d.Top(), v, g, keep, d.freecl);
      e := d.FixCl(current, CLLAST);
    }

    /** The chain part of __FTRUNCATE: what lies behind the cluster `current` is freed. */
    method CutBehind(current: int, ghost g: nat, ghost keep: nat)
      requires Valid() && g in files && 0 < keep <= |files[g]| && current == files[g][keep - 1]
      modifies this`files, d, d.fat
      ensures Valid() && files == old(files)[g := old(files[g])[..keep]]
    {
      hide Forest, Times, Decode, DevInfo.Links, DevInfo.Mirrored, DevInfo.Geometry, ClusterAt;
      ghost var v, s := Vol(), files[g];
      ValidOnFile(g);
      WalkChain(d.Links(), s, keep - 1, 1);
      var r := d.GetCl(current, 1);
      if r > 0 {
        FreeBehind(current, r, v, g, keep);
      } else {
        assert s[..keep] == s && files == files[g := s];
      }
      files := files[g := s[..keep]];
    }

    /** del_chain on a whole file, as delete_cookie and opening with O_TRUNC do it. */
    method Discard(c: Cookie)
      requires Valid() && FileOK(c)
      modifies c, this`files, d, d.fat
      ensures Valid() && FileOK(c) && c.flen == 0 && files == old(files) - {c.id}
      ensures forall h :: h in files ==> Stored(h) == old(Stored(h))
    {
      hide Forest, Times, Decode, Deleted, FreeAll, NonFree, FreeCount, Bytes;
      ghost var v, top, g := Vol(), d.Top(), c.id;
      c.flen := 0;
      if c.stcl != 0 {
        DiscardEffect(top, v, g);
        var e := d.DelChain(c.stcl);
        files := files - {g};
        c.stcl := 0;
      } else {
        ValidChain(g);
        assert files - {g} == files;
      }
      assert Chain(g) == [];
    }

    lemma ValidChain(g: nat)
      requires Valid()
      ensures g in files ==> |files[g]| > 0 && files[g][0] != 0
    {
    }

    lemma DiscardEffect(top: nat, v: Volume, g: nat)
      requires Forest(top, v)
      ensures g in v.files ==>
        var l' := FreeAll(v.links, v.files[g]);
        && |v.files[g]| > 0 && Deleted(v.links, v.files[g][0]) == (l', E_OK)
        && Forest(top, Volume(l', v.files - {g}, Counted(v.free, NonFree(v.links) - NonFree(l'))))
    {
      if g in v.files {
        assert v.files[g][0..] == v.files[g];
        DeletedRest(v.links, v.files[g], 0);
        ForestStep(top, v, Delete(g));
      }
    }

    /** The number of clusters to step over for a new length, which is divided as an unsigned long; the
        quotient is a signed one again. */
    method StepsFor(len: nat) returns (cl: nat)
      requires 1 < clsizb && len < ULONG
      ensures cl + 1 == Needs(len) && Keeps(len, cl + 1) && cl < 0x8000_0000
    {
      hide Times, Needs;
      var q, o := DivMod(len, clsizb);
      SeekStart();
      TimesMore(q, clsizb);
      cl := q;
      if len != 0 && o == 0 {
        TimesPositive(q);
        cl := cl - 1;
      }
      TimesStep(cl, clsizb);
      NeedsOnly(len, cl + 1);
    }

    lemma {:induction false} TimesMore(q: nat, k: nat)
      requires 1 < k
      ensures 2 * q <= Times(q, k)
    {
      if q > 0 {
        TimesMore(q - 1, k);
      }
    }

    lemma TimesPositive(q: nat)
      ensures Times(q, clsizb) > 0 ==> q > 0 && Times(q - 1, clsizb) + clsizb == Times(q, clsizb)
    {
    }

    /** The answer of __FTRUNCATE for a file of len0 bytes and n clusters when it leaves it alone. */
    function Refusal(newlen: long, len0: nat, n: nat): int
      requires len0 < ULONG
    {
      if rdonly then EROFS
      else if newlen > Signed(len0) then EBADARG
      else if newlen == Signed(len0) then E_OK
      else if n > 0 then CLLAST
      else if Unsigned(newlen) <= clsizb then E_OK
      else CLILLEGAL
    }

    /** The outcome of __FTRUNCATE for a file of len0 bytes with the chain s0 that holds b0. Lengths are
        compared as signed, and divided and stored as unsigned longs: a negative one stands for one
        of 2 GB and more, which fails at the end of the chain unless the chain is that long. */
    ghost predicate Truncated(c: Cookie, newlen: long, r: int, len0: nat, s0: seq<int>, b0: seq<byte>)
      requires 0 < clsizb && len0 < ULONG
      reads this, data, c
    {
      var len := Unsigned(newlen);
      if rdonly || newlen >= Signed(len0) || Needs(len) > |s0|
      then r == Refusal(newlen, len0, |s0|) && Chain(c.id) == s0 && c.flen == len0 && Stored(c.id) == b0
      else r == E_OK && Chain(c.id) == s0[..Needs(len)] && c.flen == len && Stored(c.id) <= b0
    }

    /** __FTRUNCATE: the first newlen bytes stay, and exactly the clusters that hold them. */
    method FTruncate(c: Cookie, newlen: long) returns (r: int)
      requires Valid() && FileOK(c) && c.flen < ULONG
      modifies c, this`files, d, d.fat
      ensures Valid() && FileOK(c) && c.stcl == old(c.stcl) && Chain(c.id) <= old(Chain(c.id))
      ensures files == old(files) || files == old(files)[c.id := Chain(c.id)]
      ensures forall h :: h in old(files) && h != c.id ==> Stored(h) == old(Stored(h))
      ensures 0 < clsizb && Truncated(c, newlen, r, old(c.flen), old(Chain(c.id)), old(Stored(c.id)))
      ensures rdonly ==> r == EROFS
      ensures !rdonly && newlen > Signed(old(c.flen)) ==> r == EBADARG
      ensures !rdonly && newlen < Signed(old(c.flen)) && Unsigned(newlen) < old(c.flen) ==>
        r == E_OK && Content(c) == old(Content(c))[..Unsigned(newlen)]
    {
      hide Forest, Times, Decode, Bytes, Valid, OnChain, Keeps, Needs;
      ghost var g, len0, s0, b0 := c.id, c.flen, Chain(c.id), Stored(c.id);
      ValidSize();
      StoredSize(g);
      var oldlen := Signed(c.flen);
      if rdonly {
        return EROFS;
      }
      if newlen > oldlen {
        return EBADARG;
      }
      if newlen == oldlen {
        return E_OK;
      }
      var cl := StepsFor(Unsigned(newlen));
      LastKept(c, cl);
      NeedsOnly(Unsigned(newlen), |s0|);
      var current := d.GetCl(c.stcl, cl);
      if current <= 0 {
        NeverEmpty(g, Unsigned(newlen), cl);
        return current;
      }
      CutBehind(current, g, cl + 1);
      c.flen := Unsigned(newlen);
      FrontStored(g, s0, b0, cl + 1);
      KeepsMeans(Unsigned(newlen), cl + 1);
      return E_OK;
    }

    lemma KeepsMeans(newlen: int, keep: int)
      requires Keeps(newlen, keep)
      ensures newlen <= Times(keep, clsizb)
    {
    }

    lemma FrontStored(g: nat, s0: seq<int>, b0: seq<byte>, keep: nat)
      requires b0 == Bytes(data[..], clsizb, s0) && keep <= |s0| && Chain(g) == s0[..keep]
      ensures Stored(g) <= b0 && |Stored(g)| == Times(keep, clsizb)
    {
      hide Times, ClusterBytes;
      BytesOfFront(data[..], clsizb, s0, keep);
    }

    /** Without a cluster there are no bytes, and only the numbers 0 and less are reached. */
    lemma NeverEmpty(g: nat, len: nat, cl: nat)
      requires 0 < clsizb && cl + 1 == Needs(len)
      ensures len <= clsizb <==> cl == 0
    {
    }

    /** The cluster that a truncation finds: the last one to keep, or an error. */
    lemma LastKept(c: Cookie, cl: nat)
      requires Valid() && FileOK(c)
      ensures var current := if cl > 0 then Walk(d.Links(), c.stcl, cl) else c.stcl;
        if c.id !in files then c.flen == 0 && current == if cl > 0 then CLILLEGAL else 0
        else current == if cl < |files[c.id]| then files[c.id][cl] else CLLAST
      ensures c.id in files && cl < |files[c.id]| ==> MINCL <= files[c.id][cl]
    {
      hide Forest, Times, Decode, Bytes, Valid, DevInfo.Geometry;
      ValidSize();
      SeekStart();
      if c.id in files {
        ValidOnFile(c.id);
        WalkChain(d.Links(), files[c.id], 0, cl);
      }
    }

    /** FTRUNCATE through an open file: the handle is led back to a cluster that still exists. */
    method TruncateOpen(f: FilePtr, newlen: long) returns (r: int)
      requires Valid() && HandleOK(f) && f.c.flen < ULONG && f.pos < 0x8000_0000
      modifies f, f.c, this`files, d, d.fat
      ensures Valid() && HandleOK(f) && f.pos == old(f.pos) && Chain(f.c.id) <= old(Chain(f.c.id))
      ensures 0 < clsizb && Truncated(f.c, newlen, r, old(f.c.flen), old(Chain(f.c.id)), old(Stored(f.c.id)))
      ensures rdonly ==> r == EROFS
      ensures !rdonly && newlen > Signed(old(f.c.flen)) ==> r == EBADARG
      ensures !rdonly && newlen < Signed(old(f.c.flen)) && Unsigned(newlen) < old(f.c.flen) ==>
        r == E_OK && Content(f.c) == old(Content(f.c))[..Unsigned(newlen)]
    {
      hide Forest, Times, Decode, Bytes, Valid, Needs;
      r := FTruncate(f.c, newlen);
      if r == E_OK {
        var pos := f.pos;
        var e := LSeek(f, 0, SEEK_SET);
        e := LSeek(f, pos, SEEK_SET);
      }
    }

    /** Other handles of a file that was truncated, or of which the clusters were deleted: they keep
        their cluster number, and are in order exactly if the file still has that cluster. */
    twostate lemma HandlesCut(others: set<FilePtr>)
      requires old(Valid())
      requires forall h :: h in others ==> old(HandleOK(h)) && unchanged(h) && FileOK(h.c)
      requires forall h :: h in others ==> Chain(h.c.id) <= old(Chain(h.c.id))
      ensures forall h :: h in others ==> (HandleOK(h) <==> h.cl < |Chain(h.c.id)| || old(Chain(h.c.id)) == [])
    {
      hide Times, Decode, FreeCount, Disjoint, DevInfo.Links, DevInfo.Mirrored;
      forall h | h in others
        ensures HandleOK(h) <==> h.cl < |Chain(h.c.id)| || old(Chain(h.c.id)) == []
      {
        assert old(HandleOK(h)) && h.current == old(h.current) && h.cl == old(h.cl);
      }
    }
  }

  // ---------------------------------------------------------------- where things go wrong

  /** A FAT16 table for n clusters, all free. */
  method SmallTable(n: nat) returns (d: DevInfo)
    requires n == 1 || n == 2
    ensures fresh(d) && fresh(d.fat) && d.Valid() && d.ftype == Fat16 && d.secsize == 512 && d.maxcl == n + 2
    ensures d.prim == 0 && d.freecl == -1 && d.lastcl == MINCL
    ensures FreeCount(d.Links(), MINCL, d.Top()) == n && Forest(d.Top(), Volume(d.Links(), map[], -1))
  {
    hide Times, Forest, FreeCount, Decode, DevInfo.Links, DevInfo.Mirrored;
    var fat := new byte[512](_ => 0);
    TimesIs(1, 512);
    d := new DevInfo(Fat16, 512, 1, 1, 0, false, 0, n + 2, fat, MINCL);
    AllFree(d, n);
  }

  /** A FAT16 volume with n clusters of 1024 bytes, all free, and a new file on it. */
  method SmallVolume(n: nat, ghost id: nat) returns (fs: FileSys, f: FilePtr)
    requires n == 1 || n == 2
    ensures fresh(fs) && fresh(fs.d) && fresh(fs.d.fat) && fresh(fs.data) && fresh(f) && fresh(f.c)
    ensures fs.d.Geometry() && fs.Valid() && fs.HandleOK(f) && !fs.rdonly && fs.clsizb == 1024 && !fs.slack
    ensures f.c.id == id && f.pos == 0 && f.c.flen == 0 && f.error == 0
    ensures fs.Chain(id) == [] && fs.Stored(id) == [] && fs.Cap(id) == n * 1024
  {
    hide FileSys.Avail, FileSys.Stored, FileSys.Valid, Times, Forest, FreeCount, Decode;
    hide DevInfo.Links, DevInfo.Mirrored, DevInfo.Geometry;
    var d := SmallTable(n);
    var data := new byte[n * 1024](_ => 0);
    TimesIs(n, 1024);
    fs := new FileSys(d, data, 1024, false, false, map[]);
    fs.AvailIsFree(id);
    fs.SeekStart();
    fs.StoredSize(id);
    var c := new Cookie(id);
    f := new FilePtr(c);
  }

  lemma AllFree(d: DevInfo, n: nat)
    requires d.Geometry() && d.ftype == Fat16 && d.maxcl == n + 2 && d.prim == 0 && (n == 1 || n == 2)
    requires forall i :: 0 <= i < d.fat.Length ==> d.fat[i] == 0
    ensures FreeCount(d.Links(), MINCL, d.Top()) == n
    ensures Forest(d.Top(), Volume(d.Links(), map[], -1))
  {
    var l := d.Links();
    assert l[2] == CLFREE && l[3] == CLFREE;
    assert FreeCount(l, MINCL, 2) == 0 && FreeCount(l, MINCL, 3) == 1;
  }

  /** Writing 1500 bytes with one cluster left: all are taken and the file is 1500 bytes long, but it
      has one cluster, in which the last 476 bytes have gone over the first ones. */
  method NoGoodEnd(buf: array<byte>, ghost id: nat) returns (fs: FileSys, f: FilePtr, r: int)
    requires buf.Length == 1500
    ensures r == 1500 && f.c.flen == 1500 && f.c.id == id && fs.clsizb == 1024
    ensures fs.Stored(id) == buf[1024..] + buf[476..1024] && !fs.FileOK(f.c)
  {
    hide FileSys.Valid, FileSys.Stored, FileSys.Avail, FileSys.Cap, FileSys.Spoilt;
    fs, f := SmallVolume(1, id);
    ghost var m;
    assert buf[..1500] == buf[..];
    r, m := fs.Write(f, buf, 1500);
    SpoiltHere(fs, m, fs.Stored(id), buf[..], r);
  }

  lemma SpoiltHere(fs: FileSys, m: seq<byte>, b: seq<byte>, x: seq<byte>, r: nat)
    requires fs.clsizb == 1024 && |x| == 1500 && fs.Spoilt([], m, b, 0, x, 1024, r)
    ensures r == 1500 && b == x[1024..] + x[476..1024]
  {
    hide FileSys.Misplaced, FileSys.Misled;
    assert m == x[..1024] && x[1024..][..476] == x[1024..];
    var b1 := Splice(m, 0, x[1024..]);
    fs.MisplacedStep(m, b1, 1024, x, 1024, true, 476);
    fs.MisplacedAll(b1, 1500, x);
    assert b1 == x[1024..] + x[476..1024];
  }

  /** A handle opened on a new file, to which another one writes: it does not learn of the first
      cluster. */
  method EmptyFileHandle(buf: array<byte>, ghost id: nat) returns (fs: FileSys, f: FilePtr, g: FilePtr)
    requires 10 <= buf.Length
    ensures g.c == f.c && fs.FileOK(f.c) && f.c.flen == 10 && fs.HandleOK(f)
    ensures g.current == 0 && g.pos == 0 && !fs.HandleOK(g)
  {
    hide FileSys.Valid, FileSys.Stored, FileSys.Avail, FileSys.Cap, FileSys.Overlaid;
    fs, f := SmallVolume(1, id);
    g := new FilePtr(f.c);
    label Opened:
    ghost var m;
    var r;
    r, m := fs.Write(f, buf, 10);
    fs.HandlesKept@Opened({g});
    fs.FileFacts(f.c);
    fs.SeekStart();
  }

  /** A handle at the second cluster of a file, which is cut down to 100 bytes through another handle:
      the cluster that it knows is free. */
  method StaleHandle(buf: array<byte>, ghost id: nat) returns (fs: FileSys, f: FilePtr, g: FilePtr)
    requires buf.Length == 2048
    ensures g.c == f.c && fs.Valid() && fs.HandleOK(g) && f.c.flen == 100 && |fs.Chain(id)| == 1
    ensures f.c.id == id && f.cl == 1 && !fs.HandleOK(f)
  {
    hide FileSys.Valid, FileSys.Stored, FileSys.Avail, FileSys.Cap, FileSys.Overlaid, Times;
    fs, f := SmallVolume(2, id);
    ghost var m;
    var r;
    r, m := fs.Write(f, buf, 2048);
    TwoClusters(fs, |fs.Chain(id)|);
    var e := fs.LSeek(f, 2000, SEEK_SET);
    SecondCluster(fs, f.cl);
    g := new FilePtr(f.c);
    fs.SeekStart();
    label Opened:
    r := fs.TruncateOpen(g, 100);
    fs.HandlesCut@Opened({f});
  }

  lemma TwoClusters(fs: FileSys, n: nat)
    requires fs.clsizb == 1024 && 2048 <= Times(n, 1024)
    ensures n >= 2
  {
    TimesIs(n, 1024);
  }

  lemma SecondCluster(fs: FileSys, cl: int)
    requires fs.clsizb == 1024 && fs.Reached(cl, 2000, 2048)
    ensures cl == 1
  {
    TimesIs(cl, 1024);
  }

  /** A length of -1 for a file with a single cluster of 1024 bytes is refused. */
  lemma MinusOne(fs: FileSys, c: Cookie, r: int, len0: nat, s0: seq<int>, b0: seq<byte>)
    requires fs.clsizb == 1024 && !fs.rdonly && len0 <= 1024 && |s0| == 1 && fs.Truncated(c, -1, r, len0, s0, b0)
    ensures r == CLLAST && c.flen == len0 && fs.Stored(c.id) == b0
  {
    hide FileSys.Stored;
  }

  /** A file that owns 65536 clusters of 32 KB grows by being truncated to -2147483648. */
  lemma MinusTwoGB(fs: FileSys, c: Cookie, r: int, len0: nat, s0: seq<int>, b0: seq<byte>)
    requires fs.clsizb == 32768 && !fs.rdonly && len0 < 0x8000_0000 && |s0| == 65536
    requires fs.Truncated(c, -0x8000_0000, r, len0, s0, b0)
    ensures r == E_OK && c.flen == 0x8000_0000 > len0
  {
    hide FileSys.Stored, FileSys.Needs;
    TimesIs(65536, 32768);
    fs.NeedsOnly(0x8000_0000, 65536);
  }
}
