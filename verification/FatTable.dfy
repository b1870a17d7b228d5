/**
  The FAT of a mounted volume as fatfs.c works on it: the bytes of all FAT copies, changed in
  place through the block cache, with the free-cluster counter and the allocation hint.
  `Links()` is the table that the active copy encodes.
 */
module FatTable {
  import opened Machine
  import opened FatEncoding
  import opened FatLinks

  /** Sector i * flen + q of the FAT begins q sectors into copy i. */
  lemma SectorAddress(i: nat, q: nat, flen: nat, secsize: nat)
    ensures Times(Times(i, flen) + q, secsize) == Times(i, Times(flen, secsize)) + Times(q, secsize)
  {
    TimesAdd(Times(i, flen), q, secsize);
    TimesTimes(i, flen, secsize);
  }

  /** With e unpacked entries a sector, entry q * e + r lies r entries into sector q. */
  lemma EntryAddress(q: nat, r: nat, e: nat)
    ensures Times(q, 2 * e) + 2 * r == 2 * (Times(q, e) + r)
    ensures Times(q, 4 * e) + 4 * r == 4 * (Times(q, e) + r)
  {
    TimesTwice(q, e);
    TimesTwice(q, 2 * e);
  }

  lemma EntriesInCopy(flen: nat, e: nat, maxcl: nat)
    ensures 4 * maxcl + 4 <= Times(flen, 4 * e) ==> maxcl < Times(flen, e)
    ensures 2 * maxcl + 2 <= Times(flen, 2 * e) ==> maxcl < Times(flen, e)
  {
    EntryAddress(flen, 0, e);
  }

  /** A 12-bit entry lies in one unit of three sectors, which holds 2 * secsize entries. */
  lemma EntryAddress12(q: nat, r: nat, secsize: nat)
    requires r < 2 * secsize
    ensures Times(q * 3, secsize) + r * 12 / 8 == (Times(q, 2 * secsize) + r) * 3 / 2
    ensures r * 12 / 8 + 2 <= 3 * secsize
  {
    TimesTwice(q, secsize);
    TimesAdd(q, q, secsize);
    TimesAdd(q + q, q, secsize);
  }

  class DevInfo {
    const ftype: FatType
    const secsize: nat        // SECSIZE: bytes a sector
    const fstart: nat         // FATSTART: first sector of the first copy
    const flen: nat           // FATSIZE: sectors a copy
    const fat2on: nat         // FAT2ON: number of further copies
    const fmirroring: bool    // FAT32mirr
    const currentFat: nat     // FATSTART, or FAT32prim: first sector of the copy that is read
    const prim: nat           // number of that copy
    const copyLen: nat        // bytes a copy
    const maxcl: nat          // MAXCL
    const fat: array<byte>    // the sectors FATSTART to FATEND, as the cache shows them
    var freecl: int           // FREECL: number of free clusters, negative if unknown
    var lastcl: int           // LASTALLOC: where the last search ended

    constructor (ftype: FatType, secsize: nat, fstart: nat, flen: nat, fat2on: nat, fmirroring: bool,
                 prim: nat, maxcl: nat, fat: array<byte>, lastcl: int)
      requires 512 <= secsize && secsize % 4 == 0 && 0 < fstart && 0 < flen && MINCL < maxcl < BadMark(ftype)
      requires EntryEnd(ftype, maxcl) <= Times(flen, secsize) && fat.Length == Times(fat2on + 1, Times(flen, secsize))
      requires prim <= fat2on && (ftype == Fat32 || (prim == 0 && fat2on <= 1)) && (fmirroring ==> prim == 0)
      requires MINCL <= lastcl <= maxcl
      ensures Valid()
      ensures this.ftype == ftype && this.secsize == secsize && this.fstart == fstart && this.flen == flen
      ensures this.fat2on == fat2on && this.fmirroring == fmirroring && this.prim == prim
      ensures this.copyLen == Times(flen, secsize) && this.currentFat == fstart + Times(prim, flen)
      ensures this.maxcl == maxcl && this.fat == fat && this.freecl == -1 && this.lastcl == lastcl
    {
      this.ftype, this.secsize, this.fstart, this.flen := ftype, secsize, fstart, flen;
      this.fat2on, this.fmirroring, this.prim, this.maxcl := fat2on, fmirroring, prim, maxcl;
      this.copyLen, this.currentFat := Times(flen, secsize), fstart + Times(prim, flen);
      this.fat, this.freecl, this.lastcl := fat, -1, lastcl;
    }

    /** Where copy i begins in `fat`. */
    function CopyAt(i: nat): nat {
      Times(i, copyLen)
    }

    /** What mounting establishes: the copies are long enough and the cluster numbers encodable. */
    ghost predicate Geometry() {
      && 512 <= secsize && secsize % 4 == 0 && 0 < fstart && 0 < flen
      && MINCL < maxcl < BadMark(ftype)
      && EntryEnd(ftype, maxcl) <= copyLen
      && copyLen == Times(flen, secsize) && currentFat == fstart + Times(prim, flen)
      && fat.Length == CopyAt(fat2on + 1)
      && prim <= fat2on
      && (ftype == Fat32 || (prim == 0 && fat2on <= 1))
      && (fmirroring ==> prim == 0)
    }

    ghost predicate Valid()
      reads this`lastcl
    {
      Geometry() && MINCL <= lastcl <= maxcl
    }

    /** The first number that the search and the free count leave out. */
    function Top(): nat {
      if ftype == Fat12 then maxcl + 1 else maxcl
    }

    lemma CopyBounds(i: nat)
      requires Geometry() && i <= fat2on
      ensures CopyAt(i) + copyLen <= fat.Length
    {
      TimesMono(i, fat2on + 1, copyLen);
    }

    ghost function Copy(i: nat): (s: seq<byte>)
      requires Geometry() && i <= fat2on
      reads fat
      ensures |s| == copyLen
    {
      CopyBounds(i);
      fat[CopyAt(i)..CopyAt(i) + copyLen]
    }

    ghost function Links(): (l: Links)
      requires Geometry()
      reads fat
      ensures |l| == maxcl + 1 && Table(l)
    {
      DecodeIsTable(ftype, maxcl, Copy(prim));
      Decode(ftype, maxcl, Copy(prim))
    }

    /** All copies that are kept in step hold the same bytes. */
    ghost predicate Mirrored()
      requires Geometry()
      reads fat
    {
      ftype != Fat32 || fmirroring ==> forall i :: 1 <= i <= fat2on ==> Copy(i) == Copy(0)
    }

    /** The reserved upper bits of all 32-bit entries of the copy that is read. */
    ghost function Reserved(): seq<int>
      requires Geometry()
      reads fat
    {
      if ftype == Fat32 then ReservedIn(Copy(prim)) else []
    }

    ghost function ReservedIn(s: seq<byte>): seq<int>
      requires EntryEnd(Fat32, maxcl) <= |s|
    {
      seq(maxcl + 1, c requires 0 <= c <= maxcl => Long(s, 4 * c) / 0x1000_0000)
    }

    // -------------------------------------------------------------- access through cached units

    /** Where the unit that starts at a sector begins in `fat`. */
    function UnitAt(sector: nat): nat
      requires fstart <= sector
    {
      Times(sector - fstart, secsize)
    }

    lemma UnitInCopy(i: nat, q: nat)
      requires Geometry()
      ensures UnitAt(fstart + Times(i, flen) + q) == CopyAt(i) + Times(q, secsize)
    {
      SectorAddress(i, q, flen, secsize);
      assert fstart + Times(i, flen) + q - fstart == Times(i, flen) + q;
    }

    function PeekWord(a: nat): nat
      requires a + 1 < fat.Length
      reads fat
    {
      fat[a] as int + 0x100 * (fat[a + 1] as int)
    }

    function PeekLong(a: nat): nat
      requires a + 3 < fat.Length
      reads fat
    {
      PeekWord(a) + 0x1_0000 * PeekWord(a + 2)
    }

    lemma PeekIsWord(i: nat, o: nat)
      requires Geometry() && i <= fat2on && o + 1 < copyLen
      ensures CopyAt(i) + o + 1 < fat.Length
      ensures PeekWord(CopyAt(i) + o) == Word(Copy(i), o)
    {
      CopyBounds(i);
    }

    lemma CopiesApart(i: nat, k: nat)
      requires Geometry() && i <= fat2on && k <= fat2on && i != k
      ensures CopyAt(i) + copyLen <= CopyAt(k) || CopyAt(k) + copyLen <= CopyAt(i)
    {
      if i < k {
        TimesMono(i, k, copyLen);
      } else {
        TimesMono(k, i, copyLen);
      }
    }

    method Poke(ghost i: nat, ghost o: nat, a: nat, x: byte)
      requires Geometry() && i <= fat2on && o < copyLen && a == CopyAt(i) + o && a < fat.Length
      modifies fat
      ensures Copy(i) == old(Copy(i))[o := x]
      ensures forall k :: 0 <= k <= fat2on && k != i ==> Copy(k) == old(Copy(k))
    {
      fat[a] := x;
      CopyBounds(i);
      forall k | 0 <= k <= fat2on && k != i
        ensures Copy(k) == old(Copy(k))
      {
        CopyBounds(k);
        CopiesApart(i, k);
      }
    }

    method PokeWord(ghost i: nat, ghost o: nat, a: nat, w: nat)
      requires Geometry() && i <= fat2on && o + 1 < copyLen && a == CopyAt(i) + o && w < 0x1_0000
      modifies fat
      ensures Copy(i) == PutWord(old(Copy(i)), o, w)
      ensures forall k :: 0 <= k <= fat2on && k != i ==> Copy(k) == old(Copy(k))
    {
      CopyBounds(i);
      Poke(i, o, a, w % 0x100);
      Poke(i, o + 1, a + 1, w / 0x100);
    }

    method PokeLong(ghost i: nat, ghost o: nat, a: nat, w: nat)
      requires Geometry() && i <= fat2on && o + 3 < copyLen && a == CopyAt(i) + o && w < 0x1_0000_0000
      modifies fat
      ensures Copy(i) == PutLong(old(Copy(i)), o, w)
      ensures forall k :: 0 <= k <= fat2on && k != i ==> Copy(k) == old(Copy(k))
    {
      PokeWord(i, o, a, w % 0x1_0000);
      PokeWord(i, o + 2, a + 2, w / 0x1_0000);
    }

    // -------------------------------------------------------------- getcl

    predicate ValidCluster(cl: int) {
      MINCL <= cl <= maxcl
    }

    /** Sector of the three-sector unit that holds a 12-bit entry, and the entry's place in it. */
    method Locate12(cluster: nat) returns (sector: nat, offset: nat)
      requires Geometry() && ftype == Fat12 && cluster <= maxcl
      ensures fstart <= sector && UnitAt(sector) + offset == CopyAt(0) + cluster * 3 / 2
      ensures UnitAt(sector + flen) + offset == CopyAt(1) + cluster * 3 / 2
      ensures cluster * 3 / 2 + 1 < copyLen
    {
      var q, r := DivMod(cluster, secsize * 2);
      sector := fstart + q * 3;
      offset := r * 12 / 8;
      EntryAddress12(q, r, secsize);
      UnitInCopy(0, q * 3);
      UnitInCopy(1, q * 3);
      TimesOne(1, flen);
      assert CopyAt(0) == 0;
    }

    /** Where an unpacked entry begins in its copy. */
    function EntryAt(cluster: nat): nat {
      if ftype == Fat32 then 4 * cluster else 2 * cluster
    }

    /** Unpacked entries a sector. */
    function PerSector(): nat {
      if ftype == Fat32 then secsize / 4 else secsize / 2
    }

    lemma EntryInSector(q: nat, i: nat)
      requires Geometry() && ftype != Fat12
      ensures UnitAt(currentFat + q) + EntryAt(i) == CopyAt(prim) + EntryAt(Times(q, PerSector()) + i)
    {
      hide Times, UnitAt, CopyAt, PerSector;
      UnitInCopy(prim, q);
      PerSectorIs();
      EntryAddress(q, i, PerSector());
    }

    lemma PerSectorIs()
      requires secsize % 4 == 0
      ensures secsize == if ftype == Fat32 then 4 * PerSector() else 2 * PerSector()
    {
    }

    /** Sector that holds an unpacked entry of the copy that is read, and the entry's place in it. */
    method Locate(cluster: nat) returns (sector: nat, offset: nat)
      requires Geometry() && ftype != Fat12 && cluster <= maxcl
      ensures currentFat <= sector && UnitAt(sector) + offset == CopyAt(prim) + EntryAt(cluster)
    {
      var q, r := DivMod(cluster, PerSector());
      sector := currentFat + q;
      offset := EntryAt(r);
      EntryInSector(q, r);
    }

    /** FATSIZE sectors on, the next copy has the same entry. */
    lemma SameInCopy(sector: nat, offset: nat, o: nat, k: nat)
      requires Geometry() && prim == 0 && currentFat <= sector
      requires UnitAt(sector) + offset == CopyAt(prim) + o
      ensures UnitAt(sector + Times(k, flen)) + offset == CopyAt(k) + o
    {
      var q := sector - currentFat;
      UnitInCopy(0, q);
      UnitInCopy(k, q);
      assert sector + Times(k, flen) == fstart + Times(k, flen) + q;
    }

    lemma LinkIs(cluster: nat, value: nat)
      requires Geometry() && ValidCluster(cluster) && value == Entry(ftype, Copy(prim), cluster)
      ensures Links()[cluster] == Meaning(ftype, maxcl, value)
    {
    }

    /** A single step from a cluster, in terms of the bytes of its entry. */
    lemma StepBytes12(cluster0: int)
      requires Geometry() && ftype == Fat12
      ensures var r := Walk(Links(), cluster0, 1);
        ValidCluster(cluster0) ==>
        var s, o := Copy(0), cluster0 / 2 * 3;
        var w := if cluster0 % 2 == 0 then s[o] as int + 0x100 * (s[o + 1] as int % 0x10)
                 else s[o + 1] as int / 0x10 + 0x10 * (s[o + 2] as int);
        && (r == CLLAST <==> 0xff8 <= w) && (r == CLBAD <==> 0xff0 <= w <= 0xff7) && (r == CLFREE <==> w == 0)
        && (r == CLILLEGAL <==> w == 1 || maxcl < w < 0xff0) && (2 <= w <= maxcl ==> r == w)
    {
      hide Times;
      if ValidCluster(cluster0) {
        LinkBytes12(maxcl, Copy(0), cluster0);
      }
    }

    lemma StepBytesWide(cluster0: int)
      requires Geometry() && ftype != Fat12
      ensures var r := Walk(Links(), cluster0, 1);
        ValidCluster(cluster0) && ftype == Fat16 ==>
        var s, o := Copy(0), 2 * cluster0;
        var w := s[o] as int + 0x100 * (s[o + 1] as int);
        && (r == CLLAST <==> 0xfff8 <= w) && (r == CLBAD <==> 0xfff0 <= w <= 0xfff7) && (r == CLFREE <==> w == 0)
        && (r == CLILLEGAL <==> w == 1 || maxcl < w < 0xfff0) && (2 <= w <= maxcl ==> r == w)
      ensures var r := Walk(Links(), cluster0, 1);
        ValidCluster(cluster0) && ftype == Fat32 ==>
        var s, o := Copy(prim), 4 * cluster0;
        var w := s[o] as int + 0x100 * (s[o + 1] as int) + 0x1_0000 * (s[o + 2] as int)
          + 0x100_0000 * (s[o + 3] as int % 0x10);
        && (r == CLLAST <==> 0xfff_fff8 <= w) && (r == CLBAD <==> 0xfff_fff0 <= w <= 0xfff_fff7)
        && (r == CLFREE <==> w == 0) && (r == CLILLEGAL <==> w == 1 || maxcl < w < 0xfff_fff0)
        && (2 <= w <= maxcl ==> r == w)
    {
      hide Times;
      if ValidCluster(cluster0) {
        if ftype == Fat16 {
          LinkBytes16(maxcl, Copy(0), cluster0);
        } else {
          LinkBytes32(maxcl, Copy(prim), cluster0);
        }
      }
    }

    /** getcl12: n steps along the links; a unit is fetched again only when the sector changes. */
    method GetCl12(cluster0: int, n0: nat) returns (r: int)
      requires Geometry() && ftype == Fat12 && 0 < n0
      ensures r == Walk(Links(), cluster0, n0)
      ensures n0 == 1 && ValidCluster(cluster0) ==>
        var s, o := Copy(0), cluster0 / 2 * 3;
        var w := if cluster0 % 2 == 0 then s[o] as int + 0x100 * (s[o + 1] as int % 0x10)
                 else s[o + 1] as int / 0x10 + 0x10 * (s[o + 2] as int);
        && (r == CLLAST <==> 0xff8 <= w) && (r == CLBAD <==> 0xff0 <= w <= 0xff7) && (r == CLFREE <==> w == 0)
        && (r == CLILLEGAL <==> w == 1 || maxcl < w < 0xff0) && (2 <= w <= maxcl ==> r == w)
    {
      hide Times, Links;
      StepBytes12(cluster0);
      if !ValidCluster(cluster0) {
        return CLILLEGAL;
      }
      var cluster, n := cluster0, n0;
      var oldSector, u := 0, 0;
      while true
        invariant 0 < n && ValidCluster(cluster)
        invariant Walk(Links(), cluster, n) == Walk(Links(), cluster0, n0)
        invariant oldSector == 0 || (fstart <= oldSector && u == UnitAt(oldSector))
        decreases n
      {
        var sector, offset := Locate12(cluster);
        if sector != oldSector {
          oldSector := sector;
          u := UnitAt(sector);
        }
        PeekIsWord(0, cluster * 3 / 2);
        var newcl := PeekWord(u + offset);
        var value := if cluster % 2 == 1 then newcl / 0x10 else newcl % 0x1000;
        LinkIs(cluster, value);
        if !ValidCluster(value) {
          return Meaning(ftype, maxcl, value);
        }
        cluster := value;
        n := n - 1;
        if n == 0 {
          return cluster;
        }
      }
    }

    /** getcl16 and getcl32, which differ in the width of an entry and in the copy they read. */
    method GetClWide(cluster0: int, n0: nat) returns (r: int)
      requires Geometry() && ftype != Fat12 && 0 < n0
      ensures r == Walk(Links(), cluster0, n0)
      ensures n0 == 1 && ValidCluster(cluster0) && ftype == Fat16 ==>
        var s, o := Copy(0), 2 * cluster0;
        var w := s[o] as int + 0x100 * (s[o + 1] as int);
        && (r == CLLAST <==> 0xfff8 <= w) && (r == CLBAD <==> 0xfff0 <= w <= 0xfff7) && (r == CLFREE <==> w == 0)
        && (r == CLILLEGAL <==> w == 1 || maxcl < w < 0xfff0) && (2 <= w <= maxcl ==> r == w)
      ensures n0 == 1 && ValidCluster(cluster0) && ftype == Fat32 ==>
        var s, o := Copy(prim), 4 * cluster0;
        var w := s[o] as int + 0x100 * (s[o + 1] as int) + 0x1_0000 * (s[o + 2] as int)
          + 0x100_0000 * (s[o + 3] as int % 0x10);
        && (r == CLLAST <==> 0xfff_fff8 <= w) && (r == CLBAD <==> 0xfff_fff0 <= w <= 0xfff_fff7)
        && (r == CLFREE <==> w == 0) && (r == CLILLEGAL <==> w == 1 || maxcl < w < 0xfff_fff0)
        && (2 <= w <= maxcl ==> r == w)
    {
      hide Times, Links;
      StepBytesWide(cluster0);
      if !ValidCluster(cluster0) {
        return CLILLEGAL;
      }
      var cluster, n := cluster0, n0;
      var oldSector, u := 0, 0;
      while true
        invariant 0 < n && ValidCluster(cluster)
        invariant Walk(Links(), cluster, n) == Walk(Links(), cluster0, n0)
        invariant oldSector == 0 || (fstart <= oldSector && u == UnitAt(oldSector))
        decreases n
      {
        var sector, offset := Locate(cluster);
        if sector != oldSector {
          oldSector := sector;
          u := UnitAt(sector);
        }
        var value: int := PeekEntry(cluster, u + offset);
        LinkIs(cluster, value);
        if !ValidCluster(value) {
          return Meaning(ftype, maxcl, value);
        }
        cluster := value;
        n := n - 1;
        if n == 0 {
          return cluster;
        }
      }
    }

    /** The unpacked entry at a place in `fat`; the reserved bits of a 32-bit entry are masked out. */
    method PeekEntry(ghost cluster: nat, a: nat) returns (v: nat)
      requires Geometry() && ftype != Fat12 && cluster <= maxcl
      requires a == CopyAt(prim) + EntryAt(cluster)
      ensures v == Entry(ftype, Copy(prim), cluster)
    {
      PeekIsWord(prim, EntryAt(cluster));
      if ftype == Fat16 {
        v := PeekWord(a);
      } else {
        PeekIsWord(prim, 4 * cluster + 2);
        v := PeekLong(a) % 0x1000_0000;
      }
    }

    /** GETCL: no step at all is the cluster itself, whatever it is. */
    method GetCl(cluster: int, offset: int) returns (r: int)
      requires Geometry()
      ensures r == if offset > 0 then Walk(Links(), cluster, offset) else cluster
    {
      if offset <= 0 {
        return cluster;
      }
      match ftype {
        case Fat12 => r := GetCl12(cluster, offset);
        case Fat16 | Fat32 => r := GetClWide(cluster, offset);
      }
    }

    // -------------------------------------------------------------- fixcl

    method FixCl12(cluster: int, next0: int) returns (r: int)
      requires Geometry() && ftype == Fat12 && Storable(maxcl, next0)
      modifies fat
      ensures r == if ValidCluster(cluster) then E_OK else CLILLEGAL
      ensures Links() == if ValidCluster(cluster) then old(Links())[cluster := next0] else old(Links())
      ensures ValidCluster(cluster) ==>
        var next := if next0 == CLLAST then 0xfff else if next0 == CLBAD then 0xff7 else next0;
        Copy(prim) == Put(ftype, old(Copy(prim)), cluster, next)
      ensures old(Mirrored()) ==> Mirrored()
    {
      hide Times, Decode;
      if !ValidCluster(cluster) {
        return CLILLEGAL;
      }
      var next := if next0 == CLLAST then 0xfff else if next0 == CLBAD then 0xff7 else next0;
      var sector, offset := Locate12(cluster);
      ghost var o: nat := cluster * 3 / 2;
      PeekIsWord(0, o);
      DecodeOfPut(ftype, maxcl, Copy(0), cluster, next0);
      var newcl := PeekWord(UnitAt(sector) + offset);
      if cluster % 2 == 1 {
        newcl := newcl % 0x10 + next * 0x10;
      } else {
        newcl := newcl / 0x1000 * 0x1000 + next;
      }
      assert newcl == Packed12(Word(Copy(0), o), cluster, next);
      PokeWord(0, o, UnitAt(sector) + offset, newcl);
      if fat2on > 0 {
        PokeWord(1, o, UnitAt(sector + flen) + offset, newcl);
      }
      return E_OK;
    }

    method FixCl16(cluster: int, next0: int) returns (r: int)
      requires Geometry() && ftype == Fat16 && Storable(maxcl, next0)
      modifies fat
      ensures r == if ValidCluster(cluster) then E_OK else CLILLEGAL
      ensures Links() == if ValidCluster(cluster) then old(Links())[cluster := next0] else old(Links())
      ensures ValidCluster(cluster) ==>
        var next := if next0 == CLLAST then 0xffff else if next0 == CLBAD then 0xfff7 else next0;
        Copy(prim) == Put(ftype, old(Copy(prim)), cluster, next)
      ensures old(Mirrored()) ==> Mirrored()
    {
      if !ValidCluster(cluster) {
        return CLILLEGAL;
      }
      var next := if next0 == CLLAST then 0xffff else if next0 == CLBAD then 0xfff7 else next0;
      var sector, offset := Locate(cluster);
      DecodeOfPut(ftype, maxcl, Copy(0), cluster, next0);
      PokeWord(0, 2 * cluster, UnitAt(sector) + offset, next);
      if fat2on > 0 {
        SameInCopy(sector, offset, 2 * cluster, 1);
        TimesOne(1, flen);
        PokeWord(1, 2 * cluster, UnitAt(sector + flen) + offset, next);
      }
      return E_OK;
    }

    method FixCl32(cluster: int, next0: int) returns (r: int)
      requires Geometry() && ftype == Fat32 && Storable(maxcl, next0)
      modifies fat
      ensures r == if ValidCluster(cluster) then E_OK else CLILLEGAL
      ensures Links() == if ValidCluster(cluster) then old(Links())[cluster := next0] else old(Links())
      ensures ValidCluster(cluster) ==>
        var next := if next0 == CLLAST then 0xfff_ffff else if next0 == CLBAD then 0xfff_fff7 else next0;
        Copy(prim) == Put(ftype, old(Copy(prim)), cluster, next)
      ensures old(Mirrored()) ==> Mirrored()
      ensures Reserved() == old(Reserved())
      ensures !fmirroring ==> forall k :: 0 <= k <= fat2on && k != prim ==> Copy(k) == old(Copy(k))
    {
      if !ValidCluster(cluster) {
        return CLILLEGAL;
      }
      var next := if next0 == CLLAST then 0xfff_ffff else if next0 == CLBAD then 0xfff_fff7 else next0;
      var sector, offset := Locate(cluster);
      StoresLink(Copy(prim), cluster, next0);
      var w := StoreLong32(cluster, UnitAt(sector) + offset, next);
      if fmirroring {
        MirrorLong(cluster, sector, offset, w);
      }
      return E_OK;
    }

    /** The store into the copy that is read: the reserved bits found there are masked in. */
    method StoreLong32(ghost cluster: nat, a: nat, next: nat) returns (w: nat)
      requires Geometry() && ftype == Fat32 && cluster <= maxcl && next < 0x1000_0000
      requires a == CopyAt(prim) + 4 * cluster
      modifies fat
      ensures w < 0x1_0000_0000
      ensures old(Copy(prim)) != []
        && PutLong(old(Copy(prim)), 4 * cluster, w) == Put(Fat32, old(Copy(prim)), cluster, next)
      ensures Copy(prim) == PutLong(old(Copy(prim)), 4 * cluster, w)
      ensures forall k :: 0 <= k <= fat2on && k != prim ==> Copy(k) == old(Copy(k))
    {
      PeekIsWord(prim, 4 * cluster);
      PeekIsWord(prim, 4 * cluster + 2);
      w := PeekLong(a) / 0x1000_0000 * 0x1000_0000 + next;
      assert w == Masked32(Long(Copy(prim), 4 * cluster), next);
      PokeLong(prim, 4 * cluster, a, w);
    }

    /** The loop of fixcl32 that repeats the stored long in every further copy. */
    method MirrorLong(ghost cluster: nat, sector0: nat, offset: nat, w: nat)
      requires Geometry() && ftype == Fat32 && prim == 0 && cluster <= maxcl && w < 0x1_0000_0000
      requires currentFat <= sector0 && UnitAt(sector0) + offset == CopyAt(0) + 4 * cluster
      modifies fat
      ensures forall k :: 1 <= k <= fat2on ==> Copy(k) == PutLong(old(Copy(k)), 4 * cluster, w)
      ensures Copy(0) == old(Copy(0))
    {
      var sector := sector0;
      ghost var k := 0;
      var i := fat2on;
      while i > 0
        invariant 0 <= i && k == fat2on - i && sector == sector0 + Times(k, flen)
        invariant forall j :: 1 <= j <= k ==> Copy(j) == PutLong(old(Copy(j)), 4 * cluster, w)
        invariant forall j :: k < j <= fat2on ==> Copy(j) == old(Copy(j))
        invariant Copy(0) == old(Copy(0))
      {
        k := k + 1;
        sector := sector + flen;
        SameInCopy(sector0, offset, 4 * cluster, k);
        PokeLong(k, 4 * cluster, UnitAt(sector) + offset, w);
        i := i - 1;
      }
    }

    /** What storing a link in a 32-bit copy does to its meaning and to its reserved bits. */
    lemma StoresLink(s: seq<byte>, cluster: nat, next: int)
      requires Geometry() && ftype == Fat32 && |s| == copyLen
      requires ValidCluster(cluster) && Storable(maxcl, next)
      ensures 0 <= Stored(Fat32, next) < 0x1000_0000
      ensures Decode(Fat32, maxcl, Put(Fat32, s, cluster, Stored(Fat32, next)))
           == Decode(Fat32, maxcl, s)[cluster := next]
      ensures ReservedIn(Put(Fat32, s, cluster, Stored(Fat32, next))) == ReservedIn(s)
    {
      var v := Stored(Fat32, next);
      DecodeOfPut(Fat32, maxcl, s, cluster, next);
      Put32Entry(s, cluster, v);
      forall c | 0 <= c <= maxcl && c != cluster
        ensures Long(Put(Fat32, s, cluster, v), 4 * c) == Long(s, 4 * c)
      {
        LongElsewhere(s, 4 * cluster, Masked32(Long(s, 4 * cluster), v), 4 * c);
      }
    }

    /** FIXCL. Exactly one link changes; copies in step stay in step; reserved bits are kept. */
    method FixCl(cluster: int, next: int) returns (r: int)
      requires Geometry() && Storable(maxcl, next)
      modifies fat
      ensures r == if ValidCluster(cluster) then E_OK else CLILLEGAL
      ensures Links() == if ValidCluster(cluster) then old(Links())[cluster := next] else old(Links())
      ensures old(Mirrored()) ==> Mirrored()
      ensures Reserved() == old(Reserved())
    {
      match ftype {
        case Fat12 => r := FixCl12(cluster, next);
        case Fat16 => r := FixCl16(cluster, next);
        case Fat32 => r := FixCl32(cluster, next);
      }
    }

    // -------------------------------------------------------------- newcl

    /**
      The clusters that a search starting at hint looks at. The 12-bit search makes one try too
      few, so it never looks at the cluster before the hint. The 32-bit search with an active copy
      other than the first takes every sector for the end of the FAT, so it looks at no more than
      the rest of the hint's sector and the first one.
     */
    ghost predicate Searched(hint: int, c: int)
      requires Geometry() && ValidCluster(hint)
    {
      match ftype
      case Fat12 => MINCL <= c <= maxcl && c != (if hint > MINCL then hint - 1 else maxcl)
      case Fat16 => MINCL <= c < maxcl
      case Fat32 =>
        && MINCL <= c < maxcl
        && (prim == 0 || (hint <= c && c / PerSector() == hint / PerSector()) || c < PerSector())
    }

    /** newcl12 started at cluster 3 of a 12-bit FAT does not look at cluster 2. */
    lemma SearchMisses()
      requires Geometry() && ftype == Fat12 && 3 <= maxcl
      ensures ValidCluster(3) && !Searched(3, 2) && MINCL <= 2 < maxcl
    {
    }

    /** When the search looks at every cluster that has data: always with 16 bits and on the first
        copy of a FAT32, otherwise only in these cases. */
    lemma SearchComplete(hint: int)
      requires Geometry() && ValidCluster(hint)
      ensures (forall c :: MINCL <= c < maxcl ==> Searched(hint, c)) <==>
        match ftype
        case Fat12 => hint == MINCL
        case Fat16 => true
        case Fat32 =>
          || prim == 0 || maxcl <= PerSector()
          || (hint == PerSector() && maxcl <= 2 * PerSector())
    {
      match ftype
      case Fat12 =>
        assert hint != MINCL ==> !Searched(hint, hint - 1);
      case Fat16 =>
      case Fat32 =>
        var p := PerSector();
        SecondSector(p, hint);
        if prim != 0 && p < maxcl {
          assert Searched(hint, p) <==> hint == p;
          if 2 * p < maxcl {
            assert Searched(hint, 2 * p) ==> hint != p;
          }
          forall c | p <= c < maxcl && hint == p && maxcl <= 2 * p
            ensures Searched(hint, c)
          {
            SecondSector(p, c);
          }
        }
    }

    lemma SecondSector(p: nat, c: nat)
      requires 0 < p
      ensures c / p == 1 <==> p <= c < 2 * p
      ensures p / p == 1 && 2 * p / p == 2
    {
      TimesOne(1, p);
      assert Times(2, p) == p + p;
      QuotientIs(1, c, p);
      QuotientIs(1, p, p);
      QuotientIs(2, 2 * p, p);
    }

    /** c comes before r in a search: from the hint to the end, and then from the beginning on. */
    predicate Before(hint: int, c: int, r: int) {
      if r >= hint then hint <= c < r else c >= hint || c < r
    }

    /** What a search finds: the first free cluster of those it looks at, or EACCES if none is free. */
    ghost predicate Finds(l: Links, hint: int, r: int)
      requires Geometry() && ValidCluster(hint) && |l| == maxcl + 1
    {
      if r > 0
      then
        && ValidCluster(r) && Searched(hint, r) && l[r] == CLFREE
        && forall c :: Searched(hint, c) && Before(hint, c, r) ==> l[c] != CLFREE
      else
        r == EACCES && forall c :: Searched(hint, c) ==> l[c] != CLFREE
    }

    /** A search has one result. */
    lemma FindsOne(l: Links, hint: int, r: int, r': int)
      requires Geometry() && ValidCluster(hint) && |l| == maxcl + 1
      requires Finds(l, hint, r) && Finds(l, hint, r')
      ensures r == r'
    {
      assert r == r' || Before(hint, r, r') || Before(hint, r', r);
    }

    /** newcl12 hands out MAXCL, which is no cluster with data, exactly if its entry is free and the
        search comes to it before any other free one. */
    lemma FindsMaxcl(l: Links, hint: int, r: int)
      requires Geometry() && ftype == Fat12 && ValidCluster(hint) && |l| == maxcl + 1 && Finds(l, hint, r)
      ensures r == maxcl <==> l[maxcl] == CLFREE && hint != MINCL && forall c :: hint <= c < maxcl ==> l[c] != CLFREE
    {
      assert hint != MINCL ==> Searched(hint, maxcl);
      assert forall c :: hint <= c < maxcl ==> Searched(hint, c) && (r == maxcl ==> Before(hint, c, r));
      assert Before(hint, maxcl, r) || r == maxcl || r >= hint || r <= 0;
    }

    /** So it does on a full disk with three clusters, whose FAT ends with a zero entry. */
    lemma FindsMaxclHere(s: seq<byte>)
      requires Geometry() && ftype == Fat12 && maxcl == 5
      requires s == [0xf8, 0xff, 0xff, 0xff, 0xff, 0xff, 0xff, 0x0f, 0x00]
      ensures Finds(Decode(Fat12, maxcl, s), 3, maxcl)
    {
      var l := Decode(Fat12, maxcl, s);
      assert l[2] == CLLAST && l[3] == CLLAST && l[4] == CLLAST && l[5] == CLFREE;
    }

    /** With the second FAT copy active, newcl32 started at cluster 130 of a table with 400 entries of
        which only number 300 is free finds nothing: it lies in neither of the two sectors searched. */
    lemma FindsNothingHere(l: Links)
      requires Geometry() && ftype == Fat32 && prim != 0 && secsize == 512 && maxcl == 400
      requires l == seq(401, c => if c < MINCL then CLILLEGAL else if c == 300 then CLFREE else CLLAST)
      ensures l[300] == CLFREE && Finds(l, 130, EACCES)
    {
    }

    /** What every allocation function does. */
    twostate predicate Allocates(hint: int, r: int)
      requires Geometry() && ValidCluster(hint)
      reads this, fat
    {
      Finds(Links(), hint, r) && lastcl == if r > 0 then r else old(lastcl)
    }

    // -------------------------------------------------------------- how many clusters can be had

    /** The free ones among the first hi clusters that a search from hint looks at. */
    ghost function SeenFree(l: Links, hint: int, hi: nat): nat
      requires Geometry() && ValidCluster(hint) && |l| == maxcl + 1 && hi <= maxcl + 1
    {
      if hi == 0 then 0
      else SeenFree(l, hint, hi - 1) + if Searched(hint, hi - 1) && l[hi - 1] == CLFREE then 1 else 0
    }

    lemma {:induction false} SeenFreeNone(l: Links, hint: int, hi: nat)
      requires Geometry() && ValidCluster(hint) && |l| == maxcl + 1 && hi <= maxcl + 1
      ensures SeenFree(l, hint, hi) == 0 <==> forall c :: 0 <= c < hi && Searched(hint, c) ==> l[c] != CLFREE
    {
      hide Geometry, Searched;
      if hi > 0 {
        SeenFreeNone(l, hint, hi - 1);
      }
    }

    /** A search that looks at all clusters sees all free ones. */
    lemma {:induction false} SeenFreeAll(l: Links, hint: int, hi: nat)
      requires Geometry() && ValidCluster(hint) && |l| == maxcl + 1 && hi <= Top() && ftype != Fat12
      requires forall c :: MINCL <= c < maxcl ==> Searched(hint, c)
      ensures SeenFree(l, hint, hi) == FreeCount(l, MINCL, hi)
    {
      if hi > 0 {
        SeenFreeAll(l, hint, hi - 1);
      }
    }

    /** The free clusters that the searches of a growing chain will hand out, the next one from hint
        on, the others each from the one before on. */
    ghost function Room(l: Links, hint: int): nat
      requires Geometry() && ValidCluster(hint) && |l| == maxcl + 1
    {
      if ftype != Fat12 then SeenFree(l, hint, maxcl + 1)
      else if exists c :: c != hint && Searched(hint, c) && l[c] == CLFREE then FreeCount(l, MINCL, Top())
      else if l[hint] == CLFREE then 1 else 0
    }

    /** All free clusters can be had: of 16 bits, and of the first copy of a FAT32, always; of 12 bits
        unless all that are free are the hint's cluster and the one in front of it. */
    lemma RoomIsFree(l: Links, hint: int)
      requires Geometry() && ValidCluster(hint) && |l| == maxcl + 1
      ensures ftype == Fat16 || (ftype == Fat32 && prim == 0) ==> Room(l, hint) == FreeCount(l, MINCL, Top())
      ensures ftype == Fat12 && l[maxcl] != CLFREE ==>
        (Room(l, hint) == FreeCount(l, MINCL, Top()) <==>
           || hint == MINCL || l[hint - 1] != CLFREE
           || exists c :: MINCL <= c < maxcl && c != hint && c != hint - 1 && l[c] == CLFREE)
    {
      if ftype != Fat12 {
        if ftype == Fat16 || prim == 0 {
          SeenFreeAll(l, hint, maxcl);
        }
      } else if l[maxcl] != CLFREE && forall c :: c != hint && Searched(hint, c) ==> l[c] != CLFREE {
        RoomOfFew(l, hint);
      }
    }

    lemma RoomOfFew(l: Links, hint: int)
      requires Geometry() && ftype == Fat12 && ValidCluster(hint) && |l| == maxcl + 1 && l[maxcl] != CLFREE
      requires forall c :: c != hint && Searched(hint, c) ==> l[c] != CLFREE
      ensures FreeCount(l, MINCL, Top()) ==
        (if l[hint] == CLFREE then 1 else 0) + if hint > MINCL && l[hint - 1] == CLFREE then 1 else 0
    {
      FreeCountSplit(l, MINCL, hint, Top());
      FreeCountSplit(l, hint, hint + 1, Top());
      FreeCountBound(l, hint + 1, Top());
      if hint > MINCL {
        FreeCountBound(l, MINCL, hint - 1);
      }
    }

    /** The search finds a cluster exactly if there is room. */
    lemma RoomFound(l: Links, hint: int, r: int)
      requires Geometry() && ValidCluster(hint) && |l| == maxcl + 1 && Finds(l, hint, r)
      ensures r > 0 <==> Room(l, hint) > 0
    {
      SeenFreeNone(l, hint, maxcl + 1);
      FreeCountBound(l, MINCL, Top());
    }

    /** While clusters are free from the hint to MAXCL-1, a 12-bit search finds the first of these. */
    lemma FoundBelow(l: Links, hint: int, r: int)
      requires Geometry() && ftype == Fat12 && ValidCluster(hint) && |l| == maxcl + 1 && Finds(l, hint, r)
      requires FreeCount(l, hint, maxcl) > 0
      ensures hint <= r < maxcl && FreeCount(l, r, maxcl) == FreeCount(l, hint, maxcl)
    {
      FreeCountBound(l, hint, maxcl);
      var c :| hint <= c < maxcl && l[c] == CLFREE;
      assert Searched(hint, c) && (r < hint || r == maxcl ==> Before(hint, c, r));
      forall i | hint <= i < r
        ensures l[i] != CLFREE
      {
        assert Searched(hint, i) && Before(hint, i, r);
      }
      FreeCountBound(l, hint, r);
      FreeCountSplit(l, hint, r, maxcl);
    }

    /** When none of them is left and the entry MAXCL is free, it finds MAXCL, or from cluster 2 nothing. */
    lemma FoundBehind(l: Links, hint: int, r: int)
      requires Geometry() && ftype == Fat12 && ValidCluster(hint) && |l| == maxcl + 1 && Finds(l, hint, r)
      requires l[maxcl] == CLFREE && FreeCount(l, hint, maxcl) == 0
      ensures r == if hint == MINCL then EACCES else maxcl
    {
      FreeCountBound(l, hint, maxcl);
      FindsMaxcl(l, hint, r);
    }

    /** Once the cluster found is taken, the next search has room for one less. */
    lemma RoomStep(l: Links, hint: int, r: int, l': Links)
      requires Geometry() && ValidCluster(hint) && |l| == |l'| == maxcl + 1 && Finds(l, hint, r) && r > 0
      requires ftype == Fat12 ==> l[maxcl] != CLFREE
      requires l'[r] != CLFREE && forall c :: ValidCluster(c) && c != r ==> (l'[c] == CLFREE <==> l[c] == CLFREE)
      requires FreeCount(l', MINCL, Top()) == FreeCount(l, MINCL, Top()) - 1
      ensures Room(l', r) == Room(l, hint) - 1
    {
      if ftype == Fat12 {
        RoomStep12(l, hint, r, l');
      } else {
        SeenNext(l, hint, r, l');
        SeenFreeLess(l, hint, r, l', maxcl + 1);
      }
    }

    /** The sectors that a search from hint looks at, as ranges. */
    lemma SearchedIs(hint: int, q: nat, c: int)
      requires Geometry() && ftype != Fat12 && ValidCluster(hint)
      requires Times(q, PerSector()) <= hint < Times(q, PerSector()) + PerSector()
      ensures Searched(hint, c) <==>
        && MINCL <= c < maxcl
        && (ftype == Fat16 || prim == 0 || hint <= c < Times(q, PerSector()) + PerSector() || c < PerSector())
    {
      hide Times;
      CopyHoldsAll();
      QuotientIs(q, hint, PerSector());
      if 0 <= c {
        QuotientIs(q, c, PerSector());
      }
    }

    lemma SectorAt(c: nat) returns (q: nat)
      requires 0 < PerSector()
      ensures Times(q, PerSector()) <= c < Times(q, PerSector()) + PerSector()
      ensures c < PerSector() ==> q == 0 && Times(q, PerSector()) == 0
    {
      q := c / PerSector();
      QuotientIs(q, c, PerSector());
      QuotientIs(0, c, PerSector());
    }

    /** What a search from the cluster found sees is what the search that found it saw. */
    lemma SeenNext(l: Links, hint: int, r: int, l': Links)
      requires Geometry() && ftype != Fat12 && ValidCluster(hint) && |l| == |l'| == maxcl + 1 && Finds(l, hint, r)
        && r > 0
      requires l'[r] != CLFREE && forall c :: ValidCluster(c) && c != r ==> (l'[c] == CLFREE <==> l[c] == CLFREE)
      ensures forall c :: ValidCluster(c) && c != r ==>
        (Searched(r, c) && l'[c] == CLFREE <==> Searched(hint, c) && l[c] == CLFREE)
    {
      hide Times, Searched;
      CopyHoldsAll();
      var q := SectorAt(hint);
      SearchedIs(hint, q, r);
      var p := q;
      if r < hint || Times(q, PerSector()) + PerSector() <= r {
        p := SectorAt(r);
      }
      forall c | ValidCluster(c) && c != r
        ensures Searched(r, c) && l'[c] == CLFREE <==> Searched(hint, c) && l[c] == CLFREE
      {
        SearchedIs(hint, q, c);
        SearchedIs(r, p, c);
        assert Before(hint, c, r) || Before(hint, r, c);
      }
    }

    lemma {:induction false} SeenFreeLess(l: Links, hint: int, r: int, l': Links, hi: nat)
      requires Geometry() && ValidCluster(hint) && ValidCluster(r) && |l| == |l'| == maxcl + 1 && hi <= maxcl + 1
      requires Searched(hint, r) && l[r] == CLFREE && l'[r] != CLFREE
      requires forall c :: ValidCluster(c) && c != r ==>
        (Searched(r, c) && l'[c] == CLFREE <==> Searched(hint, c) && l[c] == CLFREE)
      ensures SeenFree(l', r, hi) == SeenFree(l, hint, hi) - if r < hi then 1 else 0
    {
      if hi > 0 {
        SeenFreeLess(l, hint, r, l', hi - 1);
      }
    }

    lemma RoomStep12(l: Links, hint: int, r: int, l': Links)
      requires Geometry() && ftype == Fat12 && ValidCluster(hint) && |l| == |l'| == maxcl + 1 && Finds(l, hint, r)
        && r > 0
      requires l[maxcl] != CLFREE
      requires l'[r] != CLFREE && forall c :: ValidCluster(c) && c != r ==> (l'[c] == CLFREE <==> l[c] == CLFREE)
      requires FreeCount(l', MINCL, Top()) == FreeCount(l, MINCL, Top()) - 1
      ensures Room(l', r) == Room(l, hint) - 1
    {
      if r != hint {
        assert Before(hint, hint, r);
        forall c | ValidCluster(c) && c != r && l'[c] == CLFREE
          ensures Searched(r, c)
        {
          assert c == r - 1 ==> Before(hint, c, r);
        }
        FreeCountBound(l', MINCL, Top());
      }
    }

    method NewCl12(cluster0: int) returns (r: int)
      requires Valid() && ftype == Fat12 && (cluster0 == 0 || ValidCluster(cluster0))
      modifies this`lastcl
      ensures Valid() && Allocates(if cluster0 == 0 then old(lastcl) else cluster0, r)
      ensures r == maxcl <==>
        var hint := if cluster0 == 0 then old(lastcl) else cluster0;
        Links()[maxcl] == CLFREE && hint != MINCL && forall c :: hint <= c < maxcl ==> Links()[c] != CLFREE
    {
      hide Times, Links;
      var cluster := if cluster0 == 0 then lastcl else cluster0;
      ghost var hint := cluster;
      ghost var wrapped := false;
      var i := 2;
      while i < maxcl
        invariant 2 <= i <= maxcl
        invariant lastcl == old(lastcl)
        invariant !wrapped ==> cluster == hint + i - 2 && cluster <= maxcl + 1
        invariant wrapped ==> cluster == hint + i - 2 - maxcl + 1 && MINCL <= cluster < hint
        invariant forall c :: hint <= c <= maxcl && (wrapped || c < cluster) ==> Links()[c] != CLFREE
        invariant wrapped ==> forall c :: MINCL <= c < cluster ==> Links()[c] != CLFREE
      {
        if cluster < MINCL || cluster > maxcl {
          cluster := 2;
          wrapped := true;
        }
        var v := GetCl12(cluster, 1);
        assert v == Links()[cluster];
        if v != CLFREE {
          cluster := cluster + 1;
        } else {
          lastcl := cluster;
          return cluster;
        }
        i := i + 1;
      }
      return EACCES;
    }

    /** Entry i of the unit that holds the sector, for the free test on the stored bytes. */
    method EntryIsFree(ghost c: nat, a: nat) returns (free: bool)
      requires Geometry() && ftype != Fat12 && MINCL <= c <= maxcl && a == CopyAt(prim) + EntryAt(c)
      ensures free <==> Links()[c] == CLFREE
    {
      CopyBounds(prim);
      assert EntryEnd(ftype, c) <= copyLen;
      if ftype == Fat16 {
        PeekIsWord(prim, 2 * c);
        free := PeekWord(a) == 0;
      } else {
        RawFree32Means(Copy(prim), c);
        free := fat[a] == 0 && fat[a + 1] == 0 && fat[a + 2] == 0 && fat[a + 3] % 0x10 == 0;
      }
    }

    /** q sectors into the copy, `cluster` is the first one of the sector, or all are behind. */
    ghost predicate AtSector(q: nat, cluster: int, entrys: int)
      requires Geometry()
    {
      || (cluster == Times(q, PerSector()) && entrys == PerSector() && cluster <= maxcl)
      || (cluster == maxcl && 0 <= entrys && maxcl <= Times(q, PerSector()))
    }

    lemma TopIs()
      requires Geometry()
      ensures MINCL < maxcl
    {
    }

    lemma CopyHoldsAll()
      requires Geometry() && ftype != Fat12
      ensures maxcl < Times(flen, PerSector()) && 100 < PerSector()
    {
      hide Times;
      var e := PerSector();
      if ftype == Fat32 {
        assert secsize == 4 * e;
      } else {
        assert secsize == 2 * e;
      }
      EntriesInCopy(flen, e, maxcl);
    }

    /** The inner loop of newcl16 and newcl32 over one sector. */
    method ScanSector(ghost q: nat, sector: nat, cluster: nat, entrys: nat, i0: nat) returns (i: nat)
      requires Geometry() && ftype != Fat12 && sector == currentFat + q
      requires i0 <= entrys && cluster + entrys <= maxcl && MINCL <= cluster + i0
      requires entrys == 0 || cluster == Times(q, PerSector())
      ensures i0 <= i <= entrys
      ensures forall c :: cluster + i0 <= c < cluster + i ==> Links()[c] != CLFREE
      ensures i < entrys ==> Links()[cluster + i] == CLFREE
    {
      i := i0;
      while i < entrys
        invariant i0 <= i <= entrys
        invariant forall c :: cluster + i0 <= c < cluster + i ==> Links()[c] != CLFREE
      {
        var free := SectorEntryIsFree(q, sector, cluster + i, i);
        if free {
          return;
        }
        i := i + 1;
      }
    }

    ghost predicate NoneFree(l: Links, lo: int, hi: int)
      requires |l| == maxcl + 1
    {
      forall c :: MINCL <= c < maxcl && lo <= c < hi ==> l[c] != CLFREE
    }

    /** One sector of the search: cut the entry count at the end of the FAT, scan, move on. */
    method SearchSector(ghost q: nat, sector: nat, cluster0: nat, entrys0: int, i0: nat)
      returns (found: bool, cluster: nat, entrys: int)
      requires Geometry() && ftype != Fat12 && sector == currentFat + q
      requires AtSector(q, cluster0, entrys0) && MINCL <= cluster0 + i0 <= maxcl && i0 <= PerSector()
      ensures cluster0 + i0 <= cluster && (found ==> MINCL <= cluster < maxcl && Links()[cluster] == CLFREE)
      ensures found ==> cluster0 == Times(q, PerSector()) && cluster < cluster0 + PerSector()
      ensures NoneFree(Links(), cluster0 + i0, cluster) && (!found ==> AtSector(q + 1, cluster, entrys))
    {
      hide Links, Times, Geometry;
      CopyHoldsAll();
      TopIs();
      TimesStep(q, PerSector());
      entrys := entrys0;
      if cluster0 + entrys > maxcl {
        entrys := maxcl - cluster0;
      }
      var i := i0;
      if i < entrys {
        i := ScanSector(q, sector, cluster0, entrys, i0);
      }
      found := i < entrys;
      cluster := cluster0 + if found then i else entrys;
    }

    /** What the search has seen with todo sectors to go, in its lap-th pass over the FAT. The
        start sector is q0; in a copy other than the first every sector ends a pass. */
    ghost predicate Swept(l: Links, hint: nat, q0: nat, q: nat, lap: nat, todo: int, seen: int)
      requires Geometry() && |l| == maxcl + 1
    {
      if prim == 0 then
        && (lap == 0 ==> todo == flen + 1 - (q - q0) && hint <= seen && NoneFree(l, hint, seen))
        && (lap == 1 ==> todo == 1 + q0 - q && NoneFree(l, hint, maxcl) && NoneFree(l, MINCL, seen))
        && (lap >= 2 ==> todo == 0 && NoneFree(l, MINCL, maxcl))
      else
        && todo + lap == flen + 1
        && (lap == 0 ==> q == q0 && seen == hint)
        && (lap >= 1 ==> q == 0 && seen == MINCL && NoneFree(l, hint, Times(q0 + 1, PerSector())))
        && (lap >= 2 ==> NoneFree(l, MINCL, PerSector()))
    }

    lemma SweptNone(l: Links, hint: nat, q0: nat, seen: int)
      requires Geometry() && |l| == maxcl + 1 && seen == hint
      ensures Swept(l, hint, q0, q0, 0, flen + 1, seen)
    {
    }

    lemma FoundFirst(l: Links, hint: nat, q0: nat, q: nat, lap: nat, todo: int, seen: int, cluster: int)
      requires Geometry() && ftype != Fat12 && |l| == maxcl + 1 && ValidCluster(hint) && q0 == hint / PerSector()
      requires Swept(l, hint, q0, q, lap, todo, seen) && 0 < todo && seen <= cluster && NoneFree(l, seen, cluster)
      requires MINCL <= cluster < maxcl && l[cluster] == CLFREE
      requires Times(q, PerSector()) <= cluster < Times(q, PerSector()) + PerSector()
      ensures Finds(l, hint, cluster)
    {
      CopyHoldsAll();
      QuotientIs(q, cluster, PerSector());
      forall c | Searched(hint, c) && Before(hint, c, cluster)
        ensures l[c] != CLFREE
      {
        SectorOf(hint, q0, c);
      }
    }

    lemma SectorOf(hint: nat, q: nat, c: nat)
      requires 0 < PerSector() && q == hint / PerSector()
      ensures c / PerSector() == q ==> c < Times(q + 1, PerSector())
      ensures hint < PerSector() ==> q == 0 && Times(q + 1, PerSector()) == PerSector()
    {
      TimesOne(1, PerSector());
      QuotientIs(q, c, PerSector());
      QuotientIs(0, hint, PerSector());
    }

    lemma SweptMore(l: Links, hint: nat, q0: nat, q: nat, lap: nat, todo: int, seen: int, cluster: int, entrys: int)
      requires Geometry() && ftype != Fat12 && |l| == maxcl + 1 && hint <= maxcl && q < flen && q0 < flen && 0 < todo
      requires Swept(l, hint, q0, q, lap, todo, seen) && seen <= maxcl
      requires seen <= cluster && NoneFree(l, seen, cluster) && AtSector(q + 1, cluster, entrys)
      ensures if prim > 0 || q + 1 == flen
        then Swept(l, hint, q0, 0, lap + 1, todo - 1, MINCL)
        else Swept(l, hint, q0, q + 1, lap, todo - 1, cluster)
    {
      CopyHoldsAll();
    }

    lemma SweptAll(l: Links, hint: nat, q0: nat, q: nat, lap: nat, cluster: int, entrys: int)
      requires Geometry() && ftype != Fat12 && |l| == maxcl + 1 && ValidCluster(hint)
      requires q0 == hint / PerSector() && q < flen && q0 < flen
      requires AtSector(q, cluster, entrys) && Swept(l, hint, q0, q, lap, 0, if q == 0 then MINCL else cluster)
      ensures forall c :: Searched(hint, c) ==> l[c] != CLFREE
    {
      CopyHoldsAll();
      QuotientIs(q0, hint, PerSector());
      forall c | Searched(hint, c)
        ensures l[c] != CLFREE
      {
        QuotientIs(q0, c, PerSector());
      }
    }

    method SearchStart(hint: nat) returns (q0: nat, i: nat, sector: nat, cluster: nat)
      requires Geometry() && ftype != Fat12 && ValidCluster(hint)
      ensures q0 == hint / PerSector() && q0 < flen && sector == currentFat + q0
      ensures AtSector(q0, cluster, PerSector()) && cluster + i == hint && i <= PerSector()
    {
      CopyHoldsAll();
      q0, i := DivMod(hint, PerSector());
      sector := currentFat + q0;
      cluster := hint - i;
      if flen <= q0 {
        TimesMono(flen, q0, PerSector());
      }
    }

    /** The step to the next sector, back to the first one behind the end of the first copy. */
    method NextSector(ghost q0: nat, sector0: nat, cluster0: nat, entrys0: int)
      returns (ghost q: nat, sector: nat, cluster: nat, entrys: int, i: nat)
      requires Geometry() && ftype != Fat12 && sector0 == currentFat + q0 && q0 < flen
      requires AtSector(q0 + 1, cluster0, entrys0)
      ensures q == if prim > 0 || q0 + 1 == flen then 0 else q0 + 1
      ensures q < flen && sector == currentFat + q && AtSector(q, cluster, entrys) && cluster <= maxcl
      ensures q == 0 ==> cluster == 0 && i == 2
      ensures q != 0 ==> cluster == cluster0 && i == 0
    {
      if prim > 0 {
        TimesMono(1, prim, flen);
      }
      q, sector, cluster, entrys, i := q0 + 1, sector0 + 1, cluster0, entrys0, 0;
      if sector >= fstart + flen {
        cluster := 0;
        entrys := PerSector();
        sector := currentFat;
        i := 2;
        q := 0;
      }
    }

    /** newcl16 and newcl32: every sector once, the hint's sector twice, unless the active copy is
        not the first; then the end of the FAT is seen behind every sector. */
    method NewClWide(cluster0: int) returns (r: int)
      requires Valid() && ftype != Fat12 && (cluster0 == 0 || ValidCluster(cluster0))
      modifies this`lastcl
      ensures Valid() && Allocates(if cluster0 == 0 then old(lastcl) else cluster0, r)
    {
      hide Times, Geometry, Swept, Copy, Searched, NoneFree, Before;
      var entrys := PerSector();
      var todo := flen + 1;
      var hint: nat := if cluster0 == 0 then lastcl else cluster0;
      var q0: nat, i: nat, sector: nat, cluster: nat := SearchStart(hint);
      ghost var l := Links();
      ghost var q: nat, lap: nat := q0, 0;
      SweptNone(l, hint, q0, cluster + i);
      while todo > 0
        invariant 0 <= todo && sector == currentFat + q && q < flen && lastcl == old(lastcl)
        invariant AtSector(q, cluster, entrys) && MINCL <= cluster + i <= maxcl && i <= PerSector()
        invariant Swept(l, hint, q0, q, lap, todo, cluster + i)
        invariant todo == flen + 1 || cluster + i == if q == 0 then MINCL else cluster
      {
        var found;
        ghost var seen := cluster + i;
        found, cluster, entrys := SearchSector(q, sector, cluster, entrys, i);
        if found {
          lastcl := cluster;
          FoundFirst(l, hint, q0, q, lap, todo, seen, cluster);
          return cluster;
        }
        SweptMore(l, hint, q0, q, lap, todo, seen, cluster, entrys);
        SeenPastMin(q, cluster, entrys);
        q, sector, cluster, entrys, i := NextSector(q, sector, cluster, entrys);
        lap := if q == 0 then lap + 1 else lap;
        todo := todo - 1;
      }
      SweptAll(l, hint, q0, q, lap, cluster, entrys);
      return EACCES;
    }

    lemma SeenPastMin(q: nat, cluster: int, entrys: int)
      requires Geometry() && ftype != Fat12 && AtSector(q + 1, cluster, entrys)
      ensures MINCL <= cluster && 2 <= PerSector()
    {
      CopyHoldsAll();
      TimesMono(1, q + 1, PerSector());
      TimesOne(1, PerSector());
    }

    /** NEWCL */
    method NewCl(cluster: int) returns (r: int)
      requires Valid() && (cluster == 0 || ValidCluster(cluster))
      modifies this`lastcl
      ensures Valid() && Allocates(if cluster == 0 then old(lastcl) else cluster, r)
    {
      match ftype {
        case Fat12 => r := NewCl12(cluster);
        case Fat16 | Fat32 => r := NewClWide(cluster);
      }
    }

    // -------------------------------------------------------------- ffree

    /** ffree12 */
    method FFree12() returns (count: nat)
      requires Geometry() && ftype == Fat12
      ensures count == FreeCount(Links(), MINCL, Top())
    {
      count := 0;
      var i := 2;
      while i <= maxcl
        invariant 2 <= i <= maxcl + 1 && count == FreeCount(Links(), MINCL, i)
      {
        var v := GetCl12(i, 1);
        assert v == Links()[i];
        if v == CLFREE {
          count := count + 1;
        }
        i := i + 1;
      }
    }

    /** The inner loop of ffree16 and ffree32 over one sector. */
    method CountSector(ghost q: nat, sector: nat, cluster: nat, entrys: nat) returns (count: nat)
      requires Geometry() && ftype != Fat12 && sector == currentFat + q
      requires cluster + entrys <= maxcl && (cluster == 0 ==> 2 <= entrys) && cluster != 1
      requires entrys == 0 || cluster == Times(q, PerSector())
      ensures count == FreeCount(Links(), Max(cluster, MINCL), cluster + entrys)
    {
      hide Links, Times, Geometry;
      ghost var l := Links();
      count := 0;
      var i := if cluster == 0 then 2 else 0;
      while i < entrys
        invariant i <= entrys && MINCL <= cluster + i
        invariant count == FreeCount(l, Max(cluster, MINCL), cluster + i)
      {
        var free := SectorEntryIsFree(q, sector, cluster + i, i);
        if free {
          count := count + 1;
        }
        i := i + 1;
      }
    }

    method SectorEntryIsFree(ghost q: nat, sector: nat, c: nat, i: nat) returns (free: bool)
      requires Geometry() && ftype != Fat12 && sector == currentFat + q
      requires ValidCluster(c) && c == Times(q, PerSector()) + i
      ensures free <==> Links()[c] == CLFREE
    {
      EntryInSector(q, i);
      free := EntryIsFree(c, UnitAt(sector) + EntryAt(i));
    }

    /** One sector of the count: cut the entry count at the end of the FAT, count, move on. */
    method CountStep(ghost q: nat, sector: nat, cluster0: nat, entrys0: int)
      returns (n: nat, cluster: nat, entrys: int)
      requires Geometry() && ftype != Fat12 && sector == currentFat + q
      requires AtSector(q, cluster0, entrys0) && (cluster0 == 0 ==> q == 0) && cluster0 != 1
      ensures AtSector(q + 1, cluster, entrys) && MINCL <= cluster <= maxcl && cluster0 <= cluster
      ensures n == FreeCount(Links(), Max(cluster0, MINCL), cluster)
    {
      hide FreeCount, Links, Times, Geometry;
      CopyHoldsAll();
      TopIs();
      TimesStep(q, PerSector());
      entrys := entrys0;
      if cluster0 + entrys > maxcl {
        entrys := maxcl - cluster0;
      }
      n := CountSector(q, sector, cluster0, entrys);
      cluster := cluster0 + entrys;
    }

    lemma CountNone(l: Links)
      requires MINCL <= |l|
      ensures FreeCount(l, MINCL, MINCL) == 0 && Times(0, PerSector()) == 0
    {
    }

    /** ffree16, and ffree32 when there is no memory to read the whole FAT at once. */
    method FFreeWide() returns (count: nat)
      requires Geometry() && ftype != Fat12
      ensures count == FreeCount(Links(), MINCL, Top())
    {
      hide FreeCount, Links, Times;
      ghost var l := Links();
      var entrys: int := PerSector();
      var sector, todo := currentFat, flen;
      var cluster: nat := 0;
      ghost var q: nat := 0;
      CopyHoldsAll();
      CountNone(l);
      count := 0;
      while todo > 0
        invariant 0 <= todo && q == flen - todo && sector == currentFat + q
        invariant AtSector(q, cluster, entrys) && (cluster == 0 ==> q == 0) && cluster != 1 && cluster <= maxcl
        invariant count == FreeCount(l, MINCL, Max(cluster, MINCL))
      {
        var n, cluster', entrys' := CountStep(q, sector, cluster, entrys);
        FreeCountSplit(l, MINCL, Max(cluster, MINCL), cluster');
        count := count + n;
        cluster, entrys := cluster', entrys';
        sector := sector + 1;
        q := q + 1;
        todo := todo - 1;
      }
    }

    /** ffree32 on a private copy of the whole FAT, counting down from MAXCL. */
    method FFree32Fast(mem: array<byte>) returns (count: nat)
      requires Geometry() && ftype == Fat32 && mem.Length == copyLen && mem[..] == Copy(prim)
      ensures count == FreeCount(Links(), MINCL, Top())
    {
      hide Times;
      ghost var l, s := Links(), Copy(prim);
      var value := 2;
      var i := maxcl;
      count := 0;
      while i > 2
        invariant 2 <= i <= maxcl && value == maxcl + 2 - i
        invariant count == FreeCount(l, MINCL, value)
      {
        RawFree32Means(s, value);
        assert l[value] == CLFREE <==> RawFree32(s, value);
        var o := 4 * value;
        assert mem[o] == s[o] && mem[o + 1] == s[o + 1] && mem[o + 2] == s[o + 2] && mem[o + 3] == s[o + 3];
        if mem[o] == 0 && mem[o + 1] == 0 && mem[o + 2] == 0 && mem[o + 3] % 0x10 == 0 {
          count := count + 1;
        }
        value := value + 1;
        i := i - 1;
      }
    }

    /** The linear read of the active copy into freshly allocated memory. */
    method ReadWholeFat() returns (mem: array<byte>)
      requires Geometry()
      ensures fresh(mem) && mem.Length == copyLen && mem[..] == Copy(prim)
    {
      CopyBounds(prim);
      mem := new byte[copyLen];
      forall k | 0 <= k < copyLen {
        mem[k] := fat[CopyAt(prim) + k];
      }
    }

    /** ffree: `roomy` tells whether the memory for a whole copy could be had. */
    method FFree(roomy: bool) returns (count: nat)
      requires Geometry()
      ensures count == FreeCount(Links(), MINCL, Top())
    {
      match ftype {
        case Fat12 => count := FFree12();
        case Fat16 => count := FFreeWide();
        case Fat32 =>
          if roomy {
            var mem := ReadWholeFat();
            count := FFree32Fast(mem);
          } else {
            count := FFreeWide();
          }
      }
    }

    /** DFREE: the counter is filled in when it is not known. */
    method DFree(roomy: bool) returns (free: int)
      requires Geometry()
      requires freecl >= 0 ==> freecl == FreeCount(Links(), MINCL, Top())
      modifies this`freecl
      ensures freecl == free == FreeCount(Links(), MINCL, Top())
    {
      if freecl < 0 {
        freecl := FFree(roomy);
      }
      free := freecl;
    }

    // -------------------------------------------------------------- nextcl and del_chain

    /** nextcl: the next cluster; at the end of the chain (or for cluster 0) a new one is linked. */
    method NextCl(cluster: int) returns (r: int)
      requires Valid()
      modifies this`lastcl, this`freecl, fat
      ensures Valid() && (old(Mirrored()) ==> Mirrored()) && Reserved() == old(Reserved())
      ensures cluster != 0 && Next(old(Links()), cluster) != CLLAST ==>
        r == Next(old(Links()), cluster) && Links() == old(Links()) && freecl == old(freecl) && lastcl == old(lastcl)
      ensures cluster == 0 || Next(old(Links()), cluster) == CLLAST ==>
        var hint := if cluster == 0 then old(lastcl) else cluster;
        && Finds(old(Links()), hint, r)
        && if r > 0
           then Links() == Linked(old(Links()), cluster, r) && freecl == Counted(old(freecl), -1) && lastcl == r
           else Links() == old(Links()) && freecl == old(freecl) && lastcl == old(lastcl)
    {
      hide Times, FreeCount, Finds, Mirrored, Reserved, Links;
      var content := CLLAST;
      if cluster != 0 {
        content := GetCl(cluster, 1);
      }
      if content == CLLAST {
        content := NewCl(cluster);
        if content > 0 {
          r := FixCl(content, CLLAST);
          if r != 0 {
            assert false;
          }
          if freecl >= 0 {
            freecl := freecl - 1;
          }
          if cluster != 0 {
            r := FixCl(cluster, content);
          }
        }
      }
      return content;
    }

    /** The step of del_chain: clear an entry in use and count it. */
    method FreeCluster(cluster: nat) returns (r: int)
      requires Geometry() && ValidCluster(cluster) && Links()[cluster] != CLFREE
      modifies this`freecl, fat
      ensures r == E_OK && Links() == old(Links())[cluster := CLFREE]
      ensures NonFree(Links()) == NonFree(old(Links())) - 1 && freecl == Counted(old(freecl), 1)
      ensures (old(Mirrored()) ==> Mirrored()) && Reserved() == old(Reserved())
    {
      FreeCountUpdate(Links(), cluster, CLFREE, 0, |Links()|);
      r := FixCl(cluster, CLFREE);
      if freecl >= 0 {
        freecl := freecl + 1;
      }
    }

    /** del_chain: works on every table, however corrupted, and frees what the links lead to. */
    method DelChain(cluster0: int) returns (r: int)
      requires Geometry()
      modifies this`freecl, fat
      ensures (Links(), r) == Deleted(old(Links()), cluster0)
      ensures freecl == Counted(old(freecl), NonFree(old(Links())) - NonFree(Links()))
      ensures (old(Mirrored()) ==> Mirrored()) && Reserved() == old(Reserved())
    {
      hide Times, Geometry, Mirrored, Reserved, Links;
      ghost var l := Links();
      var cluster := cluster0;
      var next := GetCl(cluster, 1);
      while next > 0
        invariant next == Next(Links(), cluster)
        invariant Deleted(Links(), cluster) == Deleted(l, cluster0)
        invariant NonFree(Links()) <= NonFree(l)
        invariant freecl == Counted(old(freecl), NonFree(l) - NonFree(Links()))
        invariant (old(Mirrored()) ==> Mirrored()) && Reserved() == old(Reserved())
        decreases NonFree(Links())
      {
        r := FreeCluster(cluster);
        cluster := next;
        next := GetCl(cluster, 1);
      }
      if next == CLLAST {
        r := FreeCluster(cluster);
        return r;
      }
      return EERROR;
    }
  }
}
