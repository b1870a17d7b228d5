/**
  How one copy of the FAT packs its entries into bytes (12, 16 or 32 bits each), and what a
  stored value means. All values are little endian; the upper four bits of a 32-bit entry are
  reserved and never part of the value.
 */
module FatEncoding {
  import opened Machine

  datatype FatType = Fat12 | Fat16 | Fat32

  // Meanings of an entry that is not the number of the next cluster.
  const CLFREE := 0
  const CLLAST := -1
  const CLBAD := -2
  const CLILLEGAL := -3

  const MINCL := 2

  /** One more than the largest value an entry can hold. */
  function EntryLimit(t: FatType): nat {
    match t
    case Fat12 => 0x1000
    case Fat16 => 0x1_0000
    case Fat32 => 0x1000_0000
  }

  /** Stored values from here on mean "bad cluster", and from 8 further on "last cluster". */
  function BadMark(t: FatType): nat {
    EntryLimit(t) - 0x10
  }

  /** The byte just behind the entry of a cluster. */
  function EntryEnd(t: FatType, cl: nat): nat {
    match t
    case Fat12 => cl * 3 / 2 + 2
    case Fat16 => 2 * cl + 2
    case Fat32 => 4 * cl + 4
  }

  function Word(s: seq<byte>, o: nat): (w: nat)
    requires o + 1 < |s|
    ensures w < 0x1_0000
  {
    s[o] as int + 0x100 * (s[o + 1] as int)
  }

  function Long(s: seq<byte>, o: nat): (w: nat)
    requires o + 3 < |s|
    ensures w < 0x1_0000_0000
  {
    Word(s, o) + 0x1_0000 * Word(s, o + 2)
  }

  /** The value stored for a cluster. */
  function Entry(t: FatType, s: seq<byte>, cl: nat): (v: nat)
    requires EntryEnd(t, cl) <= |s|
    ensures v < EntryLimit(t)
  {
    match t
    case Fat12 => if cl % 2 == 1 then Word(s, cl * 3 / 2) / 0x10 else Word(s, cl * 3 / 2) % 0x1000
    case Fat16 => Word(s, 2 * cl)
    case Fat32 => Long(s, 4 * cl) % 0x1000_0000
  }

  function PutWord(s: seq<byte>, o: nat, w: nat): (r: seq<byte>)
    requires o + 1 < |s| && w < 0x1_0000
    ensures |r| == |s|
  {
    s[o := w % 0x100][o + 1 := w / 0x100]
  }

  function PutLong(s: seq<byte>, o: nat, w: nat): (r: seq<byte>)
    requires o + 3 < |s| && w < 0x1_0000_0000
    ensures |r| == |s|
  {
    PutWord(PutWord(s, o, w % 0x1_0000), o + 2, w / 0x1_0000)
  }

  /** The long that fixcl32 stores: the reserved bits are masked in. */
  function Masked32(old32: nat, v: nat): (w: nat)
    requires old32 < 0x1_0000_0000 && v < 0x1000_0000
    ensures w < 0x1_0000_0000
  {
    old32 / 0x1000_0000 * 0x1000_0000 + v
  }

  /** The word that fixcl12 stores: the other half-entry sharing it is masked in. */
  function Packed12(old12: nat, cl: nat, v: nat): (w: nat)
    requires old12 < 0x1_0000 && v < 0x1000
    ensures w < 0x1_0000
  {
    if cl % 2 == 1 then old12 % 0x10 + v * 0x10 else old12 / 0x1000 * 0x1000 + v
  }

  /** A copy of the FAT with the entry of one cluster replaced and every other bit kept. */
  function Put(t: FatType, s: seq<byte>, cl: nat, v: nat): (r: seq<byte>)
    requires EntryEnd(t, cl) <= |s| && v < EntryLimit(t)
    ensures |r| == |s|
  {
    match t
    case Fat12 => PutWord(s, cl * 3 / 2, Packed12(Word(s, cl * 3 / 2), cl, v))
    case Fat16 => PutWord(s, 2 * cl, v)
    case Fat32 => PutLong(s, 4 * cl, Masked32(Long(s, 4 * cl), v))
  }

  lemma WordOfPut(s: seq<byte>, o: nat, w: nat)
    requires o + 1 < |s| && w < 0x1_0000
    ensures Word(PutWord(s, o, w), o) == w
  {
  }

  lemma Mod16(q: nat, r: nat)
    requires r < 0x10
    ensures (0x10 * q + r) / 0x10 == q && (0x10 * q + r) % 0x10 == r
  {
  }

  lemma Mod256(q: nat, r: nat)
    requires r < 0x100
    ensures (0x100 * q + r) / 0x100 == q && (0x100 * q + r) % 0x100 == r
  {
  }

  lemma Mod4096(q: nat, r: nat)
    requires r < 0x1000
    ensures (0x1000 * q + r) / 0x1000 == q && (0x1000 * q + r) % 0x1000 == r
  {
  }

  /** The half-entry that shares a byte with the stored one survives: an odd cluster has the upper
      twelve bits of its word. */
  lemma Packed12Odd(b0: byte, b1: byte, v: nat, w: nat)
    requires v < 0x1000 && w == (b0 as int + 0x100 * (b1 as int)) % 0x10 + v * 0x10
    ensures w / 0x10 == v && w % 0x100 % 0x10 == b0 as int % 0x10
  {
    var l, h, a, d := b0 as int % 0x10, b0 as int / 0x10, v / 0x10, v % 0x10;
    assert b0 as int + 0x100 * (b1 as int) == 0x10 * (h + 0x10 * (b1 as int)) + l;
    Mod16(h + 0x10 * (b1 as int), l);
    Mod16(v, l);
    assert w == 0x100 * a + (0x10 * d + l);
    Mod256(a, 0x10 * d + l);
    Mod16(d, l);
  }

  /** ... and an even one has the lower twelve. */
  lemma Packed12Even(b0: byte, b1: byte, v: nat, w: nat)
    requires v < 0x1000 && w == (b0 as int + 0x100 * (b1 as int)) / 0x1000 * 0x1000 + v
    ensures w % 0x1000 == v && w / 0x100 / 0x10 == b1 as int / 0x10
  {
    var l, h, a, d := b1 as int % 0x10, b1 as int / 0x10, v / 0x100, v % 0x100;
    assert b0 as int + 0x100 * (b1 as int) == 0x1000 * h + (b0 as int + 0x100 * l);
    Mod4096(h, b0 as int + 0x100 * l);
    Mod4096(h, v);
    assert w == 0x100 * (0x10 * h + a) + d;
    Mod256(0x10 * h + a, d);
    Mod16(h, a);
  }

  lemma Packed12Keeps(b0: byte, b1: byte, cl: nat, v: nat)
    requires v < 0x1000
    ensures var w := Packed12(b0 as int + 0x100 * (b1 as int), cl, v);
      && (cl % 2 == 1 ==> w / 0x10 == v && w % 0x100 % 0x10 == b0 as int % 0x10)
      && (cl % 2 == 0 ==> w % 0x1000 == v && w / 0x100 / 0x10 == b1 as int / 0x10)
  {
    var w := Packed12(b0 as int + 0x100 * (b1 as int), cl, v);
    if cl % 2 == 1 {
      Packed12Odd(b0, b1, v, w);
    } else {
      Packed12Even(b0, b1, v, w);
    }
  }

  /** In a 12-bit FAT, neighbours share a byte; all other entries share none. */
  lemma Put12Frame(s: seq<byte>, cl: nat, v: nat, c: nat)
    requires EntryEnd(Fat12, cl) <= |s| && EntryEnd(Fat12, c) <= |s| && v < 0x1000
    ensures Entry(Fat12, Put(Fat12, s, cl, v), c) == if c == cl then v else Entry(Fat12, s, c)
  {
    if c == cl {
      Put12Same(s, cl, v);
    } else if c + 1 == cl && cl % 2 == 1 {
      Put12Left(s, cl, v);
    } else if c == cl + 1 && cl % 2 == 0 {
      Put12Right(s, cl, v);
    } else {
      Put12Apart(s, cl, v, c);
    }
  }

  lemma Put12Same(s: seq<byte>, cl: nat, v: nat)
    requires EntryEnd(Fat12, cl) <= |s| && v < 0x1000
    ensures Entry(Fat12, Put(Fat12, s, cl, v), cl) == v
  {
    hide Packed12, PutWord;
    WordOfPut(s, cl * 3 / 2, Packed12(Word(s, cl * 3 / 2), cl, v));
    Packed12Keeps(s[cl * 3 / 2], s[cl * 3 / 2 + 1], cl, v);
  }

  lemma ThreeHalves(c: nat)
    ensures c * 3 / 2 == 3 * (c / 2) + c % 2
  {
  }

  lemma Put12Apart(s: seq<byte>, cl: nat, v: nat, c: nat)
    requires EntryEnd(Fat12, cl) <= |s| && EntryEnd(Fat12, c) <= |s| && v < 0x1000
    requires c != cl && !(c + 1 == cl && cl % 2 == 1) && !(c == cl + 1 && cl % 2 == 0)
    ensures Entry(Fat12, Put(Fat12, s, cl, v), c) == Entry(Fat12, s, c)
  {
    hide Packed12, PutWord, Word;
    ThreeHalves(cl);
    ThreeHalves(c);
    WordElsewhere(s, cl * 3 / 2, Packed12(Word(s, cl * 3 / 2), cl, v), c * 3 / 2);
  }

  lemma WordElsewhere(s: seq<byte>, o: nat, w: nat, o': nat)
    requires o + 1 < |s| && o' + 1 < |s| && w < 0x1_0000
    requires o + 1 < o' || o' + 1 < o
    ensures Word(PutWord(s, o, w), o') == Word(s, o')
  {
  }

  lemma Put12Left(s: seq<byte>, cl: nat, v: nat)
    requires EntryEnd(Fat12, cl) <= |s| && v < 0x1000 && cl % 2 == 1
    ensures Entry(Fat12, Put(Fat12, s, cl, v), cl - 1) == Entry(Fat12, s, cl - 1)
  {
    var k := cl / 2;
    assert cl * 3 / 2 == 3 * k + 1 && (cl - 1) * 3 / 2 == 3 * k && (cl - 1) % 2 == 0;
    SharedLow(s, 3 * k, cl, v);
  }

  lemma SharedLow(s: seq<byte>, o: nat, cl: nat, v: nat)
    requires o + 2 < |s| && v < 0x1000 && cl % 2 == 1
    ensures Word(PutWord(s, o + 1, Packed12(Word(s, o + 1), cl, v)), o) % 0x1000 == Word(s, o) % 0x1000
  {
    var w := Packed12(Word(s, o + 1), cl, v);
    Packed12Keeps(s[o + 1], s[o + 2], cl, v);
    HighNibble(s[o], s[o + 1]);
    HighNibble(s[o], w % 0x100);
    assert Word(PutWord(s, o + 1, w), o) == s[o] as int + 0x100 * (w % 0x100);
  }

  lemma Put12Right(s: seq<byte>, cl: nat, v: nat)
    requires EntryEnd(Fat12, cl + 1) <= |s| && v < 0x1000 && cl % 2 == 0
    ensures Entry(Fat12, Put(Fat12, s, cl, v), cl + 1) == Entry(Fat12, s, cl + 1)
  {
    var k := cl / 2;
    assert cl * 3 / 2 == 3 * k && (cl + 1) * 3 / 2 == 3 * k + 1 && (cl + 1) % 2 == 1;
    SharedHigh(s, 3 * k, cl, v);
  }

  lemma SharedHigh(s: seq<byte>, o: nat, cl: nat, v: nat)
    requires o + 2 < |s| && v < 0x1000 && cl % 2 == 0
    ensures Word(PutWord(s, o, Packed12(Word(s, o), cl, v)), o + 1) / 0x10 == Word(s, o + 1) / 0x10
  {
    var w := Packed12(Word(s, o), cl, v);
    Packed12Keeps(s[o], s[o + 1], cl, v);
    LowNibble(s[o + 1], s[o + 2]);
    LowNibble(w / 0x100, s[o + 2]);
    assert Word(PutWord(s, o, w), o + 1) == w / 0x100 + 0x100 * (s[o + 2] as int);
  }

  lemma HighNibble(b0: byte, b1: byte)
    ensures (b0 as int + 0x100 * (b1 as int)) % 0x1000 == b0 as int + 0x100 * (b1 as int % 0x10)
  {
  }

  lemma LowNibble(b0: byte, b1: byte)
    ensures (b0 as int + 0x100 * (b1 as int)) / 0x10 == b0 as int / 0x10 + 0x10 * (b1 as int)
  {
  }

  lemma LongOfPut(s: seq<byte>, o: nat, w: nat)
    requires o + 3 < |s| && w < 0x1_0000_0000
    ensures Long(PutLong(s, o, w), o) == w
  {
    var r := PutWord(s, o, w % 0x1_0000);
    WordOfPut(s, o, w % 0x1_0000);
    WordOfPut(r, o + 2, w / 0x1_0000);
    assert Word(PutLong(s, o, w), o) == Word(r, o);
  }

  lemma LongElsewhere(s: seq<byte>, o: nat, w: nat, o': nat)
    requires o + 3 < |s| && o' + 3 < |s| && w < 0x1_0000_0000
    requires o + 3 < o' || o' + 3 < o
    ensures Long(PutLong(s, o, w), o') == Long(s, o')
  {
  }

  lemma Put32Entry(s: seq<byte>, cl: nat, v: nat)
    requires EntryEnd(Fat32, cl) <= |s| && v < 0x1000_0000
    ensures Entry(Fat32, Put(Fat32, s, cl, v), cl) == v
    ensures Long(Put(Fat32, s, cl, v), 4 * cl) / 0x1000_0000 == Long(s, 4 * cl) / 0x1000_0000
  {
    hide Masked32, Long, PutLong;
    Masked32Parts(Long(s, 4 * cl), v);
    LongOfPut(s, 4 * cl, Masked32(Long(s, 4 * cl), v));
  }

  lemma Masked32Parts(old32: nat, v: nat)
    requires old32 < 0x1_0000_0000 && v < 0x1000_0000
    ensures Masked32(old32, v) % 0x1000_0000 == v && Masked32(old32, v) / 0x1000_0000 == old32 / 0x1000_0000
  {
  }

  /** Storing an entry stores it, and changes the entry of no other cluster. */
  lemma PutFrame(t: FatType, s: seq<byte>, cl: nat, v: nat, c: nat)
    requires EntryEnd(t, cl) <= |s| && EntryEnd(t, c) <= |s| && v < EntryLimit(t)
    ensures Entry(t, Put(t, s, cl, v), c) == if c == cl then v else Entry(t, s, c)
  {
    match t
    case Fat12 => Put12Frame(s, cl, v, c);
    case Fat16 => WordOfPut(s, 2 * cl, v);
    case Fat32 => Put32Entry(s, cl, v);
  }

  /** The test of newcl32 and ffree32 on the unswapped long: `(value & ~0xf0) == 0`. */
  predicate RawFree32(s: seq<byte>, cl: nat)
    requires EntryEnd(Fat32, cl) <= |s|
  {
    s[4 * cl] == 0 && s[4 * cl + 1] == 0 && s[4 * cl + 2] == 0 && s[4 * cl + 3] % 0x10 == 0
  }

  lemma RawFree32Means(s: seq<byte>, cl: nat)
    requires EntryEnd(Fat32, cl) <= |s|
    ensures RawFree32(s, cl) <==> Entry(Fat32, s, cl) == 0
  {
    var lo: int := Word(s, 4 * cl) + 0x1_0000 * (s[4 * cl + 2] as int);
    var hi: int := s[4 * cl + 3];
    assert Long(s, 4 * cl) == lo + 0x100_0000 * hi && lo < 0x100_0000;
    assert (lo + 0x100_0000 * hi) % 0x1000_0000 == lo + 0x100_0000 * (hi % 0x10);
  }

  /** What a stored value means on a volume whose clusters are numbered 2 to maxcl. */
  function Meaning(t: FatType, maxcl: nat, v: nat): int {
    if MINCL <= v <= maxcl then v
    else if v == 0 then CLFREE
    else if v >= BadMark(t) + 8 then CLLAST
    else if v >= BadMark(t) then CLBAD
    else CLILLEGAL
  }

  /** The value that is stored for a link: a cluster number or one of the negative meanings. */
  function Stored(t: FatType, next: int): int {
    if next == CLLAST then EntryLimit(t) - 1
    else if next == CLBAD then BadMark(t) + 7
    else next
  }

  /** What the entries of one copy mean; the two entries below MINCL belong to no cluster. */
  function Decode(t: FatType, maxcl: nat, s: seq<byte>): (l: seq<int>)
    requires EntryEnd(t, maxcl) <= |s|
    ensures |l| == maxcl + 1
  {
    seq(maxcl + 1, (c: nat) requires EntryEnd(t, c) <= |s| =>
      if c < MINCL then CLILLEGAL else Meaning(t, maxcl, Entry(t, s, c)))
  }

  predicate Storable(maxcl: nat, next: int) {
    next == CLFREE || next == CLLAST || next == CLBAD || MINCL <= next <= maxcl
  }

  /** Storing a link in the bytes replaces exactly that link in the decoded table. */
  lemma DecodeOfPut(t: FatType, maxcl: nat, s: seq<byte>, cl: nat, next: int)
    requires EntryEnd(t, maxcl) <= |s| && maxcl < BadMark(t)
    requires MINCL <= cl <= maxcl && Storable(maxcl, next)
    ensures 0 <= Stored(t, next) < EntryLimit(t)
    ensures Decode(t, maxcl, Put(t, s, cl, Stored(t, next))) == Decode(t, maxcl, s)[cl := next]
  {
    var v := Stored(t, next);
    var l := Decode(t, maxcl, Put(t, s, cl, v));
    forall c | 0 <= c <= maxcl
      ensures l[c] == Decode(t, maxcl, s)[cl := next][c]
    {
      PutFrame(t, s, cl, v, c);
    }
  }

  // ---------------------------------------------------------------- what the bytes of an entry say

  lemma Value12(s: seq<byte>, cl: nat)
    requires EntryEnd(Fat12, cl) <= |s|
    ensures cl % 2 == 0 ==> Entry(Fat12, s, cl) == s[cl / 2 * 3] as int + 0x100 * (s[cl / 2 * 3 + 1] as int % 0x10)
    ensures cl % 2 == 1 ==>
      Entry(Fat12, s, cl) == s[cl / 2 * 3 + 1] as int / 0x10 + 0x10 * (s[cl / 2 * 3 + 2] as int)
  {
    var k := cl / 2;
    if cl % 2 == 0 {
      assert cl * 3 / 2 == 3 * k;
      HighNibble(s[3 * k], s[3 * k + 1]);
    } else {
      assert cl * 3 / 2 == 3 * k + 1;
      LowNibble(s[3 * k + 1], s[3 * k + 2]);
    }
  }

  lemma Value32(s: seq<byte>, cl: nat)
    requires EntryEnd(Fat32, cl) <= |s|
    ensures Entry(Fat32, s, cl) == s[4 * cl] as int + 0x100 * (s[4 * cl + 1] as int)
      + 0x1_0000 * (s[4 * cl + 2] as int) + 0x100_0000 * (s[4 * cl + 3] as int % 0x10)
  {
    var lo: int := Word(s, 4 * cl) + 0x1_0000 * (s[4 * cl + 2] as int);
    var hi: int := s[4 * cl + 3];
    assert Long(s, 4 * cl) == lo + 0x100_0000 * hi && lo < 0x100_0000;
    assert (lo + 0x100_0000 * hi) % 0x1000_0000 == lo + 0x100_0000 * (hi % 0x10);
  }

  /** The link of a cluster on a 12-bit FAT, from its one and a half bytes. */
  lemma LinkBytes12(maxcl: nat, s: seq<byte>, cl: nat)
    requires EntryEnd(Fat12, maxcl) <= |s| && MINCL <= cl <= maxcl < 0xff0
    ensures var o, r := cl / 2 * 3, Decode(Fat12, maxcl, s)[cl];
      var w := if cl % 2 == 0 then s[o] as int + 0x100 * (s[o + 1] as int % 0x10)
               else s[o + 1] as int / 0x10 + 0x10 * (s[o + 2] as int);
      && (r == CLLAST <==> 0xff8 <= w) && (r == CLBAD <==> 0xff0 <= w <= 0xff7) && (r == CLFREE <==> w == 0)
      && (r == CLILLEGAL <==> w == 1 || maxcl < w < 0xff0) && (2 <= w <= maxcl ==> r == w)
  {
    Value12(s, cl);
  }

  /** ... on a 16-bit FAT. */
  lemma LinkBytes16(maxcl: nat, s: seq<byte>, cl: nat)
    requires EntryEnd(Fat16, maxcl) <= |s| && MINCL <= cl <= maxcl < 0xfff0
    ensures var w, r := s[2 * cl] as int + 0x100 * (s[2 * cl + 1] as int), Decode(Fat16, maxcl, s)[cl];
      && (r == CLLAST <==> 0xfff8 <= w) && (r == CLBAD <==> 0xfff0 <= w <= 0xfff7) && (r == CLFREE <==> w == 0)
      && (r == CLILLEGAL <==> w == 1 || maxcl < w < 0xfff0) && (2 <= w <= maxcl ==> r == w)
  {
  }

  /** ... on a 32-bit FAT, where the upper half of the fourth byte says nothing. */
  lemma LinkBytes32(maxcl: nat, s: seq<byte>, cl: nat)
    requires EntryEnd(Fat32, maxcl) <= |s| && MINCL <= cl <= maxcl < 0xfff_fff0
    ensures var r := Decode(Fat32, maxcl, s)[cl];
      var w := s[4 * cl] as int + 0x100 * (s[4 * cl + 1] as int) + 0x1_0000 * (s[4 * cl + 2] as int)
        + 0x100_0000 * (s[4 * cl + 3] as int % 0x10);
      && (r == CLLAST <==> 0xfff_fff8 <= w) && (r == CLBAD <==> 0xfff_fff0 <= w <= 0xfff_fff7)
      && (r == CLFREE <==> w == 0) && (r == CLILLEGAL <==> w == 1 || maxcl < w < 0xfff_fff0)
      && (2 <= w <= maxcl ==> r == w)
  {
    Value32(s, cl);
  }
}
