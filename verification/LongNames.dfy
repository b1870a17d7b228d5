/**
  Long file names: a name is stored in directory slots of thirteen characters, the last part first,
  in front of the entry with the short name that their checksum belongs to. Microsoft FAT32 File
  System Specification, section "FAT Long Directory Entries".
 */
module LongNames {
  import opened Machine

  const ENMFILES := -49
  const FA_VFAT: byte := 0x0f
  const PART := 13            // characters a slot
  const MAXSLOTS := 19        // what the kernel's name buffer holds

  type Entry = e: seq<byte> | |e| == 32 witness seq(32, _ => 0)

  /** ATARI2UNI and UNI2ATARI. */
  datatype Codec = Codec(toUni: byte -> (byte, byte), fromUni: ((byte, byte)) -> byte) {
    /** They are inverse, and the NUL character corresponds to 0x0000. */
    ghost predicate Valid() {
      (forall c :: fromUni(toUni(c)) == c) && toUni(0) == (0, 0)
    }
  }

  /** One step of the checksum: a rotation to the right and an addition. */
  function Turn(sum: byte, c: byte): byte {
    (sum % 2 * 0x80 + sum / 2 + c) % 0x100
  }

  function Checksum(s: seq<byte>): byte {
    if s == [] then 0 else Turn(Checksum(s[..|s| - 1]), s[|s| - 1])
  }

  /** The n lowest bits of a number, the lowest one first. */
  function Bits(x: nat, n: nat): (b: seq<nat>)
    ensures |b| == n
  {
    if n == 0 then [] else [x % 2] + Bits(x / 2, n - 1)
  }

  /** One character on, from the sum x to y: the bits move down, the lowest one comes on top, and the
      character is added without the carry. */
  ghost predicate Counted(x: byte, c: byte, y: byte) {
    exists z: byte :: Bits(z, 8) == Bits(x, 8)[1..] + Bits(x, 8)[..1] && (z as int + c as int) % 0x100 == y as int
  }

  /** The sum of the characters, by what happens at each of them. */
  ghost predicate SumOf(s: seq<byte>, sum: byte)
    decreases |s|
  {
    if s == [] then sum == 0
    else exists x: byte {:trigger Counted(x, s[|s| - 1], sum)} :: SumOf(s[..|s| - 1], x) && Counted(x, s[|s| - 1], sum)
  }

  /** Numbers below 2^n are told apart by n bits. */
  lemma {:induction false} BitsOnly(x: nat, y: nat, n: nat)
    requires x < Doubled(n) && y < Doubled(n) && Bits(x, n) == Bits(y, n)
    ensures x == y
  {
    if n > 0 {
      assert Bits(x, n)[1..] == Bits(x / 2, n - 1) && Bits(y, n)[1..] == Bits(y / 2, n - 1);
      BitsOnly(x / 2, y / 2, n - 1);
      assert Bits(x, n)[0] == Bits(y, n)[0];
    }
  }

  function Doubled(n: nat): nat {
    if n == 0 then 1 else 2 * Doubled(n - 1)
  }

  /** A bit on top of the others is the last one. */
  lemma {:induction false} BitsTop(x: nat, n: nat, b: nat)
    requires x < Doubled(n) && b < 2
    ensures Bits(x + b * Doubled(n), n + 1) == Bits(x, n) + [b]
  {
    var y := x + b * Doubled(n);
    if n > 0 {
      BitsTop(x / 2, n - 1, b);
      assert y / 2 == x / 2 + b * Doubled(n - 1) && y % 2 == x % 2;
    }
  }

  lemma BitsTurned(x: byte, z: byte)
    requires z == x % 2 * 0x80 + x / 2
    ensures Bits(z, 8) == Bits(x, 8)[1..] + Bits(x, 8)[..1]
  {
    assert Doubled(7) == 0x80;
    BitsTop(x as int / 2, 7, x as int % 2);
  }

  /** Turn makes the only rotation there is. */
  lemma TurnMeans(x: byte, c: byte, y: byte)
    ensures Counted(x, c, y) <==> y == Turn(x, c)
  {
    hide Bits;
    var z: byte := x % 2 * 0x80 + x / 2;
    BitsTurned(x, z);
    if Counted(x, c, y) {
      var z': byte :| Bits(z', 8) == Bits(x, 8)[1..] + Bits(x, 8)[..1] && (z' as int + c as int) % 0x100 == y as int;
      assert Doubled(8) == 0x100;
      BitsOnly(z as int, z' as int, 8);
    }
  }

  /** The loop computes that sum, which is the only one. */
  lemma {:induction false} SumMeans(s: seq<byte>, sum: byte)
    ensures SumOf(s, sum) <==> sum == Checksum(s)
    decreases |s|
  {
    hide Counted, Turn;
    if s != [] {
      var r, c := s[..|s| - 1], s[|s| - 1];
      TurnMeans(Checksum(r), c, sum);
      SumMeans(r, Checksum(r));
      forall x: byte | SumOf(r, x) {
        SumMeans(r, x);
      }
    }
  }

  lemma {:induction false} SumTrail(s: seq<byte>, t: seq<byte>)
    requires |t| == |s| + 1 && t[0] == 0 && forall i :: 0 <= i < |s| ==> t[i + 1] == Turn(t[i], s[i])
    ensures Checksum(s) == t[|s|]
    decreases |s|
  {
    hide Turn;
    if s != [] {
      var n := |s| - 1;
      SumTrail(s[..n], t[..n + 1]);
    }
  }

  /** "README  TXT" gives 0x73. */
  lemma SumOfReadme()
    ensures SumOf([0x52, 0x45, 0x41, 0x44, 0x4d, 0x45, 0x20, 0x20, 0x54, 0x58, 0x54], 0x73)
  {
    var s := [0x52, 0x45, 0x41, 0x44, 0x4d, 0x45, 0x20, 0x20, 0x54, 0x58, 0x54];
    SumTrail(s, [0x00, 0x52, 0x6e, 0x78, 0x80, 0x8d, 0x0b, 0xa5, 0xf2, 0xcd, 0x3e, 0x73]);
    SumMeans(s, 0x73);
  }

  lemma SumOfAB()
    ensures SumOf([0x41, 0x42, 0x20, 0x20, 0x20, 0x20, 0x20, 0x20, 0x20, 0x20, 0x20], 0x91)
  {
    var s := [0x41, 0x42, 0x20, 0x20, 0x20, 0x20, 0x20, 0x20, 0x20, 0x20, 0x20];
    SumTrail(s, [0x00, 0x41, 0xe2, 0x91, 0xe8, 0x94, 0x6a, 0x55, 0xca, 0x85, 0xe2, 0x91]);
    SumMeans(s, 0x91);
  }

  /** The order of the characters counts: "BA" has another sum than "AB". */
  lemma SumOfBA()
    ensures SumOf([0x42, 0x41, 0x20, 0x20, 0x20, 0x20, 0x20, 0x20, 0x20, 0x20, 0x20], 0x51)
  {
    var s := [0x42, 0x41, 0x20, 0x20, 0x20, 0x20, 0x20, 0x20, 0x20, 0x20, 0x20];
    SumTrail(s, [0x00, 0x42, 0x62, 0x51, 0xc8, 0x84, 0x62, 0x51, 0xc8, 0x84, 0x62, 0x51]);
    SumMeans(s, 0x51);
  }

  /** How many slots a name takes. */
  function Slots(len: nat): (n: nat)
    ensures PART * (n - 1) < len <= PART * n || (len == 0 && n == 0)
  {
    len / 13 + if len % 13 != 0 then 1 else 0
  }

  /** The j-th character of a name as it is stored: NUL behind its end, 0xffff behind that. */
  function Pad(cd: Codec, name: seq<byte>, j: nat): (byte, byte) {
    if j < |name| then cd.toUni(name[j]) else if j == |name| then (0, 0) else (0xff, 0xff)
  }

  /** The characters' bytes of a slot: name0_4, name5_10 and name11_12. */
  function Unicode(e: Entry): (u: seq<byte>)
    ensures |u| == 2 * PART
  {
    e[1..11] + e[14..26] + e[28..32]
  }

  function CharAt(u: seq<byte>, k: nat): (byte, byte)
    requires 2 * k + 1 < |u|
  {
    (u[2 * k], u[2 * k + 1])
  }

  /** The first m characters of u are those of the name from place `at` on. */
  ghost predicate Holds(cd: Codec, u: seq<byte>, name: seq<byte>, at: nat, m: nat)
    requires 2 * m <= |u|
  {
    forall k :: 0 <= k < m ==> CharAt(u, k) == Pad(cd, name, at + k)
  }

  lemma HoldsMore(cd: Codec, u: seq<byte>, u': seq<byte>, name: seq<byte>, at: nat, m: nat)
    requires 2 * m + 1 < |u| == |u'| && Holds(cd, u, name, at, m)
    requires forall j :: 0 <= j < 2 * m ==> u'[j] == u[j]
    requires (u'[2 * m], u'[2 * m + 1]) == Pad(cd, name, at + m)
    ensures Holds(cd, u', name, at, m + 1)
  {
    forall k | 0 <= k < m + 1
      ensures CharAt(u', k) == Pad(cd, name, at + k)
    {
      assert k < m ==> CharAt(u, k) == Pad(cd, name, at + k);
    }
  }

  /** u holds part p of the name. */
  ghost predicate HoldsPart(cd: Codec, u: seq<byte>, name: seq<byte>, p: nat)
    requires |u| == 2 * PART
  {
    Holds(cd, u, name, p * PART, PART)
  }

  /** Slot s of n for a name: numbered from the end, the first one marked. */
  ghost predicate IsSlot(cd: Codec, e: Entry, name: seq<byte>, n: nat, s: nat, sum: byte)
    requires s < n
  {
    && e[0] == (if s == 0 then n + 0x40 else n - s) && e[11] == 0x0f && e[12] == 0 && e[26] == e[27] == 0
    && e[13] == sum && HoldsPart(cd, Unicode(e), name, n - s - 1)
  }

  /** The name is stored from pos on, in front of its short entry. */
  ghost predicate Written(cd: Codec, dir: seq<Entry>, pos: nat, name: seq<byte>, short: seq<byte>) {
    var n := Slots(|name|);
    && pos + n < |dir| && |short| == 11 && dir[pos + n][..11] == short
    && forall s :: 0 <= s < n ==> SlotAt(cd, dir, pos, name, n, s, Checksum(short))
  }

  ghost predicate SlotAt(cd: Codec, dir: seq<Entry>, pos: nat, name: seq<byte>, n: nat, s: nat, sum: byte)
    requires s < n && pos + n < |dir|
  {
    IsSlot(cd, dir[pos + s], name, n, s, sum)
  }

  predicate Proper(name: seq<byte>) {
    0 < |name| <= PART * MAXSLOTS && forall j :: 0 <= j < |name| ==> name[j] != 0
  }

  // ---------------------------------------------------------------- writing

  /** copy_to_vfat for the slot whose number is in its head. */
  method CopyToVfat(cd: Codec, e0: Entry, name: seq<byte>) returns (e: Entry)
    requires Proper(name) && 1 <= e0[0] % 0x40 <= Slots(|name|)
    ensures HoldsPart(cd, Unicode(e), name, e0[0] % 0x40 - 1)
    ensures e[0] == e0[0] && e[11] == e0[11] && e[12] == e0[12] && e[13] == e0[13] && e[26] == e0[26] && e[27] == e0[27]
  {
    var slot := e0[0] % 0x40 - 1;
    var unicode := PartOf(cd, name, slot);
    e := e0[..1] + unicode[..10] + e0[11..14] + unicode[10..22] + e0[26..28] + unicode[22..];
    assert Unicode(e) == unicode;
  }

  /** The characters of one slot: as many as there are, a NUL if it fits, and 0xffff to the end. */
  method PartOf(cd: Codec, name: seq<byte>, slot: nat) returns (unicode: seq<byte>)
    requires Proper(name) && slot < Slots(|name|)
    ensures |unicode| == 2 * PART && HoldsPart(cd, unicode, name, slot)
  {
    hide Holds;
    var at := slot * PART;
    unicode := seq(26, _ => 0);
    HoldsNone(cd, unicode, name, at);
    var i := 0;
    ghost var m := 0;
    while at + i / 2 < |name| && i < 25
      invariant i == 2 * m && 0 <= m <= PART && at + m <= |name| && |unicode| == 26 && Holds(cd, unicode, name, at, m)
    {
      ghost var u0 := unicode;
      var u := cd.toUni(name[at + i / 2]);
      unicode := unicode[i := u.0][i + 1 := u.1];
      HoldsMore(cd, u0, unicode, name, at, m);
      i := i + 2;
      m := m + 1;
    }
    if i < 25 {
      ghost var u0 := unicode;
      unicode := unicode[i := 0][i + 1 := 0];
      HoldsMore(cd, u0, unicode, name, at, m);
      i := i + 2;
      m := m + 1;
      if i < 25 {
        while i < 26
          invariant 2 * m <= i <= 26 && |unicode| == 26 && at + m > |name|
          invariant i % 2 == 0 ==> i == 2 * m
          invariant i % 2 == 1 ==> i == 2 * m + 1 && unicode[2 * m] == 0xff
          invariant Holds(cd, unicode, name, at, m)
        {
          u0 := unicode;
          unicode := unicode[i := 0xff];
          HoldsSame(cd, u0, unicode, name, at, m);
          i := i + 1;
          if i % 2 == 0 {
            HoldsMore(cd, u0, unicode, name, at, m);
            m := m + 1;
          }
        }
      }
    }
  }

  lemma HoldsNone(cd: Codec, u: seq<byte>, name: seq<byte>, at: nat)
    ensures Holds(cd, u, name, at, 0)
  {
  }

  lemma HoldsSame(cd: Codec, u: seq<byte>, u': seq<byte>, name: seq<byte>, at: nat, m: nat)
    requires 2 * m <= |u| == |u'| && Holds(cd, u, name, at, m) && forall j :: 0 <= j < 2 * m ==> u'[j] == u[j]
    ensures Holds(cd, u', name, at, m)
  {
    forall k | 0 <= k < m
      ensures CharAt(u', k) == Pad(cd, name, at + k)
    {
      assert CharAt(u, k) == Pad(cd, name, at + k);
    }
  }

  /** The loop over the eleven characters of a short name. */
  method Sum(s: seq<byte>) returns (sum: byte)
    ensures sum == Checksum(s)
  {
    sum := 0;
    var i := 0;
    while i < |s|
      invariant 0 <= i <= |s| && sum == Checksum(s[..i])
    {
      assert s[..i + 1][..i] == s[..i];
      sum := Turn(sum, s[i]);
      i := i + 1;
    }
    assert s[..i] == s;
  }

  class Dir {
    const cd: Codec
    const info: array<Entry>
    var realIndex: int

    constructor (cd: Codec, info: array<Entry>)
      ensures this.cd == cd && this.info == info
    {
      this.cd, this.info, realIndex := cd, info, -1;
    }

    /** The slot number `slot` of a long name. */
    method WriteSlot(pos: nat, name: seq<byte>, slot: nat, n: nat, chksum: byte)
      requires Proper(name) && n == Slots(|name|) && slot < n && pos + n < info.Length
      modifies info
      ensures IsSlot(cd, info[pos + slot], name, n, slot, chksum)
      ensures forall i :: 0 <= i < info.Length && i != pos + slot ==> info[i] == old(info[i])
    {
      hide HoldsPart, Unicode;
      var number := n - slot;
      var head: byte := if slot == 0 then number + 0x40 else number;
      HeadNumber(number, head);
      var ldir := Filled(info[pos + slot], head, chksum);
      ldir := CopyToVfat(cd, ldir, name);
      info[pos + slot] := ldir;
    }

    lemma HeadNumber(number: nat, head: byte)
      requires 1 <= number <= MAXSLOTS && (head == number || head == number + 0x40)
      ensures head % 0x40 == number
    {
    }

    /** make_cookie, writing a long name from entry pos on, and the short entry behind it. */
    method WriteName(pos: nat, name: seq<byte>, short: seq<byte>, rest: seq<byte>)
      requires Proper(name) && |short| == 11 && |rest| == 21 && pos + Slots(|name|) < info.Length
      modifies info
      ensures Written(cd, info[..], pos, name, short)
      ensures forall i :: pos <= i < pos + Slots(|name|) ==> SumOf(short, info[i][13])
      ensures info[pos + Slots(|name|)] == short + rest
      ensures forall i :: 0 <= i < info.Length && !(pos <= i <= pos + Slots(|name|)) ==> info[i] == old(info[i])
    {
      hide IsSlot, Checksum, Slots, SumOf;
      var n := Slots(|name|);
      var chksum := Sum(short);
      SumMeans(short, chksum);
      var slot := 0;
      while slot < n
        invariant 0 <= slot <= n
        invariant forall s :: 0 <= s < slot ==> SlotAt(cd, info[..], pos, name, n, s, chksum)
        invariant forall i :: 0 <= i < info.Length && !(pos <= i < pos + slot) ==> info[i] == old(info[i])
      {
        ghost var d := info[..];
        WriteSlot(pos, name, slot, n, chksum);
        forall s | 0 <= s < slot + 1
          ensures SlotAt(cd, info[..], pos, name, n, s, chksum)
        {
          assert s < slot ==> SlotAt(cd, d, pos, name, n, s, chksum);
        }
        slot := slot + 1;
      }
      ghost var d := info[..];
      info[pos + n] := short + rest;
      forall s | 0 <= s < n
        ensures SlotAt(cd, info[..], pos, name, n, s, chksum)
      {
        assert SlotAt(cd, d, pos, name, n, s, chksum);
      }
      forall i | pos <= i < pos + n
        ensures info[i][13] == chksum
      {
        SlotSum(info[..], pos, name, n, i - pos, chksum);
      }
    }

    lemma SlotSum(d: seq<Entry>, pos: nat, name: seq<byte>, n: nat, s: nat, sum: byte)
      requires s < n && pos + n < |d| && SlotAt(cd, d, pos, name, n, s, sum)
      ensures d[pos + s][13] == sum
    {
    }

    /** The fields of a slot that do not belong to the name. */
    method Filled(e: Entry, head: byte, chksum: byte) returns (l: Entry)
      ensures l[0] == head && l[11] == FA_VFAT && l[12] == 0 && l[13] == chksum && l[26] == l[27] == 0
    {
      l := e[0 := head][11 := FA_VFAT][12 := 0][26 := 0][27 := 0][13 := chksum];
    }

    // -------------------------------------------------------------- reading

    /** __SEEKDIR for reading */
    method SeekDir(index: int) returns (r: int)
      modifies this`realIndex
      ensures if 0 <= index < info.Length then r == E_OK && realIndex == index
        else r == ENMFILES && realIndex == old(realIndex)
    {
      if index < 0 || index >= info.Length {
        return ENMFILES;
      }
      realIndex := index;
      return E_OK;
    }

    /** The characters from number `from` on are those of the name. */
    ghost predicate Got(u: seq<byte>, name: seq<byte>, from: nat, n: nat) {
      |u| == 2 * PART * MAXSLOTS && n <= MAXSLOTS
      && forall j :: from <= j < PART * n ==> CharAt(u, j) == Pad(cd, name, j)
    }

    /** The buffer with the characters of a slot in their place. */
    ghost function Placed(u: seq<byte>, slot: nat, e: Entry): (r: seq<byte>)
      requires |u| == 2 * PART * MAXSLOTS && slot < MAXSLOTS
      ensures |r| == |u|
    {
      u[..2 * PART * slot] + Unicode(e) + u[2 * PART * (slot + 1)..]
    }

    /** ldir2unicode */
    method LdirToUnicode(slot: nat, u0: seq<byte>, ldir: Entry) returns (u: seq<byte>)
      requires |u0| == 2 * PART * MAXSLOTS && slot < MAXSLOTS
      ensures u == Placed(u0, slot, ldir)
    {
      var offset := slot * 13 * 2;
      u := u0[..offset] + ldir[1..11] + ldir[14..26] + ldir[28..32] + u0[offset + 26..];
    }

    lemma GotMore(u0: seq<byte>, e: Entry, name: seq<byte>, slot: nat, n: nat)
      requires Got(u0, name, PART * (slot + 1), n) && slot < n && HoldsPart(cd, Unicode(e), name, slot)
      ensures Got(Placed(u0, slot, e), name, PART * slot, n)
    {
      hide Unicode;
      var u := Placed(u0, slot, e);
      forall j | PART * slot <= j < PART * n
        ensures CharAt(u, j) == Pad(cd, name, j)
      {
        if j < PART * (slot + 1) {
          var k := j - PART * slot;
          assert CharAt(Unicode(e), k) == Pad(cd, name, slot * PART + k);
        } else {
          assert CharAt(u0, j) == Pad(cd, name, j);
        }
      }
    }

    /** The slots at pos form one name, as far as number `slot`: their numbers count down and their
        checksums are the same. */
    ghost predicate Coherent(d: seq<Entry>, pos: nat, n: nat, slot: nat) {
      pos + n < |d| && forall s :: 1 <= s < n - slot ==> Continues(d, pos, n, s)
    }

    ghost predicate Continues(d: seq<Entry>, pos: nat, n: nat, s: nat)
      requires s < n && pos + s < |d|
    {
      d[pos + s][0] == n - s && d[pos + s][13] == d[pos][13]
    }

    /** The slots that go with the one at pos end in front of entry q, which is no such slot. */
    ghost predicate Broken(d: seq<Entry>, pos: nat, n: nat, q: int) {
      && pos < q < pos + n && q <= |d| && (q < |d| ==> !Continues(d, pos, n, q - pos))
      && forall s :: 1 <= s < q - pos ==> Continues(d, pos, n, s)
    }

    /** No name was found: what has to follow is not there, is not a slot of it, or is an entry with
        another sum. */
    ghost predicate Unfit(d: seq<Entry>, pos: nat, n: int, q: int) {
      if q != pos + n then n > 0 && Broken(d, pos, n, q)
      else
        && 0 < n && pos + n <= |d| && (forall s :: 1 <= s < n ==> Continues(d, pos, n, s))
        && (q < |d| ==> !SumOf(d[q][..11], d[pos][13]))
    }

    /** The slots and the entry behind them belong together. */
    ghost predicate Whole(d: seq<Entry>, pos: nat, n: nat) {
      Coherent(d, pos, n, 0) && Checksum(d[pos + n][..11]) == d[pos][13]
    }

    /** The loop of __readvfat over the slots that follow the first one. */
    method ReadSlots(pos: nat, n: nat) returns (r: int, ok: bool, u: seq<byte>)
      requires realIndex == pos < info.Length && 1 <= n <= MAXSLOTS
      modifies this`realIndex
      ensures |u| == 2 * PART * MAXSLOTS && (r == E_OK || r == ENMFILES)
      ensures r == E_OK && ok ==>
        && realIndex == pos + n - 1 < info.Length
        && forall s :: 1 <= s < n ==> Continues(info[..], pos, n, s)
      ensures r != E_OK || !ok ==> Broken(info[..], pos, n, if r != E_OK then realIndex + 1 else realIndex)
      ensures r != E_OK ==> realIndex + 1 == info.Length
      ensures r == E_OK && !ok ==> pos < realIndex < info.Length
      ensures pos + n < info.Length && Coherent(info[..], pos, n, 0) ==> r == E_OK && ok
      ensures forall name :: r == E_OK && ok && Parts(info[..], pos, n, name) ==> Got(u, name, 0, n)
    {
      hide HoldsPart, Unicode, Got, Placed, PartAt;
      u := seq(2 * PART * MAXSLOTS, _ => 0);
      var slot := n - 1;
      var chksum := info[pos][13];
      u := LdirToUnicode(slot, u, info[pos]);
      r, ok := E_OK, true;
      ghost var d := info[..];
      FirstPart(d, pos, n, u);
      while slot > 0
        invariant 0 <= slot < n && realIndex == pos + (n - 1 - slot) < info.Length && |u| == 2 * PART * MAXSLOTS
        invariant forall s :: 1 <= s < n - slot ==> Continues(d, pos, n, s)
        invariant forall name :: Parts(d, pos, n, name) ==> Got(u, name, PART * slot, n)
        invariant r == E_OK && ok
      {
        r := SeekDir(realIndex + 1);
        if r != E_OK {
          return;
        }
        var ldir := info[realIndex];
        assert Coherent(d, pos, n, 0) ==> Continues(d, pos, n, n - slot);
        if ldir[0] != slot {
          ok := false;
          return;
        }
        if ldir[13] != chksum {
          ok := false;
          return;
        }
        slot := slot - 1;
        NextPart(d, pos, n, slot, u);
        u := LdirToUnicode(slot, u, ldir);
      }
    }

    /** The slots hold the parts of a name. */
    ghost predicate Parts(d: seq<Entry>, pos: nat, n: nat, name: seq<byte>) {
      pos + n <= |d| && forall s :: 0 <= s < n ==> PartAt(d, pos, n, s, name)
    }

    ghost predicate PartAt(d: seq<Entry>, pos: nat, n: nat, s: nat, name: seq<byte>)
      requires s < n && pos + n <= |d|
    {
      HoldsPart(cd, Unicode(d[pos + s]), name, n - s - 1)
    }

    lemma FirstPart(d: seq<Entry>, pos: nat, n: nat, u: seq<byte>)
      requires pos < |d| && 1 <= n <= MAXSLOTS && |u| == 2 * PART * MAXSLOTS
      requires exists u0 :: |u0| == |u| && u == Placed(u0, n - 1, d[pos])
      ensures forall name :: Parts(d, pos, n, name) ==> Got(u, name, PART * (n - 1), n)
    {
      hide HoldsPart, Unicode;
      forall name | Parts(d, pos, n, name)
        ensures Got(u, name, PART * (n - 1), n)
      {
        var u0 :| |u0| == |u| && u == Placed(u0, n - 1, d[pos]);
        assert PartAt(d, pos, n, 0, name);
        assert Got(u0, name, PART * n, n);
        GotMore(u0, d[pos], name, n - 1, n);
      }
    }

    lemma NextPart(d: seq<Entry>, pos: nat, n: nat, slot: nat, u: seq<byte>)
      requires pos + (n - 1 - slot) < |d| && slot < n <= MAXSLOTS && |u| == 2 * PART * MAXSLOTS
      requires forall name :: Parts(d, pos, n, name) ==> Got(u, name, PART * (slot + 1), n)
      ensures forall name :: Parts(d, pos, n, name) ==>
        Got(Placed(u, slot, d[pos + (n - 1 - slot)]), name, PART * slot, n)
    {
      hide HoldsPart, Unicode;
      forall name | Parts(d, pos, n, name)
        ensures Got(Placed(u, slot, d[pos + (n - 1 - slot)]), name, PART * slot, n)
      {
        assert PartAt(d, pos, n, n - 1 - slot, name);
        GotMore(u, d[pos + (n - 1 - slot)], name, slot, n);
      }
    }

    /** A character of the name is no NUL once it is stored. */
    lemma NotNul(name: seq<byte>, j: nat)
      requires cd.Valid() && Proper(name)
      ensures Pad(cd, name, j) == (0, 0) <==> j == |name|
    {
      if j < |name| {
        assert cd.fromUni(cd.toUni(name[j])) == name[j];
        assert cd.fromUni(cd.toUni(0)) == 0;
      }
    }

    /** How many characters go to the caller: all, or as many as there is room for. */
    method NameLength(u: seq<byte>, n: nat, size: nat, ghost name: seq<byte>) returns (i: nat, fits: bool)
      requires |u| == 2 * PART * MAXSLOTS && 1 <= n <= MAXSLOTS && 1 <= size
      ensures i < size && i <= PART * n
      ensures cd.Valid() && Proper(name) && Slots(|name|) == n && Got(u, name, 0, n) ==>
        && fits == (|name| < size) && Min(|name|, size - 1) <= i
        && (i > |name| ==> i == PART * n) && (i < |name| ==> i == size - 1)
    {
      hide Proper, Codec.Valid, Slots;
      i := n * PART;
      fits := true;
      ghost var good := cd.Valid() && Proper(name) && Slots(|name|) == n && Got(u, name, 0, n);
      if good {
        SlotsBound(name, n);
      }
      if i >= size {
        i := i - 1;
        while i > 0
          invariant 0 <= i < PART * n && (good ==> |name| <= i || |name| == PART * n)
        {
          if good {
            NotNul(name, i);
            assert CharAt(u, i) == Pad(cd, name, i);
          }
          if u[2 * i] == 0 && u[2 * i + 1] == 0 {
            break;
          }
          i := i - 1;
        }
        if i == 0 || i > size - 1 {
          i := size - 1;
          fits := false;
        }
      }
    }

    lemma SlotsBound(name: seq<byte>, n: nat)
      requires Proper(name) && Slots(|name|) == n
      ensures 1 <= |name| <= PART * n && 1 <= n
    {
    }

    /** The end of __readvfat: the characters are translated into the caller's buffer. */
    method CopyName(u: seq<byte>, n: nat, lname: array<byte>, size: nat, ghost name: seq<byte>) returns (r: int)
      requires |u| == 2 * PART * MAXSLOTS && 1 <= n <= MAXSLOTS && 1 <= size <= lname.Length
      modifies lname
      ensures r == n || r == EBADARG
      ensures lname[size..] == old(lname[size..])
      ensures cd.Valid() && Proper(name) && Slots(|name|) == n && Got(u, name, 0, n) ==>
        && r == (if |name| < size then n else EBADARG) && IsName(lname[..], name, size)
    {
      hide Proper, Slots, Got, Codec.Valid;
      var i, fits := NameLength(u, n, size, name);
      r := if fits then n else EBADARG;
      lname[i] := 0;
      ghost var top := i;
      while i > 0
        invariant 0 <= i <= top < size && lname[top] == 0
        invariant forall j :: i <= j < top ==> lname[j] == cd.fromUni(CharAt(u, j))
        invariant lname[size..] == old(lname[size..])
      {
        i := i - 1;
        lname[i] := cd.fromUni((u[2 * i], u[2 * i + 1]));
      }
      if cd.Valid() && Proper(name) && Slots(|name|) == n && Got(u, name, 0, n) {
        Translated(u, n, lname[..], top, size, name);
      }
    }

    /** The buffer holds the name, cut off where there is no more room, and a NUL behind it. */
    ghost predicate IsName(b: seq<byte>, name: seq<byte>, size: nat) {
      1 <= size <= |b| && var k := Min(|name|, size - 1); b[..k] == name[..k] && b[k] == 0
    }

    lemma Translated(u: seq<byte>, n: nat, b: seq<byte>, top: nat, size: nat, name: seq<byte>)
      requires cd.Valid() && Proper(name) && Got(u, name, 0, n) && top < size <= |b| && top <= PART * n
      requires b[top] == 0 && forall j :: 0 <= j < top ==> b[j] == cd.fromUni(CharAt(u, j))
      requires Min(|name|, size - 1) <= top && (top < |name| ==> top == size - 1)
      ensures IsName(b, name, size)
    {
      var k := Min(|name|, size - 1);
      forall j | 0 <= j < k
        ensures b[j] == name[j]
      {
        assert CharAt(u, j) == Pad(cd, name, j);
      }
      if k < top {
        assert CharAt(u, k) == Pad(cd, name, k);
        assert cd.fromUni(cd.toUni(0)) == 0;
      }
    }

    /** __readvfat for the entry at the current place. What was written for a name gives that name and
        the number of its slots; when the caller's buffer is too small, its beginning and an error.
        `outside`: the head announces slots for which there is no place in the kernel's buffer. */
    method ReadVfat(lname: array<byte>, size: nat, ghost name: seq<byte>, ghost short: seq<byte>)
      returns (r: int, outside: bool)
      requires 0 <= realIndex < info.Length && 1 <= size <= lname.Length
      modifies this`realIndex, lname
      ensures var head := old(info[realIndex][0]);
        outside <==> head / 0x40 % 2 == 1 && !(1 <= head as int - 0x40 <= MAXSLOTS)
      ensures old(info[realIndex][0]) / 0x40 % 2 == 0 ==>
        r == 0 && realIndex == old(realIndex) && lname[..] == old(lname[..])
      ensures var n: int := old(info[realIndex][0]) as int - 0x40;
        !outside && (r > 0 || r == EBADARG) ==>
          && n > 0 && Whole(info[..], old(realIndex), n) && realIndex == old(realIndex) + n
          && SumOf(info[realIndex][..11], info[old(realIndex)][13])
      ensures old(info[realIndex][0]) / 0x40 % 2 == 1 && !outside && r <= 0 && r != EBADARG ==>
        && lname[..] == old(lname[..]) && r == (if realIndex + 1 < info.Length then E_OK else ENMFILES)
        && Unfit(info[..], old(realIndex), old(info[realIndex][0]) as int - 0x40, realIndex + 1)
      ensures lname[size..] == old(lname[size..])
      ensures cd.Valid() && Proper(name) && Written(cd, info[..], old(realIndex), name, short) ==>
        && !outside && r == (if |name| < size then Slots(|name|) else EBADARG) && IsName(lname[..], name, size)
        && realIndex == old(realIndex) + Slots(|name|)
    {
      hide Got, Parts, Slots, Proper, Codec.Valid, Checksum, Pad, SumOf;
      ghost var pos, d := realIndex, info[..];
      ghost var good := cd.Valid() && Proper(name) && Written(cd, d, pos, name, short);
      if good {
        WrittenIs(d, pos, name, short);
      }
      var ldir := info[realIndex];
      outside := false;
      if ldir[0] / 0x40 % 2 == 0 {
        return 0, false;
      }
      var slots: int := ldir[0] as int - 0x40;
      if slots < 1 || slots > MAXSLOTS {
        return 0, true;
      }
      var ok, u;
      r, ok, u := ReadSlots(realIndex, slots);
      if r != E_OK {
        return;
      }
      if ok {
        r := SeekDir(realIndex + 1);
        if r != E_OK {
          return;
        }
        var sum := Sum(info[realIndex][..11]);
        SumMeans(info[realIndex][..11], ldir[13]);
        if sum == ldir[13] {
          r := CopyName(u, slots, lname, size, name);
          return;
        }
      }
      r := SeekDir(realIndex - 1);
    }

    lemma WrittenIs(d: seq<Entry>, pos: nat, name: seq<byte>, short: seq<byte>)
      requires Proper(name) && Written(cd, d, pos, name, short)
      ensures var n := Slots(|name|);
        && 1 <= n <= MAXSLOTS && pos + n < |d| && d[pos][0] == n + 0x40 && d[pos][0] / 0x40 % 2 == 1
        && Whole(d, pos, n) && Parts(d, pos, n, name)
    {
      hide HoldsPart, Unicode;
      var n := Slots(|name|);
      SlotsBound(name, n);
      forall s | 0 <= s < n
        ensures PartAt(d, pos, n, s, name) && (s > 0 ==> Continues(d, pos, n, s))
      {
        assert SlotAt(cd, d, pos, name, n, s, Checksum(short));
        assert SlotAt(cd, d, pos, name, n, 0, Checksum(short));
      }
      assert SlotAt(cd, d, pos, name, n, 0, Checksum(short));
    }
  }
}
