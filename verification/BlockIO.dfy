/**
  The write-back cache: cached units of all devices share the cache blocks. Reads answer from the
  cache, writes stay there until they are written back, and through all of it every device looks
  like a plain disk.
 */
module BlockIO {
  import opened Machine
  import opened BlockUnit
  import opened BlockAlloc

  /** Where a unit's data begins in its cache block. */
  function Off(u: Unit): nat {
    u.pos * CHUNK_SIZE
  }

  /** A value in a signed 32-bit variable. */
  function Wrap32(x: int): (r: int)
    ensures -0x8000_0000 <= r < 0x8000_0000
    ensures -0x8000_0000 <= x < 0x8000_0000 ==> r == x
  {
    (x + 0x8000_0000) % 0x1_0000_0000 - 0x8000_0000
  }

  lemma Wrap32Means(x: int)
    ensures (Wrap32(x) - x) % 0x1_0000_0000 == 0
  {
  }

  /** The buffer for joint transfers of dirty units. */
  const WB_BUFFER := 0x1_0000

  class Cache {
    const cbls: seq<Cbl>
    const dis: set<Di>
    const chunks: nat        // chunks a cache block
    var percentage: nat      // how much of the cache a linear read may fill, in bytes * 100
    var c20ms: nat           // the clock that the access statistics use
    ghost var all: set<Unit>        // the units made so far
    ghost var repr: set<object>

    constructor (cbls: seq<Cbl>, dis: set<Di>, chunks: nat, percentage: nat)
      requires 0 < chunks && 0 < |cbls| && forall i, j :: 0 <= i < j < |cbls| ==> cbls[i] != cbls[j]
      requires forall b :: b in cbls ==> Empty(b, chunks)
      requires forall d :: d in dis ==> d.Sound() && d.units == {}
      ensures this.cbls == cbls && this.dis == dis && this.chunks == chunks && all == {} && Valid()
    {
      this.cbls, this.dis, this.chunks, this.percentage, c20ms, all := cbls, dis, chunks, percentage, 0, {};
      repr := (set d: Di | d in dis :: d as object) + set b: Cbl | b in cbls :: b as object;
      new;
      forall b | b in cbls
        ensures CblOK(b)
      {
        ZerosConst(b.used, 0);
      }
    }

    /** A block in which no unit was ever entered. */
    static ghost predicate Empty(b: Cbl, chunks: nat)
      reads b`data, b`used, b`active, b`free, b`lock, b`holds
    {
      && |b.data| == chunks * CHUNK_SIZE && |b.used| == |b.active| == chunks
      && (forall j :: 0 <= j < chunks ==> b.active[j] == null && b.used[j] == 0)
      && b.free == chunks && b.lock == 0 && b.holds == multiset{}
    }

    // -------------------------------------------------------------- the invariant

    /** The chunk map and the lock count of a block. */
    ghost predicate CblOK(b: Cbl)
      reads b`data, b`used, b`active, b`free, b`lock, b`holds, b.active`lock
    {
      && |b.data| == chunks * CHUNK_SIZE && |b.used| == chunks
      && AllocOK(b, b.used, b.active, b.free)
      && LocksOK(b)
    }

    ghost predicate LocksOK(b: Cbl)
      reads b`active, b`lock, b`holds, b.active`lock
    {
      && b.lock == |b.holds|
      && (forall u :: u in b.holds ==> u in b.active)
      && (forall u: Unit :: u in b.active ==> u.lock == b.holds[u])
    }

    ghost predicate Located(u: Unit)
      reads u.cbl`active
    {
      u.cbl in cbls && u.pos < |u.cbl.active| && u.cbl.active[u.pos] == u
    }

    /** The cached bytes are those the users of the device see. */
    ghost predicate Filled(u: Unit)
      reads u.cbl`data, u.di`view
    {
      && Off(u) + u.size <= |u.cbl.data| && Addr(u) + u.size <= |u.di.view|
      && u.di.view[Addr(u)..Addr(u) + u.size] == u.cbl.data[Off(u)..Off(u) + u.size]
    }

    /** The objects of the cache are all in `repr`. */
    ghost predicate InRepr()
      reads this`repr, this`all, repr
    {
      && (forall d :: d in dis ==> d in repr)
      && (forall b :: b in cbls ==> b in repr)
      && (forall d, u :: d in dis && u in d.units ==> u in all && u in repr && u.cbl in repr && u.di == d)
      && (forall b, u: Unit :: b in cbls && u in b.active ==> u in repr && u.di in repr)
    }

    /** Every hashed unit but `skip` lies in its block and holds what the users of its device see. */
    ghost predicate Places(skip: Unit?)
      reads this`repr, this`all, repr
    {
      && InRepr()
      && (forall d, u :: d in dis && u in d.units && u != skip ==> Located(u) && Filled(u))
    }

    /** Every device but `skip` is sound. */
    ghost predicate Sounds(skip: Di?)
      reads this`repr, this`all, repr
    {
      InRepr() && forall d :: d in dis && d != skip ==> d.Sound()
    }

    ghost predicate Core(skip: Unit?)
      reads this`repr, this`all, repr
    {
      Places(skip) && Sounds(null)
    }

    /** Every unit that a block lists is hashed. */
    ghost predicate Owned()
      reads this`repr, this`all, repr
    {
      InRepr() && forall b, u: Unit :: b in cbls && u in b.active ==>
        u.cbl == b && u.di in dis && u in u.di.units
    }

    ghost predicate BlocksOK(skip: Cbl?)
      reads this`repr, this`all, repr
    {
      InRepr() && forall b :: b in cbls && b != skip ==> CblOK(b)
    }

    ghost predicate Setup() {
      && 0 < chunks && 0 < |cbls| && forall i, j :: 0 <= i < j < |cbls| ==> cbls[i] != cbls[j]
    }

    ghost predicate Valid()
      reads this`repr, this`all, repr
    {
      Setup() && Core(null) && Owned() && BlocksOK(null)
    }

    // -------------------------------------------------------------- what a step leaves alone

    /** Nothing was given up, and what was made since is in `repr` with all that belongs to it. */
    twostate predicate Steady()
      reads this`repr, this`all, dis`units, cbls`active
    {
      && old(repr) <= repr && old(all) <= all
      && (forall d, u :: d in dis && u in d.units ==>
            u in old(d.units) || (u in all && u in repr && u.cbl in repr && u.di == d))
      && (forall b, u :: b in cbls && u in b.active && u != null ==> u in old(b.active) || (u in repr && u.di in repr))
    }

    twostate lemma ReprKept()
      requires old(InRepr()) && Steady()
      ensures InRepr()
    {
      forall d, u | d in dis && u in d.units
        ensures u in all && u in repr && u.cbl in repr && u.di == d
      {
        if u in old(d.units) {
          assert old(u in d.units);
        }
      }
      forall b, u | b in cbls && u in b.active && u != null
        ensures u in repr && u.di in repr
      {
        assert u in old(b.active) || (u in repr && u.di in repr);
        if u in old(b.active) {
          assert old(u in b.active);
          assert u in old(repr);
        }
      }
    }

    /** Units stay filled while neither the blocks' data nor what the users see changes. */
    twostate lemma PlacesKept(skip: Unit?)
      requires old(Places(skip)) && Steady()
      requires forall d, u :: d in dis && u in d.units && u != skip ==> u in old(d.units) && d.view == old(d.view)
      requires forall b :: b in cbls ==> b.active == old(b.active) && b.data == old(b.data)
      ensures Places(skip)
    {
      hide Filled;
      ReprKept();
      forall d, u | d in dis && u in d.units && u != skip
        ensures Located(u) && Filled(u)
      {
        assert old(Located(u) && Filled(u));
      }
    }

    /** So they do where a range changes beside them. */
    twostate lemma PlacesBeside(skip: Unit?, new at: nat, new x: seq<byte>)
      requires old(Places(skip)) && Steady()
      requires forall d :: d in dis ==> d.units == old(d.units)
      requires forall b :: b in cbls ==> b.active == old(b.active) && b.data == old(b.data)
      requires forall d :: d in dis && d.view != old(d.view) ==>
        && at + |x| <= |old(d.view)| && d.view == Splice(old(d.view), at, x)
        && forall v :: v in d.units && v != skip ==> Addr(v) + v.size <= at || at + |x| <= Addr(v)
      ensures Places(skip)
    {
      hide Addr, Off;
      forall d, u | d in dis && u in d.units && u != skip
        ensures Located(u) && Filled(u)
      {
        assert old(Located(u) && Filled(u));
        assert d.view[Addr(u)..Addr(u) + u.size] == old(d.view)[Addr(u)..Addr(u) + u.size];
      }
    }

    /** Devices stay sound while their fields and those of their units stay. */
    twostate lemma SoundsKept(skip: Di?)
      requires old(Sounds(skip)) && Steady()
      requires forall d :: d in dis && d != skip ==> unchanged(d) && d.units == old(d.units)
      requires forall d, u :: d in dis && d != skip && u in d.units ==> unchanged(u`dirty, u`lock, u`wb_next, u`wb_prev)
      ensures Sounds(skip)
    {
      hide Di.SoundWith;
      ReprKept();
      forall d | d in dis && d != skip
        ensures d.Sound()
      {
        assert old(d.Sound());
      }
    }

    /** Blocks stay in order while their fields and the lock counts of their units stay. */
    twostate lemma BlocksKept(skip: Cbl?)
      requires old(BlocksOK(skip)) && Steady()
      requires forall b :: b in cbls && b != skip ==>
        b.active == old(b.active) && |b.data| == |old(b.data)| && unchanged(b`used, b`free, b`lock, b`holds)
      requires forall b, u: Unit :: b in cbls && b != skip && u in b.active ==> unchanged(u`lock)
      ensures BlocksOK(skip)
    {
      hide AllocOK;
      ReprKept();
      forall b | b in cbls && b != skip
        ensures CblOK(b)
      {
        assert old(CblOK(b));
      }
    }

    // -------------------------------------------------------------- removing units

    /** The block's part of bio_unit_remove_cache. */
    method ReleaseChunks(u: Unit)
      requires u.pos + NChunks(u.size) <= |u.cbl.used| && u.pos < |u.cbl.active|
      modifies u.cbl`active, u.cbl`used, u.cbl`lock, u.cbl`free
      ensures u.cbl.active == old(u.cbl.active)[u.pos := null]
      ensures u.cbl.used == Marked(old(u.cbl.used), u.pos, NChunks(u.size), 0)
      ensures u.cbl.free == old(u.cbl.free) + NChunks(u.size) && u.cbl.lock == old(u.cbl.lock) - u.lock
    {
      hide NChunks;
      var b := u.cbl;
      var n := NChunks(u.size);
      ghost var used := b.used;
      b.active := b.active[u.pos := null];
      var i := 0;
      while i < n
        invariant 0 <= i <= n && |b.used| == |used| && b.active == old(b.active)[u.pos := null]
        invariant b.lock == old(b.lock) && b.free == old(b.free)
        invariant forall j :: 0 <= j < |used| ==> b.used[j] == if u.pos <= j < u.pos + i then 0 else used[j]
      {
        b.used := b.used[u.pos + i := 0];
        i := i + 1;
      }
      assert b.used == Marked(used, u.pos, n, 0);
      if u.lock != 0 {
        b.lock := b.lock - u.lock;
      }
      b.free := b.free + n;
    }

    /** bio_unit_remove_cache: a clean unit leaves the hash table and its block. */
    method Remove(v: Unit, ghost skip: Unit?, ghost flight: seq<Unit>)
      requires Places(skip) && Owned() && Sounds(v.di) && v.di in dis && v.di.SoundWith(flight)
      requires v in v.di.units && v !in v.di.wbq && v.lock == 0 && Located(v)
      requires v.pos + NChunks(v.size) <= |v.cbl.used|
      requires forall p :: 0 <= p < |v.cbl.active| && v.cbl.active[p] != null ==> v.cbl.active[p].pos == p
      modifies v.di`table, v.di`units, v.cbl`active, v.cbl`used, v.cbl`lock, v.cbl`free
      ensures Places(skip) && Owned() && Sounds(v.di) && v.di.SoundWith(flight)
      ensures v.di.units == old(v.di.units) - {v}
      ensures v.di.table == Di.Unhashed(old(v.di.table), v)
      ensures v.cbl.active == old(v.cbl.active)[v.pos := null] && v.cbl.lock == old(v.cbl.lock)
      ensures v.cbl.used == Marked(old(v.cbl.used), v.pos, NChunks(v.size), 0)
      ensures v.cbl.free == old(v.cbl.free) + NChunks(v.size)
      ensures forall u: Unit :: u in v.cbl.active ==> u != v && u in old(v.cbl.active)
    {
      hide Di.SoundWith, Di.Sound, Filled, NChunks, Marked, Di.Unhashed;
      OthersUnits(v.di);
      v.di.Uninstall(v, flight);
      ReleaseChunks(v);
      forall u: Unit | u in v.cbl.active
        ensures u != v && u in old(v.cbl.active)
      {
        var p :| 0 <= p < |v.cbl.active| && v.cbl.active[p] == u;
        assert old(v.cbl.active)[p] == u;
      }
      forall d, u | d in dis && u in d.units && u != skip
        ensures Located(u) && Filled(u)
      {
        assert old(Located(u) && Filled(u));
      }
      forall d | d in dis && d != v.di
        ensures d.Sound()
      {
        assert old(d.Sound());
      }
    }

    /** bio_wb_unit */
    method WriteUnit(v: Unit, ghost skip: Unit?)
      requires Places(skip) && Sounds(null) && v.di in dis && v in v.di.units && v != skip
      modifies v.di`wb_queue, v.di`wbq, v.di`lock, v.di`dev, v.di`log
      modifies v.di.units`wb_next, v.di.units`wb_prev, v.di.units`dirty
      ensures Places(skip) && Sounds(null) && forall w :: w in v.di.wbq <==> w in old(v.di.wbq) && w != v
      ensures Addr(v) + v.size <= |v.di.view| == |old(v.di.dev)|
      ensures v.di.dev == if v in old(v.di.wbq)
        then Splice(old(v.di.dev), Addr(v), v.di.view[Addr(v)..Addr(v) + v.size]) else old(v.di.dev)
    {
      hide Di.Sound, Filled, Splice, Addr, Off;
      FilledData(v);
      OthersUnits(v.di);
      SizesAgree(v.di);
      v.di.WriteBack(v, v.cbl.data[Off(v)..Off(v) + v.size]);
      PlacesKept(skip);
      SoundsKept(v.di);
    }

    /** The block b while its chunks from found on are being claimed. */
    ghost predicate Claims(b: Cbl, found: nat, i: nat)
      reads b, b.active`lock
    {
      && |b.data| == chunks * CHUNK_SIZE && |b.used| == chunks
      && Claiming(b, b.used, b.active, b.free, found, i)
      && b.lock == 1 && b.holds == multiset{} && forall u: Unit :: u in b.active ==> u.lock == 0
    }

    /** bio_unit_remove for the unit that covers the next chunk claimed: it is written back if need
        be, and then leaves the hash table and its block. */
    method Evict(v: Unit, b: Cbl, ghost new_: Unit, ghost i: nat)
      requires Core(new_) && Owned() && b in cbls && Claims(b, new_.pos, i)
      requires new_.pos + i < chunks && b.used[new_.pos + i] != 0
      requires b.used[new_.pos + i] <= |b.active| && b.active[b.used[new_.pos + i] - 1] == v && v != new_
      modifies v.di`wb_queue, v.di`wbq, v.di`lock, v.di`dev, v.di`log, v.di`table, v.di`units
      modifies v.di.units`wb_next, v.di.units`wb_prev, v.di.units`dirty, b`active, b`used, b`lock, b`free
      ensures Core(new_) && Owned() && Claims(b, new_.pos, i) && b.used[new_.pos + i] == 0
      ensures v.di.units == old(v.di.units) - {v} && forall w :: w in v.di.wbq ==> w in old(v.di.wbq)
      ensures b.active == old(b.active)[v.pos := null]
    {
      hide Di.SoundWith, Filled, NChunks, Claiming, AllocOK, Splice, Addr, Off, Marked, CblOK, Di.Unhashed;
      ClaimEvict(b, b.used, b.active, b.free, new_.pos, i);
      ClaimPositions(b, b.used, b.active, b.free, new_.pos, i);
      assert v in b.active;
      assert v.di in dis && v in v.di.units;
      WriteUnit(v, new_);
      Remove(v, new_, []);
    }

    lemma SizesAgree(d: Di)
      requires d.Sound()
      ensures |d.dev| == |d.view|
    {
    }

    lemma OthersUnits(e: Di)
      requires e in dis && InRepr()
      ensures forall d :: d in dis && d != e ==> d.units !! e.units
    {
      forall d, u | d in dis && d != e && u in d.units
        ensures u !in e.units
      {
        assert u.di == d;
      }
    }

    lemma FilledData(u: Unit)
      requires Filled(u)
      ensures Addr(u) + u.size <= |u.di.view| && Off(u) + u.size <= |u.cbl.data|
      ensures u.cbl.data[Off(u)..Off(u) + u.size] == u.di.view[Addr(u)..Addr(u) + u.size]
    {
    }

    // -------------------------------------------------------------- bio_unit_get

    /** The k-th block is the first unlocked one with room to spare, or there is none of these and it is
        the unlocked one that was used least recently. */
    ghost predicate BestBlock(k: nat, n: nat)
      requires k < |cbls|
      reads cbls
    {
      && cbls[k].lock == 0
      && if n < cbls[k].free then forall j :: 0 <= j < k && cbls[j].lock == 0 ==> cbls[j].free <= n
         else forall j :: 0 <= j < |cbls| && cbls[j].lock == 0 ==> cbls[j].free <= n && cbls[k].stat <= cbls[j].stat
    }

    lemma BestUnlocked(k: nat, n: nat)
      requires k < |cbls| && BestBlock(k, n)
      ensures cbls[k].lock == 0
    {
    }

    /** The block that bio_unit_get takes: the first unlocked one with room to spare, else the
        unlocked one that was used least recently. */
    method ChooseBlock(n: nat) returns (found: int)
      ensures -1 <= found < |cbls|
      ensures found == -1 <==> forall k :: 0 <= k < |cbls| && cbls[k].lock == 0 ==>
        cbls[k].free <= n && 4294967295 <= cbls[k].stat
      ensures found >= 0 ==> BestBlock(found, n)
    {
      found := -1;
      var min := 4294967295;
      var i := 0;
      while i < |cbls|
        invariant 0 <= i <= |cbls| && -1 <= found < i
        invariant forall k :: 0 <= k < i && cbls[k].lock == 0 ==> cbls[k].free <= n && min <= cbls[k].stat
        invariant if found == -1 then min == 4294967295
          else cbls[found].lock == 0 && cbls[found].stat == min && min < 4294967295
      {
        var b := cbls[i];
        if b.lock == 0 {
          if n < b.free {
            found := i;
            break;
          }
          if b.stat < min {
            min := b.stat;
            found := i;
          }
        }
        i := i + 1;
      }
    }

    lemma EnteredMembers(active: seq<Unit?>, u: Unit)
      requires u.pos < |active|
      ensures active[u.pos := u][u.pos] == u && forall v: Unit :: v in active[u.pos := u] ==> v == u || v in active
    {
      forall v: Unit | v in active[u.pos := u]
        ensures v == u || v in active
      {
        var p :| 0 <= p < |active| && active[u.pos := u][p] == v;
        assert p != u.pos ==> active[p] == v;
      }
    }

    twostate lemma PlacesEntered(u: Unit)
      requires old(Core(u)) && Steady()
      requires forall d :: d in dis ==> unchanged(d) && d.units == old(d.units)
      requires forall d, v :: d in dis && v in d.units ==> unchanged(v`dirty, v`lock, v`wb_next, v`wb_prev)
      requires forall b :: b in cbls ==> b.data == old(b.data) && |b.active| == |old(b.active)|
      requires forall b, p :: b in cbls && 0 <= p < |b.active| ==>
        b.active[p] == old(b.active)[p] || (b.active[p] == u && old(b.active)[p] == null)
      ensures Core(u)
    {
      hide Filled, Di.SoundWith;
      SoundsKept(null);
      forall d, v | d in dis && v in d.units && v != u
        ensures Located(v) && Filled(v)
      {
        assert old(Located(v) && Filled(v));
      }
    }

    /** The end of the claim: the unit is entered into its chunks. */
    method EnterUnit(b: Cbl, u: Unit)
      requires Core(u) && Owned() && b in cbls && u.cbl == b && 0 < u.size && u.lock == 0
      requires Setup() && Claims(b, u.pos, NChunks(u.size)) && u !in b.active
      requires u in repr && u.di in dis && u in u.di.units
      requires forall c :: c in cbls && c != b ==> CblOK(c)
      modifies b`active, b`lock, b`free
      ensures Core(u) && Owned() && BlocksOK(null) && Located(u)
    {
      hide Di.Sound, Filled, NChunks, Claiming, AllocOK;
      ClaimDone(b, b.used, b.active, b.free, u);
      EnteredMembers(b.active, u);
      b.free := b.free - NChunks(u.size);
      b.active := b.active[u.pos := u];
      b.lock := b.lock - 1;
      PlacesEntered(u);
      forall c | c in cbls
        ensures CblOK(c)
      {
        if c != b {
          assert old(CblOK(c));
        }
      }
    }

    /** The claim of the range of a new unit in its block: all units in the way are removed. */
    method ClaimRange(b: Cbl, u: Unit)
      requires Core(u) && Owned() && BlocksOK(b) && b in cbls && u.cbl == b && 0 < u.size && u.lock == 0
      requires Setup() && u.pos + NChunks(u.size) <= chunks && Claims(b, u.pos, 0) && u !in b.active
      requires u in repr && u.di in dis && u in u.di.units && u !in u.di.wbq
      modifies dis`wb_queue, dis`wbq, dis`lock, dis`dev, dis`log, dis`table, dis`units
      modifies all`wb_next, all`wb_prev, all`dirty, b`active, b`used, b`lock, b`free
      ensures Core(u) && Owned() && BlocksOK(null) && u in u.di.units && Located(u) && u !in u.di.wbq
      ensures forall d :: d in dis ==> d.units <= old(d.units)
      ensures forall d, v :: d in dis && v in old(d.units) && v !in d.units ==> v.lock == 0
    {
      hide Di.Sound, Filled, Located, NChunks, Claiming, AllocOK, CblOK;
      var n := NChunks(u.size);
      var i := 0;
      while i < n
        invariant 0 <= i <= n && Core(u) && Owned() && Claims(b, u.pos, i) && u !in b.active
        invariant u in u.di.units && u !in u.di.wbq
        invariant forall c :: c in cbls && c != b ==> CblOK(c)
        invariant forall d :: d in dis ==> d.units <= old(d.units)
        invariant forall d, v :: d in dis && v in old(d.units) && v !in d.units ==> v.lock == 0
      {
        ClaimOne(b, u, i);
        i := i + 1;
      }
      EnterUnit(b, u);
    }

    /** One chunk of the range is claimed. */
    method ClaimOne(b: Cbl, u: Unit, i: nat)
      requires Core(u) && Owned() && b in cbls && u.cbl == b && u.di in dis
      requires Claims(b, u.pos, i) && u !in b.active && u.pos + i < chunks
      modifies dis`wb_queue, dis`wbq, dis`lock, dis`dev, dis`log, dis`table, dis`units
      modifies all`wb_next, all`wb_prev, all`dirty, b`active, b`used, b`lock, b`free
      ensures Core(u) && Owned() && Claims(b, u.pos, i + 1) && u !in b.active
      ensures forall d :: d in dis ==> d.units <= old(d.units) && forall w :: w in d.wbq ==> w in old(d.wbq)
      ensures forall d, v :: d in dis && v in old(d.units) && v !in d.units ==> v.lock == 0 && v in old(b.active)
    {
      hide Di.Sound, Filled, NChunks, Claiming, AllocOK, CblOK;
      ghost var active0 := b.active;
      if b.used[u.pos + i] != 0 {
        ClaimEvict(b, b.used, b.active, b.free, u.pos, i);
        Evict(b.active[b.used[u.pos + i] - 1], b, u, i);
      }
      ClaimNext(b, b.used, b.active, b.free, u.pos, i);
      b.used := b.used[u.pos + i := u.pos + 1];
    }

    /** A transfer that passes the sector validation. */
    predicate Accepts(di: Di, sector: nat, size: nat)
      requires 0 < di.pssize
    {
      0 < size / di.pssize && (di.psectors == 0 || Times(sector, di.lratio) + size / di.pssize <= di.psectors)
    }

    /** Chunk j is covered, and the range that starts at p has not met its unit before: the chunk in
        front, if it is in the range at all, does not belong to the same unit. */
    predicate FirstMet(b: Cbl, p: nat, j: nat)
      requires p <= j < |b.used|
      reads b`used
    {
      b.used[j] != 0 && (j == p || b.used[j - 1] != b.used[j])
    }

    /** What taking the n chunks from p on costs: free chunks lower the cost, and a unit is charged for
        where the range first meets it. */
    function Cost(b: Cbl, p: nat, n: nat): int
      requires p + n <= |b.used|
      reads this`c20ms, b, b.active`stat, b.active`dirty
    {
      if n == 0 then 0 else
      var cost := Cost(b, p, n - 1);
      var x := b.used[p + n - 1];
      if x == 0 then Wrap32(cost - CHUNK_SIZE)
      else if !FirstMet(b, p, p + n - 1) || x > |b.active| || b.active[x - 1] == null then cost
      else
        var u := b.active[x - 1];
        var c := Wrap32(cost + u.size - (c20ms - u.stat));
        if u.dirty then Wrap32(2 * c) else c
    }

    /** u takes the n chunks from p on, and its age is no trouble for 32 bits. */
    ghost predicate Alone(b: Cbl, p: nat, n: nat, u: Unit)
      reads this`c20ms, b, u`stat
    {
      && 0 < n && p + n <= |b.used| && 0 < b.used[p] <= |b.active| && b.active[b.used[p] - 1] == u
      && (forall j :: p <= j < p + n ==> b.used[j] == b.used[p])
      && u.stat <= c20ms < 0x2000_0000 && u.size < 0x2000_0000
    }

    /** A unit alone in its range costs its size less the time since it was used, and twice that if it
        is dirty. */
    lemma {:induction false} CostAlone(b: Cbl, p: nat, n: nat, u: Unit)
      requires Alone(b, p, n, u)
      ensures Cost(b, p, n) == (if u.dirty then 2 else 1) * (u.size - (c20ms - u.stat))
      decreases n
    {
      hide Wrap32;
      if n > 1 {
        CostAlone(b, p, n - 1, u);
      } else {
        assert Cost(b, p, 0) == 0;
      }
    }

    /** The longer a unit was not used, the rather it goes. */
    lemma OlderGoes(b: Cbl, p: nat, q: nat, n: nat, u: Unit, v: Unit)
      requires Alone(b, p, n, u) && Alone(b, q, n, v) && u.size == v.size && u.dirty == v.dirty
      ensures Cost(b, p, n) < Cost(b, q, n) <==> u.stat < v.stat
    {
      hide Cost;
      CostAlone(b, p, n, u);
      CostAlone(b, q, n, v);
    }

    /** A dirty unit stays rather than a clean one of that age, unless they were not used for as many
        ticks as they have bytes; then it is the other way round. */
    lemma DirtyStays(b: Cbl, p: nat, q: nat, n: nat, u: Unit, v: Unit)
      requires Alone(b, p, n, u) && Alone(b, q, n, v) && u.size == v.size && u.stat == v.stat && !u.dirty && v.dirty
      ensures Cost(b, p, n) < Cost(b, q, n) <==> c20ms - u.stat < u.size
    {
      hide Cost;
      CostAlone(b, p, n, u);
      CostAlone(b, q, n, v);
    }

    /** Free chunks cost less than nothing. */
    lemma {:induction false} CostFree(b: Cbl, p: nat, n: nat)
      requires p + n <= |b.used| && n < 0x10_0000 && forall j :: p <= j < p + n ==> b.used[j] == 0
      ensures Cost(b, p, n) == -512 * n
      decreases n
    {
      hide Wrap32;
      if n > 0 {
        CostFree(b, p, n - 1);
      }
    }

    /** All chunks between two chunks of a unit are that unit's. */
    lemma Gapless(b: Cbl, i: nat, k: nat, j: nat)
      requires AllocOK(b, b.used, b.active, b.free) && i <= k <= j < |b.used|
      requires b.used[i] == b.used[j] != 0
      ensures b.used[k] == b.used[j]
    {
      hide NChunks, Zeros;
      var u := b.active[b.used[j] - 1];
      assert InPlace(b, b.used, u, b.used[j] - 1);
    }

    /** Each unit that has a chunk in the range is charged for exactly once. */
    lemma ChargedOnce(b: Cbl, p: nat, n: nat, k: nat)
      requires AllocOK(b, b.used, b.active, b.free) && p <= k < p + n <= |b.used| && b.used[k] != 0
      ensures exists j :: p <= j < p + n && FirstMet(b, p, j) && b.used[j] == b.used[k]
      ensures forall i, j :: p <= i < j < p + n && FirstMet(b, p, i) && FirstMet(b, p, j) ==> b.used[i] != b.used[j]
    {
      hide AllocOK;
      var j: nat := k;
      while !FirstMet(b, p, j)
        invariant p <= j <= k && b.used[j] == b.used[k]
        decreases j
      {
        j := j - 1;
      }
      forall i, j | p <= i < j < p + n && FirstMet(b, p, i) && FirstMet(b, p, j)
        ensures b.used[i] != b.used[j]
      {
        if b.used[i] == b.used[j] {
          Gapless(b, i, j - 1, j);
          assert false;
        }
      }
    }

    /** What the inner loop of the search remembers: the entry of the covered chunk seen last. */
    ghost predicate LastSeen(b: Cbl, p: nat, end: nat, at: int, x: nat)
      requires p <= end <= |b.used|
      reads b`used
    {
      && p - 1 <= at < end && (at == p - 1 <==> x == 0) && (at >= p ==> b.used[at] == x)
      && forall k :: at < k < end ==> b.used[k] == 0
    }

    /** Comparing with that entry tells whether a unit is met for the first time. */
    lemma SeenBefore(b: Cbl, p: nat, j: nat, at: int, x: nat)
      requires AllocOK(b, b.used, b.active, b.free) && p <= j < |b.used| && b.used[j] != 0
      requires LastSeen(b, p, j, at, x)
      ensures FirstMet(b, p, j) <==> b.used[j] != x
      ensures b.used[j] <= |b.active| && b.active[b.used[j] - 1] != null
    {
      hide NChunks, Zeros;
      if b.used[j] == x {
        Gapless(b, at, j - 1, j);
      }
    }

    lemma NoneSeen(b: Cbl, p: nat)
      requires p <= |b.used|
      ensures LastSeen(b, p, p, p - 1, 0)
    {
    }

    lemma SeenNext(b: Cbl, p: nat, j: nat, at: int, x: nat)
      requires p <= j < |b.used| && LastSeen(b, p, j, at, x)
      ensures if b.used[j] == 0 then LastSeen(b, p, j + 1, at, x) else LastSeen(b, p, j + 1, j, b.used[j])
    {
    }

    lemma CostNone(b: Cbl, p: nat)
      requires p <= |b.used|
      ensures Cost(b, p, 0) == 0
    {
    }

    lemma CostNext(b: Cbl, p: nat, n: nat)
      requires p + n < |b.used| && Cost(b, p, n) < 0x8000_0000
      ensures Cost(b, p, n + 1) < 0x8000_0000 && Cost(b, p, n + 1) ==
        var cost, x := Cost(b, p, n), b.used[p + n];
        if x == 0 then Wrap32(cost - CHUNK_SIZE)
        else if !FirstMet(b, p, p + n) || x > |b.active| || b.active[x - 1] == null then cost
        else
          var u := b.active[x - 1];
          var c := Wrap32(cost + u.size - (c20ms - u.stat));
          if u.dirty then Wrap32(2 * c) else c
    {
      hide FirstMet;
    }

    /** The inner loop of the search for a range: what taking n chunks from p on costs. */
    method CostOf(b: Cbl, p: nat, n: nat) returns (cost: int)
      requires p + n <= |b.used| && AllocOK(b, b.used, b.active, b.free)
      ensures cost == Cost(b, p, n) < 0x8000_0000
    {
      hide Wrap32, AllocOK, FirstMet, LastSeen, Cost;
      CostNone(b, p);
      var oldUsed := 0;
      ghost var at := p - 1;
      cost := 0;
      var j := 0;
      assert LastSeen(b, p, p, at, oldUsed) by { NoneSeen(b, p); }
      while j < n
        invariant 0 <= j <= n && cost == Cost(b, p, j) < 0x8000_0000
        invariant LastSeen(b, p, p + j, at, oldUsed)
      {
        SeenNext(b, p, p + j, at, oldUsed);
        CostNext(b, p, j);
        var x := b.used[p + j];
        if x != 0 {
          SeenBefore(b, p, p + j, at, oldUsed);
          at := p + j;
          if x != oldUsed {
            var u := b.active[x - 1];
            oldUsed := x;
            cost := Wrap32(cost + u.size - (c20ms - u.stat));
            if u.dirty {
              cost := Wrap32(2 * cost);
            }
          }
        } else {
          cost := Wrap32(cost - CHUNK_SIZE);
        }
        j := j + 1;
      }
    }

    /** No range of n chunks is cheaper than the one from `pos` on, and none in front of it as cheap. */
    ghost predicate BestRange(b: Cbl, pos: nat, n: nat)
      reads this`c20ms, b, b.active`stat, b.active`dirty
    {
      && |b.used| == chunks && pos + n <= chunks
      && (forall p :: 0 <= p <= chunks - n ==> Cost(b, pos, n) <= Cost(b, p, n))
      && forall p :: 0 <= p < pos ==> Cost(b, pos, n) < Cost(b, p, n)
    }

    lemma BestWithin(b: Cbl, pos: nat, n: nat)
      requires BestRange(b, pos, n)
      ensures pos + n <= chunks
    {
    }

    /** The range that bio_unit_get takes: the first of the cheapest. */
    method ChooseRange(b: Cbl, n: nat) returns (found: nat)
      requires |b.used| == chunks && 0 < n <= chunks && AllocOK(b, b.used, b.active, b.free)
      ensures BestRange(b, found, n)
    {
      hide AllocOK, Cost;
      var end: nat := if chunks == n then 0 else chunks - n + 1;
      var minCost := 4294967295;
      found := 0;
      var i := 0;
      while i < end
        invariant 0 <= i <= end && (found < i || i == found == 0)
        invariant if i == 0 then minCost == 4294967295 else minCost == Cost(b, found, n)
        invariant forall p :: 0 <= p < i ==> minCost <= Cost(b, p, n)
        invariant forall p :: 0 <= p < found ==> minCost < Cost(b, p, n)
      {
        var cost := CostOf(b, i, n);
        if cost < minCost {
          minCost := cost;
          found := i;
        }
        i := i + 1;
      }
    }

    lemma UnlockedBlock(b: Cbl)
      requires CblOK(b) && b.lock == 0
      ensures |b.used| == chunks && |b.data| == chunks * CHUNK_SIZE && AllocOK(b, b.used, b.active, b.free)
      ensures b.holds == multiset{} && forall u: Unit :: u in b.active ==> u.lock == 0
    {
    }

    /** The new unit is hashed and stamped, and its block is kept from other searches. */
    method Announce(b: Cbl, u: Unit)
      requires Valid() && b in cbls && b.lock == 0 && u.cbl == b && u.di in dis && u !in repr
      requires !u.dirty && u.lock == 0 && u.wb_next == null && u.wb_prev == null
      requires u.sector in u.di.layout && u.di.layout[u.sector] == u.size && u.pos <= chunks
      requires forall v :: v in u.di.units ==> v.sector != u.sector
      modifies this`repr, this`all, u.di`table, u.di`units, b`lock, b`stat, u`stat
      ensures u.stat == c20ms && b.stat == c20ms
      ensures repr == old(repr) + {u} && all == old(all) + {u} && u.di.units == old(u.di.units) + {u}
      ensures Core(u) && Owned() && BlocksOK(b) && Claims(b, u.pos, 0) && u !in b.active && u !in u.di.wbq
    {
      hide Filled, Located, CblOK, NChunks, AllocOK, Claiming, Di.SoundWith;
      assert u.di.Sound() && CblOK(b);
      UnlockedBlock(b);
      u.di.OwnUnits();
      ClaimStart(b, b.used, b.active, b.free, u.pos);
      b.lock := b.lock + 1;
      repr := repr + {u};
      all := all + {u};
      u.di.Install(u);
      SoundsKept(u.di);
      PlacesKept(u);
      BlocksKept(b);
      StampNew(b, u);
    }

    /** bio_update_stat for the new unit. */
    method StampNew(b: Cbl, u: Unit)
      requires Core(u) && Owned() && BlocksOK(b) && b in cbls && u.di in dis && u in u.di.units
      modifies b`stat, u`stat
      ensures Core(u) && Owned() && BlocksOK(b) && u.stat == c20ms && b.stat == c20ms
    {
      hide Di.SoundWith, Di.Sound, Filled, Located, CblOK;
      u.stat := c20ms;
      b.stat := c20ms;
      SoundsKept(null);
      PlacesKept(u);
      BlocksKept(b);
    }

    lemma BlockFacts(b: Cbl)
      requires CblOK(b)
      ensures |b.used| == chunks && |b.data| == chunks * CHUNK_SIZE && AllocOK(b, b.used, b.active, b.free)
    {
    }

    lemma LocksAre()
      requires BlocksOK(null)
      ensures forall b :: b in cbls ==> b.lock == |b.holds|
    {
      hide AllocOK;
      forall b | b in cbls
        ensures b.lock == |b.holds|
      {
        assert CblOK(b);
      }
    }

    /** A new unit will be given a place: not all blocks are locked. */
    ghost predicate Obliging()
      reads this`c20ms, cbls`lock, cbls`stat
    {
      c20ms < 0xffff_ffff && exists k :: 0 <= k < |cbls| && cbls[k].lock == 0 && cbls[k].stat < 0xffff_ffff
    }

    /** The unit that bio_unit_get has made, entered into its block, its data not filled in yet. */
    ghost predicate Made(u: Unit, di: Di, sector: nat, size: nat)
      reads this`repr, this`all, repr
    {
      && Setup() && Core(u) && Owned() && BlocksOK(null)
      && u in repr && di in repr && u.cbl in repr && u.di == di && u in di.units && u !in di.wbq && Located(u)
      && u.sector == sector && u.size == size && u.lock == 0
    }

    /** The end of bio_unit_get: the new unit takes its range. */
    method MakeUnit(di: Di, sector: nat, size: nat, b: Cbl, pos: nat) returns (u: Unit)
      requires Valid() && di in dis && b in cbls && b.lock == 0 && 0 < size && pos + NChunks(size) <= chunks
      requires sector in di.layout && di.layout[sector] == size
      requires forall v :: v in di.units ==> v.sector != sector
      modifies this`repr, this`all, dis`wb_queue, dis`wbq, dis`lock, dis`dev, dis`log, dis`table, dis`units
      modifies all`wb_next, all`wb_prev, all`dirty
      modifies cbls`active, cbls`used, cbls`lock, cbls`free, b`stat
      ensures fresh(u) && u.cbl == b && u.pos == pos && repr == old(repr) + {u} && all == old(all) + {u}
      ensures Made(u, di, sector, size) && u.stat == c20ms && b.stat == c20ms
      ensures forall c :: c in cbls ==> c.lock == old(c.lock)
      ensures forall d :: d in dis ==> d.units <= old(d.units) + if d == di then {u} else {}
      ensures forall d, v :: d in dis && v in old(d.units) && v !in d.units ==> v.lock == 0
    {
      hide Di.Sound, Filled, NChunks, AllocOK, Claiming, CblOK, Located, Core;
      LocksAre();
      u := new Unit(di, sector, size, b, pos);
      Announce(b, u);
      ClaimRange(b, u);
      LocksAre();
    }

    /** bio_unit_get for a block of a device that is not in the cache. */
    method UnitGet(di: Di, sector: nat, size: nat) returns (u: Unit?, err: int)
      requires Valid() && di in dis && 0 < di.pssize
      requires Accepts(di, sector, size) ==>
        sector in di.layout && di.layout[sector] == size && NChunks(size) <= chunks
      requires forall v :: v in di.units ==> v.sector != sector
      modifies this`repr, this`all, dis`wb_queue, dis`wbq, dis`lock, dis`dev, dis`log, dis`table, dis`units
      modifies all`wb_next, all`wb_prev, all`dirty
      modifies cbls`active, cbls`used, cbls`lock, cbls`free, cbls`stat
      ensures err == (if u != null then E_OK else if Accepts(di, sector, size) then ENOMEM else ESECTOR)
      ensures u != null ==> fresh(u) && repr == old(repr) + {u} && all == old(all) + {u} && Made(u, di, sector, size)
      ensures u != null ==>
        var pos, n := u.pos, NChunks(size);
        exists k :: 0 <= k < |cbls| && u.cbl == cbls[k] && old(BestBlock(k, n)) && old(BestRange(cbls[k], pos, n))
      ensures u == null ==> Valid() && repr == old(repr) && all == old(all)
      ensures u != null ==> u.stat == c20ms
      ensures forall b :: b in cbls ==>
        b.lock == old(b.lock) && b.stat == if u != null && u.cbl == b then c20ms else old(b.stat)
      ensures Accepts(di, sector, size) ==> (u == null <==> forall k :: 0 <= k < |cbls| && old(cbls[k].lock) == 0 ==>
        old(cbls[k].free) <= NChunks(size) && 4294967295 <= old(cbls[k].stat))
      ensures forall d :: d in dis ==> d.units <= old(d.units) + if d == di && u != null then {u} else {}
      ensures forall d, v :: d in dis && v in old(d.units) && v !in d.units ==> v.lock == 0
    {
      hide Di.Sound, Filled, NChunks, AllocOK, Claiming, CblOK, Located, Core, Cost, BestBlock, BestRange;
      var num := size / di.pssize;
      var recno := Times(sector, di.lratio);
      if num == 0 {
        return null, ESECTOR;
      }
      if di.psectors != 0 && recno + num > di.psectors {
        return null, ESECTOR;
      }
      var n := NChunks(size);
      var found := ChooseBlock(n);
      if found < 0 {
        return null, ENOMEM;
      }
      var b := cbls[found];
      BestUnlocked(found, n);
      BlockFacts(b);
      NChunksPos(size);
      var pos := ChooseRange(b, n);
      BestWithin(b, pos, n);
      u := MakeUnit(di, sector, size, b, pos);
      err := E_OK;
    }

    // -------------------------------------------------------------- reading and writing one block

    /** The unit u may be filled: all else is in order. */
    ghost predicate Ready(u: Unit)
      reads this`repr, this`all, repr
    {
      && Setup() && Core(u) && Owned() && BlocksOK(null)
      && u in repr && u.cbl in repr && u.di in dis && u.di in repr && u in u.di.units && Located(u)
    }

    /** Units of one block keep their data apart. */
    lemma DataApart(b: Cbl, u: Unit, v: Unit)
      requires CblOK(b) && u.cbl == v.cbl == b && Located(u) && Located(v) && u != v
      ensures Off(u) + u.size <= Off(v) || Off(v) + v.size <= Off(u)
      ensures Off(u) + u.size <= |b.data|
    {
      hide Zeros;
      UnitsApart(b, b.used, b.active, b.free, u.pos, v.pos);
      assert InPlace(b, b.used, u, u.pos) && InPlace(b, b.used, v, v.pos);
    }

    lemma DataRoom(b: Cbl, u: Unit)
      requires CblOK(b) && u.cbl == b && Located(u)
      ensures Off(u) + u.size <= |b.data| && 0 < u.size
    {
      hide Zeros;
      assert InPlace(b, b.used, u, u.pos);
    }

    /** quickmovb to the data of a unit. */
    method CopyIn(u: Unit, x: seq<byte>)
      requires Ready(u) && |x| == u.size
      modifies u.cbl`data
      ensures Ready(u) && Off(u) + u.size <= |u.cbl.data| && u.cbl.data[Off(u)..Off(u) + u.size] == x
    {
      hide Di.Sound, NChunks, AllocOK, LocksOK, Addr, Off;
      var b := u.cbl;
      assert CblOK(b);
      DataRoom(b, u);
      b.data := Splice(b.data, Off(u), x);
      forall d, v | d in dis && v in d.units && v != u
        ensures Located(v) && Filled(v)
      {
        assert old(Located(v) && Filled(v));
        if v.cbl == b {
          DataApart(b, u, v);
          assert b.data[Off(v)..Off(v) + v.size] == old(b.data[Off(v)..Off(v) + v.size]);
        }
      }
      BlocksKept(null);
    }

    /** bio_update_stat */
    method Stamp(u: Unit)
      requires Valid() && u in u.di.units && u.di in dis
      modifies all`stat, cbls`stat
      ensures Valid() && u.stat == c20ms && u.cbl.stat == c20ms
      ensures forall v :: v in all && v != u ==> v.stat == old(v.stat)
      ensures forall b :: b in cbls && b != u.cbl ==> b.stat == old(b.stat)
    {
      hide Di.Sound, Filled, Located, CblOK;
      assert Located(u);
      assert u.cbl in cbls by { LocatedIn(u); }
      u.stat := c20ms;
      u.cbl.stat := c20ms;
      assert InRepr();
      SoundsKept(null);
      PlacesKept(null);
      BlocksKept(null);
    }

    lemma LocatedIn(u: Unit)
      requires Located(u)
      ensures u.cbl in cbls
    {
    }

    /** bio_lookup: hash lookup, which stamps the unit. */
    method Lookup(di: Di, sector: nat) returns (u: Unit?)
      requires Valid() && di in dis
      modifies all`stat, cbls`stat
      ensures Valid()
      ensures u != null ==> u in di.units && u.sector == sector && Ready(u) && Filled(u)
      ensures u != null ==> u.stat == c20ms && u.cbl.stat == c20ms
      ensures forall v :: v in all && v != u ==> v.stat == old(v.stat)
      ensures forall b :: b in cbls && (u == null || b != u.cbl) ==> b.stat == old(b.stat)
      ensures u == null ==> forall v :: v in di.units ==> v.sector != sector
    {
      hide Di.Sound, Filled, Located, CblOK, BlockUnit.Hashed;
      TableOK(di);
      u := di.HashLookup(sector);
      if u != null {
        assert Located(u);
        LocatedIn(u);
        Stamp(u);
      }
    }

    lemma TableOK(d: Di)
      requires d.Sound()
      ensures Hashed(d.table, d.units)
    {
    }

    /** A request for a block in the size that is in use at its place. */
    ghost predicate Request(di: Di, sector: nat, size: nat) {
      && 0 < di.pssize
      && (Accepts(di, sector, size) || sector in di.layout ==>
            sector in di.layout && di.layout[sector] == size && NChunks(size) <= chunks)
    }

    lemma AddrIs(u: Unit)
      ensures Addr(u) == Times(u.sector, u.di.lsize)
    {
    }

    lemma IsFilled(u: Unit)
      requires Off(u) + u.size <= |u.cbl.data| && Addr(u) + u.size <= |u.di.view|
      requires u.di.view[Addr(u)..Addr(u) + u.size] == u.cbl.data[Off(u)..Off(u) + u.size]
      ensures Filled(u)
    {
    }

    /** A unit is filled with what is to be seen in its place. */
    method Fill(u: Unit, x: seq<byte>)
      requires Ready(u) && |x| == u.size && Times(u.sector, u.di.lsize) + u.size <= |u.di.view|
      requires x == u.di.view[Times(u.sector, u.di.lsize)..Times(u.sector, u.di.lsize) + u.size]
      modifies u.cbl`data
      ensures Valid() && Filled(u)
    {
      hide Di.Sound, Filled, Located, CblOK, Addr, Owned;
      AddrIs(u);
      CopyIn(u, x);
      IsFilled(u);
    }

    /** bio_unit_read of a unit that has just been made. */
    method UnitRead(u: Unit)
      requires Ready(u) && u !in u.di.wbq
      modifies u.cbl`data
      ensures Valid() && Filled(u)
    {
      hide Di.Sound, Filled, Located, CblOK, NChunks, Addr, Owned;
      SizeOf(u.di, u);
      u.di.BlockRoom(u.sector);
      u.di.CleanSame(u);
      AddrIs(u);
      var x := u.di.ReadIn(u.size, u.sector);
      Fill(u, x);
    }

    /** bio_read1 */
    method Read1(di: Di, sector: nat, size: nat) returns (u: Unit?, err: int)
      requires Valid() && di in dis && Request(di, sector, size)
      modifies this`repr, this`all, dis`wb_queue, dis`wbq, dis`lock, dis`dev, dis`log, dis`table, dis`units
      modifies all`wb_next, all`wb_prev, all`dirty, all`stat
      modifies cbls`active, cbls`used, cbls`lock, cbls`free, cbls`stat, cbls`data
      ensures Valid() && fresh(repr - old(repr))
      ensures err == if u != null then E_OK else if Accepts(di, sector, size) then ENOMEM else ESECTOR
      ensures Cached(old(di.units), sector) ==>
        u != null && u.stat == c20ms && di.units == old(di.units) && di.dev == old(di.dev) && di.log == old(di.log)
      ensures u != null ==> u in di.units && u.sector == sector && u.size == size && Filled(u)
      ensures forall d, v :: d in dis && v in old(d.units) && v !in d.units ==> v.lock == 0
    {
      hide Di.Sound, Filled, Located, CblOK, Accepts, NChunks, Addr;
      err := E_OK;
      u := Lookup(di, sector);
      if u == null {
        u, err := UnitGet(di, sector, size);
        if u != null {
          LocatedIn(u);
          UnitRead(u);
        }
      } else {
        SizeOf(di, u);
      }
    }

    lemma SizeOf(d: Di, u: Unit)
      requires d.Sound() && u in d.units
      ensures u.sector in d.layout && d.layout[u.sector] == u.size
    {
    }

    /** bio_mark_modified */
    method Mark(u: Unit)
      requires Ready(u)
      modifies u.di`key, u.di`wb_queue, u.di`wbq, u.di`lock
      modifies u.di.units`wb_next, u.di.units`wb_prev, u.di.units`dirty
      ensures Ready(u) && u in u.di.wbq && u.di.wbq == if u in old(u.di.wbq) then old(u.di.wbq)
        else Inserted(old(u.di.wbq), u)
    {
      hide Di.SoundWith, Filled, CblOK, Inserted;
      OthersUnits(u.di);
      u.di.MarkModified(u, []);
      SoundsKept(u.di);
      PlacesKept(u);
      BlocksKept(null);
    }

    /** The new contents of a unit that has been filled and marked become visible. */
    ghost method Publish(u: Unit, x: seq<byte>)
      requires Ready(u) && u in u.di.wbq && |x| == u.size
      requires Off(u) + u.size <= |u.cbl.data| && u.cbl.data[Off(u)..Off(u) + u.size] == x
      modifies u.di`view
      ensures Valid() && Filled(u) && Addr(u) + u.size <= |old(u.di.view)|
      ensures u.di.view == Splice(old(u.di.view), Addr(u), x)
    {
      hide Di.SoundWith, Di.Sound, Located, Filled, Addr, Off, CblOK;
      AddrIs(u);
      SizeOf(u.di, u);
      u.di.BlockRoom(u.sector);
      UnitsApartOnDisk(u);
      u.di.Show(u, x);
      SoundsKept(u.di);
      PlacesBeside(u, Addr(u), x);
      IsFilled(u);
      BlocksKept(null);
    }

    lemma UnitsApartOnDisk(u: Unit)
      requires u.di.Sound() && u in u.di.units
      ensures forall v :: v in u.di.units && v != u ==>
        Addr(v) + v.size <= Addr(u) || Addr(u) + u.size <= Addr(v)
    {
      hide Times, AgreeOutside, BlockUnit.Hashed, Di.Queued, Di.Counted;
      forall v | v in u.di.units && v != u
        ensures Addr(v) + v.size <= Addr(u) || Addr(u) + u.size <= Addr(v)
      {
        assert v.sector != u.sector;
      }
    }

    /** One block written into the cache: its unit is filled, and marked as modified. */
    method PutBlock(u: Unit, x: seq<byte>)
      requires Ready(u) && |x| == u.size
      modifies u.cbl`data, u.di`view, u.di`key, u.di`wb_queue, u.di`wbq, u.di`lock
      modifies u.di.units`wb_next, u.di.units`wb_prev, u.di.units`dirty
      ensures Valid() && u in u.di.wbq && Filled(u) && Addr(u) + u.size <= |old(u.di.view)|
      ensures u.di.view == Splice(old(u.di.view), Addr(u), x)
    {
      hide Ready, Filled, Valid, Addr, Off, Inserted;
      CopyIn(u, x);
      Mark(u);
      Publish(u, x);
    }

    // -------------------------------------------------------------- writing past the cache

    /** All is in order but for device di, whose units in `flight` were dropped. */
    ghost predicate Dropping(di: Di, flight: seq<Unit>)
      reads this`repr, this`all, repr
    {
      && Setup() && Places(null) && Owned() && BlocksOK(null) && Sounds(di)
      && di in repr && di in dis && (forall u :: u in di.units ==> u in repr) && di.SoundWith(flight)
    }

    /** A unit leaves the cache; what is dirty in it is not written. */
    method DropUnit(u: Unit, ghost flight: seq<Unit>) returns (ghost flight': seq<Unit>)
      requires Dropping(u.di, flight) && u in u.di.units && u.lock == 0
      modifies u.di`wb_queue, u.di`wbq, u.di`lock, u.di`table, u.di`units
      modifies u.di.units`wb_next, u.di.units`wb_prev, u.di.units`dirty
      modifies cbls`active, cbls`used, cbls`lock, cbls`free
      ensures Dropping(u.di, flight') && u.di.units == old(u.di.units) - {u}
      ensures u.di.table == Di.Unhashed(old(u.di.table), u)
      ensures flight' == if u in old(u.di.wbq) then flight + [u] else flight
    {
      hide Di.SoundWith, Di.Sound, Filled, CblOK, Di.Unhashed, Located;
      var b := u.cbl;
      flight' := if u in u.di.wbq then flight + [u] else flight;
      assert Located(u);
      LocatedIn(u);
      assert CblOK(b);
      OthersUnits(u.di);
      UnqueueUnit(u, flight);
      RemoveListed(u, flight');
      forall c | c in cbls
        ensures CblOK(c)
      {
        if c != b {
          assert old(CblOK(c));
        }
      }
    }

    /** bio_unit_remove_cache for a unit in a block that is in order. */
    method RemoveListed(u: Unit, ghost flight: seq<Unit>)
      requires Places(null) && Owned() && Sounds(u.di) && u.di in dis && u.di.SoundWith(flight)
      requires u in u.di.units && u !in u.di.wbq && u.lock == 0 && Located(u) && CblOK(u.cbl)
      modifies u.di`table, u.di`units, u.cbl`active, u.cbl`used, u.cbl`lock, u.cbl`free
      ensures Places(null) && Owned() && Sounds(u.di) && u.di.SoundWith(flight) && CblOK(u.cbl)
      ensures u.di.units == old(u.di.units) - {u}
      ensures u.di.table == Di.Unhashed(old(u.di.table), u)
    {
      hide Di.SoundWith, Di.Sound, Filled, Di.Unhashed, AllocOK, Marked, Zeros, NChunks, Places, Owned, Sounds;
      var b := u.cbl;
      AllocRemove(b, b.used, b.active, b.free, u.pos);
      Positions(b, b.used, b.active, b.free);
      StillListed(b.active, u);
      assert u in b.active && u !in b.holds;
      Remove(u, null, flight);
    }

    lemma StillListed(active: seq<Unit?>, u: Unit)
      requires u.pos < |active|
      ensures forall v: Unit :: v in active && v != u && active[u.pos] == u ==> v in active[u.pos := null]
    {
      forall v: Unit | v in active && v != u && active[u.pos] == u
        ensures v in active[u.pos := null]
      {
        var p :| 0 <= p < |active| && active[p] == v;
        assert active[u.pos := null][p] == v;
      }
    }

    /** bio_wbq_remove */
    method UnqueueUnit(u: Unit, ghost flight: seq<Unit>)
      requires Places(null) && Owned() && Sounds(u.di) && u.di in dis && u.di.SoundWith(flight) && u in u.di.units
      modifies u.di`wb_queue, u.di`wbq, u.di`lock
      modifies u.di.units`wb_next, u.di.units`wb_prev, u.di.units`dirty
      ensures Places(null) && Owned() && Sounds(u.di) && u !in u.di.wbq
      ensures u.di.SoundWith(if u in old(u.di.wbq) then flight + [u] else flight)
    {
      hide Di.SoundWith, Di.Sound, Filled;
      OthersUnits(u.di);
      u.di.Unqueue(u, flight);
      PlacesKept(null);
      SoundsKept(u.di);
    }

    predicate InRange(u: Unit, sector: nat, end: nat) {
      sector <= u.sector < end
    }

    /** The walk of bio_large_write through the hash table: the units in the range are dropped. */
    method DropRange(di: Di, sector: nat, end: nat) returns (ghost flight: seq<Unit>)
      requires Valid() && di in dis
      requires forall u :: u in di.units && InRange(u, sector, end) ==> u.lock == 0
      modifies di`wb_queue, di`wbq, di`lock, di`table, di`units
      modifies di.units`wb_next, di.units`wb_prev, di.units`dirty
      modifies cbls`active, cbls`used, cbls`lock, cbls`free
      ensures Dropping(di, flight)
      ensures di.units == set u | u in old(di.units) && !InRange(u, sector, end)
      ensures forall u :: u in flight ==> u in old(di.units) && InRange(u, sector, end)
    {
      hide Di.SoundWith, Dropping, BlockUnit.Hashed, BioHash, Places, Owned, BlocksOK;
      flight := [];
      StartDropping(di);
      var i := 0;
      while i < HASHSIZE
        invariant 0 <= i <= HASHSIZE && Dropping(di, flight)
        invariant di.units <= old(di.units)
        invariant forall u :: u in old(di.units) && !InRange(u, sector, end) ==> u in di.units
        invariant forall u :: u in di.units && InRange(u, sector, end) ==> BioHash(u.sector) >= i
        invariant forall u :: u in flight ==> u in old(di.units) && InRange(u, sector, end)
      {
        flight := DropBucket(di, sector, end, i, flight);
        i := i + 1;
      }
    }

    lemma StartDropping(di: Di)
      requires Valid() && di in dis
      ensures Dropping(di, [])
    {
      hide Di.SoundWith, Located, Filled, CblOK;
    }

    lemma DroppingTable(di: Di, flight: seq<Unit>)
      requires Dropping(di, flight)
      ensures Hashed(di.table, di.units) && forall u :: u in di.units ==> u.di == di
    {
      hide Places, Owned, BlocksOK, Sounds;
    }

    method DropBucket(di: Di, sector: nat, end: nat, i: nat, ghost flight0: seq<Unit>) returns (ghost flight: seq<Unit>)
      requires Dropping(di, flight0) && i < HASHSIZE
      requires forall u :: u in di.units && InRange(u, sector, end) ==> u.lock == 0 && BioHash(u.sector) >= i
      requires forall u :: u in flight0 ==> InRange(u, sector, end)
      modifies di`wb_queue, di`wbq, di`lock, di`table, di`units
      modifies di.units`wb_next, di.units`wb_prev, di.units`dirty
      modifies cbls`active, cbls`used, cbls`lock, cbls`free
      ensures Dropping(di, flight) && di.units <= old(di.units)
      ensures forall u :: u in old(di.units) && !InRange(u, sector, end) ==> u in di.units
      ensures forall u :: u in di.units && InRange(u, sector, end) ==> BioHash(u.sector) >= i + 1
      ensures forall u :: u in flight ==> InRange(u, sector, end) && (u in flight0 || u in old(di.units))
    {
      hide Dropping, BlockUnit.Hashed, Di.Unhashed, BioHash;
      flight := flight0;
      var k := 0;
      DroppingTable(di, flight);
      TableShape(di.table, di.units);
      while k < |di.table[i]|
        invariant Dropping(di, flight) && di.units <= old(di.units) && |di.table| == HASHSIZE
        invariant 0 <= k <= |di.table[i]|
        invariant forall u :: u in old(di.units) && !InRange(u, sector, end) ==> u in di.units
        invariant forall j :: 0 <= j < k ==> !InRange(di.table[i][j], sector, end)
        invariant forall u :: u in flight ==> InRange(u, sector, end) && (u in flight0 || u in old(di.units))
        decreases |di.table[i]| - k
      {
        var u := di.table[i][k];
        DroppingTable(di, flight);
        Di.UnhashedAt(di.table, di.units, i, k);
        if InRange(u, sector, end) {
          flight := DropUnit(u, flight);
        } else {
          k := k + 1;
        }
      }
      DroppingTable(di, flight);
      InBucket(di.table, di.units);
    }

    lemma TableShape(table: seq<seq<Unit>>, units: set<Unit>)
      requires BlockUnit.Hashed(table, units)
      ensures |table| == HASHSIZE
    {
    }

    lemma InBucket(table: seq<seq<Unit>>, units: set<Unit>)
      requires BlockUnit.Hashed(table, units)
      ensures |table| == HASHSIZE && forall u :: u in units ==> u in table[BioHash(u.sector)]
    {
    }

    /** Each block in use lies inside the given range of logical sectors, or outside of it. */
    ghost predicate Whole(di: Di, sector: nat, end: nat, n: nat) {
      forall s :: s in di.layout ==> WholeAt(di, sector, end, n, s)
    }

    ghost predicate WholeAt(di: Di, sector: nat, end: nat, n: nat, s: nat)
      requires s in di.layout
    {
      var at, to := Times(s, di.lsize), Times(s, di.lsize) + di.layout[s];
      var from, til := Times(sector, di.lsize), Times(sector, di.lsize) + n;
      if sector <= s < end then from <= at && to <= til else to <= from || til <= at
    }

    /** Whole physical sectors on the medium. */
    ghost predicate Fits(di: Di, sector: nat, n: nat)
      reads di`dev, di`view
    {
      && 0 < di.pssize && 0 < di.lsize && |di.dev| == |di.view| && 0 < n
      && n == Times(n / di.pssize, di.pssize) && Times(sector, di.lsize) + n <= |di.dev|
    }

    /** bio_large_write: what the cache holds of the range is dropped, and the medium is written. */
    method LargeWrite(di: Di, sector: nat, x: seq<byte>) returns (r: int)
      requires Fits(di, sector, |x|)
      requires Whole(di, sector, sector + |x| / di.lsize, |x|)
      requires forall u :: u in di.units && InRange(u, sector, sector + |x| / di.lsize) ==> u.lock == 0
      requires Valid() && di in dis
      modifies di`wb_queue, di`wbq, di`lock, di`table, di`units, di`dev, di`log, di`view
      modifies di.units`wb_next, di.units`wb_prev, di.units`dirty
      modifies cbls`active, cbls`used, cbls`lock, cbls`free
      ensures r == E_OK
      ensures di.view == Splice(old(di.view), Times(sector, di.lsize), x)
      ensures di.dev == Splice(old(di.dev), Times(sector, di.lsize), x) && di.log == old(di.log) + [(sector, x)]
      ensures Valid()
      ensures di.units == set u | u in old(di.units) && !(sector <= u.sector < sector + |x| / di.lsize)
      ensures di.units <= old(di.units) && forall u :: u in old(di.units) && u !in di.units ==> u.lock == 0
    {
      hide Di.SoundWith, Di.Sound, Dropping, Whole, Times, Splice, Places, Owned, BlocksOK, Sounds, Filled, Located;
      var end := sector + |x| / di.lsize;
      OwnPlaces(di, sector, end, |x|);
      ghost var flight := DropRange(di, sector, end);
      FinishLarge(di, sector, x, end, flight);
      r := E_OK;
    }

    lemma OwnPlaces(di: Di, sector: nat, end: nat, n: nat)
      requires Valid() && di in dis && Whole(di, sector, end, n)
      ensures forall u :: u in di.units ==> Placed(di, u, sector, end, n)
    {
      hide Located, Filled, Times, AgreeOutside, CblOK, BlockUnit.Hashed, Di.Queued, Di.Counted;
      forall u | u in di.units
        ensures Placed(di, u, sector, end, n)
      {
        SizeOf(di, u);
        AddrIs(u);
      }
    }

    ghost predicate Placed(di: Di, u: Unit, sector: nat, end: nat, n: nat) {
      var from, til := Times(sector, di.lsize), Times(sector, di.lsize) + n;
      if InRange(u, sector, end) then from <= Addr(u) && Addr(u) + u.size <= til
      else Addr(u) + u.size <= from || til <= Addr(u)
    }

    method FinishLarge(di: Di, sector: nat, x: seq<byte>, ghost end: nat, ghost flight: seq<Unit>)
      requires Fits(di, sector, |x|)
      requires Dropping(di, flight)
      requires forall u :: u in di.units ==> !InRange(u, sector, end) && Placed(di, u, sector, end, |x|)
      requires forall u :: u in flight ==> InRange(u, sector, end) && Placed(di, u, sector, end, |x|)
      modifies di`dev, di`log, di`view
      ensures di.view == Splice(old(di.view), Times(sector, di.lsize), x)
      ensures di.dev == Splice(old(di.dev), Times(sector, di.lsize), x) && di.log == old(di.log) + [(sector, x)]
      ensures Valid()
    {
      hide Di.SoundWith, Di.Sound, Times, Located, CblOK, Addr, Off;
      di.Overwrite(x, sector, flight);
      SoundsKept(di);
      PlacesBeside(null, Times(sector, di.lsize), x);
      BlocksKept(null);
    }

    // -------------------------------------------------------------- requests of several blocks

    /** `blocks` blocks of size bs in use, one after the other from the sector on. */
    ghost predicate Region(di: Di, sector: nat, blocks: nat, bs: nat) {
      && 0 < di.lsize && 0 < bs / di.lsize && bs == Times(bs / di.lsize, di.lsize)
      && forall k :: 0 <= k < blocks ==>
           var s := sector + Times(k, bs / di.lsize); s in di.layout && di.layout[s] == bs
    }

    /** Where the blocks of a region lie. */
    lemma RegionAt(di: Di, sector: nat, blocks: nat, bs: nat, k: nat)
      requires Region(di, sector, blocks, bs) && k <= blocks
      ensures 0 < di.lsize
      ensures Times(sector + Times(k, bs / di.lsize), di.lsize) == Times(sector, di.lsize) + Times(k, bs)
      ensures Times(k, bs) / di.lsize == Times(k, bs / di.lsize)
      ensures Times(k, bs) + Times(blocks - k, bs) == Times(blocks, bs)
      ensures k < blocks ==> Times(k, bs) + bs == Times(k + 1, bs) <= Times(blocks, bs)
      ensures Times(k + 1, bs / di.lsize) == Times(k, bs / di.lsize) + bs / di.lsize
    {
      var incr := bs / di.lsize;
      TimesTimes(k, incr, di.lsize);
      TimesAdd(sector, Times(k, incr), di.lsize);
      QuotientIs(Times(k, incr), Times(k, bs), di.lsize);
      TimesAdd(k, blocks - k, bs);
      if k < blocks {
        TimesMono(k + 1, blocks, bs);
      }
    }

    lemma RegionPart(di: Di, sector: nat, blocks: nat, bs: nat, k: nat, m: nat)
      requires Region(di, sector, blocks, bs) && k + m <= blocks
      ensures Region(di, sector + Times(k, bs / di.lsize), m, bs)
    {
      var incr := bs / di.lsize;
      forall j | 0 <= j < m
        ensures var s := sector + Times(k, incr) + Times(j, incr); s in di.layout && di.layout[s] == bs
      {
        TimesAdd(k, j, incr);
        assert 0 <= k + j < blocks;
      }
    }

    /** A region is made of whole blocks. */
    lemma RegionWhole(di: Di, sector: nat, blocks: nat, bs: nat)
      requires Region(di, sector, blocks, bs) && 0 < blocks && 0 < di.pssize
      requires LayoutOK(di.layout, di.pssize, di.lsize, |di.dev|)
      ensures Whole(di, sector, sector + Times(blocks, bs) / di.lsize, Times(blocks, bs))
    {
      hide Times, LayoutOK, Region, WholeAt;
      RegionFirst(di, sector, blocks, bs);
      forall s | s in di.layout
        ensures WholeAt(di, sector, sector + Times(blocks, bs) / di.lsize, Times(blocks, bs), s)
      {
        RegionBlock(di, sector, blocks, bs, s);
      }
    }

    lemma RegionFits(di: Di, sector: nat, blocks: nat, bs: nat)
      requires Region(di, sector, blocks, bs) && 0 < blocks && 0 < di.pssize && |di.dev| == |di.view|
      requires LayoutOK(di.layout, di.pssize, di.lsize, |di.dev|)
      ensures Fits(di, sector, Times(blocks, bs))
    {
      hide Times, LayoutOK, Region;
      RegionFirst(di, sector, blocks, bs);
      LayoutApart(di, sector, sector);
      LastRoom(di, sector, blocks, bs);
      WholeNumber(blocks, bs, di.pssize);
    }

    lemma LayoutRoom(di: Di, s: nat)
      requires 0 < di.pssize && LayoutOK(di.layout, di.pssize, di.lsize, |di.dev|) && s in di.layout
      ensures Times(s, di.lsize) + di.layout[s] <= |di.dev|
    {
      hide Times;
    }

    lemma LastRoom(di: Di, sector: nat, blocks: nat, bs: nat)
      requires Region(di, sector, blocks, bs) && 0 < blocks && 0 < di.pssize
      requires LayoutOK(di.layout, di.pssize, di.lsize, |di.dev|)
      ensures Times(sector, di.lsize) + Times(blocks, bs) <= |di.dev|
    {
      hide *;
      RegionAt(di, sector, blocks, bs, blocks - 1);
      RegionHas(di, sector, blocks, bs, blocks - 1);
      LayoutRoom(di, sector + Times(blocks - 1, bs / di.lsize));
    }

    lemma WholeNumber(blocks: nat, bs: nat, ps: nat)
      requires 0 < ps && bs == Times(bs / ps, ps)
      ensures Times(blocks, bs) == Times(Times(blocks, bs) / ps, ps)
    {
      TimesTimes(blocks, bs / ps, ps);
      QuotientIs(Times(blocks, bs / ps), Times(blocks, bs), ps);
    }

    lemma RegionFirst(di: Di, sector: nat, blocks: nat, bs: nat)
      requires Region(di, sector, blocks, bs) && 0 < blocks
      ensures sector in di.layout && di.layout[sector] == bs && 0 < bs && 0 < di.lsize
      ensures Times(blocks - 1, bs) + bs == Times(blocks, bs)
    {
      assert Times(0, bs / di.lsize) == 0;
    }

    lemma LayoutApart(di: Di, s: nat, t: nat)
      requires 0 < di.pssize && LayoutOK(di.layout, di.pssize, di.lsize, |di.dev|) && s in di.layout && t in di.layout
      ensures 0 < di.layout[s] && Times(s, di.lsize) + di.layout[s] <= |di.dev|
      ensures di.layout[s] == Times(di.layout[s] / di.pssize, di.pssize)
      ensures s == t || Times(s, di.lsize) + di.layout[s] <= Times(t, di.lsize)
        || Times(t, di.lsize) + di.layout[t] <= Times(s, di.lsize)
    {
      hide Times;
    }

    lemma RegionBlock(di: Di, sector: nat, blocks: nat, bs: nat, s: nat)
      requires Region(di, sector, blocks, bs) && 0 < blocks && 0 < di.pssize
      requires LayoutOK(di.layout, di.pssize, di.lsize, |di.dev|) && s in di.layout
      ensures WholeAt(di, sector, sector + Times(blocks, bs) / di.lsize, Times(blocks, bs), s)
    {
      hide Times, LayoutOK, Region;
      RegionAt(di, sector, blocks, bs, blocks);
      RegionFirst(di, sector, blocks, bs);
      var end := sector + Times(blocks, bs) / di.lsize;
      LayoutApart(di, s, sector);
      if s < sector {
        TimesMono(s, sector, di.lsize);
        TimesMono(0, blocks - 1, bs);
      } else if s < end {
        var _ := RegionStarts(di, sector, blocks, bs, s);
      } else {
        TimesMono(end, s, di.lsize);
      }
    }

    /** A block in use that starts inside a region is one of its blocks. */
    lemma RegionStarts(di: Di, sector: nat, blocks: nat, bs: nat, s: nat) returns (k: nat)
      requires Region(di, sector, blocks, bs) && 0 < di.pssize
      requires LayoutOK(di.layout, di.pssize, di.lsize, |di.dev|) && s in di.layout
      requires sector <= s < sector + Times(blocks, bs / di.lsize)
      ensures k < blocks && s == sector + Times(k, bs / di.lsize)
      ensures Times(sector, di.lsize) <= Times(s, di.lsize) && di.layout[s] == bs
      ensures Times(s, di.lsize) + bs <= Times(sector, di.lsize) + Times(blocks, bs)
    {
      hide Times, LayoutOK, Region;
      var incr, o;
      incr, k, o := SplitOff(di, sector, blocks, bs, s);
      var start := sector + Times(k, incr);
      RegionAt(di, sector, blocks, bs, k);
      LayoutApart(di, s, start);
      TimesMono(start, s, di.lsize);
      TimesAdd(start, incr, di.lsize);
      TimesMono(s, start + incr, di.lsize);
    }

    lemma SplitOff(di: Di, sector: nat, blocks: nat, bs: nat, s: nat) returns (incr: nat, k: nat, o: nat)
      requires Region(di, sector, blocks, bs) && sector <= s < sector + Times(blocks, bs / di.lsize)
      ensures incr == bs / di.lsize && 0 < incr && bs == Times(incr, di.lsize) && 0 < di.lsize
      ensures k < blocks && s == sector + Times(k, incr) + o && o < incr
      ensures sector + Times(k, incr) in di.layout && di.layout[sector + Times(k, incr)] == bs
    {
      hide Times;
      incr := bs / di.lsize;
      k, o := Block(s - sector, incr);
      if blocks <= k {
        TimesMono(blocks, k, incr);
      }
    }

    lemma Block(a: nat, b: nat) returns (q: nat, r: nat)
      requires 0 < b
      ensures a == Times(q, b) + r && r < b
    {
      q, r := a / b, a % b;
      TimesIs(q, b);
    }

    lemma LayoutAccepts(di: Di, sector: nat)
      requires di.Sound() && sector in di.layout
      ensures 0 < di.pssize && Accepts(di, sector, di.layout[sector])
    {
      hide Times, LayoutOK, Di.Queued, Di.Counted, Di.Blocks, AgreeOutside;
      LayoutApart(di, sector, sector);
      di.InPartition(sector, di.layout[sector] / di.pssize);
    }

    /** There is a unit for the block. */
    ghost predicate Cached(units: set<Unit>, sector: nat) {
      exists u :: u in units && u.sector == sector
    }

    /** ... and for each of these blocks. */
    ghost predicate AllCached(units: set<Unit>, sector: nat, blocks: nat, incr: nat) {
      forall k :: 0 <= k < blocks ==> Cached(units, sector + Times(k, incr))
    }

    lemma CachedIs(units: set<Unit>, sector: nat)
      ensures (forall u :: u in units ==> u.sector != sector) ==> !Cached(units, sector)
    {
    }

    lemma CachedAt(units: set<Unit>, sector: nat, blocks: nat, incr: nat, k: nat)
      requires k < blocks && AllCached(units, sector, blocks, incr)
      ensures Cached(units, sector + Times(k, incr))
    {
    }

    /** bio_getunit1 */
    method GetUnit1(di: Di, sector: nat, size: nat) returns (u: Unit?, err: int)
      requires Valid() && di in dis && Request(di, sector, size)
      modifies this`repr, this`all, dis`wb_queue, dis`wbq, dis`lock, dis`dev, dis`log, dis`table, dis`units
      modifies all`wb_next, all`wb_prev, all`dirty, all`stat
      modifies cbls`active, cbls`used, cbls`lock, cbls`free, cbls`stat
      ensures err == if u != null then E_OK else if Accepts(di, sector, size) then ENOMEM else ESECTOR
      ensures u != null ==> Ready(u) && u.di == di && u.sector == sector && u.size == size
      ensures Cached(old(di.units), sector) ==>
        u != null && u.stat == c20ms && di.dev == old(di.dev) && di.log == old(di.log) && di.units == old(di.units)
      ensures u == null ==> Valid()
      ensures fresh(repr - old(repr))
      ensures old(all) <= all && fresh(all - old(all))
      ensures forall d, v :: d in dis && v in d.units && v !in old(d.units) ==> v.lock == 0
      ensures forall d, v :: d in dis && v in old(d.units) && v !in d.units ==> v.lock == 0
    {
      hide Di.Sound, Filled, Located, CblOK, Accepts, NChunks;
      err := E_OK;
      u := Lookup(di, sector);
      if u == null {
        u, err := UnitGet(di, sector, size);
      } else {
        SizeOf(di, u);
      }
    }

    /** One round of bio_small_write. */
    method SmallStep(di: Di, sector: nat, x: seq<byte>) returns (err: int)
      requires Valid() && di in dis && sector in di.layout && di.layout[sector] == |x| && NChunks(|x|) <= chunks
      modifies this`repr, this`all, dis`wb_queue, dis`wbq, dis`lock, dis`dev, dis`log, dis`table, dis`units, di`view,
        di`key
      modifies all`wb_next, all`wb_prev, all`dirty, all`stat
      modifies cbls`active, cbls`used, cbls`lock, cbls`free, cbls`stat, cbls`data
      ensures Valid() && (err == E_OK || err == ENOMEM)
      ensures Times(sector, di.lsize) + |x| <= |old(di.view)|
      ensures di.view == if err == E_OK then Splice(old(di.view), Times(sector, di.lsize), x) else old(di.view)
      ensures Cached(old(di.units), sector) ==>
        err == E_OK && di.dev == old(di.dev) && di.log == old(di.log) && di.units == old(di.units)
      ensures fresh(repr - old(repr))
      ensures old(all) <= all && fresh(all - old(all))
      ensures forall d, v :: d in dis && v in d.units && v !in old(d.units) ==> v.lock == 0
      ensures forall d, v :: d in dis && v in old(d.units) && v !in d.units ==> v.lock == 0
    {
      hide Di.Sound, Filled, Located, CblOK, Accepts, NChunks, Splice, Addr;
      LayoutAccepts(di, sector);
      di.BlockRoom(sector);
      var u;
      u, err := GetUnit1(di, sector, |x|);
      if u != null {
        AddrIs(u);
        LocatedIn(u);
        assert u.di == di && u.cbl in cbls;
        PutBlock(u, x);
      }
    }

    ghost predicate Unlocked(di: Di, sector: nat, end: nat)
      reads di`units, di.units`lock
    {
      forall u :: u in di.units && InRange(u, sector, end) ==> u.lock == 0
    }

    /** bio_large_write of whole blocks. */
    method LargeBlocks(di: Di, sector: nat, blocks: nat, bs: nat, x: seq<byte>) returns (r: int)
      requires Region(di, sector, blocks, bs) && 0 < blocks && |x| == Times(blocks, bs)
      requires Unlocked(di, sector, sector + Times(blocks, bs / di.lsize))
      requires Valid() && di in dis
      modifies di`wb_queue, di`wbq, di`lock, di`table, di`units, di`dev, di`log, di`view
      modifies di.units`wb_next, di.units`wb_prev, di.units`dirty
      modifies cbls`active, cbls`used, cbls`lock, cbls`free
      ensures r == E_OK && Times(sector, di.lsize) + |x| <= |old(di.view)| == |old(di.dev)|
      ensures di.view == Splice(old(di.view), Times(sector, di.lsize), x)
      ensures di.dev == Splice(old(di.dev), Times(sector, di.lsize), x) && di.log == old(di.log) + [(sector, x)]
      ensures di.units == set u | u in old(di.units)
        && !(sector <= u.sector < sector + Times(blocks, bs / di.lsize))
      ensures Valid()
      ensures di.units <= old(di.units) && forall u :: u in old(di.units) && u !in di.units ==> u.lock == 0
    {
      hide Di.SoundWith, Di.Sound, Splice, Places, Owned, BlocksOK, Filled, Located, Region, LayoutOK, Times, Whole,
        Fits;
      DiskFacts(di);
      RegionAt(di, sector, blocks, bs, blocks);
      RegionWhole(di, sector, blocks, bs);
      RegionFits(di, sector, blocks, bs);
      FitsView(di, sector, |x|);
      r := LargeWrite(di, sector, x);
    }

    lemma DiskFacts(di: Di)
      requires di.Sound()
      ensures 0 < di.pssize && 0 < di.lsize && |di.dev| == |di.view|
        && LayoutOK(di.layout, di.pssize, di.lsize, |di.dev|)
    {
      hide Times, LayoutOK, Di.Queued, Di.Counted, Di.Blocks, AgreeOutside;
    }

    lemma FitsView(di: Di, sector: nat, n: nat)
      requires Fits(di, sector, n)
      ensures 0 < di.lsize && Times(sector, di.lsize) + n <= |di.view|
    {
    }

    lemma RegionHas(di: Di, sector: nat, blocks: nat, bs: nat, k: nat)
      requires Region(di, sector, blocks, bs) && k < blocks
      ensures var s := sector + Times(k, bs / di.lsize); s in di.layout && di.layout[s] == bs
    {
    }

    lemma RegionStart(di: Di, sector: nat, blocks: nat, bs: nat)
      requires Region(di, sector, blocks, bs) && Valid() && di in dis
      ensures 0 < di.lsize && 0 < bs && 0 < bs / di.lsize && Times(0, bs / di.lsize) == 0 && Times(0, bs) == 0
      ensures 0 < blocks ==> Times(sector, di.lsize) + Times(blocks, bs) <= |di.dev| == |di.view|
    {
      hide Di.SoundWith, Places, Owned, BlocksOK, LayoutOK;
      DiskFacts(di);
      if 0 < blocks {
        RegionFirst(di, sector, blocks, bs);
        LastRoom(di, sector, blocks, bs);
      }
    }

    /** The fall back of bio_small_write for the blocks from the k-th on. */
    method WriteRest(di: Di, ghost sector: nat, blocks: nat, bs: nat, x: seq<byte>, k: nat, s: nat, done: nat)
      returns (r: int)
      requires Region(di, sector, blocks, bs) && k < blocks && |x| == Times(blocks, bs)
      requires s == sector + Times(k, bs / di.lsize) && done == Times(k, bs) <= |x|
      requires Unlocked(di, sector, sector + Times(blocks, bs / di.lsize))
      requires Times(sector, di.lsize) + |x| <= |di.view|
      requires Valid() && di in dis
      modifies di`wb_queue, di`wbq, di`lock, di`table, di`units, di`dev, di`log, di`view
      modifies di.units`wb_next, di.units`wb_prev, di.units`dirty
      modifies cbls`active, cbls`used, cbls`lock, cbls`free
      ensures r == E_OK
      ensures di.view == Splice(old(di.view), Times(sector, di.lsize) + done, x[done..])
      ensures Valid()
      ensures di.units <= old(di.units) && forall u :: u in old(di.units) && u !in di.units ==> u.lock == 0
    {
      hide Di.SoundWith, Di.Sound, Splice, Valid, Region, LayoutOK, Times;
      RegionAt(di, sector, blocks, bs, k);
      RegionPart(di, sector, blocks, bs, k, blocks - k);
      TimesAdd(k, blocks - k, bs / di.lsize);
      r := LargeBlocks(di, s, blocks - k, bs, x[done..]);
    }

    lemma InAll(d: Di)
      requires d in dis && Valid()
      ensures d.units <= all
    {
    }

    /** One round of bio_small_write: a block goes into the cache, or if there is no room all blocks
        that are left go past it. */
    method SmallRound(di: Di, ghost sector: nat, blocks: nat, bs: nat, x: seq<byte>, k: nat, s: nat, done: nat,
                      ghost view0: seq<byte>)
      returns (over: bool, r: int)
      requires Region(di, sector, blocks, bs) && k < blocks && |x| == Times(blocks, bs) && NChunks(bs) <= chunks
      requires s == sector + Times(k, bs / di.lsize) && done == Times(k, bs) <= |x|
      requires Unlocked(di, sector, sector + Times(blocks, bs / di.lsize))
      requires Times(sector, di.lsize) + |x| <= |view0| && di.view == Splice(view0, Times(sector, di.lsize), x[..done])
      requires Valid() && di in dis
      modifies this`repr, this`all, dis`wb_queue, dis`wbq, dis`lock, dis`dev, dis`log, dis`table, dis`units, di`view,
        di`key
      modifies all`wb_next, all`wb_prev, all`dirty, all`stat
      modifies cbls`active, cbls`used, cbls`lock, cbls`free, cbls`stat, cbls`data
      ensures r == E_OK && done + bs == Times(k + 1, bs) <= |x|
      ensures s + bs / di.lsize == sector + Times(k + 1, bs / di.lsize)
      ensures di.view == Splice(view0, Times(sector, di.lsize), x[..if over then |x| else done + bs])
      ensures Cached(old(di.units), s) ==>
        !over && di.dev == old(di.dev) && di.log == old(di.log) && di.units == old(di.units)
      ensures Valid() && Unlocked(di, sector, sector + Times(blocks, bs / di.lsize))
      ensures fresh(repr - old(repr)) && old(all) <= all && fresh(all - old(all))
      ensures forall d, v :: d in dis && v in old(d.units) && v !in d.units ==> v.lock == 0
    {
      hide Di.SoundWith, Di.Sound, Splice, Valid, Region, LayoutOK, Times, Whole, Fits, NChunks, InRange, Cached;
      RegionAt(di, sector, blocks, bs, k);
      RegionHas(di, sector, blocks, bs, k);
      r := SmallStep(di, s, x[done..done + bs]);
      over := r == ENOMEM;
      if over {
        InAll(di);
        r := WriteRest(di, sector, blocks, bs, x, k, s, done);
        SpliceJoin(view0, Times(sector, di.lsize), x, done, |x|);
      } else {
        SpliceJoin(view0, Times(sector, di.lsize), x, done, done + bs);
      }
    }

    /** bio_small_write: block by block through the cache; what finds no room there is written past
        it. */
    method SmallWrite(di: Di, sector: nat, blocks: nat, bs: nat, x: seq<byte>) returns (r: int)
      requires Region(di, sector, blocks, bs) && 0 < blocks && |x| == Times(blocks, bs)
      requires NChunks(bs) <= chunks
      requires Unlocked(di, sector, sector + Times(blocks, bs / di.lsize))
      requires Valid() && di in dis
      modifies this`repr, this`all, dis`wb_queue, dis`wbq, dis`lock, dis`dev, dis`log, dis`table, dis`units, di`view,
        di`key
      modifies all`wb_next, all`wb_prev, all`dirty, all`stat
      modifies cbls`active, cbls`used, cbls`lock, cbls`free, cbls`stat, cbls`data
      ensures r == E_OK && Times(sector, di.lsize) + |x| <= |old(di.view)|
      ensures di.view == Splice(old(di.view), Times(sector, di.lsize), x)
      ensures AllCached(old(di.units), sector, blocks, bs / di.lsize) ==>
        di.dev == old(di.dev) && di.log == old(di.log) && di.units == old(di.units)
      ensures Valid() && fresh(repr - old(repr))
      ensures old(all) <= all && fresh(all - old(all))
      ensures forall d, v :: d in dis && v in old(d.units) && v !in d.units ==> v.lock == 0
    {
      hide *;
      ghost var view0 := di.view;
      r := E_OK;
      RegionStart(di, sector, blocks, bs);
      SpliceNone(view0, Times(sector, di.lsize));
      assert x[..0] == [];
      var incr := bs / di.lsize;
      var s := sector;
      var k: nat := 0;
      var done := 0;
      while k < blocks
        invariant k <= blocks && s == sector + Times(k, incr) && done == Times(k, bs) <= |x|
        invariant r == E_OK && Times(sector, di.lsize) + |x| <= |view0|
        invariant di.view == Splice(view0, Times(sector, di.lsize), x[..done])
        invariant Valid() && fresh(repr - old(repr)) && Unlocked(di, sector, sector + Times(blocks, incr))
        invariant AllCached(old(di.units), sector, blocks, incr) ==>
          di.dev == old(di.dev) && di.log == old(di.log) && di.units == old(di.units)
        invariant old(all) <= all && fresh(all - old(all))
        invariant forall d, v :: d in dis && v in old(d.units) && v !in d.units ==> v.lock == 0
      {
        if AllCached(old(di.units), sector, blocks, incr) {
          CachedAt(di.units, sector, blocks, incr, k);
        }
        var over;
        over, r := SmallRound(di, sector, blocks, bs, x, k, s, done, view0);
        if over {
          assert x[..|x|] == x;
          break;
        }
        done := done + bs;
        s := s + incr;
        k := k + 1;
      }
      assert x[..|x|] == x;
    }

    /** bio_l_write */
    method LWrite(di: Di, sector: nat, blocks: nat, bs: nat, x: seq<byte>) returns (r: int)
      requires Region(di, sector, blocks, bs) && 0 < blocks && |x| == Times(blocks, bs)
      requires Unlocked(di, sector, sector + Times(blocks, bs / di.lsize))
      requires Valid() && di in dis
      modifies this`repr, this`all, dis`wb_queue, dis`wbq, dis`lock, dis`dev, dis`log, dis`table, dis`units, di`view,
        di`key
      modifies all`wb_next, all`wb_prev, all`dirty, all`stat
      modifies cbls`active, cbls`used, cbls`lock, cbls`free, cbls`stat, cbls`data
      ensures r == E_OK && Times(sector, di.lsize) + |x| <= |old(di.view)|
      ensures di.view == Splice(old(di.view), Times(sector, di.lsize), x) && |old(di.dev)| == |old(di.view)|
      ensures if |x| > chunks * CHUNK_SIZE
        then
          && di.dev == Splice(old(di.dev), Times(sector, di.lsize), x) && di.log == old(di.log) + [(sector, x)]
          && di.units == set u | u in old(di.units) && !(sector <= u.sector < sector + Times(blocks, bs / di.lsize))
        else AllCached(old(di.units), sector, blocks, bs / di.lsize) ==>
          di.dev == old(di.dev) && di.log == old(di.log) && di.units == old(di.units)
      ensures Valid() && fresh(repr - old(repr))
      ensures old(all) <= all && fresh(all - old(all))
      ensures forall d, v :: d in dis && v in old(d.units) && v !in d.units ==> v.lock == 0
    {
      hide Di.SoundWith, Di.Sound, Splice, Valid, Region, LayoutOK, Times, AllCached;
      RegionStart(di, sector, blocks, bs);
      if |x| > chunks * CHUNK_SIZE {
        InAll(di);
        r := LargeBlocks(di, sector, blocks, bs, x);
      } else {
        SmallEnough(blocks, bs);
        r := SmallWrite(di, sector, blocks, bs, x);
      }
    }

    lemma SmallEnough(blocks: nat, bs: nat)
      requires 0 < blocks && Times(blocks, bs) <= chunks * CHUNK_SIZE
      ensures NChunks(bs) <= chunks
    {
      TimesMono(1, blocks, bs);
      TimesOne(1, bs);
    }

    // -------------------------------------------------------------- reading several blocks

    /** None of the blocks of a region is in the cache. */
    ghost predicate Missed(di: Di, sector: nat, blocks: nat, incr: nat)
      reads di`units
    {
      forall k, u :: 0 <= k < blocks && u in di.units ==> u.sector != sector + Times(k, incr)
    }

    lemma MissedInside(di: Di, sector: nat, blocks: nat, bs: nat)
      requires Region(di, sector, blocks, bs) && Missed(di, sector, blocks, bs / di.lsize) && 0 < di.pssize
      requires LayoutOK(di.layout, di.pssize, di.lsize, |di.dev|)
      ensures forall u :: u in di.units && u.sector in di.layout ==>
        !(sector <= u.sector < sector + Times(blocks, bs / di.lsize))
    {
      hide Times, LayoutOK;
      forall u | u in di.units && u.sector in di.layout
        ensures !(sector <= u.sector < sector + Times(blocks, bs / di.lsize))
      {
        if sector <= u.sector < sector + Times(blocks, bs / di.lsize) {
          var k := RegionStarts(di, sector, blocks, bs, u.sector);
          assert false;
        }
      }
    }

    /** Where the cache holds nothing, the medium is up to date. */
    lemma MissedSame(di: Di, sector: nat, blocks: nat, bs: nat)
      requires Region(di, sector, blocks, bs) && 0 < blocks && Missed(di, sector, blocks, bs / di.lsize)
      requires di.Sound()
      ensures Fits(di, sector, Times(blocks, bs))
      ensures var at, n := Times(sector, di.lsize), Times(blocks, bs); di.dev[at..at + n] == di.view[at..at + n]
    {
      hide Times, LayoutOK, Region, Di.Linked, Di.Counted, AgreeOutside, BlockUnit.Hashed, Addr, Fits;
      DiskFacts(di);
      RegionFits(di, sector, blocks, bs);
      FitsView(di, sector, Times(blocks, bs));
      RegionWhole(di, sector, blocks, bs);
      RegionAt(di, sector, blocks, bs, blocks);
      MissedInside(di, sector, blocks, bs);
      forall u | u in di.wbq
        ensures Addr(u) + u.size <= Times(sector, di.lsize) || Times(sector, di.lsize) + Times(blocks, bs) <= Addr(u)
      {
        assert u in di.units;
        SizeOf(di, u);
        AddrIs(u);
      }
      assert di.wbq + [] == di.wbq;
      AgreeMiss(di.dev, di.view, di.wbq, Times(sector, di.lsize), Times(blocks, bs));
    }

    /** bio_units_add: blocks just read are entered into the cache, as long as there is room. */
    method UnitsAdd(di: Di, sector: nat, blocks: nat, bs: nat, x: seq<byte>)
      requires Region(di, sector, blocks, bs) && Missed(di, sector, blocks, bs / di.lsize) && |x| == Times(blocks, bs)
      requires NChunks(bs) <= chunks && Times(sector, di.lsize) + |x| <= |di.view|
      requires x == di.view[Times(sector, di.lsize)..Times(sector, di.lsize) + |x|]
      requires Valid() && di in dis
      modifies this`repr, this`all, dis`wb_queue, dis`wbq, dis`lock, dis`dev, dis`log, dis`table, dis`units
      modifies all`wb_next, all`wb_prev, all`dirty
      modifies cbls`active, cbls`used, cbls`lock, cbls`free, cbls`stat, cbls`data
      ensures Valid() && fresh(repr - old(repr)) && old(all) <= all && fresh(all - old(all))
      ensures |x| * 100 > percentage ==> di.units == old(di.units) && di.dev == old(di.dev) && di.log == old(di.log)
      ensures |x| * 100 <= percentage && 0 < blocks && old(Obliging()) ==>
        Cached(di.units, sector + Times(blocks - 1, bs / di.lsize))
      ensures forall d, v :: d in dis && v in old(d.units) && v !in d.units ==> v.lock == 0
    {
      hide Di.SoundWith, Di.Sound, Valid, Region, LayoutOK, Times, NChunks, Obliging, Cached, Missed;
      RegionStart(di, sector, blocks, bs);
      if |x| * 100 <= percentage {
        var incr := bs / di.lsize;
        var s := sector;
        var k: nat := 0;
        var done := 0;
        while k < blocks
          invariant k <= blocks && s == sector + Times(k, incr) && done == Times(k, bs) <= |x|
          invariant Missed(di, s, blocks - k, incr)
          invariant old(Obliging()) ==> Obliging() && (0 < k ==> Cached(di.units, sector + Times(k - 1, incr)))
          invariant Valid() && fresh(repr - old(repr)) && old(all) <= all && fresh(all - old(all))
          invariant forall d, v :: d in dis && v in old(d.units) && v !in d.units ==> v.lock == 0
        {
          RegionAt(di, sector, blocks, bs, k);
          RegionHas(di, sector, blocks, bs, k);
          SliceOfSlice(di.view, Times(sector, di.lsize), |x|, done, done + bs);
          var ok := UnitAdd(di, s, blocks - k, incr, x[done..done + bs]);
          if !ok {
            break;
          }
          done := done + bs;
          s := s + incr;
          k := k + 1;
        }
      }
    }

    method UnitAdd(di: Di, s: nat, ghost rest: nat, ghost incr: nat, x: seq<byte>) returns (ok: bool)
      requires s in di.layout && di.layout[s] == |x| && NChunks(|x|) <= chunks && Times(s, di.lsize) + |x| <= |di.view|
      requires x == di.view[Times(s, di.lsize)..Times(s, di.lsize) + |x|]
      requires 0 < rest && 0 < incr && Missed(di, s, rest, incr)
      requires Valid() && di in dis
      modifies this`repr, this`all, dis`wb_queue, dis`wbq, dis`lock, dis`dev, dis`log, dis`table, dis`units
      modifies all`wb_next, all`wb_prev, all`dirty
      modifies cbls`active, cbls`used, cbls`lock, cbls`free, cbls`stat, cbls`data
      ensures Valid() && fresh(repr - old(repr)) && old(all) <= all && fresh(all - old(all))
      ensures Missed(di, s + incr, rest - 1, incr)
      ensures old(Obliging()) ==> ok && Obliging() && Cached(di.units, s)
      ensures forall d, v :: d in dis && v in old(d.units) && v !in d.units ==> v.lock == 0
    {
      hide Di.SoundWith, Di.Sound, Located, Filled, CblOK, Times, NChunks, Accepts, Missed;
      hide Obliging, BestBlock, BestRange;
      LayoutAccepts(di, s);
      MissedFirst(di, s, rest, incr);
      ghost var units0 := di.units;
      MissedIs(di, s, rest, incr);
      label Before:
      var u, err := UnitGet(di, s, |x|);
      ok := u != null;
      ObligingKept@Before(NChunks(|x|));
      if ok {
        LocatedIn(u);
        Fill(u, x);
      }
      MissedLater(di, units0, s, rest, incr);
    }

    /** Locks and times that stay leave it so. */
    twostate lemma ObligingKept(n: nat)
      requires c20ms == old(c20ms)
      requires forall b :: b in cbls ==> b.lock == old(b.lock) && (b.stat == old(b.stat) || b.stat == c20ms)
      ensures old(Obliging()) ==> Obliging()
      ensures old(Obliging()) ==>
        !forall k :: 0 <= k < |cbls| && old(cbls[k].lock) == 0 ==>
          old(cbls[k].free) <= n && 4294967295 <= old(cbls[k].stat)
    {
      if old(Obliging()) {
        var k :| 0 <= k < |cbls| && old(cbls[k].lock) == 0 && old(cbls[k].stat) < 0xffff_ffff;
        assert cbls[k].lock == 0;
      }
    }

    lemma MissedFirst(di: Di, s: nat, rest: nat, incr: nat)
      requires Missed(di, s, rest, incr) && 0 < rest
      ensures forall u :: u in di.units ==> u.sector != s
    {
      assert Times(0, incr) == 0;
    }

    lemma MissedIs(di: Di, s: nat, rest: nat, incr: nat)
      requires Missed(di, s, rest, incr)
      ensures NoneOf(di.units, s, rest, incr)
    {
    }

    ghost predicate NoneOf(units: set<Unit>, sector: nat, blocks: nat, incr: nat) {
      forall k, u :: 0 <= k < blocks && u in units ==> u.sector != sector + Times(k, incr)
    }

    /** Once the first block is in the cache, the others are still missed. */
    lemma MissedLater(di: Di, units0: set<Unit>, s: nat, rest: nat, incr: nat)
      requires NoneOf(units0, s, rest, incr) && 0 < rest && 0 < incr
      requires forall u :: u in di.units ==> u in units0 || u.sector == s
      ensures Missed(di, s + incr, rest - 1, incr)
    {
      forall k, u | 0 <= k < rest - 1 && u in di.units
        ensures u.sector != s + incr + Times(k, incr)
      {
        assert Times(k + 1, incr) == Times(k, incr) + incr;
      }
    }

    lemma MissedMore(di: Di, start: nat, m: nat, incr: nat, s: nat)
      requires Missed(di, start, m, incr) && s == start + Times(m, incr)
      requires forall u :: u in di.units ==> u.sector != s
      ensures Missed(di, start, m + 1, incr)
    {
    }

    /** quickmovb to the caller's buffer */
    method CopyOut(buf: array<byte>, at: nat, x: seq<byte>)
      requires at + |x| <= buf.Length
      modifies buf
      ensures buf[..] == Splice(old(buf[..]), at, x)
    {
      forall j | 0 <= j < |x| {
        buf[at + j] := x[j];
      }
    }

    /** The end of a run of blocks that are not in the cache: they are read at once. */
    method ReadRun(di: Di, tstart: nat, tblocks: nat, bs: nat, buf: array<byte>, at: nat)
      requires Region(di, tstart, tblocks, bs) && 0 < tblocks && Missed(di, tstart, tblocks, bs / di.lsize)
      requires NChunks(bs) <= chunks && at + Times(tblocks, bs) <= buf.Length && buf !in repr
      requires Valid() && di in dis
      modifies buf, this`repr, this`all, dis`wb_queue, dis`wbq, dis`lock, dis`dev, dis`log, dis`table, dis`units
      modifies all`wb_next, all`wb_prev, all`dirty
      modifies cbls`active, cbls`used, cbls`lock, cbls`free, cbls`stat, cbls`data
      ensures Times(tstart, di.lsize) + Times(tblocks, bs) <= |di.view|
      ensures buf[..] == Splice(old(buf[..]), at,
        di.view[Times(tstart, di.lsize)..Times(tstart, di.lsize) + Times(tblocks, bs)])
      ensures Valid() && fresh(repr - old(repr)) && old(all) <= all && fresh(all - old(all))
      ensures forall d, v :: d in dis && v in old(d.units) && v !in d.units ==> v.lock == 0
    {
      hide Di.SoundWith, Region, LayoutOK, Times, NChunks, Splice, Missed;
      var size := Times(tblocks, bs);
      IsSound(di);
      MissedSame(di, tstart, tblocks, bs);
      var x := di.ReadIn(size, tstart);
      CopyOut(buf, at, x);
      UnitsAdd(di, tstart, tblocks, bs, x);
    }

    lemma IsSound(di: Di)
      requires Valid() && di in dis
      ensures di.Sound() && 0 < di.pssize && di.lsize == Times(di.lratio, di.pssize)
        && |di.dev| == Times(di.psectors, di.pssize)
    {
      hide Places, Owned, BlocksOK, Times, LayoutOK, Di.Queued, Di.Counted, Di.Blocks, AgreeOutside;
    }

    /** The buffer b has the first n of the bytes asked for; behind `top` it is as it was in b0. */
    ghost predicate Got(b: seq<byte>, b0: seq<byte>, view: seq<byte>, at: nat, n: nat, top: nat) {
      && |b| == |b0| && n <= top <= |b| && at + top <= |view|
      && b[..n] == view[at..at + n] && b[top..] == b0[top..]
    }

    lemma GotMore(b: seq<byte>, b0: seq<byte>, view: seq<byte>, at: nat, p: nat, q: nat, top: nat)
      requires Got(b, b0, view, at, p, top) && p + q <= top
      ensures Got(Splice(b, p, view[at + p..at + p + q]), b0, view, at, p + q, top)
    {
      var b1 := Splice(b, p, view[at + p..at + p + q]);
      assert b1[..p] == b[..p];
      assert b1[..p + q] == b1[..p] + b1[p..p + q];
      assert b1[p..p + q] == view[at + p..at + p + q];
      assert view[at..at + p + q] == view[at..at + p] + view[at + p..at + p + q];
    }

    /** The block behind a run is copied first, the run before it after that. */
    lemma GotJoin(b: seq<byte>, b0: seq<byte>, view: seq<byte>, at: nat, p: nat, m: nat, q: nat, top: nat)
      requires Got(b, b0, view, at, p, top) && p + m + q <= top
      ensures var b1 := Splice(b, p + m, view[at + p + m..at + p + m + q]);
        Got(Splice(b1, p, view[at + p..at + p + m]), b0, view, at, p + m + q, top)
    {
      var b1 := Splice(b, p + m, view[at + p + m..at + p + m + q]);
      assert b1[..p] == b[..p];
      GotMore(b1, b0, view, at, p, m, top);
      var b2 := Splice(b1, p, view[at + p..at + p + m]);
      assert b2[..p + m + q] == b2[..p + m] + b2[p + m..p + m + q];
      assert b2[p + m..p + m + q] == view[at + p + m..at + p + m + q];
      assert view[at..at + p + m + q] == view[at..at + p + m] + view[at + p + m..at + p + m + q];
    }

    /** Where a run of m blocks behind the first k lies. */
    lemma RunAt(di: Di, sector: nat, blocks: nat, bs: nat, k: nat, m: nat)
      requires Region(di, sector, blocks, bs) && k + m <= blocks
      ensures 0 < di.lsize
      ensures Times(sector + Times(k, bs / di.lsize), di.lsize) == Times(sector, di.lsize) + Times(k, bs)
      ensures Times(k, bs) + Times(m, bs) == Times(k + m, bs) <= Times(blocks, bs)
      ensures Times(k, bs / di.lsize) + Times(m, bs / di.lsize) == Times(k + m, bs / di.lsize)
      ensures k + m < blocks ==> Times(k + m, bs) + bs == Times(k + m + 1, bs) <= Times(blocks, bs)
      ensures Times(k + m + 1, bs / di.lsize) == Times(k + m, bs / di.lsize) + bs / di.lsize
    {
      hide Region, Times;
      RegionAt(di, sector, blocks, bs, k);
      RegionAt(di, sector, blocks, bs, k + m);
      TimesAdd(k, m, bs);
      TimesAdd(k, m, bs / di.lsize);
      TimesMono(k + m, blocks, bs);
    }

    /** A block found in the cache ends a run, if there is one. */
    method ReadHit(di: Di, u: Unit, ghost sector: nat, ghost blocks: nat, bs: nat, buf: array<byte>,
        ghost b0: seq<byte>, ghost k: nat, tstart: nat, tblocks: nat, bufp: nat)
      requires Region(di, sector, blocks, bs) && k + tblocks < blocks && NChunks(bs) <= chunks
      requires u.sector == sector + Times(k + tblocks, bs / di.lsize) && u.size == bs && u.di == di && Filled(u)
      requires bufp == Times(k, bs) && buf !in repr
      requires Got(buf[..], b0, di.view, Times(sector, di.lsize), bufp, Times(blocks, bs))
      requires tblocks > 0 ==>
        tstart == sector + Times(k, bs / di.lsize) && Missed(di, tstart, tblocks, bs / di.lsize)
      requires Valid() && di in dis
      modifies buf, this`repr, this`all, dis`wb_queue, dis`wbq, dis`lock, dis`dev, dis`log, dis`table, dis`units
      modifies all`wb_next, all`wb_prev, all`dirty
      modifies cbls`active, cbls`used, cbls`lock, cbls`free, cbls`stat, cbls`data
      ensures Got(buf[..], b0, di.view, Times(sector, di.lsize), Times(k + tblocks + 1, bs), Times(blocks, bs))
      ensures tblocks == 0 ==> di.units == old(di.units) && di.dev == old(di.dev) && di.log == old(di.log)
      ensures Valid() && fresh(repr - old(repr)) && old(all) <= all && fresh(all - old(all))
      ensures forall d, v :: d in dis && v in old(d.units) && v !in d.units ==> v.lock == 0
    {
      hide Di.SoundWith, Di.Sound, Valid, Region, LayoutOK, Times, NChunks, Splice, Missed, Filled, Addr, Got;
      ghost var at, top := Times(sector, di.lsize), Times(blocks, bs);
      GotSizes(buf[..], b0, di.view, at, bufp, top);
      FilledData(u);
      AddrIs(u);
      RunAt(di, sector, blocks, bs, k + tblocks, 0);
      RunAt(di, sector, blocks, bs, k, tblocks);
      if tblocks > 0 {
        var size := Times(tblocks, bs);
        GotJoin(buf[..], b0, di.view, at, bufp, size, bs, top);
        CopyOut(buf, bufp + size, u.cbl.data[Off(u)..Off(u) + u.size]);
        RegionPart(di, sector, blocks, bs, k, tblocks);
        ReadRun(di, tstart, tblocks, bs, buf, bufp);
      } else {
        GotMore(buf[..], b0, di.view, at, bufp, bs, top);
        CopyOut(buf, bufp, u.cbl.data[Off(u)..Off(u) + u.size]);
      }
    }

    lemma GotSizes(b: seq<byte>, b0: seq<byte>, view: seq<byte>, at: nat, n: nat, top: nat)
      requires Got(b, b0, view, at, n, top)
      ensures |b| == |b0| && n <= top <= |b| && at + top <= |view|
    {
    }

    /** A run of m blocks behind the first k, or none so far, takes in the block behind it. */
    lemma RunMore(di: Di, sector: nat, bs: nat, k: nat, m: nat, s: nat)
      requires 0 < di.lsize && s == sector + Times(k + m, bs / di.lsize)
      requires Times(k, bs / di.lsize) + Times(m, bs / di.lsize) == Times(k + m, bs / di.lsize)
      requires m > 0 ==> Missed(di, sector + Times(k, bs / di.lsize), m, bs / di.lsize)
      requires forall u :: u in di.units ==> u.sector != s
      ensures Missed(di, sector + Times(k, bs / di.lsize), m + 1, bs / di.lsize)
    {
      hide Times, Missed;
      if m == 0 {
        MissedNone(di, s, bs / di.lsize);
        MissedMore(di, s, 0, bs / di.lsize, s);
      } else {
        MissedMore(di, sector + Times(k, bs / di.lsize), m, bs / di.lsize, s);
      }
    }

    /** One round of bio_l_read: the block at s is copied from the cache, or joins the run to be read. */
    method ReadBlock(di: Di, ghost sector: nat, ghost blocks: nat, bs: nat, buf: array<byte>,
        ghost b0: seq<byte>, ghost k: nat, s: nat, tstart0: nat, tblocks0: nat, bufp0: nat)
      returns (tstart: nat, tblocks: nat, bufp: nat, ghost k': nat)
      requires Region(di, sector, blocks, bs) && k + tblocks0 < blocks && NChunks(bs) <= chunks
      requires s == sector + Times(k + tblocks0, bs / di.lsize) && bufp0 == Times(k, bs) && buf !in repr
      requires tblocks0 > 0 ==>
        tstart0 == sector + Times(k, bs / di.lsize) && Missed(di, tstart0, tblocks0, bs / di.lsize)
      requires Got(buf[..], b0, di.view, Times(sector, di.lsize), bufp0, Times(blocks, bs))
      requires Valid() && di in dis
      modifies buf, this`repr, this`all, dis`wb_queue, dis`wbq, dis`lock, dis`dev, dis`log, dis`table, dis`units
      modifies all`wb_next, all`wb_prev, all`dirty, all`stat
      modifies cbls`active, cbls`used, cbls`lock, cbls`free, cbls`stat, cbls`data
      ensures k' + tblocks == k + tblocks0 + 1 && bufp == Times(k', bs)
      ensures s + bs / di.lsize == sector + Times(k' + tblocks, bs / di.lsize)
      ensures tblocks > 0 ==> tstart == sector + Times(k', bs / di.lsize) && Missed(di, tstart, tblocks, bs / di.lsize)
      ensures Got(buf[..], b0, di.view, Times(sector, di.lsize), bufp, Times(blocks, bs))
      ensures tblocks0 == 0 && Cached(old(di.units), s) ==>
        tblocks == 0 && di.units == old(di.units) && di.dev == old(di.dev) && di.log == old(di.log)
      ensures Valid() && fresh(repr - old(repr)) && old(all) <= all && fresh(all - old(all))
      ensures forall d, v :: d in dis && v in old(d.units) && v !in d.units ==> v.lock == 0
    {
      hide *;
      tstart, tblocks, bufp, k' := tstart0, tblocks0, bufp0, k;
      RunAt(di, sector, blocks, bs, k, tblocks);
      RegionHas(di, sector, blocks, bs, k + tblocks);
      var u := Lookup(di, s);
      CachedIs(di.units, s);
      if u != null {
        FoundSize(di, u);
        ReadHit(di, u, sector, blocks, bs, buf, b0, k, tstart, tblocks, bufp);
        if tblocks > 0 {
          bufp := bufp + Times(tblocks, bs);
        }
        k' := k + tblocks + 1;
        tblocks := 0;
        bufp := bufp + bs;
      } else {
        if tblocks == 0 {
          tstart := s;
        }
        RunMore(di, sector, bs, k, tblocks, s);
        tblocks := tblocks + 1;
      }
    }

    /** The end of bio_l_read: the run that is left, if there is one. */
    method ReadTail(di: Di, ghost sector: nat, ghost blocks: nat, bs: nat, buf: array<byte>,
        ghost b0: seq<byte>, ghost k: nat, tstart: nat, tblocks: nat, bufp: nat)
      requires Region(di, sector, blocks, bs) && k + tblocks == blocks && NChunks(bs) <= chunks
      requires bufp == Times(k, bs) && buf !in repr
      requires Got(buf[..], b0, di.view, Times(sector, di.lsize), bufp, Times(blocks, bs))
      requires tblocks > 0 ==>
        tstart == sector + Times(k, bs / di.lsize) && Missed(di, tstart, tblocks, bs / di.lsize)
      requires Valid() && di in dis
      modifies buf, this`repr, this`all, dis`wb_queue, dis`wbq, dis`lock, dis`dev, dis`log, dis`table, dis`units
      modifies all`wb_next, all`wb_prev, all`dirty
      modifies cbls`active, cbls`used, cbls`lock, cbls`free, cbls`stat, cbls`data
      ensures Got(buf[..], b0, di.view, Times(sector, di.lsize), Times(blocks, bs), Times(blocks, bs))
      ensures tblocks == 0 ==> di.units == old(di.units) && di.dev == old(di.dev) && di.log == old(di.log)
      ensures Valid() && fresh(repr - old(repr)) && old(all) <= all && fresh(all - old(all))
      ensures forall d, v :: d in dis && v in old(d.units) && v !in d.units ==> v.lock == 0
    {
      hide *;
      ghost var at, top := Times(sector, di.lsize), Times(blocks, bs);
      RunAt(di, sector, blocks, bs, k, tblocks);
      GotSizes(buf[..], b0, di.view, at, bufp, top);
      if tblocks > 0 {
        RegionPart(di, sector, blocks, bs, k, tblocks);
        GotMore(buf[..], b0, di.view, at, bufp, Times(tblocks, bs), top);
        ReadRun(di, tstart, tblocks, bs, buf, bufp);
      }
    }

    /** bio_l_read */
    method LRead(di: Di, sector: nat, blocks: nat, bs: nat, buf: array<byte>) returns (r: int)
      requires Region(di, sector, blocks, bs) && 0 < blocks && NChunks(bs) <= chunks
      requires Times(blocks, bs) <= buf.Length && buf !in repr
      requires Valid() && di in dis
      modifies buf, this`repr, this`all, dis`wb_queue, dis`wbq, dis`lock, dis`dev, dis`log, dis`table, dis`units
      modifies all`wb_next, all`wb_prev, all`dirty, all`stat
      modifies cbls`active, cbls`used, cbls`lock, cbls`free, cbls`stat, cbls`data
      ensures r == E_OK && Times(sector, di.lsize) + Times(blocks, bs) <= |di.view|
      ensures var n := Times(blocks, bs); buf[..n] == di.view[Times(sector, di.lsize)..Times(sector, di.lsize) + n]
      ensures buf[Times(blocks, bs)..] == old(buf[Times(blocks, bs)..])
      ensures AllCached(old(di.units), sector, blocks, bs / di.lsize) ==>
        di.units == old(di.units) && di.dev == old(di.dev) && di.log == old(di.log)
      ensures Valid() && fresh(repr - old(repr)) && old(all) <= all && fresh(all - old(all))
      ensures forall d, v :: d in dis && v in old(d.units) && v !in d.units ==> v.lock == 0
    {
      hide *;
      r := E_OK;
      RegionStart(di, sector, blocks, bs);
      var incr := bs / di.lsize;
      var bufp := 0;
      var tstart, tblocks, s := sector, 0, sector;
      var left := blocks;
      ghost var k: nat := 0;
      ghost var b0, at, top := buf[..], Times(sector, di.lsize), Times(blocks, bs);
      ghost var units0, cached := di.units, AllCached(di.units, sector, blocks, incr);
      GotNone(b0, di.view, at, top);
      while left > 0
        invariant k + tblocks + left == blocks && s == sector + Times(k + tblocks, incr) && bufp == Times(k, bs)
        invariant tblocks > 0 ==> tstart == sector + Times(k, incr) && Missed(di, tstart, tblocks, incr)
        invariant cached ==> tblocks == 0 && di.units == units0 && di.dev == old(di.dev) && di.log == old(di.log)
        invariant Got(buf[..], b0, di.view, at, bufp, top)
        invariant Valid() && fresh(repr - old(repr)) && old(all) <= all && fresh(all - old(all))
        invariant forall d, v :: d in dis && v in old(d.units) && v !in d.units ==> v.lock == 0
      {
        if cached {
          CachedAt(units0, sector, blocks, incr, k + tblocks);
        }
        tstart, tblocks, bufp, k := ReadBlock(di, sector, blocks, bs, buf, b0, k, s, tstart, tblocks, bufp);
        s := s + incr;
        left := left - 1;
      }
      ReadTail(di, sector, blocks, bs, buf, b0, k, tstart, tblocks, bufp);
      GotAll(buf[..], b0, di.view, at, top);
    }

    lemma MissedNone(di: Di, s: nat, incr: nat)
      ensures Missed(di, s, 0, incr) && Times(0, incr) == 0
    {
    }

    lemma GotNone(b0: seq<byte>, view: seq<byte>, at: nat, top: nat)
      requires top <= |b0| && at + top <= |view|
      ensures Got(b0, b0, view, at, 0, top)
    {
    }

    lemma GotAll(b: seq<byte>, b0: seq<byte>, view: seq<byte>, at: nat, top: nat)
      requires Got(b, b0, view, at, top, top)
      ensures |b| == |b0| && top <= |b| && at + top <= |view| && b[..top] == view[at..at + top] && b[top..] == b0[top..]
    {
    }

    lemma FoundSize(di: Di, u: Unit)
      requires Valid() && di in dis && u in di.units
      ensures u.di == di && u.sector in di.layout && di.layout[u.sector] == u.size
    {
      hide Located, Filled, CblOK, Di.Queued, Di.Counted, AgreeOutside;
      SizeOf(di, u);
    }

    // -------------------------------------------------------------- writing the queue back

    /** The device's next dirty unit leaves the queue. */
    method NextDirty(di: Di, ghost flight: seq<Unit>) returns (u: Unit?)
      requires Dropping(di, flight)
      modifies di`wb_queue, di`wbq, di`lock, di.units`wb_next, di.units`wb_prev, di.units`dirty
      ensures if old(di.wbq) == [] then u == null && di.wbq == [] && Dropping(di, flight)
        else
          u == old(di.wbq)[0] && di.wbq == old(di.wbq)[1..] && u in di.units && u !in di.wbq
          && Dropping(di, flight + [u])
      ensures forall v :: v in old(di.wbq) <==> v in di.wbq || v == u
    {
      hide Di.SoundWith, Di.Sound, Filled, Located, CblOK;
      OthersUnits(di);
      ghost var q := di.wbq;
      u := di.TakeFirst(flight);
      if u != null {
        TakenMembers(q);
      }
      PlacesKept(null);
      SoundsKept(di);
      BlocksKept(null);
    }

    /** bio_writeout of a range whose units are in flight. */
    method WriteDirty(di: Di, x: seq<byte>, sector: nat, ghost flight: seq<Unit>, ghost rest: seq<Unit>)
      requires Fits(di, sector, |x|)
      requires x == di.view[Times(sector, di.lsize)..Times(sector, di.lsize) + |x|]
      requires forall u :: u in flight && u !in rest ==> Inside(di, u, sector, |x|)
      requires Dropping(di, flight)
      modifies di`dev, di`log
      ensures di.dev == Splice(old(di.dev), Times(sector, di.lsize), x) && di.log == old(di.log) + [(sector, x)]
      ensures Dropping(di, rest)
    {
      hide Di.SoundWith, Di.Sound, Filled, Located, CblOK, Splice;
      di.WriteRange(x, sector, flight, rest);
      PlacesKept(null);
      SoundsKept(di);
      BlocksKept(null);
    }

    ghost predicate Inside(di: Di, u: Unit, sector: nat, n: nat) {
      Times(sector, di.lsize) <= Addr(u) && Addr(u) + u.size <= Times(sector, di.lsize) + n
    }

    /** What is known of a hashed unit while others are in flight. */
    lemma DirtyUnit(di: Di, u: Unit, flight: seq<Unit>)
      requires Dropping(di, flight) && u in di.units
      ensures u.di == di && 0 < di.pssize && 0 < di.lsize && Fits(di, u.sector, u.size)
        && Inside(di, u, u.sector, u.size)
      ensures Off(u) + u.size <= |u.cbl.data| && Addr(u) == Times(u.sector, di.lsize) && Addr(u) + u.size <= |di.view|
      ensures u.cbl.data[Off(u)..Off(u) + u.size] == di.view[Addr(u)..Addr(u) + u.size]
    {
      hide Times, CblOK, Di.Queued, Di.Counted, AgreeOutside, BlockUnit.Hashed, Off;
      FilledData(u);
    }

    /** Two dirty units with adjoining sectors adjoin on the medium. */
    lemma Adjoin(di: Di, u: Unit, v: Unit, size: nat, flight: seq<Unit>)
      requires Dropping(di, flight) && u in di.units && v in di.units && u != v && 0 < di.lsize
      requires Joins(di, u, v, size)
      ensures Addr(u) + u.size == Addr(v)
    {
      hide Times, Places, Owned, BlocksOK, Sounds, Di.Queued, Di.Counted, AgreeOutside, BlockUnit.Hashed, LayoutOK;
      LayoutApart(di, u.sector, v.sector);
      LayoutApart(di, v.sector, u.sector);
      assert u.di == di && v.di == di && u.sector != v.sector;
      AdjoinNumbers(u.sector, u.size, di.lsize);
    }

    lemma AdjoinNumbers(sector: nat, size: nat, ls: nat)
      requires 0 < ls
      ensures Times(sector, ls) <= Times(sector + size / ls, ls) <= Times(sector, ls) + size
    {
      hide Times;
      var q, r := Block(size, ls);
      QuotientIs(q, size, ls);
      TimesAdd(sector, q, ls);
    }

    lemma Multiple(k: nat, n: nat, ps: nat)
      requires 0 < ps && n == Times(k, ps)
      ensures n == Times(n / ps, ps)
    {
      hide *;
      QuotientIs(k, n, ps);
    }

    lemma SumWhole(a: nat, b: nat, ps: nat)
      requires 0 < ps && a == Times(a / ps, ps) && b == Times(b / ps, ps)
      ensures a + b == Times((a + b) / ps, ps)
    {
      hide *;
      var p, q := Quotient(a, ps), Quotient(b, ps);
      SumMultiple(p, q, a, b, ps);
    }

    ghost function Quotient(a: nat, ps: nat): (q: nat)
      requires 0 < ps && a == Times(a / ps, ps)
      ensures a == Times(q, ps)
    {
      a / ps
    }

    lemma SumMultiple(p: nat, q: nat, a: nat, b: nat, ps: nat)
      requires 0 < ps && a == Times(p, ps) && b == Times(q, ps)
      ensures a + b == Times((a + b) / ps, ps)
    {
      hide *;
      TimesAdd(p, q, ps);
      Multiple(p + q, a + b, ps);
    }

    /** The buffer of a joint transfer holds what is to be seen from the sector on, and the units of
        `done`, of which the last ends where the buffer ends, lie in its range. */
    ghost predicate Batch(di: Di, done: seq<Unit>, sector: nat, buffer: seq<byte>, last: Unit)
      reads di`dev, di`view
    {
      && Fits(di, sector, |buffer|)
      && buffer == di.view[Times(sector, di.lsize)..Times(sector, di.lsize) + |buffer|]
      && (forall u :: u in done ==> Inside(di, u, sector, |buffer|))
      && Times(sector, di.lsize) + |buffer| == Addr(last) + last.size
    }

    lemma BatchOne(di: Di, u: Unit, flight: seq<Unit>)
      requires Dropping(di, flight) && u in di.units
      ensures Off(u) + u.size <= |u.cbl.data| && 0 < di.lsize && u.di == di
      ensures Batch(di, [u], u.sector, u.cbl.data[Off(u)..Off(u) + u.size], u)
    {
      hide Dropping, Times, Fits, Addr, Off;
      DirtyUnit(di, u, flight);
      FitsView(di, u.sector, u.size);
    }

    lemma FitsJoin(di: Di, s: nat, a: nat, t: nat, b: nat)
      requires Fits(di, s, a) && Fits(di, t, b) && Times(s, di.lsize) + a == Times(t, di.lsize)
      ensures Fits(di, s, a + b)
    {
      hide Times;
      SumWhole(a, b, di.pssize);
    }

    lemma BatchMore(di: Di, done: seq<Unit>, sector: nat, buffer: seq<byte>, last: Unit, v: Unit, flight: seq<Unit>)
      requires Dropping(di, flight) && v in di.units && last in di.units && v != last
      requires Batch(di, done, sector, buffer, last)
      requires 0 < di.lsize && Joins(di, last, v, |buffer|)
      ensures Off(v) + v.size <= |v.cbl.data| && v.di == di
      ensures Batch(di, done + [v], sector, buffer + v.cbl.data[Off(v)..Off(v) + v.size], v)
    {
      hide Dropping, Times, Addr, Off, Fits, Joins;
      DirtyUnit(di, v, flight);
      AddrIs(v);
      Adjoin(di, last, v, |buffer|, flight);
      FitsJoin(di, sector, |buffer|, v.sector, v.size);
      var at := Times(sector, di.lsize);
      FitsView(di, sector, |buffer| + v.size);
      assert di.view[at..at + |buffer| + v.size]
        == di.view[at..at + |buffer|] + di.view[at + |buffer|..at + |buffer| + v.size];
    }

    lemma BatchFits(di: Di, done: seq<Unit>, sector: nat, buffer: seq<byte>, last: Unit)
      requires Batch(di, done, sector, buffer, last)
      ensures Fits(di, sector, |buffer|) && 0 < di.lsize && Times(sector, di.lsize) + |buffer| <= |di.view|
      ensures buffer == di.view[Times(sector, di.lsize)..Times(sector, di.lsize) + |buffer|]
      ensures forall u :: u in done ==> Inside(di, u, sector, |buffer|)
      ensures Times(sector, di.lsize) + |buffer| == Addr(last) + last.size
    {
    }

    /** The units taken from the queue that are not written yet. */
    ghost function Pending(done: seq<Unit>, next: Unit?): seq<Unit> {
      if next == null then done else done + [next]
    }

    /** v continues u, and the two fit into the buffer. */
    predicate Joins(di: Di, u: Unit, v: Unit, size: nat)
      requires 0 < di.lsize
    {
      u.sector + u.size / di.lsize == v.sector && size + v.size <= WB_BUFFER
    }

    lemma JoinsFits(di: Di, u: Unit, v: Unit, size: nat)
      requires 0 < di.lsize && Joins(di, u, v, size)
      ensures size + v.size <= WB_BUFFER
    {
    }

    /** A transfer of n bytes, of which `last` is the last unit, could not take `next` along: it does not
        follow, or there is no room in the buffer. */
    ghost predicate Parted(di: Di, last: Unit, n: nat, next: Unit)
      requires 0 < di.lsize
    {
      last.sector + last.size / di.lsize != next.sector || n + next.size > 0x1_0000
    }

    lemma JoinsNot(di: Di, u: Unit, v: Unit, size: nat)
      requires 0 < di.lsize && !Joins(di, u, v, size)
      ensures Parted(di, u, size, v)
    {
    }

    /** The joint transfer of bio_wb_queue: adjoining units are gathered while they fit, and written
        together. */
    method GatherRun(di: Di, u0: Unit, next0: Unit) returns (next: Unit?, ghost x: seq<byte>, ghost last: Unit)
      requires u0 in di.units && next0 in di.units && u0 != next0 && next0 !in di.wbq && 0 < di.lsize
      requires Joins(di, u0, next0, u0.size)
      requires Dropping(di, [u0, next0])
      modifies di`wb_queue, di`wbq, di`lock, di`dev, di`log, di.units`wb_next, di.units`wb_prev, di.units`dirty
      ensures di.log == old(di.log) + [(u0.sector, x)] && |x| <= WB_BUFFER
      ensures Inside(di, u0, u0.sector, |x|) && Inside(di, next0, u0.sector, |x|)
      ensures Addr(last) + last.size == Times(u0.sector, di.lsize) + |x| && (last == next0 || last in old(di.wbq))
      ensures next != null ==> Parted(di, last, |x|, next)
      ensures forall v :: v in old(di.wbq) && v !in di.wbq && v != next ==> Inside(di, v, u0.sector, |x|)
      ensures |di.wbq| <= |old(di.wbq)| && (next == null ==> di.wbq == [])
      ensures next != null ==> next in di.units && next !in di.wbq && next in old(di.wbq) && |di.wbq| < |old(di.wbq)|
      ensures forall v :: v in di.wbq ==> v in old(di.wbq)
      ensures Dropping(di, Pending([], next))
    {
      hide *;
      BatchOne(di, u0, [u0, next0]);
      var u: Unit := u0;
      var sector := u.sector;
      var buffer := u.cbl.data[Off(u)..Off(u) + u.size];
      next := next0;
      ghost var done: seq<Unit> := [u0];
      PendingIs([u0], next0);
      assert [u0] + [next0] == [u0, next0];
      JoinsFits(di, u0, next0, u0.size);
      var more := true;
      while more
        invariant u in di.units && |buffer| <= WB_BUFFER && Batch(di, done, sector, buffer, u)
        invariant u0 in done && (next0 in done || (more && next == next0))
        invariant forall v :: v in old(di.wbq) && v !in di.wbq && v != next ==> v in done
        invariant next != null ==> next in di.units && next !in di.wbq && u != next
        invariant more ==> next != null && Joins(di, u, next, |buffer|)
        invariant !more && next != null ==> Parted(di, u, |buffer|, next)
        invariant next != null && !more ==> |di.wbq| < |old(di.wbq)|
        invariant forall v :: v in di.wbq ==> v in old(di.wbq)
        invariant !more && next != null ==> next in old(di.wbq)
        invariant if more then next == next0 || next in old(di.wbq) else u == next0 || u in old(di.wbq)
        invariant next == null ==> di.wbq == []
        invariant |di.wbq| <= |old(di.wbq)| && Dropping(di, Pending(done, next))
        invariant di.log == old(di.log)
        decreases more, |di.wbq|
      {
        BatchMore(di, done, sector, buffer, u, next, Pending(done, next));
        JoinsFits(di, u, next, |buffer|);
        PendingIs(done, next);
        done := done + [next];
        u := next;
        next := NextDirty(di, done);
        PendingIs(done, next);
        buffer := buffer + u.cbl.data[Off(u)..Off(u) + u.size];
        more := next != null && Joins(di, u, next, |buffer|);
        if next != null && !more {
          JoinsNot(di, u, next, |buffer|);
        }
      }
      BatchFits(di, done, sector, buffer, u);
      x, last := buffer, u;
      PendingIs(done, next);
      PendingIs([], next);
      WriteDirty(di, buffer, sector, Pending(done, next), Pending([], next));
    }

    lemma PendingIs(done: seq<Unit>, next: Unit?)
      ensures next == null ==> Pending(done, next) == done
      ensures next != null && done == [] ==> Pending(done, next) == [next]
      ensures next != null ==> Pending(done, next) == done + [next] && next in Pending(done, next)
      ensures forall u :: u in Pending(done, next) ==> u in done || u == next
    {
    }

    /** The medium after the units of q are written back one by one. */
    function WrittenEach(dev: seq<byte>, view: seq<byte>, q: seq<Unit>): (r: seq<byte>)
      ensures |r| == |dev|
      decreases |q|
    {
      if q == [] then dev
      else if Addr(q[0]) + q[0].size <= |dev| && |view| == |dev| then
        WrittenEach(Splice(dev, Addr(q[0]), view[Addr(q[0])..Addr(q[0]) + q[0].size]), view, q[1..])
      else WrittenEach(dev, view, q[1..])
    }

    lemma AgreeSizes(dev: seq<byte>, view: seq<byte>, q: seq<Unit>)
      requires AgreeOutside(dev, view, q)
      ensures |dev| == |view|
    {
    }

    lemma AgreeNone(dev: seq<byte>, view: seq<byte>)
      requires AgreeOutside(dev, view, [])
      ensures dev == view
    {
      assert forall a :: 0 <= a < |dev| ==> dev[a] == view[a];
    }

    /** Written one by one, all dirty units bring the medium up to date. */
    lemma {:induction false} WrittenEachAll(dev: seq<byte>, view: seq<byte>, q: seq<Unit>)
      requires AgreeOutside(dev, view, q) && forall u :: u in q ==> Addr(u) + u.size <= |dev|
      ensures WrittenEach(dev, view, q) == view
      decreases |q|
    {
      hide AgreeOutside, Splice;
      if q == [] {
        AgreeNone(dev, view);
      } else {
        AgreeSizes(dev, view, q);
        var u := q[0];
        var dev' := Splice(dev, Addr(u), view[Addr(u)..Addr(u) + u.size]);
        assert forall v :: v in q && v !in q[1..] ==> v == u;
        AgreeWriteBack(dev, view, q, q[1..], Addr(u), u.size);
        WrittenEachAll(dev', view, q[1..]);
      }
    }

    /** A transfer that bio_wb_queue may make for the queue q: one that fits into its buffer, or that
        of a single unit in its place. */
    ghost predicate Allowed(e: Transfer, q: seq<Unit>) {
      |e.1| <= WB_BUFFER || exists u :: u in q && e.0 == u.sector && |e.1| == u.size
    }

    /** One of the transfers takes the unit along. */
    ghost predicate Covered(di: Di, u: Unit, sent: seq<Transfer>) {
      exists e :: e in sent && Inside(di, u, e.0, |e.1|)
    }

    /** One more transfer, which takes along the units that leave `left`. */
    lemma SentMore(di: Di, q: seq<Unit>, left: set<Unit>, left': set<Unit>, sent: seq<Transfer>, e: Transfer)
      requires Allowed(e, q) && forall i :: 0 <= i < |sent| ==> Allowed(sent[i], q)
      requires forall v :: v in q ==> v in left || Covered(di, v, sent)
      requires forall v :: v in left ==> v in left' || Inside(di, v, e.0, |e.1|)
      ensures forall i :: 0 <= i < |sent + [e]| ==> Allowed((sent + [e])[i], q)
      ensures forall v :: v in q ==> v in left' || Covered(di, v, sent + [e])
    {
      hide Allowed, Inside;
      assert (sent + [e])[|sent|] == e;
      forall v | v in q && v !in left'
        ensures Covered(di, v, sent + [e])
      {
        if v !in left {
          assert Covered(di, v, sent);
        }
      }
    }

    lemma AllowedEither(x: seq<byte>, q: seq<Unit>, u: Unit)
      requires u in q && (|x| == u.size || |x| <= WB_BUFFER)
      ensures Allowed((u.sector, x), q)
    {
    }

    /** The units that are still to be written: those in the queue, and the one just taken from it. */
    ghost function Left(di: Di, u: Unit?): set<Unit>
      reads di`wbq
    {
      (set v | v in di.wbq) + if u == null then {} else {u}
    }

    /** One step of bio_wb_queue: the unit just taken goes to the medium, together with those behind
        it that adjoin and fit; the next one is taken. */
    method WriteFrom(di: Di, u: Unit) returns (next: Unit?, ghost x: seq<byte>, ghost last: Unit)
      requires u in di.units && u !in di.wbq && 0 < di.lsize && Dropping(di, Pending([], u))
      modifies di`wb_queue, di`wbq, di`lock, di`dev, di`log, di.units`wb_next, di.units`wb_prev, di.units`dirty
      ensures di.log == old(di.log) + [(u.sector, x)] && (|x| == u.size || |x| <= WB_BUFFER)
      ensures Addr(last) + last.size == Times(u.sector, di.lsize) + |x| && (last == u || last in old(di.wbq))
      ensures next != null ==> Parted(di, last, |x|, next)
      ensures forall v :: v in old(Left(di, u)) ==> v in Left(di, next) || Inside(di, v, u.sector, |x|)
      ensures forall v :: v in di.wbq ==> v in old(di.wbq)
      ensures next != null ==> next in di.units && next !in di.wbq && next in old(di.wbq) && |di.wbq| < |old(di.wbq)|
      ensures next == null ==> di.wbq == []
      ensures Dropping(di, Pending([], next))
    {
      hide *;
      PendingIs([], u);
      LeftIs(di, u);
      next := NextDirty(di, [u]);
      if next != null && Joins(di, u, next, u.size) {
        assert [u] + [next] == [u, next];
        next, x, last := GatherRun(di, u, next);
        LeftIs(di, next);
      } else {
        PendingIs([u], next);
        PendingIs([], next);
        BatchOne(di, u, Pending([u], next));
        last := u;
        if next != null {
          JoinsNot(di, u, next, u.size);
        }
        x := u.cbl.data[Off(u)..Off(u) + u.size];
        BatchFits(di, [u], u.sector, x, u);
        assert u in [u] && Inside(di, u, u.sector, u.size);
        WriteDirty(di, u.cbl.data[Off(u)..Off(u) + u.size], u.sector, Pending([u], next), Pending([], next));
        LeftIs(di, next);
      }
    }

    /** Each transfer begins with a unit of the queue and ends with one, and could not have taken along
        the unit that the next one begins with. */
    ghost predicate Series(di: Di, q: seq<Unit>, sent: seq<Transfer>, firsts: seq<Unit>, lasts: seq<Unit>, next: Unit?)
      requires 0 < di.lsize
    {
      && |firsts| == |lasts| == |sent|
      && (forall i :: 0 <= i < |sent| ==> firsts[i] in q && lasts[i] in q && sent[i].0 == firsts[i].sector)
      && (forall i :: 0 <= i < |sent| ==>
            Times(firsts[i].sector, di.lsize) + |sent[i].1| == Addr(lasts[i]) + lasts[i].size)
      && (forall i :: 0 < i < |sent| ==> Parted(di, lasts[i - 1], |sent[i - 1].1|, firsts[i]))
      && (next != null && sent != [] ==> Parted(di, lasts[|sent| - 1], |sent[|sent| - 1].1|, next))
    }

    /** bio_wb_queue: the queue is written back, in transfers that fit into the buffer or are those of
        single units, each unit in one of them, and no transfer could have taken along the unit that the
        next one begins with. */
    method WbQueue(di: Di) returns (ghost sent: seq<Transfer>, ghost firsts: seq<Unit>, ghost lasts: seq<Unit>)
      requires Valid() && di in dis
      modifies di`wb_queue, di`wbq, di`lock, di`dev, di`log, di.units`wb_next, di.units`wb_prev, di.units`dirty
      ensures di.wbq == [] && (forall u :: u in di.units ==> !u.dirty)
      ensures di.dev == di.view
      ensures di.log == old(di.log) + sent
      ensures forall i :: 0 <= i < |sent| ==> Allowed(sent[i], old(di.wbq))
      ensures forall u :: u in old(di.wbq) ==> Covered(di, u, sent)
      ensures 0 < di.lsize && Series(di, old(di.wbq), sent, firsts, lasts, null)
      ensures di.dev == WrittenEach(old(di.dev), di.view, old(di.wbq))
      ensures Valid()
    {
      hide *;
      StartDropping(di);
      EachQueued(di);
      DropLsize(di, []);
            sent, firsts, lasts := [], [], [];
      ghost var q := di.wbq;
      var u := NextDirty(di, []);
      PendingIs([], u);
      LeftIs(di, u);
      SeriesNone(di, q, u);
      while u != null
        invariant u != null ==> u in di.units && u !in di.wbq && u in q
        invariant u == null ==> di.wbq == []
        invariant forall v :: v in di.wbq ==> v in q
        invariant di.log == old(di.log) + sent
        invariant forall i :: 0 <= i < |sent| ==> Allowed(sent[i], q)
        invariant forall v :: v in q ==> v in Left(di, u) || Covered(di, v, sent)
        invariant Series(di, q, sent, firsts, lasts, u)
        invariant Dropping(di, Pending([], u))
        decreases |di.wbq| + if u == null then 0 else 1
      {
        ghost var left := Left(di, u);
        var next: Unit?;
        ghost var x, last;
        next, x, last := WriteFrom(di, u);
        AllowedEither(x, q, u);
        SentMore(di, q, left, Left(di, next), sent, (u.sector, x));
        SeriesMore(di, q, sent, firsts, lasts, (u.sector, x), u, last, next);
        sent, firsts, lasts := sent + [(u.sector, x)], firsts + [u], lasts + [last];
        u := next;
      }
      LeftIs(di, u);
      PendingIs([], u);
      AllWritten(di);
    }

    lemma SeriesMore(di: Di, q: seq<Unit>, sent: seq<Transfer>, firsts: seq<Unit>, lasts: seq<Unit>,
                     e: Transfer, u: Unit, v: Unit, next: Unit?)
      requires 0 < di.lsize && Series(di, q, sent, firsts, lasts, u) && u in q && v in q
      requires e.0 == u.sector && Times(u.sector, di.lsize) + |e.1| == Addr(v) + v.size
      requires next != null ==> Parted(di, v, |e.1|, next)
      ensures Series(di, q, sent + [e], firsts + [u], lasts + [v], next)
    {
      hide Times, Addr, Parted;
    }

    lemma SeriesNone(di: Di, q: seq<Unit>, next: Unit?)
      requires 0 < di.lsize
      ensures Series(di, q, [], [], [], next)
    {
    }

    lemma LeftIs(di: Di, u: Unit?)
      ensures forall v :: v in Left(di, u) ==> v in di.wbq || v == u
      ensures forall v :: v in di.wbq ==> v in Left(di, u)
      ensures u != null ==> u in Left(di, u)
    {
    }

    lemma DropLsize(di: Di, flight: seq<Unit>)
      requires Dropping(di, flight)
      ensures 0 < di.lsize
    {
      hide Times, Places, Owned, BlocksOK, Sounds, Di.Queued, Di.Counted, Di.Blocks, AgreeOutside;
    }

    lemma EachQueued(di: Di)
      requires Valid() && di in dis
      ensures WrittenEach(di.dev, di.view, di.wbq) == di.view
    {
      hide Places, Owned, BlocksOK, Di.Linked, Di.Counted, BlockUnit.Hashed, AgreeOutside, Times, WrittenEach;
      assert di.Sound();
      forall u | u in di.wbq
        ensures Addr(u) + u.size <= |di.dev|
      {
        assert u in di.units;
        AddrIs(u);
      }
      assert di.wbq + [] == di.wbq;
      WrittenEachAll(di.dev, di.view, di.wbq);
    }

    lemma AllWritten(di: Di)
      requires Dropping(di, []) && di.wbq == []
      ensures Valid() && di.dev == di.view && forall u :: u in di.units ==> !u.dirty
    {
      hide Places, Owned, BlocksOK, Di.Linked, Di.Counted, BlockUnit.Hashed, Times, Covers;
      assert forall a :: 0 <= a < |di.dev| ==> di.dev[a] == di.view[a];
    }

    /** bio_sync_drv */
    method SyncDrv(di: Di)
      requires Valid() && di in dis
      modifies di`wb_queue, di`wbq, di`lock, di`dev, di`log, di`key, di.units`wb_next, di.units`wb_prev, di.units`dirty
      ensures di.dev == di.view && di.wbq == [] && di.lock == ENABLE + |di.holds|
      ensures di.removable && di.holds == multiset{} ==> di.key == 0
      ensures Valid()
    {
      hide Di.SoundWith, Filled, Located, CblOK;
      var _, _, _ := WbQueue(di);
      OpenDoorOf(di);
      LockTotal(di);
    }

    method OpenDoorOf(di: Di)
      requires Valid() && di in dis && di.wbq == []
      modifies di`key
      ensures Valid() && di.key == if di.removable && di.holds == multiset{} then 0 else old(di.key)
    {
      hide Di.Sound, Filled, Located, CblOK;
      di.OpenDoor();
      PlacesKept(null);
      SoundsKept(di);
      BlocksKept(null);
    }

    lemma LockTotal(di: Di)
      requires di.Sound()
      ensures di.lock == ENABLE + |di.wbq| + |di.holds|
    {
      hide Di.Fixed, Di.Blocks, Di.Queued, AgreeOutside;
    }

    // -------------------------------------------------------------- locks

    /** The block b while its counts lag behind the lock count of u. */
    ghost predicate CblBut(b: Cbl, u: Unit, n: int)
      reads b`data, b`used, b`active, b`free, b`lock, b`holds, b.active`lock
    {
      && |b.data| == chunks * CHUNK_SIZE && |b.used| == chunks
      && AllocOK(b, b.used, b.active, b.free)
      && b.lock == |b.holds|
      && (forall v :: v in b.holds ==> v in b.active)
      && (forall v: Unit :: v in b.active ==> v.lock == b.holds[v] + if v == u then n else 0)
    }

    /** The block's part of bio_lock. */
    method HoldBlock(u: Unit)
      requires CblBut(u.cbl, u, 1) && u in u.cbl.active
      modifies u.cbl`lock, u.cbl`holds
      ensures CblOK(u.cbl) && u.cbl.lock == old(u.cbl.lock) + 1
    {
      hide AllocOK;
      u.cbl.lock := u.cbl.lock + 1;
      u.cbl.holds := u.cbl.holds + multiset{u};
    }

    /** The block's part of bio_unlock. */
    method ReleaseBlock(u: Unit)
      requires CblBut(u.cbl, u, -1) && u in u.cbl.active && 0 <= u.lock
      modifies u.cbl`lock, u.cbl`holds
      ensures CblOK(u.cbl) && u.cbl.lock == old(u.cbl.lock) - 1
    {
      hide AllocOK;
      assert u in u.cbl.holds;
      u.cbl.lock := u.cbl.lock - 1;
      u.cbl.holds := u.cbl.holds - multiset{u};
    }

    method LockDevice(u: Unit)
      requires u.di.Sound() && u in u.di.units && CblOK(u.cbl) && u in u.cbl.active
      modifies u`lock, u.cbl`lock, u.cbl`holds, u.di`lock, u.di`key, u.di`holds
      ensures u.di.Sound() && CblOK(u.cbl) && u.lock == old(u.lock) + 1
      ensures u.di.lock == old(u.di.lock) + 1 && u.cbl.lock == old(u.cbl.lock) + 1
    {
      hide AllocOK, Di.Sound;
      u.di.LockUnit(u);
      HoldBlock(u);
    }

    method UnlockDevice(u: Unit)
      requires u.di.Sound() && u in u.di.units && CblOK(u.cbl) && u in u.cbl.active && u.lock > 0
      modifies u`lock, u.cbl`lock, u.cbl`holds, u.di`lock, u.di`key, u.di`holds
      ensures u.di.Sound() && CblOK(u.cbl) && u.lock == old(u.lock) - 1
      ensures u.di.lock == old(u.di.lock) - 1 && u.cbl.lock == old(u.cbl.lock) - 1
      ensures u.di.key == if u.di.removable && u.di.lock == ENABLE then 0 else old(u.di.key)
    {
      hide AllocOK, Di.Sound;
      u.di.UnlockUnit(u);
      ReleaseBlock(u);
    }

    /** bio_lock */
    method Lock(u: Unit)
      requires Valid() && u.di in dis && u in u.di.units
      modifies u`lock, u.cbl`lock, u.cbl`holds, u.di`lock, u.di`key, u.di`holds
      ensures Valid() && u.lock == old(u.lock) + 1
      ensures u.di.lock == old(u.di.lock) + 1 && u.cbl.lock == old(u.cbl.lock) + 1
      ensures u.di.removable ==> u.di.key == 1
    {
      hide Di.Sound, Filled, Located, CblOK;
      ghost var di, b := u.di, u.cbl;
      assert Located(u);
      Listed(u);
      assert CblOK(b);
      OthersUnits(di);
      OnlyHere(u);
      LockDevice(u);
      LockedKey(di);
      PlacesKept(null);
      SoundsKept(di);
      BlocksKept(b);
    }

    /** bio_unlock */
    method Unlock(u: Unit)
      requires Valid() && u.di in dis && u in u.di.units
      modifies u`lock, u.cbl`lock, u.cbl`holds, u.di`lock, u.di`key, u.di`holds
      ensures Valid() && u.lock == if old(u.lock) > 0 then old(u.lock) - 1 else 0
      ensures old(u.lock) > 0 ==> u.di.lock == old(u.di.lock) - 1 && u.cbl.lock == old(u.cbl.lock) - 1
      ensures old(u.lock) == 0 ==>
        u.di.lock == old(u.di.lock) && u.cbl.lock == old(u.cbl.lock) && u.di.key == old(u.di.key)
      ensures u.di.lock > ENABLE && u.di.removable ==> u.di.key == 1
      ensures old(u.lock) > 0 && u.di.lock == ENABLE && u.di.removable ==> u.di.key == 0
      ensures !u.di.removable ==> u.di.key == old(u.di.key)
    {
      hide Di.Sound, Filled, Located, CblOK;
      ghost var di, b := u.di, u.cbl;
      assert Located(u);
      Listed(u);
      assert CblOK(b);
      OthersUnits(di);
      OnlyHere(u);
      if u.lock > 0 {
        UnlockDevice(u);
      }
      LockedKey(di);
      PlacesKept(null);
      SoundsKept(di);
      BlocksKept(b);
    }

    lemma Listed(u: Unit)
      requires Located(u)
      ensures u.cbl in cbls && u in u.cbl.active
    {
    }

    lemma OnlyHere(u: Unit)
      requires Owned()
      ensures forall c :: c in cbls && c != u.cbl ==> u !in c.active
    {
    }

    lemma LockedKey(d: Di)
      requires d.Sound()
      ensures d.removable && d.lock > ENABLE ==> d.key == 1
      ensures forall u :: u in d.units && u.lock > 0 ==> d.lock > ENABLE
    {
      hide Di.Fixed, Di.Blocks, Di.Queued, AgreeOutside;
      forall u | u in d.units && u.lock > 0
        ensures d.lock > ENABLE
      {
        assert u in d.holds;
        assert |d.holds| > 0;
      }
    }

    // -------------------------------------------------------------- bio_invalidate

    /** All is in order but for device di, which forgets its units. */
    ghost predicate Emptying(di: Di)
      reads this`repr, this`all, repr
    {
      && Setup() && Places(null) && Owned() && BlocksOK(null) && Sounds(di)
      && di in repr && di in dis && di.Fixed() && di.Blocks()
    }

    /** A unit leaves the cache whatever state it is in. */
    method Discard(u: Unit)
      requires Emptying(u.di) && u in u.di.units
      modifies u`dirty, u.di`table, u.di`units, u.cbl`active, u.cbl`used, u.cbl`lock, u.cbl`free, u.cbl`holds
      ensures Emptying(u.di) && u.di.units == old(u.di.units) - {u}
      ensures u.di.table == Di.Unhashed(old(u.di.table), u)
    {
      hide Di.Sound, Filled, CblOK, AllocOK, BlockUnit.Hashed, Di.Unhashed, Di.Fixed;
      ghost var di, b := u.di, u.cbl;
      assert Located(u) && CblOK(b);
      OthersUnits(di);
      OnlyHere(u);
      Detach(u);
      forall d, v | d in dis && v in d.units
        ensures Located(v) && Filled(v)
      {
        assert old(Located(v) && Filled(v));
      }
      forall d | d in dis && d != di
        ensures d.Sound()
      {
        assert old(d.Sound());
      }
      forall c | c in cbls && c != b
        ensures CblOK(c)
      {
        assert old(CblOK(c));
      }
    }

    method Detach(u: Unit)
      requires Located(u) && CblOK(u.cbl) && Hashed(u.di.table, u.di.units) && u in u.di.units
      modifies u`dirty, u.di`table, u.di`units, u.cbl`active, u.cbl`used, u.cbl`lock, u.cbl`free, u.cbl`holds
      ensures CblOK(u.cbl) && Hashed(u.di.table, u.di.units) && u.di.units == old(u.di.units) - {u}
      ensures u.di.table == Di.Unhashed(old(u.di.table), u)
      ensures u.pos < |old(u.cbl.active)| && u.cbl.active == old(u.cbl.active)[u.pos := null]
      ensures forall v: Unit :: v in u.cbl.active ==> v != u && v in old(u.cbl.active)
    {
      hide AllocOK, BlockUnit.Hashed, Di.Unhashed;
      u.dirty := false;
      u.di.HashRemove(u);
      DiscardChunks(u);
    }

    /** The block's part of bio_unit_remove_cache for a unit that may be locked. */
    method DiscardChunks(u: Unit)
      requires CblOK(u.cbl) && Located(u)
      modifies u.cbl`active, u.cbl`used, u.cbl`lock, u.cbl`free, u.cbl`holds
      ensures CblOK(u.cbl) && u.pos < |old(u.cbl.active)| && u.cbl.active == old(u.cbl.active)[u.pos := null]
      ensures forall v: Unit :: v in u.cbl.active ==> v != u && v in old(u.cbl.active)
    {
      hide AllocOK, Marked, Zeros, NChunks;
      var b := u.cbl;
      AllocRemove(b, b.used, b.active, b.free, u.pos);
      Positions(b, b.used, b.active, b.free);
      StillListed(b.active, u);
      ghost var active0 := b.active;
      ReleaseChunks(u);
      b.holds := b.holds[u := 0];
      forall v: Unit | v in b.active
        ensures v != u && v in active0
      {
        var p :| 0 <= p < |b.active| && b.active[p] == v;
        assert active0[p] == v;
      }
    }

    /** bio_invalidate: the cache forgets a device, and its users see what the medium holds. The lock
        count of the device still has what was dirty and locked: the cache is in order afterwards
        exactly when there was nothing of that kind. */
    method Invalidate(di: Di)
      requires Valid() && di in dis
      modifies di`wb_queue, di`wbq, di`holds, di`view, di`table, di`units, di.units`dirty
      modifies cbls`active, cbls`used, cbls`lock, cbls`free, cbls`holds
      ensures di.units == {} && di.wbq == [] && di.view == di.dev
      ensures forall d :: d in dis && d != di ==> d.Sound()
      ensures Valid() <==> old(di.wbq) == [] && old(di.holds) == multiset{}
    {
      hide *;
      KeyRange(di);
      StartEmptying(di);
      var i := 0;
      while i < HASHSIZE
        invariant 0 <= i <= HASHSIZE && Emptying(di) && di.units <= old(di.units)
        invariant forall u :: u in di.units ==> BioHash(u.sector) >= i
        invariant di.wb_queue == null && di.wbq == [] && di.holds == multiset{}
      {
        EmptyBucket(di, i);
        i := i + 1;
      }
      AllEmpty(di);
      EndEmptying(di);
    }

    lemma AllEmpty(di: Di)
      requires forall u :: u in di.units ==> BioHash(u.sector) >= HASHSIZE
      ensures di.units == {}
    {
      assert forall u :: u in di.units ==> BioHash(u.sector) < HASHSIZE;
    }

    lemma KeyRange(di: Di)
      requires Valid() && di in dis
      ensures (di.key == 0 || di.key == 1) && (di.lock == ENABLE <==> di.wbq == [] && di.holds == multiset{})
    {
      hide Di.Sound, Filled, Located, CblOK;
      di.LockCount();
    }

    method StartEmptying(di: Di)
      requires Valid() && di in dis
      modifies di`wb_queue, di`wbq, di`holds
      ensures Emptying(di) && di.wb_queue == null && di.wbq == [] && di.holds == multiset{}
    {
      hide Filled, Located, CblOK, Di.SoundWith, Di.Fixed, Di.Blocks;
      di.Forget();
      PlacesKept(null);
      SoundsKept(di);
      BlocksKept(null);
    }

    method EmptyBucket(di: Di, i: nat)
      requires Emptying(di) && i < HASHSIZE && forall u :: u in di.units ==> BioHash(u.sector) >= i
      modifies di`table, di`units, di.units`dirty
      modifies cbls`active, cbls`used, cbls`lock, cbls`free, cbls`holds
      ensures Emptying(di) && di.units <= old(di.units)
      ensures forall u :: u in di.units ==> BioHash(u.sector) >= i + 1
    {
      hide *;
      EmptyingTable(di);
      TableShape(di.table, di.units);
      while |di.table[i]| > 0
        invariant Emptying(di) && di.units <= old(di.units) && |di.table| == HASHSIZE
        decreases |di.table[i]|
      {
        var u := di.table[i][0];
        EmptyingTable(di);
        Di.UnhashedAt(di.table, di.units, i, 0);
        UnitOf(di, u);
        Discard(u);
      }
      EmptyingTable(di);
      InBucket(di.table, di.units);
    }

    lemma EmptyingTable(di: Di)
      requires Emptying(di)
      ensures Hashed(di.table, di.units) && forall u :: u in di.units ==> u.di == di
    {
      hide Places, Owned, BlocksOK, Sounds, Di.Fixed;
    }

    lemma UnitOf(di: Di, u: Unit)
      requires Emptying(di) && u in di.units
      ensures u.di == di && u.cbl in cbls
    {
      hide Filled, BlocksOK, Sounds, Di.Fixed;
      assert Located(u);
    }

    ghost method EndEmptying(di: Di)
      requires Emptying(di) && di.units == {} && di.wb_queue == null && di.wbq == [] && di.holds == multiset{}
      requires di.key == 0 || di.key == 1
      modifies di`view
      ensures di.view == di.dev && (Valid() <==> di.lock == ENABLE)
      ensures forall d :: d in dis && d != di ==> d.Sound()
    {
      hide Filled, Located, CblOK, Di.SoundWith, Di.Fixed, Di.Blocks;
      di.Settle();
      PlacesKept(null);
      SoundsKept(di);
      BlocksKept(null);
    }
  }

  // ---------------------------------------------------------------- where things go wrong

  lemma MadeReady(cache: Cache, u: Unit, di: Di)
    requires cache.Made(u, di, 0, 512) && di in cache.dis
    ensures cache.Ready(u) && u.di == di && u.size == 512 && u.cbl in cache.cbls
  {
  }

  lemma StillLocked(cache: Cache, di: Di)
    requires cache.Valid() && di in cache.dis && di.wbq != []
    ensures di.lock > ENABLE
  {
    hide Cache.Filled, Cache.Located, Cache.CblOK, Di.Sound;
    cache.LockTotal(di);
  }

  /** A cache with one block of four chunks for a device of four sectors. */
  method SmallCache() returns (cache: Cache, di: Di)
    ensures fresh(cache) && fresh(di) && cache.Valid() && cache.dis == {di} && cache.all == {} && di.units == {}
    ensures |cache.cbls| == 1 && fresh(cache.cbls[0]) && cache.cbls[0].lock == 0 && cache.cbls[0].free == 4
    ensures cache.chunks == 4 && di.pssize == 512 && di.lratio == 1 && di.psectors == 4 && di.layout == map[0 := 512]
  {
    hide Di.Sound;
    TimesIs(4, 512);
    TimesIs(1, 512);
    TimesIs(0, 512);
    di := new Di(512, 1, 4, false, seq(2048, _ => 0), map[0 := 512]);
    var b := new Cbl(4, seq(2048, _ => 0));
    cache := new Cache([b], {di}, 4, 50);
  }

  /** The block of such a device is written into the cache. */
  method OneDirty(cache: Cache, di: Di)
    requires cache.Valid() && cache.dis == {di} && cache.all == {} && di.units == {}
    requires |cache.cbls| == 1 && cache.cbls[0].lock == 0 && cache.cbls[0].free == 4
    requires cache.chunks == 4 && di.pssize == 512 && di.lratio == 1 && di.psectors == 4 && di.layout == map[0 := 512]
    modifies cache`repr, cache`all, di, cache.cbls
    ensures cache.Valid() && di.wbq != [] && di.lock > ENABLE && fresh(di.units)
  {
    hide Cache.Valid, Cache.Ready, Cache.Made, Cache.CblOK, Cache.Filled, Cache.Core, Cache.Owned, Cache.BlocksOK,
      Cache.Cost, Cache.BestBlock, Cache.BestRange, Di.Sound, Splice, Addr;
    assert cache.Accepts(di, 0, 512) && cache.cbls[0].lock == 0 && NChunks(512) == 1;
    var u, err := cache.UnitGet(di, 0, 512);
    MadeReady(cache, u, di);
    assert u.cbl == cache.cbls[0];
    cache.PutBlock(u, seq(512, _ => 1));
    StillLocked(cache, di);
  }

  /** A device of which a block is written through the cache, and which is forgotten before it is
      written back: the lock count still has the dirty unit. */
  method DirtyForgotten() returns (cache: Cache, di: Di)
    ensures di in cache.dis && di.units == {} && di.wbq == [] && di.lock > ENABLE && !cache.Valid()
  {
    hide *;
    cache, di := SmallCache();
    OneDirty(cache, di);
    cache.Invalidate(di);
  }
}
