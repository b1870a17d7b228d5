/**
  The records of the block cache: cached units, cache blocks, and the descriptor of a device with
  its hash table and its queue of dirty units, which is a doubly linked list through the units.
 */
module BlockUnit {
  import opened Machine

  const ENABLE := 1

  class Unit {
    const di: Di
    const sector: nat    // logical start sector on the device
    const size: nat      // in bytes
    const cbl: Cbl       // the cache block that holds the data ...
    const pos: nat       // ... from this chunk on
    var wb_prev: Unit?
    var wb_next: Unit?
    var stat: nat
    var dirty: bool
    var lock: nat

    constructor (di: Di, sector: nat, size: nat, cbl: Cbl, pos: nat)
      ensures this.di == di && this.sector == sector && this.size == size && this.cbl == cbl && this.pos == pos
      ensures wb_prev == null && wb_next == null && !dirty && lock == 0
    {
      this.di, this.sector, this.size, this.cbl, this.pos := di, sector, size, cbl, pos;
      wb_prev, wb_next, stat, dirty, lock := null, null, 0, false, 0;
    }
  }

  /** A cache block: the data of many units, with the map of its chunks. */
  class Cbl {
    var data: seq<byte>
    var active: seq<Unit?>   // by position: the unit that begins there
    var used: seq<nat>       // by chunk: position of the covering unit plus one, or 0
    var stat: nat
    var lock: int            // locks on its units
    var free: int            // free chunks
    ghost var holds: multiset<Unit>    // one occurrence a unit for each lock on it

    constructor (chunks: nat, data: seq<byte>)
      ensures this.data == data && stat == 0 && lock == 0 && free == chunks && holds == multiset{}
      ensures |active| == |used| == chunks
      ensures forall j :: 0 <= j < chunks ==> active[j] == null && used[j] == 0
    {
      this.data, stat, lock, free, holds := data, 0, 0, chunks, multiset{};
      active := seq(chunks, _ => null);
      used := seq(chunks, _ => 0);
    }
  }

  // ---------------------------------------------------------------- places on the device

  /** Where a unit's bytes are on its device. */
  function Addr(u: Unit): nat {
    Times(u.sector, u.di.lsize)
  }

  predicate Covers(u: Unit, a: int) {
    Addr(u) <= a < Addr(u) + u.size
  }

  /** The medium lags behind the view at most where one of the units of q lies. */
  ghost predicate AgreeOutside(dev: seq<byte>, view: seq<byte>, q: seq<Unit>) {
    && |dev| == |view|
    && forall a :: 0 <= a < |dev| && dev[a] != view[a] ==> exists u :: u in q && Covers(u, a)
  }

  /** Writing a unit back lets the medium catch up in its place. */
  lemma AgreeWriteBack(dev: seq<byte>, view: seq<byte>, q: seq<Unit>, q': seq<Unit>, at: nat, n: nat)
    requires AgreeOutside(dev, view, q) && at + n <= |dev|
    requires forall u :: u in q && u !in q' ==> at <= Addr(u) && Addr(u) + u.size <= at + n
    ensures AgreeOutside(Splice(dev, at, view[at..at + n]), view, q')
  {
    var dev' := Splice(dev, at, view[at..at + n]);
    forall a | 0 <= a < |dev'| && dev'[a] != view[a]
      ensures exists u :: u in q' && Covers(u, a)
    {
      assert dev[a] != view[a];
      var u :| u in q && Covers(u, a);
      assert u in q';
    }
  }

  /** New contents for a range that reach the medium at once; units inside it need no writing. */
  lemma AgreeOverwrite(dev: seq<byte>, view: seq<byte>, q: seq<Unit>, q': seq<Unit>, at: nat, x: seq<byte>)
    requires AgreeOutside(dev, view, q) && at + |x| <= |dev|
    requires forall u :: u in q && u !in q' ==> at <= Addr(u) && Addr(u) + u.size <= at + |x|
    ensures AgreeOutside(Splice(dev, at, x), Splice(view, at, x), q')
  {
    var dev', view' := Splice(dev, at, x), Splice(view, at, x);
    forall a | 0 <= a < |dev'| && dev'[a] != view'[a]
      ensures exists u :: u in q' && Covers(u, a)
    {
      var u :| u in q && Covers(u, a);
      assert u in q';
    }
  }

  /** New contents for a dirty unit do not touch the medium. */
  lemma AgreeDirty(dev: seq<byte>, view: seq<byte>, q: seq<Unit>, u: Unit, x: seq<byte>)
    requires AgreeOutside(dev, view, q) && u in q && |x| == u.size && Addr(u) + u.size <= |view|
    ensures AgreeOutside(dev, Splice(view, Addr(u), x), q)
  {
    var view' := Splice(view, Addr(u), x);
    forall a | 0 <= a < |dev| && dev[a] != view'[a]
      ensures exists v :: v in q && Covers(v, a)
    {
      if Covers(u, a) {
        assert u in q && Covers(u, a);
      } else {
        assert dev[a] != view[a];
      }
    }
  }

  lemma AgreeMore(dev: seq<byte>, view: seq<byte>, q: seq<Unit>, q': seq<Unit>)
    requires AgreeOutside(dev, view, q) && forall u :: u in q ==> u in q'
    ensures AgreeOutside(dev, view, q')
  {
    forall a | 0 <= a < |dev| && dev[a] != view[a]
      ensures exists u :: u in q' && Covers(u, a)
    {
      var u :| u in q && Covers(u, a);
      assert u in q' && Covers(u, a);
    }
  }

  /** Where no dirty unit lies, the medium holds what the users see. */
  lemma AgreeMiss(dev: seq<byte>, view: seq<byte>, q: seq<Unit>, at: nat, n: nat)
    requires AgreeOutside(dev, view, q) && at + n <= |dev|
    requires forall u :: u in q ==> Addr(u) + u.size <= at || at + n <= Addr(u)
    ensures dev[at..at + n] == view[at..at + n]
  {
    assert forall a :: at <= a < at + n ==> dev[a] == view[a];
  }

  // ---------------------------------------------------------------- the queue as a sequence

  /** Insert before the first unit that does not start below the sector. */
  function Inserted(q: seq<Unit>, u: Unit): (r: seq<Unit>)
    ensures |r| == |q| + 1
  {
    if q == [] || q[0].sector >= u.sector then [u] + q else [q[0]] + Inserted(q[1..], u)
  }

  ghost predicate Sorted(q: seq<Unit>) {
    forall i, j :: 0 <= i < j < |q| ==> q[i].sector < q[j].sector
  }

  function Without(q: seq<Unit>, k: nat): (r: seq<Unit>)
    requires k < |q|
    ensures |r| == |q| - 1
  {
    q[..k] + q[k + 1..]
  }

  function FirstAt(q: seq<Unit>, u: Unit): (k: nat)
    requires u in q
    ensures k < |q| && q[k] == u
  {
    if q[0] == u then 0 else 1 + FirstAt(q[1..], u)
  }

  ghost predicate Distinct(q: seq<Unit>) {
    forall i, j :: 0 <= i < j < |q| ==> q[i] != q[j]
  }

  lemma DistinctInsert(q: seq<Unit>, u: Unit, k: nat)
    requires Distinct(q) && u !in q && k <= |q|
    ensures Distinct(q[..k] + [u] + q[k..])
  {
  }

  lemma SortedInsert(q: seq<Unit>, u: Unit, k: nat)
    requires Sorted(q) && k <= |q| && (forall i :: 0 <= i < |q| ==> q[i].sector != u.sector)
    requires (forall i :: 0 <= i < k ==> q[i].sector < u.sector) && (k < |q| ==> u.sector <= q[k].sector)
    ensures Sorted(q[..k] + [u] + q[k..])
  {
  }

  lemma SortedWithout(q: seq<Unit>, k: nat)
    requires Sorted(q) && Distinct(q) && k < |q|
    ensures Sorted(Without(q, k)) && q[k] !in Without(q, k)
    ensures forall u :: u in q && u != q[k] ==> u in Without(q, k)
    ensures forall u :: u in Without(q, k) ==> u in q
  {
    var r := Without(q, k);
    assert forall i :: 0 <= i < |r| ==> r[i] == q[if i < k then i else i + 1];
    forall u | u in q && u != q[k]
      ensures u in r
    {
      var i :| 0 <= i < |q| && q[i] == u;
      assert r[if i < k then i else i - 1] == u;
    }
  }

  /** Inserting at place k, where the search of the list stops. */
  lemma {:induction false} InsertedAt(q: seq<Unit>, u: Unit, k: nat)
    requires k <= |q| && (forall i :: 0 <= i < k ==> q[i].sector < u.sector)
    requires k < |q| ==> u.sector <= q[k].sector
    ensures Inserted(q, u) == q[..k] + [u] + q[k..]
    decreases k
  {
    if k == 0 {
      assert q[..0] + [u] + q[0..] == [u] + q;
    } else {
      InsertedAt(q[1..], u, k - 1);
      assert q[..k] + [u] + q[k..] == [q[0]] + (q[1..][..k - 1] + [u] + q[1..][k - 1..]);
    }
  }

  lemma InsertedIndex(q: seq<Unit>, u: Unit, k: nat) returns (w: seq<Unit>)
    requires k <= |q| && (forall i :: 0 <= i < k ==> q[i].sector < u.sector)
    requires k < |q| ==> u.sector <= q[k].sector
    requires Distinct(q) && u !in q
    ensures w == Inserted(q, u) && |w| == |q| + 1 && Distinct(w)
    ensures w[k] == u && (forall i :: 0 <= i < k ==> w[i] == q[i]) && forall i :: k < i < |w| ==> w[i] == q[i - 1]
  {
    w := q[..k] + [u] + q[k..];
    InsertedAt(q, u, k);
    DistinctInsert(q, u, k);
  }

  lemma TakenMembers(q: seq<Unit>)
    requires q != []
    ensures |q[1..]| == |q| - 1 && forall v :: v in q <==> v == q[0] || v in q[1..]
  {
    assert q == [q[0]] + q[1..];
  }

  // ---------------------------------------------------------------- the hash table

  const HASHSIZE: nat := 256

  /** bio_hash */
  function BioHash(sector: nat): (h: nat)
    ensures h < HASHSIZE
  {
    (sector + sector / 256 + sector / 65536) % 256
  }

  /** Sectors of one group of 256 share no bucket. */
  lemma HashSpreads(s: nat, t: nat)
    requires s / 256 == t / 256 && BioHash(s) == BioHash(t)
    ensures s == t
  {
    SameHigh(s, t);
    NearAndEqual(s + (s / 256 + s / 65536), t + (s / 256 + s / 65536));
  }

  lemma NearAndEqual(a: nat, b: nat)
    requires a % 256 == b % 256 && -256 < a - b < 256
    ensures a == b
  {
  }

  lemma SameHigh(s: nat, t: nat)
    requires s / 256 == t / 256
    ensures s / 65536 == t / 65536 && -256 < s - t < 256
  {
    assert s / 65536 == s / 256 / 256;
    assert t / 65536 == t / 256 / 256;
  }

  /** The table holds exactly the given units, each once, in the bucket of its sector. */
  ghost predicate Hashed(table: seq<seq<Unit>>, units: set<Unit>) {
    && |table| == HASHSIZE
    && (forall h :: 0 <= h < HASHSIZE ==> Distinct(table[h]))
    && (forall h, u :: 0 <= h < HASHSIZE && u in table[h] ==> u in units && BioHash(u.sector) == h)
    && (forall u :: u in units ==> u in table[BioHash(u.sector)])
  }

  lemma HashedMore(table: seq<seq<Unit>>, units: set<Unit>, u: Unit)
    requires Hashed(table, units) && u !in units
    ensures var h := BioHash(u.sector); Hashed(table[h := [u] + table[h]], units + {u})
  {
    var h := BioHash(u.sector);
    var table' := table[h := [u] + table[h]];
    assert u !in table[h];
    forall v | v in units + {u}
      ensures v in table'[BioHash(v.sector)]
    {
      if v != u {
        assert v in table[BioHash(v.sector)];
      } else {
        assert table'[h][0] == u;
      }
    }
  }

  lemma {:induction false} FirstIs(q: seq<Unit>, k: nat)
    requires Distinct(q) && k < |q|
    ensures FirstAt(q, q[k]) == k
  {
    if k > 0 {
      assert q[k] == q[1..][k - 1];
      FirstIs(q[1..], k - 1);
    }
  }

  lemma HashedLess(table: seq<seq<Unit>>, units: set<Unit>, u: Unit, k: nat)
    requires Hashed(table, units) && u in units
    requires k < |table[BioHash(u.sector)]| && table[BioHash(u.sector)][k] == u
    ensures var h := BioHash(u.sector); Hashed(table[h := Without(table[h], k)], units - {u})
  {
    var h := BioHash(u.sector);
    var b := table[h];
    var b' := Without(b, k);
    var table' := table[h := b'];
    assert forall i :: 0 <= i < |b'| ==> b'[i] == b[if i < k then i else i + 1];
    assert u !in b';
    forall v | v in units - {u}
      ensures v in table'[BioHash(v.sector)]
    {
      if BioHash(v.sector) == h {
        var i :| 0 <= i < |b| && b[i] == v;
        assert b'[if i < k then i else i - 1] == v;
      }
    }
  }

  /** Each start sector in use has one block size, and the blocks lie apart and on the device. */
  ghost predicate LayoutOK(layout: map<nat, nat>, pssize: nat, lsize: nat, n: nat)
    requires 0 < pssize
  {
    && (forall s :: s in layout ==> 0 < layout[s] && Times(s, lsize) + layout[s] <= n)
    && (forall s :: s in layout ==> layout[s] == Times(layout[s] / pssize, pssize))
    && (forall s, t :: s in layout && t in layout && s != t ==>
          Times(s, lsize) + layout[s] <= Times(t, lsize) || Times(t, lsize) + layout[t] <= Times(s, lsize))
  }

  /** A device. */
  /** A transfer to a medium: the logical sector and the bytes. */
  type Transfer = (nat, seq<byte>)

  /** A medium that held `start`, after the transfers of the log, with ls bytes a logical sector. */
  ghost function Transferred(start: seq<byte>, log: seq<Transfer>, ls: nat): (r: seq<byte>)
    ensures |r| == |start|
    decreases |log|
  {
    if log == [] then start else
    var b := Transferred(start, log[..|log| - 1], ls);
    var (sector, x) := log[|log| - 1];
    if Times(sector, ls) + |x| <= |b| then Splice(b, Times(sector, ls), x) else b
  }

  lemma TransferredMore(start: seq<byte>, log: seq<Transfer>, ls: nat, e: Transfer)
    ensures Times(e.0, ls) + |e.1| <= |start| ==>
      Transferred(start, log + [e], ls) == Splice(Transferred(start, log, ls), Times(e.0, ls), e.1)
  {
    assert (log + [e])[..|log|] == log;
  }

  class Di {
    const pssize: nat        // bytes a physical sector
    const lratio: nat        // physical sectors a logical sector: 1 << lshift
    const psectors: nat      // physical sectors of the partition
    const lsize: nat         // bytes a logical sector: 1 << p_l_shift
    const removable: bool
    var dev: seq<byte>       // what the medium holds
    var table: seq<seq<Unit>>
    var wb_queue: Unit?
    var lock: int
    var key: int
    ghost var wbq: seq<Unit>           // the units linked from wb_queue on
    ghost var units: set<Unit>         // the units in the hash table
    ghost var view: seq<byte>          // the device as its users see it through the cache
    ghost const start: seq<byte>       // what the medium held first
    ghost var log: seq<Transfer>       // what was transferred to it since
    ghost var holds: multiset<Unit>    // one occurrence a unit for each lock on it
    ghost const layout: map<nat, nat>  // the block size used at each start sector

    constructor (pssize: nat, lratio: nat, psectors: nat, removable: bool, dev: seq<byte>, ghost layout: map<nat, nat>)
      requires 0 < pssize && 0 < lratio && |dev| == Times(psectors, pssize)
        && LayoutOK(layout, pssize, Times(lratio, pssize), |dev|)
      ensures Sound() && this.removable == removable && this.dev == view == dev && this.layout == layout
      ensures this.pssize == pssize && this.lratio == lratio && this.psectors == psectors
      ensures units == {} && wbq == [] && holds == multiset{} && key == 0 && start == dev && log == []
    {
      this.pssize, this.lratio, this.psectors, this.lsize := pssize, lratio, psectors, Times(lratio, pssize);
      this.removable, this.dev, this.start, this.layout := removable, dev, dev, layout;
      table := seq(HASHSIZE, _ => []);
      wb_queue, lock, key, wbq, units, view, holds, log := null, ENABLE, 0, [], {}, dev, multiset{}, [];
      TimesMono(1, lratio, pssize);
      TimesOne(1, pssize);
    }

    /** The device as the cache keeps it in mind: every unit is hashed under its sector and has the
        block size in use there; the dirty units are queued in sector order; the medium lags behind
        the view only where dirty units lie; locks and dirty units are counted; and on a removable
        medium the door stays locked while there are any. */
    ghost predicate Sound()
      reads this, units`dirty, units`lock, units`wb_next, units`wb_prev
    {
      SoundWith([])
    }

    /** The same while the units of `flight` are neither queued nor written back yet. */
    ghost predicate SoundWith(flight: seq<Unit>)
      reads this, units`dirty, units`lock, units`wb_next, units`wb_prev
    {
      Fixed() && Blocks() && Queued() && Counted() && AgreeOutside(dev, view, wbq + flight)
    }

    ghost predicate Fixed()
      reads this`dev, this`view, this`log
    {
      && 0 < pssize && 0 < lratio && lsize == Times(lratio, pssize) && 0 < lsize
      && |dev| == |view| == Times(psectors, pssize) && LayoutOK(layout, pssize, lsize, |dev|)
      && History()
    }

    /** The medium holds what it held first and what was transferred since, in whole sectors inside it. */
    ghost predicate History()
      reads this`dev, this`log
    {
      && dev == Transferred(start, log, lsize)
      && forall i :: 0 <= i < |log| ==> Sized(log[i])
    }

    ghost predicate Sized(e: Transfer) {
      && 0 < pssize && 0 < |e.1| && |e.1| == Times(|e.1| / pssize, pssize)
      && Times(e.0, lsize) + |e.1| <= |start|
    }

    ghost predicate Blocks()
      reads this`units, this`table
    {
      && (forall u :: u in units ==> u.di == this && u.sector in layout && layout[u.sector] == u.size)
      && (forall u, v :: u in units && v in units && u.sector == v.sector ==> u == v)
      && Hashed(table, units)
    }

    ghost predicate Queued()
      reads this`units, this`wbq, this`wb_queue, units`dirty, units`wb_next, units`wb_prev
    {
      && (forall u :: u in wbq ==> u in units && u.dirty)
      && (forall u :: u in units && u !in wbq ==> !u.dirty && u.wb_next == null && u.wb_prev == null)
      && Linked() && Sorted(wbq)
    }

    ghost predicate Counted()
      reads this`lock, this`key, this`units, this`holds, this`wbq, units`lock
    {
      && lock == ENABLE + |wbq| + |holds|
      && (forall u :: u in units ==> u.lock == holds[u])
      && (forall u :: u in holds ==> u in units)
      && (key == 0 || key == 1) && (removable && lock > ENABLE ==> key == 1)
    }

    /** The list through wb_next and wb_prev is the queue, and exactly its units are dirty. */
    ghost predicate Linked()
      reads this`wb_queue, this`wbq, wbq`wb_next, wbq`wb_prev
    {
      && Distinct(wbq)
      && wb_queue == (if wbq == [] then null else wbq[0])
      && forall i :: 0 <= i < |wbq| ==> Placed(wbq, i)
    }

    /** The i-th unit of q is linked with its neighbours in q. */
    ghost predicate Placed(q: seq<Unit>, i: int)
      requires 0 <= i < |q|
      reads q`wb_next, q`wb_prev
    {
      && q[i].wb_next == (if i + 1 < |q| then q[i + 1] else null)
      && q[i].wb_prev == (if i > 0 then q[i - 1] else null)
    }

    /** The search of bio_wbq_insert: the first unit that does not start below, and the one before. */
    method FindPlace(sector: nat) returns (queue: Unit?, last: Unit?, ghost k: nat)
      requires Linked()
      ensures k <= |wbq| && queue == (if k < |wbq| then wbq[k] else null)
      ensures last == (if k > 0 then wbq[k - 1] else null)
      ensures forall i :: 0 <= i < k ==> wbq[i].sector < sector
      ensures k < |wbq| ==> sector <= wbq[k].sector
    {
      queue, last, k := wb_queue, null, 0;
      while queue != null && queue.sector < sector
        invariant k <= |wbq| && queue == (if k < |wbq| then wbq[k] else null)
        invariant last == if k > 0 then wbq[k - 1] else null
        invariant forall i :: 0 <= i < k ==> wbq[i].sector < sector
        decreases |wbq| - k
      {
        assert Placed(wbq, k);
        last := queue;
        queue := queue.wb_next;
        k := k + 1;
      }
    }

    /** bio_wbq_insert: the sorted place in the queue; nothing for a unit that is dirty already. */
    method WbqInsert(u: Unit)
      requires Linked() && u !in wbq && !u.dirty && u.wb_next == null && u.wb_prev == null
      modifies this`wb_queue, this`wbq, this`lock, wbq`wb_next, wbq`wb_prev, u`wb_next, u`wb_prev, u`dirty
      ensures Linked() && wbq == Inserted(old(wbq), u) && u.dirty && lock == old(lock) + 1
    {
      u.dirty := true;
      lock := lock + 1;
      ghost var q := wbq;
      ghost var k: nat := 0;
      if wb_queue != null {
        var queue, last;
        queue, last, k := FindPlace(u.sector);
        LinkIn(u, queue, last, k);
      } else {
        wb_queue := u;
      }
      ghost var w := InsertedIndex(q, u, k);
      wbq := w;
      forall i | 0 <= i < |w|
        ensures Placed(w, i)
      {
        if i < k {
          assert old(Placed(q, i)) && q[i] in q;
        } else if i > k {
          assert old(Placed(q, i - 1)) && q[i - 1] in q;
        }
      }
    }

    /** The pointers of bio_wbq_insert, for a queue with units: in front of `queue`, or behind `last`. */
    method LinkIn(u: Unit, queue: Unit?, last: Unit?, ghost k: nat)
      requires Linked() && wbq != [] && u !in wbq && u.wb_next == null && u.wb_prev == null && k <= |wbq|
      requires queue == (if k < |wbq| then wbq[k] else null) && last == (if k > 0 then wbq[k - 1] else null)
      modifies this`wb_queue, wbq`wb_next, wbq`wb_prev, u`wb_next, u`wb_prev
      ensures wb_queue == if k == 0 then u else wbq[0]
      ensures u.wb_next == queue && u.wb_prev == last
      ensures (last != null ==> last.wb_next == u) && (queue != null ==> queue.wb_prev == u)
      ensures forall v :: v in wbq && v != last ==> v.wb_next == old(v.wb_next)
      ensures forall v :: v in wbq && v != queue ==> v.wb_prev == old(v.wb_prev)
    {
      assert (k < |wbq| ==> Placed(wbq, k) && wbq[k] in wbq) && (k > 0 ==> wbq[k - 1] in wbq);
      if queue != null {
        if queue.wb_prev != null {
          queue.wb_prev.wb_next := u;
          u.wb_prev := queue.wb_prev;
        }
        u.wb_next := queue;
        queue.wb_prev := u;
        if wb_queue == queue {
          wb_queue := u;
        }
      } else {
        last.wb_next := u;
        u.wb_prev := last;
      }
    }

    /** bio_wbq_remove for a dirty unit, which is the k-th of the queue. */
    method WbqRemove(u: Unit, ghost k: nat)
      requires Linked() && k < |wbq| && wbq[k] == u
      modifies this`wb_queue, this`wbq, this`lock, wbq`wb_next, wbq`wb_prev, u`dirty
      ensures Linked() && wbq == Without(old(wbq), k) && !u.dirty && lock == old(lock) - 1
      ensures u.wb_next == null && u.wb_prev == null
    {
      ghost var q := wbq;
      assert Placed(q, k);
      assert (k + 1 < |q| ==> q[k + 1] in q) && (k > 0 ==> q[k - 1] in q);
      if u.wb_next != null {
        u.wb_next.wb_prev := u.wb_prev;
      }
      if u.wb_prev != null {
        u.wb_prev.wb_next := u.wb_next;
      } else {
        wb_queue := u.wb_next;
      }
      u.wb_next := null;
      u.wb_prev := null;
      u.dirty := false;
      lock := lock - 1;
      wbq := Without(wbq, k);
      forall i | 0 <= i < |wbq|
        ensures Placed(wbq, i)
      {
        assert old(Placed(q, if i < k then i else i + 1));
      }
    }

    /** bio_wbq_getfirst */
    method WbqGetFirst() returns (u: Unit?)
      requires Linked()
      modifies this`wb_queue, this`wbq, this`lock, wbq`wb_next, wbq`wb_prev, wbq`dirty
      ensures Linked()
      ensures old(wbq) == [] ==> u == null && wbq == [] && lock == old(lock)
      ensures old(wbq) != [] ==>
        && u == old(wbq)[0] && wbq == old(wbq)[1..] && lock == old(lock) - 1
        && u.wb_next == null && u.wb_prev == null && !u.dirty
      ensures forall v :: v in wbq ==> v.dirty == old(v.dirty)
    {
      u := wb_queue;
      if u != null {
        ghost var q := wbq;
        assert Placed(q, 0);
        assert q[0] in q && (1 < |q| ==> q[1] in q);
        wb_queue := u.wb_next;
        if wb_queue != null {
          wb_queue.wb_prev := null;
        }
        u.wb_next := null;
        u.wb_prev := null;
        u.dirty := false;
        lock := lock - 1;
        wbq := wbq[1..];
        forall i | 0 <= i < |wbq|
          ensures Placed(wbq, i)
        {
          assert old(Placed(q, i + 1));
        }
      }
    }

    // -------------------------------------------------------------- the medium

    /** Where the m sectors behind the first k of a transfer of n sectors lie, in the buffer and on
        the medium. */
    lemma Sectors(rec: nat, n: nat, k: nat, m: nat)
      requires 0 < pssize && lsize == Times(lratio, pssize) && |dev| == Times(psectors, pssize)
      requires Times(rec, lratio) + n <= psectors && k + m <= n
      ensures Times(k, pssize) + Times(m, pssize) == Times(k + m, pssize) <= Times(n, pssize)
      ensures Times(Times(rec, lratio) + k, pssize) == Times(rec, lsize) + Times(k, pssize)
      ensures Times(rec, lsize) + Times(n, pssize) <= |dev|
    {
      hide Times;
      TimesTimes(rec, lratio, pssize);
      TimesAdd(Times(rec, lratio), n, pssize);
      TimesMono(Times(rec, lratio) + n, psectors, pssize);
      TimesAdd(k, m, pssize);
      TimesMono(k + m, n, pssize);
      TimesAdd(Times(rec, lratio), k, pssize);
    }

    lemma SectorsNone()
      ensures Times(0, pssize) == 0
    {
    }

    /** XHReadWrite for writing `count` physical sectors, which is an unsigned short. */
    method XHWrite(recno: nat, ghost count: nat, x: seq<byte>)
      requires count <= 65535
      requires |x| == Times(count, pssize) && Times(recno, pssize) + |x| <= |dev|
      modifies this`dev
      ensures dev == Splice(old(dev), Times(recno, pssize), x)
    {
      dev := Splice(dev, Times(recno, pssize), x);
    }

    /** rwabs_xhdi for writing: at most 65535 sectors a call, one after the other. */
    method RwAbsWrite(x: seq<byte>, rec: nat) returns (r: int)
      requires 0 < pssize && lsize == Times(lratio, pssize) && |dev| == Times(psectors, pssize)
      modifies this`dev
      ensures var n := |x| / pssize;
        if n == 0 || Times(rec, lratio) + n > psectors
        then r == ESECTOR && dev == old(dev)
        else
          && r == E_OK && Times(n, pssize) <= |x| && Times(rec, lsize) + Times(n, pssize) <= |old(dev)|
          && dev == Splice(old(dev), Times(rec, lsize), x[..Times(n, pssize)])
    {
      hide *;
      var n: int, o := DivMod(|x|, pssize);
      var recno := Times(rec, lratio);
      if n == 0 {
        return ESECTOR;
      }
      if recno + n > psectors {
        return ESECTOR;
      }
      ghost var n0: nat := n;
      Sectors(rec, n0, 0, n0);
      SectorsNone();
      ghost var k: nat := 0;
      var done: nat := 0;
      while n > 65535
        invariant k + n == n0 && n > 0 && recno == Times(rec, lratio) + k
        invariant done == Times(k, pssize) <= Times(n0, pssize) <= |x|
        invariant dev == Splice(old(dev), Times(rec, lsize), x[..done])
      {
        Sectors(rec, n0, k, 65535);
        var next := done + Times(65535, pssize);
        SpliceJoin(old(dev), Times(rec, lsize), x, done, next);
        XHWrite(recno, 65535, x[done..next]);
        recno := recno + 65535;
        n := n - 65535;
        k := k + 65535;
        done := next;
      }
      Sectors(rec, n0, k, n);
      SpliceJoin(old(dev), Times(rec, lsize), x, done, done + Times(n, pssize));
      XHWrite(recno, n, x[done..done + Times(n, pssize)]);
      return E_OK;
    }

    /** rwabs_xhdi for reading. */
    method RwAbsRead(size: nat, rec: nat) returns (r: int, x: seq<byte>)
      requires 0 < pssize && lsize == Times(lratio, pssize) && |dev| == Times(psectors, pssize)
      ensures var n := size / pssize;
        if n == 0 || Times(rec, lratio) + n > psectors
        then r == ESECTOR
        else
          && r == E_OK && Times(rec, lsize) + Times(n, pssize) <= |dev|
          && x == dev[Times(rec, lsize)..Times(rec, lsize) + Times(n, pssize)]
    {
      hide *;
      x := [];
      var n: int, o := DivMod(size, pssize);
      var recno := Times(rec, lratio);
      if n == 0 {
        return ESECTOR, x;
      }
      if recno + n > psectors {
        return ESECTOR, x;
      }
      ghost var n0: nat := n;
      Sectors(rec, n0, 0, n0);
      SectorsNone();
      ghost var k: nat := 0;
      while n > 65535
        invariant k + n == n0 && n > 0 && recno == Times(rec, lratio) + k && 0 <= k
        invariant Times(k, pssize) <= Times(n0, pssize)
        invariant x == dev[Times(rec, lsize)..Times(rec, lsize) + Times(k, pssize)]
      {
        Sectors(rec, n0, k, 65535);
        x := x + dev[Times(recno, pssize)..Times(recno, pssize) + Times(65535, pssize)];
        recno := recno + 65535;
        n := n - 65535;
        k := k + 65535;
      }
      Sectors(rec, n0, k, n);
      x := x + dev[Times(recno, pssize)..Times(recno, pssize) + Times(n, pssize)];
      return E_OK, x;
    }

    /** bio_writeout of whole sectors inside the partition, which succeeds. */
    method WriteOut(x: seq<byte>, sector: nat)
      requires 0 < pssize && lsize == Times(lratio, pssize) && |dev| == Times(psectors, pssize)
      requires 0 < |x| && |x| == Times(|x| / pssize, pssize) && Times(sector, lsize) + |x| <= |dev|
      modifies this`dev, this`log
      ensures dev == Splice(old(dev), Times(sector, lsize), x) && log == old(log) + [(sector, x)]
      ensures old(History()) ==> History()
    {
      hide Times, Splice;
      InPartition(sector, |x| / pssize);
      TransferredMore(start, log, lsize, (sector, x));
      log := log + [(sector, x)];
      var r := RwAbsWrite(x, sector);
      assert x[..|x|] == x;
    }

    /** bio_readin of whole sectors inside the partition, which succeeds. */
    method ReadIn(size: nat, sector: nat) returns (x: seq<byte>)
      requires 0 < pssize && lsize == Times(lratio, pssize) && |dev| == Times(psectors, pssize)
      requires 0 < size && size == Times(size / pssize, pssize) && Times(sector, lsize) + size <= |dev|
      ensures x == dev[Times(sector, lsize)..Times(sector, lsize) + size]
    {
      hide Times;
      InPartition(sector, size / pssize);
      var r;
      r, x := RwAbsRead(size, sector);
    }

    lemma InPartition(sector: nat, n: nat)
      requires 0 < pssize && lsize == Times(lratio, pssize)
      requires Times(sector, lsize) + Times(n, pssize) <= Times(psectors, pssize) && 0 < Times(n, pssize)
      ensures 0 < n && Times(sector, lratio) + n <= psectors
    {
      hide Times;
      SectorsNone();
      TimesTimes(sector, lratio, pssize);
      TimesAdd(Times(sector, lratio), n, pssize);
      if psectors < Times(sector, lratio) + n {
        TimesMono(psectors, Times(sector, lratio) + n, pssize);
      }
    }

    // -------------------------------------------------------------- the hash table

    /** bio_hash_lookup */
    method HashLookup(sector: nat) returns (u: Unit?)
      requires Hashed(table, units)
      ensures u != null ==> u in units && u.sector == sector
      ensures u == null ==> forall v :: v in units ==> v.sector != sector
    {
      var b := table[BioHash(sector)];
      var i := 0;
      while i < |b|
        invariant 0 <= i <= |b| && forall j :: 0 <= j < i ==> b[j].sector != sector
      {
        if b[i].sector == sector {
          return b[i];
        }
        i := i + 1;
      }
      return null;
    }

    /** bio_hash_install */
    method HashInstall(u: Unit)
      requires Hashed(table, units) && u !in units
      modifies this`table, this`units
      ensures Hashed(table, units) && units == old(units) + {u}
    {
      HashedMore(table, units, u);
      var h := BioHash(u.sector);
      table := table[h := [u] + table[h]];
      units := units + {u};
    }

    static function Unhashed(table: seq<seq<Unit>>, u: Unit): (r: seq<seq<Unit>>)
      requires |table| == HASHSIZE && u in table[BioHash(u.sector)]
    {
      var b := table[BioHash(u.sector)];
      table[BioHash(u.sector) := Without(b, FirstAt(b, u))]
    }

    /** Where a unit leaves its bucket. */
    static lemma UnhashedAt(table: seq<seq<Unit>>, units: set<Unit>, h: nat, k: nat)
      requires Hashed(table, units) && h < HASHSIZE && k < |table[h]|
      ensures table[h][k] in units && table[h][k] in table[BioHash(table[h][k].sector)]
      ensures Unhashed(table, table[h][k]) == table[h := Without(table[h], k)]
    {
      FirstIs(table[h], k);
    }

    /** bio_hash_remove */
    method HashRemove(u: Unit)
      requires Hashed(table, units) && u in units
      modifies this`table, this`units
      ensures Hashed(table, units) && units == old(units) - {u} && table == Unhashed(old(table), u)
    {
      var h := BioHash(u.sector);
      var b := table[h];
      assert u in b;
      var i := 0;
      while b[i] != u
        invariant 0 <= i < |b| && u in b[i..] && FirstAt(b, u) == i + FirstAt(b[i..], u)
        decreases |b| - i
      {
        i := i + 1;
      }
      HashedLess(table, units, u, i);
      table := table[h := Without(b, i)];
      units := units - {u};
    }

    // -------------------------------------------------------------- what keeps the device sound

    /** bio_xhdi_lock and bio_xhdi_unlock: the door of a removable medium. */
    method XhdiLock()
      modifies this`key
      ensures key == if old(key) == 0 then 1 else old(key)
    {
      if key == 0 {
        key := 1;
      }
    }

    method XhdiUnlock()
      modifies this`key
      ensures key == if lock == ENABLE && old(key) == 1 then 0 else old(key)
    {
      if lock == ENABLE && key == 1 {
        key := 0;
      }
    }

    /** bio_wbq_insert for a unit of this device that is not dirty yet. */
    method Enqueue(u: Unit)
      requires Queued() && u in units && u !in wbq && forall v :: v in wbq ==> v.sector != u.sector
      modifies this`wb_queue, this`wbq, this`lock, units`wb_next, units`wb_prev, units`dirty
      ensures Queued() && wbq == Inserted(old(wbq), u) && lock == old(lock) + 1
      ensures forall v :: v in wbq <==> v == u || v in old(wbq)
    {
      hide Placed, Sorted, Inserted, Distinct;
      ghost var q := wbq;
      WbqInsert(u);
      InsertedSound(q, u);
    }

    /** bio_wbq_remove for a dirty unit of this device. */
    method Dequeue(u: Unit)
      requires Queued() && u in wbq
      modifies this`wb_queue, this`wbq, this`lock, units`wb_next, units`wb_prev, units`dirty
      ensures Queued() && lock == old(lock) - 1 && |wbq| == |old(wbq)| - 1
      ensures forall v :: v in wbq <==> v in old(wbq) && v != u
    {
      hide Placed, Sorted, Without;
      ghost var k :| 0 <= k < |wbq| && wbq[k] == u;
      SortedWithout(wbq, k);
      WbqRemove(u, k);
    }

    lemma QueuedBlocks(u: Unit)
      requires Blocks() && Queued() && u in units
      ensures u.dirty <==> u in wbq
      ensures forall v :: v in wbq && v != u ==> v.sector != u.sector
    {
    }

    lemma OwnUnits()
      requires Sound()
      ensures forall u :: u in units ==> u.di == this && u.sector in layout && layout[u.sector] == u.size
      ensures forall u, v :: u in units && v in units && u.sector == v.sector ==> u == v
      ensures forall u :: u in wbq ==> u in units
    {
    }

    /** Where a block of the layout lies. */
    lemma BlockRoom(sector: nat)
      requires Sound() && sector in layout
      ensures 0 < pssize && lsize == Times(lratio, pssize) && |dev| == |view| == Times(psectors, pssize)
      ensures 0 < layout[sector] && Times(sector, lsize) + layout[sector] <= |dev|
      ensures layout[sector] == Times(layout[sector] / pssize, pssize)
    {
      hide Times, AgreeOutside, Queued, Counted, Hashed;
    }

    /** For a clean unit the medium is up to date. */
    lemma CleanSame(u: Unit)
      requires Sound() && u in units && u !in wbq
      ensures Addr(u) + u.size <= |dev| == |view|
      ensures dev[Addr(u)..Addr(u) + u.size] == view[Addr(u)..Addr(u) + u.size]
    {
      hide Times, AgreeOutside, Linked, Counted, Hashed;
      forall v | v in wbq
        ensures Addr(v) + v.size <= Addr(u) || Addr(u) + u.size <= Addr(v)
      {
        assert v in units;
      }
      assert wbq + [] == wbq;
      AgreeMiss(dev, view, wbq, Addr(u), u.size);
    }

    /** bio_mark_modified: the unit is queued; the view does not change. */
    method MarkModified(u: Unit, ghost flight: seq<Unit>)
      requires SoundWith(flight) && u in units
      modifies this`key, this`wb_queue, this`wbq, this`lock, units`wb_next, units`wb_prev, units`dirty
      ensures SoundWith(flight) && u in wbq
      ensures wbq == if u in old(wbq) then old(wbq) else Inserted(old(wbq), u)
      ensures forall v :: v in wbq <==> v == u || v in old(wbq)
    {
      hide Blocks, Queued, Fixed, AgreeOutside, Inserted;
      if removable {
        XhdiLock();
      }
      ghost var q := wbq;
      QueuedBlocks(u);
      if !u.dirty {
        Enqueue(u);
        AgreeMore(dev, view, q + flight, wbq + flight);
      }
    }

    lemma InsertedSound(q: seq<Unit>, u: Unit)
      requires Sorted(q) && u !in q && forall v :: v in q ==> v.sector != u.sector
      ensures Sorted(Inserted(q, u)) && u in Inserted(q, u)
      ensures forall v :: v in Inserted(q, u) <==> v == u || v in q
    {
      hide Sorted, Inserted;
      var k := PlaceOf(q, u.sector);
      InsertedAt(q, u, k);
      SortedInsert(q, u, k);
      assert q == q[..k] + q[k..];
    }

    lemma {:induction false} PlaceOf(q: seq<Unit>, sector: nat) returns (k: nat)
      ensures k <= |q| && (forall i :: 0 <= i < k ==> q[i].sector < sector)
      ensures k < |q| ==> sector <= q[k].sector
    {
      k := 0;
      while k < |q| && q[k].sector < sector
        invariant k <= |q| && forall i :: 0 <= i < k ==> q[i].sector < sector
      {
        k := k + 1;
      }
    }

    /** bio_wbq_remove: a dirty unit leaves the queue without being written; it is in flight. */
    method Unqueue(u: Unit, ghost flight: seq<Unit>)
      requires SoundWith(flight) && u in units
      modifies this`wb_queue, this`wbq, this`lock, units`wb_next, units`wb_prev, units`dirty
      ensures SoundWith(if u in old(wbq) then flight + [u] else flight)
      ensures forall v :: v in wbq <==> v in old(wbq) && v != u
    {
      hide Blocks, Queued, Fixed, AgreeOutside;
      ghost var q := wbq;
      QueuedBlocks(u);
      if u.dirty {
        Dequeue(u);
        assert (flight + [u])[|flight|] == u;
        AgreeMore(dev, view, q + flight, wbq + (flight + [u]));
      }
    }

    /** New contents for a dirty unit: its users see them at once. */
    ghost method Show(u: Unit, x: seq<byte>)
      requires Sound() && u in wbq && |x| == u.size && Addr(u) + u.size <= |view|
      modifies this`view
      ensures Sound() && view == Splice(old(view), Addr(u), x)
    {
      hide Times, AgreeOutside, Queued, Counted, Hashed, Splice, Addr;
      AgreeDirty(dev, view, wbq + [], u, x);
      view := Splice(view, Addr(u), x);
    }

    /** bio_writeout of new contents for a range; the units in flight lie inside it. */
    method Overwrite(x: seq<byte>, sector: nat, ghost flight: seq<Unit>)
      requires 0 < pssize && 0 < |x| && |x| == Times(|x| / pssize, pssize)
        && Times(sector, lsize) + |x| <= |dev| == |view|
      requires SoundWith(flight)
      requires forall u :: u in flight ==>
        Times(sector, lsize) <= Addr(u) && Addr(u) + u.size <= Times(sector, lsize) + |x|
      modifies this`dev, this`view, this`log
      ensures Sound() && dev == Splice(old(dev), Times(sector, lsize), x) && log == old(log) + [(sector, x)]
      ensures view == Splice(old(view), Times(sector, lsize), x)
    {
      hide Times, AgreeOutside, Queued, Counted, Hashed, Splice, Addr, History;
      AgreeOverwrite(dev, view, wbq + flight, wbq + [], Times(sector, lsize), x);
      WriteOut(x, sector);
      view := Splice(view, Times(sector, lsize), x);
    }

    /** bio_wbq_getfirst: the first dirty unit is taken from the queue; it is in flight. */
    method TakeFirst(ghost flight: seq<Unit>) returns (u: Unit?)
      requires SoundWith(flight)
      modifies this`wb_queue, this`wbq, this`lock, units`wb_next, units`wb_prev, units`dirty
      ensures if old(wbq) == [] then u == null && wbq == [] && SoundWith(flight)
        else u == old(wbq)[0] && wbq == old(wbq)[1..] && u in units && u !in wbq && SoundWith(flight + [u])
    {
      hide Fixed, Blocks, AgreeOutside, Queued;
      ghost var q := wbq;
      u := DequeueFirst();
      if u != null {
        assert (flight + [u])[|flight|] == u;
        TakenMembers(q);
        AgreeMore(dev, view, q + flight, wbq + (flight + [u]));
      }
    }

    method DequeueFirst() returns (u: Unit?)
      requires Queued()
      modifies this`wb_queue, this`wbq, this`lock, units`wb_next, units`wb_prev, units`dirty
      ensures Queued()
      ensures if old(wbq) == [] then u == null && wbq == [] && lock == old(lock)
        else u == old(wbq)[0] && wbq == old(wbq)[1..] && u in units && u !in wbq && lock == old(lock) - 1
    {
      hide Placed;
      ghost var q := wbq;
      u := WbqGetFirst();
      if u != null {
        assert u in q;
        TakenMembers(q);
        TakenSound(q);
      }
    }

    lemma TakenSound(q: seq<Unit>)
      requires Sorted(q) && Distinct(q) && q != []
      ensures Sorted(q[1..]) && q[0] !in q[1..]
    {
    }

    /** bio_writeout of what is to be seen in a range: the units in flight there are done. */
    method WriteRange(x: seq<byte>, sector: nat, ghost flight: seq<Unit>, ghost rest: seq<Unit>)
      requires 0 < pssize && 0 < |x| && |x| == Times(|x| / pssize, pssize)
        && Times(sector, lsize) + |x| <= |dev| == |view|
      requires x == view[Times(sector, lsize)..Times(sector, lsize) + |x|]
      requires forall u :: u in flight && u !in rest ==>
        Times(sector, lsize) <= Addr(u) && Addr(u) + u.size <= Times(sector, lsize) + |x|
      requires SoundWith(flight)
      modifies this`dev, this`log
      ensures SoundWith(rest) && dev == Splice(old(dev), Times(sector, lsize), x) && log == old(log) + [(sector, x)]
    {
      hide Times, AgreeOutside, Queued, Counted, Hashed, Splice, Addr, History;
      AgreeWriteBack(dev, view, wbq + flight, wbq + rest, Times(sector, lsize), |x|);
      WriteOut(x, sector);
    }

    /** bio_wb_unit: a dirty unit is taken from the queue and written in its place. */
    method WriteBack(u: Unit, x: seq<byte>)
      requires Sound() && u in units && Addr(u) + u.size <= |view| && x == view[Addr(u)..Addr(u) + u.size]
      modifies this`wb_queue, this`wbq, this`lock, this`dev, this`log, units`wb_next, units`wb_prev, units`dirty
      ensures Sound()
      ensures forall v :: v in wbq <==> v in old(wbq) && v != u
      ensures dev == if u in old(wbq) then Splice(old(dev), Addr(u), x) else old(dev)
      ensures log == if u in old(wbq) then old(log) + [(u.sector, x)] else old(log)
    {
      hide Times, Queued, Splice, Counted, AgreeOutside, Hashed, History;
      QueuedBlocks(u);
      if u.dirty {
        Unqueue(u, []);
        AgreeWriteBack(dev, view, wbq + ([] + [u]), wbq + [], Addr(u), u.size);
        WriteOut(x, u.sector);
      }
    }

    /** bio_hash_install of a clean unit for a block that has none yet. */
    method Install(u: Unit)
      requires Sound() && u !in units && u.di == this && !u.dirty && u.lock == 0
      requires u.wb_next == null && u.wb_prev == null && u.sector in layout && layout[u.sector] == u.size
      requires forall v :: v in units ==> v.sector != u.sector
      modifies this`table, this`units
      ensures Sound() && units == old(units) + {u}
    {
      hide Hashed, Covers, Times, LayoutOK, Addr, Placed, Sorted, AgreeOutside;
      HashInstall(u);
    }

    /** bio_hash_remove of a clean and unlocked unit. */
    method Uninstall(u: Unit, ghost flight: seq<Unit>)
      requires SoundWith(flight) && u in units && u !in wbq && u.lock == 0
      modifies this`table, this`units
      ensures SoundWith(flight) && units == old(units) - {u} && table == Unhashed(old(table), u)
    {
      hide Hashed, Covers, Times, LayoutOK, Addr, Placed, Sorted, AgreeOutside;
      HashRemove(u);
    }

    static lemma HoldsMore(h: multiset<Unit>, u: Unit)
      ensures |h + multiset{u}| == |h| + 1
      ensures forall v :: (h + multiset{u})[v] == if v == u then h[v] + 1 else h[v]
    {
    }

    static lemma HoldsLess(h: multiset<Unit>, u: Unit)
      requires u in h
      ensures |h - multiset{u}| == |h| - 1
      ensures forall v :: (h - multiset{u})[v] == if v == u then h[v] - 1 else h[v]
    {
    }

    /** The device's part of bio_lock. */
    method LockUnit(u: Unit)
      requires Sound() && u in units
      modifies this`lock, this`key, this`holds, u`lock
      ensures Sound() && u.lock == old(u.lock) + 1 && lock == old(lock) + 1 && holds == old(holds) + multiset{u}
      ensures !removable ==> key == old(key)
    {
      hide Fixed, Blocks, Queued, AgreeOutside;
      HoldsMore(holds, u);
      u.lock := u.lock + 1;
      lock := lock + 1;
      holds := holds + multiset{u};
      if removable {
        XhdiLock();
      }
    }

    /** The device's part of bio_unlock. */
    method UnlockUnit(u: Unit)
      requires Sound() && u in units && 0 < u.lock
      modifies this`lock, this`key, this`holds, u`lock
      ensures Sound() && u.lock == old(u.lock) - 1 && lock == old(lock) - 1 && holds == old(holds) - multiset{u}
      ensures key == if removable && lock == ENABLE then 0 else old(key)
    {
      hide Fixed, Blocks, Queued, AgreeOutside;
      HoldsLess(holds, u);
      u.lock := u.lock - 1;
      lock := lock - 1;
      holds := holds - multiset{u};
      if removable && lock == ENABLE {
        XhdiUnlock();
      }
    }

    /** The end of bio_sync_drv: with nothing dirty and nothing locked the door opens. */
    method OpenDoor()
      requires Sound() && wbq == []
      modifies this`key
      ensures Sound() && key == if removable && holds == multiset{} then 0 else old(key)
    {
      hide Fixed, Blocks, Queued, AgreeOutside;
      if removable && lock == 1 {
        XhdiUnlock();
      }
    }

    /** The start of bio_invalidate: the queue is forgotten. */
    method Forget()
      requires Sound()
      modifies this`wb_queue, this`wbq, this`holds
      ensures Fixed() && Blocks() && wb_queue == null && wbq == [] && holds == multiset{}
    {
      wb_queue := null;
      wbq := [];
      holds := multiset{};
    }

    /** Its end: what the users see is what the medium holds. The lock count is in order again exactly
        when nothing was dirty or locked. */
    ghost method Settle()
      requires Fixed() && Blocks() && units == {} && wb_queue == null && wbq == [] && holds == multiset{}
      requires key == 0 || key == 1
      modifies this`view
      ensures view == dev && (Sound() <==> lock == ENABLE)
    {
      view := dev;
    }

    lemma LockCount()
      requires Sound()
      ensures key == 0 || key == 1
      ensures lock == ENABLE <==> wbq == [] && holds == multiset{}
    {
    }
  }
}
