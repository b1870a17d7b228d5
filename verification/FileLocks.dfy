/**
  Record locks: the locks on a file form a list; a new one is entered unless one of another process
  is in its way.
 */
module FileLocks {
  import opened Machine

  const F_RDLCK := 0
  const F_WRLCK := 1
  const F_UNLCK := 3

  const TOP := 0x8000_0000     // starts and lengths are signed longs
  const LAST: nat := 0xffff_ffff

  /** What F_SETLK is given, the start already made absolute and not negative. Length 0 means to the
      end of the file; negative lengths are not refused. */
  datatype Flock = Flock(typ: int, start: nat, len: int, pid: int)

  predicate Proper(l: Flock) {
    l.start < TOP && -TOP <= l.len < TOP
  }

  /** The last byte as denylock computes it, in an unsigned long. */
  function End(l: Flock): nat {
    if l.len == 0 then LAST else (l.start + l.len - 1) % 0x1_0000_0000
  }

  /** The bytes that a lock covers. */
  predicate Covers(l: Flock, a: nat) {
    l.start <= a <= End(l)
  }

  /** With a negative length a lock covers nothing, or nearly everything when it goes below 0. */
  lemma CoversMeans(l: Flock, a: nat)
    requires Proper(l)
    ensures l.len == 0 ==> (Covers(l, a) <==> l.start <= a <= LAST)
    ensures l.len > 0 ==> (Covers(l, a) <==> l.start <= a < l.start + l.len)
    ensures l.len < 0 ==> (Covers(l, a) <==> l.start + l.len <= 0 && l.start <= a < LAST + l.start + l.len + 1)
  {
  }

  predicate Empty(l: Flock) {
    End(l) < l.start
  }

  /** Locks of different processes, one of them for writing. */
  predicate Rivals(l: Flock, t: Flock) {
    l.pid != t.pid && (l.typ == F_WRLCK || t.typ == F_WRLCK)
  }

  /** Type 0 is for reading, 1 for writing. */
  lemma RivalsMeans(l: Flock, t: Flock)
    requires 0 <= l.typ <= 1 && 0 <= t.typ <= 1
    ensures Rivals(l, t) <==> l.pid != t.pid && l.typ + t.typ > 0
  {
  }

  /** Two locks that must not be held at the same time. */
  ghost predicate Conflict(l: Flock, t: Flock) {
    Rivals(l, t) && exists a: nat :: Covers(l, a) && Covers(t, a)
  }

  /** What denylock takes for a conflict: also a lock of nothing that starts inside the other. */
  ghost predicate Stops(l: Flock, t: Flock) {
    Conflict(l, t) || (Rivals(l, t) && ((Empty(l) && Covers(t, l.start)) || (Empty(t) && Covers(l, t.start))))
  }

  /** The test of denylock: one of the two starts inside the other. */
  predicate InTheWay(l: Flock, t: Flock, pid: int) {
    || (t.start <= l.start <= End(t) && t.pid != pid && (l.typ == F_WRLCK || t.typ == F_WRLCK))
    || (l.start <= t.start <= End(l) && t.pid != pid && (l.typ == F_WRLCK || t.typ == F_WRLCK))
  }

  /** The comparison of starts and ends finds all locks that share a byte, and of others only those
      that cover nothing. */
  lemma InTheWayExact(l: Flock, t: Flock)
    ensures InTheWay(l, t, l.pid) <==> Stops(l, t)
  {
    if t.start <= l.start <= End(t) && !Empty(l) {
      assert Covers(l, l.start) && Covers(t, l.start);
    }
    if l.start <= t.start <= End(l) && !Empty(t) {
      assert Covers(l, t.start) && Covers(t, t.start);
    }
  }

  /** Without negative lengths it finds exactly the conflicts; so it does with those that reach below
      byte 0. */
  lemma StopsWhen(l: Flock, t: Flock)
    requires Proper(l) && Proper(t)
    ensures Empty(l) <==> l.len < 0 < l.start + l.len
    ensures !Empty(l) && !Empty(t) ==> (Stops(l, t) <==> Conflict(l, t))
    ensures Empty(l) ==> !Conflict(l, t)
  {
  }

  /** A length of -5 from byte 10 on covers nothing, and is refused where byte 10 is locked. */
  lemma StopsNothing()
    ensures var l, t := Flock(F_WRLCK, 10, -5, 1), Flock(F_WRLCK, 0, 20, 2);
      Proper(l) && Proper(t) && Stops(l, t) && !Conflict(l, t)
  {
  }

  lemma ConflictSymmetric(l: Flock, t: Flock)
    ensures Conflict(l, t) <==> Conflict(t, l)
  {
  }

  class Lock {
    const l: Flock
    var next: Lock?

    constructor (l: Flock)
      ensures this.l == l && next == null
    {
      this.l, next := l, null;
    }
  }

  /** The locks of a file. */
  class LockList {
    var locks: Lock?
    ghost var list: seq<Lock>

    constructor ()
      ensures Safe() && list == []
    {
      locks, list := null, [];
    }

    static ghost predicate Placed(q: seq<Lock>, i: int)
      requires 0 <= i < |q|
      reads q`next
    {
      q[i].next == if i + 1 < |q| then q[i + 1] else null
    }

    ghost predicate Linked()
      reads this, list`next
    {
      && locks == (if list == [] then null else list[0])
      && (forall i :: 0 <= i < |list| ==> Placed(list, i))
      && (forall i, j :: 0 <= i < j < |list| ==> list[i] != list[j])
      && (forall i :: 0 <= i < |list| ==> Proper(list[i].l))
    }

    /** No two locks that are held are in conflict. */
    ghost predicate Safe()
      reads this, list`next
    {
      Linked() && forall i, j :: 0 <= i < |list| && 0 <= j < |list| && i != j ==> !Conflict(list[i].l, list[j].l)
    }

    /** denylock: the first lock in the way, if there is one. */
    method DenyLock(pid: int, lck: Flock) returns (t: Lock?)
      requires Linked() && Proper(lck) && lck.pid == pid
      ensures t == null <==> forall i :: 0 <= i < |list| ==> !Stops(lck, list[i].l)
      ensures t != null ==>
        exists k :: 0 <= k < |list| && t == list[k] && Stops(lck, t.l)
          && forall i :: 0 <= i < k ==> !Stops(lck, list[i].l)
    {
      hide Stops, Conflict, Covers, Proper, End;
      t := locks;
      ghost var k := 0;
      while t != null
        invariant 0 <= k <= |list| && t == (if k < |list| then list[k] else null)
        invariant forall i :: 0 <= i < k ==> !Stops(lck, list[i].l)
        decreases |list| - k
      {
        assert Placed(list, k);
        InTheWayExact(lck, t.l);
        if t.l.start <= lck.start && End(t.l) >= lck.start && t.l.pid != pid
          && (lck.typ == F_WRLCK || t.l.typ == F_WRLCK) {
          break;
        }
        if lck.start <= t.l.start && End(lck) >= t.l.start && t.l.pid != pid
          && (lck.typ == F_WRLCK || t.l.typ == F_WRLCK) {
          break;
        }
        t := t.next;
        k := k + 1;
      }
    }

    /** F_SETLK: the lock is entered in front, unless another is in its way. */
    method SetLk(l: Flock) returns (r: int)
      requires Safe() && Proper(l) && l.typ != F_UNLCK
      modifies this
      ensures Safe()
      ensures (exists i :: 0 <= i < |old(list)| && Stops(l, old(list)[i].l)) ==> r == ELOCKED && list == old(list)
      ensures (forall i :: 0 <= i < |old(list)| ==> !Stops(l, old(list)[i].l)) ==>
        r == E_OK && |list| == |old(list)| + 1 && fresh(list[0]) && list[0].l == l && list[1..] == old(list)
    {
      hide Conflict, Proper;
      var lck := DenyLock(l.pid, l);
      if lck != null {
        return ELOCKED;
      }
      ghost var q := list;
      lck := new Lock(l);
      lck.next := locks;
      locks := lck;
      list := [lck] + q;
      forall i | 0 <= i < |list|
        ensures Placed(list, i) && Proper(list[i].l)
      {
        assert i > 0 ==> Placed(q, i - 1) && list[i] == q[i - 1];
      }
      forall i, j | 0 <= i < |list| && 0 <= j < |list| && i != j
        ensures !Conflict(list[i].l, list[j].l)
      {
        ConflictSymmetric(l, list[i].l);
      }
      return E_OK;
    }

    /** What F_UNLCK looks for. */
    predicate Matches(t: Lock, l: Flock) {
      t.l.pid == l.pid && ((t.l.start == l.start && t.l.len == l.len) || (t.l.start >= l.start && l.len == 0))
    }

    /** Taking the lock behind `last`, or the first one, out of the list. */
    method CutOut(last: Lock?, lck: Lock, ghost k: nat)
      requires Safe() && k < |list| && list[k] == lck && last == (if k == 0 then null else list[k - 1])
      modifies this, list`next
      ensures Safe() && list == old(list)[..k] + old(list)[k + 1..]
    {
      hide Conflict, Proper;
      ghost var q := list;
      assert Placed(q, k) && (k > 0 ==> last in q);
      if last == null {
        locks := lck.next;
      } else {
        last.next := lck.next;
      }
      ghost var w := RemovedAt(q, k);
      list := w;
      forall i | 0 <= i < |w|
        ensures Placed(w, i)
      {
        ghost var m := if i < k then i else i + 1;
        assert old(Placed(q, m)) && q[m] in q;
      }
    }

    /** The locks of q that other processes hold. */
    static ghost function Others(q: seq<Lock>, pid: int): seq<Lock> {
      if q == [] then [] else (if q[0].l.pid == pid then [] else [q[0]]) + Others(q[1..], pid)
    }

    /** Exactly the locks of the process are missing. */
    lemma {:induction false} OthersAre(q: seq<Lock>, pid: int)
      ensures forall t :: t in Others(q, pid) <==> t in q && t.l.pid != pid
    {
      if q != [] {
        OthersAre(q[1..], pid);
        assert q == [q[0]] + q[1..];
      }
    }

    lemma {:induction false} OthersBoth(a: seq<Lock>, b: seq<Lock>, pid: int)
      ensures Others(a + b, pid) == Others(a, pid) + Others(b, pid)
    {
      if a == [] {
        assert a + b == b;
      } else {
        assert (a + b)[1..] == a[1..] + b;
        OthersBoth(a[1..], b, pid);
      }
    }

    /** Nobody else notices when the process gives up a lock. */
    lemma OthersWithout(q: seq<Lock>, k: nat, pid: int)
      requires k < |q| && q[k].l.pid == pid
      ensures Others(q[..k] + q[k + 1..], pid) == Others(q, pid)
    {
      assert q == q[..k] + [q[k]] + q[k + 1..];
      OthersBoth(q[..k], q[k + 1..], pid);
      OthersBoth(q[..k] + [q[k]], q[k + 1..], pid);
      OthersBoth(q[..k], [q[k]], pid);
    }

    /** F_UNLCK: the first lock of the process is taken out that has this start and length, or, if the
        length is 0, that starts there or behind it. The locks of other processes stay. */
    method UnLk(l: Flock) returns (r: int, ghost k: nat)
      requires Safe()
      modifies this, list`next
      ensures Safe() && Others(list, l.pid) == Others(old(list), l.pid)
      ensures r == E_OK <==>
        exists t :: t in old(list) && t.l.pid == l.pid
          && ((t.l.start == l.start && t.l.len == l.len) || (l.len == 0 && l.start <= t.l.start))
      ensures k <= |old(list)| && forall t :: t in old(list)[..k] && t.l.pid == l.pid ==>
        !(t.l.start == l.start && t.l.len == l.len) && !(l.len == 0 && l.start <= t.l.start)
      ensures r == E_OK ==>
        && k < |old(list)| && list == old(list)[..k] + old(list)[k + 1..]
        && var t := old(list)[k].l;
           t.pid == l.pid && ((t.start == l.start && t.len == l.len) || (l.len == 0 && l.start <= t.start))
      ensures r != E_OK ==> r == ENSLOCK && list == old(list)
    {
      hide Conflict, Proper, Others;
      var lck, last: Lock? := locks, null;
      k := 0;
      while lck != null
        invariant k <= |list| && lck == (if k < |list| then list[k] else null)
        invariant last == if k == 0 then null else list[k - 1]
        invariant forall i :: 0 <= i < k ==> !Matches(list[i], l)
        decreases |list| - k
      {
        assert Placed(list, k);
        if Matches(lck, l) {
          OthersWithout(list, k, l.pid);
          CutOut(last, lck, k);
          return E_OK, k;
        }
        last := lck;
        lck := lck.next;
        k := k + 1;
      }
      return ENSLOCK, k;
    }

    /** The walk of fatfs_close at the k-th lock. */
    lemma OthersStep(q: seq<Lock>, k: nat, pid: int)
      requires k < |q|
      ensures q[k].l.pid == pid ==>
        q[..k] + Others(q[k..], pid) == (q[..k] + q[k + 1..])[..k] + Others((q[..k] + q[k + 1..])[k..], pid)
      ensures q[k].l.pid != pid ==> q[..k] + Others(q[k..], pid) == q[..k + 1] + Others(q[k + 1..], pid)
    {
      assert q[k..][1..] == q[k + 1..];
      if q[k].l.pid == pid {
        var w := q[..k] + q[k + 1..];
        assert w[..k] == q[..k] && w[k..] == q[k + 1..];
      }
    }

    lemma OthersEnd(q: seq<Lock>, k: nat, pid: int)
      requires k == |q|
      ensures q[..k] + Others(q[k..], pid) == q
    {
    }

    lemma OthersStart(q: seq<Lock>, pid: int)
      ensures Others(q, pid) == q[..0] + Others(q[0..], pid)
    {
      assert q[0..] == q;
    }

    /** fatfs_close through a handle that made a lock: all locks of the process go. */
    method CloseLocks(pid: int)
      requires Safe()
      modifies this, list`next
      ensures Safe() && list == Others(old(list), pid)
    {
      hide Conflict, Proper, Others;
      var last: Lock?, lock := null, locks;
      ghost var k := 0;
      ghost var q := list;
      OthersStart(q, pid);
      while lock != null
        invariant Safe() && 0 <= k <= |list| && lock == (if k < |list| then list[k] else null)
        invariant last == if k == 0 then null else list[k - 1]
        invariant forall i :: 0 <= i < |list| ==> list[i] in q
        invariant Others(q, pid) == list[..k] + Others(list[k..], pid)
        decreases |list| - k
      {
        assert Placed(list, k);
        OthersStep(list, k, pid);
        if lock.l.pid == pid {
          lock := CutAway(last, lock, k);
        } else {
          last := lock;
          lock := lock.next;
          k := k + 1;
        }
      }
      OthersEnd(list, k, pid);
    }

    method CutAway(last: Lock?, lck: Lock, ghost k: nat) returns (next: Lock?)
      requires Safe() && k < |list| && list[k] == lck && last == (if k == 0 then null else list[k - 1])
      modifies this, list`next
      ensures Safe() && list == old(list)[..k] + old(list)[k + 1..]
      ensures last == (if k == 0 then null else list[k - 1]) && next == (if k < |list| then list[k] else null)
      ensures forall i :: 0 <= i < |list| ==> list[i] in old(list)
    {
      hide Conflict, Proper;
      CutOut(last, lck, k);
      assert k > 0 ==> Placed(list, k - 1);
      next := if last == null then locks else last.next;
    }
  }
}
