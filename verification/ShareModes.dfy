/**
  Share modes: the open handles of a file form a list, and a handle whose mode does not go with those
  in the list is not opened.
 */
module ShareModes {
  import opened Machine

  const O_RDONLY := 0
  const O_WRONLY := 1
  const O_RDWR := 2
  const O_EXEC := 3

  const O_COMPAT := 0x00
  const O_DENYRW := 0x10
  const O_DENYW := 0x20
  const O_DENYR := 0x30
  const O_DENYNONE := 0x40

  /** flags & O_RWMODE, where executing counts as reading. */
  function RwMode(flags: nat): (r: nat)
    ensures r == O_RDONLY || r == O_WRONLY || r == O_RDWR
  {
    if flags % 4 == O_EXEC then O_RDONLY else flags % 4
  }

  /** flags & O_SHMODE */
  function ShMode(flags: nat): nat {
    flags / 0x10 % 8 * 0x10
  }

  predicate DeniesWrite(flags: nat) {
    ShMode(flags) == O_DENYW || ShMode(flags) == O_DENYRW
  }

  predicate DeniesRead(flags: nat) {
    ShMode(flags) == O_DENYR || ShMode(flags) == O_DENYRW
  }

  /** Two handles may be open at once: neither does what the other denies. */
  predicate Compatible(a: nat, b: nat) {
    && (DeniesWrite(a) ==> RwMode(b) == O_RDONLY)
    && (DeniesRead(a) ==> RwMode(b) == O_WRONLY)
    && (DeniesWrite(b) ==> RwMode(a) == O_RDONLY)
    && (DeniesRead(b) ==> RwMode(a) == O_WRONLY)
  }

  /** The compatibility mode keeps other processes from writing: `old` must be open in the process
      that opens `new_`. */
  predicate NeedsOwner(old_: nat, new_: nat) {
    || (ShMode(new_) == O_COMPAT && RwMode(new_) != O_RDONLY && RwMode(old_) != O_RDONLY)
    || (ShMode(old_) == O_COMPAT && RwMode(new_) != O_RDONLY)
  }

  /** A mode in its fields: how the file is opened, and what is shared. */
  ghost predicate Fields(flags: nat, rw: nat, share: nat) {
    flags % 4 == rw && flags / 16 % 8 == share
  }

  /** The modes as they go together, reading, writing, both and executing being 0 to 3. */
  lemma CompatibleMeans(a: nat, b: nat, rwA: nat, rwB: nat, shareA: nat, shareB: nat)
    requires Fields(a, rwA, shareA) && Fields(b, rwB, shareB)
    ensures Compatible(a, b) <==>
      && shareA != 1 && shareB != 1
      && (shareA == 2 ==> rwB == 0 || rwB == 3) && (shareA == 3 ==> rwB == 1)
      && (shareB == 2 ==> rwA == 0 || rwA == 3) && (shareB == 3 ==> rwA == 1)
  {
  }

  /** In the compatibility mode only the process that has the file open may open it for writing; a file
      open for reading alone, and not in that mode, is not concerned. */
  lemma NeedsOwnerMeans(old_: nat, new_: nat, rwOld: nat, rwNew: nat, shareOld: nat, shareNew: nat)
    requires Fields(old_, rwOld, shareOld) && Fields(new_, rwNew, shareNew)
    ensures NeedsOwner(old_, new_) <==>
      (rwNew == 1 || rwNew == 2) && (shareOld == 0 || (shareNew == 0 && (rwOld == 1 || rwOld == 2)))
  {
  }

  class FilePtr {
    const flags: nat
    var links: int
    var next: FilePtr?

    constructor (flags: nat)
      ensures this.flags == flags && links == 1 && next == null
    {
      this.flags, links, next := flags, 1, null;
    }
  }

  class Cookie {
    const isLabel: bool
    const dir: bool
    var open: FilePtr?
    var links: int
    ghost var list: seq<FilePtr>

    constructor (isLabel: bool, dir: bool)
      ensures Safe() && list == [] && this.isLabel == isLabel && this.dir == dir
    {
      this.isLabel, this.dir, open, links, list := isLabel, dir, null, 0, [];
    }

    static ghost predicate Placed(q: seq<FilePtr>, i: int)
      requires 0 <= i < |q|
      reads q`next
    {
      q[i].next == if i + 1 < |q| then q[i + 1] else null
    }

    ghost predicate Linked()
      reads this, list`next
    {
      && open == (if list == [] then null else list[0])
      && (forall i :: 0 <= i < |list| ==> Placed(list, i))
      && (forall i, j :: 0 <= i < j < |list| ==> list[i] != list[j])
    }

    /** What one open handle denies, no other one does. */
    ghost predicate Safe()
      reads this, list`next
    {
      Linked() && forall i, j :: 0 <= i < |list| && 0 <= j < |list| && i != j ==>
        Compatible(list[i].flags, list[j].flags)
    }

    /** The open handle p keeps f from being opened. */
    static predicate Refuses(p: FilePtr, f: FilePtr, mine: set<FilePtr>) {
      !Compatible(p.flags, f.flags) || (NeedsOwner(p.flags, f.flags) && p !in mine)
    }

    /** denyshare; `mine` are the handles of the current process. */
    method DenyShare(f: FilePtr, mine: set<FilePtr>) returns (denied: bool)
      requires Linked()
      ensures denied <==> exists i :: 0 <= i < |list| && Refuses(list[i], f, mine)
    {
      var newrm, newsm := f.flags % 4, ShMode(f.flags);
      if newrm == O_EXEC {
        newrm := O_RDONLY;
      }
      var p := open;
      ghost var k := 0;
      while p != null
        invariant 0 <= k <= |list| && p == (if k < |list| then list[k] else null)
        invariant forall i :: 0 <= i < k ==> !Refuses(list[i], f, mine)
        decreases |list| - k
      {
        assert Placed(list, k);
        denied := DenyOne(p, f, newrm, newsm, mine);
        if denied {
          return true;
        }
        p := p.next;
        k := k + 1;
      }
      return false;
    }

    /** The tests of denyshare for one open handle. */
    method DenyOne(p: FilePtr, f: FilePtr, newrm: nat, newsm: nat, mine: set<FilePtr>) returns (denied: bool)
      requires newrm == RwMode(f.flags) && newsm == ShMode(f.flags)
      ensures denied <==> Refuses(p, f, mine)
    {
      var oldrm := p.flags % 4;
      if oldrm == O_EXEC {
        oldrm := O_RDONLY;
      }
      var oldsm := ShMode(p.flags);
      if oldsm == O_DENYW || oldsm == O_DENYRW {
        if newrm != O_RDONLY {
          return true;
        }
      }
      if oldsm == O_DENYR || oldsm == O_DENYRW {
        if newrm != O_WRONLY {
          return true;
        }
      }
      if newsm == O_DENYW || newsm == O_DENYRW {
        if oldrm != O_RDONLY {
          return true;
        }
      }
      if newsm == O_DENYR || newsm == O_DENYRW {
        if oldrm != O_WRONLY {
          return true;
        }
      }
      if (newsm == O_COMPAT && newrm != O_RDONLY && oldrm != O_RDONLY) || (oldsm == O_COMPAT && newrm != O_RDONLY) {
        return p !in mine;
      }
      return false;
    }

    /** fatfs_open, but for O_TRUNC: a handle that does not go with the open ones is refused. */
    method Open(f: FilePtr, mine: set<FilePtr>) returns (r: int)
      requires Safe() && f !in list
      modifies this, f`next
      ensures Safe()
      ensures r == E_OK <==>
        && (forall i :: 0 <= i < |old(list)| ==> !Refuses(old(list)[i], f, mine))
        && !isLabel && (dir ==> f.flags % 4 == O_RDONLY)
      ensures if r == E_OK then list == [f] + old(list) && links == old(links) + 1
        else r == EACCES && list == old(list) && links == old(links)
    {
      hide Compatible, NeedsOwner, RwMode;
      var denied := false;
      if open != null {
        denied := DenyShare(f, mine);
      }
      if denied {
        return EACCES;
      }
      if isLabel || (dir && f.flags % 4 != O_RDONLY) {
        return EACCES;
      }
      Enter(f);
      return E_OK;
    }

    method Enter(f: FilePtr)
      requires Safe() && f !in list && forall i :: 0 <= i < |list| ==> Compatible(list[i].flags, f.flags)
      modifies this, f`next
      ensures Safe() && list == [f] + old(list) && links == old(links) + 1
    {
      hide Compatible;
      ghost var q := list;
      f.next := open;
      open := f;
      links := links + 1;
      list := [f] + q;
      forall i | 0 <= i < |list|
        ensures Placed(list, i)
      {
        assert i > 0 ==> old(Placed(q, i - 1)) && q[i - 1] in q && list[i] == q[i - 1];
      }
      forall i, j | 0 <= i < |list| && 0 <= j < |list| && i != j
        ensures Compatible(list[i].flags, list[j].flags)
      {
        if i == 0 {
          CompatibleSymmetric(list[j].flags, f.flags);
        }
      }
    }

    lemma CompatibleSymmetric(a: nat, b: nat)
      ensures Compatible(a, b) <==> Compatible(b, a)
    {
    }

    /** fatfs_close: the handle leaves the list when nobody holds it any more. */
    method Close(f: FilePtr)
      requires Safe()
      modifies this, f`next, list`next
      ensures Safe()
      ensures f.links > 0 || f !in old(list) ==> list == old(list)
      ensures links == if f.links > 0 then old(links) else old(links) - 1
      ensures f.links <= 0 && f in old(list) ==> f.next == null
      ensures f.links <= 0 && f in old(list) ==>
        exists k :: 0 <= k < |old(list)| && old(list)[k] == f && list == old(list)[..k] + old(list)[k + 1..]
    {
      hide Compatible;
      if f.links <= 0 {
        var temp, last: FilePtr? := open, null;
        ghost var k := 0;
        while temp != null
          invariant 0 <= k <= |list| && temp == (if k < |list| then list[k] else null)
          invariant last == if k == 0 then null else list[k - 1]
          invariant forall i :: 0 <= i < k ==> list[i] != f
          decreases |list| - k
        {
          assert Placed(list, k);
          if temp == f {
            Leave(f, last, k);
            break;
          }
          last := temp;
          temp := temp.next;
          k := k + 1;
        }
        links := links - 1;
      }
    }

    method Leave(f: FilePtr, last: FilePtr?, ghost k: nat)
      requires Safe() && k < |list| && list[k] == f && last == (if k == 0 then null else list[k - 1])
      modifies this, list`next
      ensures Safe() && list == old(list)[..k] + old(list)[k + 1..] && links == old(links) && f.next == null
    {
      hide Compatible;
      ghost var q := list;
      assert Placed(q, k) && (k > 0 ==> last in q) && f in q;
      if last == null {
        open := f.next;
      } else {
        last.next := f.next;
      }
      f.next := null;
      ghost var w := RemovedAt(q, k);
      list := w;
      forall i | 0 <= i < |w|
        ensures Placed(w, i)
      {
        ghost var m := if i < k then i else i + 1;
        assert old(Placed(q, m)) && q[m] in q;
      }
    }
  }
}
