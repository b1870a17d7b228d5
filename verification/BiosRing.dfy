/**
  The ring buffers between the kernel and the serial drivers. Both indices are incremented before
  they are used to access the buffer; interrupts take bytes out of the output ring, and put bytes
  into the input ring, at any time.
 */
module BiosRing {
  import opened Machine

  /** The place k behind index i of a ring of n bytes. */
  function Ahead(i: nat, k: nat, n: nat): (r: nat)
    requires i < n && k <= n
    ensures r < n
  {
    if i + k < n then i + k else i + k - n
  }

  /** How far b is ahead of a. */
  function Between(a: nat, b: nat, n: nat): (r: nat)
    requires a < n && b < n
    ensures r < n && Ahead(a, r, n) == b
  {
    if a <= b then b - a else b - a + n
  }

  /** The k bytes that follow index `head`. */
  function Following(s: seq<byte>, head: nat, k: nat): (r: seq<byte>)
    requires head < |s| && k < |s|
    ensures |r| == k
  {
    seq(k, i requires 0 <= i < k => s[Ahead(head, i + 1, |s|)])
  }

  /** The bytes behind index `tail` are xs. */
  predicate Behind(s: seq<byte>, tail: nat, xs: seq<byte>)
    requires tail < |s|
  {
    |xs| < |s| && forall j :: 0 <= j < |xs| ==> s[Ahead(tail, j + 1, |s|)] == xs[j]
  }

  /** Only the k bytes behind index `tail` may differ between s and s'. */
  predicate SameBut(s: seq<byte>, s': seq<byte>, tail: nat, k: nat)
    requires tail < |s|
  {
    && |s'| == |s|
    && forall p :: 0 <= p < |s| && !(1 <= Between(tail, p, |s|) <= k) ==> s'[p] == s[p]
  }

  lemma FollowingSame(s: seq<byte>, s': seq<byte>, head: nat, k: nat, m: nat)
    requires head < |s| && k + m < |s| && SameBut(s, s', Ahead(head, k, |s|), m)
    ensures Following(s', head, k) == Following(s, head, k)
  {
    var tail := Ahead(head, k, |s|);
    forall i | 0 <= i < k
      ensures Following(s', head, k)[i] == Following(s, head, k)[i]
    {
      assert !(1 <= Between(tail, Ahead(head, i + 1, |s|), |s|) <= m);
    }
  }

  /** With the tail moved over the bytes behind it, they are appended to the content. */
  lemma FollowingMore(s: seq<byte>, head: nat, k: nat, xs: seq<byte>)
    requires head < |s| && k + |xs| < |s| && Behind(s, Ahead(head, k, |s|), xs)
    ensures Following(s, head, k + |xs|) == Following(s, head, k) + xs
    ensures Ahead(head, k + |xs|, |s|) == Ahead(Ahead(head, k, |s|), |xs|, |s|)
  {
    var tail := Ahead(head, k, |s|);
    forall i | 0 <= i < k + |xs|
      ensures Following(s, head, k + |xs|)[i] == (Following(s, head, k) + xs)[i]
    {
      if i >= k {
        assert Ahead(head, i + 1, |s|) == Ahead(tail, i - k + 1, |s|);
      }
    }
  }

  /** Moving the head drops the oldest bytes. */
  lemma FollowingLess(s: seq<byte>, head: nat, k: nat, m: nat)
    requires head < |s| && m <= k < |s|
    ensures Following(s, Ahead(head, m, |s|), k - m) == Following(s, head, k)[m..]
    ensures Ahead(Ahead(head, m, |s|), k - m, |s|) == Ahead(head, k, |s|)
  {
    forall i | 0 <= i < k - m
      ensures Following(s, Ahead(head, m, |s|), k - m)[i] == Following(s, head, k)[m..][i]
    {
      assert Ahead(Ahead(head, m, |s|), i + 1, |s|) == Ahead(head, m + i + 1, |s|);
    }
  }

  /** A round of iwrite: how much the ring held, how much was left to write, and how much it took. */
  datatype Round = Round(held: nat, left: nat, wrote: nat)

  class IoRec {
    const bufaddr: array<byte>
    var head: nat
    var tail: nat
    ghost var log: seq<byte>   // output ring: what went out; input ring: what came in

    constructor (buflen: nat)
      requires 2 <= buflen
      ensures Valid() && fresh(bufaddr) && bufaddr.Length == buflen && Content() == [] && log == []
    {
      bufaddr := new byte[buflen];
      head, tail, log := 0, 0, [];
    }

    ghost predicate Valid()
      reads this
    {
      2 <= bufaddr.Length && head < bufaddr.Length && tail < bufaddr.Length
    }

    ghost function Content(): (r: seq<byte>)
      requires Valid()
      reads this, bufaddr
      ensures |r| == Between(head, tail, bufaddr.Length)
    {
      Following(bufaddr[..], head, Between(head, tail, bufaddr.Length))
    }

    // -------------------------------------------------------------- the output ring

    /** Transmit interrupts: any number of bytes leave the ring. */
    method Transmit()
      requires Valid()
      modifies this`head, this`log
      ensures Valid() && log + Content() == old(log + Content())
      ensures |Content()| <= |old(Content())|
      ensures old(Content()) == [] ==> head == old(head)
    {
      var m: int := *;
      var n := bufaddr.Length;
      ghost var k := Between(head, tail, n);
      if 0 <= m <= (if head <= tail then tail - head else tail + n - head) {
        FollowingLess(bufaddr[..], head, k, m);
        log := log + Content()[..m];
        head := Ahead(head, m, n);
      }
    }

    /** The driver's output routine with an empty ring: the byte is sent at once, or queued, or queued
        and then sent. */
    method Conout(ch: byte) returns (how: nat)
      requires Valid() && head == tail
      modifies this, bufaddr
      ensures Valid()
      ensures var t := Ahead(old(tail), 1, bufaddr.Length);
        && log == (if how == 2 then old(log) else old(log) + [ch])
        && head == (if how == 1 then t else old(head))
        && tail == (if how == 0 then old(tail) else t)
        && (how == 0 || bufaddr[t] == ch)
        && forall p :: 0 <= p < bufaddr.Length && p != t ==> bufaddr[p] == old(bufaddr[p])
      ensures how == 0 ==> bufaddr[..] == old(bufaddr[..])
      ensures how <= 2
    {
      how := 0;
      if * {
        log := log + [ch];
      } else {
        var t := Ahead(tail, 1, bufaddr.Length);
        bufaddr[t] := ch;
        tail := t;
        how := 2;
        if * {
          head := t;
          log := log + [ch];
          how := 1;
        }
      }
    }

    /** The end of a pass of iwrite, with interrupts off. */
    method Commit(tail0: nat, newtail: nat, ch: byte, ghost xs: seq<byte>)
      requires Valid() && tail0 == tail && xs != [] && xs[0] == ch
      requires Behind(bufaddr[..], tail, xs) && |Content()| + |xs| < bufaddr.Length
      requires newtail == Ahead(tail, |xs|, bufaddr.Length)
      modifies this, bufaddr
      ensures Valid() && log + Content() == old(log + Content()) + xs
    {
      hide Following, Behind;
      var n := bufaddr.Length;
      ghost var k := Between(head, tail, n);
      ghost var s := bufaddr[..];
      FollowingMore(s, head, k, xs);
      FollowingLess(s, head, k + |xs|, 1);
      FirstBehind(s, tail, xs);
      if head == tail {
        var how := Conout(ch);
        SameAgain(s, tail0, ch);
        if head == tail {
          head := if tail0 + 1 >= n then 0 else tail0 + 1;
        }
      }
      tail := newtail;
    }

    lemma FirstBehind(s: seq<byte>, tail0: nat, xs: seq<byte>)
      requires tail0 < |s| && Behind(s, tail0, xs) && xs != [] && 2 <= |s|
      ensures |xs| < |s| && s[Ahead(tail0, 1, |s|)] == xs[0]
      ensures forall h :: 0 <= h < |s| ==> Following(s, h, 0) == []
    {
    }

    lemma SameAgain(s: seq<byte>, tail0: nat, ch: byte)
      requires |s| == bufaddr.Length && tail0 < |s| && 2 <= |s|
      requires s[Ahead(tail0, 1, |s|)] == ch
      requires forall p :: 0 <= p < |s| && p != Ahead(tail0, 1, |s|) ==> bufaddr[p] == s[p]
      ensures bufaddr[Ahead(tail0, 1, |s|)] == ch ==> bufaddr[..] == s
    {
    }

    /** memcpy into free places of the output ring: the content stays. */
    method MemCpy(at: nat, xs: seq<byte>, ghost m: nat)
      requires Valid() && at + |xs| <= bufaddr.Length && |Content()| + m < bufaddr.Length
      requires forall p :: at <= p < at + |xs| ==> 1 <= Between(tail, p, bufaddr.Length) <= m
      modifies bufaddr
      ensures Content() == old(Content())
      ensures forall p :: 0 <= p < bufaddr.Length ==>
        bufaddr[p] == if at <= p < at + |xs| then xs[p - at] else old(bufaddr[p])
    {
      ghost var s := bufaddr[..];
      forall i | 0 <= i < |xs| {
        bufaddr[at + i] := xs[i];
      }
      FollowingSame(s, bufaddr[..], head, Between(head, tail, bufaddr.Length), m);
    }

    /** The copy of iwrite for a few bytes; meanwhile bytes may be sent. */
    method CopyFew(xs: seq<byte>) returns (newtail: nat)
      requires Valid() && xs != [] && |Content()| + |xs| < bufaddr.Length
      modifies this`head, this`log, bufaddr
      ensures Valid() && log + Content() == old(log + Content()) && |Content()| <= |old(Content())|
      ensures Behind(bufaddr[..], tail, xs) && newtail == Ahead(tail, |xs|, bufaddr.Length)
    {
      hide Following;
      var n := bufaddr.Length;
      var q: int, wrap: int := tail, n - tail;
      var j := 0;
      while j < |xs|
        invariant 0 <= j <= |xs| && Valid() && q == Ahead(tail, j, n) && wrap == n - tail - j
        invariant forall i :: 0 <= i < j ==> bufaddr[Ahead(tail, i + 1, n)] == xs[i]
        invariant log + Content() == old(log + Content()) && |Content()| <= |old(Content())|
      {
        wrap := wrap - 1;
        if wrap == 0 {
          q := q - n;
        }
        q := q + 1;
        MemCpy(q, [xs[j]], |xs|);
        j := j + 1;
        Transmit();
      }
      newtail := q;
    }

    /** The copy of iwrite for more bytes, in one piece or around the end of the ring. */
    method CopyMany(xs: seq<byte>) returns (newtail: nat)
      requires Valid() && xs != [] && |Content()| + |xs| < bufaddr.Length
      modifies this`head, this`log, bufaddr
      ensures Valid() && log + Content() == old(log + Content()) && |Content()| <= |old(Content())|
      ensures Behind(bufaddr[..], tail, xs) && newtail == Ahead(tail, |xs|, bufaddr.Length)
    {
      hide Following;
      var wrap := bufaddr.Length - tail - 1;
      if wrap < |xs| {
        MemCpy(tail + 1, xs[..wrap], |xs|);
        Transmit();
        MemCpy(0, xs[wrap..], |xs|);
        newtail := |xs| - wrap - 1;
      } else {
        MemCpy(tail + 1, xs, |xs|);
        newtail := tail + |xs|;
      }
      Transmit();
    }

    /** How many bytes fit, as iwrite computes it. */
    method FreeChars() returns (free: int)
      requires Valid()
      ensures free == bufaddr.Length - 1 - |Content()| >= 0
    {
      free := head - tail - 1;
      if free < 0 {
        free := free + bufaddr.Length;
      }
    }

    /** A pass of iwrite that has found room for the bytes. */
    method WritePass(xs: seq<byte>)
      requires Valid() && xs != [] && |Content()| + |xs| < bufaddr.Length
      modifies this, bufaddr
      ensures Valid() && log + Content() == old(log + Content()) + xs
    {
      hide *;
      var tail0, newtail := tail, 0;
      if |xs| < 5 {
        newtail := CopyFew(xs);
      } else {
        newtail := CopyMany(xs);
      }
      Commit(tail0, newtail, xs[0], xs);
    }

    /** What a round of a blocking iwrite does that finds `held` bytes in the ring and has `left` to
        write: it waits if there are fewer than two free places, or too few for the rest and less than
        half of the ring; else it fills the ring but for one place. */
    ghost function Share(held: nat, left: nat): int {
      var free := bufaddr.Length - 1 - held;
      if free < 2 || (free < left && free < bufaddr.Length / 2) then 0 else Min(left, free - 1)
    }

    /** Rounds that one after the other have written `done` of n bytes. */
    ghost predicate Wrote(rounds: seq<Round>, n: nat, done: nat) {
      && done <= n
      && (forall i :: 0 <= i < |rounds| ==> rounds[i].wrote == Share(rounds[i].held, rounds[i].left))
      && (forall i :: 0 < i < |rounds| ==> rounds[i].left == rounds[i - 1].left - rounds[i - 1].wrote)
      && if rounds == [] then done == 0
         else rounds[0].left == n && var e := rounds[|rounds| - 1]; n - done == e.left - e.wrote
    }

    /** How many of them have waited. */
    ghost function Waits(rounds: seq<Round>): nat {
      if rounds == [] then 0
      else Waits(rounds[..|rounds| - 1]) + if rounds[|rounds| - 1].wrote == 0 then 1 else 0
    }

    lemma WroteMore(rounds: seq<Round>, n: nat, done: nat, e: Round)
      requires Wrote(rounds, n, done) && e.left == n - done
      requires e.wrote == Share(e.held, e.left) && e.wrote <= e.left
      ensures Wrote(rounds + [e], n, done + e.wrote)
      ensures Waits(rounds + [e]) == Waits(rounds) + if e.wrote == 0 then 1 else 0
    {
      hide Share;
      assert (rounds + [e])[..|rounds|] == rounds;
    }

    /** One round: nothing is written if the ring is too full; else as much as there is room for. */
    method WriteRound(p: seq<byte>, pos: nat, ndelay: bool) returns (wrote: nat, ghost held: nat)
      requires Valid() && pos < |p|
      modifies this, bufaddr
      ensures Valid() && held == |old(Content())| && pos + wrote <= |p|
      ensures wrote == if ndelay then Max(0, Min(|p| - pos, bufaddr.Length - 2 - held)) else Share(held, |p| - pos)
      ensures log + Content() == old(log + Content()) + p[pos..pos + wrote]
    {
      hide Following, Behind, Ahead, Between, Content;
      var bsize := bufaddr.Length;
      held := |Content()|;
      var free := FreeChars();
      Transmit();
      var bytes := |p| - pos;
      if free < 2 || (!ndelay && free < bytes && free < bsize / 2) {
        return 0, held;
      }
      free := free - 1;
      if free > bytes {
        free := bytes;
      }
      WritePass(p[pos..pos + free]);
      return free, held;
    }

    /** iwrite. `naps0` is the number of times the caller can sleep before a signal ends the sleep.
        Whatever is reported as written has gone out or is in the ring, behind all that was there. */
    method IWrite(p: seq<byte>, ndelay: bool, naps0: nat)
      returns (r: int, ghost done: nat, ghost rounds: seq<Round>)
      requires Valid()
      modifies this, bufaddr
      ensures Valid() && done <= |p| && log + Content() == old(log + Content()) + p[..done]
      ensures ndelay ==> r == done == Max(0, Min(|p|, bufaddr.Length - 2 - |old(Content())|))
      ensures !ndelay ==> Wrote(rounds, |p|, done) && Waits(rounds) <= naps0 + 1
      ensures !ndelay ==> if Waits(rounds) == naps0 + 1 then r == EINTR && done < |p| else r == done == |p|
      ensures !ndelay && p != [] ==> rounds != [] && rounds[0].held == |old(Content())|
      ensures !ndelay && |old(Content())| + |p| + 2 <= bufaddr.Length ==> r == |p|
    {
      hide Following, Behind, Ahead, Between, Content, Wrote, Waits;
      var naps := naps0;
      var pos := 0;
      done, rounds := 0, [];
      ghost var all := log + Content();
      assert p[..0] == [];
      NoRounds(|p|);
      if p == [] {
        return 0, 0, [];
      }
      while true
        invariant pos == done < |p| && Valid() && log + Content() == all + p[..pos]
        invariant rounds == [] ==> pos == 0 && Content() == old(Content())
        invariant if ndelay then rounds == [] else Wrote(rounds, |p|, done) && Waits(rounds) == naps0 - naps
        invariant rounds != [] ==> rounds[0].held == |old(Content())|
        invariant |old(Content())| + |p| + 2 <= bufaddr.Length ==> rounds == []
        decreases |p| - pos, naps
      {
        ghost var held;
        var wrote;
        wrote, held := WriteRound(p, pos, ndelay);
        assert p[..pos] + p[pos..pos + wrote] == p[..pos + wrote];
        if !ndelay {
          WroteMore(rounds, |p|, done, Round(held, |p| - pos, wrote));
          rounds := rounds + [Round(held, |p| - pos, wrote)];
        }
        pos := pos + wrote;
        done := pos;
        if pos == |p| || ndelay {
          return pos, done, rounds;
        }
        if wrote == 0 {
          if naps == 0 {
            return EINTR, done, rounds;
          }
          naps := naps - 1;
          Transmit();
        }
      }
    }

    lemma NoRounds(n: nat)
      ensures Wrote([], n, 0) && Waits([]) == 0
    {
    }

    /** iwrite without a buffer: what is queued is thrown away. */
    method FlushOutput()
      requires Valid()
      modifies this`tail
      ensures Valid() && Content() == []
    {
      tail := head;
    }

    // -------------------------------------------------------------- the input ring

    /** Receive interrupts: any number of bytes arrive, as far as there is room. */
    method Receive()
      requires Valid()
      modifies this`tail, this`log, bufaddr
      ensures Valid() && old(log) <= log && Content() == old(Content()) + log[|old(log)|..]
    {
      ghost var c, l := Content(), log;
      while *
        invariant Valid() && l <= log && Content() == c + log[|l|..]
        decreases bufaddr.Length - |Content()|
      {
        var t := Ahead(tail, 1, bufaddr.Length);
        if t == head {
          break;
        }
        var ch: byte := *;
        Arrive(t, ch);
      }
    }

    /** Receive interrupts while the ring holds c and what came in since the log was l. */
    method ReceiveOn(ghost c: seq<byte>, ghost l: seq<byte>)
      requires Valid() && l <= log && Content() == c + log[|l|..]
      modifies this`tail, this`log, bufaddr
      ensures Valid() && l <= log && Content() == c + log[|l|..]
    {
      hide Content;
      ghost var l1 := log;
      Receive();
      assert log[|l|..] == l1[|l|..] + log[|l1|..];
    }

    method Arrive(t: nat, ch: byte)
      requires Valid() && t == Ahead(tail, 1, bufaddr.Length) && t != head
      modifies this`tail, this`log, bufaddr
      ensures Valid() && log == old(log) + [ch] && Content() == old(Content()) + [ch]
    {
      ghost var s, k := bufaddr[..], Between(head, tail, bufaddr.Length);
      bufaddr[t] := ch;
      FollowingSame(s, bufaddr[..], head, k, 1);
      FollowingMore(bufaddr[..], head, k, [ch]);
      tail := t;
      log := log + [ch];
    }

    /** The driver's input routine: the oldest byte, which there is. */
    method Conin() returns (ch: byte)
      requires Valid() && head != tail
      modifies this`head
      ensures Valid() && ch == old(Content())[0] && Content() == old(Content())[1..]
    {
      FollowingLess(bufaddr[..], head, Between(head, tail, bufaddr.Length), 1);
      head := Ahead(head, 1, bufaddr.Length);
      ch := bufaddr[head];
    }

    /** The copy of iread for a few bytes; meanwhile bytes may arrive. */
    method TakeFew(buf: array<byte>, m: nat) returns (newhead: nat)
      requires Valid() && m < |Content()| && m <= buf.Length && buf != bufaddr
      modifies this`tail, this`log, bufaddr, buf
      ensures Valid() && old(log) <= log && Content() == old(Content()) + log[|old(log)|..]
      ensures newhead == Ahead(head, m, bufaddr.Length)
      ensures buf[..] == old(Content())[..m] + old(buf[..])[m..]
    {
      hide Content;
      var n := bufaddr.Length;
      var q: int, wrap: int := head, n - head;
      ghost var c, l, b0 := Content(), log, buf[..];
      var j := 0;
      while j < m
        invariant 0 <= j <= m && Valid() && q == Ahead(head, j, n) && wrap == n - head - j
        invariant l <= log && Content() == c + log[|l|..]
        invariant buf[..] == c[..j] + b0[j..]
      {
        wrap := wrap - 1;
        if wrap == 0 {
          q := q - n;
        }
        q := q + 1;
        ContentAt(j);
        PutByte(buf, j, bufaddr[q]);
        TakenMore(c, b0, j);
        j := j + 1;
        ReceiveOn(c, l);
      }
      newhead := q;
    }

    method PutByte(buf: array<byte>, j: nat, ch: byte)
      requires j < buf.Length
      modifies buf
      ensures buf[..] == old(buf[..])[j := ch]
    {
      buf[j] := ch;
    }

    lemma TakenMore(c: seq<byte>, b: seq<byte>, j: nat)
      requires j < |c| && j < |b|
      ensures (c[..j] + b[j..])[j := c[j]] == c[..j + 1] + b[j + 1..]
      ensures forall x: seq<byte> :: (c + x)[j] == c[j]
    {
    }

    lemma ContentAt(j: nat)
      requires Valid() && j < |Content()|
      ensures Content()[j] == bufaddr[Ahead(head, j + 1, bufaddr.Length)]
    {
    }

    /** memcpy of bytes of the content, from its at-th on, to their place in the buffer. */
    method MemTake(buf: array?<byte>, at: nat, from: nat, len: nat)
      requires Valid() && at + len <= |Content()| && from + len <= bufaddr.Length
      requires if from == 0 then at == bufaddr.Length - head - 1 else at == 0 && from == head + 1
      requires buf != null ==> at + len <= buf.Length && buf != bufaddr
      modifies if buf == null then {} else {buf}
      ensures buf != null ==> buf[..] == Splice(old(buf[..]), at, Content()[at..at + len])
    {
      if buf != null {
        forall i | 0 <= i < len {
          buf[at + i] := bufaddr[from + i];
        }
      }
    }

    /** The copy of iread for more bytes, or for none at all when the input is flushed; meanwhile bytes
        may arrive. */
    method TakeMany(buf: array?<byte>, m: nat) returns (newhead: nat)
      requires Valid() && m < |Content()| && (buf != null ==> m <= buf.Length && buf != bufaddr)
      modifies this`tail, this`log, bufaddr, if buf == null then {} else {buf}
      ensures Valid() && old(log) <= log && Content() == old(Content()) + log[|old(log)|..]
      ensures newhead == Ahead(head, m, bufaddr.Length)
      ensures buf != null ==> buf[..] == old(Content())[..m] + old(buf[..])[m..]
    {
      hide Content, Splice;
      ghost var c, l, b0 := Content(), log, if buf == null then [] else buf[..];
      var wrap := bufaddr.Length - head - 1;
      TakenPieces(c, b0, wrap, m);
      if wrap < m {
        MemTake(buf, 0, head + 1, wrap);
        ReceiveOn(c, l);
        Slices(c, log[|l|..], wrap, m);
        MemTake(buf, wrap, 0, m - wrap);
        newhead := m - wrap - 1;
      } else {
        MemTake(buf, 0, head + 1, m);
        newhead := head + m;
      }
      ReceiveOn(c, l);
    }

    lemma TakenPieces(c: seq<byte>, b: seq<byte>, w: nat, m: nat)
      requires m <= |c|
      ensures m <= |b| ==> Splice(b, 0, c[0..m]) == c[..m] + b[m..]
      ensures w <= m <= |b| ==> Splice(Splice(b, 0, c[0..w]), w, c[w..m]) == c[..m] + b[m..]
    {
    }

    lemma Slices(c: seq<byte>, x: seq<byte>, w: nat, m: nat)
      requires w <= m <= |c|
      ensures (c + x)[w..m] == c[w..m]
    {
    }

    /** iread: exactly the oldest bytes there were, as many as asked for; what arrives meanwhile stays
        behind the rest. */
    method IRead(buf: array?<byte>, bytes0: nat) returns (r: nat, ghost n: nat)
      requires Valid() && (buf != null ==> bytes0 <= buf.Length && buf != bufaddr)
      modifies this, bufaddr, if buf == null then {} else {buf}
      ensures Valid() && old(log) <= log && n <= |old(Content())|
      ensures n == if buf == null && bytes0 == 0 then |old(Content())| else Min(bytes0, |old(Content())|)
      ensures Content() == old(Content())[n..] + log[|old(log)|..]
      ensures buf != null ==> r == n && buf[..] == old(Content())[..n] + old(buf[..])[n..]
      ensures buf == null ==> r == 0
    {
      hide Following;
      n := 0;
      if buf != null && bytes0 == 0 {
        return 0, 0;
      }
      var left: int := tail - head;
      if left == 0 {
        return 0, 0;
      }
      if left < 0 {
        left := left + bufaddr.Length;
      }
      var bytes := bytes0;
      if buf == null && bytes == 0 {
        bytes := left;
      }
      if left > bytes {
        left := bytes;
      }
      n := left;
      ReadOut(buf, left);
      r := if buf != null then left else 0;
    }

    /** All bytes but the last one. */
    method TakeFirst(buf: array?<byte>, m: nat) returns (newhead: nat)
      requires Valid() && m < |Content()| && (buf != null ==> m < buf.Length && buf != bufaddr)
      modifies this`tail, this`log, bufaddr, if buf == null then {} else {buf}
      ensures Valid() && old(log) <= log && Content() == old(Content()) + log[|old(log)|..]
      ensures newhead == Ahead(head, m, bufaddr.Length)
      ensures buf != null ==> buf[..] == old(Content())[..m] + old(buf[..])[m..]
    {
      hide *;
      if buf != null && m < 5 {
        newhead := TakeFew(buf, m);
      } else {
        newhead := TakeMany(buf, m);
      }
    }

    /** The copy of iread: the last byte comes through the driver, so that it can raise its handshake. */
    method ReadOut(buf: array?<byte>, left: nat)
      requires Valid() && 0 < left <= |Content()| && (buf != null ==> left <= buf.Length && buf != bufaddr)
      modifies this, bufaddr, if buf == null then {} else {buf}
      ensures Valid() && old(log) <= log && Content() == old(Content())[left..] + log[|old(log)|..]
      ensures buf != null ==> buf[..] == old(Content())[..left] + old(buf[..])[left..]
    {
      hide *;
      ghost var c, l, b0 := Content(), log, if buf == null then [] else buf[..];
      var newhead := TakeFirst(buf, left - 1);
      ghost var l1 := log;
      MoveHead(newhead, left - 1);
      Receive();
      ReadEnd(c, l1[|l|..], log[|l1|..], left);
      assert log[|l|..] == l1[|l|..] + log[|l1|..];
      NotEmpty();
      if tail != head {
        var ch := Conin();
        if buf != null {
          TakenMore(c, b0, left - 1);
          PutByte(buf, left - 1, ch);
        }
      }
    }

    lemma NotEmpty()
      requires Valid()
      ensures Content() != [] <==> tail != head
    {
    }

    lemma ReadEnd(c: seq<byte>, x1: seq<byte>, x2: seq<byte>, n: nat)
      requires 0 < n <= |c|
      ensures (c + x1)[n - 1..] + x2 != [] && ((c + x1)[n - 1..] + x2)[0] == c[n - 1]
      ensures ((c + x1)[n - 1..] + x2)[1..] == c[n..] + (x1 + x2)
      ensures c + [] == c
    {
    }

    method MoveHead(newhead: nat, m: nat)
      requires Valid() && m < |Content()| && newhead == Ahead(head, m, bufaddr.Length)
      modifies this`head
      ensures Valid() && Content() == old(Content())[m..]
    {
      FollowingLess(bufaddr[..], head, Between(head, tail, bufaddr.Length), m);
      head := newhead;
    }
  }
}
