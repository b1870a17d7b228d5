/**
  The cache over a crypted device: what the cache transfers is encrypted on its way, and the disk,
  decrypted, holds what the cache takes it to hold. After a sync that is what the users have written.
 */
module CryptedCache {
  import opened Machine
  import opened BlockUnit
  import opened BlockIO
  import CryptIO

  // ---------------------------------------------------------------- bytes as blocks of two words

  /** Bit k of a number. */
  function Bit(x: nat, k: nat): bool
    decreases k
  {
    if k == 0 then x % 2 == 1 else Bit(x / 2, k - 1)
  }

  function Power(n: nat): (r: nat)
    ensures 0 < r
  {
    if n == 0 then 1 else 2 * Power(n - 1)
  }

  lemma {:induction false} BitsOnly(x: nat, y: nat, n: nat)
    requires x < Power(n) && y < Power(n) && forall k :: 0 <= k < n ==> Bit(x, k) == Bit(y, k)
    ensures x == y
    decreases n
  {
    if n > 0 {
      assert Bit(x, 0) == Bit(y, 0);
      forall k | 0 <= k < n - 1
        ensures Bit(x / 2, k) == Bit(y / 2, k)
      {
        assert Bit(x, k + 1) == Bit(y, k + 1);
      }
      BitsOnly(x / 2, y / 2, n - 1);
    }
  }

  /** A byte as the machine has it. */
  function Octet(x: byte): bv8 {
    OfBits(Bit(x, 7), Bit(x, 6), Bit(x, 5), Bit(x, 4), Bit(x, 3), Bit(x, 2), Bit(x, 1), Bit(x, 0))
  }

  function OfBits(a: bool, b: bool, c: bool, d: bool, e: bool, f: bool, g: bool, h: bool): bv8 {
    (if a then 0x80 else 0) | (if b then 0x40 else 0) | (if c then 0x20 else 0) | (if d then 0x10 else 0)
    | (if e then 8 else 0) | (if f then 4 else 0) | (if g then 2 else 0) | (if h then 1 else 0)
  }

  lemma OfBitsOnly(a: bool, b: bool, c: bool, d: bool, e: bool, f: bool, g: bool, h: bool,
                   a': bool, b': bool, c': bool, d': bool, e': bool, f': bool, g': bool, h': bool)
    requires OfBits(a, b, c, d, e, f, g, h) == OfBits(a', b', c', d', e', f', g', h')
    ensures a == a' && b == b' && c == c' && d == d' && e == e' && f == f' && g == g' && h == h'
  {
  }

  lemma OctetBits(x: byte)
    ensures (Octet(x) & 0x80 != 0 <==> Bit(x, 7)) && (Octet(x) & 0x40 != 0 <==> Bit(x, 6))
    ensures (Octet(x) & 0x20 != 0 <==> Bit(x, 5)) && (Octet(x) & 0x10 != 0 <==> Bit(x, 4))
    ensures (Octet(x) & 8 != 0 <==> Bit(x, 3)) && (Octet(x) & 4 != 0 <==> Bit(x, 2))
    ensures (Octet(x) & 2 != 0 <==> Bit(x, 1)) && (Octet(x) & 1 != 0 <==> Bit(x, 0))
  {
    hide Bit;
  }

  lemma OctetOnly(x: byte, y: byte)
    requires Octet(x) == Octet(y)
    ensures x == y
  {
    hide OfBits, Bit;
    OfBitsOnly(Bit(x, 7), Bit(x, 6), Bit(x, 5), Bit(x, 4), Bit(x, 3), Bit(x, 2), Bit(x, 1), Bit(x, 0),
               Bit(y, 7), Bit(y, 6), Bit(y, 5), Bit(y, 4), Bit(y, 3), Bit(y, 2), Bit(y, 1), Bit(y, 0));
    forall k | 0 <= k < 8
      ensures Bit(x, k) == Bit(y, k)
    {
      assert k == 0 || k == 1 || k == 2 || k == 3 || k == 4 || k == 5 || k == 6 || k == 7;
    }
    SameBits(x, y);
  }

  lemma SameBits(x: byte, y: byte)
    requires forall k :: 0 <= k < 8 ==> Bit(x, k) == Bit(y, k)
    ensures x == y
  {
    hide Bit;
    PowerOfByte();
    BitsOnly(x, y, 8);
  }

  lemma PowerOfByte()
    ensures Power(8) == 256
  {
    assert Power(4) == 16;
  }

  /** Four bytes as a word, in the order of the processor. */
  function Joined(a: bv8, b: bv8, c: bv8, d: bv8): bv32 {
    ((a as bv32) << 24) | ((b as bv32) << 16) | ((c as bv32) << 8) | (d as bv32)
  }

  lemma JoinedOnly(a: bv8, b: bv8, c: bv8, d: bv8, p: bv8, q: bv8, r: bv8, s: bv8)
    requires Joined(a, b, c, d) == Joined(p, q, r, s)
    ensures a == p && b == q && c == r && d == s
  {
  }

  /** The first byte is the most significant one. */
  lemma JoinedParts(a: bv8, b: bv8, c: bv8, d: bv8)
    ensures Joined(a, b, c, d) >> 24 == a as bv32 && (Joined(a, b, c, d) >> 16) & 0xff == b as bv32
    ensures (Joined(a, b, c, d) >> 8) & 0xff == c as bv32 && Joined(a, b, c, d) & 0xff == d as bv32
  {
  }

  function Word(b: seq<byte>, o: nat): bv32
    requires o + 4 <= |b|
  {
    Joined(Octet(b[o]), Octet(b[o + 1]), Octet(b[o + 2]), Octet(b[o + 3]))
  }

  lemma WordOnly(a: seq<byte>, b: seq<byte>, o: nat)
    requires o + 4 <= |a| && o + 4 <= |b| && Word(a, o) == Word(b, o)
    ensures a[o..o + 4] == b[o..o + 4]
  {
    hide Joined, Octet;
    JoinedOnly(Octet(a[o]), Octet(a[o + 1]), Octet(a[o + 2]), Octet(a[o + 3]),
               Octet(b[o]), Octet(b[o + 1]), Octet(b[o + 2]), Octet(b[o + 3]));
    OctetOnly(a[o], b[o]);
    OctetOnly(a[o + 1], b[o + 1]);
    OctetOnly(a[o + 2], b[o + 2]);
    OctetOnly(a[o + 3], b[o + 3]);
  }

  function Block(b: seq<byte>, i: nat): CryptIO.Block
    requires 8 * i + 8 <= |b|
  {
    CryptIO.Block(Word(b, 8 * i), Word(b, 8 * i + 4))
  }

  /** The blocks that a buffer consists of for the crypting routines. */
  function Blocks(b: seq<byte>): (r: seq<CryptIO.Block>)
    requires |b| % 8 == 0
    ensures 8 * |r| == |b|
  {
    seq(|b| / 8, i requires 0 <= i < |b| / 8 => Block(b, i))
  }

  /** Which byte is where: the first four are the left half, the highest byte first. */
  lemma BytesPlaced(b: seq<byte>, i: nat)
    requires |b| % 8 == 0 && 8 * i < |b|
    ensures var x := Blocks(b)[i];
      && x.l >> 24 == Octet(b[8 * i]) as bv32 && (x.l >> 16) & 0xff == Octet(b[8 * i + 1]) as bv32
      && (x.l >> 8) & 0xff == Octet(b[8 * i + 2]) as bv32 && x.l & 0xff == Octet(b[8 * i + 3]) as bv32
      && x.r >> 24 == Octet(b[8 * i + 4]) as bv32 && (x.r >> 16) & 0xff == Octet(b[8 * i + 5]) as bv32
      && (x.r >> 8) & 0xff == Octet(b[8 * i + 6]) as bv32 && x.r & 0xff == Octet(b[8 * i + 7]) as bv32
  {
    hide Joined, Octet;
    JoinedParts(Octet(b[8 * i]), Octet(b[8 * i + 1]), Octet(b[8 * i + 2]), Octet(b[8 * i + 3]));
    JoinedParts(Octet(b[8 * i + 4]), Octet(b[8 * i + 5]), Octet(b[8 * i + 6]), Octet(b[8 * i + 7]));
  }

  /** Different bytes make different blocks. */
  lemma BlocksOnly(a: seq<byte>, b: seq<byte>)
    requires |a| % 8 == 0 && |b| % 8 == 0 && Blocks(a) == Blocks(b)
    ensures a == b
  {
    hide Word;
    assert |a| == |b|;
    forall j | 0 <= j < |a|
      ensures a[j] == b[j]
    {
      var i := j / 8;
      assert Blocks(a)[i] == Block(a, i) && Blocks(b)[i] == Block(b, i);
      WordOnly(a, b, 8 * i);
      WordOnly(a, b, 8 * i + 4);
      if j % 8 < 4 {
        assert a[8 * i..8 * i + 4][j % 8] == b[8 * i..8 * i + 4][j % 8];
      } else {
        assert a[8 * i + 4..8 * i + 8][j % 8 - 4] == b[8 * i + 4..8 * i + 8][j % 8 - 4];
      }
    }
  }

  lemma BlocksAt(b: seq<byte>, i: nat)
    requires |b| % 8 == 0 && 8 * i + 8 <= |b|
    ensures Blocks(b)[i] == Block(b, i)
  {
  }

  /** Bytes put into a buffer put their blocks into its blocks. */
  lemma BlocksOver(b: seq<byte>, at: nat, x: seq<byte>)
    requires |b| % 8 == 0 && |x| % 8 == 0 && 8 * at + |x| <= |b|
    ensures Blocks(Splice(b, 8 * at, x)) == CryptIO.Over(Blocks(b), at, Blocks(x))
  {
    hide Joined, Octet;
    var b' := Splice(b, 8 * at, x);
    var r := CryptIO.Over(Blocks(b), at, Blocks(x));
    forall i | 0 <= i < |r|
      ensures Blocks(b')[i] == r[i]
    {
      BlocksAt(b', i);
      if at <= i < at + |x| / 8 {
        BlocksAt(x, i - at);
      } else {
        BlocksAt(b, i);
      }
    }
  }

  lemma BlocksPart(b: seq<byte>, at: nat, len: nat)
    requires |b| % 8 == 0 && 8 * at + 8 * len <= |b|
    ensures Blocks(b[8 * at..8 * at + 8 * len]) == Blocks(b)[at..at + len]
  {
    hide Joined, Octet;
    var x := b[8 * at..8 * at + 8 * len];
    forall i | 0 <= i < len
      ensures Blocks(x)[i] == Blocks(b)[at..at + len][i]
    {
      BlocksAt(x, i);
      BlocksAt(b, at + i);
    }
  }

  lemma {:induction false} TimesEight(k: nat, n: nat)
    ensures Times(k, 8 * n) == 8 * Times(k, n)
  {
    if k > 0 {
      TimesEight(k - 1, n);
    }
  }

  // ---------------------------------------------------------------- the disk under the cache

  /** The crypted disk has the geometry of the device. */
  ghost predicate SameDisk(ci: CryptIO.CryptDi, di: Di) {
    && ci.key.Valid() && 0 < ci.n && di.pssize == 8 * ci.n && di.lratio == ci.lratio && di.psectors == ci.psectors
    && 0 < di.lratio && di.lsize == Times(di.lratio, di.pssize)
  }

  /** The disk contents `raw`, decrypted, are the bytes `plain`. */
  ghost predicate Means(ci: CryptIO.CryptDi, raw: seq<CryptIO.Block>, plain: seq<byte>)
    requires ci.key.Valid() && 0 < ci.n
  {
    |plain| % 8 == 0 && CryptIO.SectorsFrom(ci.key, CryptIO.Decrypt, raw, 0, ci.n) == Blocks(plain)
  }

  /** What encrypting x and transferring it makes of the disk. */
  ghost function Stored(ci: CryptIO.CryptDi, raw: seq<CryptIO.Block>, sector: nat,
                        x: seq<CryptIO.Block>): (r: seq<CryptIO.Block>)
    requires ci.key.Valid() && 0 < ci.n
    ensures |r| == |raw|
  {
    var p := Times(sector, ci.lratio);
    if Times(p, ci.n) + |x| <= |raw|
    then CryptIO.Over(raw, Times(p, ci.n), CryptIO.SectorsFrom(ci.key, CryptIO.Encrypt, x, p, ci.n))
    else raw
  }

  /** ... and what all transfers of a log make of it. */
  ghost function Sent(ci: CryptIO.CryptDi, raw: seq<CryptIO.Block>, log: seq<Transfer>): (r: seq<CryptIO.Block>)
    requires ci.key.Valid() && 0 < ci.n
    decreases |log|
  {
    if log == [] then raw else
    var b := Sent(ci, raw, log[..|log| - 1]);
    var (sector, x) := log[|log| - 1];
    if |x| % 8 == 0 then Stored(ci, b, sector, Blocks(x)) else b
  }

  /** Where a transfer of the cache begins on the crypted disk, and how long it is there. */
  lemma Places(ci: CryptIO.CryptDi, di: Di, e: Transfer)
    requires SameDisk(ci, di) && di.Sized(e)
    ensures var at := Times(Times(e.0, ci.lratio), ci.n);
      && Times(e.0, di.lsize) == 8 * at && |e.1| % 8 == 0 && |e.1| == 8 * Times(|e.1| / di.pssize, ci.n)
  {
    hide Times;
    TimesTimes(e.0, di.lratio, di.pssize);
    TimesEight(Times(e.0, di.lratio), ci.n);
    TimesEight(|e.1| / di.pssize, ci.n);
  }

  /** A transfer through the crypting layer means what the transfer itself does. */
  lemma SentOne(ci: CryptIO.CryptDi, di: Di, raw: seq<CryptIO.Block>, plain: seq<byte>, e: Transfer)
    requires SameDisk(ci, di) && di.Sized(e) && |plain| == |di.start| && Means(ci, raw, plain)
    ensures |e.1| % 8 == 0 && Means(ci, Stored(ci, raw, e.0, Blocks(e.1)), Splice(plain, Times(e.0, di.lsize), e.1))
  {
    hide Times, CryptIO.SectorsFrom, Splice;
    Places(ci, di, e);
    var p := Times(e.0, ci.lratio);
    BlocksOver(plain, Times(p, ci.n), e.1);
    CryptIO.MeaningOfWrite(ci.key, raw, p, Blocks(e.1), |e.1| / di.pssize, ci.n);
  }

  /** A disk that meant what the medium was at first means, after all transfers, what the cache takes
      the medium for. */
  lemma {:induction false} SentAll(ci: CryptIO.CryptDi, di: Di, raw: seq<CryptIO.Block>, log: seq<Transfer>)
    requires SameDisk(ci, di) && Means(ci, raw, di.start)
    requires forall i :: 0 <= i < |log| ==> di.Sized(log[i])
    ensures Means(ci, Sent(ci, raw, log), Transferred(di.start, log, di.lsize))
    decreases |log|
  {
    hide Times, CryptIO.SectorsFrom, Splice, Blocks, Stored;
    if log != [] {
      var l, e := log[..|log| - 1], log[|log| - 1];
      SentAll(ci, di, raw, l);
      SentOne(ci, di, Sent(ci, raw, l), Transferred(di.start, l, di.lsize), e);
    }
  }

  /** rwabs_crypto makes each of these steps. */
  method Send(ci: CryptIO.CryptDi, di: Di, sector: nat, x: seq<byte>) returns (r: int)
    requires ci.Valid() && SameDisk(ci, di) && di.Sized((sector, x)) && |di.start| == 8 * |ci.dev|
    modifies ci
    ensures r == E_OK && ci.Valid() && ci.dev == Sent(ci, old(ci.dev), [(sector, x)])
  {
    hide *;
    DiskFacts(ci, di, sector, x);
    SentSingle(ci, ci.dev, sector, x);
    var n := |x| / di.pssize;
    var b := Blocks(x);
    var buf := new CryptIO.Block[|b|](i requires 0 <= i < |b| => b[i]);
    assert buf[..Times(n, ci.n)] == b;
    r := ci.RwabsCrypto(true, buf, n, sector);
  }

  lemma DiskFacts(ci: CryptIO.CryptDi, di: Di, sector: nat, x: seq<byte>)
    requires ci.Valid() && SameDisk(ci, di) && di.Sized((sector, x)) && |di.start| == 8 * |ci.dev|
    ensures |x| % 8 == 0 && 0 < di.pssize
    ensures var n, b, p := |x| / di.pssize, Blocks(x), Times(sector, ci.lratio);
      && 0 < n && p + n <= ci.psectors && |b| == Times(n, ci.n) && ci.key.Valid() && 0 < ci.n
      && Times(p, ci.n) + |b| <= |ci.dev|
      && Stored(ci, ci.dev, sector, b)
        == CryptIO.Over(ci.dev, Times(p, ci.n), CryptIO.SectorsFrom(ci.key, CryptIO.Encrypt, b, p, ci.n))
  {
    hide CryptIO.SectorsFrom, Times;
    Places(ci, di, (sector, x));
    InDisk(ci, di, sector, |x| / di.pssize);
  }

  lemma SentSingle(ci: CryptIO.CryptDi, raw: seq<CryptIO.Block>, sector: nat, x: seq<byte>)
    requires ci.key.Valid() && 0 < ci.n && |x| % 8 == 0
    ensures Sent(ci, raw, [(sector, x)]) == Stored(ci, raw, sector, Blocks(x))
  {
    var log := [(sector, x)];
    assert log[..0] == [];
    assert Sent(ci, raw, log[..0]) == raw;
  }

  /** A transfer of `size` bytes from the sector on. */
  ghost predicate Inside(di: Di, plain: seq<byte>, sector: nat, size: nat) {
    && 0 < di.pssize && 0 < size && size % 8 == 0 && size == Times(size / di.pssize, di.pssize)
    && Times(sector, di.lsize) + size <= |plain|
  }

  /** The bytes from there on, as blocks. */
  ghost function Part(di: Di, plain: seq<byte>, sector: nat, size: nat): seq<CryptIO.Block>
    requires Inside(di, plain, sector, size)
  {
    Blocks(plain[Times(sector, di.lsize)..Times(sector, di.lsize) + size])
  }

  /** Reading from the disk through the crypting layer gives what the cache finds on the medium. */
  method Fetch(ci: CryptIO.CryptDi, di: Di, ghost plain: seq<byte>, sector: nat, size: nat)
      returns (r: int, buf: array<CryptIO.Block>)
    requires 0 < di.pssize && Inside(di, plain, sector, size) && |plain| == |di.start| == 8 * |ci.dev|
    requires ci.Valid() && SameDisk(ci, di) && Means(ci, ci.dev, plain)
    modifies ci
    ensures r == E_OK && ci.dev == old(ci.dev) && buf[..] == Part(di, plain, sector, size)
  {
    hide CryptIO.SectorsFrom, CryptIO.Deciphered, CryptIO.Ciphered, CryptIO.Over, Blocks, Times;
    var n := size / di.pssize;
    ghost var x := plain[Times(sector, di.lsize)..Times(sector, di.lsize) + size];
    Places(ci, di, (sector, x));
    InDisk(ci, di, sector, n);
    BlocksPart(plain, Times(Times(sector, ci.lratio), ci.n), Times(n, ci.n));
    buf := new CryptIO.Block[Times(n, ci.n)](i => CryptIO.Block(0, 0));
    ghost var b0 := buf[..];
    r := ci.RwabsCrypto(false, buf, n, sector);
    WholeBuffer(b0, Blocks(x));
  }

  lemma WholeBuffer(b: seq<CryptIO.Block>, x: seq<CryptIO.Block>)
    requires |x| == |b|
    ensures CryptIO.Over(b, 0, x) == x
  {
  }

  /** A disk has one meaning. */
  lemma MeansOne(ci: CryptIO.CryptDi, raw: seq<CryptIO.Block>, a: seq<byte>, b: seq<byte>)
    requires ci.key.Valid() && 0 < ci.n && Means(ci, raw, a) && Means(ci, raw, b)
    ensures a == b
  {
    BlocksOnly(a, b);
  }

  lemma InDisk(ci: CryptIO.CryptDi, di: Di, sector: nat, n: nat)
    requires ci.Valid() && SameDisk(ci, di) && |di.start| == 8 * |ci.dev| && 0 < Times(n, di.pssize)
    requires Times(sector, di.lsize) + Times(n, di.pssize) <= |di.start|
    ensures 0 < n && Times(sector, ci.lratio) + n <= ci.psectors
  {
    hide Times;
    TimesEight(ci.psectors, ci.n);
    di.InPartition(sector, n);
  }

  /** What is written through the cache to a crypted device and synced is on the disk: the disk, which
      holds nothing but what the crypting layer has made of the transfers, decrypts to it. */
  method WriteSecretly(cache: Cache, di: Di, sector: nat, blocks: nat, bs: nat, x: seq<byte>,
                       ghost ci: CryptIO.CryptDi, ghost raw: seq<CryptIO.Block>) returns (r: int)
    requires SameDisk(ci, di) && Means(ci, raw, di.start)
    requires cache.Region(di, sector, blocks, bs) && 0 < blocks && |x| == Times(blocks, bs)
    requires cache.Unlocked(di, sector, sector + Times(blocks, bs / di.lsize))
    requires cache.Valid() && di in cache.dis
    modifies cache`repr, cache`all, cache.dis`wb_queue, cache.dis`wbq, cache.dis`lock, cache.dis`dev, cache.dis`log
    modifies cache.dis`table, cache.dis`units, di`view, di`key
    modifies cache.all`wb_next, cache.all`wb_prev, cache.all`dirty, cache.all`stat
    modifies cache.cbls`active, cache.cbls`used, cache.cbls`lock, cache.cbls`free, cache.cbls`stat, cache.cbls`data
    ensures r == E_OK && cache.Valid() && Times(sector, di.lsize) + |x| <= |old(di.view)|
    ensures di.view == Splice(old(di.view), Times(sector, di.lsize), x)
    ensures Means(ci, Sent(ci, raw, di.log), di.view)
  {
    hide *;
    r := cache.LWrite(di, sector, blocks, bs, x);
    cache.InAll(di);
    cache.SyncDrv(di);
    HistoryOf(cache, di);
    SentAll(ci, di, raw, di.log);
  }

  lemma HistoryOf(cache: Cache, di: Di)
    requires cache.Valid() && di in cache.dis
    ensures di.dev == Transferred(di.start, di.log, di.lsize) && forall i :: 0 <= i < |di.log| ==> di.Sized(di.log[i])
  {
    hide Cache.Filled, Cache.Located, Cache.CblOK, Times, LayoutOK, AgreeOutside;
    assert di.Sound();
  }
}
