/**
  The crypting layer between the cache and the driver: Blowfish in Cipher Block Chaining mode
  (section 6.2 of NIST SP 800-38A), with the chain started anew at every physical sector from the
  number of the sector, and with physical sector 0 left in clear.
 */
module CryptIO {
  import opened Machine

  /** The eight bytes that are crypted at once: two words. */
  datatype Block = Block(l: bv32, r: bv32)

  function X(a: bv32, b: bv32): bv32 {
    a ^ b
  }

  lemma XTwice(a: bv32, b: bv32)
    ensures X(X(a, b), b) == a
  {
  }

  lemma XCross(a: bv32, b: bv32, c: bv32)
    ensures X(X(X(X(a, b), c), b), c) == a
  {
  }

  function Xor(a: Block, b: Block): Block {
    Block(X(a.l, b.l), X(a.r, b.r))
  }

  lemma XorTwice(a: Block, b: Block)
    ensures Xor(Xor(a, b), b) == a
  {
    hide X;
    XTwice(a.l, b.l);
    XTwice(a.r, b.r);
  }

  lemma XorMeans(a: Block, b: Block)
    ensures Xor(a, b) == Block(a.l ^ b.l, a.r ^ b.r)
  {
  }

  // ---------------------------------------------------------------- Blowfish

  const BF_N := 16

  /** A key: the P array, and what the S boxes make of a word. */
  datatype Key = Key(p: seq<bv32>, f: bv32 -> bv32) {
    predicate Valid() {
      |p| == BF_N + 2
    }

    /** One round and the exchange of the two halves. */
    function Round(b: Block, w: bv32): Block {
      Block(X(X(b.r, f(b.l)), w), b.l)
    }

    function Rounds(b: Block, q: seq<bv32>): Block
      decreases |q|
    {
      if q == [] then b else Rounds(Round(b, q[0]), q[1..])
    }

    function RoundsBack(b: Block, q: seq<bv32>): Block
      decreases |q|
    {
      if q == [] then b else RoundsBack(Round(b, q[|q| - 1]), q[..|q| - 1])
    }

    /** The network: the first and the last word of P are mixed in at its ends, the others in its
        rounds, and the last exchange is taken back. */
    function Enc(b: Block): Block
      requires Valid()
    {
      var x := Rounds(Block(X(b.l, p[0]), b.r), p[1..BF_N + 1]);
      Block(X(x.r, p[BF_N + 1]), x.l)
    }

    function Dec(b: Block): Block
      requires Valid()
    {
      var x := RoundsBack(Block(X(b.l, p[BF_N + 1]), b.r), p[1..BF_N + 1]);
      Block(X(x.r, p[0]), x.l)
    }

    lemma TwoOn(q: seq<bv32>, n: nat)
      requires n + 2 <= |q|
      ensures q[n..][1..] == q[n + 1..] && q[n + 1..][1..] == q[n + 2..]
    {
    }

    lemma TwoOff(q: seq<bv32>, n: nat)
      requires 2 <= n <= |q|
      ensures q[..n][..n - 1] == q[..n - 1] && q[..n - 1][..n - 2] == q[..n - 2]
    {
    }

    /** Blowfish_encipher: the rounds work on two variables in turn. */
    method Encipher(b: Block) returns (r: Block)
      requires Valid()
      ensures r == Enc(b)
    {
      hide X;
      var xl, xr := X(b.l, p[0]), b.r;
      ghost var q := p[1..BF_N + 1];
      ghost var x := Rounds(Block(xl, xr), q);
      var n := 0;
      while n < BF_N
        invariant 0 <= n <= BF_N && n % 2 == 0 && x == Rounds(Block(xl, xr), q[n..])
      {
        TwoOn(q, n);
        xr := X(X(xr, f(xl)), p[n + 1]);
        xl := X(X(xl, f(xr)), p[n + 2]);
        n := n + 2;
      }
      xr := X(xr, p[BF_N + 1]);
      r := Block(xr, xl);
    }

    /** Blowfish_decipher */
    method Decipher(b: Block) returns (r: Block)
      requires Valid()
      ensures r == Dec(b)
    {
      hide X;
      var xl, xr := X(b.l, p[BF_N + 1]), b.r;
      ghost var q := p[1..BF_N + 1];
      ghost var x := RoundsBack(Block(xl, xr), q);
      var n := BF_N;
      assert q[..n] == q;
      while n > 0
        invariant 0 <= n <= BF_N && n % 2 == 0 && x == RoundsBack(Block(xl, xr), q[..n])
      {
        TwoOff(q, n);
        xr := X(X(xr, f(xl)), p[n]);
        xl := X(X(xl, f(xr)), p[n - 1]);
        n := n - 2;
      }
      xr := X(xr, p[0]);
      r := Block(xr, xl);
    }

    /** The network as one row of halves: each is mixed from the two in front of it. */
    ghost predicate Row(v: seq<bv32>, q: seq<bv32>) {
      |v| == |q| + 2 && forall i :: 0 <= i < |q| ==> v[i + 2] == X(X(v[i], f(v[i + 1])), q[i])
    }

    lemma {:induction false} Halves(b: Block, q: seq<bv32>) returns (v: seq<bv32>)
      ensures Row(v, q) && v[0] == b.r && v[1] == b.l && Rounds(b, q) == Block(v[|q| + 1], v[|q|])
      decreases |q|
    {
      hide X;
      if q == [] {
        v := [b.r, b.l];
      } else {
        var t := Halves(Round(b, q[0]), q[1..]);
        v := [b.r] + t;
        RowMore(v, t, q);
      }
    }

    lemma RowMore(v: seq<bv32>, t: seq<bv32>, q: seq<bv32>)
      requires q != [] && Row(t, q[1..]) && |v| == |t| + 1 && v[1..] == t
      requires t[1] == X(X(v[0], f(t[0])), q[0])
      ensures Row(v, q)
    {
      hide X;
      forall i | 0 <= i < |q|
        ensures v[i + 2] == X(X(v[i], f(v[i + 1])), q[i])
      {
        if i > 0 {
          assert q[1..][i - 1] == q[i];
          assert t[i + 1] == X(X(t[i - 1], f(t[i])), q[1..][i - 1]);
        }
      }
    }

    /** The way back is the same with the words in the opposite order. */
    lemma {:induction false} BackIsRounds(b: Block, q: seq<bv32>, q': seq<bv32>)
      requires |q'| == |q| && forall i :: 0 <= i < |q| ==> q'[i] == q[|q| - 1 - i]
      ensures RoundsBack(b, q) == Rounds(b, q')
      decreases |q|
    {
      hide X;
      if q != [] {
        BackIsRounds(Round(b, q[|q| - 1]), q[..|q| - 1], q'[1..]);
      }
    }

    /** Encipherment, word by word of P. */
    lemma EncMeans(b: Block) returns (v: seq<bv32>)
      requires Valid()
      ensures Row(v, p[1..17]) && v[0] == b.r && v[1] == X(b.l, p[0])
      ensures Enc(b) == Block(X(v[16], p[17]), v[17])
    {
      hide X, Rounds;
      v := Halves(Block(X(b.l, p[0]), b.r), p[1..17]);
    }

    /** Decipherment likewise, from the last word to the first. */
    lemma DecMeans(b: Block) returns (v: seq<bv32>)
      requires Valid()
      ensures Row(v, seq(16, i requires 0 <= i < 16 => p[16 - i])) && v[0] == b.r && v[1] == X(b.l, p[17])
      ensures Dec(b) == Block(X(v[16], p[0]), v[17])
    {
      hide X, Rounds, RoundsBack;
      var q := seq(16, i requires 0 <= i < 16 => p[16 - i]);
      BackIsRounds(Block(X(b.l, p[17]), b.r), p[1..17], q);
      v := Halves(Block(X(b.l, p[17]), b.r), q);
    }

    static function Swap(b: Block): Block {
      Block(b.r, b.l)
    }

    /** Going back through the rounds on the exchanged halves undoes them. */
    lemma {:induction false} RoundsUndone(b: Block, q: seq<bv32>)
      ensures RoundsBack(Swap(Rounds(b, q)), q) == Swap(b)
      decreases |q|
    {
      hide X;
      if q != [] {
        var c := Round(b, q[0]);
        RoundsUndone(c, q[1..]);
        BackMore(Swap(Rounds(b, q)), q);
        XCross(b.r, f(b.l), q[0]);
      }
    }

    /** The way back ends with the first word. */
    lemma {:induction false} BackMore(b: Block, q: seq<bv32>)
      requires q != []
      ensures RoundsBack(b, q) == Round(RoundsBack(b, q[1..]), q[0])
      decreases |q|
    {
      hide X;
      if |q| > 1 {
        var n := |q| - 1;
        BackMore(Round(b, q[n]), q[..n]);
        assert q[..n][1..] == q[1..][..n - 1];
      }
    }

    /** Decipherment inverts encipherment, whatever the key and its S boxes are. */
    lemma DecOfEnc(b: Block)
      requires Valid()
      ensures Dec(Enc(b)) == b
    {
      hide X, Rounds, RoundsBack;
      var x0 := Block(X(b.l, p[0]), b.r);
      var x := Rounds(x0, p[1..BF_N + 1]);
      RoundsUndone(x0, p[1..BF_N + 1]);
      XTwice(x.r, p[BF_N + 1]);
      XTwice(b.l, p[0]);
    }
  }

  // ---------------------------------------------------------------- chaining

  datatype Op = Encrypt | Decrypt

  /** One block and the feedback for the next one. */
  function Step(k: Key, op: Op, x: Block, fb: Block): (Block, Block)
    requires k.Valid()
  {
    match op
    case Encrypt => var c := k.Enc(Xor(x, fb)); (c, c)
    case Decrypt => (Xor(k.Dec(x), fb), x)
  }

  function Chain(k: Key, op: Op, s: seq<Block>, fb: Block): (r: seq<Block>)
    requires k.Valid()
    ensures |r| == |s|
  {
    if s == [] then [] else
    var (y, fb') := Step(k, op, s[0], fb);
    [y] + Chain(k, op, s[1..], fb')
  }

  function Word(n: nat): bv32 {
    (n % 0x1_0000_0000) as bv32
  }

  /** The feedback that a sector starts with. */
  function Initial(rec: nat): Block {
    Block(0, Word(rec))
  }

  /** The physical sectors of n blocks from `rec` on, each by itself. */
  function Sectors(k: Key, op: Op, s: seq<Block>, rec: nat, n: nat): (r: seq<Block>)
    requires k.Valid() && 0 < n
    ensures |r| == |s|
    decreases |s|
  {
    if |s| <= n then Chain(k, op, s, Initial(rec))
    else Chain(k, op, s[..n], Initial(rec)) + Sectors(k, op, s[n..], rec + 1, n)
  }

  lemma {:induction false} ChainUndone(k: Key, s: seq<Block>, fb: Block)
    requires k.Valid()
    ensures Chain(k, Decrypt, Chain(k, Encrypt, s, fb), fb) == s
  {
    hide X, Xor;
    if s != [] {
      var c := k.Enc(Xor(s[0], fb));
      var r := Chain(k, Encrypt, s, fb);
      assert r[1..] == Chain(k, Encrypt, s[1..], c);
      k.DecOfEnc(Xor(s[0], fb));
      XorTwice(s[0], fb);
      ChainUndone(k, s[1..], c);
    }
  }

  /** Sector by sector, decryption inverts encryption. */
  lemma {:induction false} SectorsUndone(k: Key, s: seq<Block>, rec: nat, n: nat)
    requires k.Valid() && 0 < n
    ensures Sectors(k, Decrypt, Sectors(k, Encrypt, s, rec, n), rec, n) == s
    decreases |s|
  {
    hide Chain, Initial;
    if |s| <= n {
      ChainUndone(k, s, Initial(rec));
    } else {
      var r := Sectors(k, Encrypt, s, rec, n);
      assert r[..n] == Chain(k, Encrypt, s[..n], Initial(rec));
      assert r[n..] == Sectors(k, Encrypt, s[n..], rec + 1, n);
      ChainUndone(k, s[..n], Initial(rec));
      SectorsUndone(k, s[n..], rec + 1, n);
    }
  }

  /** A range of whole sectors may be split anywhere between sectors. */
  lemma {:induction false} SectorsJoin(k: Key, op: Op, a: seq<Block>, b: seq<Block>, rec: nat, m: nat, n: nat)
    requires k.Valid() && 0 < n && 0 < m && |a| == Times(m, n)
    ensures Sectors(k, op, a + b, rec, n) == Sectors(k, op, a, rec, n) + Sectors(k, op, b, rec + m, n)
    decreases m
  {
    hide *;
    if m == 1 {
      SectorsOne(k, op, a, b, rec, m, n);
    } else {
      SectorsFirst(k, op, a, b, rec, m, n);
      SectorsJoin(k, op, a[n..], b, rec + 1, m - 1, n);
    }
  }

  lemma SectorsOne(k: Key, op: Op, a: seq<Block>, b: seq<Block>, rec: nat, m: nat, n: nat)
    requires k.Valid() && 0 < n && m == 1 && |a| == Times(m, n)
    ensures Sectors(k, op, a + b, rec, n) == Sectors(k, op, a, rec, n) + Sectors(k, op, b, rec + m, n)
  {
    hide Initial, Step;
    TimesOne(m, n);
    if b == [] {
      assert a + b == a && Sectors(k, op, b, rec + m, n) == [];
    } else {
      assert (a + b)[..n] == a && (a + b)[n..] == b;
    }
  }

  lemma SectorsFirst(k: Key, op: Op, a: seq<Block>, b: seq<Block>, rec: nat, m: nat, n: nat)
    requires k.Valid() && 0 < n && 1 < m && |a| == Times(m, n)
    ensures n < |a| && |a[n..]| == Times(m - 1, n)
    ensures Sectors(k, op, a, rec, n) == Chain(k, op, a[..n], Initial(rec)) + Sectors(k, op, a[n..], rec + 1, n)
    ensures Sectors(k, op, a + b, rec, n) == Chain(k, op, a[..n], Initial(rec)) + Sectors(k, op, a[n..] + b, rec + 1, n)
  {
    hide Chain, Initial;
    TimesMono(1, m - 1, n);
    TimesOne(1, n);
    assert (a + b)[..n] == a[..n] && (a + b)[n..] == a[n..] + b;
  }

  /** What is mixed into the i-th block of a range that begins with physical sector `rec` and is, or
      will be, c when enciphered: the block in front of it, or the number of the sector. */
  ghost function Mixed(c: seq<Block>, rec: nat, n: nat, i: nat): Block
    requires 0 < n && i < |c|
  {
    if i % n == 0 then Block(0, ((rec + i / n) % 0x1_0000_0000) as bv32) else c[i - 1]
  }

  /** c is x enciphered in chains; physical sector 0 stays in clear. */
  ghost predicate Ciphered(k: Key, x: seq<Block>, c: seq<Block>, rec: nat, n: nat)
    requires k.Valid() && 0 < n
  {
    |c| == |x| && forall i :: 0 <= i < |x| ==>
      c[i] == if rec + i / n == 0 then x[i] else k.Enc(Xor(x[i], Mixed(c, rec, n, i)))
  }

  /** ... and x is what deciphering makes of c. */
  ghost predicate Deciphered(k: Key, c: seq<Block>, x: seq<Block>, rec: nat, n: nat)
    requires k.Valid() && 0 < n
  {
    |c| == |x| && forall i :: 0 <= i < |c| ==>
      x[i] == if rec + i / n == 0 then c[i] else Xor(k.Dec(c[i]), Mixed(c, rec, n, i))
  }

  /** What is mixed into the i-th block of a chain. */
  lemma {:induction false} ChainAt(k: Key, op: Op, s: seq<Block>, fb: Block, i: nat)
    requires k.Valid() && i < |s|
    ensures var y := Chain(k, op, s, fb);
      var prev := if i == 0 then fb else if op == Encrypt then y[i - 1] else s[i - 1];
      y[i] == if op == Encrypt then k.Enc(Xor(s[i], prev)) else Xor(k.Dec(s[i]), prev)
    decreases i
  {
    if i > 0 {
      ChainAt(k, op, s[1..], Step(k, op, s[0], fb).1, i - 1);
    }
  }

  /** ... and into the i-th block of a range of sectors. */
  lemma {:induction false} SectorsAt(k: Key, op: Op, s: seq<Block>, rec: nat, n: nat, i: nat)
    requires k.Valid() && 0 < n && i < |s|
    ensures var y := Sectors(k, op, s, rec, n);
      y[i] == if op == Encrypt then k.Enc(Xor(s[i], Mixed(y, rec, n, i)))
              else Xor(k.Dec(s[i]), Mixed(s, rec, n, i))
    decreases i
  {
    hide Chain, Step, Xor, Key.Enc, Key.Dec, Mixed, Initial;
    var y := Sectors(k, op, s, rec, n);
    InSector(i, n);
    MixedFirst(y, rec, n, i);
    MixedFirst(s, rec, n, i);
    if i < n {
      var m := if |s| <= n then |s| else n;
      assert s[..m] == s || |s| > n;
      assert y[..m] == Chain(k, op, s[..m], Initial(rec));
      ChainAt(k, op, s[..m], Initial(rec), i);
    } else {
      assert y[n..] == Sectors(k, op, s[n..], rec + 1, n);
      SectorsAt(k, op, s[n..], rec + 1, n, i - n);
    }
  }

  /** The sectors behind the first one are mixed as a range of their own. */
  lemma MixedFirst(c: seq<Block>, rec: nat, n: nat, i: nat)
    requires 0 < n && i < |c|
    ensures i < n ==> Mixed(c, rec, n, i) == if i == 0 then Initial(rec) else c[i - 1]
    ensures i >= n ==> Mixed(c, rec, n, i) == Mixed(c[n..], rec + 1, n, i - n)
  {
    hide Mixed, Word;
    InSector(i, n);
    MixedIs(c, rec, n, i);
    if i >= n {
      MixedIs(c[n..], rec + 1, n, i - n);
      assert rec + i / n == rec + 1 + (i - n) / n;
    }
  }

  lemma MixedIs(c: seq<Block>, rec: nat, n: nat, i: nat)
    requires 0 < n && i < |c|
    ensures Mixed(c, rec, n, i) == if i % n == 0 then Block(0, Word(rec + i / n)) else c[i - 1]
  {
  }

  lemma InSector(i: nat, n: nat)
    requires 0 < n
    ensures i < n ==> i / n == 0 && i % n == i
    ensures i >= n ==> i / n == (i - n) / n + 1 && i % n == (i - n) % n
  {
    if i < n {
      QuotientIs(0, i, n);
      RemainderIs(i, n);
    } else {
      var q := (i - n) / n;
      QuotientIs(q, i - n, n);
      QuotientIs(q + 1, i, n);
      TimesStep(q, n);
      RemainderIs(i - n, n);
      RemainderIs(i, n);
    }
  }

  // ---------------------------------------------------------------- crypting in place

  /** b with x in the place of the blocks from at on. */
  function Over(b: seq<Block>, at: nat, x: seq<Block>): (r: seq<Block>)
    requires at + |x| <= |b|
    ensures |r| == |b|
  {
    b[..at] + x + b[at + |x|..]
  }

  /** cbc_encipher */
  method CbcEncipher(k: Key, buf: array<Block>, at: nat, feedback: Block) returns (fb: Block)
    requires k.Valid() && at < buf.Length
    modifies buf
    ensures (buf[at], fb) == Step(k, Encrypt, old(buf[at]), feedback)
    ensures forall j :: 0 <= j < buf.Length && j != at ==> buf[j] == old(buf[j])
  {
    buf[at] := Xor(buf[at], feedback);
    var c := k.Encipher(buf[at]);
    buf[at] := c;
    fb := buf[at];
  }

  /** cbc_decipher */
  method CbcDecipher(k: Key, buf: array<Block>, at: nat, feedback: Block) returns (fb: Block)
    requires k.Valid() && at < buf.Length
    modifies buf
    ensures (buf[at], fb) == Step(k, Decrypt, old(buf[at]), feedback)
    ensures forall j :: 0 <= j < buf.Length && j != at ==> buf[j] == old(buf[j])
  {
    fb := buf[at];
    var x := k.Decipher(buf[at]);
    buf[at] := x;
    buf[at] := Xor(buf[at], feedback);
  }

  /** What is left to do when `count` blocks of the sector are done. */
  ghost function Rest(k: Key, op: Op, s: seq<Block>, fb: Block, count: nat, block: nat, n: nat): seq<Block>
    requires k.Valid() && count < n
  {
    if |s| <= n - count then Chain(k, op, s, fb)
    else Chain(k, op, s[..n - count], fb) + Sectors(k, op, s[n - count..], block + 1, n)
  }

  lemma RestStep(k: Key, op: Op, s: seq<Block>, fb: Block, count: nat, block: nat, n: nat)
    requires k.Valid() && count < n && s != []
    ensures var (y, fb') := Step(k, op, s[0], fb);
      Rest(k, op, s, fb, count, block, n) == [y] +
        if count + 1 == n then Rest(k, op, s[1..], Initial(block + 1), 0, block + 1, n)
        else Rest(k, op, s[1..], fb', count + 1, block, n)
  {
    hide Step, Initial;
    var m := n - count;
    if |s| > m {
      assert s[..m][1..] == s[1..][..m - 1] && s[1..][m - 1..] == s[m..];
    } else if m == 1 {
      assert s[1..] == [];
    }
  }

  lemma RestAll(k: Key, op: Op, s: seq<Block>, rec: nat, n: nat)
    requires k.Valid() && 0 < n
    ensures Rest(k, op, s, Initial(rec), 0, rec, n) == Sectors(k, op, s, rec, n)
    ensures s == [] ==> Sectors(k, op, s, rec, n) == []
  {
  }

  lemma RestNone(k: Key, op: Op, fb: Block, count: nat, block: nat, n: nat)
    requires k.Valid() && count < n
    ensures Rest(k, op, [], fb, count, block, n) == []
  {
  }

  /** crypt_block on the `size` blocks of the buffer from `from` on: the feedback register runs on
      through a sector and is set anew after each. */
  method CryptBlock(k: Key, op: Op, buf: array<Block>, from: nat, size: nat, rec: nat, n: nat)
    requires k.Valid() && 0 < n && from + size <= buf.Length
    modifies buf
    ensures buf[..] == Over(old(buf[..]), from, Sectors(k, op, old(buf[from..from + size]), rec, n))
    ensures rec > 0 ==>
      if op == Encrypt then Ciphered(k, old(buf[from..from + size]), buf[from..from + size], rec, n)
      else Deciphered(k, old(buf[from..from + size]), buf[from..from + size], rec, n)
  {
    hide Step, Chain, Sectors, Rest, Initial, Over, Ciphered, Deciphered;
    ghost var b0, s := buf[..], buf[from..from + size];
    ghost var whole := Sectors(k, op, s, rec, n);
    var feedback, block, count := Initial(rec), rec, 0;
    RestAll(k, op, s, rec, n);
    var i := 0;
    ghost var done: seq<Block> := [];
    while i < size
      invariant 0 <= i <= size && count < n && |done| == i
      invariant whole == done + Rest(k, op, s[i..], feedback, count, block, n)
      invariant forall j :: 0 <= j < i ==> buf[from + j] == done[j]
      invariant forall j :: 0 <= j < buf.Length && !(from <= j < from + i) ==> buf[j] == b0[j]
    {
      RestStep(k, op, s[i..], feedback, count, block, n);
      assert s[i..][0] == buf[from + i] && s[i..][1..] == s[i + 1..];
      ghost var y := Step(k, op, s[i], feedback).0;
      match op {
        case Encrypt => feedback := CbcEncipher(k, buf, from + i, feedback);
        case Decrypt => feedback := CbcDecipher(k, buf, from + i, feedback);
      }
      done := done + [y];
      i := i + 1;
      count := count + 1;
      if count == n {
        count := 0;
        block := block + 1;
        feedback := Initial(block);
      }
    }
    RestNone(k, op, feedback, count, block, n);
    assert s[i..] == [] && whole == done;
    SameBlocks(buf[..], b0, from, done);
    assert buf[from..from + size] == done;
    SectorsMixed(k, op, s, rec, n);
  }

  lemma SectorsMixed(k: Key, op: Op, s: seq<Block>, rec: nat, n: nat)
    requires k.Valid() && 0 < n
    ensures rec > 0 ==>
      if op == Encrypt then Ciphered(k, s, Sectors(k, op, s, rec, n), rec, n)
      else Deciphered(k, s, Sectors(k, op, s, rec, n), rec, n)
  {
    hide Sectors, Key.Enc, Key.Dec, Xor, Mixed;
    forall i | 0 <= i < |s| {
      SectorsAt(k, op, s, rec, n, i);
    }
  }

  lemma SameBlocks(b: seq<Block>, b0: seq<Block>, from: nat, done: seq<Block>)
    requires |b| == |b0| && from + |done| <= |b|
    requires forall j :: 0 <= j < |done| ==> b[from + j] == done[j]
    requires forall j :: 0 <= j < |b| && !(from <= j < from + |done|) ==> b[j] == b0[j]
    ensures b == Over(b0, from, done)
  {
    forall j | 0 <= j < |b|
      ensures b[j] == Over(b0, from, done)[j]
    {
      if from <= j < from + |done| {
        assert b[from + (j - from)] == done[j - from];
      }
    }
  }

  // ---------------------------------------------------------------- a crypted device

  /** As Sectors, but physical sector 0 is left in clear. */
  function SectorsFrom(k: Key, op: Op, s: seq<Block>, rec: nat, n: nat): (r: seq<Block>)
    requires k.Valid() && 0 < n
    ensures |r| == |s|
  {
    if rec > 0 then Sectors(k, op, s, rec, n)
    else if |s| <= n then s
    else s[..n] + Sectors(k, op, s[n..], 1, n)
  }

  lemma FromAt(k: Key, s: seq<Block>, rec: nat, n: nat)
    requires k.Valid() && 0 < n
    ensures Ciphered(k, s, SectorsFrom(k, Encrypt, s, rec, n), rec, n)
    ensures Deciphered(k, s, SectorsFrom(k, Decrypt, s, rec, n), rec, n)
  {
    hide Sectors, Key.Enc, Key.Dec, Xor, Mixed;
    var c, x := SectorsFrom(k, Encrypt, s, rec, n), SectorsFrom(k, Decrypt, s, rec, n);
    forall i | 0 <= i < |s|
      ensures c[i] == if rec + i / n == 0 then s[i] else k.Enc(Xor(s[i], Mixed(c, rec, n, i)))
      ensures x[i] == if rec + i / n == 0 then s[i] else Xor(k.Dec(s[i]), Mixed(s, rec, n, i))
    {
      InSector(i, n);
      MixedFirst(c, rec, n, i);
      MixedFirst(s, rec, n, i);
      if rec > 0 {
        SectorsAt(k, Encrypt, s, rec, n, i);
        SectorsAt(k, Decrypt, s, rec, n, i);
      } else if i >= n {
        SectorsAt(k, Encrypt, s[n..], 1, n, i - n);
        SectorsAt(k, Decrypt, s[n..], 1, n, i - n);
      }
    }
  }

  lemma FromUndone(k: Key, s: seq<Block>, rec: nat, n: nat)
    requires k.Valid() && 0 < n
    ensures SectorsFrom(k, Decrypt, SectorsFrom(k, Encrypt, s, rec, n), rec, n) == s
  {
    hide Sectors;
    if rec > 0 {
      SectorsUndone(k, s, rec, n);
    } else if |s| > n {
      var r := SectorsFrom(k, Encrypt, s, rec, n);
      SectorsUndone(k, s[n..], 1, n);
      assert r[..n] == s[..n] && r[n..] == Sectors(k, Encrypt, s[n..], 1, n);
    }
  }

  lemma FromJoin(k: Key, op: Op, a: seq<Block>, b: seq<Block>, rec: nat, m: nat, n: nat)
    requires k.Valid() && 0 < n && |a| == Times(m, n)
    ensures SectorsFrom(k, op, a + b, rec, n) == SectorsFrom(k, op, a, rec, n) + SectorsFrom(k, op, b, rec + m, n)
  {
    hide Sectors;
    if m == 0 {
      assert a == [] && a + b == b;
      FromNone(k, op, rec, n);
    } else if rec > 0 {
      SectorsJoin(k, op, a, b, rec, m, n);
    } else {
      FromZero(k, op, a, b, m, n);
    }
  }

  lemma FromNone(k: Key, op: Op, rec: nat, n: nat)
    requires k.Valid() && 0 < n
    ensures SectorsFrom(k, op, [], rec, n) == []
  {
  }

  lemma FromZero(k: Key, op: Op, a: seq<Block>, b: seq<Block>, m: nat, n: nat)
    requires k.Valid() && 0 < n && 0 < m && |a| == Times(m, n)
    ensures SectorsFrom(k, op, a + b, 0, n) == SectorsFrom(k, op, a, 0, n) + SectorsFrom(k, op, b, m, n)
  {
    hide Sectors;
    TimesMono(1, m, n);
    TimesOne(1, n);
    assert (a + b)[..n] == a[..n] && (a + b)[n..] == a[n..] + b;
    if m > 1 {
      assert Times(m, n) == Times(m - 1, n) + n;
      TimesMono(1, m - 1, n);
      SectorsJoin(k, op, a[n..], b, 1, m - 1, n);
    } else {
      assert a[n..] == [] && a[..n] == a;
      FromNone(k, op, 1, n);
      assert a[n..] + b == b;
    }
  }

  /** What a write of x at physical sector p does to what the medium means. */
  lemma MeaningOfWrite(k: Key, dev: seq<Block>, p: nat, x: seq<Block>, m: nat, n: nat)
    requires k.Valid() && 0 < n && |x| == Times(m, n) && Times(p, n) + |x| <= |dev|
    ensures SectorsFrom(k, Decrypt, Over(dev, Times(p, n), SectorsFrom(k, Encrypt, x, p, n)), 0, n)
         == Over(SectorsFrom(k, Decrypt, dev, 0, n), Times(p, n), x)
  {
    hide SectorsFrom, Times;
    var at := Times(p, n);
    var a, b, c := dev[..at], dev[at..at + |x|], dev[at + |x|..];
    var y := SectorsFrom(k, Encrypt, x, p, n);
    ThreeParts(k, a, b, c, p, m, n);
    ThreeParts(k, a, y, c, p, m, n);
    FromUndone(k, x, p, n);
    assert dev == a + b + c && Over(dev, at, y) == a + y + c;
  }

  lemma ThreeParts(k: Key, a: seq<Block>, b: seq<Block>, c: seq<Block>, p: nat, m: nat, n: nat)
    requires k.Valid() && 0 < n && |a| == Times(p, n) && |b| == Times(m, n)
    ensures SectorsFrom(k, Decrypt, a + b + c, 0, n) == SectorsFrom(k, Decrypt, a, 0, n)
      + SectorsFrom(k, Decrypt, b, p, n) + SectorsFrom(k, Decrypt, c, p + m, n)
  {
    hide SectorsFrom, Times;
    TimesAdd(p, m, n);
    FromJoin(k, Decrypt, a + b, c, 0, p + m, n);
    FromJoin(k, Decrypt, a, b, 0, p, n);
  }

  /** A range decrypts to that range of the medium's meaning, however it was written. */
  lemma MeaningOfRange(k: Key, dev: seq<Block>, p: nat, m: nat, n: nat)
    requires k.Valid() && 0 < n && Times(p, n) + Times(m, n) <= |dev|
    ensures var at, to := Times(p, n), Times(p, n) + Times(m, n);
      SectorsFrom(k, Decrypt, dev[at..to], p, n) == SectorsFrom(k, Decrypt, dev, 0, n)[at..to]
  {
    hide SectorsFrom, Times;
    var at, to := Times(p, n), Times(p, n) + Times(m, n);
    ThreeParts(k, dev[..at], dev[at..to], dev[to..], p, m, n);
    assert dev == dev[..at] + dev[at..to] + dev[to..];
  }

  class CryptDi {
    const n: nat             // blocks a physical sector
    const lratio: nat        // physical sectors a logical sector
    const psectors: nat
    const key: Key
    var dev: seq<Block>

    constructor (n: nat, lratio: nat, psectors: nat, key: Key, dev: seq<Block>)
      requires 0 < n && 0 < lratio && key.Valid() && |dev| == Times(psectors, n)
      ensures Valid() && this.n == n && this.lratio == lratio && this.psectors == psectors && this.key == key
        && this.dev == dev
    {
      this.n, this.lratio, this.psectors, this.key, this.dev := n, lratio, psectors, key, dev;
    }

    ghost predicate Valid()
      reads this
    {
      0 < n && 0 < lratio && key.Valid() && |dev| == Times(psectors, n)
    }

    /** What the users of the device see: everything but physical sector 0 decrypted. */
    ghost function View(): (r: seq<Block>)
      requires Valid()
      reads this
      ensures |r| == |dev|
    {
      SectorsFrom(key, Decrypt, dev, 0, n)
    }

    /** The transfer of the driver below, for `count` physical sectors. */
    method Rwabs(write: bool, buf: array<Block>, count: nat, rec: nat) returns (r: int)
      requires Valid() && Times(count, n) <= buf.Length
      modifies this`dev, buf
      ensures Valid()
      ensures r == if count == 0 || Times(rec, lratio) + count > psectors then ESECTOR else E_OK
      ensures r != E_OK ==> dev == old(dev) && buf[..] == old(buf[..])
      ensures var at, len := Times(Times(rec, lratio), n), Times(count, n);
        r == E_OK ==>
          && at + len <= |dev|
          && (write ==> buf[..] == old(buf[..]) && dev == Over(old(dev), at, old(buf[..len])))
          && (!write ==> dev == old(dev) && buf[..] == Over(old(buf[..]), 0, dev[at..at + len]))
    {
      hide Times, Over;
      var p := Times(rec, lratio);
      if count == 0 || p + count > psectors {
        return ESECTOR;
      }
      TimesAdd(p, count, n);
      TimesMono(p + count, psectors, n);
      var at, len := Times(p, n), Times(count, n);
      if write {
        PutOver(dev, at, buf[..len]);
        dev := Over(dev, at, buf[..len]);
      } else {
        ghost var b0 := buf[..];
        forall j | 0 <= j < len {
          buf[j] := dev[at + j];
        }
        SameBlocks(buf[..], b0, 0, dev[at..at + len]);
      }
      return E_OK;
    }

    lemma PutOver(b: seq<Block>, at: nat, x: seq<Block>)
      requires at + |x| <= |b|
      ensures |Over(b, at, x)| == |b|
    {
    }

    /** rwabs_crypto: a write leaves in the buffer what it found there, unless it fails; then the
        buffer holds what was to be written. */
    method RwabsCrypto(write: bool, buf: array<Block>, count: nat, rec: nat) returns (r: int)
      requires Valid() && 0 < count && Times(count, n) <= buf.Length
      modifies this`dev, buf
      ensures Valid()
      ensures r == if Times(rec, lratio) + count > psectors then ESECTOR else E_OK
      ensures var at, len := Times(Times(rec, lratio), n), Times(count, n);
        && (r == E_OK && write ==>
          buf[..] == old(buf[..]) && at + len <= |dev| && View() == Over(old(View()), at, old(buf[..len])))
        && (r == E_OK && !write ==>
          dev == old(dev) && at + len <= |dev| && buf[..] == Over(old(buf[..]), 0, View()[at..at + len]))
        && (r == E_OK && write ==>
          dev == Over(old(dev), at, SectorsFrom(key, Encrypt, old(buf[..len]), Times(rec, lratio), n)))
        && (r != E_OK ==> dev == old(dev))
        && (r != E_OK && !write ==> buf[..] == old(buf[..]))
        && (r != E_OK && write ==>
              buf[..] == Over(old(buf[..]), 0, SectorsFrom(key, Encrypt, old(buf[..len]), Times(rec, lratio), n)))
      ensures var p, len := Times(rec, lratio), Times(count, n);
        var at := Times(p, n);
        && (r == E_OK && write ==> Ciphered(key, old(buf[..len]), dev[at..at + len], p, n))
        && (r == E_OK && !write ==> Deciphered(key, dev[at..at + len], buf[..len], p, n))
        && (r != E_OK && write ==> Ciphered(key, old(buf[..len]), buf[..len], p, n))
    {
      hide *;
      var p := Times(rec, lratio);
      var len := Times(count, n);
      RangeFacts(rec, count);
      ghost var b0 := buf[..];
      OnDisk(b0, p, len, count);
      var from, size, crec := 0, len, p;
      if rec == 0 {
        from, size, crec := n, len - n, crec + 1;
        if size == 0 {
          FirstOnly(b0, len, count);
          r := Rwabs(write, buf, count, rec);
          ViewIs();
          return;
        }
      }
      if write {
        CryptPart(Encrypt, buf, from, size, crec, len, p);
        OverFront(b0, SectorsFrom(key, Encrypt, b0[..len], p, n));
      }
      WriteMeans(b0, p, len, count);
      ReadMeans(b0, p, len, count);
      r := Rwabs(write, buf, count, rec);
      if r == E_OK {
        CryptPart(Decrypt, buf, from, size, crec, len, p);
      }
      ViewIs();
    }

    /** What is on the disk and in the buffer, block by block. */
    lemma OnDisk(b0: seq<Block>, p: nat, len: nat, count: nat)
      requires Valid() && len == Times(count, n) <= |b0|
      ensures var y := SectorsFrom(key, Encrypt, b0[..len], p, n);
        && Over(b0, 0, y)[..len] == y && Ciphered(key, b0[..len], y, p, n)
      ensures var at := Times(p, n);
        at + len <= |dev| ==>
          var y := SectorsFrom(key, Encrypt, b0[..len], p, n);
          && |View()| == |dev| && Over(dev, at, y)[at..at + len] == y
          && Deciphered(key, dev[at..at + len], Over(b0, 0, View()[at..at + len])[..len], p, n)
    {
      hide SectorsFrom, Times, Ciphered, Deciphered;
      var at := Times(p, n);
      FromAt(key, b0[..len], p, n);
      if at + len <= |dev| {
        FromAt(key, dev[at..at + len], p, n);
        MeaningOfRange(key, dev, p, count, n);
        assert Over(b0, 0, View()[at..at + len])[..len] == View()[at..at + len];
      }
    }

    lemma ViewIs()
      requires Valid()
      ensures key.Valid() && 0 < n && View() == SectorsFrom(key, Decrypt, dev, 0, n)
    {
    }

    lemma RangeFacts(rec: nat, count: nat)
      requires Valid() && 0 < count
      ensures key.Valid() && 0 < n && (rec == 0 <==> Times(rec, lratio) == 0) && n <= Times(count, n)
      ensures Times(rec, lratio) + count <= psectors ==> Times(Times(rec, lratio), n) + Times(count, n) <= |dev|
      ensures rec == 0 ==> Times(0, n) == 0
    {
      if rec > 0 {
        TimesMono(1, rec, lratio);
        TimesOne(1, lratio);
      }
      TimesMono(1, count, n);
      TimesOne(1, n);
      if Times(rec, lratio) + count <= psectors {
        TimesAdd(Times(rec, lratio), count, n);
        TimesMono(Times(rec, lratio) + count, psectors, n);
      }
    }

    /** A transfer of physical sector 0 alone is not crypted at all. */
    lemma FirstOnly(b0: seq<Block>, len: nat, count: nat)
      requires Valid() && len == n == Times(count, n) && len <= |b0| && 0 < count
      ensures SectorsFrom(key, Encrypt, b0[..len], 0, n) == b0[..len] && Times(0, n) == 0
        && Over(b0, 0, b0[..len]) == b0
      ensures len <= |dev| ==>
        |View()| == |dev| && Over(View(), 0, b0[..len]) == SectorsFrom(key, Decrypt, Over(dev, 0, b0[..len]), 0, n)
      ensures len <= |dev| ==> View()[0..len] == dev[0..len]
    {
      hide Sectors;
      if len <= |dev| {
        MeaningOfWrite(key, dev, 0, b0[..len], count, n);
      }
    }

    lemma OverFront(b: seq<Block>, x: seq<Block>)
      requires |x| <= |b|
      ensures |Over(b, 0, x)| == |b| && Over(b, 0, x)[..|x|] == x
    {
    }

    /** The blocks that crypt_block is given: all of them, or all but the first sector's. */
    method CryptPart(op: Op, buf: array<Block>, from: nat, size: nat, crec: nat, ghost len: nat, ghost p: nat)
      requires Valid() && n <= len <= buf.Length
      requires (from, size, crec) == if p == 0 then (n, len - n, 1) else (0, len, p)
      modifies buf
      ensures buf[..] == Over(old(buf[..]), 0, SectorsFrom(key, op, old(buf[..len]), p, n))
    {
      hide *;
      ghost var b0 := buf[..];
      PartOver(op, b0, from, size, crec, len, p);
      CryptBlock(key, op, buf, from, size, crec, n);
    }

    lemma PartOver(op: Op, b0: seq<Block>, from: nat, size: nat, crec: nat, len: nat, p: nat)
      requires Valid() && n <= len <= |b0|
      requires (from, size, crec) == if p == 0 then (n, len - n, 1) else (0, len, p)
      ensures key.Valid() && 0 < n
      ensures Over(b0, from, Sectors(key, op, b0[from..from + size], crec, n))
           == Over(b0, 0, SectorsFrom(key, op, b0[..len], p, n))
    {
      hide Sectors, Key.Valid;
      ghost var s := b0[..len];
      if p == 0 {
        assert b0[from..from + size] == s[n..];
        NoneLeft(op, n);
        FromFirst(op, s);
      } else {
        assert b0[from..from + size] == s;
      }
    }

    lemma FromFirst(op: Op, s: seq<Block>)
      requires Valid() && n <= |s|
      ensures SectorsFrom(key, op, s, 0, n) == s[..n] + Sectors(key, op, s[n..], 1, n)
    {
      hide Sectors;
      if |s| == n {
        NoneLeft(op, n);
        assert s[..n] == s && s[n..] == [];
      }
    }

    lemma NoneLeft(op: Op, m: nat)
      requires Valid() && m == n
      ensures Sectors(key, op, [], 1, n) == []
    {
    }

    /** The effect of transferring the encrypted buffer, and of decrypting it afterwards. */
    lemma WriteMeans(b0: seq<Block>, p: nat, len: nat, count: nat)
      requires Valid() && 0 < count && len == Times(count, n) <= |b0|
      ensures var y := SectorsFrom(key, Encrypt, b0[..len], p, n);
        && Over(Over(b0, 0, y), 0, SectorsFrom(key, Decrypt, y, p, n)) == b0
        && (Times(p, n) + len <= |dev| ==>
              SectorsFrom(key, Decrypt, Over(dev, Times(p, n), y), 0, n) == Over(View(), Times(p, n), b0[..len]))
    {
      hide SectorsFrom, Times;
      FromUndone(key, b0[..len], p, n);
      if Times(p, n) + len <= |dev| {
        MeaningOfWrite(key, dev, p, b0[..len], count, n);
      }
    }

    lemma ReadMeans(b0: seq<Block>, p: nat, len: nat, count: nat)
      requires Valid() && 0 < count && len == Times(count, n) <= |b0|
      ensures Times(p, n) + len <= |dev| ==>
        var x := dev[Times(p, n)..Times(p, n) + len];
        && Over(b0, 0, x)[..len] == x && |View()| == |dev|
        && Over(Over(b0, 0, x), 0, SectorsFrom(key, Decrypt, x, p, n))
          == Over(b0, 0, View()[Times(p, n)..Times(p, n) + len])
    {
      hide SectorsFrom, Times;
      if Times(p, n) + len <= |dev| {
        MeaningOfRange(key, dev, p, count, n);
      }
    }
  }
}
