/** Bytes, the kernel's error numbers and two helpers shared by the models. */
module Machine {
  type byte = x: int | 0 <= x < 256

  /** A long of 32 bits, and the conversions to an unsigned long and back. */
  type long = x: int | -0x8000_0000 <= x < 0x8000_0000

  const ULONG := 0x1_0000_0000

  function Unsigned(x: long): (r: nat)
    ensures r < ULONG && (r - x) % ULONG == 0
  {
    if x < 0 then x + ULONG else x
  }

  function Signed(x: nat): (r: long)
    requires x < ULONG
    ensures Unsigned(r) == x
  {
    if x < 0x8000_0000 then x else x - ULONG
  }

  /** What a sum becomes in a long. */
  function Wrapped(x: int): (r: long)
    ensures r == x <==> -0x8000_0000 <= x < 0x8000_0000
  {
    Signed(x % ULONG)
  }

  const E_OK := 0
  const EERROR := -1
  const ESECTOR := -8
  const EWRITE := -10
  const EREAD := -11
  const EROFS := -13
  const EINVAL := -25
  const ENOSYS := -32
  const EACCES := -36
  const ENOMEM := -39
  const ELOCKED := -58
  const ENSLOCK := -59
  const EBADARG := -64
  const EINTR := -128
  const ETIMEDOUT := -320
  const EINPROGRESS := -325

  function Min(a: int, b: int): int {
    if a <= b then a else b
  }

  function Max(a: int, b: int): int {
    if a <= b then b else a
  }

  /** The product n * k, spelled as n additions so that proofs can use it one step at a time. */
  function Times(n: nat, k: nat): (r: nat)
    decreases n, k
  {
    if n == 0 then 0 else Times(n - 1, k) + k
  }

  lemma {:induction false} TimesIs(n: nat, k: nat)
    ensures Times(n, k) == n * k
  {
    if n > 0 {
      TimesIs(n - 1, k);
    }
  }

  lemma TimesOne(n: nat, k: nat)
    requires n == 1
    ensures Times(n, k) == k
  {
    assert Times(n - 1, k) == 0;
  }

  lemma TimesStep(n: nat, k: nat)
    ensures Times(n + 1, k) == Times(n, k) + k
  {
  }

  lemma {:induction false} TimesAdd(m: nat, n: nat, k: nat)
    ensures Times(m + n, k) == Times(m, k) + Times(n, k)
  {
    if n > 0 {
      TimesAdd(m, n - 1, k);
    }
  }

  lemma {:induction false} TimesTimes(m: nat, n: nat, k: nat)
    ensures Times(Times(m, n), k) == Times(m, Times(n, k))
  {
    if m > 0 {
      TimesTimes(m - 1, n, k);
      TimesAdd(Times(m - 1, n), n, k);
    }
  }

  lemma {:induction false} TimesMono(m: nat, n: nat, k: nat)
    requires m <= n
    ensures Times(m, k) <= Times(n, k)
    ensures m < n ==> Times(m, k) + k <= Times(n, k)
  {
    if m < n {
      TimesMono(m, n - 1, k);
    }
  }

  lemma {:induction false} TimesTwice(n: nat, k: nat)
    ensures Times(n, 2 * k) == 2 * Times(n, k)
  {
    if n > 0 {
      TimesTwice(n - 1, k);
    }
  }

  method DivMod(a: nat, b: nat) returns (q: nat, r: nat)
    requires 0 < b
    ensures q == a / b && r == a % b
    ensures a == Times(q, b) + r && r < b
  {
    q, r := a / b, a % b;
    TimesIs(q, b);
  }

  lemma RemainderIs(c: nat, e: nat)
    requires 0 < e
    ensures c % e == c - Times(c / e, e)
  {
    TimesIs(c / e, e);
  }

  /** The quotient names the multiple of e just below. */
  lemma QuotientIs(q: nat, c: nat, e: nat)
    requires 0 < e
    ensures Times(q, e) <= c < Times(q, e) + e <==> c / e == q
  {
    var q' := c / e;
    TimesIs(q', e);
    if q < q' {
      TimesMono(q, q', e);
    } else if q' < q {
      TimesMono(q', q, e);
    }
  }

  lemma {:induction false} TimesMod(n: nat, e: nat)
    requires 0 < e
    ensures Times(n, e) % e == 0
  {
    if n > 0 {
      TimesMod(n - 1, e);
      AddMod(Times(n - 1, e), e);
    }
  }

  lemma AddMod(c: nat, e: nat)
    requires 0 < e && c % e == 0
    ensures (c + e) % e == 0
  {
    var q := c / e;
    assert c == e * q;
    assert c + e == e * (q + 1);
    TimesIs(q + 1, e);
    QuotientIs(q + 1, c + e, e);
  }

  /** b with x in the place of the bytes from at on. */
  function Splice(b: seq<byte>, at: nat, x: seq<byte>): (r: seq<byte>)
    requires at + |x| <= |b|
    ensures |r| == |b|
    ensures forall j :: 0 <= j < |b| ==> r[j] == if at <= j < at + |x| then x[j - at] else b[j]
  {
    b[..at] + x + b[at + |x|..]
  }

  lemma SpliceNone(b: seq<byte>, at: nat)
    requires at <= |b|
    ensures Splice(b, at, []) == b
  {
    assert b[..at] + b[at..] == b;
  }

  lemma SpliceJoin(b: seq<byte>, at: nat, x: seq<byte>, d: nat, e: nat)
    requires d <= e <= |x| && at + e <= |b|
    ensures Splice(Splice(b, at, x[..d]), at + d, x[d..e]) == Splice(b, at, x[..e])
  {
  }

  lemma SliceOfSlice(v: seq<byte>, at: nat, n: nat, d: nat, e: nat)
    requires at + n <= |v| && d <= e <= n
    ensures v[at..at + n][d..e] == v[at + d..at + e]
  {
    var x := v[at..at + n];
    forall j | 0 <= j < e - d
      ensures x[d..e][j] == v[at + d..at + e][j]
    {
      assert x[d + j] == v[at + d + j];
    }
  }

  /** q without its k-th element. */
  lemma RemovedAt<T>(q: seq<T>, k: nat) returns (w: seq<T>)
    requires k < |q|
    ensures w == q[..k] + q[k + 1..] && |w| == |q| - 1
    ensures (forall i :: 0 <= i < k ==> w[i] == q[i]) && forall i :: k <= i < |w| ==> w[i] == q[i + 1]
  {
    w := q[..k] + q[k + 1..];
  }
}
