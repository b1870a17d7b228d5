/**
  Short names: eight characters and three in a directory entry, filled up with spaces, against the
  name with a dot that is printed. The code is compiled with signed characters.
 */
module ShortNames {
  import opened Machine

  const SPACE: byte := 0x20
  const DOT: byte := 0x2e

  function Signed(c: byte): int {
    if c < 0x80 then c else c - 0x100
  }

  /** s up to its first space. */
  function Trim(s: seq<byte>): (r: seq<byte>)
    ensures r <= s && SPACE !in r && (|r| < |s| ==> s[|r|] == SPACE)
  {
    if s == [] || s[0] == SPACE then [] else [s[0]] + Trim(s[1..])
  }

  /** s filled up with spaces. */
  function Filled(s: seq<byte>, n: nat): (r: seq<byte>)
    requires |s| <= n
    ensures |r| == n && s <= r && forall j :: |s| <= j < n ==> r[j] == SPACE
  {
    s + seq(n - |s|, _ => SPACE)
  }

  /** Where the part in front of the dot ends: at a dot, at the end, or after eight characters. */
  function BaseEnd(s: seq<byte>, n: nat): (k: nat)
    ensures k <= n && k <= |s| && DOT !in s[..k] && (k < n && k < |s| ==> s[k] == DOT)
  {
    if n == 0 || s == [] || s[0] == DOT then 0 else 1 + BaseEnd(s[1..], n - 1)
  }

  function Printed(e: seq<byte>): seq<byte>
    requires |e| == 11
  {
    Trim(e[..8]) + if Signed(e[8]) > 0x20 then [DOT] + Trim(e[8..]) else []
  }

  function Entered(s: seq<byte>): (e: seq<byte>)
    ensures |e| == 11
  {
    if s == [DOT] || s == [DOT, DOT] then Filled(s, 11) else
    var k := BaseEnd(s, 8);
    var rest := if k < |s| && s[k] == DOT then s[k + 1..] else s[k..];
    Filled(s[..k], 8) + Filled(rest[..Min(3, |rest|)], 3)
  }

  /** The loop of dir2str, which it has once for each part: at most n characters, up to a space. */
  method CopyPart(src: seq<byte>, at: nat, n: nat) returns (part: seq<byte>, left: nat)
    requires at + n <= |src|
    ensures part == Trim(src[at..at + n]) && |part| + left == n
  {
    hide Trim;
    part, left := [], n;
    while left > 0 && src[at + n - left] != SPACE
      invariant left <= n && |part| == n - left
      invariant Trim(src[at..at + n]) == part + Trim(src[at + n - left..at + n])
    {
      ghost var s := src[at + n - left..at + n];
      TrimStep(s);
      assert s[1..] == src[at + n - (left - 1)..at + n];
      part := part + [src[at + n - left]];
      left := left - 1;
    }
    TrimStep(src[at + n - left..at + n]);
  }

  lemma TrimStep(s: seq<byte>)
    ensures Trim(s) == if s == [] || s[0] == SPACE then [] else [s[0]] + Trim(s[1..])
  {
  }

  /** dir2str */
  method Dir2Str(src: seq<byte>) returns (nm: seq<byte>)
    requires |src| == 11
    ensures nm == Printed(src)
  {
    var part, left := CopyPart(src, 0, 8);
    nm := part;
    var at := |part| + left;
    if Signed(src[at]) > 0x20 {
      part, left := CopyPart(src, at, 3);
      nm := nm + [DOT] + part;
      assert src[8..11] == src[8..];
    }
  }

  /** str2dir, for a name without NUL inside */
  method Str2Dir(src: seq<byte>) returns (nm: seq<byte>)
    ensures nm == Entered(src)
  {
    if |src| == 1 && src[0] == DOT {
      assert src == [DOT];
      nm := src + seq(10, _ => SPACE);
      return;
    }
    if |src| == 2 && src[0] == DOT && src[1] == DOT {
      assert src == [DOT, DOT];
      nm := src + seq(9, _ => SPACE);
      return;
    }
    nm := [];
    var at, i := 0, 8;
    ghost var k := BaseEnd(src, 8);
    while i > 0
      invariant 0 <= i <= 8 && |nm| == 8 - i && at == Min(k, 8 - i)
      invariant src[..at] <= nm && forall j :: at <= j < |nm| ==> nm[j] == SPACE
    {
      if at < |src| && src[at] != DOT {
        nm := nm + [src[at]];
        at := at + 1;
      } else {
        nm := nm + [SPACE];
      }
      i := i - 1;
    }
    assert nm == Filled(src[..k], 8);
    if at < |src| && src[at] == DOT {
      at := at + 1;
    }
    nm := EnterExtension(src, at, nm);
  }

  /** The second loop of str2dir: the extension. */
  method EnterExtension(src: seq<byte>, at0: nat, base: seq<byte>) returns (nm: seq<byte>)
    requires at0 <= |src|
    ensures nm == base + Filled(src[at0..][..Min(3, |src| - at0)], 3)
  {
    nm := base;
    var at, i := at0, 3;
    while i > 0
      invariant 0 <= i <= 3 && at == at0 + Min(3 - i, |src| - at0) && |nm| == |base| + 3 - i && base <= nm
      invariant forall j :: |base| <= j < |nm| ==>
        nm[j] == if at0 + j - |base| < |src| then src[at0 + j - |base|] else SPACE
    {
      if at < |src| {
        nm := nm + [src[at]];
        at := at + 1;
      } else {
        nm := nm + [SPACE];
      }
      i := i - 1;
    }
    assert nm[|base|..] == Filled(src[at0..][..Min(3, |src| - at0)], 3);
  }

  /** A name as it stands in an entry: a base of one character at least, and spaces only behind the
      two parts. */
  ghost predicate Canonical(e: seq<byte>) {
    && |e| == 11 && e[0] != SPACE && DOT !in e[..8]
    && e[..8] == Filled(Trim(e[..8]), 8) && e[8..] == Filled(Trim(e[8..]), 3)
  }

  lemma {:induction false} BaseIs(b: seq<byte>, t: seq<byte>, n: nat)
    requires DOT !in b && |b| <= n && (t == [] || t[0] == DOT)
    ensures BaseEnd(b + t, n) == |b|
  {
    if b != [] {
      assert (b + t)[0] == b[0] && (b + t)[1..] == b[1..] + t;
      BaseIs(b[1..], t, n - 1);
    } else {
      assert b + t == t;
    }
  }

  /** A name that is printed and entered again comes out the same exactly if its extension is printed:
      one that begins with a character above 0x7f is not, because the character counts as negative. */
  lemma PrintedThenEntered(e: seq<byte>)
    requires Canonical(e)
    ensures Entered(Printed(e)) == e <==> Trim(e[8..]) == [] || 0x20 < e[8] < 0x80
  {
    var b, x := Trim(e[..8]), Trim(e[8..]);
    var t := if Signed(e[8]) > 0x20 then [DOT] + x else [];
    var s := b + t;
    assert s == Printed(e) && b[0] == e[0] && b[0] in e[..8];
    BaseIs(b, t, 8);
    assert s[..|b|] == b && s[|b|..] == t;
    if t != [] {
      assert s[|b| + 1..] == x && x[..Min(3, |x|)] == x;
    } else {
      assert Entered(s)[8..] == Filled([], 3);
    }
    assert e == e[..8] + e[8..];
    assert x != [] ==> e[8] == x[0] != SPACE;
  }

  /** The printed name loses such an extension: with e-acute (0x82) as its only character, say. */
  lemma ExtensionLost()
    ensures var e := Filled([0x41], 8) + Filled([0x82], 3);
      Canonical(e) && Printed(e) == [0x41] && Entered(Printed(e)) != e
  {
    var e := Filled([0x41], 8) + Filled([0x82], 3);
    assert e[..8] == Filled([0x41], 8) && e[8..] == Filled([0x82], 3);
    TrimFilled([0x41], 8);
    TrimFilled([0x82], 3);
    PrintedThenEntered(e);
  }

  lemma {:induction false} TrimFilled(s: seq<byte>, n: nat)
    requires |s| <= n && SPACE !in s
    ensures Trim(Filled(s, n)) == s
  {
    if s != [] {
      assert Filled(s, n)[1..] == Filled(s[1..], n - 1);
      TrimFilled(s[1..], n - 1);
    }
  }

  /** A name that is entered and printed again comes out the same, on the same condition. */
  lemma EnteredThenPrinted(b: seq<byte>, x: seq<byte>)
    requires 1 <= |b| <= 8 && |x| <= 3 && SPACE !in b && SPACE !in x && DOT !in b
    ensures var s := if x == [] then b else b + [DOT] + x;
      Printed(Entered(s)) == s <==> x == [] || 0x20 < x[0] < 0x80
  {
    var t := if x == [] then [] else [DOT] + x;
    var s := b + t;
    assert b[0] in b && s[0] == b[0] && s == if x == [] then b else b + [DOT] + x;
    BaseIs(b, t, 8);
    var e := Entered(s);
    assert s[..|b|] == b && s[|b|..] == t;
    assert x != [] ==> s[|b| + 1..] == x && x[..Min(3, |x|)] == x;
    assert e[..8] == Filled(b, 8) && e[8..] == Filled(x, 3);
    TrimFilled(b, 8);
    TrimFilled(x, 3);
    assert x != [] ==> e[8] == x[0] && x[0] in x;
  }

  /** "A.B" in both forms. */
  lemma DotBetween()
    ensures Entered([0x41, 0x2e, 0x42]) == [0x41, 0x20, 0x20, 0x20, 0x20, 0x20, 0x20, 0x20, 0x42, 0x20, 0x20]
    ensures Printed(Entered([0x41, 0x2e, 0x42])) == [0x41, 0x2e, 0x42]
  {
    hide Trim, BaseEnd;
    BaseIs([0x41], [DOT, 0x42], 8);
    var nm := [0x41, DOT, 0x42];
    assert [0x41] + [DOT, 0x42] == nm && nm[..1] == [0x41] && nm[2..] == [0x42] && [0x42][..1] == [0x42];
    EnteredThenPrinted([0x41], [0x42]);
    assert [0x41] + [DOT] + [0x42] == nm;
  }

  /** The entry for "..". */
  lemma DotDot()
    ensures Entered([0x2e, 0x2e]) == [0x2e, 0x2e, 0x20, 0x20, 0x20, 0x20, 0x20, 0x20, 0x20, 0x20, 0x20]
  {
  }
}
