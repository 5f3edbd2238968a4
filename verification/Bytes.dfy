/** Little-endian integers (tegrasign_v3_util.py) and fixed-width fields (Python's struct module). */
module Bytes {
  import opened Options

  type byte = i: int | 0 <= i < 256

  function Pow256(n: nat): (r: nat)
    ensures r >= 1
  {
    if n == 0 then 1 else 256 * Pow256(n - 1)
  }

  /** The n low-order bytes of v, least significant first. Like Python's & and >>, / and % round down. */
  function Le(n: nat, v: int): (s: seq<byte>)
    ensures |s| == n
  {
    if n == 0 then [] else [v % 256] + Le(n - 1, v / 256)
  }

  function LeValue(s: seq<byte>): (v: nat)
    ensures v < Pow256(|s|)
  {
    if s == [] then 0 else s[0] + 256 * LeValue(s[1..])
  }

  lemma ModUnique(v: int, m: int, a: int, r: int)
    requires 0 <= r < m && v == m * a + r
    ensures v % m == r
  {
    assert v == m * (v / m) + v % m;
    var d := a - v / m;
    assert m * d == v % m - r by {
      assert m * d == m * a - m * (v / m);
    }
    if d >= 1 {
      ScaleUp(m, d);
    } else if d <= -1 {
      ScaleUp(m, -d);
    }
  }

  lemma ScaleUp(m: int, d: int)
    requires m > 0 && d >= 1
    ensures m * d >= m
  {
  }

  lemma Scale256(p: int, a: int, b: int)
    ensures 256 * (p * a + b) == (256 * p) * a + 256 * b
  {
  }

  lemma ModStep(v: int, p: int)
    requires p > 0
    ensures v % (256 * p) == v % 256 + 256 * ((v / 256) % p)
  {
    var q := v / 256;
    var a, b := q / p, q % p;
    assert q == p * a + b;
    Scale256(p, a, b);
    ModUnique(v, 256 * p, a, 256 * b + v % 256);
  }

  /** Decoding int_2bytes(n, v) gives v modulo 256^n, for negative v as well. */
  lemma {:induction false} LeRoundTrip(n: nat, v: int)
    ensures LeValue(Le(n, v)) == v % Pow256(n)
  {
    if n > 0 {
      LeRoundTrip(n - 1, v / 256);
      assert Le(n, v)[1..] == Le(n - 1, v / 256);
      ModStep(v, Pow256(n - 1));
    }
  }

  /** A value that fits in n bytes survives. */
  lemma LeFits(n: nat, v: nat)
    requires v < Pow256(n)
    ensures LeValue(Le(n, v)) == v
  {
    LeRoundTrip(n, v);
  }

  lemma Pow256Four()
    ensures Pow256(4) == 0x1_0000_0000
  {
    assert Pow256(3) == 256 * Pow256(2);
    assert Pow256(2) == 256 * Pow256(1);
  }

  /** int_2bytes: fills a byte array in place. bytearray(n) or arr[n-1] raises when n < 1. */
  method Int2Bytes(n: int, val: int) returns (r: Option<seq<byte>>)
    ensures n < 1 ==> r == None
    ensures n >= 1 ==> r == Some(Le(n, val))
  {
    if n < 1 {
      return None;
    }
    var arr := new byte[n];
    var v := val;
    var i := 0;
    while i < n - 1
      invariant 0 <= i <= n - 1
      invariant arr[..i] + Le(n - i, v) == Le(n, val)
    {
      assert Le(n - i, v) == [v % 256] + Le(n - i - 1, v / 256);
      ghost var done := arr[..i];
      arr[i] := v % 256;
      assert arr[..i + 1] == done + [v % 256];
      v := v / 256;
      i := i + 1;
    }
    ghost var done := arr[..n - 1];
    arr[n - 1] := v % 256;
    assert arr[..] == done + [v % 256];
    assert Le(1, v) == [v % 256] + Le(0, v / 256) == [v % 256];
    r := Some(arr[..]);
  }

  function HexDigit(d: nat): char
    requires d < 16
  {
    "0123456789abcdef"[d]
  }

  function HexDigits(v: nat): (s: string)
    ensures |s| >= 1
  {
    if v < 16 then [HexDigit(v)] else HexDigits(v / 16) + [HexDigit(v % 16)]
  }

  /** Python's hex(v). */
  function Hex(v: int): (s: string)
    ensures |s| >= 3
  {
    if v >= 0 then "0x" + HexDigits(v) else "-0x" + HexDigits(-v)
  }

  function Pow16(n: nat): (r: nat)
    ensures r >= 1
  {
    if n == 0 then 1 else 16 * Pow16(n - 1)
  }

  lemma {:induction false} HexLength(v: nat)
    ensures v < Pow16(|HexDigits(v)|)
    ensures |HexDigits(v)| > 1 ==> Pow16(|HexDigits(v)| - 1) <= v
  {
    if v >= 16 {
      HexLength(v / 16);
    } else {
      assert Pow16(1) == 16 * Pow16(0);
    }
  }

  lemma {:induction false} Pow16Even(n: nat)
    ensures Pow16(2 * n) == Pow256(n)
  {
    if n > 0 {
      Pow16Even(n - 1);
      assert Pow16(2 * n) == 16 * Pow16(2 * n - 1) == 16 * (16 * Pow16(2 * n - 2));
    }
  }

  /** n bytes are enough for v, and one less is too few. */
  ghost predicate IsByteCount(n: nat, v: nat)
  {
    n >= 1 && v < Pow256(n) && (n == 1 || Pow256(n - 1) <= v)
  }

  lemma {:induction false} Pow256Monotone(m: nat, n: nat)
    requires m <= n
    ensures Pow256(m) <= Pow256(n)
  {
    if m < n {
      Pow256Monotone(m, n - 1);
    }
  }

  /** A byte count is the least one. */
  lemma NoneBelow(n: nat, v: nat)
    requires IsByteCount(n, v)
    ensures forall m: nat | 1 <= m < n :: Pow256(m) <= v
  {
    forall m: nat | 1 <= m < n
      ensures Pow256(m) <= v
    {
      Pow256Monotone(m, n - 1);
    }
  }

  function ByteCnt(v: nat): (n: nat)
    ensures IsByteCount(n, v)
  {
    var c := |HexDigits(v)|;
    HexLength(v);
    Pow16Even((c + 1) / 2);
    Pow16Even((c - 1) / 2);
    (c + 1) / 2
  }

  /**
   * int_2byte_cnt, truncated to an integer as all its users do. A negative value counts its
   * minus sign as a digit. The result is the least n >= 1 with val < 256^n.
   */
  method Int2ByteCnt(val: int) returns (n: nat)
    ensures val >= 0 ==> n == ByteCnt(val)
    ensures val >= 0 ==> n >= 1 && val < Pow256(n) && forall m: nat | 1 <= m < n :: Pow256(m) <= val
    ensures val < 0 ==> n == |HexDigits(-val)| / 2 + 1
  {
    var h := Hex(val);
    var cnt := |h| - 2;
    if cnt % 2 == 0 {
      n := cnt / 2;
    } else {
      n := cnt / 2 + 1;
    }
    if val >= 0 {
      assert n == ByteCnt(val);
      NoneBelow(n, val);
    }
  }

  /** Encoding with the computed count loses nothing. */
  lemma ByteCntLossless(v: nat)
    ensures LeValue(Le(ByteCnt(v), v)) == v
  {
    LeFits(ByteCnt(v), v);
  }

  // ----- fixed-width fields

  function Zeros(n: nat): (s: seq<byte>)
    ensures |s| == n
  {
    seq(n, _ => 0)
  }

  /** struct's "ns": truncated to n bytes, or padded with NUL. */
  function Fixed(n: nat, s: seq<byte>): (r: seq<byte>)
    ensures |r| == n
  {
    if |s| >= n then s[..n] else s + Zeros(n - |s|)
  }

  /** A field byte by byte: the string, then zeros. */
  lemma FixedIs(n: nat, s: seq<byte>)
    ensures forall i | 0 <= i < n :: Fixed(n, s)[i] == if i < |s| then s[i] else 0
  {
  }

  predicate IsPad(b: byte)
  {
    b == 0x20 || b == 0x09 || b == 0x0a || b == 0x00
  }

  function StripLeft(s: seq<byte>): seq<byte>
  {
    if s != [] && IsPad(s[0]) then StripLeft(s[1..]) else s
  }

  function StripRight(s: seq<byte>): seq<byte>
  {
    if s != [] && IsPad(s[|s| - 1]) then StripRight(s[..|s| - 1]) else s
  }

  /** str.strip(' \t\n\0'). */
  function Strip(s: seq<byte>): seq<byte>
  {
    StripRight(StripLeft(s))
  }

  /** Neither end is a blank or NUL: exactly the strings that strip leaves alone (StripFixpoint). */
  predicate Trimmed(s: seq<byte>)
  {
    s == [] || (!IsPad(s[0]) && !IsPad(s[|s| - 1]))
  }

  lemma {:induction false} StripLeftLength(s: seq<byte>)
    ensures |StripLeft(s)| <= |s|
    ensures StripLeft(s) != [] ==> !IsPad(StripLeft(s)[0])
  {
    if s != [] && IsPad(s[0]) { StripLeftLength(s[1..]); }
  }

  lemma {:induction false} StripRightPrefix(s: seq<byte>)
    ensures StripRight(s) <= s
    ensures StripRight(s) != [] ==> !IsPad(StripRight(s)[|StripRight(s)| - 1])
  {
    if s != [] && IsPad(s[|s| - 1]) { StripRightPrefix(s[..|s| - 1]); }
  }

  lemma StripFixpoint(s: seq<byte>)
    ensures Trimmed(Strip(s))
    ensures Strip(s) == s <==> Trimmed(s)
  {
    StripLeftLength(s);
    StripRightPrefix(StripLeft(s));
  }

  lemma {:induction false} StripRightZeros(s: seq<byte>, n: nat)
    ensures StripRight(s + Zeros(n)) == StripRight(s)
  {
    if n == 0 {
      assert s + Zeros(0) == s;
    } else {
      assert (s + Zeros(n))[..|s| + n - 1] == s + Zeros(n - 1);
      StripRightZeros(s, n - 1);
    }
  }

  lemma {:induction false} StripPadded(s: seq<byte>, n: nat)
    ensures Strip(s + Zeros(n)) == Strip(s)
  {
    var z := Zeros(n);
    if s == [] {
      assert s + z == z;
      StripLeftZeros(n);
    } else if IsPad(s[0]) {
      assert (s + z)[1..] == s[1..] + z;
      StripPadded(s[1..], n);
    } else {
      assert StripLeft(s + z) == s + z;
      StripRightZeros(s, n);
    }
  }

  lemma {:induction false} StripLeftZeros(n: nat)
    ensures StripLeft(Zeros(n)) == []
  {
    if n > 0 {
      assert Zeros(n)[1..] == Zeros(n - 1);
      StripLeftZeros(n - 1);
    }
  }

  /** A field that fits its fixed width reads back as itself without its own outer blanks. */
  lemma StripFixed(n: nat, s: seq<byte>)
    requires |s| <= n
    ensures Strip(Fixed(n, s)) == Strip(s)
  {
    if |s| == n {
      assert Fixed(n, s) == s;
    } else {
      StripPadded(s, n - |s|);
    }
  }

  /** Blank, tab, line feed and NUL: what strip removes. */
  const PADDING: set<int> := {0x20, 0x09, 0x0a, 0x00}

  /** s[lo..hi] is s without the padding at both ends. */
  ghost predicate Core(s: seq<byte>, lo: nat, hi: nat)
  {
    && lo <= hi <= |s|
    && (forall i | 0 <= i < |s| && !(lo <= i < hi) :: s[i] in PADDING)
    && (lo < hi ==> s[lo] !in PADDING && s[hi - 1] !in PADDING)
  }

  lemma {:induction false} StripLeftIs(s: seq<byte>) returns (lo: nat)
    ensures lo <= |s| && StripLeft(s) == s[lo..]
    ensures (forall i | 0 <= i < lo :: s[i] in PADDING) && (lo < |s| ==> s[lo] !in PADDING)
  {
    if s != [] && IsPad(s[0]) {
      var rest := StripLeftIs(s[1..]);
      lo := rest + 1;
      assert forall i | 1 <= i < |s| :: s[i] == s[1..][i - 1];
    } else {
      lo := 0;
    }
  }

  lemma {:induction false} StripRightIs(s: seq<byte>) returns (hi: nat)
    ensures hi <= |s| && StripRight(s) == s[..hi]
    ensures (forall i | hi <= i < |s| :: s[i] in PADDING) && (hi > 0 ==> s[hi - 1] !in PADDING)
  {
    if s != [] && IsPad(s[|s| - 1]) {
      hi := StripRightIs(s[..|s| - 1]);
    } else {
      hi := |s|;
      assert s == s[..hi];
    }
  }

  /** strip takes away the padding at both ends, and nothing else. */
  lemma StripIs(s: seq<byte>) returns (lo: nat, hi: nat)
    ensures Core(s, lo, hi) && Strip(s) == s[lo..hi]
  {
    hide StripLeft;
    hide StripRight;
    lo := StripLeftIs(s);
    var t := s[lo..];
    var n := StripRightIs(t);
    hi := lo + n;
    forall i | hi <= i < |s|
      ensures s[i] in PADDING
    {
      assert s[i] == t[i - lo];
    }
    assert lo < hi ==> t[0] == s[lo] && t[n - 1] == s[hi - 1];
    assert t[..n] == s[lo..hi];
  }
}
