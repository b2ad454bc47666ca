/** Bytes, fixed-width little-endian integers, and the UTF-8 validity predicate. */
module Bytes {

  type byte = n: int | 0 <= n < 256

  const U32_LIMIT: nat := 0x1_0000_0000
  const U64_LIMIT: nat := 0x1_0000_0000_0000_0000

  type u32 = n: int | 0 <= n < 0x1_0000_0000
  type u64 = n: int | 0 <= n < 0x1_0000_0000_0000_0000
  type i64 = n: int | -0x8000_0000_0000_0000 <= n < 0x8000_0000_0000_0000

  /** The low `width` bytes of `n`, least significant first. */
  function LE(n: nat, width: nat): (s: seq<byte>)
    ensures |s| == width
  {
    if width == 0 then [] else [n % 256] + LE(n / 256, width - 1)
  }

  /** The number a little-endian byte string denotes. */
  function FromLE(s: seq<byte>): nat {
    if s == [] then 0 else s[0] + 256 * FromLE(s[1..])
  }

  function Pow256(k: nat): (p: nat)
    ensures p > 0
  {
    if k == 0 then 1 else 256 * Pow256(k - 1)
  }

  lemma Pow256Widths()
    ensures Pow256(4) == U32_LIMIT && Pow256(8) == U64_LIMIT
  {
    assert Pow256(2) == 65536;
    assert Pow256(4) == U32_LIMIT;
    assert Pow256(6) == 0x1_0000_0000_0000;
  }

  lemma {:induction false} FromLEOfLE(n: nat, width: nat)
    requires n < Pow256(width)
    ensures FromLE(LE(n, width)) == n
  {
    if width > 0 {
      FromLEOfLE(n / 256, width - 1);
      assert LE(n, width)[1..] == LE(n / 256, width - 1);
    }
  }

  lemma {:induction false} LEOfFromLE(s: seq<byte>)
    ensures FromLE(s) < Pow256(|s|)
    ensures LE(FromLE(s), |s|) == s
  {
    if s != [] {
      LEOfFromLE(s[1..]);
      assert FromLE(s) / 256 == FromLE(s[1..]) && FromLE(s) % 256 == s[0];
      assert [s[0]] + s[1..] == s;
    }
  }

  lemma LE32RoundTrip(n: nat)
    requires n < U32_LIMIT
    ensures FromLE(LE(n, 4)) == n
  {
    Pow256Widths();
    FromLEOfLE(n, 4);
  }

  lemma LE64RoundTrip(n: nat)
    requires n < U64_LIMIT
    ensures FromLE(LE(n, 8)) == n
  {
    Pow256Widths();
    FromLEOfLE(n, 8);
  }

  /** Least significant byte first. */
  lemma {:induction false} LEAt(n: nat, width: nat, i: nat)
    requires i < width
    ensures LE(n, width)[i] == n / Pow256(i) % 256
    decreases width
  {
    if i > 0 {
      LEAt(n / 256, width - 1, i - 1);
      DivideTwice(n, 256, Pow256(i - 1));
    }
  }

  lemma DivideTwice(n: nat, a: nat, b: nat)
    requires a > 0 && b > 0
    ensures a * b > 0 && n / a / b == n / (a * b)
  {
    var q, r := n / a / b, n / a % b;
    assert n / a == q * b + r;
    assert n == (q * b + r) * a + n % a;
    assert n == q * (a * b) + (r * a + n % a);
    assert r * a + n % a < a * b by {
      assert (r + 1) * a <= b * a;
    }
    QuotientIs(n, a * b, q, r * a + n % a);
  }

  lemma QuotientIs(n: int, d: int, q: int, r: int)
    requires d > 0 && n == q * d + r && 0 <= r < d
    ensures n / d == q
  {
    TimesOrder(n / d + 1, q, d);
    TimesOrder(q + 1, n / d, d);
  }

  lemma TimesOrder(a: int, b: int, d: int)
    requires d > 0
    ensures a <= b ==> a * d <= b * d
  {
    if a <= b {
      assert (b - a) * d >= 0;
    }
  }

  lemma LE4(n: nat)
    requires n < U32_LIMIT
    ensures LE(n, 4) == [n % 256, n / 256 % 256, n / 0x1_0000 % 256, n / 0x100_0000]
  {
    assert Pow256(0) == 1 && Pow256(1) == 256 && Pow256(2) == 0x1_0000 && Pow256(3) == 0x100_0000;
    LEAt(n, 4, 0);
    LEAt(n, 4, 1);
    LEAt(n, 4, 2);
    LEAt(n, 4, 3);
    hide LE, Pow256;
    assert n / 0x100_0000 < 256;
    assert LE(n, 4) == [LE(n, 4)[0], LE(n, 4)[1], LE(n, 4)[2], LE(n, 4)[3]];
  }

  lemma FromLE32Bound(s: seq<byte>)
    requires |s| == 4
    ensures FromLE(s) < U32_LIMIT && LE(FromLE(s), 4) == s
  {
    Pow256Widths();
    LEOfFromLE(s);
  }

  lemma FromLE64Bound(s: seq<byte>)
    requires |s| == 8
    ensures FromLE(s) < U64_LIMIT && LE(FromLE(s), 8) == s
  {
    Pow256Widths();
    LEOfFromLE(s);
  }

  /** Two's complement reading of a 64-bit pattern, and back. */
  function ToSigned(n: u64): i64 {
    if n < 0x8000_0000_0000_0000 then n else n - U64_LIMIT
  }

  function ToUnsigned(n: i64): u64 {
    if n >= 0 then n else n + U64_LIMIT
  }

  /** A byte in the continuation range of a multi-byte UTF-8 sequence. */
  predicate Continuation(b: byte) { 0x80 <= b <= 0xBF }

  /** Length of the well-formed UTF-8 character at the front of `s`, 0 if none
      (the table of section 4 of RFC 3629). */
  function Utf8Width(s: seq<byte>): (k: nat)
    ensures k <= |s| && k <= 4
  {
    if |s| == 0 then 0
    else if s[0] <= 0x7F then 1
    else if |s| >= 2 && 0xC2 <= s[0] <= 0xDF && Continuation(s[1]) then 2
    else if |s| >= 3 && Continuation(s[2]) &&
            ((s[0] == 0xE0 && 0xA0 <= s[1] <= 0xBF) ||
             (0xE1 <= s[0] <= 0xEC && Continuation(s[1])) ||
             (s[0] == 0xED && 0x80 <= s[1] <= 0x9F) ||
             (0xEE <= s[0] <= 0xEF && Continuation(s[1]))) then 3
    else if |s| >= 4 && Continuation(s[2]) && Continuation(s[3]) &&
            ((s[0] == 0xF0 && 0x90 <= s[1] <= 0xBF) ||
             (0xF1 <= s[0] <= 0xF3 && Continuation(s[1])) ||
             (s[0] == 0xF4 && 0x80 <= s[1] <= 0x8F)) then 4
    else 0
  }

  /** What a Rust `str` guarantees of its bytes. */
  predicate ValidUtf8(s: seq<byte>)
    decreases |s|
  {
    s == [] || (Utf8Width(s) > 0 && ValidUtf8(s[Utf8Width(s)..]))
  }
}
