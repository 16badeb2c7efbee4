/** Bytes, Go strings as byte sequences, and fixed-width little-endian words. */
module Bytes {
  type byte = b: int | 0 <= b < 256

  type Str = seq<byte>

  type word32 = w: int | 0 <= w < 0x1_0000_0000

  const WORD: nat := 0x1_0000_0000_0000_0000

  type word64 = w: int | 0 <= w < WORD

  datatype Option<+T> = None | Some(value: T)

  function Pow(base: nat, n: nat): (p: nat)
    ensures base > 0 ==> p > 0
  {
    if n == 0 then 1 else base * Pow(base, n - 1)
  }

  /** The low `n` bytes of `v` in two's complement, least significant first:
      `byte(v), byte(v>>8), ...`. */
  function LittleEndian(v: int, n: nat): (s: Str)
    ensures |s| == n
    decreases n
  {
    if n == 0 then [] else [v % 256] + LittleEndian(v / 256, n - 1)
  }

  function LittleEndianValue(s: Str): nat {
    if s == [] then 0 else s[0] + 256 * LittleEndianValue(s[1..])
  }

  lemma MulBound(d: int, m: int)
    requires m > 0
    ensures d >= 1 ==> d * m >= m
    ensures d <= -1 ==> d * m <= -m
  {
  }

  lemma DivModUnique(x: int, m: int, q: int, r: int)
    requires m > 0 && x == q * m + r && 0 <= r < m
    ensures x % m == r && x / m == q
  {
    var dq := x / m - q;
    assert dq * m == r - x % m by {
      assert x == m * (x / m) + x % m;
      assert (x / m - q) * m == m * (x / m) - q * m;
    }
    MulBound(dq, m);
  }

  /** Reading back `n` little-endian bytes gives the value modulo 256^n, also for negative values. */
  lemma {:induction false} LittleEndianRoundTrip(v: int, n: nat)
    ensures LittleEndianValue(LittleEndian(v, n)) == v % Pow(256, n)
    decreases n
  {
    if n > 0 {
      LittleEndianRoundTrip(v / 256, n - 1);
      assert LittleEndian(v, n)[1..] == LittleEndian(v / 256, n - 1);
      ModStep(v, Pow(256, n - 1));
    }
  }

  lemma ModStep(v: int, p: nat)
    requires p > 0
    ensures v % (256 * p) == v % 256 + 256 * (v / 256 % p)
  {
    var q := v / 256;
    assert q == p * (q / p) + q % p;
    assert 256 * (p * (q / p)) == (q / p) * (256 * p);
    DivModUnique(v, 256 * p, q / p, v % 256 + 256 * (q % p));
  }

  lemma PowValues()
    ensures Pow(256, 1) == 0x100 && Pow(256, 2) == 0x1_0000 && Pow(256, 3) == 0x100_0000
    ensures Pow(256, 4) == 0x1_0000_0000 && Pow(256, 8) == 0x1_0000_0000_0000_0000
  {
  }

  /** The `n` low bytes of a number, most significant first. */
  function BigEndian(v: nat, n: nat): (s: Str)
    ensures |s| == n
    decreases n
  {
    if n == 0 then [] else BigEndian(v / 256, n - 1) + [v % 256]
  }

  function BigEndianValue(s: Str): nat {
    if s == [] then 0 else 256 * BigEndianValue(s[..|s| - 1]) + s[|s| - 1]
  }

  lemma {:induction false} BigEndianRoundTrip(v: nat, n: nat)
    ensures BigEndianValue(BigEndian(v, n)) == v % Pow(256, n)
    decreases n
  {
    if n > 0 {
      BigEndianRoundTrip(v / 256, n - 1);
      assert BigEndian(v, n)[..n - 1] == BigEndian(v / 256, n - 1);
      ModStep(v, Pow(256, n - 1));
    }
  }

  lemma {:induction false} BigEndianBound(s: Str)
    ensures BigEndianValue(s) < Pow(256, |s|)
    decreases |s|
  {
    if s != [] {
      BigEndianBound(s[..|s| - 1]);
    }
  }
}
