/** Decimal text as `strconv` reads and writes it: `ParseInt(x, 10, 64)`, `FormatInt` and `FormatUint`. */
module Decimal {
  import opened Bytes

  const ZERO: byte := 48
  const PLUS: byte := 43
  const MINUS: byte := 45

  const MIN_INT64: int := -0x8000_0000_0000_0000
  const MAX_INT64: int := 0x7fff_ffff_ffff_ffff

  predicate IsDigit(b: byte) {
    ZERO <= b <= ZERO + 9
  }

  predicate AllDigits(s: Str) {
    forall i :: 0 <= i < |s| ==> IsDigit(s[i])
  }

  /** The number a run of digits denotes. */
  function Value(s: Str): nat
    requires AllDigits(s)
  {
    if s == [] then 0 else 10 * Value(s[..|s| - 1]) + (s[|s| - 1] - ZERO)
  }

  function FormatNat(n: nat): (s: Str)
    ensures |s| > 0 && AllDigits(s)
  {
    if n < 10 then [ZERO + n] else FormatNat(n / 10) + [ZERO + n % 10]
  }

  function FormatInt(v: int): (s: Str) {
    if v < 0 then [MINUS] + FormatNat(-v) else FormatNat(v)
  }

  /** The digits after an optional sign. */
  function Magnitude(x: Str): Str {
    if x != [] && (x[0] == PLUS || x[0] == MINUS) then x[1..] else x
  }

  predicate IsNegative(x: Str) {
    x != [] && x[0] == MINUS
  }

  /** `strconv.ParseInt(x, 10, 64)`; a syntax or range error is `None`. */
  function ParseInt(x: Str): (r: Option<int>)
    ensures r.Some? ==> MIN_INT64 <= r.value <= MAX_INT64
  {
    var m := Magnitude(x);
    if m == [] || !AllDigits(m) then None
    else
      var v: int := if IsNegative(x) then 0 - Value(m) else Value(m);
      if MIN_INT64 <= v <= MAX_INT64 then Some(v) else None
  }

  /** Text with no plus sign, no leading zero and no "-0": the shapes `FormatInt` writes. */
  predicate Canonical(x: Str) {
    var m := Magnitude(x);
    && m != [] && AllDigits(m)
    && x[0] != PLUS
    && (m[0] == ZERO ==> x == [ZERO])
  }

  lemma {:induction false} ValueOfFormatNat(n: nat)
    ensures Value(FormatNat(n)) == n
    ensures FormatNat(n)[0] == ZERO ==> n == 0
  {
    if n >= 10 {
      ValueOfFormatNat(n / 10);
      assert FormatNat(n)[..|FormatNat(n)| - 1] == FormatNat(n / 10);
    }
  }

  lemma {:induction false} ValuePositive(s: Str)
    requires AllDigits(s) && s != [] && s[0] != ZERO
    ensures Value(s) > 0
  {
    if |s| > 1 {
      ValuePositive(s[..|s| - 1]);
    }
  }

  lemma {:induction false} FormatNatOfValue(s: Str)
    requires AllDigits(s) && s != [] && (s[0] == ZERO ==> |s| == 1)
    ensures FormatNat(Value(s)) == s
  {
    if |s| == 1 {
      assert Value(s) == s[0] - ZERO;
    } else {
      var front := s[..|s| - 1];
      ValuePositive(front);
      FormatNatOfValue(front);
      assert Value(s) / 10 == Value(front) && Value(s) % 10 == s[|s| - 1] - ZERO;
      assert s == front + [s[|s| - 1]];
    }
  }

  /** Every int64 survives formatting and parsing. */
  lemma ParseFormat(v: int)
    requires MIN_INT64 <= v <= MAX_INT64
    ensures ParseInt(FormatInt(v)) == Some(v)
  {
    var n := if v < 0 then -v else v;
    ValueOfFormatNat(n);
    assert Magnitude(FormatInt(v)) == FormatNat(n);
  }

  /** Formatting the parsed number gives the text back exactly for canonical text. */
  lemma FormatParseExactly(x: Str)
    requires ParseInt(x).Some?
    ensures FormatInt(ParseInt(x).value) == x <==> Canonical(x)
  {
    var v := ParseInt(x).value;
    var m := Magnitude(x);
    var n := if v < 0 then -v else v;
    assert Magnitude(FormatInt(v)) == FormatNat(n);
    assert FormatNat(0) == [ZERO];
    ValueOfFormatNat(n);
    if Canonical(x) {
      FormatNatOfValue(m);
      if x[0] == MINUS {
        ValuePositive(m);
        assert x == [MINUS] + m;
      }
    }
  }

  lemma {:induction false} FormatNatLength(n: nat, k: nat)
    requires k >= 1 && n < Pow(10, k)
    ensures |FormatNat(n)| <= k
  {
    if n >= 10 {
      assert Pow(10, 1) == 10;
      assert Pow(10, k) == 10 * Pow(10, k - 1);
      FormatNatLength(n / 10, k - 1);
    }
  }

  lemma FormatIntLength(v: int)
    requires MIN_INT64 <= v <= MAX_INT64
    ensures 1 <= |FormatInt(v)| <= 20
  {
    var n := if v < 0 then -v else v;
    assert n < Pow(10, 19) by {
      Pow10Steps();
    }
    FormatNatLength(n, 19);
  }

  lemma Pow10Steps()
    ensures Pow(10, 19) == 10_000_000_000_000_000_000
  {
    assert Pow(10, 5) == 100_000;
    assert Pow(10, 10) == 10_000_000_000;
    assert Pow(10, 15) == 1_000_000_000_000_000;
  }
}
