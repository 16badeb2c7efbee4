/** The generator of 32-bit identifiers that cycle, and their expansion to full numbers. */
module CyclicId {
  import opened Bytes

  /** 4 turn bits above 28 counter bits. */
  const TURNS: nat := 16
  const SPAN: nat := 0x1000_0000
  const UINT32: nat := 0x1_0000_0000

  /** Bitwise or. */
  function BitOr(a: nat, b: nat): nat
    decreases a + b
  {
    if a == 0 then b
    else if b == 0 then a
    else 2 * BitOr(a / 2, b / 2) + if a % 2 == 1 || b % 2 == 1 then 1 else 0
  }

  /** `a << k`. */
  function Shl(a: nat, k: nat): nat {
    if k == 0 then a else 2 * Shl(a, k - 1)
  }

  lemma {:induction false} OrParts(k: nat, a: nat, c: nat, b: nat)
    requires c < Shl(1, k)
    ensures BitOr(Shl(a, k) + c, Shl(b, k)) == Shl(BitOr(a, b), k) + c
    decreases k
  {
    if k > 0 {
      OrParts(k - 1, a, c / 2, b);
      OrDouble(Shl(a, k - 1) + c / 2, c % 2, Shl(b, k - 1));
    }
  }

  lemma {:induction false} ShlTwice(a: nat, i: nat, j: nat)
    ensures Shl(a, i + j) == Shl(Shl(a, j), i)
    decreases i
  {
    if i > 0 {
      ShlTwice(a, i - 1, j);
    }
  }

  lemma ShlSeven(a: nat)
    ensures Shl(a, 7) == 128 * a
  {
    assert Shl(a, 1) == 2 * a;
    assert Shl(a, 3) == 4 * Shl(a, 1);
    assert Shl(a, 5) == 4 * Shl(a, 3);
    assert Shl(a, 7) == 4 * Shl(a, 5);
  }

  lemma ShlSpan(a: nat)
    ensures Shl(a, 28) == a * SPAN
  {
    hide Shl;
    ShlTwice(a, 21, 7);
    ShlTwice(128 * a, 14, 7);
    ShlTwice(128 * (128 * a), 7, 7);
    ShlSeven(a);
    ShlSeven(128 * a);
    ShlSeven(128 * (128 * a));
    ShlSeven(128 * (128 * (128 * a)));
  }

  lemma OrDouble(x: nat, bit: nat, y: nat)
    requires bit < 2
    ensures BitOr(2 * x + bit, 2 * y) == 2 * BitOr(x, y) + bit
  {
  }

  /** A number or its own low bits is the number. */
  lemma {:induction false} OrLow(k: nat, n: nat)
    ensures BitOr(n % Pow(2, k), n) == n
    decreases k
  {
    if k > 0 {
      var p := Pow(2, k - 1);
      OrLow(k - 1, n / 2);
      LowStep(n, p);
      var l := n % Pow(2, k);
      if l > 0 && n > 0 {
        assert l / 2 == n / 2 % p && l % 2 == n % 2;
      }
    }
  }

  lemma LowStep(n: nat, p: nat)
    requires p > 0
    ensures n % (2 * p) == n % 2 + 2 * (n / 2 % p)
  {
    var q := n / 2;
    assert q == p * (q / p) + q % p;
    assert 2 * (p * (q / p)) == (q / p) * (2 * p);
    DivModUnique(n, 2 * p, q / p, n % 2 + 2 * (q % p));
  }

  /** The last cycle up to `c` that had turn `t`; 0 when there was none. */
  function LastCycle(c: nat, t: nat): nat {
    if c % TURNS == t || c == 0 then c else LastCycle(c - 1, t)
  }

  /** Two cycles of the same turn, both less than 16 back, are one. */
  lemma WithinTurn(a: nat, b: nat, c: nat)
    requires a <= c < a + TURNS && b <= c < b + TURNS && a % TURNS == b % TURNS
    ensures a == b
  {
  }

  lemma LastCycleStep(c: nat, t: nat)
    ensures LastCycle(c, t) == if c % TURNS == t || c == 0 then c else LastCycle(c - 1, t)
  {
  }

  lemma {:induction false} LastCycleNear(c: nat, d: nat)
    requires d <= c < d + TURNS
    ensures LastCycle(c, d % TURNS) == d
    decreases c
  {
    hide LastCycle;
    LastCycleStep(c, d % TURNS);
    if c > d {
      LastCycleNear(c - 1, d);
      OtherTurn(d, c);
    }
  }

  lemma OtherTurn(d: nat, c: nat)
    requires d < c < d + TURNS
    ensures c % TURNS != d % TURNS
  {
  }

  /** Counting up modulo `m`. */
  lemma CountUp(n: nat, m: nat)
    requires m > 1
    ensures (n + 1) % m == (n % m + 1) % m
    ensures (n + 1) / m == n / m + if (n + 1) % m == 0 then 1 else 0
  {
    var q, r := n / m, n % m;
    assert n == q * m + r;
    if r + 1 < m {
      DivModUnique(n + 1, m, q, r + 1);
    } else {
      assert (q + 1) * m == q * m + m;
      DivModUnique(n + 1, m, q + 1, 0);
    }
  }

  lemma NextCycle(c: nat, d: nat)
    requires d == c + 1
    ensures forall t :: 0 <= t < TURNS ==> LastCycle(d, t) == if t == d % TURNS then d else LastCycle(c, t)
  {
  }

  /** The identifier issued by call number `n`. */
  function IdOf(n: nat): nat {
    n / SPAN % TURNS * SPAN + n % SPAN
  }

  lemma Split(n: nat)
    ensures IdOf(n) < UINT32 && IdOf(n) / SPAN == n / SPAN % TURNS && IdOf(n) % SPAN == n % SPAN
  {
    DivModUnique(IdOf(n), SPAN, n / SPAN % TURNS, n % SPAN);
  }

  class Generator {
    var turn: nat
    var cycle: nat
    var counter: nat
    const cycleMap: array<nat>

    /** How often the generator was called. */
    ghost var calls: nat

    ghost predicate Valid()
      reads this, cycleMap
    {
      && counter == calls % SPAN && cycle == calls / SPAN % UINT32 && turn == calls / SPAN % TURNS
      && cycleMap.Length == TURNS
      && forall t :: 0 <= t < TURNS ==> cycleMap[t] == LastCycle(calls / SPAN, t) % UINT32
    }

    constructor ()
      ensures Valid() && calls == 0 && fresh(cycleMap)
    {
      turn, cycle, counter := 0, 0, 0;
      cycleMap := new nat[TURNS](_ => 0);
      calls := 0;
    }

    method NextID() returns (id: nat)
      requires Valid()
      modifies this, cycleMap
      ensures Valid() && calls == old(calls) + 1 && id == IdOf(calls)
    {
      hide LastCycle;
      CountUp(calls, SPAN);
      CountUp(calls / SPAN, UINT32);
      CountUp(calls / SPAN, TURNS);
      NextCycle(calls / SPAN, calls / SPAN + 1);
      calls := calls + 1;
      counter := (counter + 1) % SPAN;
      if counter == 0 {
        cycle := (cycle + 1) % UINT32;
        turn := (turn + 1) % TURNS;
        cycleMap[turn] := cycle;
      }
      id := turn * SPAN + counter;
    }

    /** The bits of the id under the cycle last recorded for its turn. */
    method ExpandID(id: nat) returns (full: nat)
      requires Valid() && id < UINT32
      ensures full == Expanded(id, cycleMap[..])
    {
      full := BitOr(id, cycleMap[id / SPAN] * SPAN);
    }

    /** An issued id expands to its call number exactly while the cycle counter tells that call's cycle
        from later ones: the call came before the counter first wrapped, and since then fewer than
        16 cycles have passed, or a whole number of wraps and fewer than 16 more. */
    lemma ExpandExactly(n: nat)
      requires Valid() && n <= calls
      ensures IdOf(n) < UINT32
      ensures Expanded(IdOf(n), cycleMap[..]) == n
              <==> n / SPAN < UINT32 && (calls / SPAN - n / SPAN) % UINT32 < TURNS
    {
      hide LastCycle;
      Split(n);
      var d, c := n / SPAN, calls / SPAN;
      var at := LatestCycle(c, d);
      CycleTold(c, d, at);
      ExpandParts(n, at % UINT32);
    }
  }

  /** The last cycle with the turn of cycle `d` lies less than 16 cycles back. */
  lemma LatestCycle(c: nat, d: nat) returns (at: nat)
    requires d <= c
    ensures at == LastCycle(c, d % TURNS) && at % TURNS == d % TURNS && d <= at <= c < at + TURNS
  {
    at := c - (c - d) % TURNS;
    var q := (c - d) / TURNS;
    assert at == d + q * TURNS;
    SameRest(d, q, TURNS);
    LastCycleNear(c, at);
  }

  lemma SameRest(d: nat, q: nat, m: nat)
    requires m > 0
    ensures (d + q * m) % m == d % m
  {
    assert d + q * m == (d / m + q) * m + d % m;
    DivModUnique(d + q * m, m, d / m + q, d % m);
  }

  /** A cut to 32 bits keeps the turn. */
  lemma CutTurn(at: nat)
    ensures at % UINT32 % TURNS == at % TURNS
  {
  }

  lemma ToldForward(c: nat, d: nat, at: nat)
    requires d <= at <= c < at + TURNS && at % UINT32 == d
    ensures d < UINT32 && (c - d) % UINT32 < TURNS
  {
    var k := at / UINT32;
    assert at == k * UINT32 + d;
    DivModUnique(c - d, UINT32, k, c - at);
  }

  lemma ToldBackward(c: nat, d: nat, at: nat)
    requires d <= at <= c < at + TURNS && at % TURNS == d % TURNS
    requires d < UINT32 && (c - d) % UINT32 < TURNS
    ensures at % UINT32 == d
  {
    var q := (c - d) / UINT32;
    assert c - d == q * UINT32 + (c - d) % UINT32;
    SameRest(d, q * (UINT32 / TURNS), TURNS);
    assert q * (UINT32 / TURNS) * TURNS == q * UINT32;
    WithinTurn(d + q * UINT32, at, c);
    DivModUnique(at, UINT32, q, d);
  }

  /** The cycle counter shows cycle `d` at cycle `at` exactly when only whole wraps lie between. */
  lemma CycleTold(c: nat, d: nat, at: nat)
    requires d <= at <= c < at + TURNS && at % TURNS == d % TURNS
    ensures at % UINT32 % TURNS == d % TURNS
    ensures at % UINT32 == d <==> d < UINT32 && (c - d) % UINT32 < TURNS
  {
    CutTurn(at);
    if at % UINT32 == d {
      ToldForward(c, d, at);
    } else if d < UINT32 && (c - d) % UINT32 < TURNS {
      ToldBackward(c, d, at);
    }
  }

  function Expanded(id: nat, cycles: seq<nat>): nat
    requires |cycles| == TURNS && id < UINT32
  {
    BitOr(id, cycles[id / SPAN] * SPAN)
  }

  lemma ExpandParts(n: nat, now: nat)
    requires now % TURNS == n / SPAN % TURNS
    ensures BitOr(IdOf(n), now * SPAN) == now * SPAN + n % SPAN
  {
    hide BitOr, Shl;
    var t := n / SPAN % TURNS;
    ShlSpan(t);
    ShlSpan(1);
    ShlSpan(now);
    OrParts(28, t, n % SPAN, now);
    OrLow(4, now);
    PowFour();
  }

  lemma PowFour()
    ensures Pow(2, 4) == TURNS
  {
  }
}
