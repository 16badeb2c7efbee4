/** Forward and reversed varints: seven-bit groups, the top bit marking continuation. */
module Varint {
  import opened Bytes
  import opened Sequences

  const TWO64: nat := 0x1_0000_0000_0000_0000

  /** The seven-bit groups of `x`, least significant first. */
  function Groups(x: nat): (g: seq<byte>)
    ensures |g| > 0
    ensures forall i :: 0 <= i < |g| ==> g[i] < 128
  {
    if x < 128 then [x] else [x % 128] + Groups(x / 128)
  }

  /** The number a run of varint bytes denotes; only the low seven bits of each byte count. */
  function GroupsValue(s: Str): nat {
    if s == [] then 0 else s[0] % 128 + 128 * GroupsValue(s[1..])
  }

  /** `x` as a varint: every byte but the last carries the continuation bit. */
  function VarBytes(x: nat): (s: Str)
    ensures |s| == |Groups(x)|
  {
    var g := Groups(x);
    seq(|g|, i requires 0 <= i < |g| => if i < |g| - 1 then g[i] + 128 else g[i])
  }

  lemma {:induction false} GroupsValueIgnoresTopBit(s: Str, t: Str)
    requires |s| == |t| && forall i :: 0 <= i < |s| ==> s[i] % 128 == t[i] % 128
    ensures GroupsValue(s) == GroupsValue(t)
  {
    if s != [] {
      GroupsValueIgnoresTopBit(s[1..], t[1..]);
    }
  }

  lemma {:induction false} GroupsValueOfGroups(x: nat)
    ensures GroupsValue(Groups(x)) == x
  {
    if x >= 128 {
      GroupsValueOfGroups(x / 128);
      assert Groups(x)[1..] == Groups(x / 128);
    }
  }

  /** A varint decodes to the number it encodes. */
  lemma VarintRoundTrip(x: nat)
    ensures GroupsValue(VarBytes(x)) == x
  {
    GroupsValueIgnoresTopBit(VarBytes(x), Groups(x));
    GroupsValueOfGroups(x);
  }

  /** The values the encoder can still hold after `i` of its shifts `{7 x 9, 1}`. */
  function Limit(i: nat): nat
    requires i <= 9
    decreases 9 - i
  {
    if i == 9 then 2 else 128 * Limit(i + 1)
  }

  lemma LimitStart()
    ensures Limit(0) == TWO64
  {
  }

  /** One turn of the encoder loop: the group taken and what is left; the tenth turn takes one bit. */
  function Shift(x: nat, i: nat): (r: (byte, nat))
    requires i <= 9 && x < Limit(i)
    ensures r.0 < 128
    ensures r.1 == 0 ==> Groups(x) == [r.0] && RevGroups(x) == [r.0 + 128]
    ensures r.1 > 0 ==> i < 9 && r.1 < Limit(i + 1) && Groups(x) == [r.0] + Groups(r.1)
                        && RevGroups(x) == RevGroups(r.1) + [r.0 + 128]
  {
    if i < 9 then (x % 128, x / 128) else (x % 2, x / 2)
  }

  /** The encoder loop: ten shifts of the table are always enough for 64 bits. */
  method EncodeUInt(value: nat) returns (r: Str)
    requires value < TWO64
    ensures r == VarBytes(value)
  {
    hide Groups, RevGroups, Limit, Shift;
    LimitStart();
    var x: nat, i: nat := value, 0;
    var buf: Str := [];
    ghost var done: seq<byte> := [];
    while true
      invariant 0 <= i <= 9 && |buf| == |done| == i && x < Limit(i)
      invariant Groups(value) == done + Groups(x)
      invariant forall k :: 0 <= k < i ==> done[k] < 128 && buf[k] == done[k] + 128
      decreases 10 - i
    {
      var (low, rest) := Shift(x, i);
      buf := buf + [low + 128];
      if rest == 0 {
        break;
      }
      done := done + [low];
      x, i := rest, i + 1;
    }
    r := buf[..i] + [buf[i] - 128];
  }

  /** `f << (7*n)`. */
  function Shifted(f: nat, n: nat): (r: nat)
    ensures f == 0 <==> r == 0
  {
    if n == 0 then f else 128 * Shifted(f, n - 1)
  }

  method DecodeUInt(vint: Str) returns (v: nat)
    ensures v == GroupsValue(vint) % TWO64
  {
    hide GroupsValue, Shifted;
    v := 0;
    NoGroups();
    var i := 0;
    assert vint[..|vint|] == vint && vint[..0] == [];
    while i < |vint|
      invariant 0 <= i <= |vint| && v == GroupsValue(vint[..i]) % TWO64
    {
      // the shifted group is cut to 64 bits; its bits are all above those of v, so OR adds
      GroupsSnoc(vint[..i], vint[i]);
      TakeDrop(vint, i);
      NoCarry(GroupsValue(vint[..i]), vint[i] % 128, i);
      v := v + Shifted(vint[i] % 128, i) % TWO64;
      i := i + 1;
    }
  }

  lemma NoGroups()
    ensures GroupsValue([]) == 0 && RevValue([]) == 0
  {
  }

  /** One more group on top; those below fit under it. */
  lemma {:induction false} GroupsSnoc(s: Str, b: byte)
    ensures GroupsValue(s + [b]) == GroupsValue(s) + Shifted(b % 128, |s|)
    ensures GroupsValue(s) < Shifted(1, |s|)
    decreases |s|
  {
    AppendEnds(s, [b]);
    if s != [] {
      GroupsSnoc(s[1..], b);
    }
  }

  /** What is shifted to the tenth group keeps one bit of 64, and anything further none. */
  lemma {:induction false} ShiftedCut(g: nat, n: nat)
    requires n >= 9
    ensures Shifted(g, n) % TWO64 == if n == 9 then g % 2 * 0x8000_0000_0000_0000 else 0
    decreases n
  {
    ShiftedNine(g);
    if n == 9 {
      DivModUnique(g * 0x8000_0000_0000_0000, TWO64, g / 2, g % 2 * 0x8000_0000_0000_0000);
    } else if n == 10 {
      assert Shifted(g, 10) == 128 * Shifted(g, 9) == g * 64 * TWO64;
      DivModUnique(g * 64 * TWO64, TWO64, g * 64, 0);
    } else {
      ShiftedCut(g, n - 1);
      var q := Shifted(g, n - 1) / TWO64;
      assert Shifted(g, n - 1) == q * TWO64;
      assert Shifted(g, n) == 128 * Shifted(g, n - 1);
      DivModUnique(Shifted(g, n), TWO64, 128 * q, 0);
    }
  }

  lemma ShiftedNine(g: nat)
    ensures Shifted(g, 9) == g * 0x8000_0000_0000_0000
    ensures Shifted(g, 8) == g * 0x100_0000_0000_0000
  {
    assert Shifted(g, 1) == 128 * g;
    assert Shifted(g, 2) == 128 * Shifted(g, 1);
    assert Shifted(g, 4) == 16384 * Shifted(g, 2);
    assert Shifted(g, 6) == 16384 * Shifted(g, 4);
    assert Shifted(g, 8) == 16384 * Shifted(g, 6);
    assert Shifted(g, 9) == 128 * Shifted(g, 8);
  }

  lemma {:induction false} ShiftedGrows(g: nat, m: nat, n: nat)
    requires m <= n
    ensures Shifted(g, m) <= Shifted(g, n)
    decreases n
  {
    if m < n {
      ShiftedGrows(g, m, n - 1);
    }
  }

  lemma {:induction false} ShiftedLess(g: nat, n: nat)
    requires g < 128
    ensures Shifted(g, n) < Shifted(1, n + 1)
    decreases n
  {
    if n > 0 {
      ShiftedLess(g, n - 1);
    }
  }

  lemma NoCarryBelow(low: nat, g: nat, n: nat)
    requires low < Shifted(1, n) && g < 128 && n <= 8
    ensures low + Shifted(g, n) < TWO64
  {
    hide Shifted;
    ShiftedNine(1);
    ShiftedGrows(1, n, 8);
    ShiftedLess(g, n);
    ShiftedGrows(1, n + 1, 9);
  }

  lemma AddCut(low: nat, s: nat)
    requires low % TWO64 + s % TWO64 < TWO64
    ensures (low + s) % TWO64 == low % TWO64 + s % TWO64
  {
    var q := low / TWO64 + s / TWO64;
    assert low + s == q * TWO64 + (low % TWO64 + s % TWO64);
    DivModUnique(low + s, TWO64, q, low % TWO64 + s % TWO64);
  }

  lemma CutOfSmall(n: nat)
    requires n < TWO64
    ensures n % TWO64 == n
  {
  }

  /** Adding a higher group to lower ones carries nothing over within 64 bits. */
  lemma NoCarry(low: nat, g: nat, n: nat)
    requires low < Shifted(1, n) && g < 128
    ensures (low + Shifted(g, n)) % TWO64 == low % TWO64 + Shifted(g, n) % TWO64
  {
    hide Shifted;
    if n <= 8 {
      NoCarryBelow(low, g, n);
      CutOfSmall(low);
      CutOfSmall(Shifted(g, n));
    } else {
      ShiftedCut(g, n);
      if n == 9 {
        ShiftedNine(1);
        CutOfSmall(low);
      }
    }
    AddCut(low, Shifted(g, n));
  }

  // ---------------------------------------------------------------- reversed varints

  /** The groups of `x`, most significant first, every one with the continuation bit. */
  function RevGroups(x: nat): (s: Str)
    ensures |s| > 0
    ensures forall i :: 0 <= i < |s| ==> s[i] >= 128
  {
    if x < 128 then [x + 128] else RevGroups(x / 128) + [x % 128 + 128]
  }

  /** The number a reversed varint denotes. */
  function RevValue(s: Str): nat {
    if s == [] then 0 else 128 * RevValue(s[..|s| - 1]) + s[|s| - 1] % 128
  }

  /** What `EncodeUIntRevInPlace` leaves in the buffer: the groups right-aligned, and the top
      bit of the FIRST byte of the buffer cleared, whether or not a group was written there. */
  function RevInPlace(x: nat, buf: Str): (r: Str)
    requires |buf| >= |RevGroups(x)|
    ensures |r| == |buf|
  {
    var w := buf[..|buf| - |RevGroups(x)|] + RevGroups(x);
    [w[0] % 128] + w[1..]
  }

  method EncodeUIntRevInPlace(value: nat, buf: Str) returns (r: Str)
    requires value < TWO64
    requires |buf| >= |RevGroups(value)|
    ensures r == RevInPlace(value, buf)
  {
    hide Groups, RevGroups, Limit, Shift;
    LimitStart();
    var x: nat, i: nat := value, 0;
    r := buf;
    ghost var done: Str := [];
    assert buf[..|buf|] + done == buf;
    assert RevGroups(x) + done == RevGroups(x);
    while true
      invariant 0 <= i <= 9 && x < Limit(i)
      invariant |done| == i && RevGroups(value) == RevGroups(x) + done
      invariant i < |buf| && r == buf[..|buf| - i] + done
      decreases 10 - i
    {
      var (low, rest) := Shift(x, i);
      r := r[|buf| - i - 1 := low + 128];
      SetBefore(buf, |buf| - i, done, low + 128);
      done := [low + 128] + done;
      if rest == 0 {
        break;
      }
      AppendAssoc(RevGroups(rest), [low + 128], done[1..]);
      x, i := rest, i + 1;
    }
    assert done == RevGroups(value);
    r := r[0 := r[0] % 128];
  }

  method DecodeUIntRev(vint: Str) returns (v: nat)
    ensures v == RevValue(vint) % TWO64
  {
    hide RevValue, Shifted;
    v := 0;
    NoGroups();
    var i := 0;
    assert vint[0..] == vint && vint[|vint|..] == [];
    while i < |vint|
      invariant 0 <= i <= |vint| && v == RevValue(vint[|vint| - i..]) % TWO64
    {
      ghost var j := |vint| - i - 1;
      RevCons(vint[j], vint[j + 1..]);
      assert vint[j..] == [vint[j]] + vint[j + 1..];
      NoCarry(RevValue(vint[j + 1..]), vint[j] % 128, i);
      v := v + Shifted(vint[|vint| - i - 1] % 128, i) % TWO64;
      i := i + 1;
    }
  }

  lemma {:induction false} RevCons(b: byte, s: Str)
    ensures RevValue([b] + s) == Shifted(b % 128, |s|) + RevValue(s)
    ensures RevValue(s) < Shifted(1, |s|)
    decreases |s|
  {
    AppendEnds([b], s);
    if s != [] {
      RevCons(b, s[..|s| - 1]);
    } else {
      assert [b][..0] == [];
    }
  }

  lemma RevValueSnoc(front: Str, b: byte)
    ensures RevValue(front + [b]) == 128 * RevValue(front) + b % 128
  {
    assert (front + [b])[..|front|] == front;
  }

  lemma {:induction false} RevValueOfRevGroups(front: Str, x: nat)
    ensures RevValue(front + RevGroups(x)) == Shifted(RevValue(front), |RevGroups(x)|) + x
  {
    hide RevValue;
    if x < 128 {
      RevValueSnoc(front, x + 128);
    } else {
      RevValueOfRevGroups(front, x / 128);
      AppendAssoc(front, RevGroups(x / 128), [x % 128 + 128]);
      RevValueSnoc(front + RevGroups(x / 128), x % 128 + 128);
    }
  }

  lemma {:induction false} RevValueIgnoresTopBit(s: Str, t: Str)
    requires |s| == |t| && forall i :: 0 <= i < |s| ==> s[i] % 128 == t[i] % 128
    ensures RevValue(s) == RevValue(t)
  {
    if s != [] {
      RevValueIgnoresTopBit(s[..|s| - 1], t[..|t| - 1]);
    }
  }

  /** `EncodeUIntRevInPlace` is the reverse of the forward varint when the buffer has no spare byte. */
  lemma {:induction false} RevGroupsReverseGroups(x: nat)
    ensures |RevGroups(x)| == |Groups(x)|
    ensures forall i :: 0 <= i < |Groups(x)| ==> RevGroups(x)[|Groups(x)| - 1 - i] == Groups(x)[i] + 128
  {
    if x >= 128 {
      RevGroupsReverseGroups(x / 128);
    }
  }

  // ---------------------------------------------------------------- reserved size

  /** The number of bytes reserved for a varint. */
  function GetEncodeUIntSize(x: nat): (n: nat)
    ensures n <= 5
  {
    if x <= 127 then 1
    else if x < 16383 then 2
    else if x < 2097151 then 3
    else if x < 268435455 then 4
    else 5
  }

  /** Three values get one byte more than their groups fill. */
  predicate HasSpareByte(x: nat) {
    x == 16383 || x == 2097151 || x == 268435455
  }

  lemma ReservedSize(x: nat)
    requires x < 0x8_0000_0000
    ensures GetEncodeUIntSize(x) == |RevGroups(x)| + (if HasSpareByte(x) then 1 else 0)
  {
  }
}
