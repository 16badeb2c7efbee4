/** Segment file names `seg-<n>.wal` and the order in which a sorted directory listing returns them. */
module SegmentNames {
  import opened Bytes
  import opened Decimal
  import opened Sequences

  const PREFIX: Str := [115, 101, 103, 45]
  const SUFFIX: Str := [46, 119, 97, 108]

  function Name(n: nat): Str {
    PREFIX + FormatNat(n) + SUFFIX
  }

  /** The names of segments 0 and 10 are `seg-0.wal` and `seg-10.wal`. */
  lemma KnownNames()
    ensures Name(0) == [115, 101, 103, 45, 48, 46, 119, 97, 108]
    ensures Name(10) == [115, 101, 103, 45, 49, 48, 46, 119, 97, 108]
  {
    assert FormatNat(0) == [48];
    assert FormatNat(10) == FormatNat(1) + [48] && FormatNat(1) == [49];
  }

  /** Go's order on strings. */
  predicate LexLess(a: Str, b: Str) {
    b != [] && (a == [] || a[0] < b[0] || (a[0] == b[0] && LexLess(a[1..], b[1..])))
  }

  predicate NameBefore(m: nat, n: nat) {
    LexLess(Name(m), Name(n))
  }

  /** `names` lists the segments `ids` sorted by file name, as `sort.Strings` leaves them. */
  ghost predicate Listing(names: seq<nat>, ids: set<nat>) {
    && (forall n :: n in names <==> n in ids)
    && forall i, j :: 0 <= i < j < |names| ==> NameBefore(names[i], names[j])
  }

  ghost predicate Ascending(names: seq<nat>) {
    forall i, j :: 0 <= i < j < |names| ==> names[i] < names[j]
  }

  /** File-name order is numeric order on these segments. */
  ghost predicate InOrder(ids: set<nat>) {
    forall m, n :: m in ids && n in ids && m < n ==> NameBefore(m, n)
  }

  lemma {:induction false} LexTotal(a: Str, b: Str)
    ensures LexLess(a, b) || LexLess(b, a) || a == b
    ensures !(LexLess(a, b) && LexLess(b, a)) && !LexLess(a, a)
    decreases |a|
  {
    if a != [] {
      LexTotal(a[1..], a[1..]);
      if b != [] {
        LexTotal(a[1..], b[1..]);
        HeadTail(a);
        HeadTail(b);
      }
    }
  }

  lemma {:induction false} LexTransitive(a: Str, b: Str, c: Str)
    requires LexLess(a, b) && LexLess(b, c)
    ensures LexLess(a, c)
    decreases |a|
  {
    if a != [] && a[0] == b[0] == c[0] {
      LexTransitive(a[1..], b[1..], c[1..]);
    }
  }

  lemma {:induction false} LexPrefix(p: Str, a: Str, b: Str)
    ensures LexLess(p + a, p + b) == LexLess(a, b)
    decreases |p|
  {
    AppendEnds(p, a);
    AppendEnds(p, b);
    if p != [] {
      LexPrefix(p[1..], a, b);
    }
  }

  /** Different strings of one length decide the order, whatever follows them. */
  lemma {:induction false} LexDecided(a: Str, b: Str, u: Str, v: Str)
    requires |a| == |b| && a != b
    ensures LexLess(a + u, b + v) == LexLess(a, b)
    decreases |a|
  {
    AppendEnds(a, u);
    AppendEnds(b, v);
    HeadTail(a);
    HeadTail(b);
    if a[0] == b[0] {
      LexDecided(a[1..], b[1..], u, v);
    }
  }

  /** Digit strings of one length compare like the numbers they denote. */
  lemma {:induction false} LexDigits(a: Str, b: Str)
    requires AllDigits(a) && AllDigits(b) && |a| == |b|
    ensures LexLess(a, b) <==> Value(a) < Value(b)
    ensures a == b <==> Value(a) == Value(b)
    decreases |a|
  {
    if a != [] {
      var x, y := a[..|a| - 1], b[..|b| - 1];
      var d, e := a[|a| - 1], b[|b| - 1];
      LexDigits(x, y);
      InitLast(a);
      InitLast(b);
      if x == y {
        LexPrefix(x, [d], [e]);
      } else {
        LexDecided(x, y, [d], [e]);
      }
    }
  }

  function Digits(n: nat): (d: nat)
    ensures d > 0
  {
    |FormatNat(n)|
  }

  lemma NameBeforeDigits(m: nat, n: nat)
    ensures NameBefore(m, n) == LexLess(FormatNat(m) + SUFFIX, FormatNat(n) + SUFFIX)
  {
    hide LexLess;
    AppendAssoc(PREFIX, FormatNat(m), SUFFIX);
    AppendAssoc(PREFIX, FormatNat(n), SUFFIX);
    LexPrefix(PREFIX, FormatNat(m) + SUFFIX, FormatNat(n) + SUFFIX);
  }

  /** Segment numbers with equally many digits are listed in numeric order. */
  lemma SameDigits(m: nat, n: nat)
    requires Digits(m) == Digits(n)
    ensures NameBefore(m, n) <==> m < n
  {
    hide LexLess, FormatNat, Value;
    var a, b := FormatNat(m), FormatNat(n);
    ValueOfFormatNat(m);
    ValueOfFormatNat(n);
    NameBeforeDigits(m, n);
    LexDigits(a, b);
    if a == b {
      LexTotal(a + SUFFIX, a + SUFFIX);
    } else {
      LexDecided(a, b, SUFFIX, SUFFIX);
    }
  }

  lemma {:induction false} DigitsGrow(m: nat, n: nat)
    requires m <= n
    ensures Digits(m) <= Digits(n)
    decreases m
  {
    if m >= 10 {
      DigitsGrow(m / 10, n / 10);
    }
  }

  /** Where one more digit is needed the name starts with 1 instead of 9, so it is listed first. */
  lemma {:induction false} CarryLeads(n: nat)
    requires Digits(n) < Digits(n + 1)
    ensures FormatNat(n)[0] == ZERO + 9 && FormatNat(n + 1)[0] == ZERO + 1
  {
    if n >= 10 {
      assert n % 10 == 9 && (n + 1) / 10 == n / 10 + 1;
      CarryLeads(n / 10);
    }
  }

  lemma CarryOutOfOrder(n: nat)
    requires Digits(n) < Digits(n + 1)
    ensures !NameBefore(n, n + 1)
  {
    CarryLeads(n);
    NameBeforeDigits(n, n + 1);
  }

  lemma {:induction false} FindCarry(lo: nat, hi: nat) returns (n: nat)
    requires lo <= hi && Digits(lo) < Digits(hi)
    ensures lo <= n < hi && Digits(n) < Digits(n + 1)
    decreases hi - lo
  {
    if Digits(lo) < Digits(lo + 1) {
      n := lo;
    } else {
      n := FindCarry(lo + 1, hi);
    }
  }

  /** The numbers from `lo` to `hi`. */
  function Span(lo: nat, hi: nat): (ids: set<nat>)
    ensures forall n :: n in ids <==> lo <= n <= hi
    decreases hi
  {
    if hi < lo then {} else if hi == lo then {lo} else Span(lo, hi - 1) + {hi}
  }

  /** Segments `lo` to `hi` are listed in numeric order exactly when `lo` and `hi` have equally
      many digits; a log that starts at segment 0 is out of order from segment 10 on. */
  lemma SpanInOrder(lo: nat, hi: nat)
    requires lo <= hi
    ensures InOrder(Span(lo, hi)) <==> Digits(lo) == Digits(hi)
  {
    hide NameBefore, Digits;
    DigitsGrow(lo, hi);
    if Digits(lo) == Digits(hi) {
      forall m, n | m in Span(lo, hi) && n in Span(lo, hi) && m < n
        ensures NameBefore(m, n)
      {
        DigitsGrow(lo, m);
        DigitsGrow(m, n);
        DigitsGrow(n, hi);
        SameDigits(m, n);
      }
    } else {
      var n := FindCarry(lo, hi);
      CarryOutOfOrder(n);
      assert n in Span(lo, hi) && n + 1 in Span(lo, hi);
    }
  }

  lemma NamesDiffer(m: nat, n: nat)
    requires m != n
    ensures NameBefore(m, n) || NameBefore(n, m)
  {
    hide LexLess;
    LexTotal(Name(m), Name(n));
    if Name(m) == Name(n) {
      assert |Name(m)| == |Name(n)|;
      SameDigits(m, n);
      SameDigits(n, m);
      LexTotal(Name(m), Name(m));
    }
  }

  /** The listing is ascending exactly when file-name order is numeric order. */
  lemma ListingAscending(names: seq<nat>, ids: set<nat>)
    requires Listing(names, ids)
    ensures Ascending(names) <==> InOrder(ids)
  {
    hide NameBefore;
    forall i, j | 0 <= i < j < |names|
      ensures !NameBefore(names[j], names[i]) && names[i] != names[j]
    {
      Asymmetric(names[i], names[j]);
    }
  }

  lemma Asymmetric(m: nat, n: nat)
    requires NameBefore(m, n)
    ensures !NameBefore(n, m) && m != n
  {
    LexTotal(Name(m), Name(n));
  }

  lemma ListingDistinct(names: seq<nat>, ids: set<nat>)
    requires Listing(names, ids)
    ensures forall i, j :: 0 <= i < j < |names| ==> names[i] != names[j]
  {
    hide NameBefore;
    forall i, j | 0 <= i < j < |names| ensures names[i] != names[j] {
      Asymmetric(names[i], names[j]);
    }
  }

  lemma Before(m: nat, n: nat)
    ensures NameBefore(m, n) == LexLess(Name(m), Name(n))
  {
  }

  lemma LexTransitiveNames(l: nat, m: nat, n: nat)
    requires NameBefore(l, m) && NameBefore(m, n)
    ensures NameBefore(l, n)
  {
    LexTransitive(Name(l), Name(m), Name(n));
  }

  /** Inserts segment `x` into a sorted listing. */
  method InsertName(names: seq<nat>, x: nat, ghost ids: set<nat>) returns (r: seq<nat>)
    requires Listing(names, ids) && x !in ids
    ensures Listing(r, ids + {x})
  {
    hide NameBefore;
    var i := 0;
    while i < |names| && LexLess(Name(names[i]), Name(x))
      invariant i <= |names|
      invariant forall j :: 0 <= j < i ==> NameBefore(names[j], x)
    {
      Before(names[i], x);
      i := i + 1;
    }
    if i < |names| {
      Before(names[i], x);
    }
    InsertListed(names, x, ids, i);
    r := names[..i] + [x] + names[i..];
  }

  lemma InsertListed(names: seq<nat>, x: nat, ids: set<nat>, i: nat)
    requires Listing(names, ids) && x !in ids && i <= |names|
    requires forall j :: 0 <= j < i ==> NameBefore(names[j], x)
    requires i < |names| ==> !NameBefore(names[i], x)
    ensures Listing(names[..i] + [x] + names[i..], ids + {x})
  {
    hide NameBefore;
    if i < |names| {
      NamesDiffer(names[i], x);
      forall j | i < j < |names| ensures NameBefore(x, names[j]) {
        LexTransitiveNames(x, names[i], names[j]);
      }
    }
  }

  /** Every set of segments has a listing. */
  lemma {:induction false} SomeListing(ids: set<nat>) returns (names: seq<nat>)
    ensures Listing(names, ids)
    decreases |ids|
  {
    names := [];
    if ids != {} {
      var x :| x in ids;
      var rest := SomeListing(ids - {x});
      var i := InsertPlace(rest, x, 0);
      InsertListed(rest, x, ids - {x}, i);
      names := rest[..i] + [x] + rest[i..];
      assert ids - {x} + {x} == ids;
    }
  }

  lemma HasListing(ids: set<nat>)
    ensures exists names :: Listing(names, ids)
  {
    var names := SomeListing(ids);
  }

  lemma {:induction false} InsertPlace(names: seq<nat>, x: nat, from: nat) returns (i: nat)
    requires from <= |names| && forall j :: 0 <= j < from ==> NameBefore(names[j], x)
    ensures i <= |names| && (forall j :: 0 <= j < i ==> NameBefore(names[j], x))
              && (i < |names| ==> !NameBefore(names[i], x))
    decreases |names| - from
  {
    hide NameBefore;
    if from < |names| && NameBefore(names[from], x) {
      i := InsertPlace(names, x, from + 1);
    } else {
      i := from;
    }
  }

  /** There is one listing. */
  lemma {:induction false} ListingUnique(a: seq<nat>, b: seq<nat>, ids: set<nat>)
    requires Listing(a, ids) && Listing(b, ids)
    ensures a == b
    decreases |a|
  {
    hide NameBefore;
    FirstIn(a);
    FirstIn(b);
    if a != [] {
      SameFirst(a, b, ids);
      ListingTail(a, ids);
      ListingTail(b, ids);
      ListingUnique(a[1..], b[1..], ids - {a[0]});
      HeadTail(a);
      HeadTail(b);
    }
  }

  lemma SameFirst(a: seq<nat>, b: seq<nat>, ids: set<nat>)
    requires Listing(a, ids) && Listing(b, ids) && a != [] && b != []
    ensures a[0] == b[0]
  {
    hide NameBefore;
    assert a[0] in b && b[0] in a;
    var i :| 0 <= i < |b| && b[i] == a[0];
    var j :| 0 <= j < |a| && a[j] == b[0];
    if i > 0 && j > 0 {
      Asymmetric(a[0], b[0]);
    }
  }

  lemma ListingTail(names: seq<nat>, ids: set<nat>)
    requires Listing(names, ids) && names != []
    ensures Listing(names[1..], ids - {names[0]})
  {
    hide NameBefore;
    ListingDistinct(names, ids);
    HeadTail(names);
  }

  /** The segments in the order of a sorted directory listing. */
  ghost function Sorted(ids: set<nat>): (names: seq<nat>)
    ensures Listing(names, ids)
  {
    HasListing(ids);
    var names :| Listing(names, ids);
    names
  }

  /** The sorted listing of a directory. */
  method ListSegments(ids: set<nat>) returns (names: seq<nat>)
    ensures names == Sorted(ids)
  {
    names := [];
    var rest := ids;
    while rest != {}
      invariant rest <= ids && Listing(names, ids - rest)
      decreases |rest|
    {
      var x :| x in rest;
      assert ids - rest + {x} == ids - (rest - {x});
      names := InsertName(names, x, ids - rest);
      rest := rest - {x};
    }
    assert ids - {} == ids;
    ListingUnique(names, Sorted(ids), ids);
  }
}
