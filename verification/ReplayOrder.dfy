/** When reading a directory returns its envelopes in the order they were appended. */
module ReplayOrder {
  import opened Bytes
  import opened Sequences
  import opened Segments
  import opened SegmentNames
  import opened WalLog

  predicate Distinct<T(==)>(s: seq<T>) {
    forall i, j :: 0 <= i < j < |s| ==> s[i] != s[j]
  }

  /** All files hold whole, readable frames. */
  ghost predicate Intact(c: Codec, d: Dir, parts: Parts) {
    parts.Keys == d.Keys && AllLegible(c, parts) && forall k :: k in d ==> d[k] == Content(c, parts[k])
  }

  /** The segments that hold any envelope. */
  ghost function Filled(c: Codec, parts: Parts): set<nat>
    requires AllLegible(c, parts)
  {
    set k | k in parts && Envelopes(c, parts[k]) != []
  }

  /** The envelopes of the listed segments, one segment after the other. */
  ghost function Joint(c: Codec, parts: Parts, names: seq<nat>): seq<Envelope>
    requires AllLegible(c, parts) && forall i :: 0 <= i < |names| ==> names[i] in parts
  {
    if names == [] then [] else Envelopes(c, parts[names[0]]) + Joint(c, parts, names[1..])
  }

  lemma {:induction false} ScanAllJoint(c: Codec, d: Dir, parts: Parts, names: seq<nat>)
    requires Intact(c, d, parts) && forall i :: 0 <= i < |names| ==> names[i] in parts
    ensures ScanAll(c, d, names) == Scanned(Joint(c, parts, names), Clean)
    decreases |names|
  {
    hide Scan, Envelopes, Content;
    if names != [] {
      ScanAllJoint(c, d, parts, names[1..]);
      ScanSegment(c, d, parts, names[0]);
    }
  }

  /** Listed before, read before. */
  lemma {:induction false} JointOrder(c: Codec, parts: Parts, names: seq<nat>, i: nat, j: nat) returns (p: nat, q: nat)
    requires AllLegible(c, parts) && forall x :: 0 <= x < |names| ==> names[x] in parts
    requires i < j < |names| && Envelopes(c, parts[names[i]]) != [] && Envelopes(c, parts[names[j]]) != []
    ensures p < q < |Joint(c, parts, names)|
    ensures Joint(c, parts, names)[p] == Envelopes(c, parts[names[i]])[0]
    ensures Joint(c, parts, names)[q] == Envelopes(c, parts[names[j]])[0]
    decreases |names|
  {
    hide Envelopes;
    var n := |Envelopes(c, parts[names[0]])|;
    if i > 0 {
      p, q := JointOrder(c, parts, names[1..], i - 1, j - 1);
      p, q := p + n, q + n;
    } else {
      q := JointAt(c, parts, names[1..], j - 1);
      p, q := 0, q + n;
    }
  }

  lemma {:induction false} JointAt(c: Codec, parts: Parts, names: seq<nat>, i: nat) returns (p: nat)
    requires AllLegible(c, parts) && forall x :: 0 <= x < |names| ==> names[x] in parts
    requires i < |names| && Envelopes(c, parts[names[i]]) != []
    ensures p < |Joint(c, parts, names)| && Joint(c, parts, names)[p] == Envelopes(c, parts[names[i]])[0]
    decreases |names|
  {
    hide Envelopes;
    if i > 0 {
      p := JointAt(c, parts, names[1..], i - 1);
      p := p + |Envelopes(c, parts[names[0]])|;
    } else {
      p := 0;
    }
  }

  /** The segments below `n` in numeric order. */
  function Numeric(ids: set<nat>, n: nat): (names: seq<nat>)
    ensures forall i :: 0 <= i < |names| ==> names[i] in ids && names[i] < n
  {
    if n == 0 then [] else Numeric(ids, n - 1) + if n - 1 in ids then [n - 1] else []
  }

  lemma {:induction false} NumericLists(ids: set<nat>, n: nat)
    ensures forall k :: k in Numeric(ids, n) <==> k in ids && k < n
    ensures Ascending(Numeric(ids, n))
  {
    if n > 0 {
      NumericLists(ids, n - 1);
    }
  }

  lemma {:induction false} JointAppend(c: Codec, parts: Parts, a: seq<nat>, b: seq<nat>)
    requires AllLegible(c, parts) && forall k :: k in a + b ==> k in parts
    ensures Joint(c, parts, a + b) == Joint(c, parts, a) + Joint(c, parts, b)
    decreases |a|
  {
    hide Envelopes;
    AppendEnds(a, b);
    if a != [] {
      assert forall k :: k in a[1..] + b ==> k in a + b;
      JointAppend(c, parts, a[1..], b);
      AppendAssoc(Envelopes(c, parts[a[0]]), Joint(c, parts, a[1..]), Joint(c, parts, b));
    }
  }

  lemma JointOne(c: Codec, parts: Parts, k: nat)
    requires AllLegible(c, parts) && k in parts
    ensures Joint(c, parts, [k]) == Envelopes(c, parts[k])
  {
    hide Envelopes;
    assert [k][1..] == [];
    AppendCut(Envelopes(c, parts[k]), [], 0);
  }

  /** What the segments hold is what reading them in numeric order returns. */
  lemma {:induction false} HeldIsJoint(c: Codec, parts: Parts, n: nat)
    requires AllLegible(c, parts)
    ensures Held(c, parts, n) == Joint(c, parts, Numeric(parts.Keys, n))
  {
    hide Envelopes, Joint;
    if n == 0 {
      JointNone(c, parts);
    } else {
      HeldIsJoint(c, parts, n - 1);
      JointNext(c, parts, Numeric(parts.Keys, n - 1), n - 1);
    }
  }

  lemma JointNone(c: Codec, parts: Parts)
    requires AllLegible(c, parts)
    ensures Joint(c, parts, []) == []
  {
  }

  lemma JointNext(c: Codec, parts: Parts, names: seq<nat>, k: nat)
    requires AllLegible(c, parts) && forall i :: 0 <= i < |names| ==> names[i] in parts
    ensures var more := if k in parts then [k] else [];
            Joint(c, parts, names + more)
            == Joint(c, parts, names) + if k in parts then Envelopes(c, parts[k]) else []
  {
    hide Envelopes, Joint;
    AppendCut(names, [], 0);
    AppendCut(Joint(c, parts, names), [], 0);
    if k in parts {
      JointAppend(c, parts, names, [k]);
      JointOne(c, parts, k);
    }
  }

  /** The listed segments that hold any envelope. */
  ghost function Fullest(c: Codec, parts: Parts, names: seq<nat>): (full: seq<nat>)
    requires AllLegible(c, parts) && forall i :: 0 <= i < |names| ==> names[i] in parts
    ensures forall i :: 0 <= i < |full| ==> full[i] in parts
    ensures forall k :: k in full <==> k in names && k in Filled(c, parts)
  {
    if names == [] then []
    else (if names[0] in Filled(c, parts) then [names[0]] else []) + Fullest(c, parts, names[1..])
  }

  /** Empty segments do not show. */
  lemma {:induction false} JointFullest(c: Codec, parts: Parts, names: seq<nat>)
    requires AllLegible(c, parts) && forall i :: 0 <= i < |names| ==> names[i] in parts
    ensures Joint(c, parts, Fullest(c, parts, names)) == Joint(c, parts, names)
    decreases |names|
  {
    hide Envelopes;
    if names != [] {
      JointFullest(c, parts, names[1..]);
      var rest := Fullest(c, parts, names[1..]);
      AppendEnds([names[0]], rest);
      AppendEnds([], rest);
      AppendEnds([], Joint(c, parts, names[1..]));
    }
  }

  ghost predicate SortedBy(before: (nat, nat) -> bool, names: seq<nat>) {
    forall i, j :: 0 <= i < j < |names| ==> before(names[i], names[j])
  }

  lemma SortedCons(before: (nat, nat) -> bool, first: nat, rest: seq<nat>)
    requires SortedBy(before, rest) && forall k :: k in rest ==> before(first, k)
    ensures SortedBy(before, [first] + rest)
  {
  }

  lemma SortedTail(before: (nat, nat) -> bool, names: seq<nat>)
    requires SortedBy(before, names) && names != []
    ensures SortedBy(before, names[1..]) && forall k :: k in names[1..] ==> before(names[0], k)
  {
    forall k | k in names[1..] ensures before(names[0], k) {
      var i :| 0 <= i < |names[1..]| && names[1..][i] == k;
      assert names[i + 1] == k;
    }
  }

  lemma {:induction false} FullestSorted(c: Codec, parts: Parts, names: seq<nat>, before: (nat, nat) -> bool)
    requires AllLegible(c, parts) && (forall i :: 0 <= i < |names| ==> names[i] in parts) && SortedBy(before, names)
    ensures SortedBy(before, Fullest(c, parts, names))
    decreases |names|
  {
    hide Filled, SortedBy;
    if names == [] {
      SortedNone(before);
    } else {
      var rest := Fullest(c, parts, names[1..]);
      SortedTail(before, names);
      FullestSorted(c, parts, names[1..], before);
      SortedCons(before, names[0], rest);
      AppendEnds([], rest);
    }
  }

  lemma SortedNone(before: (nat, nat) -> bool)
    ensures SortedBy(before, [])
  {
  }

  lemma {:induction false} AscendingUnique(a: seq<nat>, b: seq<nat>)
    requires Ascending(a) && Ascending(b) && forall k :: k in a <==> k in b
    ensures a == b
    decreases |a|
  {
    FirstIn(a);
    FirstIn(b);
    if a != [] {
      assert a[0] in b && b[0] in a;
      HeadTail(a);
      HeadTail(b);
      var i :| 0 <= i < |b| && b[i] == a[0];
      var j :| 0 <= j < |a| && a[j] == b[0];
      assert a[0] == b[0];
      forall k ensures k in a[1..] <==> k in b[1..] {
        assert k in a <==> k in b;
      }
      AscendingUnique(a[1..], b[1..]);
    }
  }

  predicate Below(m: nat, n: nat) {
    m < n
  }

  /** Two listings of the same segments, both putting those with envelopes in numeric order. */
  lemma SameReading(c: Codec, parts: Parts, names: seq<nat>, numbers: seq<nat>)
    requires AllLegible(c, parts)
    requires forall i :: 0 <= i < |names| ==> names[i] in parts
    requires forall i :: 0 <= i < |numbers| ==> numbers[i] in parts
    requires forall k :: k in names <==> k in numbers
    requires Ascending(Fullest(c, parts, names)) && Ascending(Fullest(c, parts, numbers))
    ensures Joint(c, parts, names) == Joint(c, parts, numbers)
  {
    hide Envelopes, Joint, Filled, Fullest, Ascending;
    AscendingUnique(Fullest(c, parts, names), Fullest(c, parts, numbers));
    JointFullest(c, parts, names);
    JointFullest(c, parts, numbers);
  }

  lemma ListedInOrder(c: Codec, parts: Parts, names: seq<nat>)
    requires AllLegible(c, parts) && Listing(names, parts.Keys) && InOrder(Filled(c, parts))
    ensures (forall i :: 0 <= i < |names| ==> names[i] in parts) && Ascending(Fullest(c, parts, names))
  {
    hide NameBefore, Envelopes, Fullest;
    FullestSorted(c, parts, names, NameBefore);
    ListingAscending(Fullest(c, parts, names), Filled(c, parts));
  }

  lemma NumbersInOrder(c: Codec, parts: Parts, n: nat)
    requires AllLegible(c, parts)
    ensures Ascending(Fullest(c, parts, Numeric(parts.Keys, n)))
  {
    hide Envelopes, Fullest, Filled;
    NumericLists(parts.Keys, n);
    assert SortedBy(Below, Numeric(parts.Keys, n));
    FullestSorted(c, parts, Numeric(parts.Keys, n), Below);
    var full := Fullest(c, parts, Numeric(parts.Keys, n));
    assert forall i, j :: 0 <= i < j < |full| ==> Below(full[i], full[j]);
  }

  /** Segments with envelopes in name order: everything is read as it was appended. */
  lemma ReadsInOrder(c: Codec, parts: Parts, n: nat)
    requires AllLegible(c, parts) && (forall k :: k in parts ==> k < n) && InOrder(Filled(c, parts))
    ensures Joint(c, parts, Sorted(parts.Keys)) == Held(c, parts, n)
  {
    hide NameBefore, Envelopes, Held, Joint, Sorted, Fullest, Filled, Ascending, InOrder, Numeric;
    var names, numbers := Sorted(parts.Keys), Numeric(parts.Keys, n);
    ListedInOrder(c, parts, names);
    NumbersInOrder(c, parts, n);
    NumericLists(parts.Keys, n);
    SameReading(c, parts, names, numbers);
    HeldIsJoint(c, parts, n);
  }

  lemma Places(names: seq<nat>, m: nat, n: nat, before: (nat, nat) -> bool) returns (i: nat, j: nat)
    requires SortedBy(before, names)
    requires m in names && n in names && !before(n, m) && m != n
    ensures i < j < |names| && names[i] == m && names[j] == n
  {
    i :| 0 <= i < |names| && names[i] == m;
    j :| 0 <= j < |names| && names[j] == n;
  }

  /** Of two different elements, one comes first. */
  lemma OneOrder<T>(s: seq<T>, p: nat, q: nat, u: nat, v: nat)
    requires Distinct(s) && p < q < |s| && u < v < |s| && s[u] == s[q]
    ensures s[v] != s[p]
  {
    assert u == q;
  }

  /** Two segments with envelopes listed the wrong way round are read the wrong way round. */
  lemma ReadsOutOfOrder(c: Codec, parts: Parts, n: nat)
    requires AllLegible(c, parts) && (forall k :: k in parts ==> k < n) && !InOrder(Filled(c, parts))
    requires Distinct(Held(c, parts, n))
    ensures Joint(c, parts, Sorted(parts.Keys)) != Held(c, parts, n)
  {
    hide NameBefore, Envelopes, Held, Joint, Sorted, Distinct, Numeric;
    var names, numbers := Sorted(parts.Keys), Numeric(parts.Keys, n);
    var lo, hi :| lo in Filled(c, parts) && hi in Filled(c, parts) && lo < hi && !NameBefore(lo, hi);
    NumericLists(parts.Keys, n);
    var x, y := Places(names, hi, lo, NameBefore);
    var u, v := Places(numbers, lo, hi, Below);
    HeldIsJoint(c, parts, n);
    var p, q := JointOrder(c, parts, names, x, y);
    var p', q' := JointOrder(c, parts, numbers, u, v);
    if Joint(c, parts, names) == Held(c, parts, n) {
      OneOrder(Held(c, parts, n), p, q, p', q');
    }
  }

  /** With no envelope twice, reading a directory returns them as they were appended exactly when
      the segments that hold any are listed in numeric order. */
  lemma ReplaysExactly(c: Codec, d: Dir, parts: Parts, n: nat)
    requires Intact(c, d, parts) && forall k :: k in d ==> k < n
    requires Distinct(Held(c, parts, n))
    ensures ScanDir(c, d).status == Clean
    ensures ScanDir(c, d).envs == Held(c, parts, n) <==> InOrder(Filled(c, parts))
  {
    hide NameBefore, Envelopes, Held, Joint, Sorted, Distinct, Filled;
    var names := Sorted(d.Keys);
    assert forall i :: 0 <= i < |names| ==> names[i] in parts;
    ScanAllJoint(c, d, parts, names);
    if InOrder(Filled(c, parts)) {
      ReadsInOrder(c, parts, n);
    } else {
      ReadsOutOfOrder(c, parts, n);
    }
  }
}
