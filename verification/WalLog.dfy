/** What a WAL directory holds: records grouped by segment, and what its readers return. */
module WalLog {
  import opened Bytes
  import opened Sequences
  import opened Segments
  import opened SegmentNames

  /** The contents of the `seg-<n>.wal` files. */
  type Dir = map<nat, Str>

  /** One append: the index it was given and the marshalled envelope. */
  datatype Record = Record(index: nat, hard: bool, payload: Str)

  type Parts = map<nat, seq<Record>>

  function Payloads(rs: seq<Record>): (ps: seq<Str>)
    ensures |ps| == |rs|
  {
    seq(|rs|, i requires 0 <= i < |rs| => rs[i].payload)
  }

  function Content(c: Codec, rs: seq<Record>): Str {
    Frames(c, Payloads(rs))
  }

  /** The files hold whole frames of `parts`, the active segment together with the buffer. */
  ghost predicate Stored(c: Codec, d: Dir, buf: Str, parts: Parts, active: nat) {
    && parts.Keys == d.Keys && active in d
    && (forall k :: k in d ==> k <= active)
    && (forall k :: k in d && k != active ==> d[k] == Content(c, parts[k]))
    && d[active] + buf == Content(c, parts[active])
  }

  /** The records of the segments below `n`, in segment order. */
  function RecordsBelow(parts: Parts, n: nat): seq<Record> {
    if n == 0 then []
    else RecordsBelow(parts, n - 1) + if n - 1 in parts then parts[n - 1] else []
  }

  lemma {:induction false} RecordsFrame(a: Parts, b: Parts, n: nat)
    requires forall k :: k < n ==> (k in a <==> k in b) && (k in a ==> a[k] == b[k])
    ensures RecordsBelow(a, n) == RecordsBelow(b, n)
  {
    if n > 0 {
      RecordsFrame(a, b, n - 1);
    }
  }

  /** A record added to the last segment is the last record. */
  lemma RecordsAppend(parts: Parts, active: nat, r: Record)
    requires active in parts
    ensures RecordsBelow(parts[active := parts[active] + [r]], active + 1) == RecordsBelow(parts, active + 1) + [r]
  {
    RecordsFrame(parts, parts[active := parts[active] + [r]], active);
    AppendAssoc(RecordsBelow(parts, active), parts[active], [r]);
  }

  lemma RecordsNext(parts: Parts, n: nat)
    ensures RecordsBelow(parts, n + 1) == RecordsBelow(parts, n) + if n in parts then parts[n] else []
  {
  }

  lemma RecordsRotate(parts: Parts, active: nat)
    requires active in parts
    ensures RecordsBelow(parts[active + 1 := []], active + 2) == RecordsBelow(parts, active + 1)
  {
    hide RecordsBelow;
    RecordsNext(parts[active + 1 := []], active + 1);
    RecordsFrame(parts, parts[active + 1 := []], active + 1);
    AppendCut(RecordsBelow(parts, active + 1), [], 0);
  }

  lemma ContentSnoc(c: Codec, rs: seq<Record>, r: Record)
    ensures Content(c, rs + [r]) == Content(c, rs) + Frame(c, r.payload)
    ensures |Content(c, rs + [r])| == |Content(c, rs)| + HEADER + |r.payload|
  {
    hide Frames, Frame;
    assert Payloads(rs + [r]) == Payloads(rs) + [r.payload];
    FramesSnoc(c, Payloads(rs), r.payload);
  }

  predicate Legible(c: Codec, rs: seq<Record>) {
    forall i :: 0 <= i < |rs| ==> Readable(c, rs[i].payload)
  }

  ghost predicate AllLegible(c: Codec, parts: Parts) {
    forall k :: k in parts ==> Legible(c, parts[k])
  }

  lemma {:induction false} LegibleParts(c: Codec, parts: Parts, n: nat)
    requires Legible(c, RecordsBelow(parts, n))
    ensures forall k :: k in parts && k < n ==> Legible(c, parts[k])
  {
    hide Readable;
    if n > 0 {
      var below := RecordsBelow(parts, n - 1);
      var last := if n - 1 in parts then parts[n - 1] else [];
      var all := RecordsBelow(parts, n);
      assert forall i :: 0 <= i < |below| ==> below[i] == all[i];
      assert forall i :: 0 <= i < |last| ==> last[i] == all[|below| + i];
      LegibleParts(c, parts, n - 1);
    }
  }

  /** The envelopes a reader finds in these records. */
  function Envelopes(c: Codec, rs: seq<Record>): seq<Envelope>
    requires Legible(c, rs)
  {
    Decoded(c, Payloads(rs))
  }

  lemma EnvelopesAppend(c: Codec, a: seq<Record>, b: seq<Record>)
    requires Legible(c, a) && Legible(c, b)
    ensures Legible(c, a + b) && Envelopes(c, a + b) == Envelopes(c, a) + Envelopes(c, b)
  {
    hide Decoded;
    assert Payloads(a + b) == Payloads(a) + Payloads(b);
    DecodedAppend(c, Payloads(a), Payloads(b));
  }

  /** The envelopes of the segments below `n`. */
  function Held(c: Codec, parts: Parts, n: nat): seq<Envelope>
    requires forall k :: k in parts ==> Legible(c, parts[k])
  {
    if n == 0 then []
    else Held(c, parts, n - 1) + if n - 1 in parts then Envelopes(c, parts[n - 1]) else []
  }

  lemma {:induction false} HeldIsDecoded(c: Codec, parts: Parts, n: nat)
    requires AllLegible(c, parts)
    ensures Legible(c, RecordsBelow(parts, n))
    ensures Held(c, parts, n) == Envelopes(c, RecordsBelow(parts, n))
  {
    hide Envelopes;
    if n == 0 {
      assert Envelopes(c, []) == [] by { EmptyEnvelopes(c); }
    } else {
      HeldIsDecoded(c, parts, n - 1);
      var last := if n - 1 in parts then parts[n - 1] else [];
      EnvelopesAppend(c, RecordsBelow(parts, n - 1), last);
      EmptyEnvelopes(c);
    }
  }

  lemma EmptyEnvelopes(c: Codec)
    ensures Envelopes(c, []) == []
  {
  }

  /** Reading the listed segments one after the other, up to the first error. */
  function ScanAll(c: Codec, d: Dir, names: seq<nat>): Scanned
    requires forall i :: 0 <= i < |names| ==> names[i] in d
  {
    if names == [] then Scanned([], Clean)
    else
      var r := Scan(c, d[names[0]]);
      if r.status != Clean then r else After(r.envs, ScanAll(c, d, names[1..]))
  }

  /** Only the segments from `lo` up are listed. */
  ghost predicate Lists(names: seq<nat>, d: Dir, lo: nat) {
    && Ascending(names)
    && forall k :: k in names <==> k in d && lo <= k
  }

  function HeldFrom(c: Codec, parts: Parts, lo: nat, n: nat): seq<Envelope>
    requires forall k :: k in parts ==> Legible(c, parts[k])
    decreases n - lo
  {
    if lo >= n then []
    else (if lo in parts then Envelopes(c, parts[lo]) else []) + HeldFrom(c, parts, lo + 1, n)
  }

  lemma {:induction false} HeldFromHeld(c: Codec, parts: Parts, lo: nat, n: nat)
    requires AllLegible(c, parts) && lo <= n
    ensures Held(c, parts, lo) + HeldFrom(c, parts, lo, n) == Held(c, parts, n)
    decreases n - lo
  {
    hide Envelopes;
    if lo < n {
      HeldFromHeld(c, parts, lo + 1, n);
      var mid := if lo in parts then Envelopes(c, parts[lo]) else [];
      AppendAssoc(Held(c, parts, lo), mid, HeldFrom(c, parts, lo + 1, n));
    }
  }

  /** All segments before the last hold whole frames. */
  ghost predicate WholeBelow(c: Codec, d: Dir, parts: Parts, active: nat) {
    && parts.Keys == d.Keys && active in d
    && forall k :: k in d ==> k <= active && (k < active ==> d[k] == Content(c, parts[k]))
  }

  /** Segments listed in numeric order read back as everything the earlier ones hold,
      then whatever the last one gives. */
  lemma {:induction false} ScanAllFrom(c: Codec, d: Dir, parts: Parts, names: seq<nat>, lo: nat, active: nat)
    requires WholeBelow(c, d, parts, active) && AllLegible(c, parts)
    requires lo <= active && Lists(names, d, lo)
    ensures ScanAll(c, d, names) == After(HeldFrom(c, parts, lo, active), Scan(c, d[active]))
    decreases active - lo
  {
    hide Scan, Envelopes, Content;
    if lo in d {
      FirstListed(names, d, lo);
    }
    var last := Scan(c, d[active]);
    if lo == active {
      FirstIn(names[1..]);
      AppendEnds([], last.envs);
      AppendCut(last.envs, [], 0);
    } else {
      var rest := HeldFrom(c, parts, lo + 1, active);
      if lo in d {
        ScanAllFrom(c, d, parts, names[1..], lo + 1, active);
        ScanSegment(c, d, parts, lo);
        AppendAssoc(Envelopes(c, parts[lo]), rest, last.envs);
      } else {
        ScanAllFrom(c, d, parts, names, lo + 1, active);
        AppendEnds([], rest);
      }
    }
  }

  lemma FirstListed(names: seq<nat>, d: Dir, lo: nat)
    requires Lists(names, d, lo) && lo in d
    ensures names != [] && names[0] == lo && Lists(names[1..], d, lo + 1)
  {
    assert lo in names;
    var i :| 0 <= i < |names| && names[i] == lo;
    assert names[0] in names;
    HeadTail(names);
    forall k ensures k in names[1..] <==> k in d && lo + 1 <= k {
      if k in names[1..] {
        var j :| 0 <= j < |names[1..]| && names[1..][j] == k;
        assert names[0] < names[j + 1];
      }
    }
  }

  lemma ScanSegment(c: Codec, d: Dir, parts: Parts, k: nat)
    requires k in d && k in parts && d[k] == Content(c, parts[k]) && Legible(c, parts[k])
    ensures Scan(c, d[k]) == Scanned(Envelopes(c, parts[k]), Clean)
  {
    ScanWhole(c, Payloads(parts[k]));
  }

  /** The segments of a directory in the order they are read. */
  ghost function ScanDir(c: Codec, d: Dir): Scanned {
    ScanAll(c, d, Sorted(d.Keys))
  }

  lemma ScanListing(c: Codec, d: Dir, parts: Parts, active: nat)
    requires WholeBelow(c, d, parts, active) && AllLegible(c, parts) && InOrder(d.Keys)
    ensures ScanDir(c, d) == After(Held(c, parts, active), Scan(c, d[active]))
  {
    hide ScanAll, Scan, NameBefore, Content, Envelopes, Held, HeldFrom, Sorted;
    var names := Sorted(d.Keys);
    ListingAscending(names, d.Keys);
    ScanAllFrom(c, d, parts, names, 0, active);
    HeldFromHeld(c, parts, 0, active);
    assert Held(c, parts, 0) == [] by { HeldNone(c, parts); }
    AppendEnds([], HeldFrom(c, parts, 0, active));
  }

  lemma HeldNone(c: Codec, parts: Parts)
    requires AllLegible(c, parts)
    ensures Held(c, parts, 0) == []
  {
  }

  lemma StoredWhole(c: Codec, d: Dir, parts: Parts, active: nat)
    requires Stored(c, d, [], parts, active)
    ensures WholeBelow(c, d, parts, active) && d[active] == Content(c, parts[active])
  {
    assert d[active] + [] == d[active];
  }

  /** Reading a directory of whole frames whose names sort in numeric order returns the
      envelopes in append order. */
  lemma ReadsHeld(c: Codec, d: Dir, parts: Parts, active: nat)
    requires Stored(c, d, [], parts, active) && AllLegible(c, parts) && InOrder(d.Keys)
    ensures ScanDir(c, d) == Scanned(Held(c, parts, active + 1), Clean)
  {
    hide ScanDir, Scan, NameBefore, Content, Envelopes;
    StoredWhole(c, d, parts, active);
    ScanListing(c, d, parts, active);
    ScanSegment(c, d, parts, active);
  }

  /** A crash may leave the last segment cut after any byte `k`. Reading then sees exactly the
      longest prefix of whole frames; it reports an error exactly when a whole header of the
      torn frame survived. */
  lemma ReadsCut(c: Codec, d: Dir, parts: Parts, active: nat, k: nat)
    requires Stored(c, d, [], parts, active) && AllLegible(c, parts) && InOrder(d.Keys)
    requires k <= |d[active]|
    ensures var rs := parts[active];
            var n := WholeFrames(Payloads(rs), k);
            && |Content(c, rs[..n])| <= k
            && (n < |rs| ==> k < |Content(c, rs[..n + 1])|)
            && ScanDir(c, d[active := d[active][..k]])
               == Scanned(Held(c, parts, active) + Envelopes(c, rs[..n]),
                          if k - |Content(c, rs[..n])| < HEADER then Clean else TornPayload)
  {
    hide Scan, ScanDir, Frames, Decoded, WholeFrames, NameBefore, Held;
    var rs := parts[active];
    var n := WholeFrames(Payloads(rs), k);
    StoredWhole(c, d, parts, active);
    assert Payloads(rs[..n]) == Payloads(rs)[..n];
    if n < |rs| {
      assert Payloads(rs[..n + 1]) == Payloads(rs)[..n + 1];
    }
    WholeFramesLongest(c, Payloads(rs), k);
    ScanCut(c, Payloads(rs), k);
    var cut := d[active := d[active][..k]];
    assert cut.Keys == d.Keys;
    ScanListing(c, cut, parts, active);
  }

  /** One more listed segment read. */
  lemma ScanAllStep(c: Codec, d: Dir, names: seq<nat>, i: nat, seen: seq<Envelope>)
    requires i < |names| && forall j :: 0 <= j < |names| ==> names[j] in d
    requires ScanAll(c, d, names) == After(seen, ScanAll(c, d, names[i..]))
    ensures var r := Scan(c, d[names[i]]);
            ScanAll(c, d, names) == if r.status != Clean then After(seen, r)
                                    else After(seen + r.envs, ScanAll(c, d, names[i + 1..]))
  {
    hide Scan;
    assert names[i..][0] == names[i] && names[i..][1..] == names[i + 1..];
    AppendAssoc(seen, Scan(c, d[names[i]]).envs, ScanAll(c, d, names[i + 1..]).envs);
  }

  lemma ScanAllEnds(c: Codec, d: Dir, names: seq<nat>)
    requires forall j :: 0 <= j < |names| ==> names[j] in d
    ensures ScanAll(c, d, names) == After([], ScanAll(c, d, names[0..]))
    ensures ScanAll(c, d, names[|names|..]) == Scanned([], Clean)
    ensures forall seen :: After(seen, Scanned([], Clean)) == Scanned(seen, Clean)
    ensures Tuples([]) == [] && LastHardState([]) == []
  {
    assert names[0..] == names;
    forall seen: seq<Envelope> ensures After(seen, Scanned([], Clean)) == Scanned(seen, Clean) {
      assert seen + [] == seen;
    }
  }

  /** Passes the envelopes in a directory to the callback, collected in `seen`. */
  method Replay(c: Codec, d: Dir, takes: Envelope -> bool) returns (seen: seq<Envelope>, end: ReplayEnd)
    ensures Passed(takes, ScanDir(c, d), seen, end)
  {
    hide Scan, ScanAll, Tuples, LastHardState, NameBefore, Sorted;
    var files := ListSegments(d.Keys);
    ghost var names := files;
    seen := [];
    ScanAllEnds(c, d, names);
    for i := 0 to |files|
      invariant ScanAll(c, d, names) == After(seen, ScanAll(c, d, names[i..])) && AllTaken(takes, seen)
    {
      ScanAllStep(c, d, names, i, seen);
      ghost var r, before := Scan(c, d[files[i]]), seen;
      var es, ended := ReplaySegment(c, d[files[i]], takes);
      PassedAfter(takes, seen, r, es, ended);
      seen := seen + es;
      if ended != Finished(Clean) {
        if ended.Refused? {
          PassedPrefix(takes, After(before, r), ScanAll(c, d, names), seen);
        }
        return seen, ended;
      }
    }
    return seen, Finished(Clean);
  }

  function LastN<T>(s: seq<T>, n: nat): seq<T> {
    if |s| > n then s[|s| - n..] else s
  }

  /** The last `limit` normal entries, oldest first; nothing when a segment cannot be read. */
  method TailLogicalTuples(c: Codec, d: Dir, limit: nat) returns (tail: seq<Tuple>, status: Status)
    ensures status == if limit > 0 then ScanDir(c, d).status else Clean
    ensures tail == if limit > 0 && status == Clean then LastN(Tuples(ScanDir(c, d).envs), limit) else []
  {
    hide Scan, ScanAll, Tuples, LastHardState, NameBefore, Sorted;
    var files := ListSegments(d.Keys);
    ghost var names := files;
    if limit == 0 {
      return [], Clean;
    }
    var all: seq<Tuple> := [];
    ghost var seen: seq<Envelope> := [];
    ScanAllEnds(c, d, names);
    for i := 0 to |files|
      invariant all == Tuples(seen) && ScanAll(c, d, names) == After(seen, ScanAll(c, d, names[i..]))
    {
      ScanAllStep(c, d, names, i, seen);
      var ts, st := CollectSegmentTuplesAll(c, d[files[i]]);
      if st != Clean {
        return [], st;
      }
      ghost var es := Scan(c, d[files[i]]).envs;
      TuplesAppend(seen, es);
      all := all + ts;
      seen := seen + es;
    }
    return if |all| > limit then all[|all| - limit..] else all, Clean;
  }

  /** The payload of the last hard state in the directory. */
  method ReplayLastHardState(c: Codec, d: Dir) returns (hs: Option<Str>, status: Status)
    ensures status == ScanDir(c, d).status
    ensures var last := LastHardState(ScanDir(c, d).envs);
            hs == if status != Clean || last == [] then None else Some(last)
  {
    hide Scan, ScanAll, Tuples, LastHardState, NameBefore, Sorted;
    var files := ListSegments(d.Keys);
    ghost var names := files;
    var found: Str := [];
    ghost var seen: seq<Envelope> := [];
    ScanAllEnds(c, d, names);
    for i := 0 to |files|
      invariant found == LastHardState(seen) && ScanAll(c, d, names) == After(seen, ScanAll(c, d, names[i..]))
    {
      ScanAllStep(c, d, names, i, seen);
      var st;
      found, st := LastHardStateInSegment(c, d[files[i]], seen, found);
      ghost var es := Scan(c, d[files[i]]).envs;
      if st != Clean {
        return None, st;
      }
      seen := seen + es;
    }
    if found == [] {
      return None, Clean;
    }
    return Some(found), Clean;
  }
}
