/** Runs of the WAL writer that break what a reader expects, and the runs around them that do not. */
module WalFaults {
  import opened Bytes
  import opened Sequences
  import opened Segments
  import opened SegmentNames
  import opened WalLog
  import opened WalWriters
  import opened WalSessions
  import opened ReplayOrder
  import opened WalRuns

  // ---------------------------------------------------------------- one record in each segment

  /** Records with consecutive indices, each of which decodes and is far smaller than a segment. */
  predicate Plain(c: Codec, ops: seq<Record>) {
    && (forall i :: 0 <= i < |ops| ==> !ops[i].hard && ops[i].index == 1 + i)
    && forall i :: 0 <= i < |ops| ==>
         0 < |ops[i].payload| < 64 * 1024 * 1024 - HEADER && c.unmarshal(ops[i].payload).Some?
  }

  /** The first `n` records each in its own segment, behind them an empty one. */
  ghost predicate Spread(segs: Segs, ops: seq<Record>, n: nat)
    requires n <= |ops|
  {
    && segs.Keys == Span(0, n) && segs[n] == NEW_SEGMENT
    && forall k :: 0 <= k < n ==> segs[k] == Segment([], [ops[k]])
  }

  lemma SpreadMore(c: Codec, before: Segs, after: Segs, ops: seq<Record>, n: nat, active: nat)
    requires n < |ops| && Spread(before, ops, n) && Plain(c, ops)
    requires Landed(c, before, after, n, active, NEW_SEGMENT, ops[n], 64 * 1024 * 1024, true)
    ensures active == n + 1 && Spread(after, ops, n + 1)
  {
    hide Content;
    var g := Segment([], [] + [ops[n]]);
    assert |FileBytes(c, g)| == HEADER + |ops[n].payload| by {
      EmptyContent(c);
      ContentSnoc(c, [], ops[n]);
    }
    OpenedMore(before[n := g], n, n);
    assert after == before[n := g][n + 1 := NEW_SEGMENT];
    assert Span(0, n + 1) == Span(0, n) + {n + 1};
  }

  lemma SpreadAt(c: Codec, segs: Segs, ops: seq<Record>, k: nat)
    requires Plain(c, ops) && Spread(segs, ops, |ops|) && k in segs
    requires Legible(c, Joined(map[], segs)[k])
    ensures k <= |ops| && (Envelopes(c, Joined(map[], segs)[k]) != [] <==> k < |ops|)
  {
    hide Envelopes;
    if k < |ops| {
      assert Joined(map[], segs)[k] == [ops[k]];
      OneEnvelope(c, ops[k]);
    } else {
      assert Joined(map[], segs)[k] == [];
      EmptyEnvelopes(c);
    }
  }

  lemma SpreadFilled(c: Codec, segs: Segs, ops: seq<Record>)
    requires Plain(c, ops) && Spread(segs, ops, |ops|) && AllLegible(c, Joined(map[], segs))
    ensures InOrder(Filled(c, Joined(map[], segs))) <==> |ops| <= 10
  {
    hide Envelopes, NameBefore, Digits, Plain, Legible;
    var parts := Joined(map[], segs);
    forall k | k in segs ensures k <= |ops| && (Envelopes(c, parts[k]) != [] <==> k < |ops|) {
      SpreadAt(c, segs, ops, k);
    }
    if ops == [] {
      assert Filled(c, parts) == {};
    } else {
      assert Filled(c, parts) == Span(0, |ops| - 1);
      hide Filled, Spread, Joined;
      SpanInOrder(0, |ops| - 1);
      DigitsOfZero(|ops| - 1);
    }
  }

  lemma OneEnvelope(c: Codec, r: Record)
    requires Readable(c, r.payload) && r.payload != []
    ensures Legible(c, [r]) && Envelopes(c, [r]) == [c.unmarshal(r.payload).value]
  {
    assert Payloads([r]) == [r.payload] && AllReadable(c, [r.payload]);
    assert Decoded(c, [r.payload]) == EnvelopeOf(c, r.payload) + Decoded(c, []);
  }

  /** With a rotation after every append, replay is right exactly for runs of at most ten records. */
  method OneRecordEach(c: Codec, ops: seq<Record>, takes: Envelope -> bool)
    returns (seen: seq<Envelope>, end: ReplayEnd, ghost all: Scanned)
    requires Plain(c, ops) && Legible(c, ops)
    ensures Passed(takes, all, seen, end)
    ensures Distinct(Envelopes(c, ops)) ==> (all.envs == Envelopes(c, ops) <==> |ops| <= 10)
    ensures (forall e :: takes(e)) && Distinct(Envelopes(c, ops)) ==> (seen == Envelopes(c, ops) <==> |ops| <= 10)
  {
    hide Content, Legible, Envelopes, Files, Session.Sound, Session.Log, NameBefore, Digits, ScanDir, RecordsBelow,
         Sorted, Filled, Distinct, Passed, LogOf, Whole, Landed, Span, Plain, Spread;
    var w := new Writer(c, map[], true, 256, 0, 1);
    StartKeys(w.segs, w.segIdx);
    EmptyStart(c, w.segs);
    SpreadNone(w.segs, ops);
    assert ops[..|ops|] == ops;
    for i := 0 to |ops|
      invariant fresh(w) && w.codec == c && w.Valid() && !w.closed
      invariant w.maxSegmentBytes == 64 * 1024 * 1024 && w.forceRotateEvery == 1
      invariant LogOf(map[], w.segs, w.segIdx) == ops[..i] && Whole(c, map[], w.segs)
      invariant w.segs.Keys == Span(0, w.segIdx)
      invariant w.segIdx == i && Spread(w.segs, ops, i) && w.lastIndex == i
    {
      NextPlain(c, ops, w.segs, i);
      ghost var before := w.segs;
      AppendOne(w, ops[i], map[]);
      SpreadMore(c, before, w.segs, ops, i, w.segIdx);
      TakeDrop(ops, i);
    }
    w.Flush();
    all := ScanDir(c, w.disk);
    seen, end := Replay(c, w.disk, takes);
    PassedAll(takes, all, seen, end);
    ReadBack(c, w.disk, map[], w.segs, w.segIdx);
    SpreadFilled(c, w.segs, ops);
  }

  lemma SpreadNone(segs: Segs, ops: seq<Record>)
    requires segs == map[0 := NEW_SEGMENT]
    ensures Spread(segs, ops, 0)
  {
  }

  lemma NextPlain(c: Codec, ops: seq<Record>, segs: Segs, i: nat)
    requires Plain(c, ops) && i < |ops| && Spread(segs, ops, i)
    ensures !ops[i].hard && ops[i].index == 1 + i && i in segs && segs[i] == NEW_SEGMENT
  {
  }

  function NoChecksum(s: Str): word32 {
    0
  }

  function SizeEnvelope(s: Str): Option<Envelope> {
    Some(Envelope(|s|, 0, Normal, [], 0))
  }

  const SIZE_CODEC := Codec(NoChecksum, SizeEnvelope)

  function SizedRecord(i: nat): Record {
    Record(1 + i, false, seq(1 + i, _ => 0))
  }

  function TakeAny(e: Envelope): bool {
    true
  }

  /** The envelopes of payloads that decode, one by one. */
  lemma {:induction false} DecodedAt(c: Codec, payloads: seq<Str>)
    requires AllReadable(c, payloads) && forall i :: 0 <= i < |payloads| ==> payloads[i] != []
    ensures |Decoded(c, payloads)| == |payloads|
    ensures forall i :: 0 <= i < |payloads| ==> Decoded(c, payloads)[i] == c.unmarshal(payloads[i]).value
    decreases |payloads|
  {
    if payloads != [] {
      DecodedAt(c, payloads[1..]);
    }
  }

  lemma SizedOps(ops: seq<Record>)
    requires |ops| <= 100 && forall i :: 0 <= i < |ops| ==> ops[i] == SizedRecord(i)
    ensures Plain(SIZE_CODEC, ops) && Legible(SIZE_CODEC, ops) && Distinct(Envelopes(SIZE_CODEC, ops))
  {
    DecodedAt(SIZE_CODEC, Payloads(ops));
  }

  /** Eleven records in eleven segments come back in another order. */
  method ElevenSegments() returns (ops: seq<Record>, seen: seq<Envelope>)
    ensures |ops| == 11 && Legible(SIZE_CODEC, ops) && seen != Envelopes(SIZE_CODEC, ops)
  {
    hide Plain, Legible, Distinct, Envelopes;
    ops := seq(11, i requires 0 <= i => SizedRecord(i));
    SizedOps(ops);
    ghost var all;
    var end;
    seen, end, all := OneRecordEach(SIZE_CODEC, ops, TakeAny);
  }

  // ---------------------------------------------------------------- a rotation during a prune

  lemma {:induction false} OpenedNew(segs: Segs, lo: nat, hi: nat)
    requires lo <= hi
    ensures forall k :: k in Opened(segs, lo, hi) && k !in segs ==> Opened(segs, lo, hi)[k] == NEW_SEGMENT
    decreases hi
  {
    if lo < hi {
      OpenedNew(segs, lo, hi - 1);
    }
  }

  /** After the first append on a new directory all segments but the first are empty. */
  lemma FirstAppend(c: Codec, d: Dir, buf: Str, after: Segs, active: nat, r: Record, maxBytes: nat, p: nat)
    requires Files(c, d, buf, after, active) && p > 0
    requires Landed(c, map[0 := NEW_SEGMENT], after, 0, active, NEW_SEGMENT, r, maxBytes, true)
    ensures active > 0 && forall k :: k in d && k != 0 ==> Prunable(c, d, 0, p, k)
  {
    hide Opened, Content;
    var g := Segment([], [] + [r]);
    OpenedNew(map[0 := NEW_SEGMENT][0 := g], 0, active);
    EmptyContent(c);
    forall k | k in d && k != 0 ensures Prunable(c, d, 0, p, k) {
      assert after[k] == NEW_SEGMENT;
      assert d[k] == [] by {
        if k == active {
          assert d[k] + buf == [];
        }
      }
    }
  }

  /** The lock is released with segment 0 active, an append rotates, and the scan then removes the
      new active segment, which the writer keeps writing to. */
  method RotationDuringPrune(c: Codec, r: Record, p: nat) returns (w: Writer)
    requires p > 0
    ensures fresh(w) && w.segIdx !in w.disk && !w.closed
  {
    hide Files, Session.Sound, Session.Log, Landed, Span, LogOf, Whole, Prunable;
    w := new Writer(c, map[], true, 256, 0, 1);
    StartKeys(w.segs, w.segIdx);
    var captured := w.segIdx;
    AppendOne(w, r, map[]);
    FirstAppend(c, w.disk, w.buf, w.segs, w.segIdx, r, w.maxSegmentBytes, p);
    ghost var before := w.disk;
    AllReadableNow(c, before, captured, p);
    var removed, unread, gone := w.PruneScan(captured, p);
  }

  lemma AllReadableNow(c: Codec, d: Dir, captured: nat, p: nat)
    requires forall k :: k in d && k != captured ==> Prunable(c, d, captured, p, k)
    ensures forall k :: k in d && k != captured ==> Scan(c, d[k]).status == Clean
  {
  }
}
