/** Whole runs of the WAL writer, read back by replay. */
module WalRuns {
  import opened Bytes
  import opened Sequences
  import opened Segments
  import opened SegmentNames
  import opened WalLog
  import opened WalWriters
  import opened WalSessions
  import opened ReplayOrder

  lemma {:induction false} OpenedKeys(segs: Segs, lo: nat, hi: nat)
    requires segs.Keys == Span(0, lo) && lo <= hi
    ensures Opened(segs, lo, hi).Keys == Span(0, hi)
    decreases hi
  {
    if lo < hi {
      OpenedKeys(segs, lo, hi - 1);
      assert Span(0, hi) == Span(0, hi - 1) + {hi};
    }
  }

  lemma LandedKeys(c: Codec, before: Segs, was: nat, after: Segs, at: nat, active: nat, start: Segment, r: Record,
                   maxBytes: nat, forced: bool)
    requires before.Keys == Span(0, was) && was <= at <= was + 1
    requires Landed(c, before, after, at, active, start, r, maxBytes, forced)
    ensures after.Keys == Span(0, active)
  {
    hide FileBytes, Opened;
    var g := start.(mine := start.mine + [r]);
    assert before[at := g].Keys == Span(0, at);
    OpenedKeys(before[at := g], at, active);
  }

  lemma DigitsOfZero(n: nat)
    ensures Digits(0) == Digits(n) <==> n <= 9
  {
    if n >= 10 {
      assert Digits(n) == Digits(n / 10) + 1;
    }
  }

  /** Appends one record; whatever was in the directory, it is the last of the log. */
  method AppendOne(w: Writer, r: Record, ghost held: Parts)
    requires w.Valid() && !w.closed && UpTo(held, w.segIdx)
    modifies w
    ensures w.Valid() && !w.closed && UpTo(held, w.segIdx) && Grown(old(w.segs), old(w.segIdx), w.segs, w.segIdx)
    ensures w.lastIndex == if r.hard then old(w.lastIndex) else r.index
    ensures LogOf(held, w.segs, w.segIdx) == old(LogOf(held, w.segs, w.segIdx)) + [r]
    ensures old(Whole(w.codec, held, w.segs)) ==> Whole(w.codec, held, w.segs)
    ensures old(w.segs.Keys == Span(0, w.segIdx)) ==> w.segs.Keys == Span(0, w.segIdx)
    ensures var at := old(w.segIdx) + One(!r.hard && old(w.lastIndex) != 0 && r.index != old(w.lastIndex) + 1);
            var start := if at == old(w.segIdx) then old(w.segs[w.segIdx]) else NEW_SEGMENT;
            Landed(w.codec, old(w.segs), w.segs, at, w.segIdx, start, r, w.maxSegmentBytes, old(w.Forced()))
    ensures w.appendCount == if w.forceRotateEvery > 0 then old(w.appendCount) + 1 else old(w.appendCount)
  {
    hide Content, Files, Session.Sound, Session.Log, Landed, Span, LogOf, Whole;
    FilesKeys(w.codec, w.disk, w.buf, w.segs, w.segIdx);
    var ok;
    ghost var was, at, start := w.segIdx, w.segIdx, w.segs[w.segIdx];
    if r.hard {
      ok := w.AppendHardState(r.index, r.payload);
    } else {
      if w.lastIndex != 0 && r.index != w.lastIndex + 1 {
        at, start := at + 1, NEW_SEGMENT;
      }
      ok := w.AppendEnvelope(r.index, r.payload);
    }
    LandedGrown(w.codec, old(w.segs), was, w.segs, at, w.segIdx, start, r, w.maxSegmentBytes, old(w.Forced()));
    JoinedLanded(w.codec, held, old(w.segs), was, w.segs, at, w.segIdx, start, r, w.maxSegmentBytes, old(w.Forced()));
    if old(w.segs.Keys == Span(0, w.segIdx)) {
      LandedKeys(w.codec, old(w.segs), was, w.segs, at, w.segIdx, start, r, w.maxSegmentBytes, old(w.Forced()));
    }
  }

  lemma EmptyStart(c: Codec, segs: Segs)
    requires segs == map[0 := NEW_SEGMENT]
    ensures LogOf(map[], segs, 0) == [] && Whole(c, map[], segs)
  {
    EmptyContent(c);
    RecordsNext(Joined(map[], segs), 0);
  }

  /** Any run of normal and hard-state appends on a new directory, with size, forced and conflict
      rotations. Replay reads everything. When no envelope occurs twice it is in append order
      exactly when the segments that hold any sort by name as by number, which at most ten do. */
  method RunAndReplay(c: Codec, ops: seq<Record>, takes: Envelope -> bool, strict: bool, maxBytes: int,
      rotateEvery: int)
    returns (seen: seq<Envelope>, end: ReplayEnd, last: nat, ghost all: Scanned, ghost parts: Parts)
    requires Legible(c, ops)
    ensures parts.Keys == Span(0, last) && RecordsBelow(parts, last + 1) == ops && AllLegible(c, parts)
    ensures Passed(takes, all, seen, end) && all.status == Clean
    ensures (forall e :: takes(e)) ==>
              && end == Finished(Clean) && (last <= 9 ==> seen == Envelopes(c, ops))
              && (Distinct(Envelopes(c, ops)) ==> (seen == Envelopes(c, ops) <==> InOrder(Filled(c, parts))))
    ensures last <= 9 ==> all.envs == Envelopes(c, ops)
    ensures Distinct(Envelopes(c, ops)) ==> (all.envs == Envelopes(c, ops) <==> InOrder(Filled(c, parts)))
    ensures Ascending(Sorted(Span(0, last))) <==> last <= 9
  {
    hide Content, Legible, Envelopes, Files, Session.Sound, Session.Log, NameBefore, Digits, ScanDir, RecordsBelow,
         Sorted, Filled, Distinct, Passed, LogOf, Whole, Landed, Span;
    var w := new Writer(c, map[], strict, 256, maxBytes, rotateEvery);
    StartKeys(w.segs, w.segIdx);
    EmptyStart(c, w.segs);
    assert ops[..|ops|] == ops;
    for i := 0 to |ops|
      invariant fresh(w) && w.codec == c && w.Valid() && !w.closed
      invariant LogOf(map[], w.segs, w.segIdx) == ops[..i] && Whole(c, map[], w.segs)
      invariant w.segs.Keys == Span(0, w.segIdx)
    {
      AppendOne(w, ops[i], map[]);
      TakeDrop(ops, i);
    }
    w.Flush();
    last, parts, all := w.segIdx, Joined(map[], w.segs), ScanDir(c, w.disk);
    seen, end := Replay(c, w.disk, takes);
    PassedAll(takes, all, seen, end);
    ReadBack(c, w.disk, map[], w.segs, w.segIdx);
  }

  lemma StartKeys(segs: Segs, active: nat)
    requires segs == Found(map[0 := []]) && active in segs
    ensures segs == map[0 := NEW_SEGMENT] && active == 0 && segs.Keys == Span(0, 0)
  {
  }

  /** What reading the segments `0` to `active` of a flushed log returns. */
  lemma ReadBack(c: Codec, d: Dir, held: Parts, segs: Segs, active: nat)
    requires Files(c, d, [], segs, active) && Whole(c, held, segs) && segs.Keys == Span(0, active)
    requires Legible(c, LogOf(held, segs, active))
    ensures var envs, parts := Envelopes(c, LogOf(held, segs, active)), Joined(held, segs);
            && parts.Keys == Span(0, active) && AllLegible(c, parts)
            && ScanDir(c, d).status == Clean
            && (active <= 9 ==> ScanDir(c, d).envs == envs)
            && (Distinct(envs) ==> (ScanDir(c, d).envs == envs <==> InOrder(Filled(c, parts))))
    ensures RecordsBelow(Joined(held, segs), active + 1) == LogOf(held, segs, active)
    ensures Ascending(Sorted(Span(0, active))) <==> active <= 9
  {
    hide Content, Legible, Envelopes, NameBefore, Digits, ScanDir, RecordsBelow, Sorted, Filled, Distinct, Held;
    var parts := Joined(held, segs);
    JoinedStored(c, d, [], held, segs, active);
    StoredWhole(c, d, parts, active);
    JoinedLegible(c, held, segs, active);
    SpanInOrder(0, active);
    DigitsOfZero(active);
    ListingAscending(Sorted(Span(0, active)), Span(0, active));
    if active <= 9 {
      ReadsLog(c, d, held, segs, active);
    }
    CleanScan(c, d, parts);
    if Distinct(Envelopes(c, LogOf(held, segs, active))) {
      ReplaysExactly(c, d, parts, active + 1);
    }
  }

  lemma CleanScan(c: Codec, d: Dir, parts: Parts)
    requires Intact(c, d, parts)
    ensures ScanDir(c, d).status == Clean
  {
    hide Content, Joint, Sorted;
    ScanAllJoint(c, d, parts, Sorted(d.Keys));
  }
}
