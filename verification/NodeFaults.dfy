/** A restart after a crash between raft's own files and the WAL: the next prune can take the last hard
    state. */
module NodeFaults {
  import opened Bytes
  import opened Sequences
  import opened Segments
  import opened SegmentNames
  import opened WalLog
  import opened WalWriters
  import opened WalSessions
  import opened WalRuns
  import opened WalFaults
  import opened WalPruning
  import opened HardSurvival
  import opened ShadowNodes

  lemma {:induction false} NoHard(envs: seq<Envelope>)
    requires forall i :: 0 <= i < |envs| ==> envs[i].kind != HardState
    ensures !HasHard(envs)
    decreases |envs|
  {
    if envs != [] {
      NoHard(envs[..|envs| - 1]);
    }
  }

  /** With a hard state only at the front of the log, the first segment has the last one. */
  lemma {:induction false} OnlyHard(c: Codec, parts: Parts, n: nat)
    requires AllLegible(c, parts) && 0 in parts && HasHard(Envelopes(c, parts[0])) && n > 0
    requires forall i :: |Envelopes(c, parts[0])| <= i < |Held(c, parts, n)| ==> Held(c, parts, n)[i].kind != HardState
    ensures HardSegment(c, parts, n) == Some(0) && |Held(c, parts, n)| >= |Envelopes(c, parts[0])|
    decreases n
  {
    hide Envelopes, HasHard;
    HeldNone(c, parts);
    if n > 1 {
      var front, all := Held(c, parts, n - 1), Held(c, parts, n);
      assert forall i :: 0 <= i < |front| ==> all[i] == front[i];
      OnlyHard(c, parts, n - 1);
      if n - 1 in parts {
        var last := Envelopes(c, parts[n - 1]);
        assert forall i :: 0 <= i < |last| ==> last[i] == all[|front| + i];
        NoHard(last);
      }
    }
  }

  /** The directory a writer leaves after one hard state and the rotation behind it. */
  ghost predicate OneHardState(w: Wire, d: Dir, parts: Parts, h: HardStateMsg) {
    && parts.Keys == d.Keys && 0 in d && AllLegible(w.codec, parts)
    && (forall k :: k in d ==> d[k] == Content(w.codec, HeldAt(parts, k)))
    && Envelopes(w.codec, parts[0]) == [HardEnvelope(w, h)]
    && (exists k :: k in d && k > 0)
    && forall k :: k in d && k > 0 ==> parts[k] == []
  }

  /** The segments after one record and the rotation behind it. */
  lemma FirstOfAll(c: Codec, d: Dir, buf: Str, segs: Segs, active: nat, r: Record, maxBytes: nat)
    requires Files(c, d, buf, segs, active)
    requires Landed(c, map[0 := NEW_SEGMENT], segs, 0, active, NEW_SEGMENT, r, maxBytes, true)
    ensures active > 0 && 0 in d && segs[0] == Segment([], [r]) && d[0] == Content(c, [r])
    ensures forall k :: k in d && k > 0 ==> segs[k] == NEW_SEGMENT && d[k] == []
  {
    hide Content, Opened;
    var first := map[0 := NEW_SEGMENT][0 := Segment([], [] + [r])];
    OpenedNew(first, 0, active);
    OpenedFirst(first, active);
    EmptyContent(c);
    AppendEnds([], [r]);
    AppendEnds([], Content(c, [r]));
    forall k | k in d && k > 0 ensures segs[k] == NEW_SEGMENT && d[k] == [] {
      if k == active {
        assert d[k] + buf == [];
      }
    }
  }

  lemma LeftBehind(w: Wire, d: Dir, buf: Str, segs: Segs, active: nat, h: HardStateMsg, maxBytes: nat)
    requires Files(w.codec, d, buf, segs, active) && Fits(w, HardEnvelope(w, h))
    requires Landed(w.codec, map[0 := NEW_SEGMENT], segs, 0, active, NEW_SEGMENT,
                    Record(h.commit, true, w.marshal(HardEnvelope(w, h))), maxBytes, true)
    ensures OneHardState(w, d, Joined(map[], segs), h)
  {
    hide Content, Landed, Fits, Envelopes, FileBytes;
    var c, r := w.codec, Record(h.commit, true, w.marshal(HardEnvelope(w, h)));
    var parts := Joined(map[], segs);
    FirstOfAll(c, d, buf, segs, active, r, maxBytes);
    EmptyContent(c);
    FitsReadable(w, HardEnvelope(w, h));
    OneEnvelope(c, r);
    assert parts[0] == [r];
    assert forall k :: k in d && k > 0 ==> parts[k] == [];
    assert active in d;
  }

  lemma FitsReadable(w: Wire, e: Envelope)
    requires Fits(w, e)
    ensures var b := w.marshal(e);
            Readable(w.codec, b) && b != [] && w.codec.unmarshal(b) == Some(e)
  {
  }

  lemma {:induction false} OpenedFirst(segs: Segs, hi: nat)
    requires 0 in segs
    ensures 0 in Opened(segs, 0, hi) && Opened(segs, 0, hi)[0] == segs[0]
    decreases hi
  {
    if hi > 0 {
      OpenedFirst(segs, hi - 1);
    }
  }

  /** The writer of that directory. */
  method WriteHardState(w: Wire, h: HardStateMsg) returns (d: Dir, ghost parts: Parts)
    requires Fits(w, HardEnvelope(w, h))
    ensures OneHardState(w, d, parts, h)
  {
    hide Content, Files, Session.Sound, Session.Log, Landed, Span, LogOf, Whole, OneHardState, Joined, Fits;
    var b := w.marshal(HardEnvelope(w, h));
    var wr := new Writer(w.codec, map[], true, 256, 0, 1);
    StartKeys(wr.segs, wr.segIdx);
    AppendOne(wr, Record(h.commit, true, b), map[]);
    d, parts := wr.disk, Joined(map[], wr.segs);
    LeftBehind(w, d, wr.buf, wr.segs, wr.segIdx, h, wr.maxSegmentBytes);
  }

  lemma OneHeld(w: Wire, d: Dir, parts: Parts, h: HardStateMsg, active: nat)
    requires OneHardState(w, d, parts, h) && active in d
    ensures Legible(w.codec, LogOf(parts, Found(d), active))
    ensures Envelopes(w.codec, LogOf(parts, Found(d), active)) == [HardEnvelope(w, h)]
    ensures Joined(parts, Found(d)) == parts
  {
    hide Content, Envelopes, HardEnvelope, Legible;
    JoinedFound(w.codec, parts, d);
    assert Joined(parts, Found(d)) == parts;
    HeldIsDecoded(w.codec, parts, active + 1);
    OnlyFirst(w.codec, parts, active + 1);
  }

  lemma {:induction false} OnlyFirst(c: Codec, parts: Parts, n: nat)
    requires AllLegible(c, parts) && 0 in parts && n > 0 && forall k :: k in parts && k > 0 ==> parts[k] == []
    ensures Held(c, parts, n) == Envelopes(c, parts[0])
  {
    hide Envelopes;
    HeldNone(c, parts);
    EmptyEnvelopes(c);
    if n > 1 {
      OnlyFirst(c, parts, n - 1);
      AppendCut(Held(c, parts, n - 1), [], 0);
    } else {
      AppendEnds([], Envelopes(c, parts[0]));
    }
  }

  lemma OneCommitted(w: Wire, last: HardStateMsg, e: Entry, applied: nat)
    ensures LoggedBy(w, last, Ready(EMPTY_HARD_STATE, [e])) == EntryEnvelope(w, e)
    ensures AppliedAfter(applied, [e]) == if e.NormalEntry? && e.payload == None then applied else e.index
    ensures CountedEntries([e]) == if e.NormalEntry? && e.payload == None then 0 else 1
  {
    hide EntryEnvelope;
    assert [e][..0] == [];
    assert EntryEnvelopes(w, [e]) == EntryEnvelopes(w, []) + EntryEnvelope(w, e);
    AppendEnds([], EntryEnvelope(w, e));
  }

  /** Behind the hard state only an entry was logged: the first segment holds the hard state, is
      closed, and lies below any floor past the commit. */
  lemma HardStateExposed(w: Wire, d: Dir, buf: Str, held: Parts, segs: Segs, active: nat, h: HardStateMsg, e: Envelope,
                         p: nat)
    requires Files(w.codec, d, buf, segs, active) && Whole(w.codec, held, segs) && 0 in segs && active > 0
    requires Legible(w.codec, LogOf(held, segs, active))
    requires Legible(w.codec, Joined(held, segs)[0])
    requires Envelopes(w.codec, Joined(held, segs)[0]) == [HardEnvelope(w, h)]
    requires Envelopes(w.codec, LogOf(held, segs, active)) == [HardEnvelope(w, h), e]
    requires e.kind == Normal && h.commit < p
    ensures AllLegible(w.codec, Joined(held, segs)) && HardSegment(w.codec, Joined(held, segs), active + 1) == Some(0)
    ensures 0 in d && Prunable(w.codec, d, active, p, 0)
    ensures forall k :: k in d && k != active ==> Scan(w.codec, d[k]).status == Clean
  {
    hide Content, Envelopes, Scan, LogOf, Whole, Legible, FileBytes, HardSegment, Held;
    var c, parts := w.codec, Joined(held, segs);
    FilesKeys(c, d, buf, segs, active);
    JoinedLegible(c, held, segs, active);
    assert HasHard([HardEnvelope(w, h)]);
    OnlyHard(c, parts, active + 1);
    assert MaxIndex([HardEnvelope(w, h)]) == h.commit by {
      assert [HardEnvelope(w, h)][..0] == [] && MaxIndex([]) == 0;
    }
    PrunableParts(c, d, buf, held, segs, active, active, p, 0);
    JoinedStored(c, d, buf, held, segs, active);
    forall k | k in d && k != active ensures Scan(c, d[k]).status == Clean {
      ScanSegment(c, d, parts, k);
    }
  }

  /** The node restarted on that directory; raft's own files hold an entry at `index`. */
  method Reopened(w: Wire, h: HardStateMsg, index: nat) returns (n: Node)
    requires Fits(w, HardEnvelope(w, h))
    ensures fresh(n) && fresh(n.wal) && fresh(n.ring) && fresh(n.ring.ring)
    ensures n.Valid() && n.Sound() && n.wire == w && n.snapshotThreshold == 1
    ensures n.Envs() == [HardEnvelope(w, h)] && 0 in n.wal.segs && n.wal.segIdx > 0
    ensures Legible(w.codec, Joined(n.held, n.wal.segs)[0])
    ensures Envelopes(w.codec, Joined(n.held, n.wal.segs)[0]) == [HardEnvelope(w, h)]
    ensures n.lastApplied == index && n.lastSnapshot == n.prunedThrough == n.sinceSnapshot == 0
  {
    hide Fits, OneHardState, LogOf, Whole, Legible, Envelopes, Writer.Valid, Node.Recorded, Content, Adopted, Seed,
         LastN, HardStateReaches, InOrder, CommitIndexed, ScanDir;
    var d, parts := WriteHardState(w, h);
    OneStart(w, d, parts, h);
    n := new Node(w, d, 1, 1, true, 0, 0, 0, index, parts);
    n.ActiveThere();
    OneHeld(w, d, parts, h, n.wal.segIdx);
  }

  /** The first Ready commits that entry and brings no hard state. */
  method Restarted(w: Wire, h: HardStateMsg, index: nat, term: nat, app: Str) returns (n: Node, target: nat)
    requires 0 < index && Fits(w, HardEnvelope(w, h)) && Fits(w, NormalEnvelope(w, index, term, app))
    ensures n.Valid() && n.Sound() && n.wire == w && target == index && fresh(n) && fresh(n.wal)
    ensures n.Envs() == [HardEnvelope(w, h), NormalEnvelope(w, index, term, app)]
    ensures 0 in n.wal.segs && n.wal.segIdx > 0 && Legible(w.codec, Joined(n.held, n.wal.segs)[0])
    ensures Envelopes(w.codec, Joined(n.held, n.wal.segs)[0]) == [HardEnvelope(w, h)]
  {
    hide Fits, Legible, Envelopes, Node.Wired, Node.Recorded, Node.Sound, Node.Covered, AllFit, LoggedBy, AppliedAfter,
         CountedEntries, Joined, Promised;
    n := Reopened(w, h, index);
    var e := NormalEntry(index, term, Some(app));
    OneCommitted(w, n.lastHard, e, index);
    AllFitOne(w, NormalEnvelope(w, index, term, app));
    ghost var before := n.wal.segs;
    target := n.ProcessReady(Ready(EMPTY_HARD_STATE, [e]), EntriesPruned, 0);
    SameFirst(n.held, before, n.wal.segs);
  }

  lemma SameFirst(held: Parts, before: Segs, after: Segs)
    requires 0 in before && 0 in after && after[0] == before[0]
    ensures Joined(held, before)[0] == Joined(held, after)[0]
  {
  }

  /** A node writes raft's own files before it appends to the WAL, and a crash comes in between. Raft
      restarts from its files, so the first Ready brings an entry past the commit the WAL knows and
      no hard state. The snapshot that follows moves the floor to that entry and the prune
      removes the only hard state. */
  method LostAfterCrash(w: Wire, h: HardStateMsg, index: nat, term: nat, app: Str)
    returns (n: Node, ghost was: seq<Envelope>)
    requires h.commit < index && Fits(w, HardEnvelope(w, h)) && Fits(w, NormalEnvelope(w, index, term, app))
    ensures was == [HardEnvelope(w, h), NormalEnvelope(w, index, term, app)]
    ensures n.Valid() && n.Sound() && LastHardState(was) == w.marshalHard(h) && LastHardState(n.Envs()) == []
  {
    hide Fits, LogOf, Legible, Envelopes, Writer.Valid, Node.Wired, Node.Recorded, Node.Sound, Node.HardAt,
         HardSegment, Scan, Content, Whole, Files, HardStateReaches, LastHardState, From, Joined;
    var target;
    n, target := Restarted(w, h, index, term, app);
    was := n.Envs();
    n.ActiveThere();
    HardStateExposed(w, n.wal.disk, n.wal.buf, n.held, n.wal.segs, n.wal.segIdx, h, was[1], target);
    var removed, unread, gone := n.PrunePass(target, n.wal.segIdx);
    assert 0 in gone;
    LastOfTwo(HardEnvelope(w, h), NormalEnvelope(w, index, term, app));
  }

  lemma OneStart(w: Wire, d: Dir, parts: Parts, h: HardStateMsg)
    requires OneHardState(w, d, parts, h)
    ensures parts.Keys <= d.Keys && AllLegible(w.codec, parts) && 0 in d && (exists k :: k in d && k > 0)
    ensures forall k :: k in d ==> d[k] == Content(w.codec, HeldAt(parts, k))
    ensures Legible(w.codec, parts[0]) && Envelopes(w.codec, parts[0]) == [HardEnvelope(w, h)]
  {
  }

  lemma AllFitOne(w: Wire, e: Envelope)
    requires Fits(w, e)
    ensures AllFit(w, [e])
  {
  }

  lemma LastOfTwo(a: Envelope, b: Envelope)
    requires a.kind == HardState && b.kind == Normal
    ensures LastHardState([a, b]) == a.app
  {
    assert [a, b][..1] == [a];
  }
}
