/** A writer that continues a directory: what was there before and what it appended, read together. */
module WalSessions {
  import opened Bytes
  import opened Sequences
  import opened Segments
  import opened SegmentNames
  import opened WalLog
  import opened WalWriters

  function HeldAt(held: Parts, k: nat): seq<Record> {
    if k in held then held[k] else []
  }

  /** The records of each segment when the directory held `held` at first. */
  function Joined(held: Parts, segs: Segs): Parts {
    map k | k in segs :: HeldAt(held, k) + segs[k].mine
  }

  /** The bytes found in the files were whole frames of `held`. */
  ghost predicate Whole(c: Codec, held: Parts, segs: Segs) {
    forall k :: k in segs ==> segs[k].raw == Content(c, HeldAt(held, k))
  }

  /** The whole log, in segment order. */
  function LogOf(held: Parts, segs: Segs, active: nat): seq<Record> {
    RecordsBelow(Joined(held, segs), active + 1)
  }

  predicate UpTo<V>(m: map<nat, V>, n: nat) {
    forall k :: k in m ==> k <= n
  }

  lemma ContentJoin(c: Codec, a: seq<Record>, b: seq<Record>)
    ensures Content(c, a + b) == Content(c, a) + Content(c, b)
  {
    hide Content;
    ContentSplit(c, a + b, |a|);
    AppendEnds(a, b);
    assert (a + b)[..|a|] == a && (a + b)[|a|..] == b;
  }

  /** Behind whole frames the files hold whole frames again. */
  lemma JoinedStored(c: Codec, d: Dir, buf: Str, held: Parts, segs: Segs, active: nat)
    requires Files(c, d, buf, segs, active) && Whole(c, held, segs)
    ensures Stored(c, d, buf, Joined(held, segs), active)
  {
    hide Content;
    forall k | k in segs ensures Content(c, Joined(held, segs)[k]) == FileBytes(c, segs[k]) {
      ContentJoin(c, HeldAt(held, k), segs[k].mine);
    }
  }

  lemma JoinedAppend(held: Parts, segs: Segs, active: nat, r: Record)
    requires active in segs
    ensures LogOf(held, segs[active := segs[active].(mine := segs[active].mine + [r])], active)
              == LogOf(held, segs, active) + [r]
  {
    hide RecordsBelow;
    var parts := Joined(held, segs);
    var g := segs[active].(mine := segs[active].mine + [r]);
    AppendAssoc(HeldAt(held, active), segs[active].mine, [r]);
    assert Joined(held, segs[active := g]) == parts[active := parts[active] + [r]];
    RecordsAppend(parts, active, r);
  }

  lemma JoinedRotate(held: Parts, segs: Segs, active: nat)
    requires active in segs && UpTo(held, active)
    ensures LogOf(held, segs[active + 1 := NEW_SEGMENT], active + 1) == LogOf(held, segs, active)
  {
    hide RecordsBelow;
    assert HeldAt(held, active + 1) + NEW_SEGMENT.mine == [];
    assert Joined(held, segs[active + 1 := NEW_SEGMENT]) == Joined(held, segs)[active + 1 := []];
    RecordsRotate(Joined(held, segs), active);
  }

  lemma {:induction false} JoinedOpened(c: Codec, held: Parts, segs: Segs, lo: nat, hi: nat)
    requires lo in segs && UpTo(held, lo) && lo <= hi && UpTo(segs, lo)
    ensures var after := Opened(segs, lo, hi);
            && hi in after && UpTo(after, hi)
            && LogOf(held, after, hi) == LogOf(held, segs, lo)
            && (Whole(c, held, segs) ==> Whole(c, held, after))
    decreases hi
  {
    hide LogOf, Content;
    if lo < hi {
      JoinedOpened(c, held, segs, lo, hi - 1);
      JoinedRotate(held, Opened(segs, lo, hi - 1), hi - 1);
      EmptyContent(c);
    }
  }

  /** The segments closed before stay as they were. */
  ghost predicate Grown(before: Segs, was: nat, after: Segs, active: nat) {
    was <= active && forall k :: k in before && k < was ==> k in after && after[k] == before[k]
  }

  lemma {:induction false} OpenedGrown(segs: Segs, lo: nat, hi: nat)
    requires lo <= hi
    ensures Grown(segs, lo, Opened(segs, lo, hi), hi)
    decreases hi
  {
    if lo < hi {
      OpenedGrown(segs, lo, hi - 1);
    }
  }

  lemma LandedGrown(c: Codec, before: Segs, was: nat, after: Segs, at: nat, active: nat, start: Segment, r: Record,
                    maxBytes: nat, forced: bool)
    requires was <= at && Landed(c, before, after, at, active, start, r, maxBytes, forced)
    ensures Grown(before, was, after, active)
  {
    hide FileBytes, Opened;
    OpenedGrown(before[at := start.(mine := start.mine + [r])], at, active);
  }

  /** An append adds its record at the end of the log, wherever it lands. */
  lemma JoinedLanded(c: Codec, held: Parts, before: Segs, was: nat, after: Segs, at: nat, active: nat, start: Segment,
                     r: Record, maxBytes: nat, forced: bool)
    requires was in before && UpTo(before, was) && UpTo(held, was) && was <= at <= was + 1
    requires start == if at == was then before[was] else NEW_SEGMENT
    requires Landed(c, before, after, at, active, start, r, maxBytes, forced)
    ensures LogOf(held, after, active) == LogOf(held, before, was) + [r]
    ensures Whole(c, held, before) ==> Whole(c, held, after)
  {
    hide LogOf, Content, FileBytes, Opened, Whole;
    var mid := before[at := start];
    WholeStart(c, held, before, was, at, r);
    if at == was {
      assert mid == before;
    } else {
      JoinedRotate(held, before, was);
    }
    JoinedAppend(held, mid, at, r);
    var g := start.(mine := start.mine + [r]);
    SetTwice(before, at, start, g);
    JoinedOpened(c, held, before[at := g], at, active);
  }

  lemma WholeStart(c: Codec, held: Parts, before: Segs, was: nat, at: nat, r: Record)
    requires was in before && UpTo(before, was) && UpTo(held, was) && was <= at <= was + 1
    ensures var start := if at == was then before[was] else NEW_SEGMENT;
            Whole(c, held, before) ==> Whole(c, held, before[at := start.(mine := start.mine + [r])])
  {
    hide Content;
    EmptyContent(c);
  }

  /** A directory just opened. */
  lemma JoinedFound(c: Codec, held: Parts, d: Dir)
    requires held.Keys <= d.Keys
    ensures Joined(held, Found(d)).Keys == d.Keys
    ensures forall k :: k in d ==> Joined(held, Found(d))[k] == HeldAt(held, k)
    ensures Whole(c, held, Found(d)) <==> forall k :: k in d ==> d[k] == Content(c, HeldAt(held, k))
  {
    hide Content;
    forall k | k in d ensures Joined(held, Found(d))[k] == HeldAt(held, k) {
      AppendCut(HeldAt(held, k), [], 0);
    }
  }

  lemma JoinedLegible(c: Codec, held: Parts, segs: Segs, active: nat)
    requires UpTo(segs, active) && Legible(c, LogOf(held, segs, active))
    ensures AllLegible(c, Joined(held, segs))
    ensures Held(c, Joined(held, segs), active + 1) == Envelopes(c, LogOf(held, segs, active))
  {
    hide Legible, Held, RecordsBelow, Envelopes;
    LegibleParts(c, Joined(held, segs), active + 1);
    HeldIsDecoded(c, Joined(held, segs), active + 1);
  }

  /** Reading a flushed directory that held whole frames returns the whole log, while the names
      of the segments sort in numeric order. */
  lemma ReadsLog(c: Codec, d: Dir, held: Parts, segs: Segs, active: nat)
    requires Files(c, d, [], segs, active) && Whole(c, held, segs)
    requires Legible(c, LogOf(held, segs, active)) && InOrder(d.Keys)
    ensures ScanDir(c, d) == Scanned(Envelopes(c, LogOf(held, segs, active)), Clean)
  {
    hide Content, ScanDir, Envelopes, Held, LogOf, NameBefore, FileBytes, Legible;
    JoinedStored(c, d, [], held, segs, active);
    JoinedLegible(c, held, segs, active);
    ReadsHeld(c, d, Joined(held, segs), active);
  }

  /** A session behind a torn tail: the whole frames in front are read, and then what a reader
      makes of the torn bytes followed by the frames of the session. */
  lemma BehindTear(c: Codec, d: Dir, segs: Segs, active: nat, held: seq<Record>, torn: Str)
    requires Files(c, d, [], segs, active) && Legible(c, held)
    requires segs[active].raw == Content(c, held) + torn
    ensures Scan(c, d[active]) == After(Envelopes(c, held), Scan(c, torn + Content(c, segs[active].mine)))
  {
    hide Scan, Frames, Decoded;
    var mine := Content(c, segs[active].mine);
    AppendCut(d[active], [], 0);
    AppendAssoc(Content(c, held), torn, mine);
    ScanFrames(c, Payloads(held), torn + mine);
  }

  /** Behind no torn bytes the session is read in full. */
  lemma BehindBoundary(c: Codec, d: Dir, segs: Segs, active: nat, held: seq<Record>)
    requires Files(c, d, [], segs, active) && Legible(c, held) && Legible(c, segs[active].mine)
    requires segs[active].raw == Content(c, held)
    ensures Scan(c, d[active]) == Scanned(Envelopes(c, held) + Envelopes(c, segs[active].mine), Clean)
  {
    hide Scan, Frames, Decoded;
    var mine := segs[active].mine;
    AppendCut(Content(c, held), [], 0);
    AppendEnds([], Content(c, mine));
    BehindTear(c, d, segs, active, held, []);
    ScanWhole(c, Payloads(mine));
  }

  /** Behind a frame torn inside its payload nothing of the session is read, unless the checksum of
      that payload completed with the session's first bytes is the one stored. */
  lemma BehindTornPayload(c: Codec, d: Dir, segs: Segs, active: nat, held: seq<Record>, payload: Str, k: nat)
    requires Files(c, d, [], segs, active) && Legible(c, held)
    requires |payload| < 0x1_0000_0000 && HEADER <= k < HEADER + |payload|
    requires segs[active].raw == Content(c, held) + Frame(c, payload)[..k]
    ensures var mine, missing := Content(c, segs[active].mine), HEADER + |payload| - k;
            Scan(c, d[active]).envs == Envelopes(c, held) <==>
              || |mine| < missing
              || c.crc(payload[..k - HEADER] + mine[..missing]) != c.crc(payload)
              || c.unmarshal(payload[..k - HEADER] + mine[..missing]).None?
  {
    hide Scan, Content, Frame, Envelopes;
    var mine := Content(c, segs[active].mine);
    BehindTear(c, d, segs, active, held, Frame(c, payload)[..k]);
    AppendAfterTornPayload(c, payload, k, mine);
    NothingAdded(Envelopes(c, held), Scan(c, Frame(c, payload)[..k] + mine).envs);
  }

  /** Behind a frame torn inside its header the session's first bytes complete that header, and the
      bytes behind them are read under its length and checksum. */
  lemma BehindTornHeader(c: Codec, d: Dir, segs: Segs, active: nat, held: seq<Record>, torn: Str)
    requires Files(c, d, [], segs, active) && Legible(c, held) && |torn| < HEADER
    requires segs[active].raw == Content(c, held) + torn
    ensures var mine := Content(c, segs[active].mine);
            Scan(c, d[active]) == After(Envelopes(c, held),
              if |torn + mine| < HEADER then Scanned([], Clean)
              else
                var header := torn + mine[..HEADER - |torn|];
                ScanBody(c, LittleEndianValue(header[..4]), LittleEndianValue(header[4..8]), mine[HEADER - |torn|..]))
  {
    hide Scan, Content, Envelopes, LittleEndianValue, ScanBody;
    BehindTear(c, d, segs, active, held, torn);
    AppendAfterTornHeader(c, torn, Content(c, segs[active].mine));
  }

  lemma NothingAdded<T>(a: seq<T>, b: seq<T>)
    ensures a + b == a <==> b == []
  {
    AppendCut(a, [], 0);
    assert |a + b| == |a| + |b|;
  }
}
