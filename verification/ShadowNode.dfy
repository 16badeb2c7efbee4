/** The part of a raft shard node that feeds the WAL and the validator ring, and prunes the WAL. */
module ShadowNodes {
  import opened Bytes
  import opened Sequences
  import opened Segments
  import opened SegmentNames
  import opened WalLog
  import opened WalWriters
  import opened WalSessions
  import opened WalRuns
  import opened WalPruning
  import opened HardSurvival
  import opened WalValidators

  datatype HardStateMsg = HardStateMsg(term: nat, vote: nat, commit: nat)

  const EMPTY_HARD_STATE := HardStateMsg(0, 0, 0)

  /** The protobuf encoders and the hard-state decoder, uninterpreted. */
  datatype Wire = Wire(codec: Codec, marshal: Envelope -> Str,
                       marshalHard: HardStateMsg -> Str, unmarshalHard: Str -> Option<HardStateMsg>)

  /** The envelope survives marshalling; a marshalled envelope is not empty. */
  predicate Fits(w: Wire, e: Envelope) {
    var b := w.marshal(e);
    b != [] && |b| < 0x1_0000_0000 && w.codec.unmarshal(b) == Some(e)
  }

  /** A committed raft entry. A normal entry whose data does not decode carries no payload. */
  datatype Entry =
    | NormalEntry(index: nat, term: nat, payload: Option<Str>)
    | ConfChangeEntry(index: nat, term: nat, data: Str)
    | OtherEntry(index: nat, term: nat)

  datatype Ready = Ready(hard: HardStateMsg, committed: seq<Entry>)

  /** What became of a snapshot attempt, which happens in code outside the WAL. */
  datatype SnapshotResult = SnapshotFailed | EntriesKept | EntriesPruned

  function HardEnvelope(w: Wire, h: HardStateMsg): Envelope {
    var b := w.marshalHard(h);
    Envelope(h.commit, h.term, HardState, b, w.codec.crc(b))
  }

  function NormalEnvelope(w: Wire, index: nat, term: nat, app: Str): Envelope {
    Envelope(index, term, Normal, app, w.codec.crc(app))
  }

  /** The hard state that is new against the last one logged. */
  function NewHard(last: HardStateMsg, h: HardStateMsg): seq<HardStateMsg> {
    if h == EMPTY_HARD_STATE || h == last then [] else [h]
  }

  function EntryEnvelope(w: Wire, e: Entry): seq<Envelope> {
    match e
    case NormalEntry(i, t, Some(p)) => [NormalEnvelope(w, i, t, p)]
    case NormalEntry(_, _, None) => []
    case ConfChangeEntry(i, t, d) => [NormalEnvelope(w, i, t, d)]
    case OtherEntry(_, _) => []
  }

  function EntryEnvelopes(w: Wire, es: seq<Entry>): seq<Envelope> {
    if es == [] then [] else EntryEnvelopes(w, es[..|es| - 1]) + EntryEnvelope(w, es[|es| - 1])
  }

  function HardLogged(w: Wire, last: HardStateMsg, h: HardStateMsg): seq<Envelope> {
    if NewHard(last, h) == [] then [] else [HardEnvelope(w, h)]
  }

  /** What a Ready adds to the log: its hard state before the entries it commits. */
  function LoggedBy(w: Wire, last: HardStateMsg, rd: Ready): seq<Envelope> {
    HardLogged(w, last, rd.hard) + EntryEnvelopes(w, rd.committed)
  }

  // ---------------------------------------------------------------- what that is, field by field

  /** The entry has data of its own: it decodes, or it is a configuration change. */
  predicate Carries(e: Entry) {
    (e.NormalEntry? && e.payload.Some?) || e.ConfChangeEntry?
  }

  function DataOf(e: Entry): Str
    requires Carries(e)
  {
    if e.ConfChangeEntry? then e.data else e.payload.value
  }

  /** The committed entries with data, in order. */
  function Carriers(es: seq<Entry>): (cs: seq<Entry>)
    ensures forall i :: 0 <= i < |cs| ==> Carries(cs[i]) && cs[i] in es
  {
    if es == [] then []
    else Carriers(es[..|es| - 1]) + if Carries(es[|es| - 1]) then [es[|es| - 1]] else []
  }

  /** The envelope holds all of the entry, and the checksum of its data. */
  ghost predicate Holds(w: Wire, v: Envelope, e: Entry)
    requires Carries(e)
  {
    && v.index == e.index && v.term == e.term && v.kind == Normal
    && v.app == DataOf(e) && v.crc == w.codec.crc(DataOf(e))
  }

  /** The envelope holds all of the hard state, under its commit. */
  ghost predicate HoldsHard(w: Wire, v: Envelope, h: HardStateMsg) {
    && v.index == h.commit && v.term == h.term && v.kind == HardState
    && v.app == w.marshalHard(h) && v.crc == w.codec.crc(w.marshalHard(h))
  }

  lemma {:induction false} EntriesHeld(w: Wire, es: seq<Entry>)
    ensures var cs, vs := Carriers(es), EntryEnvelopes(w, es);
            |vs| == |cs| && forall i :: 0 <= i < |cs| ==> Holds(w, vs[i], cs[i])
    decreases |es|
  {
    if es != [] {
      EntriesHeld(w, es[..|es| - 1]);
    }
  }

  /** A Ready logs its hard state if that is not empty and differs from the last one in term, vote or
      commit, and behind it every committed entry with data. */
  ghost predicate Logs(w: Wire, last: HardStateMsg, rd: Ready, added: seq<Envelope>) {
    var first := if rd.hard == HardStateMsg(0, 0, 0)
                    || (rd.hard.term == last.term && rd.hard.vote == last.vote && rd.hard.commit == last.commit)
                 then 0 else 1;
    var cs := Carriers(rd.committed);
    && |added| == first + |cs|
    && (first == 1 ==> HoldsHard(w, added[0], rd.hard))
    && forall i :: 0 <= i < |cs| ==> Holds(w, added[first + i], cs[i])
  }

  // ---------------------------------------------------------------- what recovery makes of it

  /** A raft entry rebuilt from the WAL. */
  datatype Rebuilt = Rebuilt(index: nat, term: nat, data: Str)

  function Recovered(envs: seq<Envelope>): seq<Rebuilt> {
    if envs == [] then []
    else
      var v := envs[|envs| - 1];
      Recovered(envs[..|envs| - 1]) + if v.kind == Normal then [Rebuilt(v.index, v.term, v.app)] else []
  }

  function RebuiltOf(cs: seq<Entry>): seq<Rebuilt>
    requires forall i :: 0 <= i < |cs| ==> Carries(cs[i])
  {
    seq(|cs|, i requires 0 <= i < |cs| => Rebuilt(cs[i].index, cs[i].term, DataOf(cs[i])))
  }

  lemma RecoveredSnoc(envs: seq<Envelope>, v: Envelope)
    ensures Recovered(envs + [v]) == Recovered(envs) + if v.kind == Normal then [Rebuilt(v.index, v.term, v.app)]
              else []
    ensures LastHardState(envs + [v]) == if v.kind == HardState then v.app else LastHardState(envs)
  {
    assert (envs + [v])[..|envs|] == envs;
  }

  lemma RebuiltSnoc(cs: seq<Entry>, c: Entry)
    requires Carries(c) && forall i :: 0 <= i < |cs| ==> Carries(cs[i])
    ensures RebuiltOf(cs + [c]) == RebuiltOf(cs) + [Rebuilt(c.index, c.term, DataOf(c))]
  {
  }

  lemma {:induction false} RecoveredAppend(w: Wire, envs: seq<Envelope>, vs: seq<Envelope>, cs: seq<Entry>)
    requires |vs| == |cs| && forall i :: 0 <= i < |cs| ==> Carries(cs[i]) && Holds(w, vs[i], cs[i])
    ensures Recovered(envs + vs) == Recovered(envs) + RebuiltOf(cs)
    ensures LastHardState(envs + vs) == LastHardState(envs)
    decreases |vs|
  {
    hide Recovered, LastHardState, RebuiltOf, Carries, DataOf;
    if vs == [] {
      AppendCut(envs, [], 0);
      AppendCut(Recovered(envs), [], 0);
      assert RebuiltOf(cs) == [] by { NoneRebuilt(); }
    } else {
      var n := |vs| - 1;
      RecoveredAppend(w, envs, vs[..n], cs[..n]);
      RecoveredSnoc(envs + vs[..n], vs[n]);
      RebuiltSnoc(cs[..n], cs[n]);
      InitLast(vs);
      InitLast(cs);
      AppendAssoc(envs, vs[..n], [vs[n]]);
      AppendAssoc(Recovered(envs), RebuiltOf(cs[..n]), [Rebuilt(vs[n].index, vs[n].term, vs[n].app)]);
    }
  }

  lemma NoneRebuilt()
    ensures RebuiltOf([]) == []
  {
  }

  /** Recovery rebuilds exactly the committed entries with data, and finds the last hard state that
      was reported. */
  lemma ReadyRecovered(w: Wire, last: HardStateMsg, rd: Ready, envs: seq<Envelope>, added: seq<Envelope>)
    requires Logs(w, last, rd, added)
    ensures Recovered(envs + added) == Recovered(envs) + RebuiltOf(Carriers(rd.committed))
    ensures LastHardState(envs + added) ==
              if rd.hard == EMPTY_HARD_STATE || rd.hard == last then LastHardState(envs) else w.marshalHard(rd.hard)
  {
    hide Carriers, Recovered, LastHardState, RebuiltOf, Holds;
    var cs := Carriers(rd.committed);
    if |added| == |cs| {
      RecoveredAppend(w, envs, added, cs);
    } else {
      var h, vs := added[0], added[1..];
      HeadTail(added);
      AppendAssoc(envs, [h], vs);
      RecoveredAppend(w, envs + [h], vs, cs);
      RecoveredSnoc(envs, h);
      AppendCut(Recovered(envs), [], 0);
    }
  }

  /** A node that finds this log adopts the hard state reported last. */
  lemma ReadyAdopted(w: Wire, last: HardStateMsg, rd: Ready, envs: seq<Envelope>, added: seq<Envelope>)
    requires Logs(w, last, rd, added) && rd.hard != EMPTY_HARD_STATE && rd.hard != last
    requires w.marshalHard(rd.hard) != [] && w.unmarshalHard(w.marshalHard(rd.hard)) == Some(rd.hard)
    ensures Adopted(w, Scanned(envs + added, Clean)) ==
              if rd.hard.term > 0 || rd.hard.commit > 0 then rd.hard else EMPTY_HARD_STATE
  {
    hide Logs, LastHardState;
    ReadyRecovered(w, last, rd, envs, added);
  }

  lemma LoggedHolds(w: Wire, last: HardStateMsg, rd: Ready)
    ensures Logs(w, last, rd, LoggedBy(w, last, rd))
  {
    hide EntryEnvelopes, Holds, Carriers;
    EntriesHeld(w, rd.committed);
  }

  function LastOf(last: HardStateMsg, rd: Ready): HardStateMsg {
    if NewHard(last, rd.hard) == [] then last else rd.hard
  }

  /** What raft promises of a Ready: commits never go back, and committed entries come in
      order, none twice, and none beyond the commit index reported so far. */
  predicate Promised(last: HardStateMsg, applied: nat, rd: Ready) {
    && (rd.hard != EMPTY_HARD_STATE ==> last.commit <= rd.hard.commit)
    && (forall i :: 0 <= i < |rd.committed| ==> applied < rd.committed[i].index <= LastOf(last, rd).commit)
    && forall i, j :: 0 <= i < j < |rd.committed| ==> rd.committed[i].index < rd.committed[j].index
  }

  predicate AllFit(w: Wire, es: seq<Envelope>) {
    forall i :: 0 <= i < |es| ==> Fits(w, es[i])
  }

  /** In the log, hard states are indexed by their commit. */
  predicate CommitIndexed(w: Wire, envs: seq<Envelope>) {
    forall i :: 0 <= i < |envs| && envs[i].kind == HardState ==>
      match w.unmarshalHard(envs[i].app)
      case Some(h) => h.commit == envs[i].index
      case None => true
  }

  lemma {:induction false} ReachesAll(p: nat, envs: seq<Envelope>)
    ensures p == 0 ==> HardStateReaches(p, envs)
    decreases |envs|
  {
    if envs != [] {
      ReachesAll(p, envs[..|envs| - 1]);
    }
  }

  lemma {:induction false} ReachesCommit(w: Wire, envs: seq<Envelope>)
    requires CommitIndexed(w, envs)
    ensures match w.unmarshalHard(LastHardState(envs))
            case Some(h) => LastHardState(envs) != [] ==> HardStateReaches(h.commit, envs)
            case None => true
    decreases |envs|
  {
    if envs != [] && envs[|envs| - 1].kind != HardState {
      var front := envs[..|envs| - 1];
      assert forall i :: 0 <= i < |front| ==> front[i] == envs[i];
      ReachesCommit(w, front);
    }
  }

  lemma ReachesSnoc(p: nat, envs: seq<Envelope>, e: Envelope)
    ensures HardStateReaches(p, envs + [e]) == if e.kind == HardState then e.index >= p else HardStateReaches(p, envs)
    ensures LastHardState(envs + [e]) == if e.kind == HardState then e.app else LastHardState(envs)
    ensures Tuples(envs + [e]) == Tuples(envs) + if e.kind == Normal then [Tuple(e.index, e.crc)] else []
  {
    assert (envs + [e])[..|envs|] == envs;
  }

  lemma EnvelopesSnoc(w: Wire, rs: seq<Record>, r: Record, e: Envelope)
    requires Legible(w.codec, rs) && Fits(w, e) && r.payload == w.marshal(e)
    ensures Legible(w.codec, rs + [r]) && Envelopes(w.codec, rs + [r]) == Envelopes(w.codec, rs) + [e]
  {
    hide Decoded;
    EnvelopesAppend(w.codec, rs, [r]);
    assert Payloads([r]) == [r.payload];
    DecodedOne(w.codec, r.payload);
  }

  lemma DecodedOne(c: Codec, payload: Str)
    requires Readable(c, payload)
    ensures Decoded(c, [payload]) == EnvelopeOf(c, payload)
  {
    assert Decoded(c, [payload]) == EnvelopeOf(c, payload) + Decoded(c, []);
  }

  lemma AllFitSplit(w: Wire, a: seq<Envelope>, b: seq<Envelope>)
    requires AllFit(w, a + b)
    ensures AllFit(w, a) && AllFit(w, b)
  {
    hide Fits;
    assert forall i :: 0 <= i < |a| ==> a[i] == (a + b)[i];
    assert forall i :: 0 <= i < |b| ==> b[i] == (a + b)[|a| + i];
  }

  lemma {:induction false} EntryLogged(w: Wire, es: seq<Entry>, i: nat)
    requires i < |es| && AllFit(w, EntryEnvelopes(w, es))
    ensures AllFit(w, EntryEnvelope(w, es[i]))
    ensures EntryEnvelopes(w, es[..i + 1]) == EntryEnvelopes(w, es[..i]) + EntryEnvelope(w, es[i])
    decreases |es|
  {
    hide AllFit, EntryEnvelope;
    var front := es[..|es| - 1];
    AllFitSplit(w, EntryEnvelopes(w, front), EntryEnvelope(w, es[|es| - 1]));
    assert es[..i + 1][..i] == es[..i];
    if i < |es| - 1 {
      EntryLogged(w, front, i);
    }
  }

  /** The hard state to compare new ones with: the last one a readable WAL holds, if it decodes and
      is not trivial. */
  function Adopted(w: Wire, r: Scanned): HardStateMsg {
    if r.status != Clean || LastHardState(r.envs) == [] then EMPTY_HARD_STATE
    else
      match w.unmarshalHard(LastHardState(r.envs))
      case Some(h) => if h.term > 0 || h.commit > 0 then h else EMPTY_HARD_STATE
      case None => EMPTY_HARD_STATE
  }

  /** In a log where hard states are indexed by their commit, the adopted one is the last. */
  lemma AdoptedReaches(w: Wire, r: Scanned)
    requires r.status == Clean && CommitIndexed(w, r.envs)
    ensures HardStateReaches(Adopted(w, r).commit, r.envs)
  {
    hide CommitIndexed, HardStateReaches, LastHardState;
    ReachesAll(0, r.envs);
    ReachesCommit(w, r.envs);
  }

  method RecoveredHardState(w: Wire, d: Dir) returns (h: HardStateMsg)
    ensures h == Adopted(w, ScanDir(w.codec, d))
  {
    hide ScanDir, LastHardState;
    var hs, status := ReplayLastHardState(w.codec, d);
    h := EMPTY_HARD_STATE;
    if hs.Some? {
      var found := w.unmarshalHard(hs.value);
      if found.Some? && (found.value.term > 0 || found.value.commit > 0) {
        h := found.value;
      }
    }
  }

  /** What the ring is filled with: the last entries of a readable WAL. */
  ghost function Seed(r: Scanned): seq<Tuple> {
    if r.status == Clean then Tuples(r.envs) else []
  }

  /** A ring filled from the tail of the WAL. */
  method SeededRing(c: Codec, d: Dir, n: nat) returns (v: Validator)
    requires n > 0
    ensures fresh(v) && fresh(v.ring) && v.Valid() && v.lastN == n
    ensures v.Contents() == LastN(Seed(ScanDir(c, d)), n)
  {
    hide ScanDir, Tuples, InRing;
    v := new Validator(n);
    var tail, status := TailLogicalTuples(c, d, n);
    LastNTwice(Tuples(ScanDir(c, d).envs), n);
    if status == Clean && tail != [] {
      v.SeedTuples(tail);
    }
  }

  /** The index applied last: entries that do not decode are passed over. */
  function AppliedAfter(applied: nat, es: seq<Entry>): nat {
    if es == [] then applied
    else
      var e := es[|es| - 1];
      if e.NormalEntry? && e.payload == None then AppliedAfter(applied, es[..|es| - 1]) else e.index
  }

  function CountedEntries(es: seq<Entry>): nat {
    if es == [] then 0
    else
      var e := es[|es| - 1];
      CountedEntries(es[..|es| - 1]) + if e.NormalEntry? && e.payload == None then 0 else 1
  }

  lemma CountStep(es: seq<Entry>, i: nat, applied: nat)
    requires i < |es|
    ensures var e := es[i];
            var passed := e.NormalEntry? && e.payload == None;
            && AppliedAfter(applied, es[..i + 1]) == (if passed then AppliedAfter(applied, es[..i]) else e.index)
            && CountedEntries(es[..i + 1]) == CountedEntries(es[..i]) + if passed then 0 else 1
  {
    assert es[..i + 1][..i] == es[..i];
  }

  /** Committed entries within a bound leave the applied index within it. */
  lemma {:induction false} AppliedWithin(applied: nat, es: seq<Entry>, bound: nat)
    requires applied <= bound && forall i :: 0 <= i < |es| ==> applied < es[i].index <= bound
    ensures applied <= AppliedAfter(applied, es) <= bound
    decreases |es|
  {
    if es != [] {
      AppliedWithin(applied, es[..|es| - 1], bound);
    }
  }

  /** What new envelopes do to the last hard state when entries add none. */
  lemma {:induction false} EntriesReach(w: Wire, envs: seq<Envelope>, es: seq<Entry>, p: nat)
    ensures HardStateReaches(p, envs + EntryEnvelopes(w, es)) == HardStateReaches(p, envs)
    decreases |es|
  {
    hide HardStateReaches;
    if es == [] {
      AppendCut(envs, [], 0);
    } else {
      var front, e := es[..|es| - 1], es[|es| - 1];
      EntriesReach(w, envs, front, p);
      AppendAssoc(envs, EntryEnvelopes(w, front), EntryEnvelope(w, e));
      AppendCut(envs + EntryEnvelopes(w, front), [], 0);
      if EntryEnvelope(w, e) != [] {
        ReachesSnoc(p, envs + EntryEnvelopes(w, front), EntryEnvelope(w, e)[0]);
      }
    }
  }

  /** A Ready that raft promised keeps the last logged hard state at the commit it reported. */
  lemma ReadyReaches(w: Wire, last: HardStateMsg, envs: seq<Envelope>, rd: Ready)
    requires HardStateReaches(last.commit, envs)
    ensures HardStateReaches(LastOf(last, rd).commit, envs + LoggedBy(w, last, rd))
  {
    hide HardStateReaches, EntryEnvelopes;
    var first := HardLogged(w, last, rd.hard);
    AppendAssoc(envs, first, EntryEnvelopes(w, rd.committed));
    EntriesReach(w, envs + first, rd.committed, LastOf(last, rd).commit);
    AppendCut(envs, [], 0);
    ReachesSnoc(rd.hard.commit, envs, HardEnvelope(w, rd.hard));
  }

  lemma TuplesSnoc(envs: seq<Envelope>, e: Envelope)
    ensures Tuples(envs + [e]) == Tuples(envs) + if e.kind == Normal then [Tuple(e.index, e.crc)] else []
  {
    assert (envs + [e])[..|envs|] == envs;
  }

  function Highest(a: nat, b: nat): nat {
    if a < b then b else a
  }

  /** An append to a writer that continues `held`. */
  method AppendRecord(w: Writer, r: Record, ghost held: Parts)
    requires w.Valid() && !w.closed && UpTo(held, w.segIdx)
    modifies w
    ensures w.Valid() && !w.closed && UpTo(held, w.segIdx)
    ensures LogOf(held, w.segs, w.segIdx) == old(LogOf(held, w.segs, w.segIdx)) + [r]
    ensures old(Whole(w.codec, held, w.segs)) ==> Whole(w.codec, held, w.segs)
    ensures Grown(old(w.segs), old(w.segIdx), w.segs, w.segIdx)
  {
    hide LogOf, Whole, Writer.Valid, Grown;
    AppendOne(w, r, held);
  }

  lemma SeedOf(r: Scanned)
    requires r.status == Clean
    ensures Seed(r) == Tuples(r.envs)
  {
  }

  lemma FoundLegible(c: Codec, disk: Dir, active: nat, parts: Parts)
    requires parts.Keys <= disk.Keys && AllLegible(c, parts)
    ensures Legible(c, LogOf(parts, Found(disk), active))
  {
    hide Readable, RecordsBelow, Envelopes, Held, Joined;
    JoinedFound(c, parts, disk);
    HeldIsDecoded(c, Joined(parts, Found(disk)), active + 1);
  }

  lemma FoundWhole(c: Codec, d: Dir, disk: Dir, parts: Parts)
    requires parts.Keys <= d.Keys && disk == (if d == map[] then map[0 := []] else d)
    ensures Whole(c, parts, Found(disk)) <==> forall k :: k in d ==> d[k] == Content(c, HeldAt(parts, k))
  {
    hide Content, Joined, Whole;
    JoinedFound(c, parts, disk);
    EmptyContent(c);
  }

  /** What a writer finds in a directory; `whole` says that a reader finds the same. */
  lemma OpenReads(c: Codec, d: Dir, disk: Dir, active: nat, parts: Parts) returns (whole: bool)
    requires parts.Keys <= d.Keys && AllLegible(c, parts)
    requires disk == (if d == map[] then map[0 := []] else d) && Files(c, disk, [], Found(disk), active)
    ensures UpTo(parts, active) && Legible(c, LogOf(parts, Found(disk), active))
    ensures Whole(c, parts, Found(disk)) <==> forall k :: k in d ==> d[k] == Content(c, HeldAt(parts, k))
    ensures whole <==> Whole(c, parts, Found(disk)) && InOrder(d.Keys)
    ensures whole ==> ScanDir(c, d) == Scanned(Envelopes(c, LogOf(parts, Found(disk), active)), Clean)
  {
    hide Content, NameBefore, ScanDir, Envelopes, LogOf, FileBytes, Whole, Legible, AllLegible, InOrder, Found, Files;
    FilesKeys(c, disk, [], Found(disk), active);
    FoundLegible(c, disk, active, parts);
    FoundWhole(c, d, disk, parts);
    whole := Whole(c, parts, Found(disk)) && InOrder(d.Keys);
    if whole {
      if d == map[] {
        EmptyReads(c, parts, active);
      } else {
        ReadsLog(c, disk, parts, Found(disk), active);
      }
    }
  }

  lemma EmptyReads(c: Codec, parts: Parts, active: nat)
    requires parts == map[] && active in Found(map[0 := []])
    ensures Legible(c, LogOf(parts, Found(map[0 := []]), active))
    ensures ScanDir(c, map[]) == Scanned(Envelopes(c, LogOf(parts, Found(map[0 := []]), active)), Clean)
  {
    hide NameBefore, Scan;
    FirstIn(Sorted({}));
    EmptyEnvelopes(c);
    RecordsNext(Joined(parts, Found(map[0 := []])), 0);
  }

  lemma WholeWithout(c: Codec, held: Parts, segs: Segs, gone: set<nat>)
    ensures Whole(c, held, segs) ==> Whole(c, held, segs - gone)
  {
    hide Content;
  }

  lemma NoneGone(segs: Segs, gone: set<nat>)
    requires |gone| == 0
    ensures segs - gone == segs
  {
  }

  lemma {:induction false} ReachesLess(p: nat, q: nat, envs: seq<Envelope>)
    requires p <= q
    ensures HardStateReaches(q, envs) ==> HardStateReaches(p, envs)
    decreases |envs|
  {
    if envs != [] {
      ReachesLess(p, q, envs[..|envs| - 1]);
    }
  }

  lemma NoLastInNone()
    ensures LastHardState([]) == []
  {
  }

  /** What a pass that spared the active segment keeps of a whole log. */
  lemma AfterPrune(c: Codec, d: Dir, buf: Str, held: Parts, segs: Segs, active: nat, captured: nat, gone: set<nat>,
                   p: nat, q: nat)
    requires Files(c, d, buf, segs, active) && Whole(c, held, segs) && Legible(c, LogOf(held, segs, active))
    requires active !in gone && forall k :: k in gone ==> k in d && Prunable(c, d, captured, p, k)
    requires Legible(c, LogOf(held, segs - gone, active))
    ensures AllLegible(c, Joined(held, segs)) && AllLegible(c, Joined(held, segs - gone))
    ensures var before, after
              := Envelopes(c, LogOf(held, segs, active)), Envelopes(c, LogOf(held, segs - gone, active));
            var at, now := HardSegment(c, Joined(held, segs), active + 1),
              HardSegment(c, Joined(held, segs - gone), active + 1);
            && From(p, after) == From(p, before)
            && (now == at <==> (at.Some? ==> at.value !in gone))
            && (now == at ==> LastHardState(after) == LastHardState(before))
            && (now != at && now.Some? ==> at.Some? && now.value < at.value)
            && (now.None? ==> LastHardState(after) == [])
            && (HardStateReaches(p, before) ==> now == at && HardStateReaches(p, after))
            && (HardStateReaches(q, before) && p <= q ==> now == at && HardStateReaches(q, after))
  {
    hide Legible, Envelopes, LogOf, Held, Scan, MaxIndex, From, LastHardState, HardStateReaches, Content, FileBytes,
         Prunable, HardSegment, Whole;
    FilesKeys(c, d, buf, segs, active);
    JoinedLegible(c, held, segs, active);
    JoinedLegible(c, held, segs - gone, active);
    JoinedWithout(held, segs, gone);
    var parts := Joined(held, segs);
    HardStateSurvives(c, parts, gone, active + 1, p);
    HardSegmentState(c, parts - gone, active + 1, p);
    NoLastInNone();
    PruneLog(c, d, buf, held, segs, active, captured, gone, p, p);
    if p <= q {
      PruneLog(c, d, buf, held, segs, active, captured, gone, p, q);
      ReachesLess(p, q, Envelopes(c, LogOf(held, segs, active)));
    }
    var at := HardSegment(c, parts, active + 1);
    if at.Some? && at.value in gone {
      PrunableParts(c, d, buf, held, segs, active, captured, p, at.value);
    }
  }

  class Node {
    const wire: Wire
    const wal: Writer
    const ring: Validator
    const snapshotThreshold: nat
    var lastHard: HardStateMsg
    var lastApplied: nat
    var prunedThrough: nat
    var lastSnapshot: nat
    var sinceSnapshot: nat

    /** Records taken to be in the directory when it was opened. */
    ghost const held: Parts
    /** Every normal record logged so far, and whether all of them are still in the log. */
    ghost var logged: seq<Tuple>
    ghost var intact: bool

    ghost predicate Wired()
      reads wal, ring
    {
      && wal.codec == wire.codec && wal.Valid() && !wal.closed && ring.Valid() && UpTo(held, wal.segIdx)
      && Legible(wire.codec, LogOf(held, wal.segs, wal.segIdx))
    }

    /** The envelopes in the log: those of `held` and those appended. */
    ghost function Envs(): seq<Envelope>
      requires Wired()
      reads wal, ring
    {
      Envelopes(wire.codec, LogOf(held, wal.segs, wal.segIdx))
    }

    /** The bytes found in the directory were the whole frames of `held`. */
    ghost predicate Sound()
      reads wal
    {
      Whole(wire.codec, held, wal.segs)
    }

    ghost predicate Recorded()
      requires Wired()
      reads `logged, `intact, wal, ring, ring.ring
    {
      ring.Contents() == LastN(logged, ring.lastN) && (intact ==> Tuples(Envs()) == logged)
    }

    ghost predicate Valid()
      reads this, wal, ring, ring.ring
    {
      Wired() && Recorded()
    }

    /** The prune floor and the applied index stay within the commit of the last hard state logged. */
    ghost predicate Covered()
      requires Wired()
      reads this, wal, ring
    {
      prunedThrough <= lastApplied <= lastHard.commit && HardStateReaches(lastHard.commit, Envs())
    }

    /** The segment with the last hard state. */
    ghost function HardAt(): (at: Option<nat>)
      requires Wired()
      reads wal, ring
      ensures at.Some? ==> at.value in wal.segs
    {
      FilesKeys(wal.codec, wal.disk, wal.buf, wal.segs, wal.segIdx);
      JoinedLegible(wire.codec, held, wal.segs, wal.segIdx);
      HardSegment(wire.codec, Joined(held, wal.segs), wal.segIdx + 1)
    }

    /** Opens the WAL on any directory and takes the last hard state and the ring from what can be
        read of it. Raft's own files give the snapshot and the last entry to start from. */
    constructor (w: Wire, d: Dir, n: nat, threshold: nat, strict: bool, maxBytes: int, rotateEvery: int,
                 snapIdx: nat, lastEntry: nat, ghost parts: Parts)
      requires n > 0 && parts.Keys <= d.Keys && AllLegible(w.codec, parts)
      ensures Valid() && wire == w && ring.lastN == n && snapshotThreshold == threshold && held == parts
      ensures fresh(wal) && fresh(ring) && fresh(ring.ring)
      ensures lastHard == Adopted(w, ScanDir(w.codec, d))
      ensures ring.Contents() == LastN(Seed(ScanDir(w.codec, d)), n)
      ensures lastApplied == (if lastEntry > snapIdx then lastEntry else snapIdx) && lastSnapshot == snapIdx
      ensures prunedThrough == 0 && sinceSnapshot == 0 && wal.appendCount == 0 && wal.lastIndex == 0
      ensures wal.disk == (if d == map[] then map[0 := []] else d) && wal.segs == Found(wal.disk)
      ensures wal.maxSegmentBytes == if maxBytes > 0 then maxBytes else 64 * 1024 * 1024
      ensures wal.forceRotateEvery == if rotateEvery > 0 then rotateEvery else 0
      ensures Sound() <==> forall k :: k in d ==> d[k] == Content(w.codec, HeldAt(parts, k))
      ensures Sound() && InOrder(d.Keys) ==> intact && ScanDir(w.codec, d) == Scanned(Envs(), Clean)
      ensures Sound() && InOrder(d.Keys) && CommitIndexed(w, Envs()) && lastApplied <= lastHard.commit ==> Covered()
    {
      hide Content, Legible, Envelopes, Files, Session.Sound, ScanDir, CommitIndexed, HardStateReaches, Tuples,
           LastN, InRing, Session.Log, AllLegible, LogOf, Whole, Adopted, Seed;
      var hard := RecoveredHardState(w, d);
      var writer := new Writer(w.codec, d, strict, 256, maxBytes, rotateEvery);
      var validator := SeededRing(w.codec, d, n);
      ghost var whole := OpenReads(w.codec, d, writer.disk, writer.segIdx, parts);
      wire, wal, ring, snapshotThreshold, held := w, writer, validator, threshold, parts;
      lastHard := hard;
      lastApplied := if lastEntry > snapIdx then lastEntry else snapIdx;
      prunedThrough, lastSnapshot, sinceSnapshot := 0, snapIdx, 0;
      logged, intact := Seed(ScanDir(w.codec, d)), whole;
      new;
      if intact {
        SeedOf(ScanDir(w.codec, d));
        if CommitIndexed(w, Envs()) {
          AdoptedReaches(w, ScanDir(w.codec, d));
        }
      }
    }

    /** Handles one Ready: logs a new hard state, then the committed entries, and after enough
        of them moves the prune floor, which it returns when the WAL is to be pruned. */
    method ProcessReady(rd: Ready, snapshot: SnapshotResult, minFollower: nat) returns (target: nat)
      requires Valid() && AllFit(wire, LoggedBy(wire, lastHard, rd))
      modifies this, wal, ring, ring.ring
      ensures Valid() && Envs() == old(Envs()) + LoggedBy(wire, old(lastHard), rd)
      ensures old(Envs()) <= Envs() && Logs(wire, old(lastHard), rd, Envs()[|old(Envs())|..])
      ensures lastHard == LastOf(old(lastHard), rd) && intact == old(intact) && (old(Sound()) ==> Sound())
      ensures Grown(old(wal.segs), old(wal.segIdx), wal.segs, wal.segIdx)
      ensures lastApplied == AppliedAfter(old(lastApplied), rd.committed)
      ensures old(prunedThrough) <= prunedThrough && (target == 0 || target == prunedThrough)
      ensures FloorMoved(Due(old(sinceSnapshot) + CountedEntries(rd.committed), old(lastSnapshot), snapshot), snapshot,
                         minFollower, target)
      ensures prunedThrough > old(prunedThrough) ==>
                prunedThrough <= lastApplied && (minFollower > 0 ==> prunedThrough <= minFollower)
      ensures old(Covered()) && Promised(old(lastHard), old(lastApplied), rd) ==> Covered()
    {
      hide Wired, Recorded, Covered, AllFit, LoggedBy, Sound, AppliedAfter, CountedEntries, Promised, LastOf, Logs;
      LoggedHolds(wire, lastHard, rd);
      AppendEnds(Envs(), LoggedBy(wire, lastHard, rd));
      Halves(Envs(), LoggedBy(wire, lastHard, rd));
      LogReady(rd);
      target := MoveFloor(snapshot, minFollower);
    }

    /** Moving the floor touches neither the log nor what covers it. */
    method MoveFloor(snapshot: SnapshotResult, minFollower: nat) returns (target: nat)
      requires Valid()
      modifies `prunedThrough, `lastSnapshot, `sinceSnapshot
      ensures Valid() && (old(Covered()) ==> Covered())
      ensures old(prunedThrough) <= prunedThrough && (target == 0 || target == prunedThrough)
      ensures FloorMoved(old(Due(sinceSnapshot, lastSnapshot, snapshot)), snapshot, minFollower, target)
      ensures prunedThrough > old(prunedThrough) ==>
                prunedThrough <= lastApplied && (minFollower > 0 ==> prunedThrough <= minFollower)
    {
      hide Wired, Recorded, HardStateReaches;
      target := AdvancePruneFloor(snapshot, minFollower);
    }

    /** The part of a Ready that is logged. */
    method LogReady(rd: Ready)
      requires Valid() && AllFit(wire, LoggedBy(wire, lastHard, rd))
      modifies `lastHard, `lastApplied, `sinceSnapshot, `logged, wal, ring, ring.ring
      ensures Valid() && Envs() == old(Envs()) + LoggedBy(wire, old(lastHard), rd)
      ensures lastHard == LastOf(old(lastHard), rd) && (old(Sound()) ==> Sound())
      ensures Grown(old(wal.segs), old(wal.segIdx), wal.segs, wal.segIdx)
      ensures lastApplied == AppliedAfter(old(lastApplied), rd.committed)
      ensures sinceSnapshot == old(sinceSnapshot) + CountedEntries(rd.committed)
      ensures old(Covered()) && Promised(old(lastHard), old(lastApplied), rd) ==> Covered()
    {
      hide Wired, Recorded, HardStateReaches, AllFit, EntryEnvelopes, Sound, AppliedAfter, CountedEntries;
      ghost var first := HardLogged(wire, lastHard, rd.hard);
      AllFitSplit(wire, first, EntryEnvelopes(wire, rd.committed));
      LogHard(rd.hard);
      LogEntries(rd.committed);
      AppendAssoc(old(Envs()), first, EntryEnvelopes(wire, rd.committed));
      if old(Covered()) && Promised(old(lastHard), old(lastApplied), rd) {
        AppliedWithin(old(lastApplied), rd.committed, lastHard.commit);
        ReadyReaches(wire, old(lastHard), old(Envs()), rd);
      }
    }

    /** A snapshot is attempted and succeeds. */
    predicate Due(since: nat, snapshotAt: nat, snapshot: SnapshotResult)
      reads `lastApplied
    {
      snapshotThreshold > 0 && since >= snapshotThreshold && lastApplied > snapshotAt && snapshot != SnapshotFailed
    }

    /** A due snapshot that pruned the stored entries raises the floor to the applied index or what
        holds it back, and makes it the target; anything else leaves the floor and sets no target. */
    twostate predicate FloorMoved(due: bool, snapshot: SnapshotResult, minFollower: nat, target: nat)
      reads this
    {
      if due && snapshot == EntriesPruned then
        target == prunedThrough == Highest(old(prunedThrough), Floor(minFollower))
      else
        target == 0 && prunedThrough == old(prunedThrough)
    }

    /** The applied index, held back by the slowest follower that has matched anything. */
    function Floor(minFollower: nat): nat
      reads `lastApplied
    {
      if 0 < minFollower < lastApplied then minFollower else lastApplied
    }

    method LogHard(h: HardStateMsg)
      requires Valid() && AllFit(wire, HardLogged(wire, lastHard, h))
      modifies `lastHard, wal
      ensures Valid() && (old(Sound()) ==> Sound())
      ensures Grown(old(wal.segs), old(wal.segIdx), wal.segs, wal.segIdx)
      ensures Envs() == old(Envs()) + HardLogged(wire, old(lastHard), h)
      ensures h != EMPTY_HARD_STATE && h != old(lastHard) ==>
                |Envs()| > 0 && HoldsHard(wire, Envs()[|Envs()| - 1], h) && lastHard == h
      ensures lastHard == if NewHard(old(lastHard), h) == [] then old(lastHard) else h
    {
      hide Legible, Envelopes, Writer.Valid, Session.Log, Tuples, Fits, LogOf, Landed, Whole;
      AppendCut(Envs(), [], 0);
      if h == EMPTY_HARD_STATE || (h.term == lastHard.term && h.vote == lastHard.vote && h.commit == lastHard.commit) {
        return;
      }
      var env := HardEnvelope(wire, h);
      assert HardLogged(wire, lastHard, h)[0] == env;
      var b := wire.marshal(env);
      EnvelopesSnoc(wire, LogOf(held, wal.segs, wal.segIdx), Record(h.commit, true, b), env);
      TuplesSnoc(Envs(), env);
      AppendCut(Tuples(Envs()), [], 0);
      AppendRecord(wal, Record(h.commit, true, b), held);
      lastHard := h;
    }

    method LogNormal(index: nat, term: nat, app: Str)
      requires Valid() && Fits(wire, NormalEnvelope(wire, index, term, app))
      modifies `logged, wal, ring, ring.ring
      ensures Valid() && (old(Sound()) ==> Sound())
      ensures Grown(old(wal.segs), old(wal.segIdx), wal.segs, wal.segIdx)
      ensures Envs() == old(Envs()) + [NormalEnvelope(wire, index, term, app)]
      ensures Envs() == old(Envs()) + [Envelope(index, term, Normal, app, wire.codec.crc(app))]
      ensures logged == old(logged) + [Tuple(index, wire.codec.crc(app))]
    {
      hide Legible, Envelopes, Writer.Valid, Session.Log, Tuples, Fits, LastN, InRing, LogOf, Landed, Whole;
      var env := NormalEnvelope(wire, index, term, app);
      var b := wire.marshal(env);
      EnvelopesSnoc(wire, LogOf(held, wal.segs, wal.segIdx), Record(index, false, b), env);
      TuplesSnoc(Envs(), env);
      LastNAppend(logged, Tuple(index, wire.codec.crc(app)), ring.lastN);
      AppendRecord(wal, Record(index, false, b), held);
      ring.AddTuple(Tuple(index, wire.codec.crc(app)));
      logged := logged + [Tuple(index, wire.codec.crc(app))];
    }

    /** One committed entry; one that does not decode is passed over. */
    method LogEntry(e: Entry)
      requires Valid() && AllFit(wire, EntryEnvelope(wire, e))
      modifies `lastApplied, `sinceSnapshot, `logged, wal, ring, ring.ring
      ensures Valid() && (old(Sound()) ==> Sound())
      ensures Grown(old(wal.segs), old(wal.segIdx), wal.segs, wal.segIdx)
      ensures Envs() == old(Envs()) + EntryEnvelope(wire, e)
      ensures var passed := e.NormalEntry? && e.payload == None;
              && lastApplied == (if passed then old(lastApplied) else e.index)
              && sinceSnapshot == old(sinceSnapshot) + if passed then 0 else 1
    {
      hide Wired, Recorded, Fits, Sound;
      AppendCut(Envs(), [], 0);
      match e {
        case NormalEntry(index, term, payload) =>
          if payload.Some? {
            assert EntryEnvelope(wire, e)[0] == NormalEnvelope(wire, index, term, payload.value);
            LogNormal(index, term, payload.value);
            lastApplied, sinceSnapshot := index, sinceSnapshot + 1;
          }
        case ConfChangeEntry(index, term, data) =>
          assert EntryEnvelope(wire, e)[0] == NormalEnvelope(wire, index, term, data);
          LogNormal(index, term, data);
          lastApplied, sinceSnapshot := index, sinceSnapshot + 1;
        case OtherEntry(index, _) =>
          lastApplied, sinceSnapshot := index, sinceSnapshot + 1;
      }
    }

    method LogEntries(es: seq<Entry>)
      requires Valid() && AllFit(wire, EntryEnvelopes(wire, es))
      modifies `lastApplied, `sinceSnapshot, `logged, wal, ring, ring.ring
      ensures Valid() && (old(Sound()) ==> Sound())
      ensures Grown(old(wal.segs), old(wal.segIdx), wal.segs, wal.segIdx)
      ensures Envs() == old(Envs()) + EntryEnvelopes(wire, es)
      ensures lastApplied == AppliedAfter(old(lastApplied), es)
      ensures sinceSnapshot == old(sinceSnapshot) + CountedEntries(es)
    {
      hide Wired, Recorded, AllFit, EntryEnvelope, Sound;
      AppendCut(Envs(), [], 0);
      assert es[..|es|] == es;
      for i := 0 to |es|
        invariant Valid() && (old(Sound()) ==> Sound()) && Grown(old(wal.segs), old(wal.segIdx), wal.segs, wal.segIdx)
        invariant Envs() == old(Envs()) + EntryEnvelopes(wire, es[..i])
        invariant lastApplied == AppliedAfter(old(lastApplied), es[..i])
        invariant sinceSnapshot == old(sinceSnapshot) + CountedEntries(es[..i])
      {
        EntryLogged(wire, es, i);
        CountStep(es, i, old(lastApplied));
        AppendAssoc(old(Envs()), EntryEnvelopes(wire, es[..i]), EntryEnvelope(wire, es[i]));
        LogEntry(es[i]);
      }
    }

    /** A snapshot is due; when it was taken and the stored entries were pruned, the floor becomes
        the applied index, held back by the slowest follower that has matched anything. */
    method AdvancePruneFloor(snapshot: SnapshotResult, minFollower: nat) returns (target: nat)
      modifies `prunedThrough, `lastSnapshot, `sinceSnapshot
      ensures FloorMoved(old(Due(sinceSnapshot, lastSnapshot, snapshot)), snapshot, minFollower, target)
      ensures var moved := old(Due(sinceSnapshot, lastSnapshot, snapshot))
                           && (snapshot == EntriesPruned || prunedThrough < lastApplied);
              && lastSnapshot == (if moved then lastApplied else old(lastSnapshot))
              && sinceSnapshot == if moved then 0 else old(sinceSnapshot)
      ensures prunedThrough > old(prunedThrough) ==>
                prunedThrough <= lastApplied && (minFollower > 0 ==> prunedThrough <= minFollower)
      ensures target > 0 && (minFollower == 0 || minFollower >= lastApplied) ==> prunedThrough >= lastApplied
      ensures target > 0 && minFollower > 0 ==> prunedThrough >= minFollower || prunedThrough >= lastApplied
      ensures snapshotThreshold > 0 && old(sinceSnapshot) >= snapshotThreshold && lastApplied > old(lastSnapshot)
                && snapshot == EntriesPruned ==>
                target == prunedThrough && lastSnapshot == lastApplied && sinceSnapshot == 0
      ensures snapshotThreshold == 0 || old(sinceSnapshot) < snapshotThreshold || lastApplied <= old(lastSnapshot)
                || snapshot == SnapshotFailed ==>
                target == 0 && prunedThrough == old(prunedThrough) && lastSnapshot == old(lastSnapshot)
                  && sinceSnapshot == old(sinceSnapshot)
    {
      target := 0;
      if snapshotThreshold > 0 && sinceSnapshot >= snapshotThreshold && lastApplied > lastSnapshot {
        if snapshot != SnapshotFailed {
          if snapshot == EntriesPruned {
            var floor := lastApplied;
            if minFollower > 0 && minFollower < floor {
              floor := minFollower;
            }
            if floor > prunedThrough {
              prunedThrough := floor;
            }
            lastSnapshot, sinceSnapshot := lastApplied, 0;
            target := prunedThrough;
          }
          if prunedThrough < lastApplied {
            lastSnapshot, sinceSnapshot := lastApplied, 0;
          }
        }
      }
    }

    /** What a pass has removed: only segments it may prune, and all of them unless one cannot be read. */
    twostate predicate FilesPruned(target: nat, captured: nat, unread: Status, gone: set<nat>)
      reads wal
    {
      var c, d := wire.codec, old(wal.disk);
      && wal.disk == d - gone && wal.segs == old(wal.segs) - gone && wal.segIdx in d
      && (forall k :: k in gone ==> k in d && Prunable(c, d, captured, target, k))
      && (unread == Clean ==> forall k :: k in wal.disk ==> !Prunable(c, d, captured, target, k))
      && (unread != Clean ==> exists k :: k in d && k != captured && Scan(c, d[k]).status == unread)
      && (unread == Clean ==> (wal.segIdx !in wal.disk <==> Prunable(c, d, captured, target, wal.segIdx)))
    }

    /** The segment of the last hard state was one to prune. */
    ghost predicate HardPrunable(target: nat, captured: nat)
      requires Wired()
      reads wal, ring
    {
      var at := HardAt();
      at.Some? && at.value in wal.disk && Prunable(wire.codec, wal.disk, captured, target, at.value)
    }

    /** What is left of a whole log: every envelope from the floor on, and the last hard state in its
        place exactly when its segment was not removed, which it is exactly when it was one to prune. */
    twostate predicate LogPruned(target: nat, captured: nat, unread: Status, gone: set<nat>)
      requires old(Wired()) && Wired()
      reads wal, ring
    {
      var was, now := old(HardAt()), HardAt();
      && From(target, Envs()) == old(From(target, Envs()))
      && (now == was <==> (was.Some? ==> was.value !in gone))
      && (unread == Clean ==> (now == was <==> !old(HardPrunable(target, captured))))
      && (now == was ==> LastHardState(Envs()) == old(LastHardState(Envs())))
      && (now != was && now.Some? ==> now.value < was.value)
      && (now.None? ==> LastHardState(Envs()) == [])
      && (old(HardStateReaches(target, Envs())) ==> HardStateReaches(target, Envs()) && now == was)
    }

    /** One background pass over the WAL with the active segment as it was when the pass began;
        entries may have been logged since. Unless that cost it the active segment, a whole log keeps
        every envelope from the floor on, and its last hard state exactly when the segment of that
        hard state is not prunable, and always when its index reaches the floor. */
    method PrunePass(target: nat, captured: nat) returns (removed: nat, unread: Status, ghost gone: set<nat>)
      requires Valid()
      modifies `intact, wal`disk, wal`sidecars, wal`segs
      ensures FilesPruned(target, captured, unread, gone) && removed == |gone|
      ensures wal.segIdx in wal.disk ==> Valid() && (old(Sound()) ==> Sound())
      ensures wal.segIdx in wal.disk && old(Sound()) ==> LogPruned(target, captured, unread, gone)
      ensures wal.segIdx in wal.disk && old(Sound() && Covered()) && target <= prunedThrough ==>
                Covered() && HardAt() == old(HardAt())
    {
      hide Wired, Recorded, Sound, Prunable, From, LastHardState, HardStateReaches, HardAt, Files, LogOf, Legible,
           Whole, AllLegible, HardSegment, Envelopes;
      ghost var d, segs := wal.disk, wal.segs;
      ActiveThere();
      removed, unread, gone := PruneFiles(target, captured);
      if wal.segIdx in wal.disk {
        ActiveThere();
        if old(Sound()) {
          AfterPrune(wire.codec, d, wal.buf, held, segs, wal.segIdx, captured, gone, target, lastHard.commit);
        }
      }
    }

    /** What a pass does to the files. */
    method PruneFiles(target: nat, captured: nat) returns (removed: nat, unread: Status, ghost gone: set<nat>)
      requires Valid()
      modifies `intact, wal`disk, wal`sidecars, wal`segs
      ensures FilesPruned(target, captured, unread, gone) && removed == |gone|
      ensures wal.segIdx in wal.disk ==> Valid() && (old(Sound()) ==> Sound())
    {
      hide Files, Session.Sound, Prunable, LogOf, Whole, Legible, Envelopes, Tuples, LastN, InRing, Writer.Valid;
      ghost var segs := wal.segs;
      ActiveThere();
      removed, unread, gone := wal.PruneScan(captured, target);
      intact := intact && removed == 0;
      if wal.segIdx in wal.disk {
        WithoutLegible(wire.codec, held, segs, wal.segIdx, gone);
        WholeWithout(wire.codec, held, segs, gone);
        if removed == 0 {
          NoneGone(segs, gone);
        }
      }
    }

    /** The background pruning of the WAL up to a floor, when nothing is logged meanwhile. */
    method PruneWal(target: nat)
      requires Valid()
      modifies `intact, wal`disk, wal`sidecars, wal`segs
      ensures Valid() && wal.segIdx in old(wal.segs) && wal.segs[wal.segIdx] == old(wal.segs[wal.segIdx])
      ensures old(Sound()) ==> Sound() && From(target, Envs()) == old(From(target, Envs()))
      ensures old(Sound() && HardStateReaches(target, Envs())) ==>
                HardAt() == old(HardAt()) && LastHardState(Envs()) == old(LastHardState(Envs()))
      ensures old(Sound() && Covered()) && target <= prunedThrough ==>
                Covered() && LastHardState(Envs()) == old(LastHardState(Envs()))
    {
      hide Wired, Recorded, Sound, From, LastHardState, HardStateReaches, HardAt;
      ActiveThere();
      if target == 0 {
        return;
      }
      for i := 0 to 4
        invariant Valid() && wal.segIdx in wal.segs && wal.segs[wal.segIdx] == old(wal.segs[wal.segIdx])
        invariant old(Sound()) ==> Sound() && From(target, Envs()) == old(From(target, Envs()))
        invariant old(Sound() && HardStateReaches(target, Envs())) ==>
                    && HardStateReaches(target, Envs()) && HardAt() == old(HardAt())
                    && LastHardState(Envs()) == old(LastHardState(Envs()))
        invariant old(Sound() && Covered()) && target <= prunedThrough ==>
                    Covered() && LastHardState(Envs()) == old(LastHardState(Envs()))
      {
        var more := PruneOnce(target);
        if !more {
          return;
        }
      }
    }

    lemma ActiveThere()
      requires Wired()
      ensures wal.segIdx in wal.segs && wal.segIdx in wal.disk && UpTo(wal.segs, wal.segIdx)
      ensures Files(wire.codec, wal.disk, wal.buf, wal.segs, wal.segIdx)
      ensures Legible(wire.codec, LogOf(held, wal.segs, wal.segIdx)) && AllLegible(wire.codec, Joined(held, wal.segs))
      ensures Sound() == Whole(wire.codec, held, wal.segs)
      ensures HardAt() == HardSegment(wire.codec, Joined(held, wal.segs), wal.segIdx + 1)
    {
      hide HardSegment, LogOf, Legible, Whole, Files, Session.Sound, Joined, Envelopes, Held, AllLegible;
      FilesKeys(wal.codec, wal.disk, wal.buf, wal.segs, wal.segIdx);
      JoinedLegible(wire.codec, held, wal.segs, wal.segIdx);
    }

    /** One pass with the active segment still the one captured. */
    method PruneOnce(target: nat) returns (more: bool)
      requires Valid()
      modifies `intact, wal`disk, wal`sidecars, wal`segs
      ensures Valid() && wal.segIdx in old(wal.segs) && wal.segIdx in wal.segs
                && wal.segs[wal.segIdx] == old(wal.segs[wal.segIdx])
      ensures old(Sound()) ==> Sound() && From(target, Envs()) == old(From(target, Envs()))
      ensures old(Sound() && HardStateReaches(target, Envs())) ==>
                && HardStateReaches(target, Envs()) && HardAt() == old(HardAt())
                && LastHardState(Envs()) == old(LastHardState(Envs()))
      ensures old(Sound() && Covered()) && target <= prunedThrough ==>
                Covered() && LastHardState(Envs()) == old(LastHardState(Envs()))
    {
      hide Wired, Recorded, Sound, From, LastHardState, HardStateReaches, HardAt;
      ActiveThere();
      var removed, unread, gone := PrunePass(target, wal.segIdx);
      return removed > 0 && unread == Clean;
    }

    /** Compares the ring with the tail of the log on disk. */
    method ValidateShadowTail() returns (ok: bool)
      requires Valid()
      modifies wal`disk, wal`buf
      ensures Valid() && Envs() == old(Envs()) && Sound() == old(Sound())
      ensures Sound() && InOrder(wal.disk.Keys) ==>
                (ok <==> LastN(Tuples(Envs()), |ring.Contents()|) == ring.Contents())
      ensures Sound() && InOrder(wal.disk.Keys) && intact ==> ok
    {
      hide Legible, Envelopes, Session.Log, Tuples, Session.Sound, Files, LastN, InRing, ScanDir, NameBefore, LogOf,
           Whole;
      wal.Flush();
      var kept := ring.Snapshot();
      LastNTwice(logged, ring.lastN);
      if |kept| == 0 {
        LastNTwice(Tuples(Envs()), 0);
        return true;
      }
      var tuples, status := TailLogicalTuples(wire.codec, wal.disk, |kept|);
      if Sound() && InOrder(wal.disk.Keys) {
        ReadsLog(wire.codec, wal.disk, held, wal.segs, wal.segIdx);
      }
      if status != Clean {
        return false;
      }
      ok := Agree(kept, tuples);
    }
  }

  method Agree(ring: seq<Tuple>, tuples: seq<Tuple>) returns (ok: bool)
    ensures ok <==> ring == tuples
  {
    if |tuples| != |ring| {
      return false;
    }
    for i := 0 to |ring|
      invariant ring[..i] == tuples[..i]
    {
      if ring[i].index != tuples[i].index || ring[i].crc != tuples[i].crc {
        return false;
      }
    }
    return true;
  }
}
