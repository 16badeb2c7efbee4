/** Whole runs of the outbox: every written entry is pending under its subscription's current name
    until a purge covers it, and accepted acknowledgements only ever advance. */
module OutboxHistory {
  import opened Bytes
  import opened Emission

  datatype Step =
    | WriteStep(entry: Entry)
    | PurgeStep(sub: Str, pos: EmitSeq)
    | AckStep(sub: Str, pos: EmitSeq)
    | RebindStep(from: Str, to: Str)

  function Apply(s: State, step: Step): State {
    match step
    case WriteStep(e) => ApplyWrite(s, e)
    case PurgeStep(sub, pos) => ApplyPurge(s, sub, pos)
    case AckStep(sub, pos) => ApplyAck(s, sub, pos)
    case RebindStep(from, to) => Rebind(s, from, to)
  }

  function Init(epoch: EpochID): State {
    State(map[], map[], map[], epoch)
  }

  function Run(epoch: EpochID, t: seq<Step>): State {
    if t == [] then Init(epoch) else Apply(Run(epoch, t[..|t| - 1]), t[|t| - 1])
  }

  /** The subscription a write or acknowledgement names. */
  function SubOf(step: Step): Str
    requires step.WriteStep? || step.AckStep?
  {
    if step.WriteStep? then step.entry.sub else step.sub
  }

  /** The name that subscription goes by at the end of the run. */
  function NameAfter(t: seq<Step>, k: nat): Str
    requires k < |t| && (t[k].WriteStep? || t[k].AckStep?)
  {
    if |t| == k + 1 then SubOf(t[k])
    else
      var name := NameAfter(t[..|t| - 1], k);
      var last := t[|t| - 1];
      if last.RebindStep? && last.from == name then last.to else name
  }

  /** Some later purge under the entry's name of the time reached its index. */
  ghost predicate Covered(t: seq<Step>, k: nat)
    requires k < |t| && t[k].WriteStep?
  {
    exists j :: k < j < |t| && CoversAt(t, k, j)
  }

  predicate CoversAt(t: seq<Step>, k: nat, j: nat)
    requires k < j < |t| && t[k].WriteStep?
  {
    t[j].PurgeStep? && t[j].sub == NameAfter(t[..j], k) && t[k].entry.pos.index <= t[j].pos.index
  }

  /** A commit index is written once per bucket. */
  ghost predicate UniqueIndices(t: seq<Step>) {
    forall i, j :: 0 <= i < j < |t| && t[i].WriteStep? && t[j].WriteStep? ==>
      t[i].entry.pos.index != t[j].entry.pos.index
  }

  /** The written entry as it should be found: position and delta unchanged, under its current name. */
  function Expected(t: seq<Step>, k: nat): Entry
    requires k < |t| && t[k].WriteStep?
  {
    t[k].entry.(sub := NameAfter(t, k))
  }

  /** A pending entry comes from a write that no purge covered. */
  ghost predicate Accounted(t: seq<Step>, s: Str, i: nat) {
    exists k :: 0 <= k < |t| && t[k].WriteStep? && t[k].entry.pos.index == i && NameAfter(t, k) == s && !Covered(t, k)
  }

  lemma CoveredLonger(t: seq<Step>, k: nat)
    requires k + 1 < |t| && t[k].WriteStep?
    ensures var t' := t[..|t| - 1]; Covered(t, k) <==> Covered(t', k) || CoversAt(t, k, |t| - 1)
  {
    var t' := t[..|t| - 1];
    forall j | k < j < |t'| ensures CoversAt(t, k, j) <==> CoversAt(t', k, j) {
      assert t'[..j] == t[..j];
    }
  }

  ghost predicate HistoryHolds(epoch: EpochID, t: seq<Step>) {
    && WellFormed(Run(epoch, t).outbox)
    && (forall k :: 0 <= k < |t| && t[k].WriteStep? && !Covered(t, k) ==>
          Lookup(Run(epoch, t).outbox, NameAfter(t, k), t[k].entry.pos.index) == Some(Expected(t, k)))
    && (forall s, i: nat :: Lookup(Run(epoch, t).outbox, s, i).Some? ==> Accounted(t, s, i))
  }

  /** The outbox holds exactly the entries that were written and not covered. */
  lemma {:induction false} OutboxIsHistory(epoch: EpochID, t: seq<Step>)
    requires UniqueIndices(t)
    ensures HistoryHolds(epoch, t)
  {
    if t != [] {
      OutboxIsHistory(epoch, t[..|t| - 1]);
      forall k | 0 <= k < |t| && t[k].WriteStep? && !Covered(t, k)
        ensures Lookup(Run(epoch, t).outbox, NameAfter(t, k), t[k].entry.pos.index) == Some(Expected(t, k))
      {
        StillPending(epoch, t, k);
      }
      forall s, i: nat | Lookup(Run(epoch, t).outbox, s, i).Some?
        ensures Accounted(t, s, i)
      {
        StillAccounted(epoch, t, s, i);
      }
    }
  }

  lemma StillPending(epoch: EpochID, t: seq<Step>, k: nat)
    requires t != [] && UniqueIndices(t) && HistoryHolds(epoch, t[..|t| - 1])
    requires k < |t| && t[k].WriteStep? && !Covered(t, k)
    ensures Lookup(Run(epoch, t).outbox, NameAfter(t, k), t[k].entry.pos.index) == Some(Expected(t, k))
  {
    var n := |t| - 1;
    var t', last := t[..n], t[n];
    if k < n {
      CoveredLonger(t, k);
      var i := t[k].entry.pos.index;
      if last.RebindStep? && last.from != last.to && Lookup(Run(epoch, t').outbox, last.from, i).Some? {
        var k' :| 0 <= k' < |t'| && t'[k'].WriteStep? && t'[k'].entry.pos.index == i && NameAfter(t', k') == last.from;
        assert k' == k;
      }
    }
  }

  lemma StillAccounted(epoch: EpochID, t: seq<Step>, s: Str, i: nat)
    requires t != [] && HistoryHolds(epoch, t[..|t| - 1])
    requires Lookup(Run(epoch, t).outbox, s, i).Some?
    ensures Accounted(t, s, i)
  {
    var n := |t| - 1;
    var t', last := t[..n], t[n];
    var o := Run(epoch, t').outbox;
    if last.WriteStep? && s == last.entry.sub && i == last.entry.pos.index {
      assert NameAfter(t, n) == s;
    } else {
      var s' := if last.RebindStep? && last.from != last.to && s == last.to
        && Lookup(o, last.from, i).Some? then last.from else s;
      assert Lookup(o, s', i).Some?;
      var k :| 0 <= k < |t'| && t'[k].WriteStep? && t'[k].entry.pos.index == i && NameAfter(t', k) == s'
        && !Covered(t', k);
      CoveredLonger(t, k);
      assert NameAfter(t, k) == s;
    }
  }

  /** No lost updates: after any run, a written entry is pending under its subscription's current
      name, unchanged, if and only if no purge covered it. */
  lemma NoLostUpdates(epoch: EpochID, t: seq<Step>, k: nat)
    requires UniqueIndices(t) && k < |t| && t[k].WriteStep?
    ensures var o := Run(epoch, t).outbox;
            var i := t[k].entry.pos.index;
            && (Lookup(o, NameAfter(t, k), i) == Some(Expected(t, k)) <==> !Covered(t, k))
            && (Covered(t, k) ==> forall s :: Lookup(o, s, i) == None)
  {
    OutboxIsHistory(epoch, t);
    var o := Run(epoch, t).outbox;
    var i := t[k].entry.pos.index;
    forall s | Lookup(o, s, i).Some?
      ensures !Covered(t, k)
    {
      assert Accounted(t, s, i);
    }
  }

  // ---------------------------------------------------------------- conservation

  /** The pending entries, by subscription and index. */
  function Slots(o: Outbox): set<(Str, nat)> {
    set s, i | s in o && i in o[s] :: (s, i)
  }

  function Indices(o: Outbox, s: Str): set<nat> {
    if s in o then o[s].Keys else {}
  }

  function Row(s: Str, ks: set<nat>): set<(Str, nat)> {
    set i | i in ks :: (s, i)
  }

  lemma {:induction false} RowSize(s: Str, ks: set<nat>)
    ensures |Row(s, ks)| == |ks|
  {
    if ks != {} {
      var k :| k in ks;
      RowSize(s, ks - {k});
      assert Row(s, ks) == Row(s, ks - {k}) + {(s, k)};
    }
  }

  function Others(o: Outbox, from: Str, to: Str): set<(Str, nat)> {
    set x | x in Slots(o) && x.0 != from && x.0 != to
  }

  lemma SlotsBefore(o: Outbox, from: Str, to: Str)
    requires from != to
    ensures Slots(o) == Others(o, from, to) + Row(from, Indices(o, from)) + Row(to, Indices(o, to))
  {
  }

  lemma SlotsAfter(o: Outbox, from: Str, to: Str)
    requires from != to
    ensures Slots(MoveEntries(o, from, to)) == Others(o, from, to) + Row(to, Indices(o, from) + Indices(o, to))
  {
    hide MoveEntries;
    var r := MoveEntries(o, from, to);
    forall s, i: nat ensures (s, i) in Slots(r) <==>
      (s, i) in Others(o, from, to) + Row(to, Indices(o, from) + Indices(o, to)) {
      assert Lookup(r, s, i).Some? <==> (s, i) in Slots(r);
      assert Lookup(o, s, i).Some? <==> (s, i) in Slots(o);
      assert Lookup(o, from, i).Some? <==> i in Indices(o, from);
    }
  }

  /** A rebind loses exactly the entries whose index both names hold, so it conserves the number
      of entries if and only if the two names share no index. */
  lemma RebindCount(o: Outbox, from: Str, to: Str)
    requires from != to
    ensures |Slots(MoveEntries(o, from, to))| == |Slots(o)| - |Indices(o, from) * Indices(o, to)|
  {
    hide MoveEntries, Slots, Indices;
    var a, b := Indices(o, from), Indices(o, to);
    SlotsBefore(o, from, to);
    SlotsAfter(o, from, to);
    RowSize(from, a);
    RowSize(to, b);
    RowSize(to, a + b);
    assert |a + b| == |a| + |b| - |a * b|;
    assert Others(o, from, to) !! Row(to, a + b) && Others(o, from, to) !! Row(from, a) && Row(from, a) !! Row(to, b);
  }

  /** In every run with unique indices a rebind conserves the entries. */
  lemma RebindConserves(epoch: EpochID, t: seq<Step>, from: Str, to: Str)
    requires UniqueIndices(t) && from != to
    ensures |Slots(Rebind(Run(epoch, t), from, to).outbox)| == |Slots(Run(epoch, t).outbox)|
  {
    OutboxIsHistory(epoch, t);
    var o := Run(epoch, t).outbox;
    forall i: nat | i in Indices(o, from)
      ensures i !in Indices(o, to)
    {
      assert Lookup(o, from, i).Some?;
      assert Lookup(o, to, i).Some? ==> i in Indices(o, to);
      OneName(epoch, t, from, to, i);
    }
    assert Indices(o, from) * Indices(o, to) == {};
    RebindCount(o, from, to);
  }

  lemma OneName(epoch: EpochID, t: seq<Step>, s: Str, s': Str, i: nat)
    requires UniqueIndices(t) && HistoryHolds(epoch, t) && Lookup(Run(epoch, t).outbox, s, i).Some?
    ensures Lookup(Run(epoch, t).outbox, s', i).Some? ==> s == s'
  {
    assert Accounted(t, s, i);
    if Lookup(Run(epoch, t).outbox, s', i).Some? {
      assert Accounted(t, s', i);
    }
  }

  // ---------------------------------------------------------------- acknowledgements

  predicate AcceptedAt(epoch: EpochID, t: seq<Step>, k: nat)
    requires k < |t|
  {
    t[k].AckStep? && AckAccepted(Run(epoch, t[..k]), t[k].sub, t[k].pos)
  }

  /** The watermark of a subscription's current name is no older than any ack accepted for it. */
  lemma {:induction false} AckWatermark(epoch: EpochID, t: seq<Step>, k: nat)
    requires k < |t| && AcceptedAt(epoch, t, k)
    ensures NameAfter(t, k) in Run(epoch, t).lastAck
    ensures !Newer(t[k].pos, Run(epoch, t).lastAck[NameAfter(t, k)])
  {
    hide Write, Purge, MoveEntries;
    var n := |t| - 1;
    var t' := t[..n];
    if k < n {
      assert t'[..k] == t[..k];
      AckWatermark(epoch, t', k);
    }
  }

  /** Accepted acks of one subscription strictly increase, also across rebinds. */
  lemma AcksIncrease(epoch: EpochID, t: seq<Step>, a: nat, b: nat)
    requires a < b < |t| && AcceptedAt(epoch, t, a) && AcceptedAt(epoch, t, b)
    requires NameAfter(t[..b], a) == t[b].sub
    ensures Newer(t[b].pos, t[a].pos)
  {
    assert t[..b][..a] == t[..a];
    AckWatermark(epoch, t[..b], a);
  }
}
