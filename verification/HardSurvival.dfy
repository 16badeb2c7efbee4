/** Which segment holds the last hard state, and when pruning removes it. */
module HardSurvival {
  import opened Bytes
  import opened Sequences
  import opened Segments
  import opened WalLog
  import opened WalPruning
  import opened WalWriters
  import opened WalSessions

  predicate HasHard(envs: seq<Envelope>) {
    envs != [] && (envs[|envs| - 1].kind == HardState || HasHard(envs[..|envs| - 1]))
  }

  /** The last segment below `n` with a hard state in it. */
  ghost function HardSegment(c: Codec, parts: Parts, n: nat): (at: Option<nat>)
    requires AllLegible(c, parts)
    ensures at.Some? ==> at.value in parts && at.value < n && HasHard(Envelopes(c, parts[at.value]))
  {
    if n == 0 then None
    else if n - 1 in parts && HasHard(Envelopes(c, parts[n - 1])) then Some(n - 1)
    else HardSegment(c, parts, n - 1)
  }

  lemma {:induction false} LastHardAppend(a: seq<Envelope>, b: seq<Envelope>, p: nat)
    ensures LastHardState(a + b) == LastHardState(if HasHard(b) then b else a)
    ensures HardStateReaches(p, a + b) == HardStateReaches(p, if HasHard(b) then b else a)
    decreases |b|
  {
    if b == [] {
      AppendCut(a, [], 0);
    } else {
      LastHardAppend(a, b[..|b| - 1], p);
      AppendEnds(a, b);
    }
  }

  lemma {:induction false} HardBelowMax(envs: seq<Envelope>, p: nat)
    requires HasHard(envs) && HardStateReaches(p, envs)
    ensures MaxIndex(envs) >= p
    decreases |envs|
  {
    if envs[|envs| - 1].kind != HardState {
      HardBelowMax(envs[..|envs| - 1], p);
    }
  }

  /** The last hard state of the log is the last one of that segment. */
  lemma {:induction false} HardSegmentState(c: Codec, parts: Parts, n: nat, p: nat)
    requires AllLegible(c, parts)
    ensures var at := HardSegment(c, parts, n);
            var envs := if at.Some? then Envelopes(c, parts[at.value]) else [];
            && LastHardState(Held(c, parts, n)) == LastHardState(envs)
            && HardStateReaches(p, Held(c, parts, n)) == HardStateReaches(p, envs)
  {
    hide Envelopes, LastHardState, HardStateReaches, HasHard;
    if n > 0 {
      HardSegmentState(c, parts, n - 1, p);
      var last := if n - 1 in parts then Envelopes(c, parts[n - 1]) else [];
      LastHardAppend(Held(c, parts, n - 1), last, p);
      NoHardInNone();
    }
  }

  lemma NoHardInNone()
    ensures !HasHard([])
  {
  }

  lemma {:induction false} HardSegmentWithout(c: Codec, parts: Parts, gone: set<nat>, n: nat)
    requires AllLegible(c, parts)
    ensures AllLegible(c, parts - gone)
    ensures var at := HardSegment(c, parts, n);
            && (HardSegment(c, parts - gone, n) == at <==> (at.Some? ==> at.value !in gone))
            && (at.Some? && at.value in gone ==>
              HardSegment(c, parts - gone, n) == HardSegment(c, parts - gone, at.value))
  {
    hide Envelopes, HasHard;
    if n > 0 {
      HardSegmentWithout(c, parts, gone, n - 1);
    }
  }

  /** A prune keeps the last hard state in its place exactly when its segment is not among those
      removed; otherwise an earlier segment has the last one. That segment is never removed while
      the index of the hard state reaches the floor. */
  lemma HardStateSurvives(c: Codec, parts: Parts, gone: set<nat>, n: nat, p: nat)
    requires AllLegible(c, parts)
    ensures AllLegible(c, parts - gone)
    ensures var at := HardSegment(c, parts, n);
            && (HardSegment(c, parts - gone, n) == at <==> (at.Some? ==> at.value !in gone))
            && (HardSegment(c, parts - gone, n) == at ==>
                  LastHardState(Held(c, parts - gone, n)) == LastHardState(Held(c, parts, n)))
            && (at.Some? && at.value in gone ==>
              HardSegment(c, parts - gone, n) == HardSegment(c, parts - gone, at.value))
            && (at.Some? && HardStateReaches(p, Held(c, parts, n)) ==> MaxIndex(Envelopes(c, parts[at.value])) >= p)
  {
    hide Envelopes, HasHard, LastHardState, HardStateReaches, Held, MaxIndex, HardSegment;
    HardSegmentWithout(c, parts, gone, n);
    HardSegmentState(c, parts, n, p);
    HardSegmentState(c, parts - gone, n, p);
    var at := HardSegment(c, parts, n);
    if at.Some? && HardStateReaches(p, Held(c, parts, n)) {
      HardBelowMax(Envelopes(c, parts[at.value]), p);
    }
  }

  lemma JoinedWithout(held: Parts, segs: Segs, gone: set<nat>)
    ensures Joined(held, segs - gone) == Joined(held, segs) - gone
  {
  }

  /** In a whole log a segment that is not active is prunable exactly when its records are. */
  lemma PrunableParts(c: Codec, d: Dir, buf: Str, held: Parts, segs: Segs, active: nat, captured: nat, p: nat, k: nat)
    requires Files(c, d, buf, segs, active) && Whole(c, held, segs) && AllLegible(c, Joined(held, segs))
    requires k in d && k != active
    ensures Prunable(c, d, captured, p, k)
            <==> k != captured && MaxIndex(Envelopes(c, Joined(held, segs)[k])) < p
  {
    hide Content, Scan, Envelopes, MaxIndex;
    JoinedStored(c, d, buf, held, segs, active);
    ScanSegment(c, d, Joined(held, segs), k);
  }

  /** What one prune that spares the active segment keeps of the log. */
  lemma PruneLog(c: Codec, d: Dir, buf: Str, held: Parts, segs: Segs, active: nat, captured: nat, gone: set<nat>,
                 p: nat, q: nat)
    requires Files(c, d, buf, segs, active) && Whole(c, held, segs) && Legible(c, LogOf(held, segs, active))
    requires active !in gone && p <= q && forall k :: k in gone ==> k in d && Prunable(c, d, captured, p, k)
    requires Legible(c, LogOf(held, segs - gone, active))
    ensures var before, after
              := Envelopes(c, LogOf(held, segs, active)), Envelopes(c, LogOf(held, segs - gone, active));
            && From(p, after) == From(p, before)
            && (HardStateReaches(q, before) ==>
                  LastHardState(after) == LastHardState(before) && HardStateReaches(q, after))
  {
    hide Legible, Envelopes, LogOf, Held, Scan, MaxIndex, From, LastHardState, HardStateReaches, Content, FileBytes,
         Prunable;
    var parts, n := Joined(held, segs), active + 1;
    JoinedLegible(c, held, segs, active);
    JoinedLegible(c, held, segs - gone, active);
    JoinedWithout(held, segs, gone);
    forall k | k in parts && k in gone ensures MaxIndex(Envelopes(c, parts[k])) < p {
      PrunableParts(c, d, buf, held, segs, active, captured, p, k);
    }
    PruneKeeps(c, parts, parts - gone, p, n, q);
  }

  lemma WithoutLegible(c: Codec, held: Parts, segs: Segs, active: nat, gone: set<nat>)
    requires UpTo(segs, active) && Legible(c, LogOf(held, segs, active))
    ensures Legible(c, LogOf(held, segs - gone, active))
  {
    hide Legible, Envelopes, Held, RecordsBelow;
    JoinedLegible(c, held, segs, active);
    JoinedWithout(held, segs, gone);
    HeldIsDecoded(c, Joined(held, segs - gone), active + 1);
  }
}
