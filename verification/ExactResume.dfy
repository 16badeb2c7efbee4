/** Exactly when a resume is gap-free: no purge in flight covers an entry still to be sent. */
module ExactResume {
  import opened Bytes
  import opened Sequences
  import opened Emission
  import opened Delivery
  import opened SendOrder
  import opened Retention
  import opened GapFreeResume

  /** Every continuation of a resume at `n` is gap-free. */
  ghost predicate AlwaysGapFree(s: Sub, w: seq<Entry>, n: nat, c: nat) {
    forall t :: Continues(ResumeFrom(s, n), w, t, c) ==> SentIn(ResumeFrom(s, n), t) <= From(w + Written(t), n)
  }

  function Repeat(n: nat): (t: seq<Step>)
    ensures |t| == n && forall k :: 0 <= k < n ==> t[k] == PurgeNext
    ensures Written(t) == []
  {
    if n == 0 then [] else Repeat(n - 1) + [PurgeNext]
  }

  /** `s'` is `s` with the first `n` proposed purges applied. */
  ghost predicate PurgedFirst(s: Sub, s': Sub, n: nat)
    requires n <= |s.proposed|
  {
    && s' == s.(pending := s'.pending, compacted := s'.compacted, proposed := s.proposed[n..])
    && (forall i :: i in s'.pending ==> i in s.pending && s'.pending[i] == s.pending[i])
    && (forall i, k :: i in s'.pending && 0 <= k < n ==> i > s.proposed[k].index)
  }

  lemma NonePurged(s: Sub)
    ensures PurgedFirst(s, After(s, Repeat(0)), 0) && SentIn(s, Repeat(0)) == []
  {
    assert s.proposed[0..] == s.proposed;
  }

  lemma RepeatMore(n: nat)
    requires n > 0
    ensures Repeat(n) == Repeat(n - 1) + [PurgeNext]
  {
  }

  /** Applying the purges in flight removes everything they cover and sends nothing. */
  lemma {:induction false} PurgesApplied(s: Sub, n: nat)
    requires n <= |s.proposed|
    ensures PurgedFirst(s, After(s, Repeat(n)), n) && SentIn(s, Repeat(n)) == []
  {
    hide After, SentIn, PurgedFirst, Apply, Ticked, Repeat;
    if n == 0 {
      NonePurged(s);
    } else {
      RepeatMore(n);
      PurgesApplied(s, n - 1);
      RunSnoc(s, Repeat(n - 1), PurgeNext);
      PurgeOneMore(s, After(s, Repeat(n - 1)), n - 1);
    }
  }

  lemma PurgeOneMore(s: Sub, s1: Sub, n: nat)
    requires n < |s.proposed| && PurgedFirst(s, s1, n)
    ensures PurgedFirst(s, Apply(s1, PurgeNext), n + 1)
  {
    assert s.proposed[n..][0] == s.proposed[n] && s.proposed[n..][1..] == s.proposed[n + 1..];
  }

  /** A transport that accepts every send. */
  const ALWAYS: EmitSeq -> bool := _ => true

  /** The run that shows the gap: the purges arrive, an entry is written, a scan succeeds. */
  function GapRun(n: nat, e: Entry): (t: seq<Step>)
    ensures Written(t) == [e]
  {
    var t0 := Repeat(n);
    var t1 := t0 + [Write(e)];
    var t2 := t1 + [Tick(ALWAYS)];
    assert t1[..|t1| - 1] == t0 && t2[..|t2| - 1] == t1;
    assert Written(t1) == [] + [e];
    t2
  }

  /** A scan whose sends all succeed sends just the due entries. */
  lemma FullScan(s: Sub, w: seq<Entry>, c: nat)
    requires Sane(s, w, c)
    ensures forall e :: e in Ticked(s, ALWAYS).0 <==> Pending(s, e) && Due(e, s.sent, s.resume)
  {
    hide Scan, DueEntries, Listing, Present, Due;
    PresentLists(w, s.pending);
    ScanAll(Listing(s.pending), s, c);
    DueAscend(Listing(s.pending), s.sent, s.resume, ALWAYS);
    var es := Listing(s.pending);
    assert forall e :: e in es <==> Pending(s, e);
  }

  lemma ScanAll(es: seq<Entry>, s: Sub, c: nat)
    requires Lists(es, s.pending) && InEpoch(s.pending, c)
    ensures Scan(es, s.sent, s.resume, ALWAYS).0 == DueEntries(es, s.sent, s.resume)
  {
    ScanSends(es, s.sent, s.resume, ALWAYS, c);
    DeliveredPrefix(DueEntries(es, s.sent, s.resume), ALWAYS);
  }

  /** The run's last state before its scan. */
  lemma BeforeGapScan(s: Sub, e: Entry)
    ensures var t := Repeat(|s.proposed|) + [Write(e)];
            var s0, s1 := After(s, Repeat(|s.proposed|)), After(s, t);
            && PurgedFirst(s, s0, |s.proposed|)
            && s1 == s0.(pending := s0.pending[e.pos.index := e])
            && SentIn(s, GapRun(|s.proposed|, e)) == Ticked(s1, ALWAYS).0
  {
    hide After, SentIn, Ticked, PurgedFirst;
    var n := |s.proposed|;
    PurgesApplied(s, n);
    RunSnoc(s, Repeat(n), Write(e));
    RunSnoc(s, Repeat(n) + [Write(e)], Tick(ALWAYS));
  }

  lemma DueAbove(e: Entry, resume: nat)
    ensures resume <= e.pos.index && 0 < e.pos.index ==> Due(e, None, resume)
  {
  }

  /** The scan after the purges sends something, and nothing the purges covered. */
  lemma ScanAfterPurges(s: Sub, w: seq<Entry>, e: Entry, k: nat, c: nat)
    requires Sane(s, w, c) && Ascending(w + [e]) && e.pos.epoch.counter == c && s.sent == None
    requires k < |s.proposed| && s.proposed[k].index < e.pos.index && s.resume <= e.pos.index
    ensures var out := SentIn(s, GapRun(|s.proposed|, e)); out != [] && out[0].pos.index > s.proposed[k].index
  {
    hide After, SentIn, Ticked, GapRun, Repeat, Ascending, Due;
    DueAbove(e, s.resume);
    var n := |s.proposed|;
    BeforeGapScan(s, e);
    var s1 := After(s, Repeat(n) + [Write(e)]);
    assert forall x :: x in w ==> x in w + [e];
    assert e in w + [e];
    FullScan(s1, w + [e], c);
    var out := Ticked(s1, ALWAYS).0;
    assert e in out;
    assert out[0] in out;
  }

  lemma FirstOfFrom(w: seq<Entry>, n: nat, e: Entry)
    requires Ascending(w) && e in w && e.pos.index >= n
    ensures From(w, n) != [] && From(w, n)[0].pos.index <= e.pos.index
  {
    hide From;
    FromMembers(w, n);
    var k :| 0 <= k < |From(w, n)| && From(w, n)[k] == e;
  }

  lemma GapRunContinues(s: Sub, w: seq<Entry>, n: nat, e: Entry, c: nat)
    requires e.pos.epoch.counter == c && Ascending(w + [e])
    ensures Continues(s, w, GapRun(n, e), c)
  {
    hide SentIn, Written;
  }

  /** An index above everything written and every purge proposed. */
  function Beyond(w: seq<Entry>, ps: seq<EmitSeq>): nat {
    if ps == [] then if w == [] then 1 else w[|w| - 1].pos.index + 1
    else
      var b := Beyond(w, ps[1..]);
      if ps[0].index >= b then ps[0].index + 1 else b
  }

  lemma {:induction false} BeyondAll(w: seq<Entry>, ps: seq<EmitSeq>)
    ensures w != [] ==> w[|w| - 1].pos.index < Beyond(w, ps)
    ensures forall k :: 0 <= k < |ps| ==> ps[k].index < Beyond(w, ps)
    ensures Beyond(w, ps) > 0
    decreases |ps|
  {
    if ps != [] {
      BeyondAll(w, ps[1..]);
      HeadTail(ps);
    }
  }

  function NewEntry(i: nat, c: nat): Entry {
    Entry([], EmitSeq(EpochID([], c), i), [])
  }

  lemma NextAscending(w: seq<Entry>, e: Entry)
    requires Ascending(w) && (w != [] ==> w[|w| - 1].pos.index < e.pos.index)
    ensures Ascending(w + [e])
  {
  }

  /** A purge in flight over an entry still to be sent makes a gap. */
  lemma GapOverWritten(s: Sub, w: seq<Entry>, n: nat, c: nat, k: nat, e: Entry)
    requires Sane(s, w, c) && n >= 1 && s.sent == None && s.resume == n
    requires k < |s.proposed| && e in w && n <= e.pos.index <= s.proposed[k].index
    ensures var d := NewEntry(Beyond(w, s.proposed), c);
            var t := GapRun(|s.proposed|, d);
            Continues(s, w, t, c) && !(SentIn(s, t) <= From(w + Written(t), n))
  {
    hide SentIn, From, GapRun, Continues;
    var d := NewEntry(Beyond(w, s.proposed), c);
    BeyondAll(w, s.proposed);
    NextAscending(w, d);
    GapRunContinues(s, w, |s.proposed|, d, c);
    ScanAfterPurges(s, w, d, k, c);
    assert e in w + [d];
    FirstOfFrom(w + [d], n, e);
  }

  lemma {:induction false} RunCons(s: Sub, step: Step, t: seq<Step>)
    requires !step.Tick?
    ensures After(s, [step] + t) == After(Apply(s, step), t) && SentIn(s, [step] + t) == SentIn(Apply(s, step), t)
    ensures Written([step] + t) == (if step.Write? then [step.entry] else []) + Written(t)
    decreases |t|
  {
    hide Apply, After, SentIn, Written, SentBy;
    if t == [] {
      AppendCut([step], [], 0);
      RunOne(s, step);
    } else {
      var t', last := t[..|t| - 1], t[|t| - 1];
      RunCons(s, step, t');
      InitLast(t);
      AppendAssoc([step], t', [last]);
      RunSnoc(s, [step] + t', last);
      RunSnoc(Apply(s, step), t', last);
      WrittenSnoc([step] + t', last);
      WrittenSnoc(t', last);
      AppendAssoc(if step.Write? then [step.entry] else [], Written(t'), if last.Write? then [last.entry] else []);
    }
  }

  lemma RunOne(s: Sub, step: Step)
    requires !step.Tick?
    ensures After(s, [step]) == Apply(s, step) == After(Apply(s, step), [])
    ensures SentIn(s, [step]) == [] == SentIn(Apply(s, step), [])
    ensures Written([step]) == (if step.Write? then [step.entry] else []) + Written([])
  {
    assert [step][..0] == [];
  }

  lemma WrittenSnoc(t: seq<Step>, step: Step)
    ensures Written(t + [step]) == Written(t) + if step.Write? then [step.entry] else []
  {
    assert (t + [step])[..|t|] == t;
  }

  /** A purge in flight beyond everything written makes a gap in what is written next. */
  lemma GapOverNext(s: Sub, w: seq<Entry>, n: nat, c: nat, k: nat)
    requires Holds(s, w, n, c) && s.sent == None && s.resume == n && k < |s.proposed|
    requires n <= s.proposed[k].index && (w == [] || w[|w| - 1].pos.index < s.proposed[k].index)
    ensures exists t :: Continues(s, w, t, c) && !(SentIn(s, t) <= From(w + Written(t), n))
  {
    hide SentIn, From, GapRun, AllAcksSent, After, Written;
    var i := if w == [] || w[|w| - 1].pos.index < n then n else w[|w| - 1].pos.index + 1;
    var e := NewEntry(i, c);
    NextAscending(w, e);
    var s1, w1 := Apply(s, Write(e)), w + [e];
    SaneWrite(s, w, e, c);
    assert e in w1;
    GapOverWritten(s1, w1, n, c, k, e);
    var d := NewEntry(Beyond(w1, s1.proposed), c);
    var t1 := GapRun(|s1.proposed|, d);
    var t := [Write(e)] + t1;
    RunCons(s, Write(e), t1);
    AppendAssoc(w, [e], Written(t1));
    LongerContinues(s, w, e, |s1.proposed|, d, c);
  }

  lemma LongerContinues(s: Sub, w: seq<Entry>, e: Entry, n: nat, d: Entry, c: nat)
    requires e.pos.epoch.counter == c && d.pos.epoch.counter == c && Ascending(w + [e]) && Ascending(w + [e] + [d])
    ensures Continues(s, w, [Write(e)] + GapRun(n, d), c)
  {
    hide SentIn, After, Written;
    var t1 := GapRun(n, d);
    var t := [Write(e)] + t1;
    RunCons(s, Write(e), t1);
    GapRunContinues(s, w + [e], n, d, c);
    AppendAssoc(w, [e], [d]);
    AscendingTail(w, [e] + [d]);
    assert forall k :: 0 <= k < |t| ==> t[k] == if k == 0 then Write(e) else t1[k - 1];
    assert forall k :: 0 <= k < |t1| ==> !t1[k].Ack?;
  }

  lemma AscendingTail(a: seq<Entry>, b: seq<Entry>)
    requires Ascending(a + b)
    ensures Ascending(b)
  {
    assert forall i :: 0 <= i < |b| ==> b[i] == (a + b)[|a| + i];
  }

  /** The resume is gap-free in every continuation exactly when no purge in flight covers an entry
      at or above `n` that is written or can still be written. */
  lemma GapFreeExactly(s: Sub, w: seq<Entry>, n: nat, c: nat)
    requires Holds(s, w, n, c)
    ensures AlwaysGapFree(s, w, n, c) <==> NothingInFlight(s, w, n)
  {
    hide SentIn, From, Continues, Written;
    var s' := ResumeFrom(s, n);
    if NothingInFlight(s, w, n) {
      forall t | Continues(s', w, t, c) ensures SentIn(s', t) <= From(w + Written(t), n) {
        GapFreeFrom(s, w, n, t, c);
      }
    } else {
      var k :| 0 <= k < |s.proposed| && !Harmless(s.proposed[k].index, From(w, n), w, n);
      FromMembers(w, n);
      if e :| e in w && n <= e.pos.index <= s.proposed[k].index {
        GapOverWritten(s', w, n, c, k, e);
      } else {
        GapOverNext(s', w, n, c, k);
      }
    }
  }

  /** The same after an OK reconnect. */
  lemma ReconnectExactly(st: State, sub: Str, s: Sub, w: seq<Entry>, last: EmitSeq)
    requires Agrees(st, sub, s) && Ascending(w) && Retained(s, w, last.epoch.counter)
    requires last.epoch.counter == st.epoch.counter && Reconnect(st, sub, last).status == OK
    ensures var n := Reconnect(st, sub, last).next;
            AlwaysGapFree(s, w, n, last.epoch.counter) <==> NothingInFlight(s, w, n)
  {
    hide Retained, Reconnect, NothingInFlight, AlwaysGapFree, Holds;
    AnswerHolds(st, sub, s, w, last);
    GapFreeExactly(s, w, Reconnect(st, sub, last).next, last.epoch.counter);
  }
}
