/** Resuming under a new name: a reconnecting client's subscription is rebound to its new
    connection before it resumes, while commands under the old name may still be in flight. */
module RebindResume {
  import opened Bytes
  import opened Sequences
  import opened Emission
  import opened Delivery
  import opened SendOrder
  import opened Retention
  import opened GapFreeResume
  import opened ExactResume

  function RenamedAll(w: seq<Entry>, name: Str): seq<Entry> {
    seq(|w|, i requires 0 <= i < |w| => w[i].(sub := name))
  }

  /** `w` holds the entries of both lists in commit order. */
  ghost predicate Merged(w: seq<Entry>, u: seq<Entry>, v: seq<Entry>) {
    Ascending(w) && forall e :: e in w <==> e in u || e in v
  }

  lemma AscendingUnique(w: seq<Entry>, d: Entry, e: Entry)
    requires Ascending(w) && d in w && e in w && d.pos.index == e.pos.index
    ensures d == e
  {
    var i :| 0 <= i < |w| && w[i] == d;
    var j :| 0 <= j < |w| && w[j] == e;
  }

  /** The rebound subscription holds from `n` on whatever either name held. */
  lemma ReboundHolds(a: Sub, wa: seq<Entry>, b: Sub, wb: seq<Entry>, w: seq<Entry>, name: Str, n: nat, c: nat)
    requires Holds(a, wa, n, c) && Holds(b, wb, n, c) && Merged(w, RenamedAll(wa, name), wb)
    ensures Holds(Rebound(a, b, name), w, n, c)
  {
    hide Ascending;
    RenamedMembers(wa, name);
    var r := Rebound(a, b, name);
    ReboundSane(a, wa, b, wb, w, name, c);
    forall e | e in w && e.pos.index >= n ensures Pending(r, e) {
      if e.pos.index in a.pending {
        AscendingUnique(w, a.pending[e.pos.index].(sub := name), e);
      }
    }
  }

  lemma ReboundSane(a: Sub, wa: seq<Entry>, b: Sub, wb: seq<Entry>, w: seq<Entry>, name: Str, c: nat)
    requires Sane(a, wa, c) && Sane(b, wb, c) && Merged(w, RenamedAll(wa, name), wb)
    ensures Sane(Rebound(a, b, name), w, c)
  {
    hide Ascending;
    RenamedMembers(wa, name);
  }

  lemma RenamedMembers(w: seq<Entry>, name: Str)
    ensures forall x :: x in w ==> x.(sub := name) in RenamedAll(w, name)
    ensures forall e :: e in RenamedAll(w, name) ==> exists x :: x in w && e == x.(sub := name)
  {
    var u := RenamedAll(w, name);
    forall x | x in w ensures x.(sub := name) in u {
      var k :| 0 <= k < |w| && w[k] == x;
      assert u[k] == x.(sub := name);
    }
    forall e | e in u ensures exists x :: x in w && e == x.(sub := name) {
      var k :| 0 <= k < |u| && u[k] == e;
      assert w[k] in w;
    }
  }

  // ---------------------------------------------------------------- steps under both names

  datatype TwoStep = Old(step: Step) | New(step: Step)

  function Collect<S, T>(f: S -> seq<T>, t: seq<S>): seq<T> {
    if t == [] then [] else Collect(f, t[..|t| - 1]) + f(t[|t| - 1])
  }

  lemma {:induction false} CollectAppend<S, T>(f: S -> seq<T>, a: seq<S>, b: seq<S>)
    ensures Collect(f, a + b) == Collect(f, a) + Collect(f, b)
    decreases |b|
  {
    if b == [] {
      AppendCut(a, [], 0);
      AppendCut(Collect(f, a), [], 0);
    } else {
      AppendEnds(a, b);
      CollectAppend(f, a, b[..|b| - 1]);
      AppendAssoc(Collect(f, a), Collect(f, b[..|b| - 1]), f(b[|b| - 1]));
    }
  }

  function NewOf(x: TwoStep): seq<Step> {
    if x.New? then [x.step] else []
  }

  function WrittenOf(x: TwoStep): seq<Entry> {
    if x.step.Write? then [x.step.entry] else []
  }

  function OldWrittenOf(x: TwoStep): seq<Entry> {
    if x.Old? then WrittenOf(x) else []
  }

  /** What the new name sees of a run. */
  function NewSteps(t: seq<TwoStep>): seq<Step> {
    Collect(NewOf, t)
  }

  /** All writes, and those that arrive under the old name. */
  function AllWritten(t: seq<TwoStep>): seq<Entry> {
    Collect(WrittenOf, t)
  }

  function OldWritten(t: seq<TwoStep>): seq<Entry> {
    Collect(OldWrittenOf, t)
  }

  /** Writes that arrive too late, below `n`, do not count. */
  lemma {:induction false} WithoutOld(t: seq<TwoStep>, n: nat)
    requires From(OldWritten(t), n) == []
    ensures From(AllWritten(t), n) == From(Written(NewSteps(t)), n)
    decreases |t|
  {
    if t != [] {
      hide From, Written;
      var t', x := t[..|t| - 1], t[|t| - 1];
      FromAppend(OldWritten(t'), OldWrittenOf(x), n);
      WithoutOld(t', n);
      FromAppend(AllWritten(t'), WrittenOf(x), n);
      if x.New? {
        WrittenSnoc(NewSteps(t'), x.step);
        FromAppend(Written(NewSteps(t')), WrittenOf(x), n);
      } else {
        AppendCut(NewSteps(t'), [], 0);
        AppendCut(From(AllWritten(t'), n), [], 0);
      }
    }
  }

  ghost predicate ContinuesTwo(s: Sub, w: seq<Entry>, t: seq<TwoStep>, c: nat) {
    Continues(s, w, NewSteps(t), c) && Ascending(w + AllWritten(t))
  }

  /** Every continuation in which the writes `f` arrive under the old name is gap-free. */
  ghost predicate AlwaysGapFreeTwo(s: Sub, w: seq<Entry>, f: seq<Entry>, n: nat, c: nat) {
    forall t :: ContinuesTwo(ResumeFrom(s, n), w, t, c) && OldWritten(t) == f ==>
      SentIn(ResumeFrom(s, n), NewSteps(t)) <= From(w + AllWritten(t), n)
  }

  function Olds(f: seq<Entry>): seq<TwoStep> {
    if f == [] then [] else Olds(f[..|f| - 1]) + [Old(Write(f[|f| - 1]))]
  }

  function News(t: seq<Step>): seq<TwoStep> {
    if t == [] then [] else News(t[..|t| - 1]) + [New(t[|t| - 1])]
  }

  lemma {:induction false} OldsAre(f: seq<Entry>)
    ensures NewSteps(Olds(f)) == [] && AllWritten(Olds(f)) == f == OldWritten(Olds(f))
    decreases |f|
  {
    if f != [] {
      OldsAre(f[..|f| - 1]);
      InitLast(f);
      var o, x := Olds(f[..|f| - 1]), Old(Write(f[|f| - 1]));
      assert Olds(f)[..|o|] == o;
    }
  }

  lemma {:induction false} NewsAre(t: seq<Step>)
    ensures NewSteps(News(t)) == t && AllWritten(News(t)) == Written(t) && OldWritten(News(t)) == []
    decreases |t|
  {
    if t != [] {
      NewsAre(t[..|t| - 1]);
      InitLast(t);
      var o, x := News(t[..|t| - 1]), New(t[|t| - 1]);
      assert News(t)[..|o|] == o;
    }
  }

  lemma OldsThenNews(f: seq<Entry>, t: seq<Step>)
    ensures var r := Olds(f) + News(t);
            NewSteps(r) == t && AllWritten(r) == f + Written(t) && OldWritten(r) == f
  {
    hide Collect, Olds, News, Written;
    OldsAre(f);
    NewsAre(t);
    CollectAppend(NewOf, Olds(f), News(t));
    CollectAppend(WrittenOf, Olds(f), News(t));
    CollectAppend(OldWrittenOf, Olds(f), News(t));
    AppendCut(f, [], 0);
    AppendEnds([], t);
  }

  // ---------------------------------------------------------------- the exact condition

  ghost predicate InFlight(w: seq<Entry>, f: seq<Entry>, c: nat) {
    Ascending(w + f) && forall e :: e in f ==> e.pos.epoch.counter == c
  }

  /** Without such a write above the resume point, nothing is missed. */
  lemma GapFreeTwo(s: Sub, w: seq<Entry>, f: seq<Entry>, n: nat, c: nat, t: seq<TwoStep>)
    requires Holds(s, w, n, c) && NothingInFlight(s, w, n) && From(f, n) == []
    requires ContinuesTwo(ResumeFrom(s, n), w, t, c) && OldWritten(t) == f
    ensures SentIn(ResumeFrom(s, n), NewSteps(t)) <= From(w + AllWritten(t), n)
  {
    hide Holds, NothingInFlight, From, SentIn, Written, Collect, Continues;
    GapFreeFrom(s, w, n, NewSteps(t), c);
    WithoutOld(t, n);
    FromAppend(w, AllWritten(t), n);
    FromAppend(w, Written(NewSteps(t)), n);
  }

  /** A write in flight under the old name, above the resume point, is never sent: once a later
      entry is, there is a gap. */
  lemma LateWriteGap(s: Sub, w: seq<Entry>, f: seq<Entry>, n: nat, c: nat)
    requires Sane(s, w, c) && n >= 1 && s.sent == None && s.resume == n
    requires InFlight(w, f, c) && From(f, n) != []
    ensures exists t :: ContinuesTwo(s, w, t, c) && OldWritten(t) == f
              && !(SentIn(s, NewSteps(t)) <= From(w + AllWritten(t), n))
  {
    hide From, SentIn, Collect, Continues;
    var d := NewEntry(Beyond(w + f, []), c);
    var t0 := GapRun(0, d);
    var t := Olds(f) + News(t0);
    OldsThenNews(f, t0);
    BeyondAll(w + f, []);
    NextAscending(w + f, d);
    AppendAssoc(w, f, [d]);
    ShorterAscending(w, f, [d]);
    GapRunContinues(s, w, 0, d, c);
    LateWriteUnsent(s, w, f, d, n, c);
  }

  lemma ShorterAscending(w: seq<Entry>, f: seq<Entry>, v: seq<Entry>)
    requires Ascending(w + f + v)
    ensures Ascending(w + v) && Ascending(f) && Ascending(v)
  {
    var all, short := w + f + v, w + v;
    assert forall i :: 0 <= i < |short| ==> short[i] == all[if i < |w| then i else i + |f|];
    assert forall i :: 0 <= i < |f| ==> f[i] == all[|w| + i];
    assert forall i :: 0 <= i < |v| ==> v[i] == all[|w| + |f| + i];
  }

  lemma LateWriteUnsent(s: Sub, w: seq<Entry>, f: seq<Entry>, d: Entry, n: nat, c: nat)
    requires Sane(s, w, c) && n >= 1 && s.sent == None && s.resume == n && d.pos.epoch.counter == c
    requires From(f, n) != [] && Ascending(w + f + [d])
    ensures !(SentIn(s, GapRun(0, d)) <= From(w + (f + [d]), n))
  {
    hide From, SentIn, After, Ticked, GapRun, Due;
    var s1 := Apply(s, Write(d));
    ShorterAscending(w, f, [d]);
    FromMembers(f, n);
    var x := From(f, n)[0];
    assert x in From(f, n);
    LateOrder(w, f, d, x);
    AppendAssoc(w, f, [d]);
    var ws := From(w + f + [d], n);
    FromMembers(w + f + [d], n);
    FromSnoc(w + f, d, n);
    OneWriteRun(s, d);
    SaneWrite(s, w, d, c);
    FullScan(s1, w + [d], c);
    DueAbove(d, n);
    var out := Ticked(s1, ALWAYS).0;
    assert d in out && x in ws && d == ws[|ws| - 1];
    assert x !in out;
    if out <= ws {
      WholePrefix(out, ws, d);
    }
  }

  lemma WholePrefix(out: seq<Entry>, ws: seq<Entry>, d: Entry)
    requires Ascending(ws) && out <= ws && d in out && ws != [] && d == ws[|ws| - 1]
    ensures out == ws
  {
    var k :| 0 <= k < |out| && out[k] == d;
    assert ws[k] == d;
  }

  lemma LateOrder(w: seq<Entry>, f: seq<Entry>, d: Entry, x: Entry)
    requires Ascending(w + f + [d]) && x in f
    ensures x in w + f + [d] && x !in w + [d] && x.pos.index < d.pos.index
  {
    var all := w + f + [d];
    var k :| 0 <= k < |f| && f[k] == x;
    assert all[|w| + k] == x && all[|w| + |f|] == d;
    forall y | y in w ensures y.pos.index < x.pos.index {
      var j :| 0 <= j < |w| && w[j] == y;
      assert all[j] == y;
    }
  }

  lemma OneWriteRun(s: Sub, d: Entry)
    ensures SentIn(s, GapRun(0, d)) == Ticked(Apply(s, Write(d)), ALWAYS).0
  {
    hide Ticked;
    RunSnoc(s, Repeat(0), Write(d));
    RunSnoc(s, Repeat(0) + [Write(d)], Tick(ALWAYS));
  }

  /** A late write below the resume point changes nothing for the purges. */
  lemma InFlightSame(s: Sub, w: seq<Entry>, f: seq<Entry>, n: nat, c: nat)
    requires InFlight(w, f, c) && From(f, n) == [] && Holds(s, w, n, c)
    ensures Holds(s, w + f, n, c) && (NothingInFlight(s, w + f, n) <==> NothingInFlight(s, w, n))
  {
    hide From, Harmless, Ascending, InEpoch;
    FromAppend(w, f, n);
    AppendCut(From(w, n), [], 0);
    LateBelow(w, f, n);
    forall k | 0 <= k < |s.proposed|
      ensures Harmless(s.proposed[k].index, From(w, n), w + f, n) == Harmless(s.proposed[k].index, From(w, n), w, n)
    {
      HarmlessSame(s.proposed[k].index, w, f, n);
    }
  }

  lemma LateBelow(w: seq<Entry>, f: seq<Entry>, n: nat)
    requires Ascending(w + f) && From(f, n) == []
    ensures forall e :: e in f ==> e.pos.index < n
  {
    hide From;
    AppendCut(w + f, [], 0);
    ShorterAscending(w, f, []);
    FromMembers(f, n);
  }

  lemma HarmlessSame(p: nat, w: seq<Entry>, f: seq<Entry>, n: nat)
    requires Ascending(w + f) && forall e :: e in f ==> e.pos.index < n
    ensures Harmless(p, From(w, n), w + f, n) == Harmless(p, From(w, n), w, n)
  {
    hide From;
    if f == [] {
      AppendCut(w, [], 0);
    } else {
      assert f[|f| - 1] in f && (w + f)[|w + f| - 1] == f[|f| - 1];
      assert w != [] ==> (w + f)[|w| - 1] == w[|w| - 1];
    }
  }

  /** A resume under a new name is gap-free in every continuation exactly when no purge in flight
      under the new name covers an entry still to be sent, and no write in flight under the old
      name lies at or above the resume point. Purges in flight under the old name do no harm. */
  lemma RebindExactly(s: Sub, w: seq<Entry>, f: seq<Entry>, n: nat, c: nat)
    requires Holds(s, w, n, c) && InFlight(w, f, c)
    ensures AlwaysGapFreeTwo(s, w, f, n, c) <==> NothingInFlight(s, w, n) && From(f, n) == []
  {
    hide From, SentIn, Collect, NothingInFlight, Continues, Written;
    var s' := ResumeFrom(s, n);
    if From(f, n) != [] {
      LateWriteGap(s', w, f, n, c);
    } else if NothingInFlight(s, w, n) {
      forall t | ContinuesTwo(s', w, t, c) && OldWritten(t) == f
        ensures SentIn(s', NewSteps(t)) <= From(w + AllWritten(t), n)
      {
        GapFreeTwo(s, w, f, n, c, t);
      }
    } else {
      InFlightSame(s, w, f, n, c);
      GapFreeExactly(s, w + f, n, c);
      var t0 :| Continues(s', w + f, t0, c) && !(SentIn(s', t0) <= From(w + f + Written(t0), n));
      OldsThenNews(f, t0);
      AppendAssoc(w, f, Written(t0));
      FewerBefore(s', w, f, t0, c);
      assert ContinuesTwo(s', w, Olds(f) + News(t0), c);
    }
  }

  lemma FewerBefore(s: Sub, w: seq<Entry>, f: seq<Entry>, t: seq<Step>, c: nat)
    requires Continues(s, w + f, t, c)
    ensures Continues(s, w, t, c) && Ascending(w + f + Written(t))
  {
    hide AllAcksSent, Regular, Written;
    ShorterAscending(w, f, Written(t));
  }

  /** The whole reconnect: the old name's manager answers OK with `n`, the subscription is rebound and
      resumed under the new name. From there every run is gap-free over everything written under
      either name, exactly when nothing is in flight that matters. */
  lemma ReconnectRebindExactly(st: State, sub: Str, a: Sub, wa: seq<Entry>, b: Sub, wb: seq<Entry>, w: seq<Entry>,
                               name: Str, last: EmitSeq, f: seq<Entry>)
    requires Agrees(st, sub, a) && Ascending(wa) && Retained(a, wa, last.epoch.counter)
    requires last.epoch.counter == st.epoch.counter && Reconnect(st, sub, last).status == OK
    requires Holds(b, wb, Reconnect(st, sub, last).next, last.epoch.counter)
    requires Merged(w, RenamedAll(wa, name), wb) && InFlight(w, f, last.epoch.counter)
    ensures var n := Reconnect(st, sub, last).next;
            var s := Rebound(a, b, name);
            AlwaysGapFreeTwo(s, w, f, n, last.epoch.counter) <==> NothingInFlight(s, w, n) && From(f, n) == []
  {
    hide Retained, Reconnect, NothingInFlight, AlwaysGapFreeTwo, Holds, Merged, InFlight, From;
    AnswerHolds(st, sub, a, wa, last);
    var n := Reconnect(st, sub, last).next;
    ReboundHolds(a, wa, b, wb, w, name, n, last.epoch.counter);
    RebindExactly(Rebound(a, b, name), w, f, n, last.epoch.counter);
  }
}
