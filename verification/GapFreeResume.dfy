/** Resuming after a reconnect: from the resume point on, a subscription is sent a gap-free prefix
    of everything ever written at or above it. */
module GapFreeResume {
  import opened Bytes
  import opened Sequences
  import opened Emission
  import opened Delivery
  import opened SendOrder
  import opened Retention

  /** The entries at or above an index. */
  function From(w: seq<Entry>, n: nat): seq<Entry> {
    if w == [] then []
    else From(w[..|w| - 1], n) + (if w[|w| - 1].pos.index >= n then [w[|w| - 1]] else [])
  }

  lemma {:induction false} FromMembers(w: seq<Entry>, n: nat)
    requires Ascending(w)
    ensures Ascending(From(w, n))
    ensures forall e :: e in From(w, n) <==> e in w && e.pos.index >= n
  {
    if w != [] {
      FromMembers(w[..|w| - 1], n);
      InitLast(w);
      assert forall e :: e in w[..|w| - 1] ==> e.pos.index < w[|w| - 1].pos.index;
    }
  }

  lemma FromSnoc(w: seq<Entry>, e: Entry, n: nat)
    ensures From(w + [e], n) == From(w, n) + (if e.pos.index >= n then [e] else [])
  {
    assert (w + [e])[..|w|] == w;
  }

  lemma {:induction false} FromAppend(a: seq<Entry>, b: seq<Entry>, n: nat)
    ensures From(a + b, n) == From(a, n) + From(b, n)
    decreases |b|
  {
    if b == [] {
      AppendCut(a, [], 0);
      AppendCut(From(a, n), [], 0);
    } else {
      hide From;
      var front, e := b[..|b| - 1], b[|b| - 1];
      FromAppend(a, front, n);
      InitLast(b);
      AppendAssoc(a, front, [e]);
      FromSnoc(a + front, e, n);
      FromSnoc(front, e, n);
      AppendAssoc(From(a, n), From(front, n), if e.pos.index >= n then [e] else []);
    }
  }

  // ---------------------------------------------------------------- after the resume

  /** Only written entries of the epoch are pending. */
  ghost predicate Sane(s: Sub, w: seq<Entry>, c: nat) {
    && Ascending(w) && InEpoch(s.pending, c) && (forall e :: e in w ==> e.pos.epoch.counter == c)
    && forall i :: i in s.pending ==> s.pending[i] in w
  }

  ghost predicate Pending(s: Sub, e: Entry) {
    e.pos.index in s.pending && s.pending[e.pos.index] == e
  }

  /** Everything written at or above `n` is pending. */
  ghost predicate Holds(s: Sub, w: seq<Entry>, n: nat, c: nat) {
    n >= 1 && Sane(s, w, c) && forall e :: e in w && e.pos.index >= n ==> Pending(s, e)
  }

  /** A purge up to `p` removes no entry that is still to be sent, now or written later. */
  ghost predicate Harmless(p: nat, rest: seq<Entry>, w: seq<Entry>, n: nat) {
    && (forall e :: e in rest ==> p < e.pos.index)
    && (p < n || (w != [] && p <= w[|w| - 1].pos.index))
  }

  /** No purge in flight removes an entry written at or above `n`, now or later. */
  ghost predicate NothingInFlight(s: Sub, w: seq<Entry>, n: nat) {
    forall k :: 0 <= k < |s.proposed| ==> Harmless(s.proposed[k].index, From(w, n), w, n)
  }

  /** `out` is what was sent since resuming at `n`. */
  ghost predicate Resumed(s: Sub, w: seq<Entry>, out: seq<Entry>, n: nat, c: nat) {
    && n >= 1 && Sane(s, w, c) && out <= From(w, n)
    && (if out == [] then s.sent == None && s.resume == n
        else s.sent == Some(out[|out| - 1].pos) && s.resume == 0)
    && (forall e :: e in From(w, n)[|out|..] ==> Pending(s, e))
    && forall k :: 0 <= k < |s.proposed| ==> Harmless(s.proposed[k].index, From(w, n)[|out|..], w, n)
  }

  lemma ResumedStart(s: Sub, w: seq<Entry>, n: nat, c: nat)
    requires Holds(s, w, n, c) && NothingInFlight(s, w, n)
    ensures Resumed(ResumeFrom(s, n), w, [], n, c)
  {
    hide Ascending, InEpoch, From, Harmless;
    FromMembers(w, n);
    assert From(w, n)[0..] == From(w, n);
  }

  /** The entries of `w` that are pending, in order. */
  function Present(w: seq<Entry>, m: map<nat, Entry>): seq<Entry> {
    if w == [] then []
    else
      var e := w[|w| - 1];
      Present(w[..|w| - 1], m) + (if e.pos.index in m && m[e.pos.index] == e then [e] else [])
  }

  lemma {:induction false} PresentMembers(w: seq<Entry>, m: map<nat, Entry>)
    requires Ascending(w)
    ensures Ascending(Present(w, m))
    ensures forall e :: e in Present(w, m) <==> e in w && e.pos.index in m && m[e.pos.index] == e
  {
    if w != [] {
      PresentMembers(w[..|w| - 1], m);
      InitLast(w);
      assert forall e :: e in w[..|w| - 1] ==> e.pos.index < w[|w| - 1].pos.index;
    }
  }

  lemma PresentLists(w: seq<Entry>, m: map<nat, Entry>)
    requires Ascending(w) && forall i :: i in m ==> m[i] in w && m[i].pos.index == i
    ensures Lists(Present(w, m), m)
  {
    hide Present;
    PresentMembers(w, m);
    assert forall k :: 0 <= k < |Present(w, m)| ==> Present(w, m)[k] in Present(w, m);
  }

  /** The pending entries the next scan would not pass over. */
  function DueMap(s: Sub): map<nat, Entry> {
    map i | i in s.pending && Due(s.pending[i], s.sent, s.resume) :: s.pending[i]
  }

  /** The last entry sent is an entry of the epoch, at or above the resume point. */
  lemma LastSent(s: Sub, w: seq<Entry>, out: seq<Entry>, n: nat, c: nat)
    requires Resumed(s, w, out, n, c) && out != []
    ensures var ws, last := From(w, n), out[|out| - 1];
            && |out| <= |ws| && ws[|out| - 1] == last && last in w
            && last.pos.epoch.counter == c && last.pos.index >= n
  {
    hide From;
    FromMembers(w, n);
    assert From(w, n)[|out| - 1] in From(w, n);
  }

  /** What is still to be sent lies behind what was sent. */
  lemma RestBehind(s: Sub, w: seq<Entry>, out: seq<Entry>, n: nat, c: nat)
    requires Resumed(s, w, out, n, c)
    ensures var rest := From(w, n)[|out|..];
            forall e :: e in rest ==>
              && e in w && e.pos.epoch.counter == c && e.pos.index >= n
              && (out != [] ==> out[|out| - 1].pos.index < e.pos.index)
  {
    hide From, Harmless;
    FromMembers(w, n);
    if out != [] { LastSent(s, w, out, n, c); }
    var ws := From(w, n);
    forall e | e in ws[|out|..] ensures e in ws && (out != [] ==> out[|out| - 1].pos.index < e.pos.index) {
      var k :| 0 <= k < |ws[|out|..]| && ws[|out|..][k] == e;
      assert ws[|out| + k] == e;
    }
  }

  /** Every entry that is not yet sent is due. */
  lemma RestIsDue(s: Sub, w: seq<Entry>, out: seq<Entry>, n: nat, c: nat, e: Entry)
    requires Resumed(s, w, out, n, c) && e in From(w, n)[|out|..]
    ensures e.pos.index in DueMap(s) && DueMap(s)[e.pos.index] == e
  {
    hide From, Harmless, Due;
    RestBehind(s, w, out, n, c);
    DueBehind(s, w, out, n, c, e);
  }

  /** Every due entry is one not yet sent. */
  lemma DueNotSent(s: Sub, w: seq<Entry>, out: seq<Entry>, n: nat, c: nat, i: nat)
    requires Resumed(s, w, out, n, c) && i in DueMap(s)
    ensures DueMap(s)[i].pos.index == i && DueMap(s)[i] in From(w, n)[|out|..]
  {
    hide From, Harmless, Due;
    FromMembers(w, n);
    if out != [] { LastSent(s, w, out, n, c); }
    var e, ws := s.pending[i], From(w, n);
    DueBehind(s, w, out, n, c, e);
    assert e in ws;
    var k :| 0 <= k < |ws| && ws[k] == e;
    assert ws[|out|..][k - |out|] == e;
  }

  /** What a scan would send next is exactly the rest of the written entries. */
  lemma RestListed(s: Sub, w: seq<Entry>, out: seq<Entry>, n: nat, c: nat)
    requires Resumed(s, w, out, n, c)
    ensures Lists(From(w, n)[|out|..], DueMap(s))
  {
    hide From, Harmless, Due, DueMap;
    FromMembers(w, n);
    var rest := From(w, n)[|out|..];
    forall k | 0 <= k < |rest| ensures rest[k].pos.index in DueMap(s) && DueMap(s)[rest[k].pos.index] == rest[k] {
      assert rest[k] in rest;
      RestIsDue(s, w, out, n, c, rest[k]);
    }
    forall i | i in DueMap(s) ensures DueMap(s)[i].pos.index == i && DueMap(s)[i] in rest {
      DueNotSent(s, w, out, n, c, i);
    }
  }

  /** Due is what lies behind what was sent. */
  lemma DueBehind(s: Sub, w: seq<Entry>, out: seq<Entry>, n: nat, c: nat, e: Entry)
    requires Resumed(s, w, out, n, c) && e.pos.epoch.counter == c
    ensures Due(e, s.sent, s.resume) <==> if out == [] then e.pos.index >= n else out[|out| - 1].pos.index < e.pos.index
  {
    hide From, Harmless;
    if out != [] { LastSent(s, w, out, n, c); }
  }

  lemma DueListed(es: seq<Entry>, s: Sub)
    requires Lists(es, s.pending)
    ensures Lists(DueEntries(es, s.sent, s.resume), DueMap(s))
  {
    hide DueEntries, Due;
    DueAscend(es, s.sent, s.resume, _ => true);
    var ds := DueEntries(es, s.sent, s.resume);
    forall k | 0 <= k < |ds| ensures ds[k].pos.index in DueMap(s) && DueMap(s)[ds[k].pos.index] == ds[k] {
      assert ds[k] in ds;
      var j :| 0 <= j < |es| && es[j] == ds[k];
    }
  }

  lemma DueIsRest(s: Sub, w: seq<Entry>, out: seq<Entry>, n: nat, c: nat)
    requires Resumed(s, w, out, n, c)
    ensures Ascending(Listing(s.pending)) && OneEpoch(Listing(s.pending), c)
    ensures DueEntries(Listing(s.pending), s.sent, s.resume) == From(w, n)[|out|..]
  {
    hide From, DueMap, DueEntries, Present, Harmless;
    PresentMembers(w, s.pending);
    PresentLists(w, s.pending);
    DueListed(Listing(s.pending), s);
    RestListed(s, w, out, n, c);
    ListingUnique(DueEntries(Listing(s.pending), s.sent, s.resume), From(w, n)[|out|..], DueMap(s));
  }

  /** The client acknowledges only what it was sent since the resume. */
  ghost predicate AcksSent(step: Step, out: seq<Entry>) {
    step.Ack? ==> exists e :: e in out && e.pos == step.pos
  }

  ghost predicate AlwaysDelivers(deliver: EmitSeq -> bool) {
    forall p :: deliver(p)
  }

  lemma ResumedPrefix(s: Sub, w: seq<Entry>, out: seq<Entry>, n: nat, c: nat)
    requires Resumed(s, w, out, n, c)
    ensures out <= From(w, n) && Ascending(w)
  {
  }

  /** A scan sends the first of the remaining entries, up to a failed send. */
  lemma TickSendsRest(s: Sub, w: seq<Entry>, out: seq<Entry>, deliver: EmitSeq -> bool, n: nat, c: nat)
    requires Resumed(s, w, out, n, c)
    ensures out <= From(w, n)
    ensures var rest, more := From(w, n)[|out|..], Ticked(s, deliver).0;
            && more <= rest && (AlwaysDelivers(deliver) ==> more == rest)
            && Ticked(s, deliver).1 == if more == [] then s else s.(sent := Some(more[|more| - 1].pos), resume := 0)
  {
    hide From, DueEntries, Scan, Delivered, Listing, Resumed, Lists, Ascending, OneEpoch;
    ResumedPrefix(s, w, out, n, c);
    DueIsRest(s, w, out, n, c);
    ScanSends(Listing(s.pending), s.sent, s.resume, deliver, c);
    DeliveredPrefix(From(w, n)[|out|..], deliver);
  }

  lemma ResumedTick(s: Sub, w: seq<Entry>, out: seq<Entry>, deliver: EmitSeq -> bool, n: nat, c: nat)
    requires Resumed(s, w, out, n, c)
    ensures Resumed(Ticked(s, deliver).1, w, out + Ticked(s, deliver).0, n, c)
    ensures AlwaysDelivers(deliver) ==> out + Ticked(s, deliver).0 == From(w, n)
  {
    hide From, Resumed, Ascending, Ticked, AlwaysDelivers, Delivered;
    TickSendsRest(s, w, out, deliver, n, c);
    var more := Ticked(s, deliver).0;
    PrefixExtend(From(w, n), out, more);
    if more == [] {
      assert out + more == out;
    } else {
      ResumedMore(s, w, out, more, n, c);
    }
  }

  lemma ResumedMore(s: Sub, w: seq<Entry>, out: seq<Entry>, more: seq<Entry>, n: nat, c: nat)
    requires Resumed(s, w, out, n, c) && more != [] && out + more <= From(w, n)
    ensures Resumed(s.(sent := Some(more[|more| - 1].pos), resume := 0), w, out + more, n, c)
  {
    hide From, Ascending, InEpoch;
    var ws := From(w, n);
    assert (out + more)[|out + more| - 1] == more[|more| - 1];
    assert forall e :: e in ws[|out + more|..] ==> e in ws[|out|..] by {
      SliceDrop(ws, |out|, |ws|, |more|);
      assert ws[|out|..|ws|] == ws[|out|..] && ws[|out + more|..|ws|] == ws[|out + more|..];
    }
  }

  lemma ResumedAck(s: Sub, w: seq<Entry>, out: seq<Entry>, pos: EmitSeq, proposed: bool, n: nat, c: nat)
    requires Resumed(s, w, out, n, c) && AcksSent(Ack(pos, proposed), out)
    ensures Resumed(Acked(s, pos, proposed), w, out, n, c)
  {
    hide From;
    var e :| e in out && e.pos == pos;
    SentBefore(s, w, out, e, n, c);
    LastSent(s, w, out, n, c);
    RestBehind(s, w, out, n, c);
  }

  lemma SentBefore(s: Sub, w: seq<Entry>, out: seq<Entry>, e: Entry, n: nat, c: nat)
    requires Resumed(s, w, out, n, c) && e in out
    ensures e.pos.epoch.counter == c && n <= e.pos.index <= out[|out| - 1].pos.index
    ensures w != [] && e.pos.index <= w[|w| - 1].pos.index
  {
    hide From, Harmless;
    FromMembers(w, n);
    var ws := From(w, n);
    var k :| 0 <= k < |out| && out[k] == e;
    assert ws[k] == e && ws[|out| - 1] == out[|out| - 1];
    assert e in ws;
    var j :| 0 <= j < |w| && w[j] == e;
  }

  lemma ResumedWrite(s: Sub, w: seq<Entry>, out: seq<Entry>, e: Entry, n: nat, c: nat)
    requires Resumed(s, w, out, n, c) && e.pos.epoch.counter == c && Ascending(w + [e])
    ensures Resumed(Apply(s, Write(e)), w + [e], out, n, c)
  {
    hide From;
    var w' := w + [e];
    FromSnoc(w, e, n);
    assert forall x :: x in w ==> x.pos.index < e.pos.index by {
      forall x | x in w ensures x.pos.index < e.pos.index {
        var k :| 0 <= k < |w| && w[k] == x;
        assert w'[k] == x && w'[|w|] == e;
      }
    }
    assert w != [] ==> w[|w| - 1] in w;
    RestBehind(s, w, out, n, c);
    var more := if e.pos.index >= n then [e] else [];
    assert From(w', n)[|out|..] == From(w, n)[|out|..] + more;
    SaneWrite(s, w, e, c);
  }

  lemma SaneWrite(s: Sub, w: seq<Entry>, e: Entry, c: nat)
    requires Sane(s, w, c) && e.pos.epoch.counter == c && Ascending(w + [e])
    ensures Sane(Apply(s, Write(e)), w + [e], c)
  {
  }

  lemma ResumedPurge(s: Sub, w: seq<Entry>, out: seq<Entry>, n: nat, c: nat)
    requires Resumed(s, w, out, n, c)
    ensures Resumed(Apply(s, PurgeNext), w, out, n, c)
  {
    hide From;
  }

  lemma ResumedStep(s: Sub, w: seq<Entry>, out: seq<Entry>, step: Step, n: nat, c: nat)
    requires Resumed(s, w, out, n, c) && AcksSent(step, out) && !step.Resume? && !step.Clear?
    requires step.Write? ==> step.entry.pos.epoch.counter == c && Ascending(w + [step.entry])
    ensures Resumed(Apply(s, step), if step.Write? then w + [step.entry] else w, out + SentBy(s, step), n, c)
  {
    hide Ticked, Resumed;
    assert !step.Tick? ==> out + SentBy(s, step) == out;
    match step
    case Write(e) => ResumedWrite(s, w, out, e, n, c);
    case Ack(pos, proposed) => ResumedAck(s, w, out, pos, proposed, n, c);
    case PurgeNext => ResumedPurge(s, w, out, n, c);
    case Tick(deliver) => ResumedTick(s, w, out, deliver, n, c);
  }

  ghost predicate AllAcksSent(s: Sub, t: seq<Step>) {
    forall k :: 0 <= k < |t| ==> AcksSent(t[k], SentIn(s, t[..k]))
  }

  /** A run until the next reset of the watermarks, that continues what was written before and
      acknowledges only what it sends. */
  ghost predicate Continues(s: Sub, w: seq<Entry>, t: seq<Step>, c: nat) {
    Regular(t, c) && NoReset(t) && Ascending(w + Written(t)) && AllAcksSent(s, t)
  }

  lemma {:induction false} ResumedAlways(s: Sub, w: seq<Entry>, t: seq<Step>, n: nat, c: nat)
    requires Resumed(s, w, [], n, c) && Continues(s, w, t, c)
    ensures Resumed(After(s, t), w + Written(t), SentIn(s, t), n, c)
  {
    hide Resumed, Apply, AllAcksSent;
    if t == [] {
      assert w + Written(t) == w;
    } else {
      var t', last := t[..|t| - 1], t[|t| - 1];
      ContinuesShorter(s, w, t, c);
      ResumedAlways(s, w, t', n, c);
      assert AcksSent(last, SentIn(s, t')) by { LastAckSent(s, t); }
      WrittenShorter(w, t);
      AppendCut(w + Written(t'), [], 0);
      ResumedStep(After(s, t'), w + Written(t'), SentIn(s, t'), last, n, c);
    }
  }

  lemma LastAckSent(s: Sub, t: seq<Step>)
    requires t != [] && AllAcksSent(s, t)
    ensures AcksSent(t[|t| - 1], SentIn(s, t[..|t| - 1]))
  {
  }

  lemma AcksSentShorter(s: Sub, t: seq<Step>)
    requires t != [] && AllAcksSent(s, t)
    ensures AllAcksSent(s, t[..|t| - 1])
  {
    hide SentIn, AcksSent;
    var t' := t[..|t| - 1];
    forall k | 0 <= k < |t'| ensures AcksSent(t'[k], SentIn(s, t'[..k])) {
      assert t'[..k] == t[..k] && AcksSent(t[k], SentIn(s, t[..k]));
    }
  }

  lemma ContinuesShorter(s: Sub, w: seq<Entry>, t: seq<Step>, c: nat)
    requires t != [] && Continues(s, w, t, c)
    ensures Continues(s, w, t[..|t| - 1], c)
  {
    hide SentIn, AllAcksSent;
    WrittenShorter(w, t);
    AcksSentShorter(s, t);
  }

  /** A final scan whose sends all succeed has sent everything. */
  lemma CaughtUp(s: Sub, w: seq<Entry>, t: seq<Step>, n: nat, c: nat)
    requires Resumed(s, w, [], n, c) && Continues(s, w, t, c)
    requires t != [] && t[|t| - 1].Tick? && AlwaysDelivers(t[|t| - 1].deliver)
    ensures SentIn(s, t) == From(w + Written(t), n)
  {
    hide Resumed, From, Ticked, AlwaysDelivers, AllAcksSent, After, SentIn, Apply, Regular, Written, Ascending;
    var t' := t[..|t| - 1];
    InitLast(t);
    RunSnoc(s, t', t[|t| - 1]);
    WrittenShorter(w, t);
    ContinuesShorter(s, w, t, c);
    ResumedAlways(s, w, t', n, c);
    ResumedTick(After(s, t'), w + Written(t'), SentIn(s, t'), t[|t| - 1].deliver, n, c);
    AppendCut(w + Written(t'), [], 0);
  }

  lemma RunSnoc(s: Sub, t: seq<Step>, step: Step)
    ensures After(s, t + [step]) == Apply(After(s, t), step)
    ensures SentIn(s, t + [step]) == SentIn(s, t) + SentBy(After(s, t), step)
  {
    hide Apply, SentBy;
    assert (t + [step])[..|t + [step]| - 1] == t;
  }

  // ---------------------------------------------------------------- the theorem

  /** Every continuation sends, in commit order, a prefix of all entries written at or above `n`,
      and all of them once a scan's sends all succeed. */
  ghost predicate GapFreeAfter(s: Sub, w: seq<Entry>, n: nat, t: seq<Step>) {
    var all := From(w + Written(t), n);
    && Ascending(all) && SentIn(s, t) <= all
    && (t != [] && t[|t| - 1].Tick? && AlwaysDelivers(t[|t| - 1].deliver) ==> SentIn(s, t) == all)
  }

  lemma GapFreeFrom(s: Sub, w: seq<Entry>, n: nat, t: seq<Step>, c: nat)
    requires Holds(s, w, n, c) && NothingInFlight(s, w, n) && Continues(ResumeFrom(s, n), w, t, c)
    ensures GapFreeAfter(ResumeFrom(s, n), w, n, t)
  {
    hide After, SentIn, From, AllAcksSent, AlwaysDelivers, Holds, NothingInFlight;
    var s' := ResumeFrom(s, n);
    ResumedStart(s, w, n, c);
    ResumedAlways(s', w, t, n, c);
    FromMembers(w + Written(t), n);
    if t != [] && t[|t| - 1].Tick? && AlwaysDelivers(t[|t| - 1].deliver) {
      CaughtUp(s', w, t, n, c);
    }
  }

  /** What the reconnect promises: a state that has lost nothing above its compaction watermark
      holds everything from the index of an OK answer on. */
  lemma AnswerHolds(st: State, sub: Str, s: Sub, w: seq<Entry>, last: EmitSeq)
    requires Agrees(st, sub, s) && Ascending(w) && Retained(s, w, last.epoch.counter)
    requires last.epoch.counter == st.epoch.counter && Reconnect(st, sub, last).status == OK
    ensures Holds(s, w, Reconnect(st, sub, last).next, last.epoch.counter)
  {
    ReconnectAnswer(st, sub, s, last);
  }

  /** Gap-free resume. If the manager answers a reconnect of the current epoch OK with index n, and
      SetResumeFrom(n) follows, every run sends a gap-free prefix of what was written from n on. The
      subscription may have been through any run of writes, purges, acks, scans, resumes and
      clears before. */
  lemma GapFree(st: State, sub: Str, s: Sub, w: seq<Entry>, last: EmitSeq, t: seq<Step>)
    requires Agrees(st, sub, s) && Ascending(w) && Retained(s, w, last.epoch.counter)
    requires last.epoch.counter == st.epoch.counter && Reconnect(st, sub, last).status == OK
    requires var n := Reconnect(st, sub, last).next;
             NothingInFlight(s, w, n) && Continues(ResumeFrom(s, n), w, t, last.epoch.counter)
    ensures var n := Reconnect(st, sub, last).next; GapFreeAfter(ResumeFrom(s, n), w, n, t)
  {
    hide Retained, Reconnect, NothingInFlight, Continues, GapFreeAfter, Holds;
    AnswerHolds(st, sub, s, w, last);
    GapFreeFrom(s, w, Reconnect(st, sub, last).next, t, last.epoch.counter);
  }
}
