/** Between two resets of its watermark a subscription is sent each entry at most once, in commit
    order, and nothing below the resume index. */
module SendOrder {
  import opened Bytes
  import opened Emission
  import opened Delivery

  ghost predicate InEpoch(m: map<nat, Entry>, c: nat) {
    forall i :: i in m ==> m[i].pos.epoch.counter == c && m[i].pos.index == i
  }

  lemma {:induction false} DueAscend(es: seq<Entry>, sent: Option<EmitSeq>, resume: nat, deliver: EmitSeq -> bool)
    requires Ascending(es)
    ensures var ds := DueEntries(es, sent, resume);
            && Ascending(ds) && Ascending(Delivered(ds, deliver))
            && (forall e :: e in ds <==> e in es && Due(e, sent, resume))
            && Delivered(ds, deliver) <= ds
  {
    if es != [] {
      DueAscend(es[1..], sent, resume, deliver);
      assert forall e :: e in es <==> e == es[0] || e in es[1..];
      assert forall e :: e in es[1..] ==> es[0].pos.index < e.pos.index;
    }
    DeliveredPrefix(DueEntries(es, sent, resume), deliver);
  }

  lemma {:induction false} DeliveredPrefix(es: seq<Entry>, deliver: EmitSeq -> bool)
    ensures Delivered(es, deliver) <= es
    ensures (forall p :: deliver(p)) ==> Delivered(es, deliver) == es
  {
    if es != [] {
      DeliveredPrefix(es[1..], deliver);
    }
  }

  /** One scan of a subscription whose entries are of one epoch. */
  lemma TickSends(s: Sub, deliver: EmitSeq -> bool, c: nat)
    requires InEpoch(s.pending, c)
    ensures var (out, s') := Ticked(s, deliver);
            && Ascending(out) && OneEpoch(out, c)
            && (forall e :: e in out ==> Due(e, s.sent, s.resume))
            && (if out == [] then s' == s else s'.sent == Some(out[|out| - 1].pos) && s'.resume == 0)
            && s' == s.(sent := s'.sent, resume := s'.resume)
  {
    var es := Listing(s.pending);
    if exists fs :: Lists(fs, s.pending) {
      ScanSends(es, s.sent, s.resume, deliver, c);
      DueAscend(es, s.sent, s.resume, deliver);
      var out := Ticked(s, deliver).0;
      forall k | 0 <= k < |out| ensures out[k].pos.epoch.counter == c {
        assert out[k] in DueEntries(es, s.sent, s.resume);
      }
    }
  }

  ghost predicate WritesIn(t: seq<Step>, c: nat) {
    forall k :: 0 <= k < |t| && t[k].Write? ==> t[k].entry.pos.epoch.counter == c
  }

  lemma {:induction false} StaysInEpoch(s: Sub, t: seq<Step>, c: nat)
    requires InEpoch(s.pending, c) && WritesIn(t, c)
    ensures InEpoch(After(s, t).pending, c)
  {
    if t != [] {
      StaysInEpoch(s, t[..|t| - 1], c);
    }
  }

  /** What is sent so far is below the watermark, which never moves back. */
  ghost predicate Ordered(s: Sub, s': Sub, out: seq<Entry>, c: nat) {
    && Ascending(out) && OneEpoch(out, c)
    && (forall e :: e in out ==> Due(e, s.sent, s.resume) && !Newer(e.pos, SentMark(s'.sent)))
    && !Newer(SentMark(s.sent), SentMark(s'.sent))
    && s'.resume == (if out == [] then s.resume else 0)
  }

  /** Every run of writes, purges, acks and scans sends strictly increasing commit indices, all
      above the watermark and at or above the resume index it started with. */
  lemma {:induction false} SentOnceInOrder(s: Sub, t: seq<Step>, c: nat)
    requires InEpoch(s.pending, c) && WritesIn(t, c) && NoReset(t)
    ensures Ordered(s, After(s, t), SentIn(s, t), c)
  {
    hide Ordered, Ticked;
    if t == [] {
      OrderedAtStart(s, c);
    } else {
      var t', last := t[..|t| - 1], t[|t| - 1];
      SentOnceInOrder(s, t', c);
      StaysInEpoch(s, t', c);
      if last.Tick? {
        OrderedTick(s, After(s, t'), SentIn(s, t'), last.deliver, c);
      } else {
        OrderedOther(s, After(s, t'), SentIn(s, t'), last, c);
      }
    }
  }

  lemma OrderedAtStart(s: Sub, c: nat)
    ensures Ordered(s, s, [], c)
  {
  }

  lemma OrderedOther(s: Sub, s1: Sub, out: seq<Entry>, step: Step, c: nat)
    requires Ordered(s, s1, out, c) && !step.Tick? && !step.Resume? && !step.Clear?
    ensures Ordered(s, Apply(s1, step), out + SentBy(s1, step), c)
  {
    hide Ascending, OneEpoch;
    assert out + SentBy(s1, step) == out;
  }

  lemma OrderedTick(s: Sub, s1: Sub, out: seq<Entry>, deliver: EmitSeq -> bool, c: nat)
    requires Ordered(s, s1, out, c) && InEpoch(s1.pending, c)
    ensures Ordered(s, Ticked(s1, deliver).1, out + Ticked(s1, deliver).0, c)
  {
    hide Ticked, InEpoch;
    TickSends(s1, deliver, c);
    var (more, s2) := Ticked(s1, deliver);
    if more == [] {
      assert out + more == out;
    } else {
      OrderedMore(s, s1, out, more, s2, c);
    }
  }

  lemma OrderedMore(s: Sub, s1: Sub, out: seq<Entry>, more: seq<Entry>, s2: Sub, c: nat)
    requires Ordered(s, s1, out, c) && more != [] && Ascending(more) && OneEpoch(more, c)
    requires forall e :: e in more ==> Due(e, s1.sent, s1.resume)
    requires s2.sent == Some(more[|more| - 1].pos) && s2.resume == 0
    ensures Ordered(s, s2, out + more, c)
  {
    forall e | e in more ensures Due(e, s.sent, s.resume) && !Newer(e.pos, SentMark(s2.sent)) {
      MoreIsLater(s, s1, out, e);
      var k :| 0 <= k < |more| && more[k] == e;
    }
    forall i, j | 0 <= i < |out| && 0 <= j < |more| ensures out[i].pos.index < more[j].pos.index {
      assert out[i] in out && more[j] in more;
    }
    forall e | e in out ensures !Newer(e.pos, SentMark(s2.sent)) {
      assert more[|more| - 1] in more;
    }
  }

  /** What is due now was due from the start. */
  lemma MoreIsLater(s: Sub, s1: Sub, out: seq<Entry>, e: Entry)
    requires !Newer(SentMark(s.sent), SentMark(s1.sent)) && Due(e, s1.sent, s1.resume)
    requires forall d :: d in out ==> Due(d, s.sent, s.resume) && !Newer(d.pos, SentMark(s1.sent))
    requires s1.resume == (if out == [] then s.resume else 0)
    requires out != [] ==> out[0].pos.epoch.counter == e.pos.epoch.counter
    ensures Due(e, s.sent, s.resume)
  {
    if out != [] { assert out[0] in out; }
  }

  /** An accepted ack keeps everything it covers from being sent, also when the sent watermark had been
      reset before it, until the next reset. */
  lemma AckedNotSent(s: Sub, pos: EmitSeq, proposed: bool, t: seq<Step>, c: nat)
    requires Accepts(s, pos) && InEpoch(s.pending, c) && WritesIn(t, c) && NoReset(t)
    ensures forall e :: e in SentIn(Acked(s, pos, proposed), t) ==> Newer(e.pos, pos)
  {
    hide SentIn, After;
    SentOnceInOrder(Acked(s, pos, proposed), t, c);
  }

  /** A refused ack changes nothing; an accepted one is remembered and its purge proposed if it can be. */
  lemma AckKept(s: Sub, pos: EmitSeq, proposed: bool)
    ensures var r := Acked(s, pos, proposed);
            && (!Accepts(s, pos) ==> r == s)
            && (Accepts(s, pos) ==>
              r.lastAck == Some(pos) && r.proposed == if proposed then s.proposed + [pos] else s.proposed)
            && r.pending == s.pending && r.compacted == s.compacted && r.resume == s.resume
            && !Newer(SentMark(s.sent), SentMark(r.sent))
  {
  }
}
