/** The notifier: scans the outbox, sends, and turns acknowledgements into proposed purges. Each
    operation acts on every subscription as the delivery steps prescribe, and only there. */
module Notifiers {
  import opened Bytes
  import opened Sequences
  import opened Emission
  import opened Delivery
  import opened OutboxManager
  import opened Decimal

  /** What was sent to, or proposed for, one subscription. */
  function EventsOf(events: seq<Entry>, sub: Str): seq<Entry> {
    if events == [] then []
    else
      var e := events[|events| - 1];
      EventsOf(events[..|events| - 1], sub) + (if e.sub == sub then [e] else [])
  }

  function ProposedFor(q: seq<(Str, EmitSeq)>, sub: Str): seq<EmitSeq> {
    if q == [] then [] else (if q[0].0 == sub then [q[0].1] else []) + ProposedFor(q[1..], sub)
  }

  lemma {:induction false} ProposedSnoc(q: seq<(Str, EmitSeq)>, p: (Str, EmitSeq), sub: Str)
    ensures ProposedFor(q + [p], sub) == ProposedFor(q, sub) + (if p.0 == sub then [p.1] else [])
  {
    AppendEnds(q, [p]);
    if q != [] {
      ProposedSnoc(q[1..], p, sub);
    } else {
      assert [p][1..] == [];
    }
  }

  lemma {:induction false} OfAppend(a: seq<Entry>, b: seq<Entry>, sub: Str)
    ensures EventsOf(a + b, sub) == EventsOf(a, sub) + EventsOf(b, sub)
  {
    AppendEnds(a, b);
    if b != [] {
      OfAppend(a, b[..|b| - 1], sub);
    } else {
      assert a + b == a;
    }
  }

  lemma {:induction false} OfOneSub(es: seq<Entry>, s: Str, sub: Str)
    requires forall k :: 0 <= k < |es| ==> es[k].sub == s
    ensures EventsOf(es, sub) == if s == sub then es else []
  {
    if es != [] {
      OfOneSub(es[..|es| - 1], s, sub);
      InitLast(es);
    }
  }

  lemma ListedIs(es: seq<Entry>, m: map<nat, Entry>)
    requires Lists(es, m)
    ensures Listing(m) == es
  {
    ListingUnique(es, Listing(m), m);
  }

  function PendingOf(o: Outbox, sub: Str): map<nat, Entry> {
    if sub in o then o[sub] else map[]
  }

  /** A purge seen from each subscription. */
  lemma PurgeAt(o: Outbox, sub: Str, upTo: nat)
    ensures WellFormed(o) ==> WellFormed(Purge(o, sub, upTo))
    ensures forall s :: PendingOf(Purge(o, sub, upTo), s) == if s == sub then Above(PendingOf(o, s), upTo)
              else PendingOf(o, s)
  {
  }

  /** A rebind seen from each subscription. */
  lemma RebindAt(st: State, from: Str, to: Str)
    ensures WellFormed(st.outbox) ==> WellFormed(Rebind(st, from, to).outbox)
    ensures forall s :: PendingOf(Rebind(st, from, to).outbox, s) ==
                          if from == to then PendingOf(st.outbox, s)
                          else if s == to then PendingOf(st.outbox, to) + Renamed(PendingOf(st.outbox, from), to)
                          else if s == from then map[] else PendingOf(st.outbox, s)
    ensures forall s :: MarkOf(Rebind(st, from, to).lastAck, s) == MovedMark(st.lastAck, s, from, to)
    ensures forall s :: MarkOf(Rebind(st, from, to).compacted, s) == MovedMark(st.compacted, s, from, to)
  {
    if from != to {
      MoveMarkAt(st.lastAck, from, to);
      MoveMarkAt(st.compacted, from, to);
      MoveEntriesAt(st.outbox, from, to);
    }
  }

  function MovedMark(m: map<Str, EmitSeq>, s: Str, from: Str, to: Str): Option<EmitSeq> {
    if from == to then MarkOf(m, s)
    else if s == to then Later(MarkOf(m, from), MarkOf(m, to))
    else if s == from then None else MarkOf(m, s)
  }

  lemma MoveMarkAt(m: map<Str, EmitSeq>, from: Str, to: Str)
    requires from != to
    ensures forall s :: MarkOf(MoveMark(m, from, to), s) == MovedMark(m, s, from, to)
  {
  }

  lemma MoveEntriesAt(o: Outbox, from: Str, to: Str)
    requires from != to
    ensures forall s :: PendingOf(MoveEntries(o, from, to), s) ==
                          if s == to then PendingOf(o, to) + Renamed(PendingOf(o, from), to)
                          else if s == from then map[] else PendingOf(o, s)
  {
    assert forall m: map<nat, Entry> :: m + map[] == m;
  }

  lemma MovedMarks(from: Str, to: Str)
    ensures forall s, m: map<Str, EmitSeq> :: MovedMark(m, s, from, to) ==
              if from == to then MarkOf(m, s)
              else if s == to then Later(MarkOf(m, from), MarkOf(m, to))
              else if s == from then None else MarkOf(m, s)
  {
  }

  /** What an answer does to a subscription that was moved to `x`. */
  function ResumedAs(s: Str, sub: Str, to: Option<Str>, ack: ReconnectAck, x: Sub): Sub {
    if ack.status != OK || to.None? then x
    else if s == to.value then ResumeFrom(if s == sub then ResumeFrom(x, 0) else x, ack.next)
    else if s == sub then ResumeFrom(x, 0)
    else x
  }

  /** The client in a subscription name, which is what precedes its first colon. */
  function ClientIn(sub: Str): Str {
    if COLON !in sub then [] else if sub[0] == COLON then [] else [sub[0]] + ClientIn(sub[1..])
  }

  /** The fingerprint in a subscription name; 0 when there is no colon or no number behind it. */
  function FingerprintIn(sub: Str): nat {
    var text := AfterColon(sub);
    if COLON !in sub || text == [] || !AllDigits(text) || Value(text) >= WORD then 0 else Value(text)
  }

  lemma {:induction false} SplitName(client: Str, text: Str)
    requires COLON !in client
    ensures ClientIn(SubName(client, text)) == client && AfterColon(SubName(client, text)) == text
    ensures COLON in SubName(client, text)
    decreases |client|
  {
    var sub := SubName(client, text);
    assert sub[|client|] == COLON;
    if client == [] {
      assert sub == [COLON] + text && sub[1..] == text;
    } else {
      assert sub[0] == client[0] && client[0] in client;
      assert sub[1..] == SubName(client[1..], text);
      SplitName(client[1..], text);
      HeadTail(client);
    }
  }

  /** Client and fingerprint are read back from the name they were put into. */
  lemma NameParts(client: Str, fp: nat)
    requires COLON !in client && 0 < fp < WORD
    ensures ClientIn(SubName(client, FormatNat(fp))) == client
    ensures FingerprintIn(SubName(client, FormatNat(fp))) == fp
  {
    hide ClientIn, AfterColon, SubName, FormatNat, Value, AllDigits;
    SplitName(client, FormatNat(fp));
    ValueOfFormatNat(fp);
    FormatIsDigits(fp);
  }

  lemma FormatIsDigits(n: nat)
    ensures FormatNat(n) != [] && AllDigits(FormatNat(n))
  {
  }

  /** What follows the last colon. */
  function AfterLast(s: Str): Str {
    if s == [] || s[|s| - 1] == COLON then [] else AfterLast(s[..|s| - 1]) + [s[|s| - 1]]
  }

  lemma {:induction false} LastPart(front: Str, text: Str)
    requires COLON !in text
    ensures AfterLast(SubName(front, text)) == text
    decreases |text|
  {
    var sub := SubName(front, text);
    if text != [] {
      LastPart(front, text[..|text| - 1]);
      assert sub[..|sub| - 1] == SubName(front, text[..|text| - 1]);
      InitLast(text);
    }
  }

  /** A fingerprint selects exactly the names that carry it, whoever the client, but none without one. */
  lemma FingerprintSelects(client: Str, fp: nat, other: nat)
    ensures HasProperSuffix(SubName(client, FormatNat(fp)), [COLON] + FormatNat(other)) <==>
            client != [] && fp == other
  {
    hide FormatNat, Value, AfterLast;
    var sub, tail := SubName(client, FormatNat(fp)), [COLON] + FormatNat(other);
    FormatIsDigits(fp);
    FormatIsDigits(other);
    ValueOfFormatNat(fp);
    ValueOfFormatNat(other);
    if HasProperSuffix(sub, tail) {
      var front := sub[..|sub| - |tail|];
      assert sub == SubName(front, FormatNat(other));
      LastPart(client, FormatNat(fp));
      LastPart(front, FormatNat(other));
    }
    if fp == other {
      assert sub[|client|..] == tail;
    }
  }

  /** A client selects exactly its own names. */
  lemma ClientSelects(client: Str, text: Str, other: Str)
    requires COLON !in client && COLON !in other
    ensures HasPrefix(SubName(client, text), other + [COLON]) <==> client == other
  {
    hide ClientIn, AfterColon;
    var sub := SubName(client, text);
    if HasPrefix(sub, other + [COLON]) {
      var rest := sub[|other| + 1..];
      assert sub == SubName(other, rest);
      SplitName(client, text);
      SplitName(other, rest);
    }
    if client == other {
      assert sub[..|client| + 1] == client + [COLON];
    }
  }

  lemma NamesDiffer(a: Str, b: Str, text: Str)
    requires a != b
    ensures SubName(a, text) != SubName(b, text)
  {
    if |a| == |b| {
      assert SubName(a, text)[..|a|] == a && SubName(b, text)[..|a|] == b;
    }
  }

  /** A name without a colon, or with no number behind it, has no fingerprint. */
  lemma NoFingerprint(client: Str, text: Str)
    requires COLON !in client
    ensures FingerprintIn(client) == 0
    ensures text == [] || !AllDigits(text) || Value(text) >= WORD ==> FingerprintIn(SubName(client, text)) == 0
  {
    hide ClientIn, AfterColon, SubName, Value, AllDigits;
    SplitName(client, text);
  }

  /** Where a reconnected client is resumed: under the fingerprint it gave, or else under the one its
      connection watches, 0 for none. */
  function ResumeName(client: Str, given: nat, watched: nat): Option<Str> {
    var fp := if given != 0 then given else watched;
    if fp == 0 then None else Some(SubName(client, FormatNat(fp)))
  }

  class Notifier {
    const mgr: Manager
    var resumeFrom: map<Str, nat>
    var sentThrough: map<Str, EmitSeq>
    /** Purges proposed to raft, in log order, not yet applied. */
    var proposed: seq<(Str, EmitSeq)>

    constructor (mgr: Manager)
      requires WellFormed(mgr.bySub)
      ensures Valid() && this.mgr == mgr && resumeFrom == map[] && sentThrough == map[] && proposed == []
    {
      this.mgr := mgr;
      resumeFrom := map[];
      sentThrough := map[];
      proposed := [];
    }

    ghost predicate Valid()
      reads this, mgr
    {
      WellFormed(mgr.bySub) && forall sub :: sub in resumeFrom ==> resumeFrom[sub] > 0
    }

    function ResumeOf(sub: Str): nat
      reads this
    {
      if sub in resumeFrom then resumeFrom[sub] else 0
    }

    ghost function Of(sub: Str): Sub
      reads this, mgr
    {
      Sub(PendingOf(mgr.bySub, sub),
          MarkOf(mgr.lastAck, sub),
          MarkOf(mgr.compactThrough, sub),
          MarkOf(sentThrough, sub),
          ResumeOf(sub),
          ProposedFor(proposed, sub))
    }

    /** A committed write. */
    method CommitWrite(e: Entry)
      requires Valid()
      modifies mgr
      ensures Valid()
      ensures forall sub :: Of(sub) == if sub == e.sub then Apply(old(Of(sub)), Delivery.Write(e)) else old(Of(sub))
    {
      var newSub := mgr.ApplyOutboxWrite(e);
    }

    /** The next proposed purge commits. */
    method CommitPurge()
      requires Valid() && proposed != []
      modifies this, mgr
      ensures Valid()
      ensures var s := old(proposed[0].0);
              forall sub :: Of(sub) == if sub == s then Apply(old(Of(sub)), PurgeNext) else old(Of(sub))
    {
      hide Purge, WellFormed;
      var (sub, upTo) := proposed[0];
      PurgeAt(mgr.bySub, sub, upTo.index);
      mgr.ApplyOutboxPurge(sub, upTo);
      proposed := proposed[1..];
    }

    /** One client acknowledgement. A purge that cannot be proposed is dropped. */
    method HandleAck(sub: Str, pos: EmitSeq, proposable: bool) returns (ok: bool)
      requires Valid()
      modifies this, mgr
      ensures Valid() && (ok <==> Accepts(old(Of(sub)), pos))
      ensures forall s :: Of(s) == if s == sub then Acked(old(Of(s)), pos, proposable) else old(Of(s))
    {
      ok := mgr.ValidateAck(sub, pos);
      if !ok {
        return;
      }
      if sub !in sentThrough || Newer(pos, sentThrough[sub]) {
        sentThrough := sentThrough[sub := pos];
      }
      if proposable {
        forall s ensures ProposedFor(proposed + [(sub, pos)], s) == ProposedFor(proposed, s)
          + (if sub == s then [pos] else []) {
          ProposedSnoc(proposed, (sub, pos), s);
        }
        proposed := proposed + [(sub, pos)];
      }
    }

    method SetResumeFrom(sub: Str, next: nat)
      requires Valid()
      modifies this
      ensures Valid()
      ensures forall s :: Of(s) == if s == sub then ResumeFrom(old(Of(s)), next) else old(Of(s))
    {
      if next == 0 {
        resumeFrom := resumeFrom - {sub};
        return;
      }
      resumeFrom := resumeFrom[sub := next];
      sentThrough := sentThrough - {sub};
    }

    method ClearWatermarksForClient(clientID: Str)
      requires Valid()
      modifies this
      ensures Valid()
      ensures forall s :: Of(s) == if HasPrefix(s, clientID + [COLON]) then old(Of(s)).(sent := None) else old(Of(s))
    {
      var left := sentThrough.Keys;
      while left != {}
        invariant left <= old(sentThrough).Keys && resumeFrom == old(resumeFrom) && proposed == old(proposed)
        invariant forall s :: MarkOf(sentThrough, s) ==
                              if s in old(sentThrough) && s !in left && HasPrefix(s, clientID + [COLON]) then None
                              else MarkOf(old(sentThrough), s)
        decreases left
      {
        var sub :| sub in left;
        if HasPrefix(sub, clientID + [COLON]) {
          sentThrough := sentThrough - {sub};
        }
        left := left - {sub};
      }
    }

    /** Rebinds the subscription of a fingerprint, or of an old client, to a new client. */
    method RebindClient(fp: nat, oldClient: Str, newClient: Str) returns (from: Option<Str>, to: Str)
      requires Valid()
      modifies mgr
      ensures Valid()
      ensures fp != 0 ==> to == SubName(newClient, FormatNat(fp))
      ensures fp != 0 && oldClient != [] && old(mgr.Known(SubName(oldClient, FormatNat(fp)))) ==>
                from == Some(SubName(oldClient, FormatNat(fp)))
      ensures fp == 0 && from.Some? ==>
                oldClient != [] && HasPrefix(from.value, oldClient + [COLON])
                  && to == SubName(newClient, AfterColon(from.value))
      ensures from.None? ==> forall s :: Of(s) == old(Of(s))
      ensures from.Some? ==> forall s :: Of(s) == old(Moved(s, from.value, to))
    {
      hide Rebind, WellFormed, ProposedFor, PendingOf, MarkOf, MovedMark;
      ghost var st := mgr.View();
      var moved;
      from, to, moved := mgr.RebindByFingerprint(fp, oldClient, newClient);
      if from.Some? {
        RebindAt(st, from.value, to);
        MovedMarks(from.value, to);
      }
    }

    /** Subscription `s` after `from` was rebound to `to`. */
    ghost function Moved(s: Str, from: Str, to: Str): Sub
      reads this, mgr
    {
      if from == to then Of(s)
      else if s == to then Rebound(Of(from), Of(to), to)
      else if s == from then LeftBehind(Of(s))
      else Of(s)
    }

    /** EMITRECONNECT of subscription `sub` by a client now connected as `newClient`, whose connection
        watches `watched`: the manager answers for the old name, the subscription is rebound to the
        new one whatever the answer, and an OK answer resumes it there. */
    method ReconnectClient(sub: Str, newClient: Str, watched: nat, last: EmitSeq)
      returns (ack: ReconnectAck, from: Option<Str>, to: Str)
      requires Valid()
      modifies this, mgr
      ensures Valid() && ack == Reconnect(old(mgr.View()), sub, last)
      ensures var fp, oldClient := FingerprintIn(sub), ClientIn(sub);
              && (fp != 0 ==> to == SubName(newClient, FormatNat(fp)))
              && (fp != 0 && oldClient != [] && old(mgr.Known(SubName(oldClient, FormatNat(fp)))) ==>
                    from == Some(SubName(oldClient, FormatNat(fp))))
              && (fp == 0 && from.Some? ==>
                    oldClient != [] && HasPrefix(from.value, oldClient + [COLON])
                      && to == SubName(newClient, AfterColon(from.value)))
      ensures var name := ResumeName(newClient, FingerprintIn(sub), watched);
              forall s :: Of(s) == ResumedAs(s, sub, name, ack,
                                             if from.None? then old(Of(s)) else old(Moved(s, from.value, to)))
    {
      hide Reconnect, WellFormed, ProposedFor, PendingOf, MarkOf, Of, Moved, ResumeFrom, SubName, FingerprintIn,
           ClientIn;
      var fp := FingerprintIn(sub);
      ack := mgr.ReconnectRequest(sub, last);
      from, to := RebindClient(fp, ClientIn(sub), newClient);
      var name := ResumeName(newClient, fp, watched);
      if ack.status == OK && name.Some? {
        SetResumeFrom(sub, 0);
        SetResumeFrom(name.value, ack.next);
      }
    }

    /** EMITRECONNECT of a subscription the manager knows: its entries and watermarks move to the name of
        the new client, whatever the answer, and an OK answer resumes there behind the last index. */
    method ReconnectKnown(client: Str, fp: nat, newClient: Str, watched: nat, last: EmitSeq) returns (ack: ReconnectAck)
      requires Valid() && COLON !in client && client != [] && 0 < fp < WORD && client != newClient
      requires var was := SubName(client, FormatNat(fp));
               was in mgr.bySub || was in mgr.lastAck || was in mgr.compactThrough
      modifies this, mgr
      ensures Valid() && ack == Reconnect(old(mgr.View()), SubName(client, FormatNat(fp)), last)
      ensures var was, now := SubName(client, FormatNat(fp)), SubName(newClient, FormatNat(fp));
              && was != now
              && Of(now).pending == old(Of(now).pending) + Renamed(old(Of(was).pending), now)
              && Of(now).lastAck == Later(old(Of(was).lastAck), old(Of(now).lastAck))
              && Of(now).compacted == Later(old(Of(was).compacted), old(Of(now).compacted))
              && Of(was).pending == map[] && Of(was).lastAck == Of(was).compacted == None
              && (ack.status == OK && ack.next > 0 ==>
                    Of(now).resume == ack.next && Of(now).sent == None && Of(was).resume == 0)
              && (ack.status != OK ==> Of(now).resume == old(Of(now).resume) && Of(now).sent == old(Of(now).sent))
              && forall s :: s != was && s != now ==> Of(s) == old(Of(s))
    {
      hide Reconnect, WellFormed, ProposedFor, PendingOf, MarkOf, Of, FingerprintIn, ClientIn, FormatNat;
      NameParts(client, fp);
      NamesDiffer(client, newClient, FormatNat(fp));
      var from, to;
      ack, from, to := ReconnectClient(SubName(client, FormatNat(fp)), newClient, watched, last);
    }

    /** The inner loop of a scan: one subscription's entries, until a send fails. */
    method ScanEntries(sub: Str, entries: seq<Entry>, deliver: EmitSeq -> bool) returns (out: seq<Entry>)
      requires Valid()
      modifies `sentThrough, `resumeFrom
      ensures Valid()
      ensures (out, MarkOf(sentThrough, sub), ResumeOf(sub))
                == Scan(entries, old(MarkOf(sentThrough, sub)), old(ResumeOf(sub)), deliver)
      ensures forall s :: s != sub ==>
                MarkOf(sentThrough, s) == old(MarkOf(sentThrough, s)) && ResumeOf(s) == old(ResumeOf(s))
    {
      out := [];
      var k := 0;
      ghost var goal := Scan(entries, MarkOf(sentThrough, sub), ResumeOf(sub), deliver);
      assert entries[0..] == entries;
      while k < |entries|
        invariant 0 <= k <= |entries| && Valid()
        invariant var r := Scan(entries[k..], MarkOf(sentThrough, sub), ResumeOf(sub), deliver);
                  goal.0 == out + r.0 && goal.1 == r.1 && goal.2 == r.2
        invariant forall s :: s != sub ==>
                    MarkOf(sentThrough, s) == old(MarkOf(sentThrough, s)) && ResumeOf(s) == old(ResumeOf(s))
      {
        var e := entries[k];
        var lastSent := SentMark(MarkOf(sentThrough, sub));
        var resumeIdx := ResumeOf(sub);
        assert entries[k..][1..] == entries[k + 1..];
        if e.pos.epoch.counter < lastSent.epoch.counter
           || (e.pos.epoch.counter == lastSent.epoch.counter && e.pos.index <= lastSent.index) {
          k := k + 1;
          continue;
        }
        if resumeIdx > 0 && e.pos.index < resumeIdx {
          k := k + 1;
          continue;
        }
        if !deliver(e.pos) {
          assert out + [] == out;
          return;
        }
        AppendAssoc(out, [e], Scan(entries[k + 1..], Some(e.pos), 0, deliver).0);
        out := out + [e];
        sentThrough := sentThrough[sub := e.pos];
        if resumeIdx > 0 && e.pos.index >= resumeIdx {
          resumeFrom := resumeFrom - {sub};
        }
        k := k + 1;
      }
      assert out + [] == out;
    }

    /** The scan of one subscription. */
    method TickSub(sub: Str, deliver: EmitSeq -> bool) returns (out: seq<Entry>)
      requires Valid() && sub in mgr.bySub
      modifies `sentThrough, `resumeFrom
      ensures Valid()
      ensures out == Ticked(old(Of(sub)), deliver).0 && forall k :: 0 <= k < |out| ==> out[k].sub == sub
      ensures forall s :: Of(s) == if s == sub then Ticked(old(Of(s)), deliver).1 else old(Of(s))
    {
      hide Scan, Listing, ProposedFor;
      var entries := mgr.PendingSorted(sub);
      ListedIs(entries, mgr.bySub[sub]);
      ScanNames(entries, MarkOf(sentThrough, sub), ResumeOf(sub), deliver, sub);
      out := ScanEntries(sub, entries, deliver);
    }

    /** One scan over all subscriptions with pending entries, in any order. `deliver` says which
        sends succeed; with no sender set, none do. */
    method ProcessTick(deliver: Str -> (EmitSeq -> bool)) returns (events: seq<Entry>)
      requires Valid()
      modifies `sentThrough, `resumeFrom
      ensures Valid()
      ensures forall sub :: EventsOf(events, sub) == Ticked(old(Of(sub)), deliver(sub)).0
      ensures forall sub :: Of(sub) == Ticked(old(Of(sub)), deliver(sub)).1
    {
      hide Ticked, WellFormed, EventsOf, Of;
      events := [];
      NoEvents();
      forall sub | sub !in mgr.bySub ensures Ticked(Of(sub), deliver(sub)) == ([], Of(sub)) {
        Idle(sub, deliver(sub));
      }
      var left := mgr.bySub.Keys;
      while left != {}
        invariant Valid() && left <= mgr.bySub.Keys
        invariant forall sub :: sub in mgr.bySub && sub !in left ==>
                    (EventsOf(events, sub), Of(sub)) == Ticked(old(Of(sub)), deliver(sub))
        invariant forall sub :: sub !in mgr.bySub || sub in left ==>
                    EventsOf(events, sub) == [] && Of(sub) == old(Of(sub))
        decreases left
      {
        var sub :| sub in left;
        var out := TickSub(sub, deliver(sub));
        EventsAdded(events, out, sub);
        AppendEnds([], out);
        events := events + out;
        left := left - {sub};
      }
    }

    /** A subscription with nothing pending is not scanned. */
    lemma Idle(sub: Str, deliver: EmitSeq -> bool)
      requires sub !in mgr.bySub
      ensures Ticked(Of(sub), deliver) == ([], Of(sub))
    {
      NotPending(mgr.bySub, sub);
      NothingPending(Of(sub), deliver);
    }
  }

  lemma NotPending(o: Outbox, sub: Str)
    requires sub !in o
    ensures PendingOf(o, sub) == map[]
  {
  }

  lemma EventsAdded(events: seq<Entry>, out: seq<Entry>, sub: Str)
    requires forall k :: 0 <= k < |out| ==> out[k].sub == sub
    ensures forall s :: EventsOf(events + out, s) == if s == sub then EventsOf(events, s) + out else EventsOf(events, s)
  {
    hide EventsOf;
    forall s ensures EventsOf(events + out, s) == if s == sub then EventsOf(events, s) + out else EventsOf(events, s) {
      OfAppend(events, out, s);
      OfOneSub(out, sub, s);
      AppendCut(EventsOf(events, s), [], 0);
    }
  }

  lemma NoEvents()
    ensures forall sub :: EventsOf([], sub) == []
  {
  }

  lemma NothingPending(s: Sub, deliver: EmitSeq -> bool)
    requires s.pending == map[]
    ensures Ticked(s, deliver) == ([], s)
  {
    ListedIs([], map[]);
  }

  lemma {:induction false} ScanNames(es: seq<Entry>, sent: Option<EmitSeq>, resume: nat, deliver: EmitSeq -> bool,
      sub: Str)
    requires forall k :: 0 <= k < |es| ==> es[k].sub == sub
    ensures forall k :: 0 <= k < |Scan(es, sent, resume, deliver).0| ==> Scan(es, sent, resume, deliver).0[k].sub == sub
  {
    if es != [] {
      if !Due(es[0], sent, resume) {
        ScanNames(es[1..], sent, resume, deliver, sub);
      } else {
        ScanNames(es[1..], Some(es[0].pos), 0, deliver, sub);
      }
    }
  }
}
