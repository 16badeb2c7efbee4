/** Delivery to one subscription: the part of the outbox, of the manager's watermarks and of the
    notifier's watermarks that belongs to it, and what each protocol step does to that part. */
module Delivery {
  import opened Bytes
  import opened Emission

  datatype Sub = Sub(
    pending: map<nat, Entry>,
    lastAck: Option<EmitSeq>,
    compacted: Option<EmitSeq>,
    sent: Option<EmitSeq>,   // sentThrough
    resume: nat,             // resumeFrom, zero when unset
    proposed: seq<EmitSeq>)  // purges proposed to raft and not yet applied

  // ---------------------------------------------------------------- entries in commit order

  predicate Ascending(es: seq<Entry>) {
    forall i, j :: 0 <= i < j < |es| ==> es[i].pos.index < es[j].pos.index
  }

  /** `es` lists `m` by increasing commit index. */
  ghost predicate Lists(es: seq<Entry>, m: map<nat, Entry>) {
    && Ascending(es)
    && (forall k :: 0 <= k < |es| ==> es[k].pos.index in m && m[es[k].pos.index] == es[k])
    && (forall i :: i in m ==> m[i].pos.index == i && m[i] in es)
  }

  /** The pending entries in the order they are scanned. */
  ghost function Listing(m: map<nat, Entry>): (es: seq<Entry>)
    ensures (exists fs :: Lists(fs, m)) ==> Lists(es, m)
  {
    if exists fs :: Lists(fs, m) then var fs :| Lists(fs, m); fs else []
  }

  /** There is one such listing. */
  lemma {:induction false} ListingUnique(es: seq<Entry>, fs: seq<Entry>, m: map<nat, Entry>)
    requires Lists(es, m) && Lists(fs, m)
    ensures es == fs
  {
    if |es| == 0 {
      assert m.Keys == {};
    } else {
      assert m[es[0].pos.index] in fs;
      assert m[fs[0].pos.index] in es;
      assert es[0] == fs[0];
      var m' := map i | i in m && i != es[0].pos.index :: m[i];
      ListsTail(es, m, m');
      ListsTail(fs, m, m');
      ListingUnique(es[1..], fs[1..], m');
    }
  }

  lemma ListsTail(es: seq<Entry>, m: map<nat, Entry>, m': map<nat, Entry>)
    requires Lists(es, m) && es != []
    requires m' == map i | i in m && i != es[0].pos.index :: m[i]
    ensures Lists(es[1..], m')
  {
    forall i | i in m' ensures m'[i] in es[1..] {
      assert m[i] in es;
      var k :| 0 <= k < |es| && es[k] == m[i];
      assert k > 0 ==> es[1..][k - 1] == m[i];
      assert es[0].pos.index in m;
    }
  }

  // ---------------------------------------------------------------- one scan of the notifier

  /** The watermark that stands for "nothing sent". */
  const UNSENT: EmitSeq := EmitSeq(EpochID([], 0), 0)

  function SentMark(sent: Option<EmitSeq>): EmitSeq {
    if sent.Some? then sent.value else UNSENT
  }

  /** An entry the scan does not pass over. */
  predicate Due(e: Entry, sent: Option<EmitSeq>, resume: nat) {
    Newer(e.pos, SentMark(sent)) && (resume > 0 ==> e.pos.index >= resume)
  }

  /** The scan-and-send loop over the listed entries: what is sent, and the watermarks after it.
      `deliver` says which sends succeed; the loop stops at the first that does not. */
  function Scan(es: seq<Entry>, sent: Option<EmitSeq>, resume: nat, deliver: EmitSeq -> bool)
    : (r: (seq<Entry>, Option<EmitSeq>, nat))
  {
    if es == [] then ([], sent, resume)
    else if !Due(es[0], sent, resume) then Scan(es[1..], sent, resume, deliver)
    else if !deliver(es[0].pos) then ([], sent, resume)
    else
      var r := Scan(es[1..], Some(es[0].pos), 0, deliver);
      ([es[0]] + r.0, r.1, r.2)
  }

  function DueEntries(es: seq<Entry>, sent: Option<EmitSeq>, resume: nat): seq<Entry> {
    if es == [] then []
    else (if Due(es[0], sent, resume) then [es[0]] else []) + DueEntries(es[1..], sent, resume)
  }

  /** The longest prefix whose sends all succeed. */
  function Delivered(es: seq<Entry>, deliver: EmitSeq -> bool): seq<Entry> {
    if es == [] || !deliver(es[0].pos) then [] else [es[0]] + Delivered(es[1..], deliver)
  }

  ghost predicate OneEpoch(es: seq<Entry>, c: nat) {
    forall k :: 0 <= k < |es| ==> es[k].pos.epoch.counter == c
  }

  /** Once entries are ascending in one epoch, everything behind a sent entry is due. */
  lemma {:induction false} AllDue(es: seq<Entry>, sent: Option<EmitSeq>, resume: nat)
    requires forall k :: 0 <= k < |es| ==> Due(es[k], sent, resume)
    ensures DueEntries(es, sent, resume) == es
  {
    if es != [] {
      AllDue(es[1..], sent, resume);
    }
  }

  /** A scan sends exactly the entries above the sent watermark and at or above the resume index,
      in commit order, up to the first failed send; then the watermark is the last entry sent and
      the resume index is cleared. */
  lemma {:induction false} ScanSends(es: seq<Entry>, sent: Option<EmitSeq>, resume: nat, deliver: EmitSeq -> bool,
      c: nat)
    requires Ascending(es) && OneEpoch(es, c)
    ensures var r := Scan(es, sent, resume, deliver);
            && r.0 == Delivered(DueEntries(es, sent, resume), deliver)
            && (if r.0 == [] then r.1 == sent && r.2 == resume
                else r.1 == Some(r.0[|r.0| - 1].pos) && r.2 == 0)
  {
    if es != [] {
      if !Due(es[0], sent, resume) {
        assert DueEntries(es, sent, resume) == DueEntries(es[1..], sent, resume);
        ScanSends(es[1..], sent, resume, deliver, c);
      } else if deliver(es[0].pos) {
        ScanSends(es[1..], Some(es[0].pos), 0, deliver, c);
        assert forall k :: 0 <= k < |es| ==> es[k].pos.epoch.counter == c;
        AllDue(es[1..], Some(es[0].pos), 0);
        AllDue(es[1..], sent, resume);
      }
    }
  }

  // ---------------------------------------------------------------- the steps

  datatype Step =
    | Write(entry: Entry)
    | Ack(pos: EmitSeq, proposed: bool)  // whether the purge of an accepted ack is proposed or lost
    | PurgeNext
    | Tick(deliver: EmitSeq -> bool)
    | Resume(next: nat)
    | Clear

  predicate Accepts(s: Sub, pos: EmitSeq) {
    s.lastAck.Some? ==> Newer(pos, s.lastAck.value)
  }

  function Purged(s: Sub, pos: EmitSeq): Sub {
    s.(pending := Above(s.pending, pos.index), compacted := Some(pos))
  }

  /** An acknowledgement: an accepted one raises the sent watermark and proposes a purge. */
  function Acked(s: Sub, pos: EmitSeq, proposed: bool): Sub {
    if !Accepts(s, pos) then s
    else s.(lastAck := Some(pos),
            sent := if s.sent.None? || Newer(pos, s.sent.value) then Some(pos) else s.sent,
            proposed := s.proposed + (if proposed then [pos] else []))
  }

  ghost function Ticked(s: Sub, deliver: EmitSeq -> bool): (seq<Entry>, Sub) {
    var r := Scan(Listing(s.pending), s.sent, s.resume, deliver);
    (r.0, s.(sent := r.1, resume := r.2))
  }

  /** `SetResumeFrom`. */
  function ResumeFrom(s: Sub, next: nat): Sub {
    if next == 0 then s.(resume := 0) else s.(resume := next, sent := None)
  }

  ghost function Apply(s: Sub, step: Step): Sub {
    match step
    case Write(e) => s.(pending := s.pending[e.pos.index := e])
    case Ack(pos, proposed) => Acked(s, pos, proposed)
    case PurgeNext => if s.proposed == [] then s else Purged(s, s.proposed[0]).(proposed := s.proposed[1..])
    case Tick(deliver) => Ticked(s, deliver).1
    case Resume(next) => ResumeFrom(s, next)
    case Clear => s.(sent := None)
  }

  /** A run between two resets of the watermarks. */
  ghost predicate NoReset(t: seq<Step>) {
    forall k :: 0 <= k < |t| ==> !t[k].Resume? && !t[k].Clear?
  }

  ghost function SentBy(s: Sub, step: Step): seq<Entry> {
    if step.Tick? then Ticked(s, step.deliver).0 else []
  }

  ghost function After(s: Sub, t: seq<Step>): Sub {
    if t == [] then s else Apply(After(s, t[..|t| - 1]), t[|t| - 1])
  }

  /** Everything sent in a run, in order. */
  ghost function SentIn(s: Sub, t: seq<Step>): seq<Entry> {
    if t == [] then [] else SentIn(s, t[..|t| - 1]) + SentBy(After(s, t[..|t| - 1]), t[|t| - 1])
  }

  function Written(t: seq<Step>): seq<Entry> {
    if t == [] then []
    else Written(t[..|t| - 1]) + (if t[|t| - 1].Write? then [t[|t| - 1].entry] else [])
  }

  // ---------------------------------------------------------------- reconnect and rebind

  function MarkOf(m: map<Str, EmitSeq>, sub: Str): Option<EmitSeq> {
    if sub in m then Some(m[sub]) else None
  }

  /** The manager holds these watermarks for the subscription. */
  predicate Agrees(st: State, sub: Str, s: Sub) {
    s.lastAck == MarkOf(st.lastAck, sub) && s.compacted == MarkOf(st.compacted, sub)
  }

  predicate Ahead(s: Sub, last: nat) {
    s.lastAck.Some? && last > s.lastAck.value.index
  }

  predicate Behind(s: Sub, last: nat) {
    s.compacted.Some? && last < s.compacted.value.index
  }

  /** The client is not ahead of the last ack and not behind the compaction watermark. */
  predicate ReconnectOK(s: Sub, last: nat) {
    !Ahead(s, last) && !Behind(s, last)
  }

  /** What an answer to a client of the current epoch means: OK is the next index of a client
      that has everything purged, STALE that it misses some of it, INVALID that it is ahead. */
  lemma ReconnectAnswer(st: State, sub: Str, s: Sub, last: EmitSeq)
    requires Agrees(st, sub, s) && last.epoch.counter == st.epoch.counter
    ensures var r := Reconnect(st, sub, last);
            && (r == ReconnectAck(OK, st.epoch, last.index + 1) <==> ReconnectOK(s, last.index))
            && (r.status == OK ==> r.next == last.index + 1)
            && (r.status == InvalidSequence <==> Ahead(s, last.index))
            && (r.status == StaleSequence <==> !Ahead(s, last.index) && Behind(s, last.index))
  {
  }

  function Later(a: Option<EmitSeq>, b: Option<EmitSeq>): Option<EmitSeq> {
    if a.Some? && (b.None? || Newer(a.value, b.value)) then a else b
  }

  /** The subscription `to` after `from` was rebound to it: entries and manager watermarks move,
      the notifier's watermarks and the purges in flight stay with their names. */
  function Rebound(from: Sub, to: Sub, name: Str): Sub {
    to.(pending := to.pending + Renamed(from.pending, name),
        lastAck := Later(from.lastAck, to.lastAck),
        compacted := Later(from.compacted, to.compacted))
  }

  /** What is left of the old name. */
  function LeftBehind(from: Sub): Sub {
    from.(pending := map[], lastAck := None, compacted := None)
  }
}
