/** What a subscription keeps: in every run nothing written above its compaction watermark is
    lost, and nothing else is pending. */
module Retention {
  import opened Bytes
  import opened Sequences
  import opened Emission
  import opened Delivery
  import opened SendOrder

  const FRESH: Sub := Sub(map[], None, None, None, 0, [])

  function Mark(p: Option<EmitSeq>): nat {
    if p.Some? then p.value.index else 0
  }

  /** Proposed purges wait in increasing order between what is compacted and the last ack. */
  ghost predicate Queued(s: Sub, c: nat) {
    && (s.lastAck.Some? ==> s.lastAck.value.epoch.counter == c)
    && (s.lastAck.None? ==> s.proposed == [] && s.compacted.None?)
    && Mark(s.compacted) <= Mark(s.lastAck)
    && (forall k :: 0 <= k < |s.proposed| ==> Mark(s.compacted) <= s.proposed[k].index <= Mark(s.lastAck))
    && (forall j, k :: 0 <= j < k < |s.proposed| ==> s.proposed[j].index <= s.proposed[k].index)
  }

  /** Acks and writes of one epoch, writes in increasing commit order. */
  ghost predicate Regular(t: seq<Step>, c: nat) {
    && WritesIn(t, c) && Ascending(Written(t))
    && (forall k :: 0 <= k < |t| && t[k].Ack? ==> t[k].pos.epoch.counter == c)
  }

  /** Nothing written above the compaction watermark is gone, and nothing else is pending. */
  ghost predicate Retained(s: Sub, w: seq<Entry>, c: nat) {
    && InEpoch(s.pending, c) && Queued(s, c) && (forall e :: e in w ==> e.pos.epoch.counter == c)
    && (forall i :: i in s.pending ==> s.pending[i] in w)
    && (forall e :: e in w && e.pos.index > Mark(s.compacted) ==>
      e.pos.index in s.pending && s.pending[e.pos.index] == e)
  }

  lemma RetainedStep(s: Sub, w: seq<Entry>, step: Step, c: nat)
    requires Retained(s, w, c)
    requires step.Write? ==> step.entry.pos.epoch.counter == c && Ascending(w + [step.entry])
    requires step.Ack? ==> step.pos.epoch.counter == c
    ensures Retained(Apply(s, step), if step.Write? then w + [step.entry] else w, c)
  {
    hide Scan, Listing;
    match step
    case Write(e) => RetainedWrite(s, w, e, c);
    case Ack(pos, proposed) => RetainedAck(s, w, pos, proposed, c);
    case PurgeNext => RetainedPurge(s, w, c);
    case _ =>
  }

  lemma RetainedWrite(s: Sub, w: seq<Entry>, e: Entry, c: nat)
    requires Retained(s, w, c) && e.pos.epoch.counter == c && Ascending(w + [e])
    ensures Retained(s.(pending := s.pending[e.pos.index := e]), w + [e], c)
  {
    var w' := w + [e];
    forall x | x in w ensures x.pos.index < e.pos.index {
      var k :| 0 <= k < |w| && w[k] == x;
      assert w'[k] == x && w'[|w|] == e;
    }
  }

  lemma RetainedAck(s: Sub, w: seq<Entry>, pos: EmitSeq, proposed: bool, c: nat)
    requires Retained(s, w, c) && pos.epoch.counter == c
    ensures Retained(Acked(s, pos, proposed), w, c)
  {
  }

  lemma RetainedPurge(s: Sub, w: seq<Entry>, c: nat)
    requires Retained(s, w, c)
    ensures Retained(Apply(s, PurgeNext), w, c)
  {
  }

  lemma {:induction false} RetainedAlways(s: Sub, w: seq<Entry>, t: seq<Step>, c: nat)
    requires Retained(s, w, c) && Regular(t, c) && Ascending(w + Written(t))
    ensures Retained(After(s, t), w + Written(t), c)
  {
    hide Retained, Apply;
    if t == [] {
      assert w + Written(t) == w;
    } else {
      var t', last := t[..|t| - 1], t[|t| - 1];
      WrittenShorter(w, t);
      AppendCut(w + Written(t'), [], 0);
      RetainedAlways(s, w, t', c);
      RetainedStep(After(s, t'), w + Written(t'), last, c);
    }
  }

  lemma WrittenShorter(w: seq<Entry>, t: seq<Step>)
    requires t != [] && Ascending(w + Written(t))
    ensures var t' := t[..|t| - 1];
            && Ascending(w + Written(t')) && Ascending(Written(t'))
            && w + Written(t) == (w + Written(t')) + (if t[|t| - 1].Write? then [t[|t| - 1].entry] else [])
  {
    var t' := t[..|t| - 1];
    var a, b := w + Written(t'), w + Written(t);
    assert forall i :: 0 <= i < |a| ==> a[i] == b[i];
    assert forall i :: 0 <= i < |Written(t')| ==> Written(t')[i] == a[|w| + i];
  }

  lemma BeforeRetained(before: seq<Step>, c: nat)
    requires Regular(before, c)
    ensures Ascending(Written(before)) && Retained(After(FRESH, before), Written(before), c)
  {
    hide After, Written;
    assert [] + Written(before) == Written(before);
    RetainedAlways(FRESH, [], before, c);
  }
}
