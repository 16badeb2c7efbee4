/** The outbox manager: the maps updated in place by committed commands, acks and rebinds. */
module OutboxManager {
  import opened Bytes
  import opened Decimal
  import opened Emission
  import opened Delivery

  const COLON: byte := 58

  predicate HasPrefix(s: Str, prefix: Str) {
    prefix <= s
  }

  predicate HasProperSuffix(s: Str, suffix: Str) {
    |s| > |suffix| && s[|s| - |suffix|..] == suffix
  }

  /** What follows the first colon, as `SplitN(s, ":", 2)` finds it. */
  function AfterColon(s: Str): Str {
    if s == [] then [] else if s[0] == COLON then s[1..] else AfterColon(s[1..])
  }

  /** A sorted permutation of distinct numbers, by insertion. */
  method SortInts(xs: seq<nat>) returns (ys: seq<nat>)
    requires forall i, j :: 0 <= i < j < |xs| ==> xs[i] != xs[j]
    ensures forall i, j :: 0 <= i < j < |ys| ==> ys[i] < ys[j]
    ensures forall x :: x in ys <==> x in xs
  {
    ys := [];
    for k := 0 to |xs|
      invariant forall i, j :: 0 <= i < j < |ys| ==> ys[i] < ys[j]
      invariant forall x :: x in ys <==> x in xs[..k]
    {
      var p := 0;
      while p < |ys| && ys[p] < xs[k]
        invariant 0 <= p <= |ys| && forall i :: 0 <= i < p ==> ys[i] < xs[k]
      {
        p := p + 1;
      }
      assert p < |ys| ==> ys[p] in xs[..k];
      ys := ys[..p] + [xs[k]] + ys[p..];
      assert xs[..k + 1] == xs[..k] + [xs[k]];
    }
    assert xs[..|xs|] == xs;
  }

  /** Moves the entries of one map into another under a new name, one by one. */
  method MoveMap(m0: map<nat, Entry>, target0: map<nat, Entry>, to: Str) returns (target: map<nat, Entry>, moved: nat)
    ensures target == target0 + Renamed(m0, to)
    ensures moved == |m0|
  {
    hide Renamed, RenamedBut;
    target, moved := target0, 0;
    var left := m0.Keys;
    ghost var done: map<nat, Entry> := map[];
    NoneRenamed(target0, m0, to);
    while left != {}
      invariant left <= m0.Keys && moved + |left| == |m0.Keys|
      invariant RenamedBut(done, m0, left, to) && target == target0 + done
      decreases left
    {
      var idx :| idx in left;
      OneRenamed(target0, done, m0, left, to, idx);
      target := target[idx := m0[idx].(sub := to)];
      done := done[idx := m0[idx].(sub := to)];
      left := left - {idx};
      moved := moved + 1;
    }
    AllRenamed(done, m0, to);
  }

  lemma NoneRenamed(target: map<nat, Entry>, m: map<nat, Entry>, to: Str)
    ensures RenamedBut(map[], m, m.Keys, to) && target + map[] == target
  {
  }

  lemma OneRenamed(target: map<nat, Entry>, done: map<nat, Entry>, m: map<nat, Entry>, left: set<nat>, to: Str,
      idx: nat)
    requires RenamedBut(done, m, left, to) && idx in left && left <= m.Keys
    ensures RenamedBut(done[idx := m[idx].(sub := to)], m, left - {idx}, to)
    ensures (target + done)[idx := m[idx].(sub := to)] == target + done[idx := m[idx].(sub := to)]
  {
  }

  /** All entries but those still to move. */
  ghost predicate RenamedBut(done: map<nat, Entry>, m: map<nat, Entry>, left: set<nat>, to: Str) {
    done.Keys == m.Keys - left && forall i :: i in done ==> done[i] == m[i].(sub := to)
  }

  lemma AllRenamed(done: map<nat, Entry>, m: map<nat, Entry>, to: Str)
    requires RenamedBut(done, m, {}, to)
    ensures done == Renamed(m, to)
  {
  }

  class Manager {
    var bySub: Outbox
    var lastAck: map<Str, EmitSeq>
    var compactThrough: map<Str, EmitSeq>
    var currentEpoch: EpochID

    constructor (epoch: EpochID)
      ensures View() == State(map[], map[], map[], epoch)
    {
      bySub := map[];
      lastAck := map[];
      compactThrough := map[];
      currentEpoch := epoch;
    }

    ghost function View(): State
      reads this
    {
      State(bySub, lastAck, compactThrough, currentEpoch)
    }

    method ApplyOutboxWrite(e: Entry) returns (newSub: bool)
      modifies `bySub
      ensures View() == ApplyWrite(old(View()), e)
      ensures newSub <==> e.sub !in old(bySub)
    {
      newSub := false;
      if e.sub !in bySub {
        bySub := bySub[e.sub := map[]];
        newSub := true;
      }
      var m: map<nat, Entry> := bySub[e.sub];
      bySub := bySub[e.sub := m[e.pos.index := e]];
      assert bySub == Emission.Write(old(bySub), e);
    }

    /** Deletes one by one the entries up to an index; `removed` counts them. */
    method PurgeEntries(sub: Str, upTo: nat) returns (removed: nat, emptied: bool)
      modifies `bySub
      ensures bySub == Emission.Purge(old(bySub), sub, upTo)
      ensures removed == if sub in old(bySub) then |old(bySub)[sub]| - |Above(old(bySub)[sub], upTo)| else 0
      ensures emptied <==> sub in old(bySub) && sub !in bySub
    {
      removed, emptied := 0, false;
      if sub !in bySub {
        return;
      }
      ghost var m0 := bySub[sub];
      var m := bySub[sub];
      var left := m.Keys;
      while left != {}
        invariant left <= m0.Keys && m.Keys <= m0.Keys
        invariant forall i :: i in m0 ==> (i in m <==> i in left || i > upTo)
        invariant forall i :: i in m ==> m[i] == m0[i]
        invariant removed + |m| == |m0|
        decreases left
      {
        var idx :| idx in left;
        if idx <= upTo {
          assert m.Keys == (m - {idx}).Keys + {idx};
          m := m - {idx};
          removed := removed + 1;
        }
        left := left - {idx};
      }
      assert m == Above(m0, upTo);
      bySub := bySub[sub := m];
      if |m| == 0 {
        bySub := bySub - {sub};
        emptied := true;
      }
    }

    /** A purge also overwrites the compaction watermark. */
    method ApplyOutboxPurge(sub: Str, upTo: EmitSeq)
      modifies `bySub, `compactThrough
      ensures View() == ApplyPurge(old(View()), sub, upTo)
    {
      var removed, emptied := PurgeEntries(sub, upTo.index);
      compactThrough := compactThrough[sub := upTo];
    }

    method ValidateAck(sub: Str, pos: EmitSeq) returns (ok: bool)
      modifies `lastAck
      ensures ok <==> AckAccepted(old(View()), sub, pos)
      ensures View() == ApplyAck(old(View()), sub, pos)
    {
      if sub in lastAck && (pos.epoch.counter < lastAck[sub].epoch.counter
                            || (pos.epoch.counter == lastAck[sub].epoch.counter && pos.index <= lastAck[sub].index)) {
        return false;
      }
      lastAck := lastAck[sub := pos];
      return true;
    }

    /** The pending entries of a subscription in commit order. */
    method PendingSorted(sub: Str) returns (out: seq<Entry>)
      requires WellFormed(bySub)
      ensures Lists(out, if sub in bySub then bySub[sub] else map[])
    {
      out := [];
      if sub !in bySub {
        return;
      }
      var m := bySub[sub];
      var idxs: seq<nat> := [];
      var left := m.Keys;
      while left != {}
        invariant left <= m.Keys
        invariant forall i, j :: 0 <= i < j < |idxs| ==> idxs[i] != idxs[j]
        invariant forall x :: x in idxs <==> x in m && x !in left
        decreases left
      {
        var k :| k in left;
        idxs := idxs + [k];
        left := left - {k};
      }
      idxs := SortInts(idxs);
      for k := 0 to |idxs|
        invariant |out| == k && forall i :: 0 <= i < k ==> idxs[i] in m && out[i] == m[idxs[i]]
      {
        assert idxs[k] in idxs;
        out := out + [m[idxs[k]]];
      }
      forall i | i in m ensures m[i].pos.index == i && m[i] in out {
        assert i in idxs;
        var k :| 0 <= k < |idxs| && idxs[k] == i;
        assert out[k] == m[i];
      }
    }

    /** The answer to a client at position `last`. In the current epoch it is OK exactly when the
        client is neither ahead of the last ack nor behind what was purged, and then says where to go
        on; otherwise it says where the client stands against the manager. A client of
        another epoch starts over. */
    method ReconnectRequest(sub: Str, last: EmitSeq) returns (ack: ReconnectAck)
      ensures ack == Reconnect(View(), sub, last) && ack.epoch == currentEpoch
      ensures last.epoch.counter != currentEpoch.counter ==> ack.status == OK && ack.next == 0
      ensures last.epoch.counter == currentEpoch.counter ==>
                && (ack.status == OK <==>
                    && (sub in lastAck ==> last.index <= lastAck[sub].index)
                    && (sub in compactThrough ==> compactThrough[sub].index <= last.index))
                && (ack.status == OK ==> ack.next == last.index + 1)
                && (ack.status == InvalidSequence ==>
                  sub in lastAck && ack.next == lastAck[sub].index + 1 <= last.index)
                && (ack.status == StaleSequence ==>
                  sub in compactThrough && ack.next == compactThrough[sub].index > last.index)
    {
      var compacted := if sub in compactThrough then compactThrough[sub] else UNSENT;
      if last.epoch.counter != currentEpoch.counter {
        return ReconnectAck(OK, currentEpoch, 0);
      }
      if sub in lastAck && last.index > lastAck[sub].index {
        return ReconnectAck(InvalidSequence, currentEpoch, lastAck[sub].index + 1);
      }
      if last.index < compacted.index {
        return ReconnectAck(StaleSequence, currentEpoch, compacted.index);
      }
      return ReconnectAck(OK, currentEpoch, last.index + 1);
    }

    // -------------------------------------------------------------- rebinding

    /** Moves the entries of one name to another, one by one. */
    method MoveAll(from: Str, to: Str) returns (moved: nat)
      requires from != to
      modifies `bySub
      ensures bySub == MoveEntries(old(bySub), from, to)
      ensures moved == if from in old(bySub) then |old(bySub)[from]| else 0
    {
      moved := 0;
      if from !in bySub {
        return;
      }
      var target: map<nat, Entry>;
      target, moved := MoveMap(bySub[from], if to in bySub then bySub[to] else map[], to);
      bySub := (bySub - {from})[to := target];
    }

    /** A subscription with pending entries or a watermark. */
    predicate Known(sub: Str)
      reads this
    {
      sub in bySub || sub in lastAck || sub in compactThrough
    }

    /** Some known subscription that satisfies the test, those with pending entries first. */
    method FindSub(test: Str -> bool) returns (r: Option<Str>)
      ensures r.Some? ==> Known(r.value) && test(r.value)
      ensures r.None? ==> forall sub :: Known(sub) ==> !test(sub)
    {
      if s :| s in bySub && test(s) {
        return Some(s);
      } else if s :| s in lastAck && test(s) {
        return Some(s);
      } else if s :| s in compactThrough && test(s) {
        return Some(s);
      }
      return None;
    }

    /** Looks the old subscription up: by exact name, else by fingerprint suffix, or by client prefix
        when there is no fingerprint. */
    method FindOldSub(fp: nat, oldClient: Str) returns (r: Option<Str>)
      ensures r.Some? ==> Known(r.value)
      ensures fp != 0 && oldClient != [] && Known(SubName(oldClient, FormatNat(fp))) ==>
                r == Some(SubName(oldClient, FormatNat(fp)))
      ensures fp != 0 && r.Some? ==> HasProperSuffix(r.value, [COLON] + FormatNat(fp))
      ensures fp != 0 && r.None? ==> forall sub :: Known(sub) ==> !HasProperSuffix(sub, [COLON] + FormatNat(fp))
      ensures fp == 0 && r.Some? ==> oldClient != [] && HasPrefix(r.value, oldClient + [COLON])
      ensures fp == 0 && r.None? ==> oldClient == [] || forall sub :: Known(sub) ==>
                !HasPrefix(sub, oldClient + [COLON])
    {
      if fp != 0 {
        if oldClient != [] {
          var candidate := SubName(oldClient, FormatNat(fp));
          assert candidate[|oldClient|..] == [COLON] + FormatNat(fp);
          if candidate in bySub || candidate in lastAck || candidate in compactThrough {
            return Some(candidate);
          }
        }
        r := FindSub(sub => HasProperSuffix(sub, [COLON] + FormatNat(fp)));
      } else if oldClient != [] {
        r := FindSub(sub => HasPrefix(sub, oldClient + [COLON]));
      } else {
        r := None;
      }
    }

    method RebindByFingerprint(fp: nat, oldClient: Str, newClient: Str)
        returns (oldSub: Option<Str>, newSub: Str, moved: nat)
      modifies `bySub, `lastAck, `compactThrough
      ensures oldSub.Some? ==> old(Known(oldSub.value))
      ensures fp != 0 ==> newSub == SubName(newClient, FormatNat(fp))
      ensures fp != 0 ==>
                && (oldSub.Some? ==> HasProperSuffix(oldSub.value, [COLON] + FormatNat(fp)))
                && (oldSub.None? ==> forall sub :: old(Known(sub)) ==> !HasProperSuffix(sub, [COLON] + FormatNat(fp)))
                && (oldClient != [] && old(Known(SubName(oldClient, FormatNat(fp)))) ==>
                  oldSub == Some(SubName(oldClient, FormatNat(fp))))
      ensures fp == 0 && oldSub.Some? ==>
                oldClient != [] && HasPrefix(oldSub.value, oldClient + [COLON])
                  && newSub == SubName(newClient, AfterColon(oldSub.value))
      ensures View() == if oldSub.Some? then Rebind(old(View()), oldSub.value, newSub) else old(View())
      ensures moved == if oldSub.Some? && oldSub.value != newSub
                && oldSub.value in old(bySub) then |old(bySub)[oldSub.value]| else 0
    {
      moved := 0;
      newSub := if fp != 0 then SubName(newClient, FormatNat(fp)) else [];
      oldSub := FindOldSub(fp, oldClient);
      if oldSub.None? {
        return;
      }
      var from := oldSub.value;
      if fp == 0 {
        newSub := SubName(newClient, AfterColon(from));
      }
      if from == newSub {
        return;
      }
      moved := MoveAll(from, newSub);
      if from in lastAck {
        if newSub !in lastAck || Newer(lastAck[from], lastAck[newSub]) {
          lastAck := lastAck[newSub := lastAck[from]];
        }
        lastAck := lastAck - {from};
      }
      if from in compactThrough {
        if newSub !in compactThrough || Newer(compactThrough[from], compactThrough[newSub]) {
          compactThrough := compactThrough[newSub := compactThrough[from]];
        }
        compactThrough := compactThrough - {from};
      }
    }
  }

  function SubName(client: Str, fingerprint: Str): Str {
    client + [COLON] + fingerprint
  }
}
