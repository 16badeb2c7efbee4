/** The emission outbox as values: what each committed command, acknowledgement, rebind and
    reconnect does to the manager's maps. */
module Emission {
  import opened Bytes

  datatype EpochID = EpochID(bucket: Str, counter: nat)

  datatype EmitSeq = EmitSeq(epoch: EpochID, index: nat)

  /** A durable emission awaiting delivery or acknowledgement. */
  datatype Entry = Entry(sub: Str, pos: EmitSeq, delta: Str)

  /** Subscription to commit index to entry. */
  type Outbox = map<Str, map<nat, Entry>>

  datatype State = State(outbox: Outbox, lastAck: map<Str, EmitSeq>, compacted: map<Str, EmitSeq>, epoch: EpochID)

  /** The order of positions: by epoch counter, then by commit index. */
  predicate Newer(a: EmitSeq, b: EmitSeq) {
    a.epoch.counter > b.epoch.counter || (a.epoch.counter == b.epoch.counter && a.index > b.index)
  }

  /** Every entry is stored under its own subscription and index, and no subscription is left empty. */
  predicate WellFormed(o: Outbox) {
    forall s :: s in o ==> o[s] != map[] && forall i :: i in o[s] ==> o[s][i].sub == s && o[s][i].pos.index == i
  }

  function Lookup(o: Outbox, s: Str, i: nat): Option<Entry> {
    if s in o && i in o[s] then Some(o[s][i]) else None
  }

  function Write(o: Outbox, e: Entry): (r: Outbox)
    ensures WellFormed(o) ==> WellFormed(r)
    ensures forall s, i: nat :: Lookup(r, s, i) == if s == e.sub && i == e.pos.index then Some(e) else Lookup(o, s, i)
  {
    var m := (if e.sub in o then o[e.sub] else map[])[e.pos.index := e];
    assert e.pos.index in m;
    o[e.sub := m]
  }

  /** The entries above an index. */
  function Above(m: map<nat, Entry>, upTo: nat): map<nat, Entry> {
    map i | i in m && i > upTo :: m[i]
  }

  function Purge(o: Outbox, sub: Str, upTo: nat): (r: Outbox)
    ensures WellFormed(o) ==> WellFormed(r)
    ensures forall s, i: nat :: Lookup(r, s, i) == if s == sub && i <= upTo then None else Lookup(o, s, i)
  {
    if sub !in o then o
    else
      var m := Above(o[sub], upTo);
      assert forall i :: i in o[sub] && i > upTo ==> i in m;
      if m == map[] then o - {sub} else o[sub := m]
  }

  function ApplyWrite(s: State, e: Entry): State {
    s.(outbox := Write(s.outbox, e))
  }

  /** A purge overwrites the compaction watermark, whatever it was. */
  function ApplyPurge(s: State, sub: Str, upTo: EmitSeq): State {
    s.(outbox := Purge(s.outbox, sub, upTo.index), compacted := s.compacted[sub := upTo])
  }

  predicate AckAccepted(s: State, sub: Str, pos: EmitSeq) {
    sub in s.lastAck ==> Newer(pos, s.lastAck[sub])
  }

  function ApplyAck(s: State, sub: Str, pos: EmitSeq): State {
    if AckAccepted(s, sub, pos) then s.(lastAck := s.lastAck[sub := pos]) else s
  }

  // ---------------------------------------------------------------- rebinding a subscription

  function Renamed(m: map<nat, Entry>, name: Str): (r: map<nat, Entry>)
    ensures r.Keys == m.Keys
  {
    map i | i in m :: m[i].(sub := name)
  }

  /** All entries of one name under another; an entry already there at the same index is replaced. */
  function MoveEntries(o: Outbox, from: Str, to: Str): (r: Outbox)
    requires from != to
    ensures WellFormed(o) ==> WellFormed(r)
    ensures forall s, i: nat :: Lookup(r, s, i) ==
                           if s == from then None
                           else if s == to && Lookup(o, from, i).Some? then Some(Lookup(o, from, i).value.(sub := to))
                           else Lookup(o, s, i)
  {
    if from !in o then o
    else
      var target := if to in o then o[to] else map[];
      var moved := target + Renamed(o[from], to);
      assert WellFormed(o) ==> exists i :: i in o[from];
      (o - {from})[to := moved]
  }

  /** The later of the two watermarks under the new name, nothing under the old one. */
  function MoveMark(m: map<Str, EmitSeq>, from: Str, to: Str): map<Str, EmitSeq> {
    if from !in m then m
    else if to !in m || Newer(m[from], m[to]) then m[to := m[from]] - {from}
    else m - {from}
  }

  function Rebind(s: State, from: Str, to: Str): State {
    if from == to then s
    else s.(outbox := MoveEntries(s.outbox, from, to),
            lastAck := MoveMark(s.lastAck, from, to),
            compacted := MoveMark(s.compacted, from, to))
  }

  // ---------------------------------------------------------------- reconnect

  datatype Status = OK | StaleSequence | InvalidSequence

  datatype ReconnectAck = ReconnectAck(status: Status, epoch: EpochID, next: nat)

  function Reconnect(s: State, sub: Str, last: EmitSeq): ReconnectAck {
    var compacted := if sub in s.compacted then s.compacted[sub].index else 0;
    if last.epoch.counter != s.epoch.counter then ReconnectAck(OK, s.epoch, 0)
    else if sub in s.lastAck && last.index > s.lastAck[sub].index then
      ReconnectAck(InvalidSequence, s.epoch, s.lastAck[sub].index + 1)
    else if last.index < compacted then ReconnectAck(StaleSequence, s.epoch, compacted)
    else ReconnectAck(OK, s.epoch, last.index + 1)
  }
}
