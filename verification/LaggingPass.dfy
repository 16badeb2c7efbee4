/** In the middle of two passes over one log: the pass behind overwrites the compaction watermark. */
module LaggingPass {
  import opened Bytes
  import opened Sequences
  import opened Emission
  import opened DoubleApplication

  /** A command executed by one of the two passes. */
  datatype Done = Done(first: bool, cmd: Cmd)

  /** What one pass has executed. */
  function Ran(m: seq<Done>, first: bool): seq<Cmd> {
    if m == [] then []
    else
      var d := m[|m| - 1];
      Ran(m[..|m| - 1], first) + if d.first == first then [d.cmd] else []
  }

  function Executed(m: seq<Done>): seq<Cmd> {
    if m == [] then [] else Executed(m[..|m| - 1]) + [m[|m| - 1].cmd]
  }

  /** Two passes over `cs`, one at command `i` and the other at `j`. */
  ghost predicate Midway(m: seq<Done>, cs: seq<Cmd>, i: nat, j: nat) {
    i <= |cs| && j <= |cs| && Ran(m, true) == cs[..i] && Ran(m, false) == cs[..j]
  }

  function PurgeOf(c: Cmd, sub: Str): seq<EmitSeq> {
    if c.PurgeCmd? && c.sub == sub then [c.pos] else []
  }

  /** The purges of a subscription, in order. */
  function Purges(cs: seq<Cmd>, sub: Str): seq<EmitSeq> {
    if cs == [] then [] else Purges(cs[..|cs| - 1], sub) + PurgeOf(cs[|cs| - 1], sub)
  }

  /** The pass that executed the last purge of the subscription. */
  function LastPurger(m: seq<Done>, sub: Str): Option<bool> {
    if m == [] then None
    else
      var d := m[|m| - 1];
      if PurgeOf(d.cmd, sub) != [] then Some(d.first) else LastPurger(m[..|m| - 1], sub)
  }

  ghost predicate Increasing(ps: seq<EmitSeq>) {
    forall i, j :: 0 <= i < j < |ps| ==> ps[i].index < ps[j].index
  }

  /** A pass has executed fewer purges of the subscription than the other. */
  predicate IsBehind(m: seq<Done>, sub: Str, first: bool) {
    |Purges(Ran(m, first), sub)| < |Purges(Ran(m, !first), sub)|
  }

  predicate EndsLike(a: seq<EmitSeq>, b: seq<EmitSeq>) {
    a != [] && b != [] && a[|a| - 1] == b[|b| - 1]
  }

  /** The last purge of the subscription is the last one of the pass that executed it. */
  lemma {:induction false} LastPurge(m: seq<Done>, sub: Str)
    ensures LastPurger(m, sub).None? ==> Purges(Executed(m), sub) == []
    ensures LastPurger(m, sub).Some? ==>
              EndsLike(Purges(Ran(m, LastPurger(m, sub).value), sub), Purges(Executed(m), sub))
    decreases |m|
  {
    if m != [] {
      hide Purges, Ran, Executed, LastPurger, PurgeOf;
      var m', d := m[..|m| - 1], m[|m| - 1];
      LastPurge(m', sub);
      InitLast(m);
      DoneSnoc(m', d, sub);
      var all, own, p := Purges(Executed(m'), sub), Purges(Ran(m', d.first), sub), PurgeOf(d.cmd, sub);
      PurgesSnoc(Executed(m'), d.cmd, sub);
      PurgesSnoc(Ran(m', d.first), d.cmd, sub);
      if p == [] {
        AppendCut(all, [], 0);
        AppendCut(own, [], 0);
      }
    }
  }

  lemma DoneSnoc(m: seq<Done>, d: Done, sub: Str)
    ensures Ran(m + [d], d.first) == Ran(m, d.first) + [d.cmd] && Ran(m + [d], !d.first) == Ran(m, !d.first)
    ensures Executed(m + [d]) == Executed(m) + [d.cmd]
    ensures LastPurger(m + [d], sub) == if PurgeOf(d.cmd, sub) != [] then Some(d.first) else LastPurger(m, sub)
    ensures |PurgeOf(d.cmd, sub)| <= 1
  {
    assert (m + [d])[..|m|] == m;
    AppendCut(Ran(m, !d.first), [], 0);
  }

  lemma PurgesSnoc(cs: seq<Cmd>, c: Cmd, sub: Str)
    ensures Purges(cs + [c], sub) == Purges(cs, sub) + PurgeOf(c, sub)
  {
    assert (cs + [c])[..|cs|] == cs;
  }

  lemma {:induction false} PurgesPrefix(cs: seq<Cmd>, i: nat, sub: Str)
    requires i <= |cs|
    ensures Purges(cs[..i], sub) <= Purges(cs, sub)
    decreases |cs|
  {
    if i == |cs| {
      assert cs[..i] == cs;
    } else {
      var front := cs[..|cs| - 1];
      assert cs[..i] == front[..i];
      PurgesPrefix(front, i, sub);
    }
  }

  /** The compaction watermark is the last purge executed; acks and epoch stay. */
  lemma {:induction false} MarkIsLastPurge(s: State, cs: seq<Cmd>, sub: Str)
    ensures var r, ps := ExecAll(s, cs), Purges(cs, sub);
            && r.lastAck == s.lastAck && r.epoch == s.epoch
            && (ps != [] ==> sub in r.compacted && r.compacted[sub] == ps[|ps| - 1])
    decreases |cs|
  {
    if cs != [] {
      MarkIsLastPurge(s, cs[..|cs| - 1], sub);
    }
  }

  function Max(i: nat, j: nat): nat {
    if i < j then j else i
  }

  /** In the middle of two passes the compaction watermark is never above that of the pass ahead
      alone, and it is below it exactly when the last purge came from the pass that is behind. */
  lemma LagsExactly(s: State, cs: seq<Cmd>, m: seq<Done>, i: nat, j: nat, sub: Str)
    requires Midway(m, cs, i, j) && Increasing(Purges(cs, sub)) && LastPurger(m, sub).Some?
    ensures var st, one := ExecAll(s, Executed(m)), ExecAll(s, cs[..Max(i, j)]);
            && sub in st.compacted && sub in one.compacted
            && st.compacted[sub].index <= one.compacted[sub].index
            && (st.compacted[sub].index < one.compacted[sub].index <==> IsBehind(m, sub, LastPurger(m, sub).value))
  {
    hide ExecAll, Executed, Purges, Ran, LastPurger;
    var who := LastPurger(m, sub).value;
    var all, own, other := Purges(cs, sub), Purges(Ran(m, who), sub), Purges(Ran(m, !who), sub);
    LastPurge(m, sub);
    MarkIsLastPurge(s, Executed(m), sub);
    MarkIsLastPurge(s, cs[..Max(i, j)], sub);
    PurgesPrefix(cs, i, sub);
    PurgesPrefix(cs, j, sub);
    Nested(cs, i, j, sub);
    var most := Purges(cs[..Max(i, j)], sub);
    assert own <= all && most <= all && |own| <= |most| && |other| <= |most|;
    assert own[|own| - 1] == all[|own| - 1] && most[|most| - 1] == all[|most| - 1];
    assert |most| == |own| || |most| == |other|;
  }

  lemma Nested(cs: seq<Cmd>, i: nat, j: nat, sub: Str)
    requires i <= |cs| && j <= |cs|
    ensures |Purges(cs[..i], sub)| <= |Purges(cs[..Max(i, j)], sub)|
    ensures |Purges(cs[..j], sub)| <= |Purges(cs[..Max(i, j)], sub)|
  {
    hide Purges;
    var k := Max(i, j);
    assert cs[..k][..i] == cs[..i] && cs[..k][..j] == cs[..j];
    PurgesPrefix(cs[..k], i, sub);
    PurgesPrefix(cs[..k], j, sub);
  }

  /** A client whose position the pass ahead alone would call stale. */
  predicate WronglyOK(st: State, one: State, sub: Str, last: EmitSeq) {
    && last.epoch.counter == st.epoch.counter
    && Reconnect(st, sub, last).status == OK && Reconnect(one, sub, last).status == StaleSequence
  }

  /** Some stale reconnect is answered OK exactly then, as long as the watermark is not ahead of
      the last ack, where every answer between the two is invalid. */
  lemma StaleAnsweredExactly(s: State, cs: seq<Cmd>, m: seq<Done>, i: nat, j: nat, sub: Str)
    requires Midway(m, cs, i, j) && Increasing(Purges(cs, sub)) && LastPurger(m, sub).Some?
    ensures var st, one := ExecAll(s, Executed(m)), ExecAll(s, cs[..Max(i, j)]);
            && sub in st.compacted
            && ((exists last :: WronglyOK(st, one, sub, last)) <==>
                  && IsBehind(m, sub, LastPurger(m, sub).value)
                  && (sub in s.lastAck ==> st.compacted[sub].index <= s.lastAck[sub].index))
  {
    hide ExecAll, Executed, Purges, Ran, LastPurger;
    var st, one := ExecAll(s, Executed(m)), ExecAll(s, cs[..Max(i, j)]);
    LagsExactly(s, cs, m, i, j, sub);
    MarkIsLastPurge(s, Executed(m), sub);
    MarkIsLastPurge(s, cs[..Max(i, j)], sub);
    var here := EmitSeq(st.epoch, st.compacted[sub].index);
    if IsBehind(m, sub, LastPurger(m, sub).value) && (sub in s.lastAck ==> here.index <= s.lastAck[sub].index) {
      assert WronglyOK(st, one, sub, here);
    }
  }

  /** Such a state exists: both passes execute the first purge, one goes on to the second, and the
      other executes the first after it. */
  lemma LagShown(sub: Str, a: EmitSeq, b: EmitSeq)
    requires a.index < b.index
    ensures var cs := [PurgeCmd(sub, a), PurgeCmd(sub, b)];
            var m := [Done(true, cs[0]), Done(true, cs[1]), Done(false, cs[0])];
            && Midway(m, cs, 2, 1) && Increasing(Purges(cs, sub))
            && LastPurger(m, sub) == Some(false) && IsBehind(m, sub, false)
  {
    var p, q := PurgeCmd(sub, a), PurgeCmd(sub, b);
    assert Ran([], true) == [] == Ran([], false) && Purges([], sub) == [];
    assert PurgeOf(p, sub) == [a] && PurgeOf(q, sub) == [b];
    hide Ran, Purges, Executed, LastPurger, PurgeOf;
    var cs, m := [p, q], [Done(true, p), Done(true, q), Done(false, p)];
    assert m == [] + [m[0]] + [m[1]] + [m[2]] && cs == [] + [p] + [q];
    DoneSnoc([], m[0], sub);
    DoneSnoc([] + [m[0]], m[1], sub);
    DoneSnoc([] + [m[0]] + [m[1]], m[2], sub);
    PurgesSnoc([], p, sub);
    PurgesSnoc([] + [p], q, sub);
    assert cs[..1] == [] + [p] && cs[..2] == cs;
  }
}
