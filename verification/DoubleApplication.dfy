/** The committed log is applied twice to one manager: by the replication handler and by the
    applier. Any interleaving of the two passes ends as a single pass would. */
module DoubleApplication {
  import opened Bytes
  import opened Decimal
  import opened Emission

  /** A replicated command with its arguments. */
  datatype Payload = Payload(cmd: Name, args: seq<Str>)

  datatype Name = SUBSCRIBE | DATA_EVENT | OUTBOX_WRITE | ACK | OUTBOX_PURGE | OTHER

  datatype Cmd =
    | WriteCmd(entry: Entry)
    | PurgeCmd(sub: Str, pos: EmitSeq)

  const MAX_UINT64: nat := 0xffff_ffff_ffff_ffff

  /** `strconv.ParseUint` with its error dropped: zero for bad syntax, the maximum out of range. */
  function ParseUint(s: Str): nat {
    if s == [] || !AllDigits(s) then 0
    else if Value(s) > MAX_UINT64 then MAX_UINT64
    else Value(s)
  }

  function Position(args: seq<Str>): EmitSeq
    requires |args| >= 4
  {
    EmitSeq(EpochID(args[1], ParseUint(args[2])), ParseUint(args[3]))
  }

  /** What the replication handler does to the outbox; a write may come without a delta. */
  function HandlerCmd(p: Payload): Option<Cmd> {
    match p.cmd
    case OUTBOX_WRITE =>
      if |p.args| < 4 then None
      else Some(WriteCmd(Entry(p.args[0], Position(p.args), if |p.args| >= 5 then p.args[4] else [])))
    case OUTBOX_PURGE => if |p.args| < 4 then None else Some(PurgeCmd(p.args[0], Position(p.args)))
    case _ => None
  }

  /** What the applier does to the outbox; a write without a delta is ignored. */
  function ApplierCmd(p: Payload): Option<Cmd> {
    match p.cmd
    case OUTBOX_WRITE =>
      if |p.args| < 5 then None else Some(WriteCmd(Entry(p.args[0], Position(p.args), p.args[4])))
    case OUTBOX_PURGE => if |p.args| < 4 then None else Some(PurgeCmd(p.args[0], Position(p.args)))
    case _ => None
  }

  function HandlerPass(log: seq<Payload>): seq<Cmd> {
    if log == [] then []
    else
      var c := HandlerCmd(log[|log| - 1]);
      HandlerPass(log[..|log| - 1]) + (if c.Some? then [c.value] else [])
  }

  function ApplierPass(log: seq<Payload>): seq<Cmd> {
    if log == [] then []
    else
      var c := ApplierCmd(log[|log| - 1]);
      ApplierPass(log[..|log| - 1]) + (if c.Some? then [c.value] else [])
  }

  function Exec(s: State, c: Cmd): State {
    match c
    case WriteCmd(e) => ApplyWrite(s, e)
    case PurgeCmd(sub, pos) => ApplyPurge(s, sub, pos)
  }

  function ExecAll(s: State, cs: seq<Cmd>): State {
    if cs == [] then s else Exec(ExecAll(s, cs[..|cs| - 1]), cs[|cs| - 1])
  }

  /** `m` merges `a` and `b`, each kept in order. */
  ghost predicate Interleaving(m: seq<Cmd>, a: seq<Cmd>, b: seq<Cmd>)
    decreases |m|
  {
    if m == [] then a == [] && b == []
    else
      var m', last := m[..|m| - 1], m[|m| - 1];
      || (a != [] && a[|a| - 1] == last && Interleaving(m', a[..|a| - 1], b))
      || (b != [] && b[|b| - 1] == last && Interleaving(m', a, b[..|b| - 1]))
  }

  /** A number in range is read back, and a larger one as the maximum. */
  lemma ParsesBack(n: nat)
    ensures ParseUint(FormatNat(n)) == if n <= MAX_UINT64 then n else MAX_UINT64
  {
    ValueOfFormatNat(n);
  }

  /** Text that is not a number is read as zero. */
  lemma ParsesNothing(s: Str, i: nat)
    requires i < |s| && !IsDigit(s[i])
    ensures ParseUint(s) == ParseUint([]) == 0
  {
  }

  lemma OnePass(p: Payload)
    ensures HandlerPass([p]) == if HandlerCmd(p).Some? then [HandlerCmd(p).value] else []
    ensures ApplierPass([p]) == if ApplierCmd(p).Some? then [ApplierCmd(p).value] else []
  {
    assert [p][..0] == [];
    assert HandlerPass([]) == [] && ApplierPass([]) == [];
  }

  lemma ExecOne(s: State, c: Cmd)
    ensures ExecAll(s, [c]) == Exec(s, c) && ExecAll(s, []) == s
  {
    assert [c][..0] == [];
  }

  /** A committed write, executed by either pass, leaves exactly its entry at its index. */
  lemma WriteLeaves(s: State, sub: Str, bucket: Str, c: nat, i: nat, delta: Str, pass: bool)
    requires c <= MAX_UINT64 && i <= MAX_UINT64
    ensures var log := [Payload(OUTBOX_WRITE, [sub, bucket, FormatNat(c), FormatNat(i), delta])];
            var t := ExecAll(s, if pass then HandlerPass(log) else ApplierPass(log));
            && Lookup(t.outbox, sub, i) == Some(Entry(sub, EmitSeq(EpochID(bucket, c), i), delta))
            && (forall sub', j: nat :: (sub', j) != (sub, i) ==> Lookup(t.outbox, sub', j) == Lookup(s.outbox, sub', j))
            && t.compacted == s.compacted && t.lastAck == s.lastAck && t.epoch == s.epoch
  {
    hide ParseUint, FormatNat;
    var p := Payload(OUTBOX_WRITE, [sub, bucket, FormatNat(c), FormatNat(i), delta]);
    ParsesBack(c);
    ParsesBack(i);
    OnePass(p);
    ExecOne(s, WriteCmd(Entry(sub, EmitSeq(EpochID(bucket, c), i), delta)));
  }

  /** A committed purge, executed by either pass, removes exactly the entries up to its index and sets
      the watermark to its position. */
  lemma PurgeLeaves(s: State, sub: Str, bucket: Str, c: nat, i: nat, pass: bool)
    requires c <= MAX_UINT64 && i <= MAX_UINT64
    ensures var log := [Payload(OUTBOX_PURGE, [sub, bucket, FormatNat(c), FormatNat(i)])];
            var t := ExecAll(s, if pass then HandlerPass(log) else ApplierPass(log));
            && (forall sub', j: nat :: Lookup(t.outbox, sub', j) ==
                  if sub' == sub && j <= i then None else Lookup(s.outbox, sub', j))
            && t.compacted == s.compacted[sub := EmitSeq(EpochID(bucket, c), i)]
            && t.lastAck == s.lastAck && t.epoch == s.epoch
  {
    hide ParseUint, FormatNat;
    var p := Payload(OUTBOX_PURGE, [sub, bucket, FormatNat(c), FormatNat(i)]);
    ParsesBack(c);
    ParsesBack(i);
    OnePass(p);
    ExecOne(s, PurgeCmd(sub, EmitSeq(EpochID(bucket, c), i)));
  }

  /** A write without a delta: the handler stores an empty one, the applier does nothing. */
  lemma DeltaLessLeaves(s: State, sub: Str, bucket: Str, c: nat, i: nat)
    requires c <= MAX_UINT64 && i <= MAX_UINT64
    ensures var log := [Payload(OUTBOX_WRITE, [sub, bucket, FormatNat(c), FormatNat(i)])];
            && ExecAll(s, ApplierPass(log)) == s
            && Lookup(ExecAll(s, HandlerPass(log)).outbox, sub, i)
               == Some(Entry(sub, EmitSeq(EpochID(bucket, c), i), []))
  {
    hide ParseUint, FormatNat;
    var p := Payload(OUTBOX_WRITE, [sub, bucket, FormatNat(c), FormatNat(i)]);
    ParsesBack(c);
    ParsesBack(i);
    OnePass(p);
    ExecOne(s, WriteCmd(Entry(sub, EmitSeq(EpochID(bucket, c), i), [])));
  }

  // ---------------------------------------------------------------- the last relevant command decides

  /** A place in the state: one outbox slot or one compaction watermark. */
  datatype Key = Slot(sub: Str, index: nat) | Mark(sub: Str)

  datatype Content = Nothing | Item(entry: Entry) | At(pos: EmitSeq)

  function Read(s: State, k: Key): Content {
    match k
    case Slot(sub, i) => if Lookup(s.outbox, sub, i).Some? then Item(Lookup(s.outbox, sub, i).value) else Nothing
    case Mark(sub) => if sub in s.compacted then At(s.compacted[sub]) else Nothing
  }

  /** What a command leaves at a place, if it touches it. */
  function Effect(c: Cmd, k: Key): Option<Content> {
    match (c, k)
    case (WriteCmd(e), Slot(sub, i)) => if sub == e.sub && i == e.pos.index then Some(Item(e)) else None
    case (PurgeCmd(s, pos), Slot(sub, i)) => if sub == s && i <= pos.index then Some(Nothing) else None
    case (PurgeCmd(s, pos), Mark(sub)) => if sub == s then Some(At(pos)) else None
    case (WriteCmd(_), Mark(_)) => None
  }

  function LastEffect(cs: seq<Cmd>, k: Key): Option<Content> {
    if cs == [] then None
    else
      var e := Effect(cs[|cs| - 1], k);
      if e.Some? then e else LastEffect(cs[..|cs| - 1], k)
  }

  lemma {:induction false} LastEffectDecides(s: State, cs: seq<Cmd>, k: Key)
    ensures Read(ExecAll(s, cs), k) == if LastEffect(cs, k).Some? then LastEffect(cs, k).value else Read(s, k)
  {
    if cs != [] {
      LastEffectDecides(s, cs[..|cs| - 1], k);
    }
  }

  lemma {:induction false} LastEffectOfMerge(m: seq<Cmd>, a: seq<Cmd>, b: seq<Cmd>, k: Key)
    requires Interleaving(m, a, b)
    ensures LastEffect(m, k) == LastEffect(a, k) || LastEffect(m, k) == LastEffect(b, k)
    decreases |m|
  {
    if m != [] {
      var m', last := m[..|m| - 1], m[|m| - 1];
      if a != [] && a[|a| - 1] == last && Interleaving(m', a[..|a| - 1], b) {
        LastEffectOfMerge(m', a[..|a| - 1], b, k);
      } else {
        LastEffectOfMerge(m', a, b[..|b| - 1], k);
      }
    }
  }

  lemma {:induction false} ExecKeeps(s: State, cs: seq<Cmd>)
    requires WellFormed(s.outbox)
    ensures WellFormed(ExecAll(s, cs).outbox)
    ensures ExecAll(s, cs).lastAck == s.lastAck && ExecAll(s, cs).epoch == s.epoch
  {
    if cs != [] {
      ExecKeeps(s, cs[..|cs| - 1]);
    }
  }

  /** Well-formed states that read alike everywhere are equal. */
  lemma SameReadings(s: State, t: State)
    requires WellFormed(s.outbox) && WellFormed(t.outbox)
    requires forall k :: Read(s, k) == Read(t, k)
    ensures s.outbox == t.outbox && s.compacted == t.compacted
  {
    forall sub, i: nat ensures Lookup(s.outbox, sub, i) == Lookup(t.outbox, sub, i) {
      assert Read(s, Slot(sub, i)) == Read(t, Slot(sub, i));
    }
    SameLookups(s.outbox, t.outbox);
    forall sub ensures sub in s.compacted <==> sub in t.compacted
      ensures sub in s.compacted ==> s.compacted[sub] == t.compacted[sub]
    {
      assert Read(s, Mark(sub)) == Read(t, Mark(sub));
    }
  }

  lemma SameLookups(o: Outbox, p: Outbox)
    requires WellFormed(o) && WellFormed(p)
    requires forall sub, i: nat :: Lookup(o, sub, i) == Lookup(p, sub, i)
    ensures o == p
  {
    forall sub | sub in o ensures sub in p && o[sub] == p[sub] {
      var i :| i in o[sub];
      assert Lookup(o, sub, i).Some?;
      forall j: nat ensures j in o[sub] <==> j in p[sub]
        ensures j in o[sub] ==> o[sub][j] == p[sub][j]
      {
        assert Lookup(o, sub, j) == Lookup(p, sub, j);
      }
    }
    forall sub | sub in p ensures sub in o {
      var i :| i in p[sub];
      assert Lookup(p, sub, i).Some?;
    }
  }

  /** Merging two copies of a command list changes nothing. */
  lemma MergeConverges(s: State, m: seq<Cmd>, cs: seq<Cmd>)
    requires WellFormed(s.outbox) && Interleaving(m, cs, cs)
    ensures ExecAll(s, m) == ExecAll(s, cs)
  {
    ExecKeeps(s, m);
    ExecKeeps(s, cs);
    forall k ensures Read(ExecAll(s, m), k) == Read(ExecAll(s, cs), k) {
      LastEffectDecides(s, m, k);
      LastEffectDecides(s, cs, k);
      LastEffectOfMerge(m, cs, cs, k);
    }
    SameReadings(ExecAll(s, m), ExecAll(s, cs));
  }

  /** Every write in the log carries a delta, as the leader's proposals do. */
  ghost predicate DeltasPresent(log: seq<Payload>) {
    forall i :: 0 <= i < |log| && log[i].cmd == OUTBOX_WRITE && |log[i].args| >= 4 ==> |log[i].args| >= 5
  }

  lemma {:induction false} PassesAgree(log: seq<Payload>)
    requires DeltasPresent(log)
    ensures HandlerPass(log) == ApplierPass(log)
  {
    if log != [] {
      PassesAgree(log[..|log| - 1]);
    }
  }

  /** Handler pass and applier pass over one log, interleaved in any way, end with the outbox and
      the watermarks of a single pass. */
  lemma DoubleApplicationConverges(s: State, log: seq<Payload>, m: seq<Cmd>)
    requires WellFormed(s.outbox) && DeltasPresent(log)
    requires Interleaving(m, HandlerPass(log), ApplierPass(log))
    ensures ExecAll(s, m) == ExecAll(s, HandlerPass(log))
  {
    PassesAgree(log);
    MergeConverges(s, m, HandlerPass(log));
  }

  // ---------------------------------------------------------------- exactly when the passes converge

  lemma {:induction false} MergeOfNothing(m: seq<Cmd>, a: seq<Cmd>, b: seq<Cmd>, k: Key)
    requires Interleaving(m, a, b) && LastEffect(m, k) == None
    ensures LastEffect(a, k) == None && LastEffect(b, k) == None
    decreases |m|
  {
    if m != [] {
      var m', last := m[..|m| - 1], m[|m| - 1];
      if a != [] && a[|a| - 1] == last && Interleaving(m', a[..|a| - 1], b) {
        MergeOfNothing(m', a[..|a| - 1], b, k);
      } else {
        MergeOfNothing(m', a, b[..|b| - 1], k);
      }
    }
  }

  lemma {:induction false} OneAfterTheOther(a: seq<Cmd>, b: seq<Cmd>, k: Key)
    ensures Interleaving(a + b, a, b)
    ensures LastEffect(a + b, k) == if LastEffect(b, k).Some? then LastEffect(b, k) else LastEffect(a, k)
    decreases |a| + |b|
  {
    if b != [] {
      OneAfterTheOther(a, b[..|b| - 1], k);
      assert (a + b)[..|a + b| - 1] == a + b[..|b| - 1];
    } else if a != [] {
      OneAfterTheOther(a[..|a| - 1], b, k);
      assert a + b == a && (a + b)[..|a + b| - 1] == a[..|a| - 1] + b;
    }
  }

  ghost predicate AlwaysConverges(a: seq<Cmd>, b: seq<Cmd>) {
    forall s: State, m :: WellFormed(s.outbox) && Interleaving(m, a, b) ==> ExecAll(s, m) == ExecAll(s, a)
  }

  /** Wherever the second pass changes something, its last change there is the first pass's. */
  ghost predicate EndsAlike(a: seq<Cmd>, b: seq<Cmd>) {
    forall k :: LastEffect(b, k).Some? ==> LastEffect(b, k) == LastEffect(a, k)
  }

  /** Two passes always end as the first one alone exactly when they end alike at every place. */
  lemma ConvergesExactly(a: seq<Cmd>, b: seq<Cmd>)
    ensures AlwaysConverges(a, b) <==> EndsAlike(a, b)
  {
    if EndsAlike(a, b) {
      forall s: State, m | WellFormed(s.outbox) && Interleaving(m, a, b)
        ensures ExecAll(s, m) == ExecAll(s, a)
      {
        forall k ensures Read(ExecAll(s, m), k) == Read(ExecAll(s, a), k) {
          LastEffectDecides(s, m, k);
          LastEffectDecides(s, a, k);
          LastEffectOfMerge(m, a, b, k);
          if LastEffect(m, k) == None { MergeOfNothing(m, a, b, k); }
        }
        ExecKeeps(s, m);
        ExecKeeps(s, a);
        SameReadings(ExecAll(s, m), ExecAll(s, a));
      }
    }
    if AlwaysConverges(a, b) {
      var s := State(map[], map[], map[], EpochID([], 0));
      forall k | LastEffect(b, k).Some? ensures LastEffect(b, k) == LastEffect(a, k) {
        OneAfterTheOther(a, b, k);
        assert ExecAll(s, a + b) == ExecAll(s, a);
        LastEffectDecides(s, a + b, k);
        LastEffectDecides(s, a, k);
        assert Read(s, k) == Nothing;
        if LastEffect(b, k) == Some(Nothing) { RemovalSeen(a, b, k); }
      }
    }
  }

  lemma {:induction false} OnlySlotsAreEmptied(cs: seq<Cmd>, k: Key)
    requires LastEffect(cs, k) == Some(Nothing)
    ensures k.Slot?
  {
    if Effect(cs[|cs| - 1], k) == None {
      OnlySlotsAreEmptied(cs[..|cs| - 1], k);
    }
  }

  /** Starting with an entry in the slot, a removal by the second pass must be one by the first. */
  lemma RemovalSeen(a: seq<Cmd>, b: seq<Cmd>, k: Key)
    requires AlwaysConverges(a, b) && LastEffect(b, k) == Some(Nothing)
    ensures LastEffect(a, k) == Some(Nothing)
  {
    OnlySlotsAreEmptied(b, k);
    var e := Entry(k.sub, EmitSeq(EpochID([], 0), k.index), []);
    var s := State(map[k.sub := map[k.index := e]], map[], map[], EpochID([], 0));
    assert Lookup(s.outbox, k.sub, k.index) == Some(e);
    assert k.index in s.outbox[k.sub];
    OneAfterTheOther(a, b, k);
    assert ExecAll(s, a + b) == ExecAll(s, a);
    LastEffectDecides(s, a + b, k);
    LastEffectDecides(s, a, k);
  }

  // ---------------------------------------------------------------- the same, told from the log

  /** A write the handler executes with an empty delta and the applier ignores. */
  predicate DeltaLess(p: Payload) {
    p.cmd == OUTBOX_WRITE && |p.args| == 4
  }

  /** The command does something at a place. */
  predicate Touches(p: Payload, k: Key) {
    HandlerCmd(p).Some? && Effect(HandlerCmd(p).value, k).Some?
  }

  function Written(p: Payload): Entry
    requires DeltaLess(p)
  {
    Entry(p.args[0], Position(p.args), [])
  }

  function SlotOf(e: Entry): Key {
    Slot(e.sub, e.pos.index)
  }

  /** Command `i` is the last of the log at the place, of all or of those with their delta. */
  ghost predicate LastAt(log: seq<Payload>, k: Key, i: nat, carriers: bool) {
    && i < |log| && Touches(log[i], k) && (carriers ==> !DeltaLess(log[i]))
    && forall j :: i < j < |log| && Touches(log[j], k) ==> carriers && DeltaLess(log[j])
  }

  ghost predicate NoneAt(log: seq<Payload>, k: Key, carriers: bool) {
    forall j :: 0 <= j < |log| && Touches(log[j], k) ==> carriers && DeltaLess(log[j])
  }

  function Pass(log: seq<Payload>, carriers: bool): seq<Cmd> {
    if carriers then ApplierPass(log) else HandlerPass(log)
  }

  lemma PassStep(log: seq<Payload>, carriers: bool, k: Key)
    requires log != []
    ensures var p, front := log[|log| - 1], log[..|log| - 1];
            LastEffect(Pass(log, carriers), k) ==
              if Touches(p, k) && !(carriers && DeltaLess(p)) then Effect(HandlerCmd(p).value, k)
              else LastEffect(Pass(front, carriers), k)
  {
    hide ParseUint;
    var p, front := log[|log| - 1], log[..|log| - 1];
    var c := if carriers then ApplierCmd(p) else HandlerCmd(p);
    assert c == if carriers && DeltaLess(p) then None else HandlerCmd(p);
    if c.Some? {
      assert (Pass(front, carriers) + [c.value])[..|Pass(front, carriers)|] == Pass(front, carriers);
    } else {
      assert Pass(front, carriers) + [] == Pass(front, carriers);
    }
  }

  /** What a pass leaves at a place is the effect of the last command it executes there. */
  lemma {:induction false} PassEffect(log: seq<Payload>, carriers: bool, k: Key) returns (at: Option<nat>)
    ensures at.None? ==> LastEffect(Pass(log, carriers), k) == None && NoneAt(log, k, carriers)
    ensures at.Some? ==> LastAt(log, k, at.value, carriers)
    ensures at.Some? ==> HandlerCmd(log[at.value]).Some?
    ensures at.Some? ==> LastEffect(Pass(log, carriers), k) == Effect(HandlerCmd(log[at.value]).value, k)
    decreases |log|
  {
    hide LastEffect, Pass, Touches, DeltaLess;
    if log == [] {
      EmptyPass(carriers, k);
      at := None;
    } else {
      var n := |log| - 1;
      PassStep(log, carriers, k);
      if Touches(log[n], k) && !(carriers && DeltaLess(log[n])) {
        at := Some(n);
        TouchHasEffect(log[n], k);
      } else {
        at := PassEffect(log[..n], carriers, k);
      }
    }
  }

  /** There is one such command. */
  lemma LastAtUnique(log: seq<Payload>, k: Key, i: nat, j: nat, carriers: bool)
    requires LastAt(log, k, i, carriers) && LastAt(log, k, j, carriers)
    ensures i == j
  {
  }

  lemma EmptyPass(carriers: bool, k: Key)
    ensures LastEffect(Pass([], carriers), k) == None
  {
  }

  lemma TouchHasEffect(p: Payload, k: Key)
    requires Touches(p, k)
    ensures HandlerCmd(p).Some? && Effect(HandlerCmd(p).value, k).Some?
  {
  }

  lemma DeltaLessTouches(p: Payload, k: Key)
    requires DeltaLess(p)
    ensures HandlerCmd(p) == Some(WriteCmd(Written(p)))
    ensures Touches(p, k) <==> k == SlotOf(Written(p))
    ensures Effect(WriteCmd(Written(p)), SlotOf(Written(p))) == Some(Item(Written(p)))
  {
    hide ParseUint;
  }

  /** Only a write of `e` leaves `e` in a slot. */
  lemma OnlyWriteLeaves(c: Cmd, k: Key, e: Entry)
    requires Effect(c, k) == Some(Item(e))
    ensures c == WriteCmd(e)
  {
  }

  /** A delta-less write that nothing follows at its slot finds there, if any command with its delta
      came before, an earlier write of the very same entry. */
  ghost predicate DeltasHarmless(log: seq<Payload>) {
    forall i: nat, j: nat ::
      DeltaLessLast(log, i) && LastAt(log, SlotOf(Written(log[i])), j, true) ==>
        HandlerCmd(log[j]) == Some(WriteCmd(Written(log[i])))
  }

  ghost predicate DeltaLessLast(log: seq<Payload>, i: nat) {
    i < |log| && DeltaLess(log[i]) && LastAt(log, SlotOf(Written(log[i])), i, false)
  }

  /** The two passes over a log always converge exactly when its delta-less writes are harmless. */
  lemma LogConvergesExactly(log: seq<Payload>)
    ensures AlwaysConverges(HandlerPass(log), ApplierPass(log)) <==> DeltasHarmless(log)
  {
    hide AlwaysConverges, HandlerPass, ApplierPass, LastEffect, Effect, HandlerCmd, Touches, DeltaLess;
    ConvergesExactly(HandlerPass(log), ApplierPass(log));
    if DeltasHarmless(log) {
      forall k | LastEffect(ApplierPass(log), k).Some?
        ensures LastEffect(ApplierPass(log), k) == LastEffect(HandlerPass(log), k)
      {
        HarmlessAt(log, k);
      }
    }
    if EndsAlike(HandlerPass(log), ApplierPass(log)) {
      forall i: nat, j: nat | DeltaLessLast(log, i) && LastAt(log, SlotOf(Written(log[i])), j, true)
        ensures HandlerCmd(log[j]) == Some(WriteCmd(Written(log[i])))
      {
        SameEntry(log, i, j);
      }
    }
  }

  lemma SameEntry(log: seq<Payload>, i: nat, j: nat)
    requires EndsAlike(HandlerPass(log), ApplierPass(log))
    requires DeltaLessLast(log, i) && LastAt(log, SlotOf(Written(log[i])), j, true)
    ensures HandlerCmd(log[j]) == Some(WriteCmd(Written(log[i])))
  {
    hide HandlerPass, ApplierPass, LastEffect, Effect, HandlerCmd, Touches, DeltaLess;
    var e := Written(log[i]);
    var h := PassEffect(log, false, SlotOf(e));
    var a := PassEffect(log, true, SlotOf(e));
    LastAtUnique(log, SlotOf(e), i, h.value, false);
    LastAtUnique(log, SlotOf(e), j, a.value, true);
    DeltaLessTouches(log[i], SlotOf(e));
    TouchHasEffect(log[j], SlotOf(e));
    OnlyWriteLeaves(HandlerCmd(log[j]).value, SlotOf(e), e);
  }

  lemma HarmlessAt(log: seq<Payload>, k: Key)
    requires DeltasHarmless(log) && LastEffect(ApplierPass(log), k).Some?
    ensures LastEffect(ApplierPass(log), k) == LastEffect(HandlerPass(log), k)
  {
    hide HandlerPass, ApplierPass, LastEffect, Effect, HandlerCmd, Touches, DeltaLess;
    var a := PassEffect(log, true, k);
    var h := PassEffect(log, false, k);
    var i, j := h.value, a.value;
    if i != j {
      assert DeltaLess(log[i]);
      DeltaLessTouches(log[i], k);
      assert DeltaLessLast(log, i);
    }
  }

  /** A write that carries no delta makes the passes differ: the handler replaces the first entry
      by one with an empty delta, and the lagging applier brings the first one back. */
  lemma MissingDeltaDiverges(args: seq<Str>, delta: Str)
    requires |args| == 4 && delta != []
    ensures var log := [Payload(OUTBOX_WRITE, args + [delta]), Payload(OUTBOX_WRITE, args)];
            !AlwaysConverges(HandlerPass(log), ApplierPass(log))
  {
    hide ParseUint;
    var first, second := Payload(OUTBOX_WRITE, args + [delta]), Payload(OUTBOX_WRITE, args);
    var e0, e1 := Entry(args[0], Position(args), delta), Entry(args[0], Position(args), []);
    assert Position(args + [delta]) == Position(args);
    TwoRecords(first, second);
    var k := Slot(args[0], Position(args).index);
    assert [WriteCmd(e0), WriteCmd(e1)][..1] == [WriteCmd(e0)];
    assert LastEffect([WriteCmd(e0), WriteCmd(e1)], k) == Some(Item(e1))
      && LastEffect([WriteCmd(e0)], k) == Some(Item(e0));
    ConvergesExactly([WriteCmd(e0), WriteCmd(e1)], [WriteCmd(e0)]);
  }

  lemma TwoRecords(p: Payload, q: Payload)
    requires HandlerCmd(p).Some? && HandlerCmd(q).Some? && ApplierCmd(p) == HandlerCmd(p) && ApplierCmd(q) == None
    ensures HandlerPass([p, q]) == [HandlerCmd(p).value, HandlerCmd(q).value]
    ensures ApplierPass([p, q]) == [HandlerCmd(p).value]
  {
    hide HandlerCmd, ApplierCmd;
    assert [p, q][..1] == [p] && [p][..0] == [];
    assert HandlerPass([p]) == [HandlerCmd(p).value] && ApplierPass([p]) == [HandlerCmd(p).value];
  }
}
