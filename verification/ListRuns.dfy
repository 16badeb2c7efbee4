/** Whole runs of list commands: the packed deque, the flat deque and the plain list answer alike. */
module ListRuns {
  import opened Bytes
  import opened EntryCodec
  import opened PlainList
  import opened ByteLists
  import opened Deques
  import opened BasicDeques

  datatype Op =
    | LPush(x: Str)
    | RPush(x: Str)
    | LPop
    | RPop
    | LInsert(pivot: Str, x: Str, side: Side)
    | LRange(start: int, stop: int)

  datatype Reply =
    | Length(n: int)
    | Popped(r: Option<Str>)
    | Inserted(n: int, syntaxError: bool)
    | Items(items: seq<Str>)

  /** One command on the plain list. */
  function Step(s: seq<Str>, op: Op): (seq<Str>, Reply) {
    match op
    case LPush(x) => ([Norm(x)] + s, Length(|s| + 1))
    case RPush(x) => (s + [Norm(x)], Length(|s| + 1))
    case LPop => if s == [] then (s, Popped(None)) else (s[1..], Popped(Some(s[0])))
    case RPop => if s == [] then (s, Popped(None)) else (s[..|s| - 1], Popped(Some(s[|s| - 1])))
    case LInsert(pivot, x, side) =>
      (PlainList.Inserted(s, pivot, Norm(x), side), Inserted(InsertReply(s, pivot, side), s != [] && side.Neither?))
    case LRange(start, stop) => (s, Items(Range(s, start, stop)))
  }

  /** What the replies say about the list before and after: a push answers the new length, a pop the
      element it removed, a range leaves the list alone. */
  lemma StepMeans(s: seq<Str>, op: Op)
    ensures var t, reply := Step(s, op).0, Step(s, op).1;
            match op
            case LPush(x) => t == [Norm(x)] + s && reply == Length(|t|)
            case RPush(x) => t == s + [Norm(x)] && reply == Length(|t|)
            case LPop =>
              if s == [] then t == [] && reply == Popped(None)
              else reply == Popped(Some(s[0])) && [s[0]] + t == s
            case RPop =>
              if s == [] then t == [] && reply == Popped(None)
              else var x := s[|s| - 1]; reply == Popped(Some(x)) && t + [x] == s
            case LInsert(pivot, x, side) =>
              if pivot in s && !side.Neither? then reply == Inserted(|t|, false) && |t| == |s| + 1
              else t == s && reply == Inserted(-1, s != [] && side.Neither?)
            case LRange(start, stop) => t == s && reply == Items(Range(s, start, stop))
  {
    if op.LInsert? {
      InsertedNextToPivot(s, op.pivot, Norm(op.x), op.side);
    }
  }

  function FinalList(s: seq<Str>, ops: seq<Op>): seq<Str> {
    if ops == [] then s else Step(FinalList(s, ops[..|ops| - 1]), ops[|ops| - 1]).0
  }

  function Replies(s: seq<Str>, ops: seq<Op>): (r: seq<Reply>)
    ensures |r| == |ops|
  {
    if ops == [] then []
    else Replies(s, ops[..|ops| - 1]) + [Step(FinalList(s, ops[..|ops| - 1]), ops[|ops| - 1]).1]
  }

  predicate Stores(op: Op) {
    op.LPush? || op.RPush? || op.LInsert?
  }

  /** A stored string fits the header. */
  predicate Fits(op: Op) {
    Stores(op) ==> |op.x| < MAX_STRING
  }

  /** The strings on which the packed deque can panic: a padded number of 21 or more bytes, or an
      entry large enough for a left push to compute a capacity below its length. */
  predicate Hazard(op: Op)
    requires Fits(op)
  {
    Stores(op) && (!SizeAgrees(op.x) || (!op.RPush? && EntrySize(op.x) > MIN_NODE_SIZE + 1))
  }

  /** The command panics on this deque. */
  ghost predicate Panics(q: Deque, op: Op)
    requires q.Valid() && Fits(op)
    reads q, q.list, q.list.spine
  {
    match op
    case LPush(x) => !SizeAgrees(x) || MIN_NODE_SIZE < q.leftIdx < EntrySize(x)
    case RPush(x) => !SizeAgrees(x)
    case LInsert(pivot, x, side) =>
      && InsertReply(q.Contents(), pivot, side) != -1
      && (!SizeAgrees(x)
          || (side.Before? && q.Contents()[0] == pivot && MIN_NODE_SIZE < q.leftIdx < EntrySize(x)))
    case _ => false
  }

  /** Whether a command is about to panic. */
  method TestPanics(q: Deque, op: Op) returns (panics: bool)
    requires q.Valid() && Fits(op)
    ensures panics <==> Panics(q, op)
    ensures panics ==> Hazard(op)
  {
    hide EntrySize, SizeAgrees, FirstIndex, q.Shape;
    match op
    case LPush(x) =>
      panics := !SizeAgrees(x) || MIN_NODE_SIZE < q.leftIdx < EntrySize(x);
    case RPush(x) =>
      panics := !SizeAgrees(x);
    case LInsert(pivot, x, side) =>
      panics := false;
      if q.length > 0 && !side.Neither? {
        var found, _, c, _, _ := q.FindPivot(pivot);
        panics := found
          && (!SizeAgrees(x) || (side.Before? && c.traversed == 1 && MIN_NODE_SIZE < q.leftIdx < EntrySize(x)));
        FirstIndexZero(q.Contents(), pivot);
      }
    case _ =>
      panics := false;
  }

  lemma FirstIndexZero(s: seq<Str>, x: Str)
    requires s != []
    ensures FirstIndex(s, x) == 0 <==> s[0] == x
  {
  }

  /** The string has one of the few lengths that leave a spare back-length byte. */
  predicate MayStale(op: Op)
    requires Fits(op)
  {
    Stores(op) && LeavesSpareByte(op.x)
  }

  /** The command leaves no stale byte in the back-length it writes. */
  ghost predicate CleanFor(q: Deque, op: Op)
    requires q.Valid() && Fits(op)
    reads q, q.list, q.list.spine
  {
    match op
    case LPush(x) => q.LeftClean(x)
    case RPush(x) => q.RightClean(x)
    case LInsert(pivot, x, side) => q.InsertClean(pivot, x, side)
    case _ => true
  }

  /** Whether a command is about to leave a stale byte: only one that stores a string of the few
      lengths with a spare back-length byte can. */
  method TestClean(q: Deque, op: Op) returns (clean: bool)
    requires q.Valid() && Fits(op)
    ensures clean <==> CleanFor(q, op)
    ensures !clean ==> MayStale(op)
  {
    hide EntrySize, LeavesSpareByte, q.Shape, q.LeftClean, q.RightClean, q.InsertClean;
    match op
    case LPush(x) =>
      clean := q.TestLeftClean(x);
      if !LeavesSpareByte(x) { q.LeftCleanWithoutSpare(x); }
    case RPush(x) =>
      clean := q.TestRightClean(x);
      if !LeavesSpareByte(x) { q.RightCleanWithoutSpare(x); }
    case LInsert(pivot, x, side) =>
      clean := q.TestInsertClean(pivot, x, side);
      if !LeavesSpareByte(x) { q.InsertCleanWithoutSpare(pivot, x, side); }
    case _ =>
      clean := true;
  }

  method Apply(q: Deque, op: Op) returns (panicked: bool, reply: Reply)
    requires q.Valid() && Fits(op)
    modifies q, q.list, q.list.spine
    ensures panicked <==> old(Panics(q, op))
    ensures !panicked && old(CleanFor(q, op)) ==>
              q.Valid() && q.NodesKept() && (q.Contents(), reply) == Step(old(q.Contents()), op)
  {
    hide EntrySize, SizeAgrees, Norm, LeavesSpareByte, q.Shape, q.LeftClean, q.RightClean, q.InsertClean;
    panicked, reply := false, Length(0);
    if op.LPush? || op.RPush? { InsertAtEnds(q.Contents(), Norm(op.x)); }
    match op
    case LPush(x) =>
      panicked := q.PushFront(x);
      reply := Length(q.length);
    case RPush(x) =>
      panicked := q.PushBack(x);
      reply := Length(q.length);
    case LPop =>
      var r := q.LPop();
      reply := Popped(r);
    case RPop =>
      var r := q.RPop();
      reply := Popped(r);
    case LInsert(pivot, x, side) =>
      var n, syntaxError;
      n, syntaxError, panicked := q.LInsert(pivot, x, side);
      reply := Inserted(n, syntaxError);
    case LRange(start, stop) =>
      var items := q.LRange(start, stop);
      reply := Items(items);
  }

  method ApplyBasic(q: DequeBasic, op: Op) returns (reply: Reply)
    requires q.Valid() && Fits(op)
    modifies q
    ensures q.Valid() && (q.elems, reply) == Step(old(q.elems), op)
  {
    hide Norm, DequeBasic.Valid, PlainList.Inserted, Range;
    if op.LPush? || op.RPush? { InsertAtEnds(q.elems, Norm(op.x)); }
    match op
    case LPush(x) =>
      q.LPush(x);
      reply := Length(q.length);
    case RPush(x) =>
      q.RPush(x);
      reply := Length(q.length);
    case LPop =>
      var r := q.LPop();
      reply := Popped(r);
    case RPop =>
      var r := q.RPop();
      reply := Popped(r);
    case LInsert(pivot, x, side) =>
      var n, syntaxError := q.LInsert(pivot, x, side);
      reply := Inserted(n, syntaxError);
    case LRange(start, stop) =>
      var items := q.LRange(start, stop);
      reply := Items(items);
  }

  /** Runs the commands on both deques from empty. Both give the plain list's replies up to the
      end, or to a command on which the packed deque panics or leaves a stale back-length byte. */
  method RunBoth(ops: seq<Op>) returns (q: Deque, done: nat, replies: seq<Reply>, basicReplies: seq<Reply>)
    requires forall i :: 0 <= i < |ops| ==> Fits(ops[i])
    ensures done <= |ops| && q.Valid() && q.Contents() == FinalList([], ops[..done])
    ensures done < |ops| ==> Panics(q, ops[done]) || !CleanFor(q, ops[done])
    ensures done < |ops| ==> Hazard(ops[done]) || MayStale(ops[done])
    ensures replies == basicReplies == Replies([], ops[..done])
  {
    hide Step, Fits, Hazard, Deque.Valid, DequeBasic.Valid, CleanFor, MayStale, Panics;
    q := new Deque();
    var basic := new DequeBasic();
    done, replies, basicReplies := 0, [], [];
    while done < |ops|
      invariant done <= |ops| && q.Valid() && basic.Valid()
      invariant fresh(q) && fresh(q.list) && fresh(basic)
      invariant forall i :: 0 <= i < |q.list.spine| ==> fresh(q.list.spine[i])
      invariant q.Contents() == basic.elems == FinalList([], ops[..done])
      invariant replies == basicReplies == Replies([], ops[..done])
    {
      ghost var nodes := q.list.spine;
      var clean := TestClean(q, ops[done]);
      var panics := TestPanics(q, ops[done]);
      if !clean || panics {
        return;
      }
      var _, reply := Apply(q, ops[done]);
      assert forall n :: n in nodes ==> fresh(n);
      assert forall n :: n in q.list.spine ==> n in nodes || fresh(n);
      assert forall i :: 0 <= i < |q.list.spine| ==> q.list.spine[i] in q.list.spine;
      var basicReply := ApplyBasic(basic, ops[done]);
      assert ops[..done + 1][..done] == ops[..done];
      replies, basicReplies := replies + [reply], basicReplies + [basicReply];
      done := done + 1;
    }
  }
}
