/** The packed deque: entries in linked byte buffers, with a left cursor into the head buffer. */
module Deques {
  import opened Bytes
  import opened Varint
  import opened EntryCodec
  import opened ByteLists
  import opened PlainList
  import opened Sequences

  const MIN_NODE_SIZE: nat := 256

  /** The bytes of `n` from `start` on are exactly the entries of `g`. */
  ghost predicate NodeHolds(n: ByteListNode, start: nat, g: seq<Str>)
    reads n`mem, n`len
  {
    start <= n.len <= |n.mem| && AllStored(g) && n.mem[start..n.len] == EncodeAll(g)
  }

  /** Every node holds its group; only the first may start behind popped bytes. */
  ghost predicate Packed(spine: seq<ByteListNode>, start: nat, gs: seq<seq<Str>>)
    reads spine`mem, spine`len
  {
    && |spine| == |gs|
    && forall i :: 0 <= i < |gs| ==> NodeHolds(spine[i], if i == 0 then start else 0, gs[i])
  }

  lemma PackedLength(spine: seq<ByteListNode>, start: nat, gs: seq<seq<Str>>)
    requires Packed(spine, start, gs)
    ensures |spine| == |gs|
  {
  }

  lemma PackedNone(gs: seq<seq<Str>>)
    requires gs == []
    ensures Packed([], 0, gs)
  {
  }

  lemma PackedSplit(spine: seq<ByteListNode>, start: nat, gs: seq<seq<Str>>, k: nat)
    requires Packed(spine, start, gs) && k < |gs|
    ensures Packed(spine[..k], start, gs[..k])
    ensures NodeHolds(spine[k], if k == 0 then start else 0, gs[k])
    ensures Packed(spine[k + 1..], 0, gs[k + 1..])
  {
    hide NodeHolds;
  }

  lemma PackedJoin(a: seq<ByteListNode>, start: nat, ga: seq<seq<Str>>, b: seq<ByteListNode>, gb: seq<seq<Str>>)
    requires Packed(a, start, ga) && Packed(b, if a == [] then start else 0, gb)
    ensures Packed(a + b, start, ga + gb)
  {
    hide NodeHolds;
  }

  lemma PackedSingle(n: ByteListNode, start: nat, g: seq<Str>)
    ensures Packed([n], start, [g]) <==> NodeHolds(n, start, g)
  {
    hide NodeHolds;
    assert [n][0] == n && [g][0] == g;
  }

  lemma PackedFirst(n: ByteListNode, start: nat, g: seq<Str>, b: seq<ByteListNode>, gb: seq<seq<Str>>)
    requires NodeHolds(n, start, g) && Packed(b, 0, gb)
    ensures Packed([n] + b, start, [g] + gb)
  {
    hide NodeHolds, Packed;
    PackedSingle(n, start, g);
    PackedJoin([n], start, [g], b, gb);
  }

  lemma PackedLast(a: seq<ByteListNode>, start: nat, ga: seq<seq<Str>>, n: ByteListNode, g: seq<Str>)
    requires Packed(a, start, ga) && NodeHolds(n, if a == [] then start else 0, g)
    ensures Packed(a + [n], start, ga + [g])
  {
    hide NodeHolds, Packed;
    PackedSingle(n, if a == [] then start else 0, g);
    PackedJoin(a, start, ga, [n], [g]);
  }

  /** A node put in front of node `i > 0`. */
  lemma PackedInsert(spine: seq<ByteListNode>, start: nat, gs: seq<seq<Str>>, i: nat, n: ByteListNode, g: seq<Str>)
    requires Packed(spine, start, gs) && 0 < i < |gs| && NodeHolds(n, 0, g)
    ensures |spine| == |gs| && Packed(spine[..i] + [n] + spine[i..], start, gs[..i] + [g] + gs[i..])
  {
    hide NodeHolds;
    PackedSplit(spine, start, gs, i);
    PackedLast(spine[..i], start, gs[..i], n, g);
    PackedFirst(spine[i], 0, gs[i], spine[i + 1..], gs[i + 1..]);
    TakeDrop(spine, i);
    TakeDrop(gs, i);
    PackedJoin(spine[..i] + [n], start, gs[..i] + [g], spine[i..], gs[i..]);
  }

  /** Node `i`, which keeps group `g2`, preceded by two new nodes. */
  lemma PackedBreak(spine: seq<ByteListNode>, start: nat, gs: seq<seq<Str>>, i: nat,
                    n0: ByteListNode, g0: seq<Str>, n1: ByteListNode, g1: seq<Str>, g2: seq<Str>)
    requires i < |gs| == |spine| && Packed(spine[..i], start, gs[..i]) && (i == 0 ==> start == 0)
    requires NodeHolds(n0, 0, g0) && NodeHolds(n1, 0, g1) && NodeHolds(spine[i], 0, g2)
    requires Packed(spine[i + 1..], 0, gs[i + 1..])
    ensures Packed(spine[..i] + [n0, n1] + spine[i..], start, gs[..i] + [g0, g1, g2] + gs[i + 1..])
  {
    hide NodeHolds, Packed;
    PackedFirst(spine[i], 0, g2, spine[i + 1..], gs[i + 1..]);
    TakeDrop(spine, i);
    PackedFirst(n1, 0, g1, spine[i..], [g2] + gs[i + 1..]);
    PackedFirst(n0, 0, g0, [n1] + spine[i..], [g1] + ([g2] + gs[i + 1..]));
    PackedJoin(spine[..i], start, gs[..i], [n0] + ([n1] + spine[i..]), [g0] + ([g1] + ([g2] + gs[i + 1..])));
    assert spine[..i] + ([n0] + ([n1] + spine[i..])) == spine[..i] + [n0, n1] + spine[i..];
    assert gs[..i] + ([g0] + ([g1] + ([g2] + gs[i + 1..]))) == gs[..i] + [g0, g1, g2] + gs[i + 1..];
  }

  lemma NonEmptySplit(gs: seq<seq<Str>>, i: nat)
    requires NonEmptyGroups(gs) && i <= |gs|
    ensures NonEmptyGroups(gs[..i]) && NonEmptyGroups(gs[i..])
  {
  }

  lemma NonEmptyBreak(gs: seq<seq<Str>>, i: nat, a: seq<Str>, b: seq<Str>, c: seq<Str>)
    requires NonEmptyGroups(gs) && i < |gs| && a != [] && b != [] && c != []
    ensures NonEmptyGroups(gs[..i] + [a, b, c] + gs[i + 1..])
  {
  }

  lemma NonEmptyShrink(gs: seq<seq<Str>>)
    requires gs != [] && NonEmptyGroups(gs)
    ensures var front, g := gs[..|gs| - 1], gs[|gs| - 1];
            NonEmptyGroups(front) && g != [] && (|g| > 1 ==> NonEmptyGroups(front + [g[..|g| - 1]]))
  {
  }

  lemma NonEmptyCut(gs: seq<seq<Str>>, i: nat, g0: seq<Str>, g1: seq<Str>)
    requires NonEmptyGroups(gs) && i < |gs| && g0 != [] && g1 != []
    ensures NonEmptyGroups(gs[..i] + [g0]) && NonEmptyGroups([g1] + gs[i + 1..])
  {
  }

  lemma NonEmptyInsert(gs: seq<seq<Str>>, i: nat, g: seq<Str>)
    requires NonEmptyGroups(gs) && i <= |gs| && g != []
    ensures NonEmptyGroups(gs[..i] + [g] + gs[i..])
  {
  }

  lemma NonEmptySnoc(gs: seq<seq<Str>>, g: seq<Str>)
    requires NonEmptyGroups(gs)
    ensures g != [] ==> NonEmptyGroups(gs + [g])
  {
  }

  lemma NonEmptyJoin(a: seq<seq<Str>>, b: seq<seq<Str>>)
    requires NonEmptyGroups(a) && NonEmptyGroups(b)
    ensures NonEmptyGroups(a + b)
  {
  }

  lemma NonEmptyCons(g: seq<Str>, gs: seq<seq<Str>>)
    requires NonEmptyGroups(gs) && g != []
    ensures NonEmptyGroups([g] + gs)
  {
  }

  lemma NoSpareClean(x: Str)
    requires |x| < MAX_STRING && !LeavesSpareByte(x)
    ensures forall slot :: SpareClean(x, slot)
  {
  }

  lemma PushedRightFlat(gs: seq<seq<Str>>, gs': seq<seq<Str>>, e: Str)
    requires NonEmptyGroups(gs)
    requires gs' == gs + [[e]] || (|gs| > 0 && gs' == gs[..|gs| - 1] + [gs[|gs| - 1] + [e]])
    ensures Flat(gs') == Flat(gs) + [e] && NonEmptyGroups(gs') && |gs'| >= |gs|
  {
    hide Flat, NonEmptyGroups;
    FlatSnoc(gs, [e]);
    NonEmptyPush(gs, e);
    if |gs| > 0 {
      FlatGrow(gs, e);
    }
  }

  lemma NonEmptyPush(gs: seq<seq<Str>>, e: Str)
    requires NonEmptyGroups(gs)
    ensures NonEmptyGroups(gs + [[e]])
    ensures |gs| > 0 ==> NonEmptyGroups(gs[..|gs| - 1] + [gs[|gs| - 1] + [e]])
  {
  }

  ghost predicate NonEmptyGroups(gs: seq<seq<Str>>) {
    forall i :: 0 <= i < |gs| ==> gs[i] != []
  }

  /** Fills the start of an empty node; `panicked` is the slice panic of an undersized slot. */
  method WriteFirstEntry(n: ByteListNode, x: Str) returns (panicked: bool)
    requires |x| < MAX_STRING && EntrySize(x) <= |n.mem| && n.mem == Zeros(|n.mem|)
    modifies n`mem, n`len
    ensures panicked <==> !SizeAgrees(x)
    ensures !panicked ==> NodeHolds(n, 0, [Norm(x)])
    ensures n.len == EntrySize(x) && |n.mem| == old(|n.mem|)
  {
    hide EncodeInPlace, EncodeEntry, EntrySize, Norm, SizeAgrees, SpareClean, Stored, EncodeAll;
    var entrySize := EntrySize(x);
    n.len := entrySize;
    var slot := n.mem[..entrySize];
    assert slot == Zeros(entrySize);
    ZeroSlotClean(x, entrySize);
    PushedEntry(x, slot);
    var enc := EncodeInPlace(x, slot);
    if enc.None? {
      return true;
    }
    n.mem := enc.value + n.mem[entrySize..];
    assert n.mem[0..entrySize] == enc.value;
    PackedOne(Norm(x));
    return false;
  }

  /** The bytes an entry behind the last one is written over: zeros in a grown buffer. */
  function Slot(mem: Str, len: nat, x: Str): (slot: Str)
    requires |x| < MAX_STRING
    ensures |slot| == EntrySize(x)
  {
    if |mem| < len + EntrySize(x) then Zeros(EntrySize(x)) else mem[len..len + EntrySize(x)]
  }

  /** The bytes in front stay and the encoder's follow, whatever the slot held. */
  ghost predicate WrittenBehind(mem: Str, len: nat, x: Str, mem': Str, len': nat)
    requires |x| < MAX_STRING
  {
    && len <= len' <= |mem'| && len <= |mem| && mem'[..len] == mem[..len]
    && EncodeInPlace(x, Slot(mem, len, x)) == Some(mem'[len..len'])
  }

  /** Writes an entry behind the last one: into a grown buffer when the capacity is too small,
      otherwise over whatever bytes the spare capacity holds. */
  method AppendEntry(n: ByteListNode, x: Str, ghost start: nat, ghost g: seq<Str>) returns (panicked: bool)
    requires |x| < MAX_STRING && NodeHolds(n, start, g)
    modifies n`mem, n`len
    ensures panicked <==> !SizeAgrees(x)
    ensures !panicked ==>
              && n.len == old(n.len) + EntrySize(x)
              && |n.mem| == (if old(|n.mem| - n.len) < EntrySize(x) then n.len else old(|n.mem|))
    ensures !panicked ==> WrittenBehind(old(n.mem), old(n.len), x, n.mem, n.len)
    ensures !panicked && old(NodeClean(n, x)) ==> NodeHolds(n, start, g + [Norm(x)])
  {
    hide EncodeInPlace, EncodeEntry, EntrySize, Norm, SizeAgrees, SpareClean, Stored, EncodeAll;
    var entrySize := EntrySize(x);
    var oriLen := n.len;
    var slot := Slot(n.mem, oriLen, x);
    ZeroSlotClean(x, entrySize);
    PushedEntry(x, slot);
    var enc := EncodeInPlace(x, slot);
    if enc.None? {
      return true;
    }
    PackedAppend(g, Norm(x));
    ghost var was := n.mem[start..oriLen];
    if |n.mem| - oriLen < entrySize {
      n.mem := n.mem[..oriLen] + enc.value;
    } else {
      n.mem := n.mem[..oriLen] + enc.value + n.mem[oriLen + entrySize..];
    }
    n.len := oriLen + entrySize;
    assert n.mem[..oriLen] == old(n.mem[..n.len]) && n.mem[oriLen..n.len] == enc.value;
    assert n.mem[start..n.len] == was + enc.value;
    return false;
  }

  /** Writes an entry before the first one: over the popped bytes when they suffice, otherwise into
      a new buffer. `panicked` also covers a capacity computed below the length. */
  method PrependEntry(n: ByteListNode, x: Str, at: nat, ghost g: seq<Str>)
    returns (panicked: bool, newAt: nat)
    requires |x| < MAX_STRING && at > 0 && NodeHolds(n, at, g)
    modifies n`mem, n`len
    ensures panicked <==> !SizeAgrees(x) || MIN_NODE_SIZE < at < EntrySize(x)
    ensures !panicked ==> newAt == CursorAfterPush(at, EntrySize(x))
    ensures !panicked && SlotClean(old(n.mem), at, x) ==> NodeHolds(n, newAt, [Norm(x)] + g)
  {
    hide EncodeInPlace, EncodeEntry, EntrySize, Norm, SizeAgrees, SpareClean, Stored, EncodeAll;
    var entrySize := EntrySize(x);
    newAt := 0;
    if at >= entrySize {
      newAt := at - entrySize;
      var slot := n.mem[newAt..at];
      PushedEntry(x, slot);
      var enc := EncodeInPlace(x, slot);
      if enc.None? {
        return true, 0;
      }
      ghost var live := n.mem[at..n.len];
      n.mem := n.mem[..newAt] + enc.value + n.mem[at..];
      assert n.mem[newAt..n.len] == enc.value + live;
    } else {
      var capacity := entrySize + MIN_NODE_SIZE - at;
      if capacity < entrySize {
        return true, 0;
      }
      ZeroSlotClean(x, entrySize);
      PushedEntry(x, Zeros(entrySize));
      var enc := EncodeInPlace(x, Zeros(entrySize));
      if enc.None? {
        return true, 0;
      }
      var newBuf := enc.value + n.mem[at..n.len];
      var slack: nat :| slack >= 0; // how far append rounds a grown capacity up is the runtime's choice
      n.mem := newBuf + Zeros(if |newBuf| <= capacity then capacity - |newBuf| else slack);
      n.len := |newBuf|;
      assert n.mem[0..n.len] == newBuf;
    }
    PackedPrepend(Norm(x), g);
    return false, newAt;
  }

  predicate SlotClean(mem: Str, at: nat, x: Str)
    requires |x| < MAX_STRING && at <= |mem|
  {
    EntrySize(x) <= at ==> SpareClean(x, mem[at - EntrySize(x)..at])
  }

  /** Puts an entry at the very end of an empty node, to be filled leftwards. */
  method WriteLastEntry(n: ByteListNode, x: Str) returns (panicked: bool)
    requires |x| < MAX_STRING && EntrySize(x) <= |n.mem| && n.mem == Zeros(|n.mem|)
    modifies n`mem, n`len
    ensures panicked <==> !SizeAgrees(x)
    ensures n.len == |n.mem| == old(|n.mem|)
    ensures !panicked ==> NodeHolds(n, n.len - EntrySize(x), [Norm(x)])
  {
    hide EncodeInPlace, EncodeEntry, EntrySize, Norm, SizeAgrees, SpareClean, Stored, EncodeAll;
    n.len := |n.mem|;
    var at := n.len - EntrySize(x);
    var slot := n.mem[at..];
    assert slot == Zeros(EntrySize(x));
    ZeroSlotClean(x, EntrySize(x));
    PushedEntry(x, slot);
    var enc := EncodeInPlace(x, slot);
    if enc.None? {
      return true;
    }
    n.mem := n.mem[..at] + enc.value;
    assert n.mem[at..n.len] == enc.value;
    PackedOne(Norm(x));
    return false;
  }

  /** Scans the back-length from the right end, decodes the last entry and cuts it off. */
  method RemoveLastEntry(n: ByteListNode, ghost start: nat, ghost g: seq<Str>) returns (x: Str)
    requires NodeHolds(n, start, g) && g != []
    modifies n`len
    ensures x == g[|g| - 1] && NodeHolds(n, start, g[..|g| - 1])
    ensures start <= n.len < old(n.len) <= |n.mem| && (n.len == start <==> |g| == 1)
  {
    hide Stored, Kept, EncodeAll, DecodeEntry, BackFieldStart, RevValue;
    var buf := n.mem[..n.len];
    LastOfPacked(n.mem[..start], g);
    assert buf == n.mem[..start] + EncodeAll(g);
    var backlenStartIdx := ScanBackField(buf);
    var backlen := DecodeUIntRev(buf[backlenStartIdx..]);
    var entryStartIdx := backlenStartIdx - backlen;
    x := DecodeEntry(buf[entryStartIdx..backlenStartIdx]).value.0;
    n.len := entryStartIdx;
    assert buf[..entryStartIdx][start..] == n.mem[start..n.len];
  }

  lemma HoldsSuffix(n: ByteListNode, start: nat, g: seq<Str>, j: nat)
    requires NodeHolds(n, start, g) && j <= |g|
    ensures AllStored(g[..j])
    ensures NodeHolds(n, start + |EncodeAll(g[..j])|, g[j..])
    ensures start + |EncodeAll(g[..j])| <= n.len
    ensures n.mem[start..start + |EncodeAll(g[..j])|] == EncodeAll(g[..j])
  {
    hide Stored, EncodeAll;
    EncodeAllAppend(g[..j], g[j..]);
    TakeDropAt(g, j);
    SliceDrop(n.mem, start, n.len, |EncodeAll(g[..j])|);
    SliceTake(n.mem, start, n.len, |EncodeAll(g[..j])|);
  }

  lemma HoldsLength(n: ByteListNode, start: nat, g: seq<Str>)
    requires NodeHolds(n, start, g)
    ensures AllStored(g) && n.len == start + |EncodeAll(g)| && n.len <= |n.mem| && EncodeAll([]) == []
  {
  }

  /** Copies the entries before byte `at` into a new node and slices them off the old one. */
  method MoveFront(n: ByteListNode, newNode: ByteListNode, at: nat, start: nat, ghost g: seq<Str>, ghost j: nat)
    requires n != newNode && NodeHolds(n, start, g) && j <= |g| && at == start + |EncodeAll(g[..j])|
    modifies n`mem, n`len, newNode`mem, newNode`len
    ensures NodeHolds(newNode, 0, g[..j]) && NodeHolds(n, 0, g[j..])
  {
    hide Stored, EncodeAll;
    HoldsSuffix(n, start, g, j);
    var slack: nat :| slack >= 0; // append's rounding of the copy's capacity
    newNode.mem := n.mem[start..at] + Zeros(slack);
    newNode.len := at - start;
    Halves(n.mem[start..at], Zeros(slack));
    assert newNode.mem[0..newNode.len] == newNode.mem[..newNode.len];
    ghost var mem := n.mem;
    n.mem := n.mem[at..];
    n.len := n.len - at;
    assert n.mem[0..n.len] == mem[at..at + n.len];
  }

  /** Copies the entries from byte `at` on into a new node and cuts them off the old one; their
      bytes stay behind in its spare capacity. */
  method MoveBack(n: ByteListNode, newNode: ByteListNode, at: nat, ghost start: nat, ghost g: seq<Str>, ghost j: nat)
    requires n != newNode && NodeHolds(n, start, g) && j <= |g| && at == start + |EncodeAll(g[..j])|
    modifies n`len, newNode`mem, newNode`len
    ensures NodeHolds(n, start, g[..j]) && NodeHolds(newNode, 0, g[j..]) && n.len == at
  {
    hide Stored, EncodeAll;
    HoldsSuffix(n, start, g, j);
    var slack: nat :| slack >= 0;
    newNode.mem := n.mem[at..n.len] + Zeros(slack);
    newNode.len := n.len - at;
    Halves(n.mem[at..n.len], Zeros(slack));
    assert newNode.mem[0..newNode.len] == newNode.mem[..newNode.len];
    n.len := at;
  }

  /** Decodes the first entry of a node, and how many bytes it takes. */
  method FirstEntry(n: ByteListNode, at: nat, ghost g: seq<Str>) returns (x: Str, entryLen: nat)
    requires NodeHolds(n, at, g) && g != []
    ensures x == g[0] && entryLen == |EncodeEntry(g[0])| && NodeHolds(n, at + entryLen, g[1..])
    ensures at + entryLen == n.len <==> |g| == 1
  {
    hide Stored, Kept, DecodeEntry, EncodeEntry, EncodeAll;
    FirstOfPacked(g);
    var r := DecodeEntry(n.mem[at..n.len]).value;
    SliceDrop(n.mem, at, n.len, r.1);
    return r.0, r.1;
  }

  /** No stale byte lands in a spare back-length byte when `x` is written from byte `at` on. */
  predicate CleanAt(mem: Str, at: nat, x: Str)
    requires |x| < MAX_STRING
  {
    at + EntrySize(x) <= |mem| ==> SpareClean(x, mem[at..at + EntrySize(x)])
  }

  /** The same for the spare capacity of a node. */
  predicate NodeClean(n: ByteListNode, x: Str)
    requires |x| < MAX_STRING
    reads n`mem, n`len
  {
    CleanAt(n.mem, n.len, x)
  }

  /** Where a left push leaves the cursor. */
  function CursorAfterPush(at: nat, size: nat): nat {
    if at >= size then at - size
    else if at > 0 || size > MIN_NODE_SIZE then 0
    else MIN_NODE_SIZE - size
  }

  /** Where an iteration stands: in front of entry `bufIndex` of `node`. */
  datatype Cursor = Cursor(node: ByteListNode?, traversed: nat, bufIndex: nat)

  class Deque {
    var length: int
    const list: ByteList
    var leftIdx: nat
    /** The elements of each node; together they are the list. */
    ghost var groups: seq<seq<Str>>

    constructor ()
      ensures Valid() && groups == [] && Contents() == [] && fresh(list) && list.spine == []
    {
      length := 0;
      leftIdx := 0;
      groups := [];
      list := new ByteList(MIN_NODE_SIZE);
    }

    /** A deque put together from its parts. */
    constructor Of(length: int, list: ByteList, leftIdx: nat, ghost groups: seq<seq<Str>>)
      ensures this.length == length && this.list == list && this.leftIdx == leftIdx && this.groups == groups
    {
      this.length := length;
      this.list := list;
      this.leftIdx := leftIdx;
      this.groups := groups;
    }

    ghost function Contents(): seq<Str>
      reads this
    {
      Flat(groups)
    }

    /** The linked buffers decode to the groups. A head without elements is possible only alone,
        with its popped bytes still in front of the cursor and capacity behind it. */
    ghost predicate Shape()
      reads this, list, list.spine
    {
      && list.Valid()
      && list.bufLen == MIN_NODE_SIZE
      && (list.spine == [] ==> leftIdx == 0)
      && Packed(list.spine, leftIdx, groups)
      && (NonEmptyGroups(groups) || Drained())
    }

    ghost predicate Drained()
      reads this, list, list.spine
    {
      groups == [[]] && leftIdx > 0 && |list.spine| == 1 && list.spine[0].len < |list.spine[0].mem|
    }

    ghost predicate Valid()
      reads this, list, list.spine
    {
      && Shape()
      && length == |Contents()|
      && list.size == NODE_BYTES * |list.spine|
    }

    /** No stale byte lands in a spare back-length byte when `x` is written left of the cursor. */
    ghost predicate LeftClean(x: Str)
      requires |x| < MAX_STRING && Shape()
      reads this, list, list.spine
    {
      list.head != null ==> SlotClean(list.head.mem, leftIdx, x)
    }

    /** The same for a write behind the last entry. */
    ghost predicate RightClean(x: Str)
      requires |x| < MAX_STRING && Shape()
      reads this, list, list.spine
    {
      list.tail != null && list.tail.len < |list.tail.mem| ==> NodeClean(list.tail, x)
    }

    /** What a push on the right changes: the last group grows, or a new node holds the element. */
    twostate predicate PushedRight(e: Str)
      reads this, list, list.spine
    {
      Shape() && LinkedRight(e)
    }

    /** The links and counters after a push on the right, whatever bytes it wrote. */
    twostate predicate LinkedRight(e: Str)
      reads this, list, list.spine
    {
      var spine, gs := old(list.spine), old(groups);
      && list.Valid() && list.bufLen == MIN_NODE_SIZE
      && (|| (list.spine == spine && |gs| > 0 && groups == gs[..|gs| - 1] + [gs[|gs| - 1] + [e]])
          || (list.tail != null && fresh(list.tail) && list.spine == spine + [list.tail] && groups == gs + [[e]]))
      && leftIdx == old(leftIdx)
      && length == old(length) + 1
      && list.size - old(list.size) == NODE_BYTES * (|list.spine| - |spine|)
    }

    /** A push into spare capacity leaves the encoder's bytes in the tail, clean or not. */
    twostate predicate WroteInTail(x: Str, panicked: bool)
      requires |x| < MAX_STRING && old(list.tail) != null
      reads this, list, Just(list.tail)
    {
      && list.tail == old(list.tail) && list.spine == old(list.spine) && leftIdx == old(leftIdx)
      && (!panicked ==> WrittenBehind(old(list.tail.mem), old(list.tail.len), x, list.tail.mem, list.tail.len))
    }

    /** RPUSH. A list that does not decode to its groups is pushed to only behind a full tail. */
    method RPush(x: Str) returns (panicked: bool)
      requires list.Valid() && list.bufLen == MIN_NODE_SIZE && |x| < MAX_STRING
      requires Shape() || list.tail == null || list.tail.len == |list.tail.mem|
      modifies this, list, Just(list.tail)
      ensures panicked <==> !SizeAgrees(x)
      ensures !panicked ==> LinkedRight(Norm(x)) && (old(Shape() && RightClean(x)) ==> PushedRight(Norm(x)))
      ensures old(list.tail != null && list.tail.len < |list.tail.mem|) ==> WroteInTail(x, panicked)
      ensures old(list.tail == null) ==> list.tail != null && |list.tail.mem| >= MIN_NODE_SIZE
      ensures old(list.tail != null && list.tail.len == |list.tail.mem|) ==>
                old(list.tail).mem == old(list.tail.mem) && old(list.tail).len == old(list.tail.len)
    {
      hide SizeAgrees, Norm, LinkedRight, NodeClean, Chain, WroteInTail;
      if list.tail == null || list.tail.len == |list.tail.mem| {
        panicked := RPushNewNode(x);
      } else {
        panicked := RPushInTail(x);
      }
    }

    method RPushNewNode(x: Str) returns (panicked: bool)
      requires list.Valid() && list.bufLen == MIN_NODE_SIZE && |x| < MAX_STRING
      requires list.tail == null || list.tail.len == |list.tail.mem|
      modifies this, list, Just(list.tail)`next
      ensures panicked <==> !SizeAgrees(x)
      ensures !panicked ==> LinkedRight(Norm(x)) && (old(Shape()) ==> PushedRight(Norm(x)))
      ensures list.tail != null && |list.tail.mem| >= MIN_NODE_SIZE
    {
      hide EntrySize, Norm, SizeAgrees, NodeHolds, Packed, Flat, Chain;
      ghost var spine, gs, shaped := list.spine, groups, Shape();
      panicked := NewTail(x);
      if !panicked && shaped {
        PackedLast(spine, leftIdx, gs, list.tail, [Norm(x)]);
      }
      groups := gs + [[Norm(x)]];
      length := length + 1;
    }

    /** A new last node with `x` at its start. */
    method NewTail(x: Str) returns (panicked: bool)
      requires list.Valid() && |x| < MAX_STRING && list.bufLen == MIN_NODE_SIZE
      modifies list`head, list`tail, list`spine, list`size, Just(list.tail)`next
      ensures panicked <==> !SizeAgrees(x)
      ensures list.Valid() && list.tail != null && fresh(list.tail) && list.spine == old(list.spine) + [list.tail]
      ensures list.size == old(list.size) + NODE_BYTES
      ensures list.tail.len == EntrySize(x)
      ensures |list.tail.mem| == (if EntrySize(x) > MIN_NODE_SIZE then EntrySize(x) else MIN_NODE_SIZE)
      ensures !panicked ==> NodeHolds(list.tail, 0, [Norm(x)])
    {
      hide EntrySize, Norm, SizeAgrees, NodeHolds, Chain;
      var entrySize := EntrySize(x);
      var tail := list.NewNode(if entrySize > MIN_NODE_SIZE then entrySize else list.bufLen);
      list.Append(tail);
      panicked := WriteFirstEntry(tail, x);
    }

    method RPushInTail(x: Str) returns (panicked: bool)
      requires Shape() && |x| < MAX_STRING
      requires list.tail != null && list.tail.len < |list.tail.mem|
      modifies this, list.tail
      ensures panicked <==> !SizeAgrees(x)
      ensures !panicked ==> LinkedRight(Norm(x)) && (old(NodeClean(list.tail, x)) ==> PushedRight(Norm(x)))
      ensures WroteInTail(x, panicked)
    {
      hide EntrySize, Norm, SizeAgrees, NodeHolds, Packed, Flat, Chain, WrittenBehind, CleanAt;
      assert |groups| == |list.spine| by { PackedLength(list.spine, leftIdx, groups); }
      ghost var last := |groups| - 1;
      PackedSplit(list.spine, leftIdx, groups, last);
      ChainAt(list.spine, last);
      panicked := AppendEntry(list.tail, x, if last == 0 then leftIdx else 0, groups[last]);
      if !panicked && old(NodeClean(list.tail, x)) {
        PackedLast(list.spine[..last], leftIdx, groups[..last], list.tail, groups[last] + [Norm(x)]);
        assert list.spine == list.spine[..last] + [list.tail];
      }
      groups := groups[..last] + [groups[last] + [Norm(x)]];
      length := length + 1;
    }

    twostate predicate PushedLeft(e: Str)
      reads this, list, list.spine
    {
      var spine, gs := old(list.spine), old(groups);
      && Shape()
      && (|| (list.spine == spine && |gs| > 0 && groups == [[e] + gs[0]] + gs[1..])
          || (list.head != null && fresh(list.head) && list.spine == [list.head] + spine && groups == [[e]] + gs))
      && length == old(length) + 1
      && list.size - old(list.size) == NODE_BYTES * (|list.spine| - |spine|)
    }

    method LPush(x: Str) returns (panicked: bool)
      requires Shape() && |x| < MAX_STRING
      modifies this, list, Just(list.head)
      ensures panicked <==> !SizeAgrees(x) || MIN_NODE_SIZE < old(leftIdx) < EntrySize(x)
      ensures !panicked && old(LeftClean(x)) ==> PushedLeft(Norm(x))
      ensures !panicked ==> leftIdx == CursorAfterPush(old(leftIdx), EntrySize(x))
      ensures old(leftIdx) > 0 ==> list.spine == old(list.spine)
    {
      hide SizeAgrees, Norm, PushedLeft, EntrySize, SlotClean, Chain, CursorAfterPush;
      if leftIdx > 0 {
        panicked := LPushInHead(x);
      } else {
        panicked := LPushNewNode(x);
      }
    }

    method LPushInHead(x: Str) returns (panicked: bool)
      requires Shape() && |x| < MAX_STRING && leftIdx > 0
      modifies this, Just(list.head)
      ensures panicked <==> !SizeAgrees(x) || MIN_NODE_SIZE < old(leftIdx) < EntrySize(x)
      ensures !panicked && old(LeftClean(x)) ==> PushedLeft(Norm(x))
      ensures !panicked ==> leftIdx == CursorAfterPush(old(leftIdx), EntrySize(x))
      ensures old(leftIdx) > 0 ==> list.spine == old(list.spine)
    {
      hide EntrySize, Norm, SizeAgrees, NodeHolds, Packed, Flat, Chain, SlotClean;
      PackedLength(list.spine, leftIdx, groups);
      PackedSplit(list.spine, leftIdx, groups, 0);
      ChainAt(list.spine, 0);
      panicked, leftIdx := PrependEntry(list.head, x, leftIdx, groups[0]);
      if !panicked && old(LeftClean(x)) {
        PackedFirst(list.head, leftIdx, [Norm(x)] + groups[0], list.spine[1..], groups[1..]);
        assert list.spine == [list.head] + list.spine[1..];
      }
      groups := [[Norm(x)] + groups[0]] + groups[1..];
      length := length + 1;
    }

    method LPushNewNode(x: Str) returns (panicked: bool)
      requires Shape() && |x| < MAX_STRING && leftIdx == 0
      modifies this, list, Just(list.head)
      ensures panicked <==> !SizeAgrees(x)
      ensures !panicked ==> PushedLeft(Norm(x)) && leftIdx == CursorAfterPush(0, EntrySize(x))
    {
      hide EntrySize, Norm, SizeAgrees, NodeHolds, Packed, Flat, Chain, NonEmptyGroups;
      NonEmptyCons([Norm(x)], groups);
      ghost var spine, gs := list.spine, groups;
      panicked := NewHead(x);
      leftIdx := list.head.len - EntrySize(x);
      if !panicked {
        PackedFirst(list.head, leftIdx, [Norm(x)], spine, gs);
      }
      groups := [[Norm(x)]] + gs;
      length := length + 1;
    }

    /** A new first node with `x` at its very end. */
    method NewHead(x: Str) returns (panicked: bool)
      requires list.Valid() && |x| < MAX_STRING && list.bufLen == MIN_NODE_SIZE
      modifies list`head, list`tail, list`spine, list`size, Just(list.head)`prev
      ensures panicked <==> !SizeAgrees(x)
      ensures list.Valid() && list.head != null && fresh(list.head) && list.spine == [list.head] + old(list.spine)
      ensures list.size == old(list.size) + NODE_BYTES
      ensures 2 <= EntrySize(x) <= list.head.len
      ensures list.head.len == (if EntrySize(x) > MIN_NODE_SIZE then EntrySize(x) else MIN_NODE_SIZE)
      ensures !panicked ==> NodeHolds(list.head, list.head.len - EntrySize(x), [Norm(x)])
    {
      hide EntrySize, Norm, SizeAgrees, NodeHolds, Chain;
      EntrySizeAtLeastTwo(x);
      var entrySize := EntrySize(x);
      var head := list.NewNode(if entrySize > MIN_NODE_SIZE then entrySize else list.bufLen);
      list.Prepend(head);
      panicked := WriteLastEntry(head, x);
    }

    /** Unlinks a head whose last element was read. */
    method DropHead()
      requires list.Valid() && list.bufLen == MIN_NODE_SIZE && list.spine != []
      requires |groups| == |list.spine| && Packed(list.spine[1..], 0, groups[1..]) && NonEmptyGroups(groups[1..])
      modifies this, list, list.spine
      ensures Shape() && groups == old(groups[1..]) && list.spine == old(list.spine[1..])
      ensures length == old(length) && list.size == old(list.size) - NODE_BYTES
    {
      hide NodeHolds, Packed, Flat, Chain;
      ChainAt(list.spine, 0);
      list.Delete(list.head, 0);
      leftIdx := 0;
      groups := groups[1..];
      assert list.spine == old(list.spine)[1..];
    }

    /** Records that the head now holds `g`, from the moved cursor on. */
    ghost method KeepHead(g: seq<Str>)
      requires list.Valid() && list.bufLen == MIN_NODE_SIZE && list.spine != [] && g != []
      requires |groups| == |list.spine| && Packed(list.spine[1..], 0, groups[1..]) && NonEmptyGroups(groups[1..])
      requires NodeHolds(list.head, leftIdx, g)
      modifies `groups
      ensures Shape() && groups == [g] + old(groups[1..])
    {
      hide NodeHolds, Packed, Flat, Chain;
      PackedFirst(list.head, leftIdx, g, list.spine[1..], groups[1..]);
      HeadTail(list.spine);
      groups := [g] + groups[1..];
    }

    /** Unlinks a tail whose last element was cut off. */
    method DropTail()
      requires list.Valid() && list.bufLen == MIN_NODE_SIZE && list.spine != []
      requires |groups| == |list.spine| && NonEmptyGroups(groups[..|groups| - 1])
      requires Packed(list.spine[..|groups| - 1], leftIdx, groups[..|groups| - 1])
      modifies this, list, list.spine
      ensures Shape() && groups == old(groups[..|groups| - 1]) && list.spine == old(list.spine[..|groups| - 1])
      ensures length == old(length) && list.size == old(list.size) - NODE_BYTES
    {
      hide NodeHolds, Packed, Flat, Chain;
      ghost var last := |groups| - 1;
      ChainAt(list.spine, last);
      list.Delete(list.tail, last);
      assert list.spine == old(list.spine)[..last];
      if list.tail == null {
        PackedLength(list.spine, leftIdx, groups[..last]);
        leftIdx := 0;
        PackedNone(groups[..last]);
      }
      groups := groups[..last];
    }

    /** `None` is ErrDequeEmpty. */
    method LPop() returns (r: Option<Str>)
      requires Valid()
      modifies this, list, list.spine
      ensures Valid()
      ensures r == if old(Contents()) == [] then None else Some(old(Contents())[0])
      ensures Contents() == if old(Contents()) == [] then [] else old(Contents())[1..]
      ensures NodesKept()
      ensures old(|groups| > 0 && |groups[0]| > 1) ==> leftIdx == old(leftIdx) + |EncodeEntry(old(groups)[0][0])|
    {
      hide NodeHolds, Packed, Flat, Chain, EncodeEntry;
      if length == 0 {
        FlatNotEmpty(groups);
        return None;
      }
      var head := list.head;
      PackedLength(list.spine, leftIdx, groups);
      FlatNonEmpty(groups);
      PackedSplit(list.spine, leftIdx, groups, 0);
      ghost var g, gs := groups[0], groups[1..];
      FlatDropFirst(g, gs);
      HeadTail(groups);
      var x, entryLen := FirstEntry(head, leftIdx, g);
      leftIdx := leftIdx + entryLen;
      length := length - 1;
      if leftIdx == head.len {
        DropHead();
      } else {
        KeepHead(g[1..]);
      }
      r := Some(x);
    }

    method RPop() returns (r: Option<Str>)
      requires Valid()
      modifies this, list, list.spine
      ensures Valid()
      ensures r == if old(Contents()) == [] then None else Some(old(Contents())[|old(Contents())| - 1])
      ensures Contents() == if old(Contents()) == [] then [] else old(Contents())[..|old(Contents())| - 1]
      ensures NodesKept()
      ensures old(|groups| == |list.spine| == 1 && |groups[0]| > 0 && (|groups[0]| > 1 || leftIdx > 0)) ==>
                && list.spine == old(list.spine) && list.spine[0].mem == old(list.spine[0].mem)
                && groups == [old(groups[0])[..|old(groups[0])| - 1]] && leftIdx == old(leftIdx)
    {
      hide Shape, Flat, Chain;
      FlatNotEmpty(groups);
      if length == 0 {
        return None;
      }
      ShapeGroups();
      FlatNonEmpty(groups);
      ghost var last := |groups| - 1;
      FlatDropLast(groups[..last], groups[last]);
      InitLast(groups);
      var x := PopTail();
      r := Some(x);
    }

    /** A list with elements has no empty node. */
    lemma ShapeGroups()
      requires Shape()
      ensures |groups| == |list.spine| && (NonEmptyGroups(groups) || groups == [[]])
    {
    }

    /** Cuts the last entry off the tail, and unlinks a tail that has no bytes left. */
    method PopTail() returns (x: Str)
      requires Shape() && NonEmptyGroups(groups) && groups != []
      modifies this, list, list.spine
      ensures Shape() && length == old(length) - 1
      ensures var spine, gs := old(list.spine), old(groups);
              var last := |gs| - 1;
              var g := gs[last];
              && |spine| == |gs| && g != [] && x == g[|g| - 1]
              && (if |g| == 1 && (last > 0 || old(leftIdx) == 0) then
                    list.spine == spine[..last] && groups == gs[..last] && list.size == old(list.size) - NODE_BYTES
                  else
                    && list.spine == spine && groups == gs[..last] + [g[..|g| - 1]] && list.size == old(list.size)
                    && leftIdx == old(leftIdx) && spine[last].mem == old(list.spine[|groups| - 1].mem))
    {
      hide NodeHolds, Packed, Flat, Chain;
      var tail := list.tail;
      PackedLength(list.spine, leftIdx, groups);
      ghost var last := |groups| - 1;
      NonEmptyShrink(groups);
      hide NonEmptyGroups;
      PackedSplit(list.spine, leftIdx, groups, last);
      ChainAt(list.spine, last);
      ghost var g := groups[last];
      x := RemoveLastEntry(tail, if last == 0 then leftIdx else 0, g);
      length := length - 1;
      if tail.len == 0 {
        DropTail();
      } else {
        KeepTail(g[..|g| - 1]);
      }
    }

    /** Records that the tail now holds `g`. */
    ghost method KeepTail(g: seq<Str>)
      requires list.Valid() && list.bufLen == MIN_NODE_SIZE && list.spine != [] && |groups| == |list.spine|
      requires var last := |groups| - 1;
               && Packed(list.spine[..last], leftIdx, groups[..last]) && NonEmptyGroups(groups[..last])
               && NodeHolds(list.tail, if last == 0 then leftIdx else 0, g)
               && (g == [] ==> last == 0 && leftIdx > 0 && list.tail.len < |list.tail.mem|)
      modifies `groups
      ensures Shape() && groups == old(groups)[..|old(groups)| - 1] + [g]
    {
      hide NodeHolds, Packed, Flat, Chain, NonEmptyGroups;
      ghost var last := |groups| - 1;
      PackedLast(list.spine[..last], leftIdx, groups[..last], list.tail, g);
      InitLast(list.spine);
      NonEmptySnoc(groups[..last], g);
      groups := groups[..last] + [g];
      assert g == [] ==> groups == [[]];
    }

    // -------------------------------------------------------------- iteration

    /** The cursor stands before element `j` of node `i`, or behind the last node. */
    ghost predicate At(c: Cursor, i: nat, j: nat)
      reads this, list
    {
      && |groups| == |list.spine|
      && i <= |groups|
      && c.traversed == |Flat(groups[..i])| + j
      && (if i == |groups| then c.node == null && c.bufIndex == 0 && j == 0
          else
            && c.node == list.spine[i] && j < |groups[i]| && AllStored(groups[i])
            && c.bufIndex == (if i == 0 then leftIdx else 0) + |EncodeAll(groups[i][..j])|)
    }

    /** `NewIterator` on a list that has elements. */
    method NewIterator() returns (c: Cursor)
      requires Valid() && length > 0
      ensures At(c, 0, 0) && c.traversed == 0
    {
      hide Chain;
      FlatNonEmpty(groups);
      c := Cursor(list.head, 0, leftIdx);
    }

    method Next(c: Cursor, ghost i: nat, ghost j: nat)
      returns (x: Str, c': Cursor, ghost i': nat, ghost j': nat)
      requires Valid() && At(c, i, j) && c.traversed < length
      ensures i < |groups| && x == groups[i][j] == Contents()[c.traversed]
      ensures c'.traversed == c.traversed + 1 && At(c', i', j')
      ensures if j + 1 < |groups[i]| then i' == i && j' == j + 1 else i' == i + 1 && j' == 0
    {
      hide NodeHolds, Packed, Flat, Chain, EncodeAll, AllStored, EncodeEntry;
      AtIndex(c, i, j);
      PackedSplit(list.spine, leftIdx, groups, i);
      ghost var g := groups[i];
      ghost var start := if i == 0 then leftIdx else 0;
      HoldsSuffix(c.node, start, g, j);
      var entryLen: nat;
      x, entryLen := FirstEntry(c.node, c.bufIndex, g[j..]);
      if c.bufIndex + entryLen == c.node.len {
        c' := Cursor(c.node.next, c.traversed + 1, 0);
        i', j' := i + 1, 0;
        BehindNode(c, i, j);
      } else {
        c' := Cursor(c.node, c.traversed + 1, c.bufIndex + entryLen);
        i', j' := i, j + 1;
        PackedTake(g, j);
      }
    }

    /** Behind the last element of a node the cursor is at the next one. */
    lemma BehindNode(c: Cursor, i: nat, j: nat)
      requires Valid() && At(c, i, j) && i < |groups| && j + 1 == |groups[i]|
      ensures At(Cursor(c.node.next, c.traversed + 1, 0), i + 1, 0)
    {
      hide NodeHolds, Packed, Flat, Chain, EncodeAll, AllStored;
      ChainAt(list.spine, i);
      FlatAround(groups, i);
      if i + 1 < |groups| {
        PackedSplit(list.spine, leftIdx, groups, i + 1);
        HoldsLength(list.spine[i + 1], 0, groups[i + 1]);
      }
    }

    /** An element still to come puts the cursor on a node. */
    lemma AtIndex(c: Cursor, i: nat, j: nat)
      requires At(c, i, j) && c.traversed < |Contents()|
      ensures i < |groups| && groups[i][j] == Contents()[c.traversed]
    {
      hide Flat, EncodeAll, AllStored;
      TakeAll(groups, i);
      if i < |groups| {
        FlatAround(groups, i);
      }
    }

    method LRange(start0: int, stop0: int) returns (res: seq<Str>)
      requires Valid()
      ensures res == Range(Contents(), start0, stop0)
    {
      hide Shape, At, Flat;
      var start := SanitizeStart(length, start0);
      var stop := SanitizeStop(length, stop0);
      if start > stop {
        return [];
      }
      var c := NewIterator();
      ghost var i, j := 0, 0;
      var currIndex := 0;
      res := [];
      while c.traversed < length
        invariant 0 <= currIndex == c.traversed <= length && currIndex <= stop + 1
        invariant At(c, i, j)
        invariant res == if currIndex <= start then [] else Contents()[start..currIndex]
        decreases length - c.traversed
      {
        if currIndex > stop {
          break;
        }
        var x;
        x, c, i, j := Next(c, i, j);
        if start <= currIndex <= stop {
          res := res + [x];
        }
        currIndex := currIndex + 1;
      }
    }

    // -------------------------------------------------------------- insertion next to a pivot

    /** The list took over no node from elsewhere. */
    twostate predicate NodesKept()
      reads this, list
    {
      forall n :: n in list.spine ==> n in old(list.spine) || fresh(n)
    }

    /** What every insertion helper establishes: element `e` at position `k`. */
    twostate predicate InsertedAt(k: nat, e: Str)
      reads this, list, list.spine
    {
      Valid() && k <= |old(Contents())| && Contents() == InsertAt(old(Contents()), k, e)
    }

    method GetNewNodeWithElement(element: Str) returns (node: ByteListNode, panicked: bool)
      requires |element| < MAX_STRING
      modifies list`size
      ensures fresh(node) && node.next == null && node.prev == null && list.size == old(list.size) + NODE_BYTES
      ensures panicked <==> !SizeAgrees(element)
      ensures !panicked ==> NodeHolds(node, 0, [Norm(element)])
    {
      node := list.NewNode(EntrySize(element));
      panicked := WriteFirstEntry(node, element);
    }

    /** The pivot is the first element of node `i`: a node for the element goes in front of it. */
    method InsertNodeBefore(element: Str, pivotNode: ByteListNode, ghost i: nat) returns (panicked: bool)
      requires Valid() && |element| < MAX_STRING
      requires 0 < i < |groups| && |groups| == |list.spine| && list.spine[i] == pivotNode
      modifies this, list, list.spine
      ensures panicked <==> !SizeAgrees(element)
      ensures !panicked ==> NodesKept() && InsertedAt(|Flat(old(groups)[..i])|, Norm(element))
    {
      hide NodeHolds, Packed, Flat, Chain, Norm, SizeAgrees, Apart;
      ghost var spine, gs, e := list.spine, groups, Norm(element);
      PackedSplit(spine, leftIdx, gs, i);
      ChainAt(spine, i);
      var elementNode;
      elementNode, panicked := GetNewNodeWithElement(element);
      if panicked {
        return;
      }
      ChainOne(elementNode);
      FreshApart(elementNode, spine);
      list.LinkBefore(pivotNode, elementNode, elementNode, i, [elementNode]);
      PackedInsert(spine, leftIdx, gs, i, elementNode, [e]);
      FlatInsert(gs, i, [e]);
      NonEmptyInsert(gs, i, [e]);
      groups := gs[..i] + [[e]] + gs[i..];
      length := length + 1;
    }

    /** The pivot is element `j > 0` of node `i`: the elements before it move to a new node. */
    method BreakAndInsertBefore(element: Str, pivotNode: ByteListNode, at: nat, ghost i: nat, ghost j: nat)
      returns (panicked: bool)
      requires Valid() && |element| < MAX_STRING
      requires i < |groups| && |groups| == |list.spine| && list.spine[i] == pivotNode && 0 < j < |groups[i]|
      requires AllStored(groups[i]) && at == (if i == 0 then leftIdx else 0) + |EncodeAll(groups[i][..j])|
      modifies this, list, list.spine
      ensures panicked <==> !SizeAgrees(element)
      ensures !panicked ==> NodesKept() && InsertedAt(|Flat(old(groups)[..i])| + j, Norm(element))
    {
      hide NodeHolds, Packed, Flat, Chain, Norm, SizeAgrees, Apart, EncodeAll, AllStored;
      ghost var spine, gs, g, e := list.spine, groups, groups[i], Norm(element);
      PackedSplit(spine, leftIdx, gs, i);
      ChainAt(spine, i);
      var start := if pivotNode.prev != null then 0 else leftIdx;
      var elementNode;
      elementNode, panicked := GetNewNodeWithElement(element);
      if panicked {
        return;
      }
      var newNode := list.NewNode(at - start);
      MoveFront(pivotNode, newNode, at, start, g, j);
      LinkBroken(pivotNode, newNode, elementNode, i, j, e);
    }

    /** Links the new node and the element's node in front of the pivot's, and moves the head. */
    method LinkBroken(pivotNode: ByteListNode, newNode: ByteListNode, elementNode: ByteListNode,
                      ghost i: nat, ghost j: nat, ghost e: Str)
      requires list.Valid() && list.bufLen == MIN_NODE_SIZE && NonEmptyGroups(groups) && length == |Contents()|
      requires i < |groups| == |list.spine| && list.spine[i] == pivotNode && 0 < j < |groups[i]|
      requires list.size == NODE_BYTES * (|list.spine| + 2)
      requires newNode != elementNode && newNode !in list.spine && elementNode !in list.spine
      requires newNode.prev == null && elementNode.next == null
      requires Packed(list.spine[..i], leftIdx, groups[..i]) && Packed(list.spine[i + 1..], 0, groups[i + 1..])
      requires NodeHolds(newNode, 0, groups[i][..j]) && NodeHolds(elementNode, 0, [e])
                 && NodeHolds(pivotNode, 0, groups[i][j..])
      modifies this, list, list.spine, newNode, elementNode
      ensures InsertedAt(|Flat(old(groups)[..i])| + j, e)
      ensures list.spine == old(list.spine[..i] + [newNode, elementNode] + list.spine[i..])
    {
      hide NodeHolds, Packed, Flat, Chain, Apart, NonEmptyGroups;
      ghost var spine, gs, g := list.spine, groups, groups[i];
      NonEmptyBreak(gs, i, g[..j], [e], g[j..]);
      newNode.next := elementNode;
      elementNode.prev := newNode;
      ChainTwo(newNode, elementNode);
      FreshApartTwo(newNode, elementNode, spine);
      ChainAt(spine, i);
      list.LinkBefore(pivotNode, newNode, elementNode, i, [newNode, elementNode]);
      ChainAt(list.spine, i);
      if newNode.prev == null {
        leftIdx := 0;
      }
      if i == 0 { PackedNone(gs[..i]); }
      PackedBreak(spine, leftIdx, gs, i, newNode, g[..j], elementNode, [e], g[j..]);
      FlatBreak(gs, i, j, [e]);
      groups := gs[..i] + [g[..j], [e], g[j..]] + gs[i + 1..];
      length := length + 1;
    }

    /** Nodes cut off the list, still linked to each other, with the elements they hold. */
    ghost predicate Loose(first: ByteListNode, last: ByteListNode, suffix: seq<ByteListNode>, rest: seq<seq<Str>>)
      reads this, list, list.spine, suffix
    {
      && Chain(suffix) && suffix != [] && suffix[0] == first && suffix[|suffix| - 1] == last && last.next == null
      && Apart(suffix, list.spine) && Packed(suffix, 0, rest) && NonEmptyGroups(rest)
    }

    /** Pushes behind the last element of a shortened list, and puts the cut nodes back. */
    method PushAndRejoin(element: Str, first: ByteListNode, last: ByteListNode,
                         ghost suffix: seq<ByteListNode>, ghost rest: seq<seq<Str>>)
      returns (panicked: bool)
      requires Shape() && NonEmptyGroups(groups) && groups != [] && |element| < MAX_STRING
      requires Loose(first, last, suffix, rest)
      modifies this, list, list.spine, first
      ensures panicked <==> !SizeAgrees(element)
      ensures !panicked && old(RightClean(element)) ==>
                && Shape()
                && Contents() == old(Contents()) + [Norm(element)] + Flat(rest)
                && length == old(length) + 1
                && list.size - old(list.size) == NODE_BYTES * (|list.spine| - |old(list.spine)| - |suffix|)
                && forall n :: n in list.spine ==> n in old(list.spine) || n in suffix || fresh(n)
    {
      hide Packed, Flat, Chain, Norm, SizeAgrees, NodeHolds, RightClean, NonEmptyGroups, WroteInTail;
      ghost var spine, gs, e, clean := list.spine, groups, Norm(element), RightClean(element);
      PackedLength(spine, leftIdx, gs);
      PackedLength(suffix, 0, rest);
      panicked := RPush(element);
      if panicked {
        return;
      }
      PushedRightFlat(gs, groups, e);
      ghost var spine1, gs1 := list.spine, groups;
      list.Rejoin(first, last, suffix);
      if clean {
        PackedJoin(spine1, leftIdx, gs1, suffix, rest);
      }
      FlatAppend(gs1, rest);
      NonEmptyJoin(gs1, rest);
      groups := gs1 + rest;
    }

    /** Ends the list behind node `i`. */
    method CutNodes(pivotNode: ByteListNode, ghost i: nat, ghost nextNode: ByteListNode)
      requires Shape() && i + 1 < |groups| == |list.spine| && list.spine[i] == pivotNode
                 && list.spine[i + 1] == nextNode
      modifies this, list, pivotNode
      ensures Shape() && NonEmptyGroups(groups) && groups == old(groups)[..i + 1] && |list.spine| == i + 1
      ensures list.spine == old(list.spine)[..i + 1]
      ensures old(list.tail) != null && Loose(nextNode, old(list.tail), old(list.spine)[i + 1..], old(groups)[i + 1..])
      ensures length == old(length) && list.size == old(list.size)
      ensures list.tail == pivotNode && pivotNode.mem == old(pivotNode.mem) && pivotNode.len == old(pivotNode.len)
    {
      hide Packed, Flat, Chain, NodeHolds, Apart, NonEmptyGroups;
      ghost var spine, gs := list.spine, groups;
      NonEmptySplit(gs, i + 1);
      PackedSplit(spine, leftIdx, gs, i);
      PackedLast(spine[..i], leftIdx, gs[..i], pivotNode, gs[i]);
      TakeDrop(spine, i);
      TakeDrop(gs, i);
      ChainAt(spine, i);
      list.CutAfter(pivotNode, i);
      groups := gs[..i + 1];
    }

    /** The pivot ends node `i`: the element goes behind it, in that node or a new one. */
    method InsertBetween(element: Str, pivotNode: ByteListNode, nextNode: ByteListNode, ghost i: nat)
      returns (panicked: bool)
      requires Valid() && |element| < MAX_STRING
      requires i + 1 < |groups| == |list.spine| && list.spine[i] == pivotNode && list.spine[i + 1] == nextNode
      modifies this, list, list.spine
      ensures panicked <==> !SizeAgrees(element)
      ensures !panicked && old(NodeClean(pivotNode, element)) ==>
                NodesKept() && InsertedAt(|Flat(old(groups)[..i + 1])|, Norm(element))
    {
      hide Shape, Flat, Norm, SizeAgrees, Loose, CleanAt;
      var prevTail := list.tail;
      ghost var spine, gs := list.spine, groups;
      CutNodes(pivotNode, i, nextNode);
      panicked := PushAndRejoin(element, nextNode, prevTail, spine[i + 1..], gs[i + 1..]);
      FlatSplitAt(gs, i + 1, [Norm(element)]);
    }

    /** Moves the elements of node `i` from `j` on to a new node and ends the list before it. */
    method CutInside(pivotNode: ByteListNode, at: nat, ghost i: nat, ghost j: nat)
      returns (newNode: ByteListNode, ghost last: ByteListNode)
      requires Shape() && i < |groups| && |groups| == |list.spine| && list.spine[i] == pivotNode && 0 < j < |groups[i]|
      requires AllStored(groups[i]) && at == (if i == 0 then leftIdx else 0) + |EncodeAll(groups[i][..j])|
      modifies this, list, list.spine
      ensures Shape() && NonEmptyGroups(groups) && groups == old(groups)[..i] + [old(groups)[i][..j]]
      ensures list.spine == old(list.spine)[..i + 1]
      ensures fresh(newNode) && last == if newNode.next == null then newNode else old(list.tail)
      ensures Loose(newNode, last, [newNode] + old(list.spine)[i + 1..], [old(groups)[i][j..]] + old(groups)[i + 1..])
      ensures length == old(length) && list.size == old(list.size) + NODE_BYTES
      ensures list.tail == pivotNode && pivotNode.mem == old(pivotNode.mem) && pivotNode.len == at
    {
      hide Packed, Flat, Chain, NodeHolds, Apart, EncodeAll, AllStored, Loose;
      PackedSplit(list.spine, leftIdx, groups, i);
      ChainAt(list.spine, i);
      newNode := list.NewNode(list.bufLen);
      MoveBack(pivotNode, newNode, at, if i == 0 then leftIdx else 0, groups[i], j);
      last := LinkLoose(pivotNode, newNode, i, j);
    }

    /** Cuts the list behind node `i` and puts the new node in front of what was cut off. */
    method LinkLoose(pivotNode: ByteListNode, newNode: ByteListNode, ghost i: nat, ghost j: nat)
      returns (ghost last: ByteListNode)
      requires list.Valid() && list.bufLen == MIN_NODE_SIZE && NonEmptyGroups(groups)
      requires i < |groups| == |list.spine| && list.spine[i] == pivotNode && 0 < j < |groups[i]|
      requires newNode !in list.spine && newNode.next == null
      requires Packed(list.spine[..i], leftIdx, groups[..i]) && Packed(list.spine[i + 1..], 0, groups[i + 1..])
      requires NodeHolds(pivotNode, if i == 0 then leftIdx else 0, groups[i][..j])
                 && NodeHolds(newNode, 0, groups[i][j..])
      modifies this, list, list.spine, newNode
      ensures Shape() && NonEmptyGroups(groups) && groups == old(groups)[..i] + [old(groups)[i][..j]]
      ensures list.spine == old(list.spine)[..i + 1]
      ensures last == if newNode.next == null then newNode else old(list.tail)
      ensures Loose(newNode, last, [newNode] + old(list.spine)[i + 1..], [old(groups)[i][j..]] + old(groups)[i + 1..])
      ensures length == old(length) && list.size == old(list.size)
      ensures list.tail == pivotNode && pivotNode.mem == old(pivotNode.mem) && pivotNode.len == old(pivotNode.len)
    {
      hide Packed, Flat, Chain, NodeHolds, Apart, NonEmptyGroups;
      ghost var spine, gs, g := list.spine, groups, groups[i];
      NonEmptyCut(gs, i, g[..j], g[j..]);
      last := CutAndLink(pivotNode, newNode, i);
      PackedLast(spine[..i], leftIdx, gs[..i], pivotNode, g[..j]);
      PackedFirst(newNode, 0, g[j..], spine[i + 1..], gs[i + 1..]);
      TakeDrop(spine, i);
      groups := gs[..i] + [g[..j]];
    }

    /** The links of that: the new node leads the nodes cut off. */
    method CutAndLink(pivotNode: ByteListNode, newNode: ByteListNode, ghost i: nat)
      returns (ghost last: ByteListNode)
      requires list.Valid() && i < |list.spine| && list.spine[i] == pivotNode
      requires newNode !in list.spine && newNode.next == null
      modifies list`tail, list`spine, pivotNode`next, newNode`next, list.spine`prev
      ensures list.Valid() && list.spine == old(list.spine)[..i + 1] && list.tail == pivotNode
      ensures last == if newNode.next == null then newNode else old(list.tail)
      ensures var loose := [newNode] + old(list.spine)[i + 1..];
              Chain(loose) && Apart(loose, list.spine) && loose[|loose| - 1] == last && last.next == null
    {
      hide Chain, Apart;
      ghost var spine := list.spine;
      ghost var suffix := spine[i + 1..];
      ChainAt(spine, i);
      var afterPivot := pivotNode.next;
      last := if afterPivot == null then newNode else list.tail;
      list.CutAfter(pivotNode, i);
      if suffix != [] { ApartFirst(suffix, list.spine); }
      list.LinkFirst(newNode, afterPivot, suffix);
      ApartCons(newNode, suffix, list.spine);
    }

    /** The pivot is element `j - 1` of node `i` and not its last: the elements behind it move to
        a new node. */
    method BreakAndInsertAfter(element: Str, pivotNode: ByteListNode, at: nat, ghost i: nat, ghost j: nat)
      returns (panicked: bool)
      requires Valid() && |element| < MAX_STRING
      requires i < |groups| && |groups| == |list.spine| && list.spine[i] == pivotNode && 0 < j < |groups[i]|
      requires AllStored(groups[i]) && at == (if i == 0 then leftIdx else 0) + |EncodeAll(groups[i][..j])|
      modifies this, list, list.spine
      ensures panicked <==> !SizeAgrees(element)
      ensures !panicked && old(CleanAt(pivotNode.mem, at, element)) ==>
                NodesKept() && InsertedAt(|Flat(old(groups)[..i])| + j, Norm(element))
    {
      hide Shape, Flat, Norm, SizeAgrees, Loose, EncodeAll, AllStored, CleanAt;
      var prevTail := list.tail;
      ghost var spine, gs := list.spine, groups;
      var newNode;
      ghost var last;
      newNode, last := CutInside(pivotNode, at, i, j);
      panicked := PushAndRejoin(element, newNode, if newNode.next == null then newNode else prevTail,
                                [newNode] + spine[i + 1..], [gs[i][j..]] + gs[i + 1..]);
      FlatSplitInside(gs, i, j, [Norm(element)]);
    }

    /** Iterates to the first element equal to `pivot`: its node, and the cursor just behind it. */
    method FindPivot(pivot: Str)
      returns (found: bool, pivotNode: ByteListNode?, c: Cursor, ghost i: nat, ghost j: nat)
      requires Valid() && length > 0
      ensures found <==> FirstIndex(Contents(), pivot) < |Contents()|
      ensures found ==> PivotAt(pivot, pivotNode, c, i, j) && c.traversed == FirstIndex(Contents(), pivot) + 1
    {
      hide Shape, At, Flat, PivotAt;
      c := NewIterator();
      ghost var i', j' := 0, 0;
      i, j, pivotNode := 0, 0, null;
      while c.traversed < length
        invariant 0 <= c.traversed <= length && At(c, i', j')
        invariant forall t :: 0 <= t < c.traversed ==> Contents()[t] != pivot
        decreases length - c.traversed
      {
        pivotNode := c.node;
        ghost var c0 := c;
        i, j := i', j';
        var x;
        x, c, i', j' := Next(c, i, j);
        if x == pivot {
          FirstIndexUnique(Contents(), pivot, c0.traversed);
          BehindPivot(pivot, c0, c, i, j, i', j');
          return true, pivotNode, c, i, j;
        }
      }
      FirstIndexAbsent(Contents(), pivot);
      return false, null, c, 0, 0;
    }

    /** Element `j` of node `i` is the first `pivot`, and `c` stands right behind it. */
    ghost predicate PivotAt(pivot: Str, pivotNode: ByteListNode?, c: Cursor, i: nat, j: nat)
      reads this, list, list.spine
    {
      && i < |groups| == |list.spine| && j < |groups[i]| && AllStored(groups[i])
      && pivotNode == list.spine[i] && groups[i][j] == pivot
      && c.traversed == |Flat(groups[..i])| + j + 1
      && FirstIndex(Contents(), pivot) == c.traversed - 1 < |Contents()|
      && var start := if i == 0 then leftIdx else 0;
      && pivotNode.len == start + |EncodeAll(groups[i])|
      && (if j + 1 < |groups[i]| then c.bufIndex == start + |EncodeAll(groups[i][..j + 1])|
          else c.bufIndex == 0 && (if i + 1 < |groups| then c.node == list.spine[i + 1] else c.node == null))
    }

    lemma BehindPivot(pivot: Str, c0: Cursor, c: Cursor, i: nat, j: nat, i': nat, j': nat)
      requires Valid() && At(c0, i, j) && At(c, i', j') && i < |groups| && groups[i][j] == pivot
      requires c.traversed == c0.traversed + 1
      requires if j + 1 < |groups[i]| then i' == i && j' == j + 1 else i' == i + 1 && j' == 0
      requires c0.traversed < |Contents()| && FirstIndex(Contents(), pivot) == c0.traversed
      ensures PivotAt(pivot, c0.node, c, i, j)
    {
      hide Flat, Packed, Chain, AllStored, NodeHolds, EncodeAll, FirstIndex;
      PackedSplit(list.spine, leftIdx, groups, i);
      HoldsLength(list.spine[i], if i == 0 then leftIdx else 0, groups[i]);
      if i' < |groups| { EncodeAllEmpty(groups[i'][..j']); }
    }

    /** The test for a pivot that opens its node, as the code puts it, and where its entry starts. */
    lemma PivotOpensNode(pivot: Str, pivotNode: ByteListNode?, c: Cursor, i: nat, j: nat)
      requires Valid() && PivotAt(pivot, pivotNode, c, i, j) && c.traversed > 1
      ensures PivotNode(pivotNode, c, i, j) && |pivot| < MAX_STRING && 0 < EntrySize(pivot)
      ensures (c.bufIndex == EntrySize(pivot) || (c.bufIndex == 0 && pivotNode.len == EntrySize(pivot))) <==> j == 0
      ensures j == 0 ==> i > 0
      ensures (if c.bufIndex == 0 then pivotNode.len else c.bufIndex) - EntrySize(pivot)
              == (if i == 0 then leftIdx else 0) + |EncodeAll(groups[i][..j])|
    {
      hide Flat, EncodeAll, EncodeEntry, EntrySize, Norm, SizeAgrees, Packed, Chain;
      var g := groups[i];
      PackedTake(g, j);
      StoredSize(g[j]);
      EncodeAllEmpty(g[..j]);
      assert g[..j] == [] <==> j == 0;
      assert i == 0 ==> groups[..i] == [];
      FlatOfNone(groups[..i]);
    }

    /** Behind a pivot that is not the last element: either it ends its node and another follows,
        or the cursor is still inside the node. */
    lemma PivotEndsNode(pivot: Str, pivotNode: ByteListNode?, c: Cursor, i: nat, j: nat)
      requires Valid() && PivotAt(pivot, pivotNode, c, i, j) && c.traversed < length
      ensures PivotNode(pivotNode, c, i, j)
      ensures c.bufIndex == 0 ==> j + 1 == |groups[i]| && i + 1 < |groups| && c.node == list.spine[i + 1]
                                  && c.traversed == |Flat(groups[..i + 1])|
      ensures c.bufIndex != 0 ==>
                j + 1 < |groups[i]| && c.bufIndex == (if i == 0 then leftIdx else 0) + |EncodeAll(groups[i][..j + 1])|
    {
      hide Flat, EncodeAll, EncodeEntry, Norm, SizeAgrees, Packed, Chain;
      PackedTake(groups[i], j);
      FlatAround(groups, i);
      FlatOfNone(groups[i + 1..]);
    }

    ghost predicate PivotNode(pivotNode: ByteListNode?, c: Cursor, i: nat, j: nat)
      reads this, list
    {
      && i < |groups| == |list.spine| && pivotNode == list.spine[i] && j < |groups[i]| && AllStored(groups[i])
      && c.traversed - 1 == |Flat(groups[..i])| + j
    }

    twostate lemma RightContents(e: Str)
      requires old(Valid()) && PushedRight(e)
      ensures NodesKept() && InsertedAt(|old(Contents())|, e)
    {
      hide Flat, Packed, Chain, NodeHolds;
      FlatSnoc(old(groups), [e]);
      if old(groups) != [] { FlatGrow(old(groups), e); }
    }

    twostate lemma LeftContents(e: Str)
      requires old(Valid()) && PushedLeft(e)
      ensures NodesKept() && InsertedAt(0, e)
    {
      hide Flat, Packed, Chain, NodeHolds;
      ghost var gs := old(groups);
      FlatCons([e], gs);
      if gs != [] {
        HeadTail(gs);
        FlatCons(gs[0], gs[1..]);
        FlatCons([e] + gs[0], gs[1..]);
      }
    }

    /** LPUSH of one element onto a whole list. */
    method PushFront(x: Str) returns (panicked: bool)
      requires Valid() && |x| < MAX_STRING
      modifies this, list, list.spine
      ensures panicked <==> !SizeAgrees(x) || MIN_NODE_SIZE < old(leftIdx) < EntrySize(x)
      ensures !panicked && old(LeftClean(x)) ==> NodesKept() && InsertedAt(0, Norm(x))
    {
      hide EntrySize, SizeAgrees, Norm, Flat, Packed, Chain, PushedLeft, SlotClean, InsertedAt, NodesKept;
      panicked := LPush(x);
      if !panicked && old(LeftClean(x)) {
        LeftContents(Norm(x));
      }
    }

    /** RPUSH of one element onto a whole list. */
    method PushBack(x: Str) returns (panicked: bool)
      requires Valid() && |x| < MAX_STRING
      modifies this, list, list.spine
      ensures panicked <==> !SizeAgrees(x)
      ensures !panicked && old(RightClean(x)) ==> NodesKept() && InsertedAt(|old(Contents())|, Norm(x))
    {
      hide EntrySize, SizeAgrees, Norm, Flat, Chain, PushedRight, NodeClean, InsertedAt, NodesKept;
      panicked := RPush(x);
      if !panicked && old(RightClean(x)) {
        RightContents(Norm(x));
      }
    }

    method InsertBeforePivot(pivot: Str, element: Str, pivotNode: ByteListNode?, c: Cursor, ghost i: nat, ghost j: nat)
      returns (panicked: bool)
      requires Valid() && |element| < MAX_STRING
      requires PivotAt(pivot, pivotNode, c, i, j) && 1 <= c.traversed <= length
      modifies this, list, list.spine
      ensures panicked <==>
                !SizeAgrees(element) || (c.traversed == 1 && MIN_NODE_SIZE < old(leftIdx) < EntrySize(element))
      ensures !panicked && (c.traversed == 1 ==> old(LeftClean(element))) ==>
                NodesKept() && InsertedAt(c.traversed - 1, Norm(element))
    {
      hide Flat, EntrySize, SizeAgrees, Norm, InsertedAt, Shape, PivotAt, PushedLeft, AllStored, EncodeAll, LeftClean;
      if c.traversed == 1 {
        panicked := PushFront(element);
      } else {
        PivotOpensNode(pivot, pivotNode, c, i, j);
        var pivotEntryLen := EntrySize(pivot);
        if c.bufIndex == pivotEntryLen || (c.bufIndex == 0 && pivotNode.len == pivotEntryLen) {
          panicked := InsertNodeBefore(element, pivotNode, i);
        } else {
          var bufIndex := if c.bufIndex == 0 then pivotNode.len else c.bufIndex;
          panicked := BreakAndInsertBefore(element, pivotNode, bufIndex - pivotEntryLen, i, j);
        }
      }
    }

    method InsertAfterPivot(pivot: Str, element: Str, pivotNode: ByteListNode?, c: Cursor, ghost i: nat, ghost j: nat)
      returns (panicked: bool)
      requires Valid() && |element| < MAX_STRING
      requires PivotAt(pivot, pivotNode, c, i, j) && 1 <= c.traversed <= length && pivotNode != null
      modifies this, list, list.spine
      ensures panicked <==> !SizeAgrees(element)
      ensures !panicked && old(BehindClean(pivotNode, c.bufIndex, element)) ==>
                NodesKept() && InsertedAt(c.traversed, Norm(element))
    {
      hide Flat, EntrySize, SizeAgrees, Norm, InsertedAt, Shape, PivotAt, PushedRight, AllStored, EncodeAll, CleanAt;
      if c.traversed == length {
        PivotInTail(pivot, pivotNode, c, i, j);
        panicked := PushBack(element);
        return;
      }
      PivotEndsNode(pivot, pivotNode, c, i, j);
      if c.bufIndex == 0 {
        panicked := InsertBetween(element, pivotNode, c.node, i);
      } else {
        panicked := BreakAndInsertAfter(element, pivotNode, c.bufIndex, i, j + 1);
      }
    }

    lemma LeftCleanWithoutSpare(x: Str)
      requires Shape() && |x| < MAX_STRING && !LeavesSpareByte(x)
      ensures LeftClean(x)
    {
    }

    lemma RightCleanWithoutSpare(x: Str)
      requires Shape() && |x| < MAX_STRING && !LeavesSpareByte(x)
      ensures RightClean(x)
    {
    }

    lemma InsertCleanWithoutSpare(pivot: Str, x: Str, side: Side)
      requires Shape() && |x| < MAX_STRING && !LeavesSpareByte(x)
      ensures InsertClean(pivot, x, side)
    {
      hide Shape, Flat, EncodeAll, EntrySize, LeavesSpareByte, SpareClean;
      NoSpareClean(x);
      LeftCleanWithoutSpare(x);
    }

    /** No stale byte lands in a spare back-length byte when `x` is written behind the element that
        ends at the cursor. */
    predicate BehindClean(node: ByteListNode, bufIndex: nat, x: Str)
      requires |x| < MAX_STRING
      reads node`mem, node`len
    {
      CleanAt(node.mem, if bufIndex == 0 then node.len else bufIndex, x)
    }

    /** The last element is in the tail. */
    lemma PivotInTail(pivot: Str, pivotNode: ByteListNode?, c: Cursor, i: nat, j: nat)
      requires Valid() && PivotAt(pivot, pivotNode, c, i, j) && c.traversed == length
      ensures pivotNode == list.tail && c.bufIndex == 0
    {
      hide Flat, EncodeAll, EncodeEntry, Norm, SizeAgrees, Packed, AllStored, FirstIndex;
      FlatAround(groups, i);
      assert |groups[i]| + |Flat(groups[i + 1..])| == j + 1;
      if groups[i + 1..] != [] {
        assert groups[i + 1..][0] == groups[i + 1];
        FlatNotEmpty(groups[i + 1..]);
      }
    }

    /** Element `j` of node `i` is the first `pivot`. */
    ghost predicate FirstAt(pivot: Str, i: nat, j: nat)
      reads this, list
    {
      && i < |groups| && i < |list.spine| && j < |groups[i]| && AllStored(groups[i])
      && |Flat(groups[..i])| + j == FirstIndex(Contents(), pivot)
    }

    ghost predicate PlaceClean(x: Str, side: Side, i: nat, j: nat)
      requires |x| < MAX_STRING && Shape() && i < |groups| && i < |list.spine| && j < |groups[i]|
                 && AllStored(groups[i])
      reads this, list, list.spine
    {
      && (side.Before? && |Flat(groups[..i])| + j == 0 ==> LeftClean(x))
      && (side.After? ==> CleanAt(list.spine[i].mem, (if i == 0 then leftIdx else 0)
        + |EncodeAll(groups[i][..j + 1])|, x))
    }

    /** The bytes an insert next to the first `pivot` writes over leave no stale spare byte: those left
        of the cursor for one before the very first element, those behind the pivot for one after
        it. An insert elsewhere writes to a new node. */
    ghost predicate InsertClean(pivot: Str, x: Str, side: Side)
      requires |x| < MAX_STRING && Shape()
      reads this, list, list.spine
    {
      forall i, j :: FirstAt(pivot, i, j) ==> PlaceClean(x, side, i, j)
    }

    lemma InsertCleanHere(pivot: Str, x: Str, side: Side, pivotNode: ByteListNode?, c: Cursor, i: nat, j: nat)
      requires Valid() && |x| < MAX_STRING && PivotAt(pivot, pivotNode, c, i, j) && pivotNode != null
      ensures InsertClean(pivot, x, side) <==>
                && (side.Before? && c.traversed == 1 ==> LeftClean(x))
                && (side.After? ==> BehindClean(pivotNode, c.bufIndex, x))
    {
      hide Flat, Packed, Chain, EncodeAll, FirstIndex, CleanAt, LeftClean, AllStored, Shape;
      EndOfPivot(groups[i], j, c.bufIndex);
      assert FirstAt(pivot, i, j);
      assert PlaceClean(x, side, i, j) <==>
        && (side.Before? && c.traversed == 1 ==> LeftClean(x))
        && (side.After? ==> BehindClean(pivotNode, c.bufIndex, x));
      forall i', j' | FirstAt(pivot, i', j')
        ensures i' == i && j' == j
      {
        OnePlace(groups, i, j, i', j');
      }
    }

    /** LINSERT. `panicked` is a runtime panic: an element whose size is computed wrongly, or the
        capacity of a left push. */
    method LInsert(pivot: Str, element: Str, side: Side) returns (n: int, syntaxError: bool, panicked: bool)
      requires Valid() && |element| < MAX_STRING
      modifies this, list, list.spine
      ensures syntaxError <==> old(Contents()) != [] && side.Neither?
      ensures panicked <==>
                && InsertReply(old(Contents()), pivot, side) != -1
                && (|| !SizeAgrees(element)
                    || (&& side.Before? && old(Contents())[0] == pivot
                        && MIN_NODE_SIZE < old(leftIdx) < EntrySize(element)))
      ensures !panicked && old(InsertClean(pivot, element, side)) ==>
                && Valid() && NodesKept()
                && Contents() == Inserted(old(Contents()), pivot, Norm(element), side)
                && n == InsertReply(old(Contents()), pivot, side)
                && (if pivot in old(Contents()) && !side.Neither? then n == |Contents()| == |old(Contents())| + 1
                    else n == -1 && Contents() == old(Contents()))
    {
      InsertReplies(Contents(), pivot, Norm(element), side);
      hide Shape, At, Flat, PivotAt, EntrySize, SizeAgrees, Norm, InsertClean, BehindClean, LeftClean;
      if length == 0 {
        return -1, false, false;
      }
      if side.Neither? {
        return -1, true, false;
      }
      var found, pivotNode, c;
      ghost var i, j;
      found, pivotNode, c, i, j := FindPivot(pivot);
      if !found {
        return -1, false, false;
      }
      PivotThere(pivot, pivotNode, c, i, j);
      InsertCleanHere(pivot, element, side, pivotNode, c, i, j);
      if side.Before? {
        panicked := InsertBeforePivot(pivot, element, pivotNode, c, i, j);
      } else {
        panicked := InsertAfterPivot(pivot, element, pivotNode, c, i, j);
      }
      return length, false, panicked;
    }

    lemma PivotThere(pivot: Str, pivotNode: ByteListNode?, c: Cursor, i: nat, j: nat)
      requires PivotAt(pivot, pivotNode, c, i, j)
      ensures pivotNode != null
    {
    }

    /** Whether the bytes an insert writes over are clean. */
    method TestInsertClean(pivot: Str, x: Str, side: Side) returns (clean: bool)
      requires Valid() && |x| < MAX_STRING
      ensures clean <==> InsertClean(pivot, x, side)
    {
      hide Shape, At, Flat, PivotAt, EntrySize, InsertClean, CleanAt, SlotClean;
      if length == 0 {
        NoPivotClean(pivot, x, side);
        return true;
      }
      var found, pivotNode, c;
      ghost var i, j;
      found, pivotNode, c, i, j := FindPivot(pivot);
      if !found {
        NoPivotClean(pivot, x, side);
        return true;
      }
      PivotThere(pivot, pivotNode, c, i, j);
      InsertCleanHere(pivot, x, side, pivotNode, c, i, j);
      if side.Before? {
        clean := c.traversed != 1;
        if c.traversed == 1 {
          clean := TestLeftClean(x);
        }
      } else if side.After? {
        clean := BehindClean(pivotNode, c.bufIndex, x);
      } else {
        clean := true;
      }
    }

    method TestRightClean(x: Str) returns (clean: bool)
      requires Shape() && |x| < MAX_STRING
      ensures clean <==> RightClean(x)
    {
      hide NodeClean, EntrySize, Flat;
      return list.tail == null || list.tail.len >= |list.tail.mem| || NodeClean(list.tail, x);
    }

    method TestLeftClean(x: Str) returns (clean: bool)
      requires Shape() && |x| < MAX_STRING
      ensures clean <==> LeftClean(x)
    {
      hide SlotClean, EntrySize, Flat;
      HeadHolds();
      return list.head == null || SlotClean(list.head.mem, leftIdx, x);
    }

    lemma HeadHolds()
      requires Shape()
      ensures list.head != null ==> leftIdx <= |list.head.mem|
    {
    }

    lemma NoPivotClean(pivot: Str, x: Str, side: Side)
      requires Valid() && |x| < MAX_STRING && FirstIndex(Contents(), pivot) >= |Contents()|
      ensures InsertClean(pivot, x, side)
    {
      hide Packed, EncodeAll, AllStored, CleanAt, LeftClean, FirstIndex, Flat, Shape, PlaceClean, FirstAt;
      forall i: nat, j: nat ensures !FirstAt(pivot, i, j) {
        NotFirstAt(pivot, i, j);
      }
    }

    lemma NotFirstAt(pivot: Str, i: nat, j: nat)
      requires FirstIndex(Contents(), pivot) >= |Contents()|
      ensures !FirstAt(pivot, i, j)
    {
      hide FirstIndex, Flat, AllStored;
      if i < |groups| {
        FlatAround(groups, i);
      }
    }
  }

  /** The cursor behind element `j` of a node. */
  lemma EndOfPivot(g: seq<Str>, j: nat, bufIndex: nat)
    requires j < |g| && AllStored(g)
    ensures AllStored(g[..j + 1]) && (j + 1 == |g| ==> g[..j + 1] == g) && |EncodeAll(g[..j + 1])| > 0
  {
    hide EncodeEntry, Stored;
    PackedTake(g, j);
  }

  /** A position lies in one place of one group. */
  lemma OnePlace(gs: seq<seq<Str>>, i: nat, j: nat, i': nat, j': nat)
    requires i < |gs| && j < |gs[i]| && i' < |gs| && j' < |gs[i']| && |Flat(gs[..i])| + j == |Flat(gs[..i'])| + j'
    ensures i == i' && j == j'
  {
    hide Flat;
    FlatBelow(gs, i, i');
    FlatBelow(gs, i', i);
  }

  lemma FlatBelow(gs: seq<seq<Str>>, i: nat, k: nat)
    requires i < |gs| && k <= |gs|
    ensures i < k ==> |Flat(gs[..i])| + |gs[i]| <= |Flat(gs[..k])|
  {
    hide Flat;
    if i < k {
      assert gs[..k][..i] == gs[..i] && gs[..k][i] == gs[i];
      FlatAround(gs[..k], i);
    }
  }
}
