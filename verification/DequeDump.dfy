/** DUMP and RESTORE of a list: the serialised form of the packed deque, and which deques survive it. */
module DequeDump {
  import opened Bytes
  import opened Sequences
  import opened EntryCodec
  import opened PlainList
  import opened ByteLists
  import opened Deques
  import CapacityPanic

  const INT32: nat := 0x1_0000_0000
  const HALF32: nat := 0x8000_0000
  const HALF64: nat := 0x8000_0000_0000_0000

  /** The fields of a deque; a node is written without its spare capacity. */
  datatype Image = Image(length: nat, leftIdx: nat, bufLen: nat, size: nat, nodes: seq<Str>)

  /** Every field fits the signed integer it is written as, and no node is empty. */
  predicate Fits(im: Image) {
    && im.length < HALF64 && im.size < HALF64 && im.leftIdx < HALF32 && im.bufLen < HALF32 && |im.nodes| < HALF32
    && NodesFit(im.nodes)
  }

  predicate NodesFit(nodes: seq<Str>) {
    forall i :: 0 <= i < |nodes| ==> 0 < |nodes[i]| < HALF32
  }

  function NodeBytes(nodes: seq<Str>): Str {
    if nodes == [] then [] else BigEndian(|nodes[0]|, 4) + (nodes[0] + NodeBytes(nodes[1..]))
  }

  function Serialize(im: Image): Str {
    BigEndian(im.length, 8) + (BigEndian(im.leftIdx, 4) + (BigEndian(im.bufLen, 4) +
    (BigEndian(im.size, 8) + (BigEndian(|im.nodes|, 4) + NodeBytes(im.nodes)))))
  }

  /** A fixed-size field and the bytes after it; `None` when the input ends before. */
  function ReadField(s: Str, n: nat): Option<(nat, Str)> {
    if |s| < n then None else Some((BigEndianValue(s[..n]), s[n..]))
  }

  datatype Outcome<+T> = Failed | Panicked | Read(value: T)

  /** The nodes of a list. A negative length panics; a node cut short is filled up with zeros, and only
      nothing at all is an error. */
  function ReadNodes(s: Str, n: nat): Outcome<seq<Str>>
    decreases n
  {
    if n == 0 then Read([])
    else
      match ReadField(s, 4)
      case None => Failed
      case Some((size, rest)) =>
        if size >= HALF32 then Panicked
        else if rest == [] then Failed
        else
          var got := if |rest| >= size then rest[..size] else rest + Zeros(size - |rest|);
          match ReadNodes(if |rest| >= size then rest[size..] else [], n - 1)
          case Read(nodes) => Read([got] + nodes)
          case Failed => Failed
          case Panicked => Panicked
  }

  /** A negative number of nodes reads none. Lengths and cursors are taken as written. */
  function Deserialize(s: Str): Outcome<Image> {
    match ReadField(s, 8)
    case None => Failed
    case Some((length, s1)) =>
      match ReadField(s1, 4)
      case None => Failed
      case Some((leftIdx, s2)) =>
        match ReadField(s2, 4)
        case None => Failed
        case Some((bufLen, s3)) =>
          match ReadField(s3, 8)
          case None => Failed
          case Some((size, s4)) =>
            match ReadField(s4, 4)
            case None => Failed
            case Some((count, s5)) =>
              match ReadNodes(s5, if count < HALF32 then count else 0)
              case Read(nodes) => Read(Image(length, leftIdx, bufLen, size, nodes))
              case Failed => Failed
              case Panicked => Panicked
  }

  lemma FieldBack(v: nat, n: nat, rest: Str)
    requires v < Pow(256, n)
    ensures ReadField(BigEndian(v, n) + rest, n) == Some((v, rest))
  {
    hide BigEndian, BigEndianValue, Pow;
    BigEndianRoundTrip(v, n);
    Halves(BigEndian(v, n), rest);
    ModSmall(v, Pow(256, n));
  }

  lemma ModSmall(v: nat, m: nat)
    requires v < m
    ensures v % m == v
  {
  }

  lemma NodeBack(n: Str, rest: Str, count: nat)
    requires 0 < |n| < HALF32 && count > 0
    ensures ReadNodes(BigEndian(|n|, 4) + (n + rest), count) ==
              match ReadNodes(rest, count - 1)
              case Read(nodes) => Read([n] + nodes)
              case Failed => Failed
              case Panicked => Panicked
  {
    hide ReadField, BigEndian, Pow;
    PowValues();
    FieldBack(|n|, 4, n + rest);
    Halves(n, rest);
  }

  lemma {:induction false} NodesBack(nodes: seq<Str>, more: Str)
    requires NodesFit(nodes)
    ensures ReadNodes(NodeBytes(nodes) + more, |nodes|) == Read(nodes)
    decreases |nodes|
  {
    hide ReadField, BigEndian;
    if nodes != [] {
      var n, ns := nodes[0], nodes[1..];
      NodesBack(ns, more);
      hide ReadNodes;
      NodeBack(n, NodeBytes(ns) + more, |nodes|);
      AppendAssoc(BigEndian(|n|, 4), n + NodeBytes(ns), more);
      AppendAssoc(n, NodeBytes(ns), more);
      HeadTail(nodes);
    }
  }

  lemma FieldAt(v: nat, n: nat, rest: Str)
    requires v < Pow(256, n)
    ensures var s := BigEndian(v, n) + rest; |s| >= n && BigEndianValue(s[..n]) == v && s[n..] == rest
  {
    FieldBack(v, n, rest);
  }

  /** Where the fields are in the serialised bytes. */
  lemma FieldsAt(im: Image)
    requires Fits(im)
    ensures var s := Serialize(im);
            && |s| >= 28 && BigEndianValue(s[..8]) == im.length && BigEndianValue(s[8..12]) == im.leftIdx
            && BigEndianValue(s[12..16]) == im.bufLen && BigEndianValue(s[16..24]) == im.size
            && BigEndianValue(s[24..28]) == |im.nodes| && s[28..] == NodeBytes(im.nodes)
  {
    hide NodeBytes, BigEndian, BigEndianValue;
    PowValues();
    var s5 := NodeBytes(im.nodes);
    var s4 := BigEndian(|im.nodes|, 4) + s5;
    var s3 := BigEndian(im.size, 8) + s4;
    var s2 := BigEndian(im.bufLen, 4) + s3;
    var s1 := BigEndian(im.leftIdx, 4) + s2;
    FieldAt(im.length, 8, s1);
    FieldAt(im.leftIdx, 4, s2);
    FieldAt(im.bufLen, 4, s3);
    FieldAt(im.size, 8, s4);
    FieldAt(|im.nodes|, 4, s5);
    var s := Serialize(im);
    assert s[8..12] == s1[..4] && s[12..16] == s2[..4] && s[16..24] == s3[..8] && s[24..28] == s4[..4] && s[28..] == s5;
  }

  /** Every field and every node comes back, whatever follows in the input. */
  lemma RoundTrip(im: Image, more: Str)
    requires Fits(im)
    ensures Deserialize(Serialize(im) + more) == Read(im)
  {
    hide ReadField, ReadNodes, NodeBytes, BigEndian;
    PowValues();
    var s5 := NodeBytes(im.nodes) + more;
    var s4 := BigEndian(|im.nodes|, 4) + s5;
    var s3 := BigEndian(im.size, 8) + s4;
    var s2 := BigEndian(im.bufLen, 4) + s3;
    var s1 := BigEndian(im.leftIdx, 4) + s2;
    assert Serialize(im) + more == BigEndian(im.length, 8) + s1;
    FieldBack(im.length, 8, s1);
    FieldBack(im.leftIdx, 4, s2);
    FieldBack(im.bufLen, 4, s3);
    FieldBack(im.size, 8, s4);
    FieldBack(|im.nodes|, 4, s5);
    NodesBack(im.nodes, more);
  }

  /** The image holds the bytes of each node in order. */
  ghost predicate Shows(im: Image, spine: seq<ByteListNode>)
    reads spine`mem, spine`len
  {
    && |im.nodes| == |spine|
    && forall i :: 0 <= i < |spine| ==> spine[i].len <= |spine[i].mem| && im.nodes[i] == spine[i].mem[..spine[i].len]
  }

  /** Walks the nodes from the head. */
  method Dump(q: Deque) returns (im: Image)
    requires q.Valid()
    ensures Shows(im, q.list.spine) && im.length == q.length && im.leftIdx == q.leftIdx
    ensures im.bufLen == q.list.bufLen && im.size == q.list.size
  {
    hide Flat, AllStored, EncodeAll, NonEmptyGroups;
    var nodes: seq<Str> := [];
    var current := q.list.head;
    ghost var i := 0;
    ghost var spine := q.list.spine;
    while current != null
      invariant i <= |spine| && |nodes| == i
      invariant current == if i < |spine| then spine[i] else null
      invariant forall k :: 0 <= k < i ==> spine[k].len <= |spine[k].mem| && nodes[k] == spine[k].mem[..spine[k].len]
      decreases |spine| - i
    {
      ChainAt(spine, i);
      assert NodeHolds(spine[i], if i == 0 then q.leftIdx else 0, q.groups[i]);
      nodes := nodes + [current.mem[..current.len]];
      current := current.next;
      i := i + 1;
    }
    im := Image(q.length, q.leftIdx, q.list.bufLen, q.list.size, nodes);
  }

  /** Each node of the image becomes a node whose capacity is its length. */
  ghost predicate Rebuilt(im: Image, spine: seq<ByteListNode>)
    reads spine`mem, spine`len
  {
    && |spine| == |im.nodes|
    && forall i :: 0 <= i < |spine| ==> spine[i].mem == im.nodes[i] && spine[i].len == |im.nodes[i]|
  }

  method AddNode(list: ByteList, bytes: Str)
    requires list.Valid()
    modifies list`head, list`tail, list`spine, Just(list.tail)`next
    ensures list.Valid() && list.tail != null && fresh(list.tail) && list.spine == old(list.spine) + [list.tail]
    ensures list.tail.mem == bytes && list.tail.len == |bytes|
  {
    hide Chain;
    var node := new ByteListNode(0);
    node.mem := bytes;
    node.len := |bytes|;
    list.Append(node);
  }

  lemma TailInSpine(list: ByteList)
    requires list.Valid()
    ensures list.tail != null ==> list.tail in list.spine
    ensures list.head != null ==> list.head in list.spine
  {
  }

  method RestoreList(im: Image) returns (list: ByteList)
    ensures fresh(list) && list.Valid() && Rebuilt(im, list.spine) && forall n :: n in list.spine ==> fresh(n)
    ensures list.bufLen == im.bufLen && list.size == im.size
  {
    hide Chain;
    list := new ByteList(im.bufLen);
    for i := 0 to |im.nodes|
      invariant fresh(list) && list.Valid() && |list.spine| == i && list.bufLen == im.bufLen
      invariant forall n :: n in list.spine ==> fresh(n)
      invariant forall k :: 0 <= k < i ==> list.spine[k].mem == im.nodes[k] && list.spine[k].len == |im.nodes[k]|
    {
      TailInSpine(list);
      AddNode(list, im.nodes[i]);
    }
    list.size := im.size;
  }

  method Restore(im: Image, ghost gs: seq<seq<Str>>) returns (q: Deque)
    ensures fresh(q) && fresh(q.list) && q.list.Valid() && Rebuilt(im, q.list.spine)
              && forall n :: n in q.list.spine ==> fresh(n)
    ensures q.length == im.length && q.leftIdx == im.leftIdx && q.list.bufLen == im.bufLen && q.list.size == im.size
    ensures q.groups == gs
  {
    var list := RestoreList(im);
    q := new Deque.Of(im.length, list, im.leftIdx, gs);
  }

  lemma SameGroups(im: Image, spine: seq<ByteListNode>, rebuilt: seq<ByteListNode>, start: nat, gs: seq<seq<Str>>)
    requires Shows(im, spine) && Rebuilt(im, rebuilt) && Packed(spine, start, gs)
    ensures Packed(rebuilt, start, gs)
  {
    hide AllStored, EncodeAll;
    forall i | 0 <= i < |gs| ensures NodeHolds(rebuilt[i], if i == 0 then start else 0, gs[i]) {
      assert NodeHolds(spine[i], if i == 0 then start else 0, gs[i]);
      var from := if i == 0 then start else 0;
      assert im.nodes[i][from..] == spine[i].mem[from..spine[i].len];
    }
  }

  /** The length is 0 but a node is left, with popped bytes in front of the cursor. */
  predicate Emptied(q: Deque)
    reads q, q.list
  {
    q.length == 0 && q.list.head != null
  }

  /** Lengths and places fit the integers they are written as. */
  ghost predicate Small(q: Deque)
    reads q, q.list, q.list.spine
  {
    && q.length < HALF64 && q.leftIdx < HALF32 && |q.list.spine| < HALF32
    && forall i :: 0 <= i < |q.list.spine| ==> q.list.spine[i].len < HALF32
  }

  /** What the restored deque is to the one that was saved: a deque with the same elements, except
      that one emptied from the right has neither elements nor capacity in its only node. */
  ghost predicate RestoredOf(r: Deque, q: Deque)
    reads r, r.list, r.list.spine, q, q.list, q.list.spine
  {
    && r.length == q.length && r.leftIdx == q.leftIdx && r.list.Valid() && r.list.bufLen == MIN_NODE_SIZE
    && (r.Valid() <==> !Emptied(q))
    && (!Emptied(q) ==> r.Contents() == q.Contents())
    && (Emptied(q) ==>
          && r.list.head != null && r.list.head == r.list.tail
          && r.leftIdx > 0 && r.list.head.len == |r.list.head.mem| == r.leftIdx)
  }

  /** DUMP and RESTORE through the serialised bytes, whatever follows them. */
  method DumpRestore(q: Deque, more: Str) returns (o: Outcome<Deque>)
    requires q.Valid()
    ensures Small(q) ==> o.Read? && RestoredOf(o.value, q)
    ensures o.Read? ==>
              fresh(o.value) && fresh(o.value.list) && forall n :: n in o.value.list.spine ==> fresh(n)
  {
    hide Flat, Packed, Chain, NodeHolds, Rebuilt, Shows, Serialize, Deserialize, RestoredOf, NonEmptyGroups, Fits;
    var im := Dump(q);
    if Small(q) {
      SmallFits(q, im);
      RoundTrip(im, more);
    }
    match Deserialize(Serialize(im) + more) {
      case Failed => o := Failed;
      case Panicked => o := Panicked;
      case Read(got) =>
        var r := Restore(got, q.groups);
        o := Read(r);
        if Small(q) {
          RebuiltDeque(im, q, r);
        }
    }
  }

  /** Every node holds a byte, so the image can be written. */
  lemma SmallFits(q: Deque, im: Image)
    requires q.Valid() && Small(q) && Shows(im, q.list.spine) && im.length == q.length && im.leftIdx == q.leftIdx
    requires im.bufLen == q.list.bufLen && im.size == q.list.size
    ensures Fits(im)
  {
    hide Flat, Chain, EncodeEntry;
    forall i | 0 <= i < |im.nodes| ensures 0 < |im.nodes[i]| < HALF32 {
      var start := if i == 0 then q.leftIdx else 0;
      assert NodeHolds(q.list.spine[i], start, q.groups[i]);
      assert q.groups[i] == [] ==> start > 0;
      if q.groups[i] != [] {
        HeldBytes(q.groups[i]);
      }
    }
  }

  lemma HeldBytes(g: seq<Str>)
    requires AllStored(g) && g != []
    ensures |EncodeAll(g)| > 0
  {
    hide EncodeEntry;
  }

  lemma RebuiltDeque(im: Image, q: Deque, r: Deque)
    requires q.Valid() && Shows(im, q.list.spine) && r.list.Valid() && Rebuilt(im, r.list.spine)
    requires r.groups == q.groups && r.length == im.length == q.length && r.leftIdx == im.leftIdx == q.leftIdx
    requires r.list.bufLen == im.bufLen == q.list.bufLen && r.list.size == im.size == q.list.size
    ensures RestoredOf(r, q)
  {
    hide Flat, Packed, Chain, NodeHolds, Rebuilt, Shows;
    SameGroups(im, q.list.spine, r.list.spine, q.leftIdx, q.groups);
    RebuiltFull(im, q.list.spine, r.list.spine);
    PackedLength(q.list.spine, q.leftIdx, q.groups);
    FlatOfEmpty(q.groups);
    FlatNotEmpty(q.groups);
    if !NonEmptyGroups(q.groups) {
      EmptyHolds(q.list.spine, q.leftIdx);
    }
  }

  lemma RebuiltFull(im: Image, spine: seq<ByteListNode>, rebuilt: seq<ByteListNode>)
    requires Shows(im, spine) && Rebuilt(im, rebuilt)
    ensures |rebuilt| == |spine|
    ensures forall i :: 0 <= i < |spine| ==> rebuilt[i].len == |rebuilt[i].mem| == spine[i].len
  {
  }

  lemma FlatOfEmpty(gs: seq<seq<Str>>)
    ensures gs == [[]] ==> Flat(gs) == []
  {
    if gs == [[]] {
      assert Flat(gs) == gs[0] + Flat(gs[1..]) && gs[1..] == [];
    }
  }

  lemma EmptyHolds(spine: seq<ByteListNode>, start: nat)
    requires |spine| == 1 && Packed(spine, start, [[]])
    ensures spine[0].len == start
  {
    assert NodeHolds(spine[0], start, [[]][0]);
    assert EncodeAll([]) == [];
  }

  /** After such a restore RPUSH opens a second node, and the next LPOP decodes at the end of the first. */
  method PushAfterRestore(q: Deque, more: Str, x: Str) returns (r: Deque)
    requires q.Valid() && Small(q) && Emptied(q) && |x| < MAX_STRING && SizeAgrees(x)
    ensures r.length == 1 && r.list.head != null && r.leftIdx <= r.list.head.len <= |r.list.head.mem|
    ensures DecodeEntry(r.list.head.mem[r.leftIdx..r.list.head.len]) == None
  {
    hide Flat, Packed, Chain, NodeHolds, SizeAgrees, Norm, EntrySize, Small, Deque.Shape;
    var o := DumpRestore(q, more);
    r := o.value;
    TailInSpine(r.list);
    ghost var head := r.list.head;
    var panicked := r.RPush(x);
    assert r.list.head == head;
  }

  /** LPUSH and RPOP of one letter leave a deque that is emptied and small. */
  method EmptiedFromTheRight() returns (q: Deque)
    ensures fresh(q) && q.Valid() && Small(q) && Emptied(q)
  {
    hide EntrySize, Norm, SizeAgrees, CapacityPanic.Letters, EncodeEntry, Flat, Packed, Chain, LeavesSpareByte;
    CapacityPanic.LettersEntry(1);
    q := new Deque();
    q.LeftCleanWithoutSpare(CapacityPanic.Letters(1));
    label first:
    var panicked := q.LPush(CapacityPanic.Letters(1));
    q.LeftContents@first(CapacityPanic.Letters(1));
    assert q.leftIdx == 253 && q.groups == [[CapacityPanic.Letters(1)]];
    q.ShapeGroups();
    var r := q.RPop();
    assert [CapacityPanic.Letters(1)][..0] == [];
    assert q.groups == [[]] && q.groups[0] == [];
    FlatOfEmpty(q.groups);
    EmptyHolds(q.list.spine, q.leftIdx);
  }
}
