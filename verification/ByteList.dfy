/** The doubly linked list of byte buffers. */
module ByteLists {
  import opened Bytes
  import opened EntryCodec

  /** The size of a node struct: a slice header and two pointers. */
  const NODE_BYTES: int := 40

  /** A node's slice: `mem` is its backing array from the slice's first byte to its capacity,
      and the first `len` bytes of it are the slice. */
  class ByteListNode {
    var mem: Str
    var len: nat
    var next: ByteListNode?
    var prev: ByteListNode?

    constructor (capacity: nat)
      ensures mem == Zeros(capacity) && len == 0 && next == null && prev == null
    {
      mem := Zeros(capacity);
      len := 0;
      next := null;
      prev := null;
    }
  }

  /** Distinct nodes, each linked to its neighbour in both directions. */
  ghost predicate Chain(s: seq<ByteListNode>)
    reads s`next, s`prev
  {
    && (forall i, j :: 0 <= i < j < |s| ==> s[i] != s[j])
    && (forall i :: 0 <= i < |s| - 1 ==> s[i].next == s[i + 1])
    && (forall i :: 1 <= i < |s| ==> s[i].prev == s[i - 1])
  }

  ghost predicate Apart(a: seq<ByteListNode>, b: seq<ByteListNode>) {
    forall i, j :: 0 <= i < |a| && 0 <= j < |b| ==> a[i] != b[j]
  }

  lemma ApartParts(mid: seq<ByteListNode>, s: seq<ByteListNode>, k: nat)
    requires k <= |s| && Apart(mid, s) && Apart(s[..k], s[k..])
    ensures Apart(s[..k], mid) && Apart(mid, s[k..])
  {
  }

  function Just(n: ByteListNode?): set<ByteListNode> {
    if n == null then {} else {n}
  }

  lemma ChainOne(n: ByteListNode)
    ensures Chain([n])
  {
  }

  lemma ChainTwo(m: ByteListNode, n: ByteListNode)
    requires m != n && m.next == n && n.prev == m
    ensures Chain([m, n])
  {
  }

  lemma FreshApartTwo(m: ByteListNode, n: ByteListNode, s: seq<ByteListNode>)
    requires m !in s && n !in s
    ensures Apart([m, n], s)
  {
  }

  lemma ApartCons(n: ByteListNode, a: seq<ByteListNode>, s: seq<ByteListNode>)
    requires n !in s && Apart(a, s)
    ensures Apart([n] + a, s)
  {
  }

  lemma FreshApart(n: ByteListNode, s: seq<ByteListNode>)
    requires n !in s
    ensures Apart([n], s)
  {
  }

  lemma ApartMember(a: seq<ByteListNode>, b: seq<ByteListNode>, i: nat, j: nat)
    requires Apart(a, b) && i < |a| && j < |b|
    ensures a[i] != b[j]
  {
  }

  lemma ApartFirst(a: seq<ByteListNode>, b: seq<ByteListNode>)
    requires Apart(a, b) && a != []
    ensures a[0] !in b
  {
  }

  /** Sets the links on both sides of the chain `mid` put between `a` and `b`. */
  method SpliceLinks(before: ByteListNode?, first: ByteListNode, last: ByteListNode, pivot: ByteListNode,
                     ghost a: seq<ByteListNode>, ghost mid: seq<ByteListNode>, ghost b: seq<ByteListNode>)
    requires Chain(a) && Chain(mid) && Chain(b) && mid != [] && b != []
    requires Apart(a, mid) && Apart(a, b) && Apart(mid, b)
    requires before == if a == [] then null else a[|a| - 1]
    requires first == mid[0] && last == mid[|mid| - 1] && pivot == b[0]
    modifies Just(before)`next, pivot`prev, first`prev, last`next
    ensures Chain(a + mid + b) && first.prev == before
  {
    if before != null {
      before.next := first;
    }
    first.prev := before;
    last.next := pivot;
    pivot.prev := last;
    KeptLinks(a);
    KeptLinks(mid);
    KeptLinks(b);
    ChainJoin(a, mid);
    ChainJoin(a + mid, b);
  }

  /** Links the chains on both sides of a node to each other. */
  method CloseGap(before: ByteListNode?, after: ByteListNode?, ghost a: seq<ByteListNode>, ghost b: seq<ByteListNode>)
    requires Chain(a) && Chain(b) && Apart(a, b)
    requires before == if a == [] then null else a[|a| - 1]
    requires after == if b == [] then null else b[0]
    modifies Just(before)`next, Just(after)`prev
    ensures Chain(a + b)
    ensures (before != null ==> before.next == after) && (after != null ==> after.prev == before)
  {
    if before != null {
      before.next := after;
    }
    if after != null {
      after.prev := before;
    }
    KeptLinks(a);
    KeptLinks(b);
    ChainJoin(a, b);
  }

  class ByteList {
    var bufLen: nat
    var size: int
    var head: ByteListNode?
    var tail: ByteListNode?
    ghost var spine: seq<ByteListNode>

    constructor (bufLen: nat)
      ensures Valid() && spine == [] && size == 0 && this.bufLen == bufLen
    {
      this.bufLen := bufLen;
      size := 0;
      head := null;
      tail := null;
      spine := [];
    }

    ghost predicate Valid()
      reads this, spine`next, spine`prev
    {
      && Chain(spine)
      && (if spine == [] then head == null && tail == null
          else head == spine[0] && tail == spine[|spine| - 1] && head.prev == null && tail.next == null)
    }

    method NewNode(capacity: nat) returns (bn: ByteListNode)
      modifies `size
      ensures fresh(bn) && bn.mem == Zeros(capacity) && bn.len == 0 && bn.next == null && bn.prev == null
      ensures size == old(size) + NODE_BYTES
    {
      bn := new ByteListNode(capacity);
      size := size + NODE_BYTES;
    }

    method Append(bn: ByteListNode)
      requires Valid() && bn !in spine && bn.next == null && bn.prev == null
      modifies `head, `tail, `spine, bn`prev, Just(tail)`next
      ensures Valid() && spine == old(spine) + [bn]
    {
      bn.prev := tail;
      if tail != null {
        tail.next := bn;
      }
      tail := bn;
      if head == null {
        head := bn;
      }
      spine := spine + [bn];
    }

    method Prepend(bn: ByteListNode)
      requires Valid() && bn !in spine && bn.next == null && bn.prev == null
      modifies `head, `tail, `spine, bn`next, Just(head)`prev
      ensures Valid() && spine == [bn] + old(spine)
    {
      bn.next := head;
      if head != null {
        head.prev := bn;
      }
      head := bn;
      if tail == null {
        tail := bn;
      }
      spine := [bn] + spine;
    }

    /** Unlinks any node of the list. */
    method Delete(bn: ByteListNode, ghost k: nat)
      requires Valid() && k < |spine| && spine[k] == bn
      modifies `head, `tail, `spine, `size, Just(bn.prev)`next, Just(bn.next)`prev
      ensures Valid() && spine == old(spine[..k] + spine[k + 1..])
      ensures size == old(size) - NODE_BYTES
    {
      hide Chain, Apart;
      ChainAt(spine, k);
      ChainSplit(spine, k);
      if bn == head {
        head := bn.next;
      }
      if bn == tail {
        tail := bn.prev;
      }
      CloseGap(bn.prev, bn.next, spine[..k], spine[k + 1..]);
      size := size - NODE_BYTES;
      spine := spine[..k] + spine[k + 1..];
    }

    /** Links the chain `mid`, from `first` to `last`, in front of node `k`. */
    method LinkBefore(pivot: ByteListNode, first: ByteListNode, last: ByteListNode, ghost k: nat,
        ghost mid: seq<ByteListNode>)
      requires Valid() && k < |spine| && spine[k] == pivot
      requires Chain(mid) && mid != [] && mid[0] == first && mid[|mid| - 1] == last
      requires Apart(mid, spine)
      modifies `head, `spine, Just(pivot.prev)`next, pivot`prev, first`prev, last`next
      ensures Valid() && spine == old(spine[..k] + mid + spine[k..])
    {
      hide Chain, Apart;
      ChainAt(spine, k);
      ChainSplit(spine, k);
      ApartParts(mid, spine, k);
      ApartMember(mid, spine, |mid| - 1, |spine| - 1);
      ApartMember(mid, spine, 0, 0);
      SpliceLinks(pivot.prev, first, last, pivot, spine[..k], mid, spine[k..]);
      if first.prev == null {
        head := first;
      }
      spine := spine[..k] + mid + spine[k..];
    }

    /** Ends the list at node `k`; the nodes behind it stay linked to each other. */
    method CutAfter(pivot: ByteListNode, ghost k: nat)
      requires Valid() && k < |spine| && spine[k] == pivot
      modifies `tail, `spine, pivot`next
      ensures Valid() && spine == old(spine[..k + 1])
      ensures Chain(old(spine[k + 1..])) && Apart(old(spine[k + 1..]), spine)
    {
      hide Chain, Apart;
      ChainAt(spine, k);
      ChainSplit(spine, k + 1);
      pivot.next := null;
      tail := pivot;
      KeptLinks(spine[..k + 1]);
      KeptLinks(spine[k + 1..]);
      spine := spine[..k + 1];
    }

    /** Puts a new node in front of a loose chain. */
    method LinkFirst(n: ByteListNode, first: ByteListNode?, ghost suffix: seq<ByteListNode>)
      requires Chain(suffix) && n !in suffix && n.next == null
      requires first == if suffix == [] then null else suffix[0]
      modifies n`next, Just(first)`prev
      ensures Chain([n] + suffix) && n.next == first
    {
      if first != null {
        first.prev := n;
      }
      n.next := first;
      if suffix != [] { ChainAt(suffix, 0); }
      KeptLinks(suffix);
      ChainJoin([n], suffix);
    }

    /** Hangs a chain of nodes behind the current tail. */
    method Rejoin(first: ByteListNode, last: ByteListNode, ghost suffix: seq<ByteListNode>)
      requires Valid() && spine != []
      requires Chain(suffix) && suffix != [] && suffix[0] == first && suffix[|suffix| - 1] == last && last.next == null
      requires Apart(suffix, spine)
      modifies `tail, `spine, Just(tail)`next, first`prev
      ensures Valid() && spine == old(spine) + suffix
    {
      ChainAt(spine, |spine| - 1);
      tail.next := first;
      first.prev := tail;
      tail := last;
      KeptLinks(spine);
      KeptLinks(suffix);
      ChainJoin(spine, suffix);
      spine := spine + suffix;
    }
  }

  /** A chain survives changes to its two outer links. */
  twostate lemma KeptLinks(s: seq<ByteListNode>)
    requires old(Chain(s))
    requires forall i :: 0 <= i < |s| - 1 ==> s[i].next == old(s[i].next)
    requires forall i :: 0 < i < |s| ==> s[i].prev == old(s[i].prev)
    ensures Chain(s)
  {
  }

  /** A node's neighbours, and that it occurs once. */
  lemma ChainAt(s: seq<ByteListNode>, k: nat)
    requires Chain(s) && k < |s|
    ensures k + 1 < |s| ==> s[k].next == s[k + 1]
    ensures k > 0 ==> s[k].prev == s[k - 1]
    ensures s[k] !in s[..k] && s[k] !in s[k + 1..]
    ensures forall i :: 0 <= i < |s| && i != k ==> s[i] != s[k]
  {
  }

  /** Two chains joined at their ends form one. */
  lemma ChainJoin(a: seq<ByteListNode>, b: seq<ByteListNode>)
    requires Chain(a) && Chain(b)
    requires Apart(a, b)
    requires a != [] && b != [] ==> a[|a| - 1].next == b[0] && b[0].prev == a[|a| - 1]
    ensures Chain(a + b)
  {
  }

  lemma ChainSplit(s: seq<ByteListNode>, k: nat)
    requires Chain(s) && k <= |s|
    ensures Chain(s[..k]) && Chain(s[k..])
    ensures Apart(s[..k], s[k..])
    ensures k < |s| ==> Apart(s[..k], s[k + 1..]) && Chain(s[k + 1..])
    ensures Apart(s[k..], s[..k])
  {
  }
}
