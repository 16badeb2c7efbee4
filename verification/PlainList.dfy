/** The list both deques implement, as a plain sequence of strings. */
module PlainList {
  import opened Bytes
  import opened EntryCodec
  import opened Varint
  import opened Sequences

  datatype Side = Before | After | Neither

  /** Where `x` first occurs, or the length of `s`. */
  function FirstIndex(s: seq<Str>, x: Str): (k: nat)
    ensures k <= |s|
    ensures k < |s| ==> s[k] == x
    ensures forall i :: 0 <= i < k ==> s[i] != x
  {
    if s == [] || s[0] == x then 0 else 1 + FirstIndex(s[1..], x)
  }

  function InsertAt(s: seq<Str>, k: nat, x: Str): seq<Str>
    requires k <= |s|
  {
    s[..k] + [x] + s[k..]
  }

  lemma InsertAtEnds(s: seq<Str>, x: Str)
    ensures InsertAt(s, 0, x) == [x] + s && InsertAt(s, |s|, x) == s + [x]
  {
  }

  /** The list after `LINSERT side pivot x`. */
  function Inserted(s: seq<Str>, pivot: Str, x: Str, side: Side): seq<Str> {
    var k := FirstIndex(s, pivot);
    if k == |s| || side.Neither? then s
    else InsertAt(s, if side.Before? then k else k + 1, x)
  }

  function InsertReply(s: seq<Str>, pivot: Str, side: Side): int {
    if FirstIndex(s, pivot) == |s| || side.Neither? then -1 else |s| + 1
  }

  /** An insert finds the first pivot, puts the element right before or behind it and is answered with
      the new length. Without a pivot or a side nothing changes and the answer is -1. */
  lemma InsertedNextToPivot(s: seq<Str>, pivot: Str, x: Str, side: Side)
    ensures pivot in s && !side.Neither? ==>
              && InsertReply(s, pivot, side) == |Inserted(s, pivot, x, side)| == |s| + 1
              && forall k :: 0 <= k < |s| && s[k] == pivot && pivot !in s[..k] ==>
                   Inserted(s, pivot, x, side)
                   == if side.Before? then s[..k] + [x, pivot] + s[k + 1..] else s[..k] + [pivot, x] + s[k + 1..]
    ensures pivot !in s || side.Neither? ==>
              InsertReply(s, pivot, side) == -1 && Inserted(s, pivot, x, side) == s
  {
    hide InsertAt;
    FirstIndexIn(s, pivot);
    forall k | 0 <= k < |s| && s[k] == pivot && pivot !in s[..k]
      ensures Inserted(s, pivot, x, side) == if side.Before? then InsertAt(s, k, x)
                                             else if side.After? then InsertAt(s, k + 1, x) else s
      ensures InsertAt(s, k, x) == s[..k] + [x, pivot] + s[k + 1..]
      ensures InsertAt(s, k + 1, x) == s[..k] + [pivot, x] + s[k + 1..]
    {
      FirstIndexAt(s, pivot, k);
      InsertAround(s, k, x);
    }
    var k := FirstIndex(s, pivot);
    if k < |s| {
      InsertAround(s, k, x);
    }
  }

  lemma InsertReplies(s: seq<Str>, pivot: Str, x: Str, side: Side)
    ensures if pivot in s && !side.Neither? then InsertReply(s, pivot, side) == |Inserted(s, pivot, x, side)| == |s| + 1
            else InsertReply(s, pivot, side) == -1 && Inserted(s, pivot, x, side) == s
  {
    InsertedNextToPivot(s, pivot, x, side);
  }

  lemma FirstIndexIn(s: seq<Str>, x: Str)
    ensures x in s <==> FirstIndex(s, x) < |s|
  {
  }

  lemma FirstIndexAt(s: seq<Str>, x: Str, k: nat)
    requires k < |s| && s[k] == x && x !in s[..k]
    ensures FirstIndex(s, x) == k
  {
    forall i | 0 <= i < k ensures s[i] != x {
      assert s[..k][i] == s[i];
    }
    FirstIndexUnique(s, x, k);
  }

  lemma InsertAround(s: seq<Str>, k: nat, x: Str)
    requires k < |s|
    ensures InsertAt(s, k, x) == s[..k] + [x, s[k]] + s[k + 1..] && |InsertAt(s, k, x)| == |s| + 1
    ensures InsertAt(s, k + 1, x) == s[..k] + [s[k], x] + s[k + 1..] && |InsertAt(s, k + 1, x)| == |s| + 1
  {
  }

  lemma FirstIndexUnique(s: seq<Str>, x: Str, k: nat)
    requires k < |s| && s[k] == x && forall i :: 0 <= i < k ==> s[i] != x
    ensures FirstIndex(s, x) == k
  {
  }

  lemma FirstIndexAbsent(s: seq<Str>, x: Str)
    requires forall i :: 0 <= i < |s| ==> s[i] != x
    ensures FirstIndex(s, x) == |s|
  {
  }

  function SanitizeStart(length: int, start: int): (r: nat) {
    var s := if start < 0 then length + start else start;
    if s < 0 then 0 else s
  }

  function SanitizeStop(length: int, stop: int): (r: int)
    ensures r < length
  {
    var s := if stop < 0 then length + stop else stop;
    if s >= length then length - 1 else s
  }

  /** The elements from `start` to `stop` inclusive, counting from the end when negative. */
  function Range(s: seq<Str>, start: int, stop: int): seq<Str> {
    var a, b := SanitizeStart(|s|, start), SanitizeStop(|s|, stop);
    if a > b then [] else s[a..b + 1]
  }

  /** An index counted from the end when negative. */
  function Resolve(length: nat, i: int): int {
    if i < 0 then length + i else i
  }

  predicate Between(length: nat, start: int, stop: int, k: nat) {
    Resolve(length, start) <= k <= Resolve(length, stop)
  }

  /** A range is exactly the elements whose index lies between the two resolved bounds. */
  lemma RangeBetween(s: seq<Str>, start: int, stop: int) returns (lo: nat)
    ensures var r := Range(s, start, stop);
            && lo + |r| <= |s| && r == s[lo..lo + |r|]
            && forall k :: 0 <= k < |s| ==> (lo <= k < lo + |r| <==> Between(|s|, start, stop, k))
  {
    var a, b := SanitizeStart(|s|, start), SanitizeStop(|s|, stop);
    lo := if a > b then 0 else a;
    assert s[0..0] == [];
  }

  /** What an element looks like once stored: already normalised. */
  predicate Kept(e: Str) {
    |e| < MAX_STRING && Norm(e) == e
  }

  predicate AllKept(s: seq<Str>)
    ensures AllKept(s) ==> AllShort(s)
  {
    forall i :: 0 <= i < |s| ==> Kept(s[i])
  }

  /** The packed deque's elements are moreover sized as they are encoded. */
  predicate Stored(e: Str) {
    Kept(e) && SizeAgrees(e)
  }

  predicate AllStored(s: seq<Str>)
    ensures AllStored(s) ==> AllKept(s) && AllShort(s)
  {
    forall i :: 0 <= i < |s| ==> Stored(s[i])
  }

  /** Everything a push needs to know about writing `x` into a slot of the computed size. */
  lemma PushedEntry(x: Str, slot: Str)
    requires |x| < MAX_STRING && |slot| == EntrySize(x)
    ensures EntrySize(x) >= 2
    ensures EncodeInPlace(x, slot).None? <==> !SizeAgrees(x)
    ensures SizeAgrees(x) ==> Stored(Norm(x)) && |EncodeEntry(Norm(x))| == EntrySize(x)
    ensures SizeAgrees(x) && SpareClean(x, slot) ==> EncodeInPlace(x, slot) == Some(EncodeEntry(Norm(x)))
  {
    hide EncodeInPlace, EncodeEntry, EntrySize, Norm, SizeAgrees, SpareClean;
    InPlaceAgrees(x, slot);
    NormStored(x);
    SizeIsLength(x);
    EntrySizeAtLeastTwo(x);
  }

  lemma EntrySizeAtLeastTwo(x: Str)
    requires |x| < MAX_STRING
    ensures EntrySize(x) >= 2
  {
  }

  lemma ZeroSlotClean(x: Str, n: nat)
    requires |x| < MAX_STRING
    ensures SpareClean(x, Zeros(n))
  {
    hide StrBody, LeavesSpareByte;
  }

  lemma StoredSize(e: Str)
    requires Stored(e)
    ensures |EncodeEntry(e)| == EntrySize(e)
  {
    SizeIsLength(e);
  }

  lemma PackedOne(e: Str)
    requires Stored(e)
    ensures AllStored([e]) && EncodeAll([e]) == EncodeEntry(e)
  {
    hide EncodeEntry, Norm, SizeAgrees;
  }

  lemma PackedAppend(g: seq<Str>, e: Str)
    requires AllStored(g) && Stored(e)
    ensures AllStored(g + [e]) && EncodeAll(g + [e]) == EncodeAll(g) + EncodeEntry(e)
  {
    hide EncodeEntry, Norm, SizeAgrees, EncodeAll;
    EncodeAllAppend(g, [e]);
    EncodeAllOne(e);
  }

  /** The packed length grows entry by entry. */
  lemma PackedTake(g: seq<Str>, j: nat)
    requires AllStored(g) && j < |g|
    ensures AllStored(g[..j]) && AllStored(g[..j + 1])
    ensures EncodeAll(g[..j + 1]) == EncodeAll(g[..j]) + EncodeEntry(g[j])
    ensures |g[..j + 1]| == |g| ==> g[..j + 1] == g
  {
    hide EncodeEntry, Stored, EncodeAll;
    PackedAppend(g[..j], g[j]);
    TakeDrop(g, j);
  }

  /** The entry at the left end of a packed run. */
  lemma FirstOfPacked(g: seq<Str>)
    requires AllKept(g) && g != []
    ensures DecodeEntry(EncodeAll(g)) == Some((g[0], |EncodeEntry(g[0])|))
    ensures |EncodeEntry(g[0])| <= |EncodeAll(g)|
    ensures EncodeAll(g)[|EncodeEntry(g[0])|..] == EncodeAll(g[1..])
    ensures |g| > 1 <==> |EncodeEntry(g[0])| < |EncodeAll(g)|
  {
    hide EncodeEntry, Norm, SizeAgrees, DecodeEntry;
    DecodeEncoded(g[0], EncodeAll(g[1..]));
    assert |g| > 1 ==> g[1..] != [] && |EncodeEntry(g[1..][0])| >= 2;
  }

  /** The entry at the right end: what the scan, the back-length and the decoder find. */
  lemma LastOfPacked(front: Str, g: seq<Str>)
    requires AllKept(g) && g != []
    ensures AllKept(g[..|g| - 1])
    ensures |EncodeAll(g[..|g| - 1])| < |EncodeAll(g)| && (EncodeAll(g[..|g| - 1]) == [] <==> |g| == 1)
    ensures LastEntryAt(front + EncodeAll(g), front + EncodeAll(g[..|g| - 1]), g[|g| - 1])
  {
    hide EncodeEntry, Norm, SizeAgrees, EncodeAll, LastEntryAt;
    var m := |g| - 1;
    InitLast(g);
    EncodeAllAppend(g[..m], [g[m]]);
    EncodeAllOne(g[m]);
    AppendAssoc(front, EncodeAll(g[..m]), EncodeEntry(g[m]));
    LastEntryFound(front + EncodeAll(g[..m]), g[m]);
    EncodeAllEmpty(g[..m]);
  }

  lemma EncodeAllEmpty(g: seq<Str>)
    requires AllShort(g)
    ensures EncodeAll(g) == [] <==> g == []
  {
    hide EncodeEntry;
  }

  /** From the right end of `buf` one finds entry `e`, and what is left of it. */
  ghost predicate LastEntryAt(buf: Str, left: Str, e: Str) {
    && BackFieldStart(buf).Some?
    && var b := BackFieldStart(buf).value;
    && |left| <= b
    && RevValue(buf[b..]) == b - |left| < TWO64
    && DecodeEntry(buf[|left|..b]).Some? && DecodeEntry(buf[|left|..b]).value.0 == e
    && buf[..|left|] == left
  }

  lemma LastEntryFound(left: Str, e: Str)
    requires Kept(e)
    ensures LastEntryAt(left + EncodeEntry(e), left, e)
  {
    hide EncodeEntry, Norm, SizeAgrees, DecodeEntry, BackFieldStart, RevValue, EntryBody;
    EntryFromRight(left, e);
    DecodeEncoded(e, []);
    EntryBodyShort(e);
  }

  lemma EntryBodyShort(x: Str)
    requires |x| < MAX_STRING
    ensures |EntryBody(x)| < TWO64
  {
  }

  lemma PackedPrepend(e: Str, g: seq<Str>)
    requires AllStored(g) && Stored(e)
    ensures AllStored([e] + g) && EncodeAll([e] + g) == EncodeEntry(e) + EncodeAll(g)
  {
    hide EncodeEntry, Norm, SizeAgrees;
    assert ([e] + g)[1..] == g;
  }
}
