/** The flat deque: all entries in one buffer. */
module BasicDeques {
  import opened Bytes
  import opened Varint
  import opened Sequences
  import opened EntryCodec
  import opened PlainList

  class DequeBasic {
    var length: int
    var buf: Str
    ghost var elems: seq<Str>

    constructor ()
      ensures Valid() && elems == []
    {
      length := 0;
      buf := [];
      elems := [];
    }

    ghost predicate Valid()
      reads this
    {
      AllKept(elems) && length == |elems| && buf == EncodeAll(elems)
    }

    method LPush(x: Str)
      requires Valid() && |x| < MAX_STRING
      modifies this
      ensures Valid() && elems == InsertAt(old(elems), 0, Norm(x))
    {
      var xb := EncodeEntry(x);
      InsertBytes([], xb, x, elems);
      buf := xb + buf;
      elems := [Norm(x)] + elems;
      length := length + 1;
    }

    method RPush(x: Str)
      requires Valid() && |x| < MAX_STRING
      modifies this
      ensures Valid() && elems == InsertAt(old(elems), |old(elems)|, Norm(x))
    {
      var xb := EncodeEntry(x);
      InsertBytes(elems, xb, x, []);
      buf := buf + xb;
      elems := elems + [Norm(x)];
      length := length + 1;
    }

    method RPop() returns (r: Option<Str>)
      requires Valid()
      modifies this
      ensures Valid()
      ensures r == if old(elems) == [] then None else Some(old(elems)[|old(elems)| - 1])
      ensures elems == if old(elems) == [] then [] else old(elems)[..|old(elems)| - 1]
    {
      hide Kept, EncodeAll, DecodeEntry, BackFieldStart, RevValue;
      if length == 0 {
        return None;
      }
      LastOfPacked([], elems);
      assert [] + EncodeAll(elems) == buf;
      var backlenStartIdx := ScanBackField(buf);
      var backlen := DecodeUIntRev(buf[backlenStartIdx..]);
      var entryStartIdx := backlenStartIdx - backlen;
      var x := DecodeEntry(buf[entryStartIdx..backlenStartIdx]).value.0;
      buf := buf[..entryStartIdx];
      elems := elems[..|elems| - 1];
      assert [] + EncodeAll(elems) == buf;
      length := length - 1;
      r := Some(x);
    }

    method LPop() returns (r: Option<Str>)
      requires Valid()
      modifies this
      ensures Valid()
      ensures r == if old(elems) == [] then None else Some(old(elems)[0])
      ensures elems == if old(elems) == [] then [] else old(elems)[1..]
    {
      hide Kept, EncodeAll, DecodeEntry;
      if length == 0 {
        return None;
      }
      FirstOfPacked(elems);
      var (x, entryLen) := DecodeEntry(buf).value;
      buf := buf[entryLen..];
      elems := elems[1..];
      length := length - 1;
      r := Some(x);
    }

    /** The iterator's step from element `k`, whose entry starts at `bufIndex`. */
    method Next(bufIndex: nat, ghost k: nat) returns (x: Str, next: nat)
      requires Valid() && k < |elems| && bufIndex == |EncodeAll(elems[..k])|
      ensures x == elems[k] && next == |EncodeAll(elems[..k + 1])| && bufIndex < next
    {
      hide Kept, EncodeAll, DecodeEntry, EncodeEntry;
      TakeDropAt(elems, k);
      EncodeAllAppend(elems[..k], elems[k..]);
      Halves(EncodeAll(elems[..k]), EncodeAll(elems[k..]));
      FirstOfPacked(elems[k..]);
      TakeDrop(elems, k);
      EncodeAllAppend(elems[..k], [elems[k]]);
      EncodeAllOne(elems[k]);
      var r := DecodeEntry(buf[bufIndex..]).value;
      return r.0, bufIndex + r.1;
    }

    method LRange(start0: int, stop0: int) returns (res: seq<Str>)
      requires Valid()
      ensures res == Range(elems, start0, stop0)
    {
      hide Kept, EncodeAll;
      var start := SanitizeStart(length, start0);
      var stop := SanitizeStop(length, stop0);
      if start > stop {
        return [];
      }
      var bufIndex, currIndex := 0, 0;
      EncodeAllEmpty(elems[..0]);
      res := [];
      while currIndex < length
        invariant 0 <= currIndex <= |elems| && currIndex <= stop + 1 && bufIndex == |EncodeAll(elems[..currIndex])|
        invariant res == if currIndex <= start then [] else elems[start..currIndex]
      {
        if currIndex > stop {
          break;
        }
        var x;
        x, bufIndex := Next(bufIndex, currIndex);
        if start <= currIndex <= stop {
          res := res + [x];
        }
        currIndex := currIndex + 1;
      }
    }

    /** Puts an entry at byte `idx`, which is where element `k` starts. */
    method InsertElementAtIndex(element: Str, idx: nat, ghost k: nat)
      requires Valid() && |element| < MAX_STRING && k <= |elems| && idx == |EncodeAll(elems[..k])|
      modifies this
      ensures Valid() && elems == InsertAt(old(elems), k, Norm(element))
    {
      hide Kept, EncodeAll, EncodeEntry, Norm;
      var xb := EncodeEntry(element);
      TakeDropAt(elems, k);
      EncodeAllAppend(elems[..k], elems[k..]);
      Halves(EncodeAll(elems[..k]), EncodeAll(elems[k..]));
      InsertBytes(elems[..k], xb, element, elems[k..]);
      buf := buf[..idx] + xb + buf[idx..];
      elems := elems[..k] + [Norm(element)] + elems[k..];
      length := length + 1;
    }

    method LInsert(pivot: Str, element: Str, side: Side) returns (n: int, syntaxError: bool)
      requires Valid() && |element| < MAX_STRING
      modifies this
      ensures Valid()
      ensures syntaxError <==> old(elems) != [] && side.Neither?
      ensures elems == Inserted(old(elems), pivot, Norm(element), side)
      ensures n == InsertReply(old(elems), pivot, side)
      ensures if pivot in old(elems) && !side.Neither? then n == |elems| == |old(elems)| + 1
              else n == -1 && elems == old(elems)
    {
      hide Kept, EncodeAll, Norm;
      InsertedNextToPivot(elems, pivot, Norm(element), side);
      if length == 0 {
        return -1, false;
      }
      if side.Neither? {
        return -1, true;
      }
      var bufIndex, traversed := 0, 0;
      EncodeAllEmpty(elems[..0]);
      while traversed < length
        invariant Valid() && elems == old(elems)
        invariant 0 <= traversed <= |elems| && bufIndex == |EncodeAll(elems[..traversed])|
        invariant forall t :: 0 <= t < traversed ==> elems[t] != pivot
      {
        var pivotIndexStart := bufIndex;
        var x;
        x, bufIndex := Next(bufIndex, traversed);
        traversed := traversed + 1;
        if x == pivot {
          FirstIndexUnique(elems, pivot, traversed - 1);
          InsertBeforeAfterPivot(element, side, pivotIndexStart, bufIndex, traversed);
          return length, false;
        }
      }
      FirstIndexAbsent(elems, pivot);
      return -1, false;
    }

    method InsertBeforeAfterPivot(element: Str, side: Side, pivotIndexStart: nat, bufIndex: nat, traversed: nat)
      requires Valid() && |element| < MAX_STRING && !side.Neither? && 0 < traversed <= |elems|
      requires pivotIndexStart == |EncodeAll(elems[..traversed - 1])| && bufIndex == |EncodeAll(elems[..traversed])|
      modifies this
      ensures Valid() && elems == InsertAt(old(elems), if side.Before? then traversed - 1 else traversed, Norm(element))
    {
      hide Kept, EncodeAll, Norm;
      EncodeAllEmpty(elems[..traversed - 1]);
      if pivotIndexStart == 0 && side.Before? {
        LPush(element);
        return;
      }
      if traversed >= length && side.After? {
        RPush(element);
        return;
      }
      var idx := pivotIndexStart;
      if side.After? {
        idx := bufIndex;
      }
      InsertElementAtIndex(element, idx, if side.After? then traversed else traversed - 1);
    }
  }

  /** Bytes of an entry between the bytes of two lists are the bytes of the list with it. */
  lemma InsertBytes(a: seq<Str>, xb: Str, x: Str, b: seq<Str>)
    requires AllKept(a) && AllKept(b) && |x| < MAX_STRING && xb == EncodeEntry(x)
    ensures Kept(Norm(x)) && AllKept(a + [Norm(x)] + b)
    ensures EncodeAll(a + [Norm(x)] + b) == EncodeAll(a) + xb + EncodeAll(b)
    ensures a == [] ==> EncodeAll([Norm(x)] + b) == xb + EncodeAll(b) && AllKept([Norm(x)] + b)
    ensures b == [] ==> EncodeAll(a + [Norm(x)]) == EncodeAll(a) + xb && AllKept(a + [Norm(x)])
  {
    hide EncodeEntry, Norm, EncodeAll;
    NormStored(x);
    EncodeAllOne(Norm(x));
    EncodeAllAppend(a, [Norm(x)]);
    EncodeAllAppend([Norm(x)], b);
    EncodeAllAppend(a + [Norm(x)], b);
  }
}
