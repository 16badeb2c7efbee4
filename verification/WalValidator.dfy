/** The validator ring: the last records written, to be compared with the tail of the log. */
module WalValidators {
  import opened Bytes
  import opened Sequences
  import opened Segments
  import opened WalLog

  /** Keeping the last `n` after every addition keeps the last `n` of everything. */
  lemma LastNAppend<T>(all: seq<T>, t: T, n: nat)
    requires n > 0
    ensures LastN(LastN(all, n) + [t], n) == LastN(all + [t], n)
  {
  }

  lemma LastNTwice<T>(all: seq<T>, n: nat)
    ensures LastN(LastN(all, n), n) == LastN(all, n)
    ensures |LastN(all, n)| <= n && LastN(all, |LastN(all, n)|) == LastN(all, n)
  {
    var t := LastN(all, n);
    if |all| > n {
      assert |t| == n;
    } else {
      assert t == all;
    }
  }

  /** The `count` newest slots of a ring whose next slot is `idx`, oldest first. */
  function InRing<T>(slots: seq<T>, idx: nat, count: nat): seq<T>
    requires idx < |slots| && count <= |slots|
  {
    if count < |slots| then slots[..count] else slots[idx..] + slots[..idx]
  }

  lemma Wraps(a: nat, n: nat)
    requires a < 2 * n
    ensures a % n == if a < n then a else a - n
  {
  }

  lemma RingAdd<T>(slots: seq<T>, idx: nat, count: nat, t: T)
    requires idx < |slots| && count <= |slots| && (count < |slots| ==> idx == count)
    ensures var next := if idx + 1 == |slots| then 0 else idx + 1;
            InRing(slots[idx := t], next, if count < |slots| then count + 1 else count)
            == LastN(InRing(slots, idx, count) + [t], |slots|)
  {
    var new', old' := slots[idx := t], InRing(slots, idx, count) + [t];
    assert new'[..idx + 1] == slots[..idx] + [t];
    assert new'[idx + 1..] == slots[idx + 1..];
    if count == |slots| {
      assert LastN(old', |slots|) == slots[idx + 1..] + (slots[..idx] + [t]);
      if idx + 1 == |slots| {
        assert new' == slots[..idx] + [t];
      }
    } else if idx + 1 == |slots| {
      assert new' == slots[..idx] + [t];
    }
  }

  class Validator {
    const lastN: nat
    const ring: array<Tuple>
    var idx: nat
    var count: nat

    ghost predicate Valid()
      reads this
    {
      && lastN > 0 && ring.Length == lastN && idx < lastN && count <= lastN
      && (count < lastN ==> idx == count)
    }

    /** The tuples in the ring, oldest first. */
    ghost function Contents(): seq<Tuple>
      requires Valid()
      reads this, ring
    {
      InRing(ring[..], idx, count)
    }

    constructor (n: nat)
      requires n > 0
      ensures Valid() && lastN == n && Contents() == [] && fresh(ring)
    {
      lastN := n;
      ring := new Tuple[n](_ => Tuple(0, 0));
      idx, count := 0, 0;
    }

    /** Adds a tuple over the oldest one when the ring is full. */
    method AddTuple(t: Tuple)
      requires Valid()
      modifies this, ring
      ensures Valid() && Contents() == LastN(old(Contents()) + [t], lastN)
    {
      hide InRing, LastN;
      RingAdd(ring[..], idx, count, t);
      Wraps(idx + 1, lastN);
      ring[idx] := t;
      assert ring[..] == old(ring[..])[idx := t];
      idx := (idx + 1) % lastN;
      if count < lastN {
        count := count + 1;
      }
    }

    method Snapshot() returns (out: seq<Tuple>)
      requires Valid()
      ensures out == Contents()
    {
      out := [];
      Wraps(idx - count + lastN, lastN);
      var start := (idx - count + lastN) % lastN;
      for i := 0 to count
        invariant |out| == i && out == Contents()[..i]
      {
        Wraps(start + i, lastN);
        assert Contents()[i] == ring[(start + i) % lastN];
        out := out + [ring[(start + i) % lastN]];
      }
    }

    /** Fills the ring from the tail of an existing log. */
    method SeedTuples(tuples: seq<Tuple>)
      requires Valid()
      modifies this, ring
      ensures Valid() && Contents() == if tuples == [] then old(Contents()) else LastN(tuples, lastN)
    {
      if tuples == [] {
        return;
      }
      var ts := if |tuples| > lastN then tuples[|tuples| - lastN..] else tuples;
      assert ts == LastN(tuples, lastN);
      hide LastN, InRing;
      for i := 0 to |ts|
        invariant Valid() && ring[..i] == ts[..i]
      {
        ring[i] := ts[i];
      }
      count := |ts|;
      Wraps(count, lastN);
      idx := count % lastN;
      RingSeeded(ring[..], ts);
    }
  }

  lemma RingSeeded<T>(slots: seq<T>, ts: seq<T>)
    requires 0 < |ts| <= |slots| && slots[..|ts|] == ts
    ensures InRing(slots, if |ts| == |slots| then 0 else |ts|, |ts|) == ts
  {
  }
}
