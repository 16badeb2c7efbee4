/** What pruning whole segments keeps of the log. */
module WalPruning {
  import opened Bytes
  import opened Sequences
  import opened Segments
  import opened WalLog

  /** `b` is `a` without some of the envelopes below index `p`. */
  predicate Thinned(p: nat, a: seq<Envelope>, b: seq<Envelope>)
    decreases |a|
  {
    if a == [] then b == []
    else
      var front, last := a[..|a| - 1], a[|a| - 1];
      || (b != [] && b[|b| - 1] == last && Thinned(p, front, b[..|b| - 1]))
      || (last.index < p && Thinned(p, front, b))
  }

  /** The envelopes at or above index `p`, in order. */
  function From(p: nat, envs: seq<Envelope>): seq<Envelope> {
    if envs == [] then []
    else
      var e := envs[|envs| - 1];
      From(p, envs[..|envs| - 1]) + if e.index >= p then [e] else []
  }

  /** Thinning keeps every envelope at or above `p`, in order. */
  lemma {:induction false} ThinnedKeeps(p: nat, a: seq<Envelope>, b: seq<Envelope>)
    requires Thinned(p, a, b)
    ensures From(p, a) == From(p, b)
    decreases |a|
  {
    if a != [] {
      var front, last := a[..|a| - 1], a[|a| - 1];
      if b != [] && b[|b| - 1] == last && Thinned(p, front, b[..|b| - 1]) {
        ThinnedKeeps(p, front, b[..|b| - 1]);
      } else {
        ThinnedKeeps(p, front, b);
        assert From(p, front) + [] == From(p, front);
      }
    }
  }

  /** The index of the last hard state is at least `p`, or there is none. */
  predicate HardStateReaches(p: nat, envs: seq<Envelope>) {
    envs != [] ==>
      var e := envs[|envs| - 1];
      if e.kind == HardState then e.index >= p else HardStateReaches(p, envs[..|envs| - 1])
  }

  /** A last hard state at or above `p` survives as the last hard state. */
  lemma {:induction false} ThinnedHardState(p: nat, a: seq<Envelope>, b: seq<Envelope>, q: nat)
    requires Thinned(p, a, b) && HardStateReaches(q, a) && p <= q
    ensures LastHardState(a) == LastHardState(b) && HardStateReaches(q, b)
    decreases |a|
  {
    if a != [] {
      var front, last := a[..|a| - 1], a[|a| - 1];
      if b != [] && b[|b| - 1] == last && Thinned(p, front, b[..|b| - 1]) {
        if last.kind != HardState {
          ThinnedHardState(p, front, b[..|b| - 1], q);
        }
      } else {
        ThinnedHardState(p, front, b, q);
      }
    }
  }

  lemma {:induction false} ThinnedSame(p: nat, a: seq<Envelope>)
    ensures Thinned(p, a, a)
    decreases |a|
  {
    if a != [] {
      ThinnedSame(p, a[..|a| - 1]);
    }
  }

  lemma {:induction false} ThinnedAppend(p: nat, a: seq<Envelope>, b: seq<Envelope>, more: seq<Envelope>)
    requires Thinned(p, a, b)
    ensures Thinned(p, a + more, b + more)
    decreases |more|
  {
    if more == [] {
      AppendCut(a, [], 0);
      AppendCut(b, [], 0);
    } else {
      ThinnedAppend(p, a, b, more[..|more| - 1]);
      AppendEnds(a, more);
      AppendEnds(b, more);
    }
  }

  lemma {:induction false} ThinnedDrop(p: nat, a: seq<Envelope>, b: seq<Envelope>, gone: seq<Envelope>)
    requires Thinned(p, a, b) && MaxIndex(gone) < p
    ensures Thinned(p, a + gone, b)
    decreases |gone|
  {
    if gone == [] {
      AppendCut(a, [], 0);
    } else {
      ThinnedDrop(p, a, b, gone[..|gone| - 1]);
      AppendEnds(a, gone);
    }
  }

  /** `after` is `before` without some segments whose highest index is below `p`. */
  ghost predicate Pruned(c: Codec, before: Parts, after: Parts, p: nat)
    requires AllLegible(c, before)
  {
    && (forall k :: k in after ==> k in before && after[k] == before[k])
    && forall k :: k in before && k !in after ==> MaxIndex(Envelopes(c, before[k])) < p
  }

  /** Removing segments with lower indices only thins the log. */
  lemma {:induction false} PruneThins(c: Codec, before: Parts, after: Parts, p: nat, n: nat)
    requires AllLegible(c, before) && Pruned(c, before, after, p)
    ensures AllLegible(c, after) && Thinned(p, Held(c, before, n), Held(c, after, n))
  {
    hide Envelopes, Thinned, MaxIndex;
    if n == 0 {
      HeldNone(c, before);
      HeldNone(c, after);
      ThinnedSame(p, []);
    } else {
      PruneThins(c, before, after, p, n - 1);
      AppendCut(Held(c, before, n - 1), [], 0);
      AppendCut(Held(c, after, n - 1), [], 0);
      if n - 1 in after {
        ThinnedAppend(p, Held(c, before, n - 1), Held(c, after, n - 1), Envelopes(c, after[n - 1]));
      } else if n - 1 in before {
        ThinnedDrop(p, Held(c, before, n - 1), Held(c, after, n - 1), Envelopes(c, before[n - 1]));
      }
    }
  }

  /** Pruning through `p` keeps every envelope at or above `p` in order, and the last hard state
      when its commit is at least `p`. */
  lemma PruneKeeps(c: Codec, before: Parts, after: Parts, p: nat, n: nat, q: nat)
    requires AllLegible(c, before) && Pruned(c, before, after, p) && p <= q
    ensures AllLegible(c, after)
    ensures From(p, Held(c, after, n)) == From(p, Held(c, before, n))
    ensures HardStateReaches(q, Held(c, before, n)) ==>
              && LastHardState(Held(c, after, n)) == LastHardState(Held(c, before, n))
              && HardStateReaches(q, Held(c, after, n))
  {
    hide Held, Envelopes, Thinned, From, LastHardState, HardStateReaches;
    PruneThins(c, before, after, p, n);
    ThinnedKeeps(p, Held(c, before, n), Held(c, after, n));
    if HardStateReaches(q, Held(c, before, n)) {
      ThinnedHardState(p, Held(c, before, n), Held(c, after, n), q);
    }
  }
}
