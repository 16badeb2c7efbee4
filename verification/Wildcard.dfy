/** The two-pointer matcher of keys against patterns with `*` and `?`. */
module Wildcard {
  import opened Bytes
  import opened Sequences

  const STAR: byte := 42
  const QUESTION: byte := 63

  /** What `*` and `?` mean: `?` stands for any one byte, `*` for any bytes. */
  ghost predicate Matches(p: Str, k: Str)
    decreases |p|
  {
    if p == [] then k == []
    else if p[0] == STAR then exists i :: 0 <= i <= |k| && Matches(p[1..], k[i..])
    else k != [] && (p[0] == QUESTION || p[0] == k[0]) && Matches(p[1..], k[1..])
  }

  predicate AllStars(p: Str) {
    forall i :: 0 <= i < |p| ==> p[i] == STAR
  }

  /** The pattern byte takes this key byte alone; a `*` takes a `*`. */
  predicate Takes(p: byte, k: byte) {
    p == QUESTION || p == k
  }

  /** The relation with a preference: a pattern byte that can take the next key byte alone does. */
  ghost predicate Accepts(p: Str, k: Str)
    decreases |p|, 0
  {
    if k == [] then AllStars(p)
    else if p == [] then false
    else if Takes(p[0], k[0]) then Accepts(p[1..], k[1..])
    else p[0] == STAR && AcceptsLater(p[1..], k, 0)
  }

  /** `p` accepts some tail of `k` from `from` on. */
  ghost predicate AcceptsLater(p: Str, k: Str, from: nat)
    decreases |p|, 1
  {
    exists i :: from <= i <= |k| && Accepts(p, k[i..])
  }

  /** `p[a..m]` takes the bytes of `k` from `at` on one by one. */
  predicate LinedUp(p: Str, a: nat, m: nat, k: Str, at: nat) {
    && a <= m <= |p| && at + (m - a) <= |k|
    && forall q :: a <= q < m ==> Takes(p[q], k[at + (q - a)])
  }

  /** If `p[a..m]` lines up with `k` at `at`, every acceptance that starts at or after the same
      place has `p[m..]` accept at or after the place reached: trying the last `*` again
      never loses against an earlier one. */
  lemma {:induction false} Reaches(p: Str, a: nat, m: nat, k: Str, at: nat, pos: nat)
    requires LinedUp(p, a, m, k, at) && at <= pos <= |k|
    requires Accepts(p[a..], k[pos..])
    ensures AcceptsLater(p[m..], k, at + (m - a))
    decreases m - a
  {
    if a == m {
    } else if pos == |k| {
      assert k[pos..] == [];
      assert forall i :: 0 <= i < |p[m..]| ==> p[m..][i] == p[a..][i + (m - a)];
      assert Accepts(p[m..], k[|k|..]);
    } else {
      SliceDrop(p, a, |p|, 1);
      SliceDrop(k, pos, |k|, 1);
      assert p[a..|p|] == p[a..] && k[pos..|k|] == k[pos..];
      assert p[a..][1..] == p[a + 1..] && k[pos..][1..] == k[pos + 1..];
      assert p[a..][0] == p[a] && k[pos..][0] == k[pos];
      if Takes(p[a], k[pos]) {
        Reaches(p, a + 1, m, k, at + 1, pos + 1);
      } else {
        var i :| 0 <= i <= |k[pos..]| && Accepts(p[a + 1..], k[pos..][i..]);
        assert k[pos..][i..] == k[pos + i..];
        assert Takes(p[a], k[at + (a - a)]);
        Reaches(p, a + 1, m, k, at + 1, pos + i);
      }
    }
  }

  lemma TailStep(p: Str, i: nat, k: Str, j: nat)
    requires i < |p| && j < |k|
    ensures p[i..][0] == p[i] && k[j..][0] == k[j] && p[i..][1..] == p[i + 1..] && k[j..][1..] == k[j + 1..]
  {
  }

  lemma LaterFromTail(q: Str, k: Str, j: nat)
    requires j <= |k|
    ensures AcceptsLater(q, k[j..], 0) <==> AcceptsLater(q, k, j)
  {
    hide Accepts;
    if AcceptsLater(q, k[j..], 0) {
      var i :| 0 <= i <= |k[j..]| && Accepts(q, k[j..][i..]);
      assert k[j..][i..] == k[j + i..];
    }
    if AcceptsLater(q, k, j) {
      var i :| j <= i <= |k| && Accepts(q, k[i..]);
      assert k[j..][i - j..] == k[i..];
    }
  }

  /** Entering a new `*` replaces the one before: the earlier ones need not be tried again. */
  lemma NewStar(p: Str, star: nat, k: Str, at: nat, pi: nat, ki: nat)
    requires star < pi < |p| && LinedUp(p, star + 1, pi, k, at) && ki == at + (pi - star - 1) < |k|
    requires p[pi] == STAR && !Takes(p[pi], k[ki])
    requires Accepts(p[star + 1..], k[at..]) <==> Accepts(p[pi..], k[ki..])
    ensures AcceptsLater(p[star + 1..], k, at) <==> AcceptsLater(p[pi + 1..], k, ki)
  {
    hide Accepts;
    Step(p, pi, k, ki);
    if AcceptsLater(p[star + 1..], k, at) {
      var i :| at <= i <= |k| && Accepts(p[star + 1..], k[i..]);
      Reaches(p, star + 1, pi, k, at, i);
      StarLater(p, pi, k, ki);
    }
  }

  lemma StarLater(p: Str, pi: nat, k: Str, ki: nat)
    requires pi < |p| && p[pi] == STAR && ki <= |k| && AcceptsLater(p[pi..], k, ki)
    ensures AcceptsLater(p[pi + 1..], k, ki)
  {
    var j :| ki <= j <= |k| && Accepts(p[pi..], k[j..]);
    assert p[pi..][1..] == p[pi + 1..];
    if j == |k| {
      DropStar(p, pi);
      assert Accepts(p[pi + 1..], k[j..]);
    } else {
      TailStep(p, pi, k, j);
      if !Takes(p[pi], k[j]) {
        LaterFromTail(p[pi + 1..], k, j);
      }
    }
  }

  /** One failed attempt moves the last `*` on by one byte. */
  lemma LaterNext(q: Str, k: Str, at: nat)
    requires at < |k| && !Accepts(q, k[at..])
    ensures AcceptsLater(q, k, at) <==> AcceptsLater(q, k, at + 1)
  {
    hide Accepts;
  }

  /** The key is used up while the pattern is lined up: only `*` may be left. */
  lemma KeyDone(p: Str, star: nat, k: Str, at: nat, pi: nat)
    requires star < pi <= |p| && LinedUp(p, star + 1, pi, k, at) && at + (pi - star - 1) == |k|
    requires Accepts(p[star + 1..], k[at..]) <==> Accepts(p[pi..], k[|k|..])
    ensures AcceptsLater(p[star + 1..], k, at) <==> AllStars(p[pi..])
  {
    if AcceptsLater(p[star + 1..], k, at) {
      var i :| at <= i <= |k| && Accepts(p[star + 1..], k[i..]);
      Reaches(p, star + 1, pi, k, at, i);
    }
  }

  /** The matcher, which tries again only at the most recent `*`. */
  method WildCardMatch(pattern: Str, key: Str) returns (ok: bool)
    ensures ok <==> Accepts(pattern, key)
  {
    hide Accepts, AcceptsLater;
    var patternIndex, keyIndex := 0, 0;
    var starIndex, kIndex := -1, -1;
    assert pattern[0..] == pattern && key[0..] == key;
    while keyIndex < |key|
      invariant 0 <= patternIndex <= |pattern| && 0 <= keyIndex <= |key| && -1 <= starIndex < patternIndex
      invariant starIndex == -1 ==> (Accepts(pattern, key) <==> Accepts(pattern[patternIndex..], key[keyIndex..]))
      invariant starIndex != -1 ==>
        && 0 <= kIndex && keyIndex == kIndex + (patternIndex - starIndex - 1)
        && LinedUp(pattern, starIndex + 1, patternIndex, key, kIndex)
        && (Accepts(pattern[starIndex + 1..], key[kIndex..]) <==> Accepts(pattern[patternIndex..], key[keyIndex..]))
        && (Accepts(pattern, key) <==> AcceptsLater(pattern[starIndex + 1..], key, kIndex))
      decreases |pattern| - starIndex, |key| - kIndex, |key| - keyIndex
    {
      Step(pattern, patternIndex, key, keyIndex);
      if patternIndex < |pattern| && (pattern[patternIndex] == QUESTION || pattern[patternIndex] == key[keyIndex]) {
        patternIndex := patternIndex + 1;
        keyIndex := keyIndex + 1;
      } else if patternIndex < |pattern| && pattern[patternIndex] == STAR {
        if starIndex != -1 {
          NewStar(pattern, starIndex, key, kIndex, patternIndex, keyIndex);
        }
        starIndex := patternIndex;
        kIndex := keyIndex;
        patternIndex := patternIndex + 1;
      } else if starIndex != -1 {
        LaterNext(pattern[starIndex + 1..], key, kIndex);
        patternIndex := starIndex + 1;
        kIndex := kIndex + 1;
        keyIndex := kIndex;
      } else {
        return false;
      }
    }
    assert Accepts(pattern, key) <==> AllStars(pattern[patternIndex..]) by {
      AtEnd(pattern[patternIndex..], key);
      if starIndex != -1 {
        KeyDone(pattern, starIndex, key, kIndex, patternIndex);
      }
    }
    ghost var from := patternIndex;
    while patternIndex < |pattern| && pattern[patternIndex] == STAR
      invariant from <= patternIndex <= |pattern|
      invariant AllStars(pattern[from..]) <==> AllStars(pattern[patternIndex..])
    {
      DropStar(pattern, patternIndex);
      patternIndex := patternIndex + 1;
    }
    NoStar(pattern, patternIndex);
    return patternIndex == |pattern|;
  }

  lemma AtEnd(q: Str, k: Str)
    ensures Accepts(q, k[|k|..]) <==> AllStars(q)
  {
  }

  lemma DropStar(p: Str, i: nat)
    requires i < |p| && p[i] == STAR
    ensures AllStars(p[i..]) <==> AllStars(p[i + 1..])
  {
    assert p[i..] == [p[i]] + p[i + 1..];
  }

  lemma NoStar(p: Str, i: nat)
    requires i <= |p| && (i < |p| ==> p[i] != STAR)
    ensures AllStars(p[i..]) <==> i == |p|
  {
    if i < |p| {
      assert p[i..][0] == p[i];
    }
  }

  /** One turn of the loop, by the byte the pattern is at. */
  lemma Step(p: Str, pi: nat, k: Str, ki: nat)
    requires pi <= |p| && ki < |k|
    ensures pi < |p| && Takes(p[pi], k[ki]) ==> (Accepts(p[pi..], k[ki..]) <==> Accepts(p[pi + 1..], k[ki + 1..]))
    ensures pi < |p| && !Takes(p[pi], k[ki]) && p[pi] == STAR ==>
              (Accepts(p[pi..], k[ki..]) <==> AcceptsLater(p[pi + 1..], k, ki))
    ensures pi == |p| || (!Takes(p[pi], k[ki]) && p[pi] != STAR) ==> !Accepts(p[pi..], k[ki..])
  {
    if pi < |p| {
      TailStep(p, pi, k, ki);
      LaterFromTail(p[pi + 1..], k, ki);
    }
  }

  /** The matcher never accepts what the pattern does not match. */
  lemma {:induction false} AcceptsSound(p: Str, k: Str)
    requires Accepts(p, k)
    ensures Matches(p, k)
    decreases |p|
  {
    if k == [] {
      if p != [] {
        assert forall i :: 0 <= i < |p[1..]| ==> p[1..][i] == p[i + 1];
        AcceptsSound(p[1..], k);
        assert k[0..] == k;
      }
    } else if Takes(p[0], k[0]) {
      AcceptsSound(p[1..], k[1..]);
    } else {
      var i :| 0 <= i <= |k| && Accepts(p[1..], k[i..]);
      AcceptsSound(p[1..], k[i..]);
    }
  }

  /** On a key without `*` it accepts everything the pattern matches. */
  lemma {:induction false} AcceptsComplete(p: Str, k: Str)
    requires STAR !in k && Matches(p, k)
    ensures Accepts(p, k)
    decreases |p|
  {
    if p != [] {
      if p[0] == STAR {
        var i :| 0 <= i <= |k| && Matches(p[1..], k[i..]);
        AcceptsComplete(p[1..], k[i..]);
        if k == [] {
          assert forall j :: 0 < j < |p| ==> p[j] == p[1..][j - 1];
        }
      } else {
        AcceptsComplete(p[1..], k[1..]);
      }
    }
  }

  /** A pattern of `i` question marks and then `q`. */
  function Questions(i: nat, q: Str): Str {
    if i == 0 then q else [QUESTION] + Questions(i - 1, q)
  }

  lemma {:induction false} SkipQuestions(i: nat, q: Str, k: Str)
    requires i < |k|
    ensures Accepts(Questions(i, q), k) <==> Accepts(q, k[i..])
    ensures Matches(Questions(i, q), k) <==> Matches(q, k[i..])
    decreases i
  {
    if i == 0 {
      assert k[0..] == k;
    } else {
      SkipQuestions(i - 1, q, k[1..]);
      assert Questions(i, q)[1..] == Questions(i - 1, q);
      assert k[1..][i - 1..] == k[i..];
    }
  }

  /** A pattern that matches `k` but is refused, when `k` has a `*` at `i`. */
  function Refused(k: Str, i: nat): Str
    requires i < |k|
  {
    Questions(i, if i + 1 < |k| then [STAR] else [STAR, QUESTION])
  }

  lemma RefusedShown(k: Str, i: nat)
    requires i < |k| && k[i] == STAR
    ensures Matches(Refused(k, i), k) && !Accepts(Refused(k, i), k)
  {
    var t := k[i..];
    if i + 1 < |k| {
      SkipQuestions(i, [STAR], k);
      assert t[|t|..] == [] && Matches([STAR][1..], t[|t|..]);
      assert [STAR][1..] == [] && t[1..] != [];
    } else {
      SkipQuestions(i, [STAR, QUESTION], k);
      assert t == [STAR];
      var q := [STAR, QUESTION];
      assert q[1..] == [QUESTION] && q[1..][1..] == [] && t[0..] == t && t[1..] == [];
      assert Matches(q[1..], t[0..]);
      assert q[1..][0] == QUESTION;
    }
  }

  /** The matcher is right for every pattern exactly on the keys without a `*`. */
  lemma RightExactly(k: Str)
    ensures (forall p :: Accepts(p, k) <==> Matches(p, k)) <==> STAR !in k
  {
    if STAR in k {
      var i :| 0 <= i < |k| && k[i] == STAR;
      RefusedShown(k, i);
    } else {
      forall p ensures Accepts(p, k) <==> Matches(p, k) {
        if Accepts(p, k) {
          AcceptsSound(p, k);
        }
        if Matches(p, k) {
          AcceptsComplete(p, k);
        }
      }
    }
  }
}
