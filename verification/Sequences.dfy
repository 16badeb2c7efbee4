/** Taking sequences apart, concatenating a list of lists, and the sizes of sets. */
module Sequences {
  lemma AppendAssoc<T>(a: seq<T>, b: seq<T>, c: seq<T>)
    ensures a + (b + c) == (a + b) + c
  {
  }

  lemma AppendEnds<T>(a: seq<T>, b: seq<T>)
    ensures a != [] ==> (a + b)[1..] == a[1..] + b
    ensures b != [] ==> (a + b)[..|a + b| - 1] == a + b[..|b| - 1]
    ensures a == [] ==> a + b == b
  {
  }

  lemma TakeDrop<T>(s: seq<T>, i: nat)
    requires i < |s|
    ensures s == s[..i] + s[i..]
    ensures s[..i + 1] == s[..i] + [s[i]]
    ensures s[i..] == [s[i]] + s[i + 1..]
  {
  }

  lemma TakeDropAt<T>(s: seq<T>, i: nat)
    requires i <= |s|
    ensures s == s[..i] + s[i..]
  {
  }

  lemma SliceTake<T>(s: seq<T>, a: nat, b: nat, k: nat)
    requires a + k <= b <= |s|
    ensures s[a..b][..k] == s[a..a + k]
  {
  }

  lemma SliceDrop<T>(s: seq<T>, a: nat, b: nat, k: nat)
    requires a + k <= b <= |s|
    ensures s[a..b][k..] == s[a + k..b]
  {
  }

  /** Overwriting the last element of the first `n` moves it to the part behind them. */
  lemma SetBefore<T>(s: seq<T>, n: nat, done: seq<T>, b: T)
    requires 0 < n <= |s|
    ensures (s[..n] + done)[n - 1 := b] == s[..n - 1] + ([b] + done)
  {
  }

  lemma HeadTail<T>(s: seq<T>)
    requires s != []
    ensures s == [s[0]] + s[1..]
  {
  }

  lemma InitLast<T>(s: seq<T>)
    requires s != []
    ensures s == s[..|s| - 1] + [s[|s| - 1]]
  {
  }

  function Flat<T>(groups: seq<seq<T>>): seq<T> {
    if groups == [] then [] else groups[0] + Flat(groups[1..])
  }

  lemma {:induction false} FlatAppend<T>(a: seq<seq<T>>, b: seq<seq<T>>)
    ensures Flat(a + b) == Flat(a) + Flat(b)
  {
    AppendEnds(a, b);
    if a != [] {
      FlatAppend(a[1..], b);
      AppendAssoc(a[0], Flat(a[1..]), Flat(b));
    }
  }

  /** With elements somewhere and no empty group, the first and last groups hold elements. */
  lemma FlatNonEmpty<T>(groups: seq<seq<T>>)
    requires Flat(groups) != []
    requires |groups| == 1 || forall i :: 0 <= i < |groups| ==> groups[i] != []
    ensures groups != [] && groups[0] != [] && groups[|groups| - 1] != []
  {
    if |groups| == 1 { FlatOne(groups[0]); assert groups == [groups[0]]; }
  }

  lemma FlatCons<T>(g: seq<T>, gs: seq<seq<T>>)
    ensures Flat([g] + gs) == g + Flat(gs)
  {
    assert ([g] + gs)[1..] == gs;
  }

  lemma FlatSnoc<T>(gs: seq<seq<T>>, g: seq<T>)
    ensures Flat(gs + [g]) == Flat(gs) + g
  {
    FlatAppend(gs, [g]);
    FlatOne(g);
  }

  /** Dropping the first element, with its group when that becomes empty. */
  lemma FlatDropFirst<T>(g: seq<T>, gs: seq<seq<T>>)
    requires g != []
    ensures Flat([g] + gs) != [] && Flat([g] + gs)[0] == g[0]
    ensures Flat([g[1..]] + gs) == Flat([g] + gs)[1..]
    ensures |g| == 1 ==> Flat(gs) == Flat([g] + gs)[1..]
  {
    FlatCons(g, gs);
    FlatCons(g[1..], gs);
  }

  /** The same for the last element. */
  lemma FlatDropLast<T>(gs: seq<seq<T>>, g: seq<T>)
    requires g != []
    ensures var all := Flat(gs + [g]);
            && all != [] && all[|all| - 1] == g[|g| - 1]
            && Flat(gs + [g[..|g| - 1]]) == all[..|all| - 1]
            && (|g| == 1 ==> Flat(gs) == all[..|all| - 1])
  {
    FlatSnoc(gs, g);
    FlatSnoc(gs, g[..|g| - 1]);
  }

  lemma FlatOne<T>(g: seq<T>)
    ensures Flat([g]) == g
  {
    assert [g][1..] == [];
  }

  /** The flat list around group `i`. */
  lemma FlatAround<T>(groups: seq<seq<T>>, i: nat)
    requires i < |groups|
    ensures Flat(groups) == Flat(groups[..i]) + groups[i] + Flat(groups[i + 1..])
    ensures Flat(groups[..i + 1]) == Flat(groups[..i]) + groups[i]
  {
    hide Flat;
    TakeDrop(groups, i);
    FlatAppend(groups[..i], groups[i..]);
    FlatCons(groups[i], groups[i + 1..]);
    FlatSnoc(groups[..i], groups[i]);
    AppendAssoc(Flat(groups[..i]), groups[i], Flat(groups[i + 1..]));
  }

  /** A group put in front of group `i`. */
  lemma FlatInsert<T>(gs: seq<seq<T>>, i: nat, g: seq<T>)
    requires i <= |gs|
    ensures var k := |Flat(gs[..i])|;
            && k <= |Flat(gs)|
            && Flat(gs[..i] + [g] + gs[i..]) == Flat(gs)[..k] + g + Flat(gs)[k..]
  {
    hide Flat;
    TakeDropAt(gs, i);
    FlatAppend(gs[..i], gs[i..]);
    FlatSnoc(gs[..i], g);
    FlatAppend(gs[..i] + [g], gs[i..]);
    Halves(Flat(gs[..i]), Flat(gs[i..]));
  }

  lemma Halves<T>(a: seq<T>, b: seq<T>)
    ensures (a + b)[..|a|] == a && (a + b)[|a|..] == b
  {
  }

  /** Group `i` broken at `j`, with a group put into the gap. */
  lemma FlatBreak<T>(gs: seq<seq<T>>, i: nat, j: nat, g: seq<T>)
    requires i < |gs| && j <= |gs[i]|
    ensures var k := |Flat(gs[..i])| + j;
            && k <= |Flat(gs)|
            && Flat(gs[..i] + [gs[i][..j], g, gs[i][j..]] + gs[i + 1..]) == Flat(gs)[..k] + g + Flat(gs)[k..]
  {
    hide Flat;
    FlatAround(gs, i);
    var a, b, h := Flat(gs[..i]), Flat(gs[i + 1..]), gs[i];
    FlatThree(h[..j], g, h[j..]);
    FlatAppend(gs[..i], [h[..j], g, h[j..]]);
    FlatAppend(gs[..i] + [h[..j], g, h[j..]], gs[i + 1..]);
    BreakPieces(a, h, b, j, g);
  }

  lemma FlatThree<T>(a: seq<T>, b: seq<T>, c: seq<T>)
    ensures Flat([a, b, c]) == a + b + c
  {
    assert [a, b, c][1..] == [b, c] && [b, c][1..] == [c];
    FlatOne(c);
    AppendAssoc(a, b, c);
  }

  lemma BreakPieces<T>(a: seq<T>, h: seq<T>, b: seq<T>, j: nat, g: seq<T>)
    requires j <= |h|
    ensures var k := |a| + j;
            a + (h[..j] + g + h[j..]) + b == (a + h + b)[..k] + g + (a + h + b)[k..]
  {
  }

  lemma FlatSplitAt<T>(gs: seq<seq<T>>, i: nat, g: seq<T>)
    requires i <= |gs|
    ensures var k := |Flat(gs[..i])|;
            && k <= |Flat(gs)|
            && Flat(gs[..i]) + g + Flat(gs[i..]) == Flat(gs)[..k] + g + Flat(gs)[k..]
  {
    hide Flat;
    TakeDropAt(gs, i);
    FlatAppend(gs[..i], gs[i..]);
    Halves(Flat(gs[..i]), Flat(gs[i..]));
  }

  lemma FlatSplitInside<T>(gs: seq<seq<T>>, i: nat, j: nat, g: seq<T>)
    requires i < |gs| && j <= |gs[i]|
    ensures var k := |Flat(gs[..i])| + j;
            && k <= |Flat(gs)|
            && Flat(gs[..i] + [gs[i][..j]]) + g + Flat([gs[i][j..]] + gs[i + 1..])
               == Flat(gs)[..k] + g + Flat(gs)[k..]
  {
    hide Flat;
    FlatAround(gs, i);
    FlatSnoc(gs[..i], gs[i][..j]);
    FlatCons(gs[i][j..], gs[i + 1..]);
    BreakPieces(Flat(gs[..i]), gs[i], Flat(gs[i + 1..]), j, g);
    Reassociate(Flat(gs[..i]), gs[i][..j], g, gs[i][j..], Flat(gs[i + 1..]));
  }

  lemma Reassociate<T>(a: seq<T>, b: seq<T>, c: seq<T>, d: seq<T>, e: seq<T>)
    ensures (a + b) + c + (d + e) == a + (b + c + d) + e
  {
  }

  /** The last group grown by one element. */
  lemma FlatGrow<T>(gs: seq<seq<T>>, e: T)
    requires gs != []
    ensures Flat(gs[..|gs| - 1] + [gs[|gs| - 1] + [e]]) == Flat(gs) + [e]
  {
    hide Flat;
    var last := |gs| - 1;
    InitLast(gs);
    FlatSnoc(gs[..last], gs[last]);
    FlatSnoc(gs[..last], gs[last] + [e]);
    AppendAssoc(Flat(gs[..last]), gs[last], [e]);
  }

  lemma FlatOfNone<T>(gs: seq<seq<T>>)
    ensures gs == [] ==> Flat(gs) == []
  {
  }

  lemma FlatNotEmpty<T>(gs: seq<seq<T>>)
    ensures gs != [] && gs[0] != [] ==> Flat(gs) != []
  {
  }

  /** A prefix extended by a prefix of the rest. */
  lemma PrefixExtend<T>(ws: seq<T>, out: seq<T>, more: seq<T>)
    requires out <= ws && more <= ws[|out|..]
    ensures out + more <= ws
    ensures more != [] ==> more[|more| - 1] == ws[|out| + |more| - 1] == (out + more)[|out + more| - 1]
    ensures more == ws[|out|..] ==> out + more == ws
  {
  }

  lemma AppendCut<T>(a: seq<T>, b: seq<T>, k: nat)
    requires k <= |b|
    ensures (a + b)[..|a| + k] == a + b[..k]
    ensures a + [] == a
  {
  }

  lemma FirstIn<T>(s: seq<T>)
    ensures s != [] ==> s[0] in s
  {
  }

  lemma TakeAll<T>(s: seq<T>, i: nat)
    requires i <= |s|
    ensures i == |s| ==> s[..i] == s
  {
  }

  lemma SameSize<T>(a: set<T>, b: set<T>)
    requires a <= b && |a| == |b|
    ensures a == b
  {
    var rest := b - a;
    assert b == a + rest;
    assert |b| == |a| + |rest|;
  }
}
