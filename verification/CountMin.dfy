/** The count-min sketch: updates, estimates and weighted merges in 64-bit arithmetic. */
module CountMin {
  import opened Bytes
  import opened Sequences

  /** Unsigned 64-bit wrap-around. */
  function Wrap(n: nat): word64 {
    n % WORD
  }

  /** The shape of a sketch and the two halves of the key's hash. */
  datatype Opts = Opts(depth: nat, width: nat, hash1: Str -> nat, hash2: Str -> nat)

  /** The column of `key` in a row. */
  function Position(o: Opts, key: Str, row: nat): (col: nat)
    requires o.width > 0
    ensures col < o.width
  {
    (o.hash1(key) + o.hash2(key) * row) % WORD % o.width
  }

  /** One increment of a key by a weight. */
  datatype Event = Event(key: Str, weight: nat)

  /** The weight of the events whose key is selected. */
  function Weight(sel: Str -> bool, s: seq<Event>): nat {
    if s == [] then 0
    else
      var e := s[|s| - 1];
      Weight(sel, s[..|s| - 1]) + if sel(e.key) then e.weight else 0
  }

  function Any(): Str -> bool {
    _ => true
  }

  function Is(key: Str): Str -> bool {
    k => k == key
  }

  function FallsIn(o: Opts, row: nat, col: nat): Str -> bool
    requires o.width > 0
  {
    k => Position(o, k, row) == col
  }

  function Total(s: seq<Event>): nat {
    Weight(Any(), s)
  }

  /** The true weighted count of a key. */
  function Truth(s: seq<Event>, key: Str): nat {
    Weight(Is(key), s)
  }

  /** What the counts mean: an event adds its weight to the total and to the count of its own key. */
  lemma EventCounts(s: seq<Event>, key: Str, weight: nat, other: Str)
    ensures Total([]) == Truth([], other) == 0
    ensures Total(s + [Event(key, weight)]) == Total(s) + weight
    ensures Truth(s + [Event(key, weight)], other)
            == if key == other then Truth(s, other) + weight else Truth(s, other)
  {
    WeightSnoc(Any(), s, Event(key, weight));
    WeightSnoc(Is(other), s, Event(key, weight));
  }

  /** The weight of all events that fall into a cell. */
  function CellSum(o: Opts, s: seq<Event>, row: nat, col: nat): nat
    requires o.width > 0
  {
    Weight(FallsIn(o, row, col), s)
  }

  /** In each row an event adds its weight to the cell its two hashes select, and to no other. */
  lemma EventCell(o: Opts, s: seq<Event>, key: Str, weight: nat, row: nat, col: nat)
    requires o.width > 0
    ensures CellSum(o, [], row, col) == 0
    ensures CellSum(o, s + [Event(key, weight)], row, col)
            == CellSum(o, s, row, col)
               + if (o.hash1(key) + o.hash2(key) * row) % WORD % o.width == col then weight else 0
  {
    hide Weight;
    WeightSnoc(FallsIn(o, row, col), s, Event(key, weight));
    NoWeight(FallsIn(o, row, col));
  }

  lemma NoWeight(sel: Str -> bool)
    ensures Weight(sel, []) == 0
  {
  }

  lemma WeightSnoc(sel: Str -> bool, s: seq<Event>, e: Event)
    ensures Weight(sel, s + [e]) == Weight(sel, s) + if sel(e.key) then e.weight else 0
  {
    assert (s + [e])[..|s|] == s;
  }

  function RowSum(o: Opts, s: seq<Event>, row: nat, n: nat): nat
    requires o.width > 0
  {
    if n == 0 then 0 else RowSum(o, s, row, n - 1) + CellSum(o, s, row, n - 1)
  }

  /** A key's cell in any row holds at least its true count and at most everything. */
  lemma {:induction false} CellBounds(o: Opts, s: seq<Event>, row: nat, key: Str)
    requires o.width > 0
    ensures Truth(s, key) <= CellSum(o, s, row, Position(o, key, row)) <= Total(s)
    decreases |s|
  {
    hide Position;
    if s != [] {
      CellBounds(o, s[..|s| - 1], row, key);
    }
  }

  /** Each event counts in exactly one cell of a row. */
  lemma {:induction false} RowSumStep(o: Opts, s: seq<Event>, e: Event, row: nat, n: nat)
    requires o.width > 0
    ensures RowSum(o, s + [e], row, n) == RowSum(o, s, row, n) + if Position(o, e.key, row) < n then e.weight else 0
    decreases n
  {
    hide Position;
    if n > 0 {
      RowSumStep(o, s, e, row, n - 1);
      WeightSnoc(FallsIn(o, row, n - 1), s, e);
    }
  }

  /** Every row sums to the total weight. */
  lemma {:induction false} RowSumTotal(o: Opts, s: seq<Event>, row: nat)
    requires o.width > 0
    ensures RowSum(o, s, row, o.width) == Total(s)
    decreases |s|
  {
    hide Position;
    if s == [] {
      RowSumNone(o, row, o.width);
    } else {
      var front, e := s[..|s| - 1], s[|s| - 1];
      RowSumTotal(o, front, row);
      RowSumStep(o, front, e, row, o.width);
      InitLast(s);
    }
  }

  lemma {:induction false} RowSumNone(o: Opts, row: nat, n: nat)
    requires o.width > 0
    ensures RowSum(o, [], row, n) == 0
  {
    if n > 0 {
      RowSumNone(o, row, n - 1);
    }
  }

  function Times(w: nat, n: nat): nat {
    w * n
  }

  function Scaled(s: seq<Event>, w: nat): seq<Event> {
    if s == [] then [] else Scaled(s[..|s| - 1], w) + [Event(s[|s| - 1].key, Times(w, s[|s| - 1].weight))]
  }

  /** The first `n` streams, each scaled by its weight, one after the other. */
  function Merged(streams: seq<seq<Event>>, weights: seq<nat>, n: nat): seq<Event>
    requires n <= |streams| == |weights|
  {
    if n == 0 then [] else Merged(streams, weights, n - 1) + Scaled(streams[n - 1], weights[n - 1])
  }

  lemma Distribute(w: nat, a: nat, b: nat)
    ensures Times(w, a + b) == Times(w, a) + Times(w, b) && Times(w, 0) == 0
  {
  }

  /** Weights are linear in the stream, so cells, counts and totals are. */
  lemma {:induction false} AppendScaled(sel: Str -> bool, a: seq<Event>, s: seq<Event>, w: nat)
    ensures Weight(sel, a + Scaled(s, w)) == Weight(sel, a) + Times(w, Weight(sel, s))
    decreases |s|
  {
    hide Times;
    Distribute(w, 0, 0);
    if s == [] {
      AppendCut(a, [], 0);
    } else {
      var front, e := s[..|s| - 1], s[|s| - 1];
      var f := Event(e.key, Times(w, e.weight));
      AppendScaled(sel, a, front, w);
      AppendAssoc(a, Scaled(front, w), [f]);
      WeightSnoc(sel, a + Scaled(front, w), f);
      Distribute(w, Weight(sel, front), e.weight);
    }
  }

  lemma WrapAdd(a: nat, w: nat)
    ensures Wrap(Wrap(a) + w) == Wrap(a + w) && Wrap(a + Wrap(w)) == Wrap(a + w)
  {
  }

  lemma WrapTimes(w: nat, b: nat)
    ensures Wrap(Times(w, Wrap(b))) == Wrap(Times(w, b))
  {
    var q := b / WORD;
    assert b == q * WORD + Wrap(b);
    Distribute(w, q * WORD, Wrap(b));
    assert w * (q * WORD) == (w * q) * WORD;
    Shifted(w * Wrap(b), w * q);
  }

  lemma Shifted(a: nat, k: nat)
    ensures Wrap(a + k * WORD) == Wrap(a)
  {
    var q := a / WORD;
    assert a + k * WORD == (q + k) * WORD + Wrap(a);
    DivModUnique(a + k * WORD, WORD, q + k, Wrap(a));
  }

  /** A wrapped multiply-and-add on wrapped values. */
  lemma WrapStep(a: nat, w: nat, b: nat)
    ensures Wrap(Wrap(a) + Wrap(Times(w, Wrap(b)))) == Wrap(a + Times(w, b))
  {
    hide Wrap, Times;
    WrapTimes(w, b);
    WrapAdd(Wrap(a), Times(w, b));
    WrapAdd(a, Times(w, b));
  }

  lemma MergedNone(o: Opts, streams: seq<seq<Event>>, weights: seq<nat>, row: nat, col: nat)
    requires |streams| == |weights| && o.width > 0
    ensures Wrap(CellSum(o, Merged(streams, weights, 0), row, col)) == 0 == Wrap(Total(Merged(streams, weights, 0)))
  {
  }

  /** Adding one more source to a cell and to the count, in wrapped arithmetic. */
  lemma MergedNext(o: Opts, streams: seq<seq<Event>>, weights: seq<nat>, i: nat, row: nat, col: nat)
    requires i < |streams| == |weights| && o.width > 0
    ensures var a, b := Merged(streams, weights, i), Merged(streams, weights, i + 1);
            && Wrap(CellSum(o, b, row, col))
               == Wrap(Wrap(CellSum(o, a, row, col)) + Wrap(Times(weights[i], Wrap(CellSum(o, streams[i], row, col)))))
            && Wrap(Total(b)) == Wrap(Wrap(Total(a)) + Wrap(Times(weights[i], Wrap(Total(streams[i])))))
  {
    hide Weight, Wrap, Times, Scaled;
    var a := Merged(streams, weights, i);
    AppendScaled(FallsIn(o, row, col), a, streams[i], weights[i]);
    AppendScaled(Any(), a, streams[i], weights[i]);
    WrapStep(CellSum(o, a, row, col), weights[i], CellSum(o, streams[i], row, col));
    WrapStep(Total(a), weights[i], Total(streams[i]));
  }

  /** Each cell holds the weight of its events, wrapped. */
  ghost predicate Holds(o: Opts, m: array2<word64>, s: seq<Event>)
    reads m
  {
    && o.width > 0 && m.Length0 == o.depth && m.Length1 == o.width
    && forall r, c :: 0 <= r < o.depth && 0 <= c < o.width ==> m[r, c] == Wrap(CellSum(o, s, r, c))
  }

  ghost function StreamsOf(sketches: seq<Sketch>): (streams: seq<seq<Event>>)
    reads sketches
    ensures |streams| == |sketches| && forall i :: 0 <= i < |streams| ==> streams[i] == sketches[i].stream
  {
    seq(|sketches|, i requires 0 <= i < |sketches| reads sketches => sketches[i].stream)
  }

  class Sketch {
    const opts: Opts
    const matrix: array2<word64>
    var count: word64

    /** Everything counted so far. */
    ghost var stream: seq<Event>

    ghost predicate Valid()
      reads this, matrix
    {
      opts.depth > 0 && Holds(opts, matrix, stream) && count == Wrap(Total(stream))
    }

    constructor (o: Opts)
      requires o.depth > 0 && o.width > 0
      ensures Valid() && opts == o && stream == [] && fresh(matrix)
    {
      opts := o;
      matrix := new word64[o.depth, o.width]((_, _) => 0);
      count := 0;
      stream := [];
    }

    method MatrixPositions(key: Str) returns (positions: seq<nat>)
      requires opts.width > 0
      ensures |positions| == opts.depth
      ensures forall r :: 0 <= r < opts.depth ==> positions[r] == Position(opts, key, r)
    {
      positions := [];
      var h1, h2 := opts.hash1(key), opts.hash2(key);
      for row := 0 to opts.depth
        invariant |positions| == row
        invariant forall r :: 0 <= r < row ==> positions[r] == Position(opts, key, r)
      {
        positions := positions + [(h1 + h2 * row) % WORD % opts.width];
      }
    }

    /** Counts `key` once more with the given weight. */
    method UpdateMatrix(key: Str, weight: nat)
      requires Valid()
      modifies this, matrix
      ensures Valid() && stream == old(stream) + [Event(key, weight)]
    {
      hide Wrap, Position, Weight;
      var positions := MatrixPositions(key);
      ghost var s, e := stream, Event(key, weight);
      forall r, c | 0 <= r < opts.depth && 0 <= c < opts.width
        ensures CellSum(opts, s + [e], r, c) == CellSum(opts, s, r, c) + if Position(opts, key, r) == c then weight
                  else 0
      {
        WeightSnoc(FallsIn(opts, r, c), s, e);
      }
      for row := 0 to opts.depth
        invariant forall r, c :: 0 <= r < row && 0 <= c < opts.width ==>
                    matrix[r, c] == Wrap(CellSum(opts, s + [e], r, c))
        invariant forall r, c :: row <= r < opts.depth && 0 <= c < opts.width ==>
                    matrix[r, c] == Wrap(CellSum(opts, s, r, c))
        modifies matrix
      {
        var col := positions[row];
        WrapAdd(CellSum(opts, s, row, col), weight);
        matrix[row, col] := Wrap(matrix[row, col] + weight);
      }
      WeightSnoc(Any(), s, e);
      WrapAdd(Total(s), weight);
      count := Wrap(count + weight);
      stream := s + [e];
    }

    /** The smallest of the key's cells. While nothing has overflowed it lies between the true
        count and the total. */
    method EstimateCount(key: Str) returns (estimate: word64)
      requires Valid()
      ensures forall r :: 0 <= r < opts.depth ==> estimate <= matrix[r, Position(opts, key, r)]
      ensures exists r :: 0 <= r < opts.depth && estimate == matrix[r, Position(opts, key, r)]
      ensures Total(stream) < WORD ==> Truth(stream, key) <= estimate <= count
    {
      hide Position;
      estimate := WORD - 1;
      var positions := MatrixPositions(key);
      ghost var at := 0;
      for row := 0 to opts.depth
        invariant forall r :: 0 <= r < row ==> estimate <= matrix[r, Position(opts, key, r)]
        invariant at < opts.depth && (row == 0 ==> estimate == WORD - 1)
        invariant row > 0 ==> estimate == matrix[at, Position(opts, key, at)]
      {
        if row == 0 {
          at := 0;
        }
        if matrix[row, positions[row]] < estimate {
          estimate := matrix[row, positions[row]];
          at := row;
        }
      }
      CellBounds(opts, stream, at, key);
    }

    method DeepCopy() returns (copy: Sketch)
      requires Valid()
      ensures fresh(copy) && fresh(copy.matrix) && copy.Valid() && copy.opts == opts && copy.stream == stream
    {
      hide Wrap, Weight;
      copy := new Sketch(opts);
      for row := 0 to opts.depth
        invariant forall r, c :: 0 <= r < row && 0 <= c < opts.width ==> copy.matrix[r, c] == matrix[r, c]
        modifies copy.matrix
      {
        forall c | 0 <= c < opts.width {
          copy.matrix[row, c] := matrix[row, c];
        }
      }
      copy.count := count;
      copy.stream := stream;
    }

    /** The cell of the merged sketch: the weighted sum of the sources' cells. */
    method MergeCell(sources: seq<Sketch>, weights: seq<nat>, copy: Sketch, originalKey: Str, keys: seq<Str>,
                     row: nat, col: nat, ghost streams: seq<seq<Event>>)
      requires |sources| == |weights| == |keys| == |streams| && row < opts.depth && col < opts.width
      requires matrix.Length0 == opts.depth && matrix.Length1 == opts.width && matrix[row, col] == 0
      requires copy.matrix != matrix && copy.opts == opts
      requires forall i :: 0 <= i < |sources| ==>
        if keys[i] == originalKey then Holds(opts, copy.matrix, streams[i])
        else sources[i].opts == opts && sources[i].matrix != matrix && Holds(opts, sources[i].matrix, streams[i])
      modifies matrix
      ensures matrix[row, col] == Wrap(CellSum(opts, Merged(streams, weights, |sources|), row, col))
      ensures forall r, c :: 0 <= r < opts.depth && 0 <= c < opts.width && (r, c) != (row, col) ==>
                matrix[r, c] == old(matrix[r, c])
    {
      hide Weight, Wrap, Merged, Times;
      MergedNone(opts, streams, weights, row, col);
      for i := 0 to |sources|
        invariant matrix[row, col] == Wrap(CellSum(opts, Merged(streams, weights, i), row, col))
        invariant forall r, c :: 0 <= r < opts.depth && 0 <= c < opts.width && (r, c) != (row, col) ==>
                    matrix[r, c] == old(matrix[r, c])
      {
        MergedNext(opts, streams, weights, i, row, col);
        if keys[i] == originalKey {
          matrix[row, col] := Wrap(matrix[row, col] + Wrap(Times(weights[i], copy.matrix[row, col])));
        } else {
          matrix[row, col] := Wrap(matrix[row, col] + Wrap(Times(weights[i], sources[i].matrix[row, col])));
        }
      }
    }

    /** The count of the merged sketch. */
    method MergeCount(sources: seq<Sketch>, weights: seq<nat>, copy: Sketch, originalKey: Str, keys: seq<Str>,
                      ghost streams: seq<seq<Event>>)
      requires |sources| == |weights| == |keys| == |streams| && copy != this && opts.width > 0
      requires forall i :: 0 <= i < |sources| ==>
        if keys[i] == originalKey then copy.count == Wrap(Total(streams[i]))
        else sources[i] != this && sources[i].count == Wrap(Total(streams[i]))
      modifies `count
      ensures count == Wrap(Total(Merged(streams, weights, |sources|)))
    {
      hide Weight, Wrap, Merged, Times;
      MergedNone(opts, streams, weights, 0, 0);
      count := 0;
      for i := 0 to |sources|
        invariant count == Wrap(Total(Merged(streams, weights, i)))
      {
        MergedNext(opts, streams, weights, i, 0, 0);
        if keys[i] == originalKey {
          count := Wrap(count + Wrap(Times(weights[i], copy.count)));
        } else {
          count := Wrap(count + Wrap(Times(weights[i], sources[i].count)));
        }
      }
    }

    /** Replaces the sketch by the weighted sum of the sources, which may include itself: from now
        on it has counted the scaled streams of all of them. */
    method MergeMatrices(sources: seq<Sketch>, weights: seq<nat>, originalKey: Str, keys: seq<Str>)
      requires Valid() && |sources| == |weights| == |keys|
      requires forall i :: 0 <= i < |sources| ==> sources[i].Valid() && sources[i].opts == opts
      requires forall i :: 0 <= i < |sources| ==> (keys[i] == originalKey <==> sources[i] == this)
      requires forall i :: 0 <= i < |sources| ==> sources[i] != this ==> sources[i].matrix != matrix
      modifies this, matrix
      ensures Valid()
      ensures stream == Merged(old(StreamsOf(sources)), weights, |sources|)
    {
      hide Weight, Wrap, Merged;
      ghost var streams := StreamsOf(sources);
      var originalCopy := DeepCopy();
      ResetMatrix();
      ghost var merged := Merged(streams, weights, |sources|);
      for row := 0 to opts.depth
        invariant forall r, c :: 0 <= r < row && 0 <= c < opts.width ==>
                    matrix[r, c] == Wrap(CellSum(opts, merged, r, c))
        invariant forall r, c :: row <= r < opts.depth && 0 <= c < opts.width ==> matrix[r, c] == 0
        modifies matrix
      {
        for col := 0 to opts.width
          invariant forall r, c :: 0 <= r < row && 0 <= c < opts.width ==>
                      matrix[r, c] == Wrap(CellSum(opts, merged, r, c))
          invariant forall r, c :: row < r < opts.depth && 0 <= c < opts.width ==> matrix[r, c] == 0
          invariant forall c :: 0 <= c < col ==> matrix[row, c] == Wrap(CellSum(opts, merged, row, c))
          invariant forall c :: col <= c < opts.width ==> matrix[row, c] == 0
          modifies matrix
        {
          MergeCell(sources, weights, originalCopy, originalKey, keys, row, col, streams);
        }
      }
      MergeCount(sources, weights, originalCopy, originalKey, keys, streams);
      stream := merged;
    }

    method ResetMatrix()
      requires matrix.Length0 == opts.depth && matrix.Length1 == opts.width
      modifies matrix
      ensures forall r, c :: 0 <= r < opts.depth && 0 <= c < opts.width ==> matrix[r, c] == 0
    {
      for row := 0 to opts.depth
        invariant forall r, c :: 0 <= r < row && 0 <= c < opts.width ==> matrix[r, c] == 0
      {
        for col := 0 to opts.width
          invariant forall r, c :: 0 <= r < row && 0 <= c < opts.width ==> matrix[r, c] == 0
          invariant forall c :: 0 <= c < col ==> matrix[row, c] == 0
        {
          matrix[row, col] := 0;
        }
      }
    }

    /** The sum of the first `n` cells of a row. */
    ghost function CellsBefore(row: nat, n: nat): nat
      requires row < matrix.Length0 && n <= matrix.Length1
      reads matrix
    {
      if n == 0 then 0 else CellsBefore(row, n - 1) + matrix[row, n - 1]
    }

    /** While nothing has overflowed, every row of the matrix sums to `count`. */
    lemma RowsSumToCount(row: nat)
      requires Valid() && row < opts.depth && Total(stream) < WORD
      ensures CellsBefore(row, opts.width) == count
    {
      RowSumTotal(opts, stream, row);
      CellsAreSums(row, opts.width);
    }

    lemma {:induction false} CellsAreSums(row: nat, n: nat)
      requires Valid() && row < opts.depth && Total(stream) < WORD && n <= opts.width
      ensures CellsBefore(row, n) == RowSum(opts, stream, row, n)
      decreases n
    {
      if n > 0 {
        CellsAreSums(row, n - 1);
        CellAtMost(opts, stream, row, n - 1);
      }
    }
  }

  lemma {:induction false} CellAtMost(o: Opts, s: seq<Event>, row: nat, col: nat)
    requires o.width > 0
    ensures CellSum(o, s, row, col) <= Total(s)
    decreases |s|
  {
    if s != [] {
      CellAtMost(o, s[..|s| - 1], row, col);
    }
  }

  /** The true weighted count of a key after a merge. */
  function MergedTruth(streams: seq<seq<Event>>, weights: seq<nat>, key: Str, n: nat): nat
    requires n <= |streams| == |weights|
  {
    if n == 0 then 0 else MergedTruth(streams, weights, key, n - 1) + weights[n - 1] * Truth(streams[n - 1], key)
  }

  /** A merged sketch counts each key as the weighted sum of its counts in the sources. */
  lemma {:induction false} MergeCounts(streams: seq<seq<Event>>, weights: seq<nat>, key: Str, n: nat)
    requires n <= |streams| == |weights|
    ensures Truth(Merged(streams, weights, n), key) == MergedTruth(streams, weights, key, n)
    decreases n
  {
    if n > 0 {
      MergeCounts(streams, weights, key, n - 1);
      AppendScaled(Is(key), Merged(streams, weights, n - 1), streams[n - 1], weights[n - 1]);
    }
  }
}
