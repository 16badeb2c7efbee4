/** The Bloom filter: adding, asking, and its serialised form. */
module Bloom {
  import opened Bytes
  import opened Sequences

  /** Binary digit `o` of a number: `n & (1 << o) == 1 << o`. */
  predicate Bit(n: nat, o: nat) {
    if o == 0 then n % 2 == 1 else Bit(n / 2, o - 1)
  }

  /** `n | 1 << o`. */
  function WithBit(n: nat, o: nat): (r: nat)
    ensures Bit(r, o) && r >= n
    decreases o
  {
    if o == 0 then n - n % 2 + 1 else 2 * WithBit(n / 2, o - 1) + n % 2
  }

  lemma {:induction false} WithBitKeeps(n: nat, o: nat, p: nat)
    requires p != o
    ensures Bit(WithBit(n, o), p) == Bit(n, p)
    decreases p
  {
    if o > 0 && p > 0 {
      WithBitKeeps(n / 2, o - 1, p - 1);
    } else if o == 0 {
      assert WithBit(n, o) / 2 == n / 2;
    }
  }

  lemma {:induction false} WithBitFits(n: nat, o: nat, size: nat)
    requires n < Pow(2, size) && o < size
    ensures WithBit(n, o) < Pow(2, size)
    decreases o
  {
    if o > 0 {
      WithBitFits(n / 2, o - 1, size - 1);
    }
  }

  /** Bit `b` of a bit set, most significant bit of each byte first; bits beyond it are unset. */
  predicate BitAt(set': Str, b: nat) {
    b / 8 < |set'| && Bit(set'[b / 8], 7 - b % 8)
  }

  method IsBitSet(buf: array<byte>, b: nat) returns (yes: bool)
    ensures yes == BitAt(buf[..], b)
  {
    var idx, offset := b / 8, 7 - b % 8;
    if idx >= buf.Length {
      return false;
    }
    return Bit(buf[idx], offset);
  }

  /** Sets one bit and no other; a bit beyond the buffer is ignored. */
  method SetBit(buf: array<byte>, b: nat)
    modifies buf
    ensures forall j: nat :: BitAt(buf[..], j) <==> BitAt(old(buf[..]), j) || (j == b && b / 8 < buf.Length)
  {
    var idx, offset := b / 8, 7 - b % 8;
    if idx >= buf.Length {
      return;
    }
    assert Pow(2, 8) == 256;
    hide Bit, WithBit, Pow;
    WithBitFits(buf[idx], offset, 8);
    buf[idx] := WithBit(buf[idx], offset);
    forall j: nat ensures BitAt(buf[..], j) <==> BitAt(old(buf[..]), j) || j == b {
      if j / 8 == idx && j != b {
        assert 7 - j % 8 != offset;
        WithBitKeeps(old(buf[idx]), offset, 7 - j % 8);
      }
    }
  }

  /** Bits, hash seeds and the seeded hash of a filter. */
  datatype Shape = Shape(bits: nat, seeds: seq<word64>, hash: (word64, Str) -> nat)

  /** The bit that hash function `i` selects for a value. */
  function Index(s: Shape, value: Str, i: nat): (b: nat)
    requires s.bits > 0 && i < |s.seeds|
    ensures b < s.bits
  {
    s.hash(s.seeds[i], value) % s.bits
  }

  /** All bits of the value are set: the filter says it may contain it. */
  predicate Says(s: Shape, set': Str, value: Str)
    requires s.bits > 0
  {
    forall i :: 0 <= i < |s.seeds| ==> BitAt(set', Index(s, value, i))
  }

  /** The indexes a filter is left with after hashing a value. */
  ghost predicate Asked(s: Shape, indexes: seq<nat>, value: Str)
    requires s.bits > 0
  {
    |indexes| == |s.seeds| && forall i :: 0 <= i < |indexes| ==> indexes[i] == Index(s, value, i)
  }

  class Filter {
    const shape: Shape
    const bitset: array<byte>
    var cnt: nat
    var indexes: seq<nat>

    /** The values added so far. */
    ghost var added: set<Str>

    ghost predicate Valid()
      reads this, bitset
    {
      && shape.bits > 0 && shape.bits <= 8 * bitset.Length && |indexes| == |shape.seeds|
      && forall v :: v in added ==> Says(shape, bitset[..], v)
    }

    constructor (bytesNeeded: nat, seeds: seq<word64>, hash: (word64, Str) -> nat)
      requires bytesNeeded > 0
      ensures Valid() && added == {} && cnt == 0 && fresh(bitset)
      ensures shape == Shape(8 * bytesNeeded, seeds, hash) && bitset.Length == bytesNeeded
      ensures (forall j: nat :: !BitAt(bitset[..], j)) && forall i :: 0 <= i < |indexes| ==> indexes[i] == 0
    {
      shape := Shape(8 * bytesNeeded, seeds, hash);
      bitset := new byte[bytesNeeded](_ => 0);
      cnt := 0;
      indexes := seq(|seeds|, _ => 0);
      added := {};
      new;
      forall j: nat ensures !BitAt(bitset[..], j) {
        NoBits(7 - j % 8);
      }
    }

    /** The list of indexes is that of the value hashed last. */
    ghost predicate LastAsked(value: Str)
      reads `indexes
    {
      shape.bits > 0 && Asked(shape, indexes, value)
    }

    method UpdateIndexes(value: Str)
      requires Valid()
      modifies `indexes
      ensures |indexes| == |shape.seeds| && LastAsked(value)
      ensures forall i :: 0 <= i < |indexes| ==> indexes[i] == shape.hash(shape.seeds[i], value) % shape.bits
    {
      for k := 0 to |shape.seeds|
        invariant |indexes| == |shape.seeds|
        invariant forall i :: 0 <= i < k ==> indexes[i] == Index(shape, value, i)
      {
        indexes := indexes[k := shape.hash(shape.seeds[k], value) % shape.bits];
      }
    }

    /** Adds a value: 1 when a new bit was set, 0 when all were set already, -1 for an empty value.
        Nothing but the value's own bits changes. */
    method Add(value: Str) returns (reply: int)
      requires Valid()
      modifies this, bitset
      ensures Valid() && reply == if value == [] then -1 else if old(Says(shape, bitset[..], value)) then 0 else 1
      ensures added == if value == [] then old(added) else old(added) + {value}
      ensures cnt == old(cnt) + if reply == 1 then 1 else 0
      ensures value == [] ==> bitset[..] == old(bitset[..]) && indexes == old(indexes)
      ensures value != [] ==> LastAsked(value)
      ensures value != [] ==> forall i :: 0 <= i < |shape.seeds| ==>
                BitAt(bitset[..], shape.hash(shape.seeds[i], value) % shape.bits)
      ensures value != [] ==> forall j: nat ::
        BitAt(bitset[..], j) <==>
          BitAt(old(bitset[..]), j) || exists i :: 0 <= i < |shape.seeds| && Index(shape, value, i) == j
    {
      if value == [] {
        return -1;
      }
      hide BitAt, Index;
      UpdateIndexes(value);
      ghost var ix, was := indexes, bitset[..];
      var count := 0;
      for k := 0 to |indexes|
        invariant count <= k && (count == k <==> forall i :: 0 <= i < k ==> BitAt(was, ix[i]))
        invariant forall j: nat :: BitAt(bitset[..], j) <==> BitAt(was, j) || j in ix[..k]
        modifies bitset
      {
        TakeDrop(ix, k);
        InRange(indexes[k], bitset.Length);
        var set' := IsBitSet(bitset, indexes[k]);
        if set' {
          count := count + 1;
        } else {
          SetBit(bitset, indexes[k]);
        }
      }
      assert ix[..|ix|] == ix;
      added := added + {value};
      if count == |indexes| {
        return 0;
      }
      cnt := cnt + 1;
      return 1;
    }

    /** Asks for a value; an added value is never denied. An empty one is answered with an error. */
    method Exists(value: Str) returns (yes: bool, err: bool)
      requires Valid()
      modifies `indexes
      ensures Valid() && err == (value == [])
      ensures yes == (value == [] || Says(shape, bitset[..], value))
      ensures value in added ==> yes
      ensures value != [] ==> (yes <==> forall i :: 0 <= i < |shape.seeds| ==>
                BitAt(bitset[..], shape.hash(shape.seeds[i], value) % shape.bits))
      ensures if value == [] then indexes == old(indexes) else LastAsked(value)
    {
      if value == [] {
        return true, true;
      }
      UpdateIndexes(value);
      for k := 0 to |indexes|
        invariant forall i :: 0 <= i < k ==> BitAt(bitset[..], Index(shape, value, i))
        modifies {}
      {
        var set' := IsBitSet(bitset, indexes[k]);
        if !set' {
          return false, false;
        }
      }
      return true, false;
    }
  }

  lemma InRange(b: nat, bytes: nat)
    requires b < 8 * bytes
    ensures b / 8 < bytes
  {
  }

  lemma {:induction false} NoBits(o: nat)
    ensures !Bit(0, o)
  {
    if o > 0 {
      NoBits(o - 1);
    }
  }

  function Words(ws: seq<word64>): Str {
    if ws == [] then [] else BigEndian(ws[0], 8) + Words(ws[1..])
  }

  /** A value read from a buffer and the bytes after it. */
  datatype Read<+T> = Short | Read(value: T, rest: Str)

  function ReadWord(s: Str): Read<word64> {
    if |s| < 8 then Short
    else
      BigEndianFits(s[..8]);
      Read(BigEndianValue(s[..8]), s[8..])
  }

  function ReadWords(s: Str, n: nat): Read<seq<word64>>
    decreases n
  {
    if n == 0 then Read([], s)
    else
      match ReadWord(s)
      case Short => Short
      case Read(w, rest) =>
        match ReadWords(rest, n - 1)
        case Short => Short
        case Read(ws, rest') => Read([w] + ws, rest')
  }

  lemma BigEndianFits(s: Str)
    requires |s| == 8
    ensures BigEndianValue(s) < WORD
  {
    BigEndianBound(s);
    PowValues();
  }

  lemma ReadWordBack(w: word64, rest: Str)
    ensures ReadWord(BigEndian(w, 8) + rest) == Read(w, rest)
  {
    hide BigEndian, BigEndianValue, Pow;
    BigEndianRoundTrip(w, 8);
    PowValues();
    Halves(BigEndian(w, 8), rest);
  }

  lemma {:induction false} ReadWordsBack(ws: seq<word64>, rest: Str)
    ensures ReadWords(Words(ws) + rest, |ws|) == Read(ws, rest)
    decreases |ws|
  {
    hide ReadWord, BigEndian;
    if ws == [] {
      assert Words(ws) + rest == rest;
    } else {
      AppendAssoc(BigEndian(ws[0], 8), Words(ws[1..]), rest);
      ReadWordBack(ws[0], Words(ws[1..]) + rest);
      ReadWordsBack(ws[1..], rest);
      HeadTail(ws);
    }
  }

  /** The stored fields of a filter. The error rate is kept as its eight bytes. */
  datatype Stored = Stored(cnt: word64, errorRate: word64, capacity: word64, bits: word64,
                           seeds: seq<word64>, indexes: seq<word64>, bitset: Str)

  function Serialize(f: Stored): Str
    requires |f.seeds| < WORD && |f.indexes| < WORD
  {
    Words([f.cnt, f.errorRate, f.capacity, f.bits, |f.seeds|]) + (Words(f.seeds) +
    (Words([|f.indexes|]) + (Words(f.indexes) + f.bitset)))
  }

  /** Reads `n` bytes into a zeroed buffer; fewer when the input ends before, which is an error
      only when nothing is left. */
  function ReadBytes(s: Str, n: nat): Option<Str> {
    if s == [] && n > 0 then None
    else if |s| >= n then Some(s[..n])
    else Some(s + seq(n - |s|, _ => 0))
  }

  /** The restored bit set takes `bits` bytes, eight times what the filter had. */
  function Deserialize(s: Str): Option<Stored> {
    match ReadWords(s, 5)
    case Short => None
    case Read(head, s1) =>
      ReadWordsCount(s, 5);
      match ReadWords(s1, head[4])
      case Short => None
      case Read(seeds, s2) =>
        match ReadWord(s2)
        case Short => None
        case Read(k, s3) =>
          match ReadWords(s3, k)
          case Short => None
          case Read(indexes, s4) =>
            match ReadBytes(s4, head[3])
            case None => None
            case Some(bitset) => Some(Stored(head[0], head[1], head[2], head[3], seeds, indexes, bitset))
  }

  lemma {:induction false} ReadWordsCount(s: Str, n: nat)
    ensures ReadWords(s, n).Read? ==> |ReadWords(s, n).value| == n
    decreases n
  {
    if n > 0 && ReadWord(s).Read? {
      ReadWordsCount(ReadWord(s).rest, n - 1);
    }
  }

  /** What is read back from a serialised filter, whatever follows it in the input: every field
      exactly, and a longer bit set that starts with the old one. */
  lemma RoundTrip(f: Stored, more: Str)
    requires |f.seeds| < WORD && |f.indexes| < WORD && 0 < |f.bitset| <= f.bits
    ensures var r := Deserialize(Serialize(f) + more);
            && r.Some? && r.value.(bitset := f.bitset) == f
            && |r.value.bitset| == f.bits && f.bitset <= r.value.bitset
  {
    hide Words, ReadWords, ReadWord;
    var head := [f.cnt, f.errorRate, f.capacity, f.bits, |f.seeds|];
    var s4 := f.bitset + more;
    var s3 := Words(f.indexes) + s4;
    var s2 := Words([|f.indexes|]) + s3;
    var s1 := Words(f.seeds) + s2;
    assert Serialize(f) + more == Words(head) + s1;
    ReadWordsBack(head, s1);
    ReadWordsBack(f.seeds, s2);
    ReadOne(|f.indexes|, s3);
    ReadWordsBack(f.indexes, s4);
  }

  lemma ReadOne(w: word64, rest: Str)
    ensures ReadWord(Words([w]) + rest) == Read(w, rest)
  {
    hide ReadWord, BigEndian;
    assert Words([w]) == BigEndian(w, 8) + Words([]);
    AppendCut(BigEndian(w, 8), [], 0);
    ReadWordBack(w, rest);
  }

  /** A longer bit set with the same start gives the same answer for every value. */
  lemma SameAnswers(s: Shape, set': Str, longer: Str, value: Str)
    requires s.bits > 0 && s.bits <= 8 * |set'| && set' <= longer
    ensures Says(s, longer, value) <==> Says(s, set', value)
  {
    hide Bit;
    forall i | 0 <= i < |s.seeds| ensures BitAt(longer, Index(s, value, i)) == BitAt(set', Index(s, value, i)) {
      InRange(Index(s, value, i), |set'|);
    }
  }

  /** A restored filter answers exactly as the one that was saved, also when that was restored before. */
  lemma RestoredSaysTheSame(f: Stored, more: Str, hash: (word64, Str) -> nat, value: Str)
    requires |f.seeds| < WORD && |f.indexes| < WORD && 0 < |f.bitset| <= f.bits <= 8 * |f.bitset|
    ensures Deserialize(Serialize(f) + more).Some?
    ensures var r := Deserialize(Serialize(f) + more).value;
            && r.bits == f.bits
            && (Says(Shape(r.bits, r.seeds, hash), r.bitset, value) <==>
              Says(Shape(f.bits, f.seeds, hash), f.bitset, value))
  {
    hide Deserialize, Serialize, BitAt, Index;
    RoundTrip(f, more);
    SameAnswers(Shape(f.bits, f.seeds, hash), f.bitset, Deserialize(Serialize(f) + more).value.bitset, value);
  }

  // ---------------------------------------------------------------- copies

  /** The indexes a filter looks at for a value: those its hash functions give, in front of whatever
      the list of indexes held before. */
  function Touched(s: Shape, indexes: seq<nat>, value: Str): (r: seq<nat>)
    requires s.bits > 0
    ensures |r| == |indexes|
  {
    seq(|indexes|, i requires 0 <= i < |indexes| => if i < |s.seeds| then Index(s, value, i) else indexes[i])
  }

  predicate AnswersYes(s: Shape, indexes: seq<nat>, set': Str, value: Str)
    requires s.bits > 0
  {
    forall i :: 0 <= i < |indexes| ==> BitAt(set', Touched(s, indexes, value)[i])
  }

  /** With as many hash functions as indexes that is the question whether all bits are set. */
  lemma AnswersSay(s: Shape, indexes: seq<nat>, set': Str, value: Str)
    requires s.bits > 0 && |indexes| == |s.seeds|
    ensures AnswersYes(s, indexes, set', value) <==> Says(s, set', value)
  {
    hide BitAt, Index;
    assert forall i :: 0 <= i < |indexes| ==> Touched(s, indexes, value)[i] == Index(s, value, i);
  }

  /** A copy keeps the hash functions and loses the seeds they were made from. */
  function Copied(f: Stored): Stored {
    f.(seeds := [])
  }

  /** A filter whose fields belong together. */
  predicate Proper(f: Stored) {
    && |f.seeds| < WORD && |f.indexes| < WORD && 0 < |f.bitset| <= f.bits <= 8 * |f.bitset|
    && forall i :: 0 <= i < |f.indexes| ==> f.indexes[i] < f.bits
  }

  function ShapeOf(f: Stored, hash: (word64, Str) -> nat): Shape {
    Shape(f.bits, f.seeds, hash)
  }

  /** What a copy of `f` answers for `value` after it was saved and restored. */
  ghost predicate CopySays(f: Stored, more: Str, hash: (word64, Str) -> nat, value: Str)
    requires Proper(f)
  {
    var r := Deserialize(Serialize(Copied(f)) + more);
    r.Some? && r.value.bits > 0 && AnswersYes(ShapeOf(r.value, hash), r.value.indexes, r.value.bitset, value)
  }

  /** All bits that the list of indexes names are set. */
  predicate Lit(f: Stored) {
    forall i :: 0 <= i < |f.indexes| ==> BitAt(f.bitset, f.indexes[i])
  }

  /** A copy that is saved and restored has no hash functions: for every value it answers from the
      indexes that were saved. */
  lemma RestoredCopyAnswers(f: Stored, more: Str, hash: (word64, Str) -> nat, value: Str)
    requires Proper(f)
    ensures Deserialize(Serialize(Copied(f)) + more).Some?
    ensures CopySays(f, more, hash, value) <==> Lit(f)
  {
    hide Deserialize, Serialize, Bit;
    RoundTrip(Copied(f), more);
    var r := Deserialize(Serialize(Copied(f)) + more).value;
    forall i | 0 <= i < |f.indexes|
      ensures BitAt(r.bitset, Touched(ShapeOf(r, hash), r.indexes, value)[i]) == BitAt(f.bitset, f.indexes[i])
    {
      InRange(f.indexes[i], |f.bitset|);
    }
  }

  /** So it repeats what the original answers for the value it hashed last. */
  lemma RestoredCopyRepeats(f: Stored, more: Str, hash: (word64, Str) -> nat, last: Str, value: Str)
    requires Proper(f) && Asked(ShapeOf(f, hash), f.indexes, last)
    ensures CopySays(f, more, hash, value) <==> Says(ShapeOf(f, hash), f.bitset, last)
  {
    hide CopySays, BitAt, Index;
    RestoredCopyAnswers(f, more, hash, value);
  }

  /** The copy answers every value that can be asked as the original does. */
  ghost predicate CopyAgrees(f: Stored, more: Str, hash: (word64, Str) -> nat)
    requires Proper(f)
  {
    forall v :: v != [] ==> (CopySays(f, more, hash, v) <==> Says(ShapeOf(f, hash), f.bitset, v))
  }

  /** It does exactly when the original answers every value as the one it hashed last. */
  lemma RestoredCopyAgreesExactly(f: Stored, more: Str, hash: (word64, Str) -> nat, last: Str)
    requires Proper(f) && Asked(ShapeOf(f, hash), f.indexes, last)
    ensures CopyAgrees(f, more, hash) <==>
              forall v :: v != [] ==> (Says(ShapeOf(f, hash), f.bitset, v) <==> Says(ShapeOf(f, hash), f.bitset, last))
  {
    hide CopySays, Says, Asked;
    forall v ensures CopySays(f, more, hash, v) <==> Says(ShapeOf(f, hash), f.bitset, last) {
      RestoredCopyRepeats(f, more, hash, last, v);
    }
  }

  /** A filter that was never asked holds nothing, and its copy says so. */
  lemma UnaskedCopyAgrees(f: Stored, more: Str, hash: (word64, Str) -> nat)
    requires Proper(f) && |f.indexes| == |f.seeds|
    requires forall j: nat :: !BitAt(f.bitset, j)
    requires forall i :: 0 <= i < |f.indexes| ==> f.indexes[i] == 0
    ensures CopyAgrees(f, more, hash)
  {
    hide CopySays, BitAt, Index;
    forall v ensures CopySays(f, more, hash, v) <==> Says(ShapeOf(f, hash), f.bitset, v) {
      RestoredCopyAnswers(f, more, hash, v);
      if f.indexes != [] {
        assert !BitAt(f.bitset, f.indexes[0]);
        assert !BitAt(f.bitset, Index(ShapeOf(f, hash), v, 0));
      }
    }
  }

  function LengthHash(seed: word64, value: Str): nat {
    |value|
  }

  /** A value is added and another asked for, which is denied; the saved and restored copy then denies
      the added value. */
  method AddedButDenied() returns (f: Filter, image: Stored, value: Str)
    ensures f.Valid() && value in f.added && Says(f.shape, f.bitset[..], value)
    ensures image.cnt == f.cnt && ShapeOf(image, f.shape.hash) == f.shape
    ensures image.indexes == f.indexes && image.bitset == f.bitset[..] && Proper(image)
    ensures forall more :: !CopySays(image, more, f.shape.hash, value)
  {
    hide CopySays, Bit;
    value := [0];
    var absent: Str := [0, 0];
    f := new Filter(1, [0], LengthHash);
    var reply := f.Add(value);
    assert Index(f.shape, value, 0) == 1 && Index(f.shape, absent, 0) == 2;
    assert !BitAt(f.bitset[..], 2);
    var yes, err := f.Exists(absent);
    assert f.cnt == 1 && f.indexes == [2];
    image := Stored(f.cnt, 0, 0, f.shape.bits, f.shape.seeds, f.indexes, f.bitset[..]);
    forall more ensures !CopySays(image, more, f.shape.hash, value) {
      RestoredCopyRepeats(image, more, f.shape.hash, absent, value);
    }
  }
}
