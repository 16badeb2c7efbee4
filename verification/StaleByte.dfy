/** A run of list commands that leaves a stale back-length byte, on which the next pop from the
    right computes a start before the buffer. */
module StaleByte {
  import opened Bytes
  import opened Decimal
  import opened Varint
  import opened EntryCodec
  import opened PlainList
  import opened Sequences
  import opened ByteLists
  import opened Deques
  import opened CapacityPanic

  /** Long runs of letters have a five-byte header and a three-byte back-length; at 16378 letters one
      byte of that is spare. */
  lemma LongLetters(n: nat)
    requires n == 16378 || n == 20000
    ensures |Letters(n)| < MAX_STRING && SizeAgrees(Letters(n)) && Norm(Letters(n)) == Letters(n)
    ensures EntrySize(Letters(n)) == n + 8 && |StrBody(Letters(n))| == n + 5
    ensures LeavesSpareByte(Letters(n)) <==> n == 16378
    ensures forall i :: 5 <= i < n + 5 ==> StrBody(Letters(n))[i] == 97
    ensures !StoredAsInt(Letters(n))
  {
    var x := Letters(n);
    assert Magnitude(x) == x && !IsDigit(x[0]);
    assert ParseInt(x) == None;
  }

  /** A node that holds one short run of letters, from its first byte on. */
  ghost predicate HoldsOne(q: Deque)
    reads q, q.list, q.list.spine
  {
    && q.Valid() && |q.list.spine| == 1 && q.leftIdx == 0 && q.groups == [[Letters(1)]]
    && q.list.spine[0].len == 3
  }

  lemma OneLetterHeld(q: Deque)
    requires q.Valid() && |q.list.spine| == 1 && q.leftIdx == 0 && q.groups == [[Letters(1)]]
    ensures HoldsOne(q)
  {
    hide EntrySize, Norm, SizeAgrees, Letters, EncodeEntry, Flat;
    LettersEntry(1);
    StoredSize(Letters(1));
    assert EncodeAll([Letters(1)]) == EncodeEntry(Letters(1)) + EncodeAll([]) by {
      assert [Letters(1)][1..] == [];
    }
  }

  method OneLetter() returns (q: Deque)
    ensures fresh(q) && fresh(q.list) && HoldsOne(q) && fresh(q.list.spine[0]) && |q.list.spine[0].mem| >= MIN_NODE_SIZE
  {
    hide EntrySize, Norm, SizeAgrees, Letters, EncodeEntry, Flat, Packed, Chain, HoldsOne, EncodeAll;
    LettersEntry(1);
    q := new Deque();
    q.RightCleanWithoutSpare(Letters(1));
    label first:
    var panicked := q.RPush(Letters(1));
    q.RightContents@first(Letters(1));
    assert q.groups == [[Letters(1)]];
    OneLetterHeld(q);
  }

  /** What an in-place write of a long run leaves in the node. */
  lemma LettersWritten(mem: Str, len: nat, n: nat, mem': Str, len': nat)
    requires n == 16378 || n == 20000
    requires |Letters(n)| < MAX_STRING && WrittenBehind(mem, len, Letters(n), mem', len')
    ensures len' == len + n + 8 && forall i :: len + 5 <= i < len + n + 5 ==> mem'[i] == 97
  {
    hide Letters, StrBody, RevInPlace, EntrySize, LeavesSpareByte;
    LongLetters(n);
    var x := Letters(n);
    var w := mem'[len..len'];
    assert w[..n + 5] == StrBody(x);
    forall i | len + 5 <= i < len + n + 5 ensures mem'[i] == 97 {
      assert mem'[i] == w[i - len] == StrBody(x)[i - len];
    }
  }

  /** RPUSH of a letter and of 20000 letters, and RPOP: the popped letters stay in the buffer. */
  method PoppedLetters() returns (q: Deque)
    ensures fresh(q) && fresh(q.list) && HoldsOne(q) && fresh(q.list.spine[0]) && |q.list.spine[0].mem| >= 20011
    ensures forall i :: 8 <= i < 20008 ==> q.list.spine[0].mem[i] == 97
  {
    hide EntrySize, Norm, SizeAgrees, Letters, EncodeEntry, Flat, Packed, Chain, EncodeAll, WrittenBehind,
         LeavesSpareByte;
    LongLetters(20000);
    q := OneLetter();
    ghost var node := q.list.spine[0];
    assert q.list.tail == node;
    q.RightCleanWithoutSpare(Letters(20000));
    label second:
    ghost var mem := node.mem;
    var panicked := q.RPush(Letters(20000));
    q.RightContents@second(Letters(20000));
    LettersWritten(mem, 3, 20000, node.mem, node.len);
    assert q.groups == [[Letters(1)] + [Letters(20000)]];
    WrittenSize(mem, 3, Letters(20000), node.mem, node.len);
    var r := q.RPop();
    assert ([Letters(1)] + [Letters(20000)])[..1] == [Letters(1)];
    OneLetterHeld(q);
  }

  lemma WrittenSize(mem: Str, len: nat, x: Str, mem': Str, len': nat)
    requires |x| < MAX_STRING && WrittenBehind(mem, len, x, mem', len')
    ensures len' <= |mem'|
  {
  }

  /** RPUSH of 16378 letters then puts its back-length behind a byte of the popped ones. The next
      RPOP reads a back-length longer than everything in front of it. */
  method FiveCommands() returns (q: Deque)
    ensures q.list.tail != null && q.list.tail.len <= |q.list.tail.mem|
    ensures var buf := q.list.tail.mem[..q.list.tail.len];
            && BackFieldStart(buf).Some?
            && BackFieldStart(buf).value <= |buf|
            && RevValue(buf[BackFieldStart(buf).value..]) > BackFieldStart(buf).value
  {
    hide EntrySize, Norm, SizeAgrees, Letters, EncodeEntry, Flat, Packed, Chain, EncodeAll, WrittenBehind,
         BackFieldStart,
         RevValue, LeavesSpareByte;
    LongLetters(16378);
    q := PoppedLetters();
    ghost var node := q.list.spine[0];
    assert q.list.tail == node;
    ghost var mem := node.mem;
    var panicked := q.RPush(Letters(16378));
    StaleLength(mem, node.mem, node.len);
  }

  lemma StaleLength(mem: Str, mem': Str, len': nat)
    requires |mem| >= 20011 && mem[16386] == 97
    requires |Letters(16378)| < MAX_STRING && WrittenBehind(mem, 3, Letters(16378), mem', len')
    ensures len' <= |mem'|
    ensures var buf := mem'[..len'];
            && BackFieldStart(buf) == Some(16386) && |buf| >= 16386
            && RevValue(buf[16386..]) > 16386
  {
    hide Letters, StrBody, EncodeInPlace, EntrySize, BackFieldStart, RevValue, LeavesSpareByte, SizeAgrees, SpareClean,
         RevGroups, Shifted, Norm, StoredAsInt;
    LongLetters(16378);
    SpareFactor();
    var x := Letters(16378);
    var slot := Slot(mem, 3, x);
    StaleSpareByteMisparses(mem[..3], x, slot);
    InPlaceAgrees(x, slot);
    assert mem'[..len'] == mem[..3] + EncodeInPlace(x, slot).value;
    assert slot[16383] == mem[16386];
  }

  lemma SpareFactor()
    ensures Shifted(97, |RevGroups(16383)|) == 97 * 16384
  {
    assert RevGroups(16383) == RevGroups(127) + [255];
    assert Shifted(97, 2) == 128 * Shifted(97, 1) && Shifted(97, 1) == 97 * 128;
  }
}
