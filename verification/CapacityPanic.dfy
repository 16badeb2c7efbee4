/** A run of four list commands on which the packed deque panics: pushing left of a cursor that
    stands more than one node size into its buffer computes a capacity below the length. */
module CapacityPanic {
  import opened Bytes
  import opened Decimal
  import opened EntryCodec
  import opened PlainList
  import opened Sequences
  import opened ByteLists
  import opened Deques

  function Letters(n: nat): Str {
    seq(n, _ => 97)
  }

  /** A run of letters is stored as it is, in its length plus header and back-length. */
  lemma LettersEntry(n: nat)
    requires n == 1 || 200 <= n <= 1000
    ensures |Letters(n)| < MAX_STRING && !LeavesSpareByte(Letters(n)) && SizeAgrees(Letters(n))
              && Norm(Letters(n)) == Letters(n)
    ensures EntrySize(Letters(n)) == (if n == 1 then 3 else n + 4)
  {
    var x := Letters(n);
    assert Magnitude(x) == x && !IsDigit(x[0]);
    assert ParseInt(x) == None;
  }

  /** A list with a long entry in front of a short one, both in one buffer. */
  method TwoPushes() returns (q: Deque)
    ensures fresh(q) && fresh(q.list) && q.Valid() && |q.list.spine| == 1 && fresh(q.list.spine[0])
    ensures q.leftIdx == 0 && q.groups == [[Letters(300), Letters(1)]]
  {
    hide EntrySize, Norm, SizeAgrees, Letters, EncodeEntry, LeavesSpareByte, Flat, Packed, Chain, Deque.LeftClean;
    LettersEntry(1);
    LettersEntry(300);
    q := new Deque();
    q.LeftCleanWithoutSpare(Letters(1));
    label first:
    var panicked := q.LPush(Letters(1));
    q.LeftContents@first(Letters(1));
    assert q.groups == [[Letters(1)]] && q.leftIdx == 253;
    q.LeftCleanWithoutSpare(Letters(300));
    label second:
    panicked := q.LPush(Letters(300));
    q.LeftContents@second(Letters(300));
    assert q.groups[0] == [Letters(300)] + [Letters(1)];
    assert [Letters(300)] + [Letters(1)] == [Letters(300), Letters(1)];
  }

  method FourCommands() returns (panicked: bool)
    ensures panicked
  {
    hide EntrySize, Norm, SizeAgrees, Letters, EncodeEntry, Flat, Packed, Chain;
    LettersEntry(300);
    LettersEntry(302);
    StoredSize(Letters(300));
    var q := TwoPushes();
    var r := q.LPop();
    assert q.leftIdx == 304 && (q.list.spine != [] ==> q.list.spine[0] in q.list.spine);
    panicked := q.LPush(Letters(302));
  }
}
