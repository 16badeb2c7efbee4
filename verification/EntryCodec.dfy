/** The packed-list entry `[header | data | reversed varint back-length]`: the allocating encoder,
    the in-place encoder, the size function, the decoder, and reading an entry from its right end. */
module EntryCodec {
  import opened Bytes
  import opened Decimal
  import opened Varint
  import opened Sequences

  /** Longer strings do not fit the 32-bit length header. */
  const MAX_STRING: nat := 0x1_0000_0000

  function Zeros(n: nat): (s: Str)
    ensures |s| == n
  {
    seq(n, _ => 0)
  }

  /** The header of a string entry: 6-bit, 12-bit or 32-bit length. */
  function StrHeader(n: nat): (h: Str)
    requires n < MAX_STRING
    ensures |h| == (if n <= 63 then 1 else if n <= 4095 then 2 else 5)
  {
    if n <= 63 then [128 + n]
    else if n <= 4095 then [224 + n / 256, n % 256]
    else [240] + LittleEndian(n, 4)
  }

  /** Header and data of a string entry; its length is what the back-length records. */
  function StrBody(x: Str): Str
    requires |x| < MAX_STRING
  {
    StrHeader(|x|) + x
  }

  function EncodeStr(x: Str): (r: Str)
    requires |x| < MAX_STRING
  {
    var n := |StrBody(x)|;
    ReservedSize(n);
    StrBody(x) + RevInPlace(n, Zeros(GetEncodeUIntSize(n)))
  }

  /** Header and data of an integer entry: 7, 13, 16, 24, 32 or 64 bits. */
  function IntBody(v: int): (r: Str)
    ensures |r| == IntSize(v) - 1
  {
    if 0 <= v <= 127 then [v]
    else if -4096 <= v <= 4095 then [192 + (v / 256) % 32, v % 256]
    else if -32768 <= v <= 32767 then [241] + LittleEndian(v, 2)
    else if -8388608 <= v <= 8388607 then [242] + LittleEndian(v, 3)
    else if -2147483648 <= v <= 2147483647 then [243] + LittleEndian(v, 4)
    else [244] + LittleEndian(v, 8)
  }

  function EncodeInt(v: int): Str {
    IntBody(v) + [|IntBody(v)|]
  }

  /** Whether `EncodeDeqEntry` stores `x` as an integer. */
  predicate StoredAsInt(x: Str) {
    |x| < 21 && ParseInt(x).Some?
  }

  /** The allocating encoder. */
  function EncodeEntry(x: Str): (r: Str)
    requires |x| < MAX_STRING
    ensures |r| >= 2
  {
    if StoredAsInt(x) then EncodeInt(ParseInt(x).value) else EncodeStr(x)
  }

  /** An entry without its back-length field. */
  function EntryBody(x: Str): Str
    requires |x| < MAX_STRING
  {
    if StoredAsInt(x) then IntBody(ParseInt(x).value) else StrBody(x)
  }

  // ---------------------------------------------------------------- size and in-place encoder

  /** The bytes of an entry. Its first byte tells numbers from strings and how wide they are; a number
      ends in its length. */
  lemma EntryForms(x: Str)
    requires |x| < MAX_STRING
    ensures var e := EncodeEntry(x);
            if !StoredAsInt(x) then
              if |x| <= 63 then e[0] == 128 + |x| && x <= e[1..]
              else if |x| <= 4095 then 224 <= e[0] < 240 && (e[0] as int - 224) * 256 + e[1] == |x| && x <= e[2..]
              else e[0] == 240 && LittleEndianValue(e[1..5]) == |x| && x <= e[5..]
            else
              var v, n := ParseInt(x).value, |e| - 1;
              && e[n] == n
              && if 0 <= v <= 127 then e[0] == v && n == 1
                 else if -4096 <= v <= 4095 then 192 <= e[0] < 224 && (e[0] as int - 192) * 256 + e[1] == v % 8192
                   && n == 2
                 else if -32768 <= v <= 32767 then e[0] == 241 && e[1..n] == LittleEndian(v, 2)
                 else if -8388608 <= v <= 8388607 then e[0] == 242 && e[1..n] == LittleEndian(v, 3)
                 else if -2147483648 <= v <= 2147483647 then e[0] == 243 && e[1..n] == LittleEndian(v, 4)
                 else e[0] == 244 && e[1..n] == LittleEndian(v, 8)
  {
    hide ParseInt, LittleEndian, LittleEndianValue, RevInPlace;
    if !StoredAsInt(x) {
      StrForm(x);
    } else {
      IntForm(ParseInt(x).value);
    }
  }

  lemma StrForm(x: Str)
    requires |x| < MAX_STRING
    ensures var e := EncodeStr(x);
            if |x| <= 63 then |e| > 1 && e[0] == 128 + |x| && x <= e[1..]
            else if |x| <= 4095 then
              |e| > 2 && 224 <= e[0] < 240 && (e[0] as int - 224) * 256 + e[1] == |x| && x <= e[2..]
            else |e| > 5 && e[0] == 240 && LittleEndianValue(e[1..5]) == |x| && x <= e[5..]
  {
    hide LittleEndian, LittleEndianValue, RevInPlace, Pow, Groups, RevGroups;
    var h := StrHeader(|x|);
    var t := EncodeStr(x)[|h| + |x|..];
    AppendAssoc(h, x, t);
    Halves(h, x + t);
    if |x| > 4095 {
      assert h[1..] == LittleEndian(|x|, 4);
      LittleEndianRoundTrip(|x|, 4);
      PowValues();
    }
  }

  lemma IntForm(v: int)
    ensures var e := EncodeInt(v);
            var n := |e| - 1;
            && n > 0 && e[n] == n
            && if 0 <= v <= 127 then e[0] == v && n == 1
               else if -4096 <= v <= 4095 then 192 <= e[0] < 224 && (e[0] as int - 192) * 256 + e[1] == v % 8192
                 && n == 2
               else if -32768 <= v <= 32767 then e[0] == 241 && e[1..n] == LittleEndian(v, 2)
               else if -8388608 <= v <= 8388607 then e[0] == 242 && e[1..n] == LittleEndian(v, 3)
               else if -2147483648 <= v <= 2147483647 then e[0] == 243 && e[1..n] == LittleEndian(v, 4)
               else e[0] == 244 && e[1..n] == LittleEndian(v, 8)
  {
    hide LittleEndian;
  }

  function IntSize(v: int): (n: nat)
    ensures 2 <= n <= 10
  {
    if 0 <= v <= 127 then 2
    else if -4096 <= v <= 4095 then 3
    else if -32768 <= v <= 32767 then 4
    else if -8388608 <= v <= 8388607 then 5
    else if -2147483648 <= v <= 2147483647 then 6
    else 10
  }

  /** `GetEncodeDeqEntrySize`: unlike the encoders it parses strings of any length. */
  function EntrySize(x: Str): nat
    requires |x| < MAX_STRING
  {
    var v := ParseInt(x);
    if v.Some? then IntSize(v.value)
    else |StrBody(x)| + GetEncodeUIntSize(|StrBody(x)|)
  }

  /** `EncodeDeqEntryInPlace` into a slice holding `buf`; `None` is an index or slice panic. */
  function EncodeInPlace(x: Str, buf: Str): (r: Option<Str>)
    requires |x| < MAX_STRING
    ensures r.Some? ==> |r.value| == |buf|
  {
    if StoredAsInt(x) then
      var body := IntBody(ParseInt(x).value);
      if |buf| < |body| then None
      else Some((body + buf[|body|..])[|buf| - 1 := (|buf| - 1) % 256])
    else
      var n := |StrBody(x)|;
      if |buf| < n + |RevGroups(n)| then None
      else Some(StrBody(x) + RevInPlace(n, buf[n..]))
  }

  /** The size function and the encoders agree on how `x` is stored: false exactly for 21 or more
      bytes that still parse as an int64, such as a zero-padded number. */
  predicate SizeAgrees(x: Str) {
    ParseInt(x).Some? ==> |x| < 21
  }

  /** Whether one reserved back-length byte of `x` is not written by the encoder. */
  predicate LeavesSpareByte(x: Str)
    requires |x| < MAX_STRING
  {
    !StoredAsInt(x) && HasSpareByte(|StrBody(x)|)
  }

  /** The spare byte, if there is one, holds nothing but possibly a top bit. */
  predicate SpareClean(x: Str, buf: Str)
    requires |x| < MAX_STRING
  {
    LeavesSpareByte(x) && |StrBody(x)| < |buf| ==> buf[|StrBody(x)|] % 128 == 0
  }

  /** The allocating encoder fills exactly the computed size, except for padded numbers. */
  lemma SizeIsLength(x: Str)
    requires |x| < MAX_STRING
    ensures SizeAgrees(x) <==> |EncodeEntry(x)| == EntrySize(x)
  {
  }

  /** The in-place encoder on a slice of the computed size: it panics exactly when the size
      function disagrees, and otherwise writes the allocating encoder's bytes exactly when the
      spare byte of the slice was clean. */
  lemma InPlaceAgrees(x: Str, buf: Str)
    requires |x| < MAX_STRING && |buf| == EntrySize(x)
    ensures EncodeInPlace(x, buf).None? <==> !SizeAgrees(x)
    ensures SizeAgrees(x) ==>
              (EncodeInPlace(x, buf) == Some(EncodeEntry(x)) <==> SpareClean(x, buf))
  {
    hide ParseInt, IntBody, StrHeader;
    if StoredAsInt(x) {
      var body := IntBody(ParseInt(x).value);
      assert (body + buf[|body|..])[|buf| - 1 := |body|] == body + [|body|];
    } else if SizeAgrees(x) {
      InPlaceStr(StrBody(x), buf);
    }
  }

  lemma InPlaceStr(body: Str, buf: Str)
    requires |body| < 0x8_0000_0000 && |buf| == |body| + GetEncodeUIntSize(|body|)
    ensures |RevGroups(|body|)| <= GetEncodeUIntSize(|body|)
    ensures body + RevInPlace(|body|, buf[|body|..]) == body + RevInPlace(|body|, Zeros(GetEncodeUIntSize(|body|)))
            <==> (HasSpareByte(|body|) ==> buf[|body|] % 128 == 0)
  {
    hide GetEncodeUIntSize, RevGroups, HasSpareByte;
    var n := |body|;
    ReservedSize(n);
    var clean, used := RevInPlace(n, Zeros(GetEncodeUIntSize(n))), RevInPlace(n, buf[n..]);
    assert (body + used)[n..] == used && (body + clean)[n..] == clean;
    if HasSpareByte(n) {
      assert used[0] == buf[n] % 128 && clean[0] == 0;
      assert used[1..] == RevGroups(n) == clean[1..];
    }
  }

  // ---------------------------------------------------------------- decoder

  function Word(high: nat, low: nat): nat {
    256 * high + low
  }

  function SignExtend(u: nat, half: nat): int {
    if u >= half then u - 2 * half else u
  }

  /** `DecodeDeqEntry`: the decoded string and the entry's whole length; `None` is a panic. */
  function DecodeEntry(xb: Str): (r: Option<(Str, nat)>) {
    if xb == [] then None
    else
      var h := xb[0];
      if h < 128 then Some((FormatInt(h), 2))
      else if 192 <= h < 224 then
        if |xb| < 2 then None
        else Some((FormatInt(SignExtend(Word(h % 32, xb[1]), 4096)), 3))
      else if h == 241 then DecodeInt(xb, 2, 0x8000)
      else if h == 242 then DecodeInt(xb, 3, 0x80_0000)
      else if h == 243 then DecodeInt(xb, 4, 0x8000_0000)
      else if h == 244 then DecodeInt(xb, 8, 0x8000_0000_0000_0000)
      else if h < 192 then DecodeStr(xb, 1, h % 64)
      else if h < 240 then if |xb| < 2 then None else DecodeStr(xb, 2, Word(h % 16, xb[1]))
      else if h == 240 then if |xb| < 5 then None else DecodeStr(xb, 5, LittleEndianValue(xb[1..5]))
      else Some((FormatInt(12345678900000000 + h as int), 0))
  }

  function DecodeInt(xb: Str, bytes: nat, half: nat): Option<(Str, nat)> {
    if |xb| < 1 + bytes then None
    else Some((FormatInt(SignExtend(LittleEndianValue(xb[1..1 + bytes]), half)), bytes + 2))
  }

  function DecodeStr(xb: Str, header: nat, n: nat): Option<(Str, nat)> {
    if |xb| < header + n then None
    else Some((xb[header..header + n], header + n + GetEncodeUIntSize(header + n)))
  }

  /** What a list holds after storing `x`: numbers come back in canonical decimal. */
  function Norm(x: Str): Str {
    if StoredAsInt(x) then FormatInt(ParseInt(x).value) else x
  }

  lemma SignExtendMod(v: int, half: nat)
    requires half > 0 && 0 - half <= v < half
    ensures SignExtend(v % (2 * half), half) == v
  {
    if v >= 0 { DivModUnique(v, 2 * half, 0, v); } else { DivModUnique(v, 2 * half, -1, v + 2 * half); }
  }

  lemma DecodeEncodedWord(v: int, tag: byte, bytes: nat, half: nat, rest: Str)
    requires half > 0 && Pow(256, bytes) == 2 * half && 0 - half <= v < half
    ensures DecodeInt([tag] + LittleEndian(v, bytes) + rest, bytes, half) == Some((FormatInt(v), bytes + 2))
  {
    var xb := [tag] + LittleEndian(v, bytes) + rest;
    assert xb[1..1 + bytes] == LittleEndian(v, bytes);
    LittleEndianRoundTrip(v, bytes);
    SignExtendMod(v, half);
  }

  lemma ThirteenBits(v: int)
    ensures Word((v / 256) % 32, v % 256) == v % 8192
  {
    DivModUnique(v, 8192, v / 256 / 32, Word((v / 256) % 32, v % 256));
  }

  /** The decoder reads the body alone: header and data of an integer, whatever follows. */
  lemma DecodeIntBody(v: int, more: Str)
    requires MIN_INT64 <= v <= MAX_INT64
    ensures DecodeEntry(IntBody(v) + more) == Some((FormatInt(v), |IntBody(v)| + 1))
  {
    hide LittleEndian, FormatInt, Pow, LittleEndianValue, DecodeStr, DecodeInt, SignExtend, Word;
    if 0 <= v <= 127 {
    } else if -4096 <= v <= 4095 {
      ThirteenBits(v);
      SignExtendMod(v, 4096);
      DecodeShortInt((v / 256) % 32, v % 256, more);
    } else {
      DecodeWideIntBody(v, more);
    }
  }

  lemma DecodeShortInt(high: nat, low: byte, more: Str)
    requires high < 32
    ensures DecodeEntry([192 + high, low] + more) == Some((FormatInt(SignExtend(Word(high, low), 4096)), 3))
  {
    assert (192 + high) % 32 == high;
  }

  lemma DecodeWideIntBody(v: int, more: Str)
    requires MIN_INT64 <= v <= MAX_INT64 && !(-4096 <= v <= 4095)
    ensures DecodeEntry(IntBody(v) + more) == Some((FormatInt(v), |IntBody(v)| + 1))
  {
    hide LittleEndian, FormatInt, Pow, LittleEndianValue, DecodeStr, DecodeInt, SignExtend;
    PowValues();
    if -32768 <= v <= 32767 {
      DecodeEncodedWord(v, 241, 2, 0x8000, more);
    } else if -8388608 <= v <= 8388607 {
      DecodeEncodedWord(v, 242, 3, 0x80_0000, more);
    } else if -2147483648 <= v <= 2147483647 {
      DecodeEncodedWord(v, 243, 4, 0x8000_0000, more);
    } else {
      DecodeEncodedWord(v, 244, 8, 0x8000_0000_0000_0000, more);
    }
  }

  lemma DecodeStrBody(x: Str, more: Str)
    requires |x| < MAX_STRING
    ensures DecodeEntry(StrBody(x) + more) == Some((x, |StrBody(x)| + GetEncodeUIntSize(|StrBody(x)|)))
  {
    hide DecodeEntry, StrHeader, GetEncodeUIntSize;
    var h := StrHeader(|x|);
    var xb := StrBody(x) + more;
    assert xb[..|h|] == h && xb[|h|..|h| + |x|] == x;
    StrHeaderSelects(|x|, xb);
  }

  lemma StrHeaderSelects(n: nat, xb: Str)
    requires n < MAX_STRING && |StrHeader(n)| <= |xb| && xb[..|StrHeader(n)|] == StrHeader(n)
    ensures DecodeEntry(xb) == DecodeStr(xb, |StrHeader(n)|, n)
  {
    hide LittleEndian, FormatInt, Pow, LittleEndianValue, DecodeInt, DecodeStr;
    var h := StrHeader(n);
    assert xb[0] == h[0] && (|h| > 1 ==> xb[1] == h[1]);
    if n > 4095 {
      assert xb[1..5] == h[1..] == LittleEndian(n, 4);
      PowValues();
      LittleEndianRoundTrip(n, 4);
    }
  }

  /** Decoding from the left: the normalised string and exactly the entry's length, whatever follows. */
  lemma DecodeEncoded(x: Str, rest: Str)
    requires |x| < MAX_STRING
    ensures DecodeEntry(EncodeEntry(x) + rest) == Some((Norm(x), |EncodeEntry(x)|))
    ensures DecodeEntry(EntryBody(x)) == Some((Norm(x), |EncodeEntry(x)|))
  {
    hide IntBody, StrBody, DecodeEntry, FormatInt, ParseInt;
    var body := EntryBody(x);
    var f := EncodeEntry(x)[|body|..];
    assert EncodeEntry(x) + rest == body + (f + rest);
    assert body + [] == body;
    if StoredAsInt(x) {
      DecodeIntBody(ParseInt(x).value, f + rest);
      DecodeIntBody(ParseInt(x).value, []);
    } else {
      DecodeStrBody(x, f + rest);
      DecodeStrBody(x, []);
    }
  }

  /** Normalising changes neither the stored bytes nor anything on a second pass. */
  lemma NormStored(x: Str)
    requires |x| < MAX_STRING
    ensures |Norm(x)| < MAX_STRING
    ensures EncodeEntry(Norm(x)) == EncodeEntry(x)
    ensures Norm(Norm(x)) == Norm(x)
    ensures SizeAgrees(x) ==> SizeAgrees(Norm(x))
  {
    if StoredAsInt(x) {
      ParseFormat(ParseInt(x).value);
      FormatIntLength(ParseInt(x).value);
    }
  }

  /** A string comes back unchanged exactly when it is not a short number written unusually. */
  lemma UnchangedByStorage(x: Str)
    ensures Norm(x) == x <==> (StoredAsInt(x) ==> Canonical(x))
  {
    if StoredAsInt(x) {
      FormatParseExactly(x);
    }
  }

  /** "007" is stored and comes back as "7". */
  lemma PaddedNumberChanges()
    ensures Norm([48, 48, 55]) == [55]
  {
    var x: Str := [48, 48, 55];
    assert Magnitude(x) == x;
    assert x[..2] == [48, 48] && x[..2][..1] == [48] && x[..2][..1][..0] == [];
    assert Value([48]) == 0 && Value([48, 48]) == 0 && Value(x) == 7;
  }

  /** Twenty-one zeros need 23 bytes, but only two are reserved for them. */
  lemma PaddedZerosUndersized()
    ensures var x: Str := seq(21, _ => 48);
            EntrySize(x) == 2 && |EncodeEntry(x)| == 23 && forall buf: Str :: |buf| == 2 ==> EncodeInPlace(x, buf).None?
  {
    var x: Str := seq(21, _ => 48);
    ZerosValue(x);
  }

  lemma {:induction false} ZerosValue(s: Str)
    requires forall i :: 0 <= i < |s| ==> s[i] == ZERO
    ensures Value(s) == 0
  {
    if s != [] {
      ZerosValue(s[..|s| - 1]);
    }
  }

  // ---------------------------------------------------------------- reading from the right

  /** Where the back-length field of the last entry starts: the nearest byte from the right with a
      clear top bit; `None` when the scan runs off the buffer. */
  function BackFieldStart(buf: Str): (r: Option<nat>)
    ensures r.Some? ==> r.value < |buf| && buf[r.value] < 128
  {
    if buf == [] then None
    else if buf[|buf| - 1] < 128 then Some(|buf| - 1)
    else BackFieldStart(buf[..|buf| - 1])
  }

  method ScanBackField(buf: Str) returns (start: int)
    requires BackFieldStart(buf).Some?
    ensures start == BackFieldStart(buf).value
  {
    start := |buf| - 1;
    assert buf[..|buf|] == buf;
    while buf[start] >= 128
      invariant 0 <= start < |buf|
      invariant BackFieldStart(buf[..start + 1]) == BackFieldStart(buf)
      decreases start
    {
      assert buf[..start + 1][..start] == buf[..start];
      start := start - 1;
    }
  }

  /** A well-formed back-length field: one byte without, then only bytes with the top bit. */
  predicate BackField(f: Str) {
    f != [] && f[0] < 128 && forall i :: 1 <= i < |f| ==> f[i] >= 128
  }

  lemma {:induction false} ScanFindsField(front: Str, f: Str)
    requires BackField(f)
    ensures BackFieldStart(front + f) == Some(|front|)
  {
    var buf := front + f;
    assert buf[|buf| - 1] == f[|f| - 1];
    if |f| > 1 {
      assert buf[..|buf| - 1] == front + f[..|f| - 1];
      ScanFindsField(front, f[..|f| - 1]);
    }
  }

  /** The field the allocating encoder writes is well formed and denotes the body's length. */
  lemma FreshField(n: nat)
    requires n < 0x8_0000_0000
    ensures |RevGroups(n)| <= GetEncodeUIntSize(n)
    ensures var f := RevInPlace(n, Zeros(GetEncodeUIntSize(n))); BackField(f) && RevValue(f) == n
  {
    hide GetEncodeUIntSize, RevGroups, HasSpareByte;
    ReservedSize(n);
    var spare := Zeros(GetEncodeUIntSize(n) - |RevGroups(n)|);
    assert Zeros(GetEncodeUIntSize(n))[..|spare|] == spare;
    RevValueIgnoresTopBit(RevInPlace(n, Zeros(GetEncodeUIntSize(n))), spare + RevGroups(n));
    RevValueOfRevGroups(spare, n);
    assert |spare| <= 1 && (spare == [] || (spare == [0] && spare[..0] == []));
    assert RevValue(spare) == 0;
  }

  /** Scanning from the right end finds the last entry's field, its value and hence its start. */
  lemma EntryFromRight(front: Str, x: Str)
    requires |x| < MAX_STRING
    ensures var buf := front + EncodeEntry(x);
            var b := |front| + |EntryBody(x)|;
            && BackFieldStart(buf) == Some(b)
            && RevValue(buf[b..]) == |EntryBody(x)|
            && buf[|front|..b] == EntryBody(x)
  {
    hide ParseInt, IntBody, StrHeader, RevGroups, RevInPlace, GetEncodeUIntSize;
    var body := EntryBody(x);
    var f := EncodeEntry(x)[|body|..];
    if StoredAsInt(x) {
      assert f == [|body|];
      assert f[..0] == [] && RevValue([]) == 0;
    } else {
      FreshField(|body|);
      assert f == RevInPlace(|body|, Zeros(GetEncodeUIntSize(|body|)));
    }
    var buf := front + EncodeEntry(x);
    assert buf == (front + body) + f;
    ScanFindsField(front + body, f);
    assert buf[|front + body|..] == f;
  }

  /** A stale spare byte breaks reading from the right: after an in-place write the scan finds the
      entry's start exactly when the spare byte was clean. */
  lemma StaleSpareByteMisparses(front: Str, x: Str, slot: Str)
    requires |x| < MAX_STRING && SizeAgrees(x) && LeavesSpareByte(x)
    requires |slot| == EntrySize(x)
    ensures var buf := front + EncodeInPlace(x, slot).value;
            var b := |front| + |StrBody(x)|;
            && BackFieldStart(buf) == Some(b)
            && (b - RevValue(buf[b..]) == |front| <==> SpareClean(x, slot))
            && RevValue(buf[b..]) == Shifted(slot[|StrBody(x)|] % 128, |RevGroups(|StrBody(x)|)|) + |StrBody(x)|
  {
    hide ParseInt, IntBody, StrHeader, RevGroups, GetEncodeUIntSize, HasSpareByte, BackFieldStart, RevValue;
    var body := StrBody(x);
    var n := |body|;
    ReservedSize(n);
    var f := RevInPlace(n, slot[n..]);
    AppendAssoc(front, body, f);
    var spare := [slot[n] % 128];
    assert f == spare + RevGroups(n);
    ScanFindsField(front + body, f);
    assert (front + body + f)[|front + body|..] == f;
    SpareFieldValue(slot[n] % 128, n);
  }

  lemma SpareFieldValue(spare: byte, n: nat)
    requires spare < 128
    ensures RevValue([spare] + RevGroups(n)) == n <==> spare == 0
    ensures RevValue([spare] + RevGroups(n)) == Shifted(spare, |RevGroups(n)|) + n
  {
    hide RevGroups;
    RevValueOfRevGroups([spare], n);
    assert [spare][..0] == [];
  }

  // ---------------------------------------------------------------- concatenations

  predicate AllShort(xs: seq<Str>) {
    forall i :: 0 <= i < |xs| ==> |xs[i]| < MAX_STRING
  }

  function EncodeAll(xs: seq<Str>): Str
    requires AllShort(xs)
  {
    if xs == [] then [] else EncodeEntry(xs[0]) + EncodeAll(xs[1..])
  }

  function NormAll(xs: seq<Str>): (ys: seq<Str>)
    ensures |ys| == |xs|
  {
    seq(|xs|, i requires 0 <= i < |xs| => Norm(xs[i]))
  }

  lemma {:induction false} EncodeAllAppend(xs: seq<Str>, ys: seq<Str>)
    requires AllShort(xs) && AllShort(ys)
    ensures EncodeAll(xs + ys) == EncodeAll(xs) + EncodeAll(ys)
  {
    hide EncodeEntry;
    AppendEnds(xs, ys);
    if xs != [] {
      EncodeAllAppend(xs[1..], ys);
      AppendAssoc(EncodeEntry(xs[0]), EncodeAll(xs[1..]), EncodeAll(ys));
    }
  }

  lemma EncodeAllOne(x: Str)
    requires |x| < MAX_STRING
    ensures EncodeAll([x]) == EncodeEntry(x)
  {
    assert [x][1..] == [];
  }

  /** A packed buffer has one reading: equal bytes hold equal normalised lists. */
  lemma {:induction false} UniqueReading(xs: seq<Str>, ys: seq<Str>)
    requires AllShort(xs) && AllShort(ys) && EncodeAll(xs) == EncodeAll(ys)
    ensures NormAll(xs) == NormAll(ys)
  {
    hide EncodeEntry, Norm, DecodeEntry;
    if xs != [] && ys != [] {
      DecodeEncoded(xs[0], EncodeAll(xs[1..]));
      DecodeEncoded(ys[0], EncodeAll(ys[1..]));
      assert EncodeAll(xs)[|EncodeEntry(xs[0])|..] == EncodeAll(xs[1..]);
      assert EncodeAll(ys)[|EncodeEntry(ys[0])|..] == EncodeAll(ys[1..]);
      UniqueReading(xs[1..], ys[1..]);
      assert NormAll(xs) == [Norm(xs[0])] + NormAll(xs[1..]);
      assert NormAll(ys) == [Norm(ys[0])] + NormAll(ys[1..]);
    }
  }
}
