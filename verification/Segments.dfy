/** WAL segments: framed envelopes, and what the readers make of the bytes of one segment. */
module Segments {
  import opened Bytes
  import opened Sequences

  datatype Kind = Normal | ConfChange | Noop | HardState

  datatype Envelope = Envelope(index: nat, term: nat, kind: Kind, app: Str, crc: word32)

  /** CRC-32 and the protobuf decoder of envelopes, both uninterpreted. */
  datatype Codec = Codec(crc: Str -> word32, unmarshal: Str -> Option<Envelope>)

  const HEADER: nat := 8

  function Frame(c: Codec, payload: Str): (f: Str)
    ensures |f| == HEADER + |payload|
  {
    LittleEndian(c.crc(payload), 4) + LittleEndian(|payload|, 4) + payload
  }

  function Frames(c: Codec, payloads: seq<Str>): Str {
    if payloads == [] then [] else Frame(c, payloads[0]) + Frames(c, payloads[1..])
  }

  /** How a reader stops: at the end of the bytes, also inside a header, or with an error. */
  datatype Status = Clean | TornPayload | BadChecksum | BadEnvelope

  datatype Scanned = Scanned(envs: seq<Envelope>, status: Status)

  function After(seen: seq<Envelope>, rest: Scanned): Scanned {
    Scanned(seen + rest.envs, rest.status)
  }

  /** The envelopes a reader decodes from the bytes of a segment, and how it stops. */
  function Scan(c: Codec, s: Str): Scanned
    decreases |s|
  {
    if |s| < HEADER then Scanned([], Clean)
    else
      var size := LittleEndianValue(s[4..8]);
      if size == 0 then Scan(c, s[HEADER..])
      else if |s| < HEADER + size then Scanned([], TornPayload)
      else
        var payload := s[HEADER..HEADER + size];
        if c.crc(payload) != LittleEndianValue(s[..4]) then Scanned([], BadChecksum)
        else
          match c.unmarshal(payload)
          case None => Scanned([], BadEnvelope)
          case Some(e) => After([e], Scan(c, s[HEADER + size..]))
  }

  /** Payloads a writer may frame and a reader can decode; an empty payload frames to a bare header. */
  predicate Readable(c: Codec, payload: Str) {
    |payload| < 0x1_0000_0000 && (payload != [] ==> c.unmarshal(payload).Some?)
  }

  predicate AllReadable(c: Codec, payloads: seq<Str>) {
    forall i :: 0 <= i < |payloads| ==> Readable(c, payloads[i])
  }

  function EnvelopeOf(c: Codec, payload: Str): seq<Envelope>
    requires Readable(c, payload)
  {
    if payload == [] then [] else [c.unmarshal(payload).value]
  }

  /** The envelopes of the non-empty payloads, in order. */
  function Decoded(c: Codec, payloads: seq<Str>): seq<Envelope>
    requires AllReadable(c, payloads)
  {
    if payloads == [] then [] else EnvelopeOf(c, payloads[0]) + Decoded(c, payloads[1..])
  }

  lemma Word32(v: word32)
    ensures LittleEndianValue(LittleEndian(v, 4)) == v
  {
    PowValues();
    LittleEndianRoundTrip(v, 4);
  }

  lemma FrameFields(c: Codec, payload: Str, rest: Str)
    requires |payload| < 0x1_0000_0000
    ensures var s := Frame(c, payload) + rest;
            && |s| == HEADER + |payload| + |rest|
            && LittleEndianValue(s[..4]) == c.crc(payload)
            && LittleEndianValue(s[4..8]) == |payload|
            && s[HEADER..HEADER + |payload|] == payload
            && s[HEADER + |payload|..] == rest
  {
    hide LittleEndian, LittleEndianValue;
    var s := Frame(c, payload) + rest;
    assert s[..4] == LittleEndian(c.crc(payload), 4);
    assert s[4..8] == LittleEndian(|payload|, 4);
    Word32(c.crc(payload));
    Word32(|payload|);
  }

  /** One whole frame at the front is read as its envelope. */
  lemma ScanFrame(c: Codec, payload: Str, rest: Str)
    requires Readable(c, payload)
    ensures Scan(c, Frame(c, payload) + rest) == After(EnvelopeOf(c, payload), Scan(c, rest))
  {
    hide Frame;
    FrameFields(c, payload, rest);
  }

  /** Frames are read back as the envelopes written, whatever bytes follow. */
  lemma {:induction false} ScanFrames(c: Codec, payloads: seq<Str>, rest: Str)
    requires AllReadable(c, payloads)
    ensures Scan(c, Frames(c, payloads) + rest) == After(Decoded(c, payloads), Scan(c, rest))
    decreases |payloads|
  {
    hide Scan, Frame, EnvelopeOf;
    if payloads == [] {
      assert Frames(c, payloads) + rest == rest;
    } else {
      var p, ps := payloads[0], payloads[1..];
      ScanFrames(c, ps, rest);
      ScanFrame(c, p, Frames(c, ps) + rest);
      AppendAssoc(Frame(c, p), Frames(c, ps), rest);
      AppendAssoc(EnvelopeOf(c, p), Decoded(c, ps), Scan(c, rest).envs);
    }
  }

  /** A segment of whole frames replays exactly. */
  lemma ScanWhole(c: Codec, payloads: seq<Str>)
    requires AllReadable(c, payloads)
    ensures Scan(c, Frames(c, payloads)) == Scanned(Decoded(c, payloads), Clean)
  {
    ScanFrames(c, payloads, []);
    assert Frames(c, payloads) + [] == Frames(c, payloads);
    assert Scan(c, []) == Scanned([], Clean);
  }

  /** How many whole frames the first `k` bytes hold. */
  function WholeFrames(payloads: seq<Str>, k: nat): (n: nat)
    ensures n <= |payloads|
    decreases |payloads|
  {
    if payloads == [] || k < HEADER + |payloads[0]| then 0
    else 1 + WholeFrames(payloads[1..], k - HEADER - |payloads[0]|)
  }

  /** `WholeFrames` is the longest prefix of frames that fits in `k` bytes. */
  lemma {:induction false} WholeFramesLongest(c: Codec, payloads: seq<Str>, k: nat)
    ensures var n := WholeFrames(payloads, k);
            && |Frames(c, payloads[..n])| <= k
            && (n < |payloads| ==> k < |Frames(c, payloads[..n + 1])|)
    decreases |payloads|
  {
    hide Frame;
    var n := WholeFrames(payloads, k);
    if payloads != [] && n > 0 {
      var p, ps := payloads[0], payloads[1..];
      WholeFramesLongest(c, ps, k - HEADER - |p|);
      assert payloads[..n][1..] == ps[..n - 1];
      if n < |payloads| {
        assert payloads[..n + 1][1..] == ps[..n];
      }
    } else if payloads != [] {
      assert payloads[..1][1..] == [];
      assert Frames(c, payloads[..1]) == Frame(c, payloads[0]) + Frames(c, []);
    }
  }

  /** The start of a frame that is cut short: nothing is decoded, and the reader reports an
      error exactly when the header survived. */
  lemma ScanTorn(c: Codec, payload: Str, k: nat)
    requires |payload| < 0x1_0000_0000 && k < HEADER + |payload|
    ensures Scan(c, Frame(c, payload)[..k]) == Scanned([], if k < HEADER then Clean else TornPayload)
  {
    var f, t := Frame(c, payload), Frame(c, payload)[..k];
    FrameFields(c, payload, []);
    assert f + [] == f;
    if k >= HEADER {
      assert t[4..8] == f[4..8];
    }
  }

  lemma ScanTornFirst(c: Codec, payloads: seq<Str>, k: nat)
    requires AllReadable(c, payloads)
    requires if payloads == [] then k == 0 else k < HEADER + |payloads[0]|
    ensures k <= |Frames(c, payloads)|
    ensures Scan(c, Frames(c, payloads)[..k]) == Scanned([], if k < HEADER then Clean else TornPayload)
  {
    hide Frame;
    if payloads != [] {
      ScanTorn(c, payloads[0], k);
      assert Frames(c, payloads)[..k] == Frame(c, payloads[0])[..k];
    }
  }

  /** Cutting the bytes anywhere: the reader sees exactly the longest prefix of whole frames.
      It reports an error exactly when at least a whole header of the next frame is left. */
  lemma ScanCut(c: Codec, payloads: seq<Str>, k: nat)
    requires AllReadable(c, payloads) && k <= |Frames(c, payloads)|
    ensures var n := WholeFrames(payloads, k);
            && |Frames(c, payloads[..n])| <= k
            && Scan(c, Frames(c, payloads)[..k])
               == Scanned(Decoded(c, payloads[..n]),
                          if k - |Frames(c, payloads[..n])| < HEADER then Clean else TornPayload)
  {
    hide Frame, Frames, Scan, Decoded, WholeFrames;
    var n := WholeFrames(payloads, k);
    WholeFramesLongest(c, payloads, k);
    var whole, tail := Frames(c, payloads[..n]), Frames(c, payloads[n..]);
    var j := k - |whole|;
    FramesSplit(c, payloads, n);
    if n < |payloads| {
      FramesSnoc(c, payloads[..n], payloads[n]);
      assert payloads[..n + 1] == payloads[..n] + [payloads[n]];
    } else {
      assert payloads[..n] == payloads && payloads[n..] == [];
    }
    ScanTornFirst(c, payloads[n..], j);
    ScanFrames(c, payloads[..n], tail[..j]);
    AppendCut(whole, tail, j);
  }

  lemma {:induction false} FramesAppend(c: Codec, a: seq<Str>, b: seq<Str>)
    ensures Frames(c, a + b) == Frames(c, a) + Frames(c, b)
    decreases |a|
  {
    hide Frame;
    AppendEnds(a, b);
    if a != [] {
      FramesAppend(c, a[1..], b);
      AppendAssoc(Frame(c, a[0]), Frames(c, a[1..]), Frames(c, b));
    }
  }

  lemma FramesSplit(c: Codec, payloads: seq<Str>, n: nat)
    requires n <= |payloads|
    ensures Frames(c, payloads) == Frames(c, payloads[..n]) + Frames(c, payloads[n..])
  {
    hide Frames;
    TakeDropAt(payloads, n);
    FramesAppend(c, payloads[..n], payloads[n..]);
  }

  lemma FramesSnoc(c: Codec, payloads: seq<Str>, p: Str)
    ensures Frames(c, payloads + [p]) == Frames(c, payloads) + Frame(c, p)
    ensures |Frames(c, payloads + [p])| == |Frames(c, payloads)| + HEADER + |p|
  {
    hide Frame;
    FramesAppend(c, payloads, [p]);
    assert Frames(c, [p]) == Frame(c, p) + Frames(c, []);
  }

  lemma {:induction false} DecodedAppend(c: Codec, a: seq<Str>, b: seq<Str>)
    requires AllReadable(c, a) && AllReadable(c, b)
    ensures AllReadable(c, a + b) && Decoded(c, a + b) == Decoded(c, a) + Decoded(c, b)
    decreases |a|
  {
    hide EnvelopeOf;
    AppendEnds(a, b);
    if a != [] {
      DecodedAppend(c, a[1..], b);
      AppendAssoc(EnvelopeOf(c, a[0]), Decoded(c, a[1..]), Decoded(c, b));
    }
  }

  /** What a reader makes of `rest` behind a header with these fields. */
  function ScanBody(c: Codec, crc: nat, size: nat, rest: Str): Scanned {
    if size == 0 then Scan(c, rest)
    else if |rest| < size then Scanned([], TornPayload)
    else if c.crc(rest[..size]) != crc then Scanned([], BadChecksum)
    else
      match c.unmarshal(rest[..size])
      case None => Scanned([], BadEnvelope)
      case Some(e) => After([e], Scan(c, rest[size..]))
  }

  lemma ScanHeader(c: Codec, header: Str, rest: Str)
    requires |header| == HEADER
    ensures Scan(c, header + rest)
            == ScanBody(c, LittleEndianValue(header[..4]), LittleEndianValue(header[4..8]), rest)
  {
    hide LittleEndianValue;
    var s, size := header + rest, LittleEndianValue(header[4..8]);
    assert s[..4] == header[..4] && s[4..8] == header[4..8] && s[HEADER..] == rest;
    if |rest| >= size {
      assert s[HEADER..HEADER + size] == rest[..size] && s[HEADER + size..] == rest[size..];
    }
  }

  lemma TornRegroups(c: Codec, payload: Str, k: nat, more: Str)
    requires |payload| < 0x1_0000_0000 && HEADER <= k < HEADER + |payload|
    ensures var f := Frame(c, payload);
            && f[..k] + more == f[..HEADER] + (payload[..k - HEADER] + more)
            && LittleEndianValue(f[..HEADER][..4]) == c.crc(payload)
            && LittleEndianValue(f[..HEADER][4..8]) == |payload|
  {
    hide LittleEndian, LittleEndianValue;
    var f := Frame(c, payload);
    FrameFields(c, payload, []);
    assert f + [] == f;
    assert f[..k] == f[..HEADER] + payload[..k - HEADER];
    assert f[..HEADER][..4] == f[..4] && f[..HEADER][4..8] == f[4..8];
  }

  lemma ScanTornPayload(c: Codec, payload: Str, k: nat, more: Str)
    requires |payload| < 0x1_0000_0000 && HEADER <= k < HEADER + |payload|
    ensures Scan(c, Frame(c, payload)[..k] + more)
            == ScanBody(c, c.crc(payload), |payload|, payload[..k - HEADER] + more)
  {
    hide LittleEndianValue, Frame, Scan, ScanBody;
    TornRegroups(c, payload, k, more);
    ScanHeader(c, Frame(c, payload)[..HEADER], payload[..k - HEADER] + more);
  }

  lemma MixedPayload(payload: Str, k: nat, more: Str)
    requires HEADER <= k < HEADER + |payload| <= k + |more|
    ensures (payload[..k - HEADER] + more)[..|payload|] == payload[..k - HEADER] + more[..HEADER + |payload| - k]
  {
  }

  /** Bytes written behind a frame that was cut inside its payload are taken for the missing part
      of that payload. None of them is read unless the checksum of the mixture is the stored one. */
  lemma AppendAfterTornPayload(c: Codec, payload: Str, k: nat, more: Str)
    requires |payload| < 0x1_0000_0000 && HEADER <= k < HEADER + |payload|
    ensures var missing := HEADER + |payload| - k;
            Scan(c, Frame(c, payload)[..k] + more).envs != [] <==>
              && |more| >= missing
              && c.crc(payload[..k - HEADER] + more[..missing]) == c.crc(payload)
              && c.unmarshal(payload[..k - HEADER] + more[..missing]).Some?
  {
    hide Frame, Scan;
    ScanTornPayload(c, payload, k, more);
    if |more| >= HEADER + |payload| - k {
      MixedPayload(payload, k, more);
    }
  }

  /** Bytes written behind a frame that was cut inside its header complete that header. Nothing is
      read when too few follow; otherwise the completed header says how many bytes make a payload. */
  lemma AppendAfterTornHeader(c: Codec, torn: Str, more: Str)
    requires |torn| < HEADER
    ensures |torn + more| < HEADER ==> Scan(c, torn + more) == Scanned([], Clean)
    ensures |torn + more| >= HEADER ==>
              var header := torn + more[..HEADER - |torn|];
              Scan(c, torn + more) == ScanBody(c, LittleEndianValue(header[..4]), LittleEndianValue(header[4..8]),
                                               more[HEADER - |torn|..])
  {
    hide LittleEndianValue;
    if |torn + more| >= HEADER {
      var header := torn + more[..HEADER - |torn|];
      ScanHeader(c, header, more[HEADER - |torn|..]);
      assert torn + more == header + more[HEADER - |torn|..];
    }
  }

  /** A frame written behind exactly four bytes of a header: its checksum is taken for the length. */
  lemma FrameAfterHalfHeader(c: Codec, torn: Str, payload: Str, more: Str)
    requires |torn| == 4 && |payload| < 0x1_0000_0000
    ensures Scan(c, torn + (Frame(c, payload) + more))
            == ScanBody(c, LittleEndianValue(torn), c.crc(payload), LittleEndian(|payload|, 4) + payload + more)
  {
    hide LittleEndian, LittleEndianValue, ScanBody;
    var all := Frame(c, payload) + more;
    FrameFields(c, payload, more);
    AppendAfterTornHeader(c, torn, all);
    var header := torn + all[..4];
    assert header[..4] == torn && header[4..8] == all[..4];
    assert all[4..] == LittleEndian(|payload|, 4) + payload + more;
  }

  /** One turn of the readers' loop at offset `i`: the next envelope if there is one, and
      whether the loop stops. */
  method ReadFrame(c: Codec, s: Str, i: nat) returns (env: Option<Envelope>, next: nat, stop: Option<Status>)
    requires i <= |s|
    ensures stop.Some? ==> env.None? && Scan(c, s[i..]) == Scanned([], stop.value)
    ensures stop.None? ==> i < next <= |s|
    ensures stop.None? && env.None? ==> Scan(c, s[i..]) == Scan(c, s[next..])
    ensures stop.None? && env.Some? ==> Scan(c, s[i..]) == After([env.value], Scan(c, s[next..]))
  {
    ghost var t := s[i..];
    if |s| - i < HEADER {
      return None, i, Some(Clean);
    }
    var crc, size := LittleEndianValue(s[i..i + 4]), LittleEndianValue(s[i + 4..i + 8]);
    assert t[..4] == s[i..i + 4] && t[4..8] == s[i + 4..i + 8];
    SliceDrop(s, i, |s|, HEADER);
    if size == 0 {
      return None, i + HEADER, None;
    }
    if |s| < i + HEADER + size {
      return None, i, Some(TornPayload);
    }
    var payload := s[i + HEADER..i + HEADER + size];
    assert t[HEADER..HEADER + size] == payload;
    SliceDrop(s, i, |s|, HEADER + size);
    if c.crc(payload) != crc {
      return None, i, Some(BadChecksum);
    }
    match c.unmarshal(payload) {
      case None => return None, i, Some(BadEnvelope);
      case Some(e) => return Some(e), i + HEADER + size, None;
    }
  }

  /** How a replay ends: the readers' way, or because the callback refused an envelope. */
  datatype ReplayEnd = Finished(status: Status) | Refused

  predicate AllTaken(takes: Envelope -> bool, envs: seq<Envelope>) {
    forall i :: 0 <= i < |envs| ==> takes(envs[i])
  }

  /** The callback got `seen`: everything that can be read, or all up to the first envelope it refuses. */
  predicate Passed(takes: Envelope -> bool, all: Scanned, seen: seq<Envelope>, end: ReplayEnd) {
    match end
    case Finished(status) => Scanned(seen, status) == all && AllTaken(takes, seen)
    case Refused =>
      seen != [] && seen <= all.envs && !takes(seen[|seen| - 1]) && AllTaken(takes, seen[..|seen| - 1])
  }

  /** What has been passed on so far, then a part that ends the replay. */
  lemma PassedAfter(takes: Envelope -> bool, seen: seq<Envelope>, all: Scanned, more: seq<Envelope>, end: ReplayEnd)
    requires AllTaken(takes, seen) && Passed(takes, all, more, end)
    ensures Passed(takes, After(seen, all), seen + more, end)
  {
    if end.Refused? {
      AppendEnds(seen, more);
    }
  }

  lemma PassedPrefix(takes: Envelope -> bool, all: Scanned, more: Scanned, seen: seq<Envelope>)
    requires Passed(takes, all, seen, Refused) && all.envs <= more.envs
    ensures Passed(takes, more, seen, Refused)
  {
  }

  /** A callback that refuses nothing gets everything. */
  lemma PassedAll(takes: Envelope -> bool, all: Scanned, seen: seq<Envelope>, end: ReplayEnd)
    requires Passed(takes, all, seen, end)
    ensures (forall e :: takes(e)) ==> seen == all.envs && end == Finished(all.status)
  {
  }

  /** Passes the envelopes of a segment to the callback, collected in `seen`. */
  method ReplaySegment(c: Codec, s: Str, takes: Envelope -> bool) returns (seen: seq<Envelope>, end: ReplayEnd)
    ensures Passed(takes, Scan(c, s), seen, end)
  {
    hide Scan;
    var i := 0;
    seen := [];
    assert s[0..] == s;
    while true
      invariant i <= |s| && Scan(c, s) == After(seen, Scan(c, s[i..])) && AllTaken(takes, seen)
      decreases |s| - i
    {
      var env, next, stop := ReadFrame(c, s, i);
      if stop.Some? {
        return seen, Finished(stop.value);
      }
      if env.Some? {
        AppendAssoc(seen, [env.value], Scan(c, s[next..]).envs);
        if !takes(env.value) {
          AppendEnds(seen, [env.value]);
          return seen + [env.value], Refused;
        }
        seen := seen + [env.value];
      }
      i := next;
    }
  }

  function MaxIndex(envs: seq<Envelope>): nat {
    if envs == [] then 0
    else
      var m := MaxIndex(envs[..|envs| - 1]);
      var e := envs[|envs| - 1];
      if e.index > m then e.index else m
  }

  /** `MaxIndex` bounds every index and is one of them. */
  lemma {:induction false} MaxIndexBounds(envs: seq<Envelope>)
    ensures forall e :: e in envs ==> e.index <= MaxIndex(envs)
    ensures MaxIndex(envs) > 0 ==> exists e :: e in envs && e.index == MaxIndex(envs)
    decreases |envs|
  {
    if envs != [] {
      var front, e := envs[..|envs| - 1], envs[|envs| - 1];
      MaxIndexBounds(front);
      assert envs == front + [e];
    }
  }

  /** The highest index in a segment, for pruning. */
  method MaxIndexInSegment(c: Codec, s: Str) returns (max: nat, status: Status)
    ensures max == MaxIndex(Scan(c, s).envs) && status == Scan(c, s).status
  {
    hide Scan;
    var i := 0;
    ghost var seen := [];
    max := 0;
    assert s[0..] == s;
    while true
      invariant i <= |s| && Scan(c, s) == After(seen, Scan(c, s[i..])) && max == MaxIndex(seen)
      decreases |s| - i
    {
      var env, next, stop := ReadFrame(c, s, i);
      if stop.Some? {
        assert seen + [] == seen;
        return max, stop.value;
      }
      if env.Some? {
        if env.value.index > max {
          max := env.value.index;
        }
        AppendAssoc(seen, [env.value], Scan(c, s[next..]).envs);
        assert (seen + [env.value])[..|seen|] == seen;
        seen := seen + [env.value];
      }
      i := next;
    }
  }

  datatype Tuple = Tuple(index: nat, crc: word32)

  /** Index and payload checksum of the normal entries. */
  function Tuples(envs: seq<Envelope>): seq<Tuple> {
    if envs == [] then []
    else
      var e := envs[|envs| - 1];
      Tuples(envs[..|envs| - 1]) + if e.kind == Normal then [Tuple(e.index, e.crc)] else []
  }

  lemma {:induction false} TuplesAppend(a: seq<Envelope>, b: seq<Envelope>)
    ensures Tuples(a + b) == Tuples(a) + Tuples(b)
    decreases |b|
  {
    if b == [] {
      assert a + b == a;
    } else {
      var front, e := b[..|b| - 1], b[|b| - 1];
      TuplesAppend(a, front);
      AppendEnds(a, b);
      var last := if e.kind == Normal then [Tuple(e.index, e.crc)] else [];
      assert Tuples(a + b) == Tuples(a + front) + last;
      AppendAssoc(Tuples(a), Tuples(front), last);
    }
  }

  method CollectSegmentTuplesAll(c: Codec, s: Str) returns (all: seq<Tuple>, status: Status)
    ensures all == Tuples(Scan(c, s).envs) && status == Scan(c, s).status
  {
    hide Scan;
    var i := 0;
    ghost var seen := [];
    all := [];
    assert s[0..] == s;
    while true
      invariant i <= |s| && Scan(c, s) == After(seen, Scan(c, s[i..])) && all == Tuples(seen)
      decreases |s| - i
    {
      var env, next, stop := ReadFrame(c, s, i);
      if stop.Some? {
        assert seen + [] == seen;
        return all, stop.value;
      }
      if env.Some? {
        var e := env.value;
        if e.kind == Normal {
          all := all + [Tuple(e.index, e.crc)];
        }
        AppendAssoc(seen, [e], Scan(c, s[next..]).envs);
        assert (seen + [e])[..|seen|] == seen;
        seen := seen + [e];
      }
      i := next;
    }
  }

  /** The payload of the last hard state, or nothing; an empty payload counts as nothing. */
  function LastHardState(envs: seq<Envelope>): Str {
    if envs == [] then []
    else
      var e := envs[|envs| - 1];
      if e.kind == HardState then e.app else LastHardState(envs[..|envs| - 1])
  }

  /** The inner loop of the hard-state search, carrying the one found so far. */
  method LastHardStateInSegment(c: Codec, s: Str, ghost before: seq<Envelope>, found: Str)
    returns (hs: Str, status: Status)
    requires found == LastHardState(before)
    ensures hs == LastHardState(before + Scan(c, s).envs) && status == Scan(c, s).status
  {
    hide Scan;
    var i := 0;
    ghost var seen := [];
    hs := found;
    assert s[0..] == s && before + [] == before;
    while true
      invariant i <= |s| && Scan(c, s) == After(seen, Scan(c, s[i..])) && hs == LastHardState(before + seen)
      decreases |s| - i
    {
      var env, next, stop := ReadFrame(c, s, i);
      if stop.Some? {
        assert seen + [] == seen;
        return hs, stop.value;
      }
      if env.Some? {
        var e := env.value;
        if e.kind == HardState {
          hs := e.app;
        }
        AppendAssoc(seen, [e], Scan(c, s[next..]).envs);
        AppendAssoc(before, seen, [e]);
        assert (before + seen + [e])[..|before + seen|] == before + seen;
        seen := seen + [e];
      }
      i := next;
    }
  }
}
