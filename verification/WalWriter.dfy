/** The segmented WAL writer: framing, buffering, index entries, rotation and pruning. */
module WalWriters {
  import opened Bytes
  import opened Sequences
  import opened Segments
  import opened SegmentNames
  import opened WalLog

  /** Where a record starts in its segment and how long its frame is, both cut to 32 bits. */
  datatype EntryMeta = EntryMeta(index: nat, offset: word32, length: word32)

  function Cut32(n: nat): word32 {
    n % 0x1_0000_0000
  }

  /** The index entry of record `r` when its frame starts at byte `offset`. */
  function Meta(r: Record, offset: nat): EntryMeta {
    EntryMeta(r.index, Cut32(offset), Cut32(HEADER + |r.payload|))
  }

  /** The entries lay the frames of `rs` end to end from byte `base` on. */
  predicate Tiles(c: Codec, base: nat, entries: seq<EntryMeta>, rs: seq<Record>) {
    && |entries| == |rs|
    && forall i :: 0 <= i < |rs| ==> entries[i] == Meta(rs[i], base + |Content(c, rs[..i])|)
  }

  lemma TilesSnoc(c: Codec, base: nat, entries: seq<EntryMeta>, rs: seq<Record>, r: Record)
    requires Tiles(c, base, entries, rs)
    ensures Tiles(c, base, entries + [Meta(r, base + |Content(c, rs)|)], rs + [r])
  {
    hide Content;
    forall i | 0 <= i < |rs + [r]|
      ensures (entries + [Meta(r, base + |Content(c, rs)|)])[i]
                == Meta((rs + [r])[i], base + |Content(c, (rs + [r])[..i])|)
    {
      assert (rs + [r])[..i] == rs[..i];
      assert rs[..|rs|] == rs;
    }
  }

  /** In a segment below 4 GiB each entry delimits exactly the frame of its record. */
  lemma EntryDelimitsFrame(c: Codec, raw: Str, rs: seq<Record>, entries: seq<EntryMeta>, i: nat)
    requires Tiles(c, |raw|, entries, rs) && i < |rs| && |raw + Content(c, rs)| < 0x1_0000_0000
    ensures var all, e := raw + Content(c, rs), entries[i];
            && e.index == rs[i].index && e.offset + e.length <= |all|
            && all[e.offset..e.offset + e.length] == Frame(c, rs[i].payload)
  {
    hide Content, Frame;
    ContentSplit(c, rs, i);
    ContentSplit(c, rs[i..], 1);
    assert rs[i..][..1] == [] + [rs[i]];
    ContentSnoc(c, [], rs[i]);
    EmptyContent(c);
  }

  lemma EmptyContent(c: Codec)
    ensures Content(c, []) == []
  {
  }

  lemma ContentSplit(c: Codec, rs: seq<Record>, n: nat)
    requires n <= |rs|
    ensures Content(c, rs) == Content(c, rs[..n]) + Content(c, rs[n..])
  {
    hide Frames;
    FramesSplit(c, Payloads(rs), n);
    assert Payloads(rs[..n]) == Payloads(rs)[..n] && Payloads(rs[n..]) == Payloads(rs)[n..];
  }

  /** The indices of the normal entries among `rs`. */
  function NormalIndices(rs: seq<Record>): seq<nat> {
    if rs == [] then []
    else
      var r := rs[|rs| - 1];
      NormalIndices(rs[..|rs| - 1]) + if r.hard then [] else [r.index]
  }

  predicate Positive(s: seq<nat>) {
    forall i :: 0 <= i < |s| ==> s[i] > 0
  }

  predicate Consecutive(s: seq<nat>) {
    forall i :: 0 <= i < |s| ==> s[i] == s[0] + i
  }

  /** Raft indices start at 1; the normal entries of one segment then have consecutive indices. */
  predicate Unbroken(s: seq<nat>) {
    Positive(s) ==> Consecutive(s)
  }

  predicate EndsAt(s: seq<nat>, last: nat) {
    s != [] ==> s[|s| - 1] == last
  }

  lemma UnbrokenSnoc(rs: seq<Record>, r: Record, last: nat)
    requires Unbroken(NormalIndices(rs)) && EndsAt(NormalIndices(rs), last)
    requires r.hard || NormalIndices(rs) == [] || last == 0 || r.index == last + 1
    ensures Unbroken(NormalIndices(rs + [r]))
    ensures EndsAt(NormalIndices(rs + [r]), if r.hard then last else r.index)
  {
    var s := NormalIndices(rs);
    assert (rs + [r])[..|rs|] == rs && s + [] == s;
    var t := s + [r.index];
    assert s == t[..|s|];
    if !r.hard && Positive(t) && s != [] {
      assert Positive(s);
      assert s[|s| - 1] == t[|s| - 1] == last;
      assert Consecutive(t);
    }
  }

  /** A segment file: the bytes a session found in it and the records it appended. */
  datatype Segment = Segment(raw: Str, mine: seq<Record>)

  const NEW_SEGMENT: Segment := Segment([], [])

  type Segs = map<nat, Segment>

  function FileBytes(c: Codec, g: Segment): Str {
    g.raw + Content(c, g.mine)
  }

  /** The files, the active one together with the buffer, are these segments. */
  ghost predicate Files(c: Codec, d: Dir, buf: Str, segs: Segs, active: nat) {
    && segs.Keys == d.Keys && active in d
    && (forall k :: k in d ==> k <= active)
    && (forall k :: k in d && k != active ==> d[k] == FileBytes(c, segs[k]))
    && d[active] + buf == FileBytes(c, segs[active])
  }

  function MineOf(segs: Segs): Parts {
    map k | k in segs :: segs[k].mine
  }

  /** What a session has done to the directory. */
  datatype Session = Session(segs: Segs, active: nat, lastIndex: nat,
                             entries: seq<EntryMeta>, sidecars: map<nat, seq<EntryMeta>>)
  {
    /** The index entries tile what the session appended to each segment. */
    ghost predicate Indexed(c: Codec)
      requires active in segs
    {
      && Tiles(c, |segs[active].raw|, entries, segs[active].mine)
      && forall k :: k in segs && k < active && segs[k].mine != [] ==>
           k in sidecars && Tiles(c, |segs[k].raw|, sidecars[k], segs[k].mine)
    }

    /** The normal entries appended to one segment have consecutive indices. */
    ghost predicate Ordered()
      requires active in segs
    {
      && (forall k :: k in segs ==> Unbroken(NormalIndices(segs[k].mine)))
      && EndsAt(NormalIndices(segs[active].mine), lastIndex)
    }

    ghost predicate Sound(c: Codec) {
      active in segs && Indexed(c) && Ordered()
    }

    /** Record `r` does not break the run of indices in the active segment. */
    predicate Follows(r: Record)
      requires active in segs
    {
      r.hard || NormalIndices(segs[active].mine) == [] || lastIndex == 0 || r.index == lastIndex + 1
    }

    function Appended(c: Codec, r: Record): Session
      requires active in segs
    {
      var g := segs[active];
      this.(segs := segs[active := g.(mine := g.mine + [r])],
            lastIndex := if r.hard then lastIndex else r.index,
            entries := entries + [Meta(r, |FileBytes(c, g)|)])
    }

    function Saved(): Session {
      if entries == [] then this else this.(sidecars := sidecars[active := entries])
    }

    function Rotated(): Session {
      Saved().(segs := segs[active + 1 := NEW_SEGMENT], active := active + 1, entries := [])
    }

    /** Every record the session appended that is still there, in order. */
    function Log(): seq<Record> {
      RecordsBelow(MineOf(segs), active + 1)
    }
  }

  lemma SoundAppend(c: Codec, s: Session, r: Record)
    requires s.Sound(c) && s.Follows(r)
    ensures s.Appended(c, r).Sound(c)
  {
    hide Content, Tiles, Unbroken, EndsAt, NormalIndices;
    var g := s.segs[s.active];
    TilesSnoc(c, |g.raw|, s.entries, g.mine, r);
    UnbrokenSnoc(g.mine, r, s.lastIndex);
  }

  lemma AppendedLog(c: Codec, s: Session, r: Record)
    requires s.active in s.segs
    ensures s.Appended(c, r).Log() == s.Log() + [r]
    ensures |FileBytes(c, s.Appended(c, r).segs[s.active])| == |FileBytes(c, s.segs[s.active])| + HEADER + |r.payload|
  {
    hide Content, RecordsBelow;
    RecordsAppend(MineOf(s.segs), s.active, r);
    ContentSnoc(c, s.segs[s.active].mine, r);
    assert MineOf(s.Appended(c, r).segs) == MineOf(s.segs)[s.active := s.segs[s.active].mine + [r]];
  }

  lemma SoundSaved(c: Codec, s: Session)
    requires s.Sound(c)
    ensures s.Saved().Sound(c)
  {
    hide Content, Tiles, Unbroken, EndsAt, NormalIndices;
  }

  lemma SoundRotate(c: Codec, s: Session)
    requires s.Sound(c) && forall k :: k in s.segs ==> k <= s.active
    ensures s.Rotated().Sound(c)
  {
    hide Content, Unbroken, EndsAt, NormalIndices;
    NoRecords(s.lastIndex);
  }

  lemma RotatedLog(s: Session)
    requires s.active in s.segs
    ensures s.Rotated().Log() == s.Log()
  {
    hide RecordsBelow;
    RecordsRotate(MineOf(s.segs), s.active);
    assert MineOf(s.Rotated().segs) == MineOf(s.segs)[s.active + 1 := []];
  }

  function Found(d: Dir): Segs {
    map k | k in d :: Segment(d[k], [])
  }

  lemma SoundOpened(c: Codec, d: Dir, active: nat)
    requires active in d
    ensures Session(Found(d), active, 0, [], map[]).Sound(c)
  {
    hide Content, Unbroken, EndsAt, NormalIndices;
    NoRecords(0);
  }

  lemma StartsRun(s: Session, r: Record)
    requires s.active in s.segs
    ensures s.Rotated().Follows(r)
  {
  }

  lemma NoRecords(last: nat)
    ensures Unbroken(NormalIndices([])) && EndsAt(NormalIndices([]), last)
  {
  }

  /** Opening segments `lo + 1` to `hi`. */
  function Opened(segs: Segs, lo: nat, hi: nat): Segs {
    if hi <= lo then segs else Opened(segs, lo, hi - 1)[hi := NEW_SEGMENT]
  }

  lemma OpenedMore(segs: Segs, lo: nat, hi: nat)
    requires lo <= hi
    ensures Opened(segs, lo, lo) == segs
    ensures Opened(segs, lo, hi)[hi + 1 := NEW_SEGMENT] == Opened(segs, lo, hi + 1)
  {
  }

  lemma SetTwice<K, V>(m: map<K, V>, k: K, a: V, b: V)
    ensures m[k := a][k := b] == m[k := b]
  {
  }

  function One(b: bool): nat {
    if b then 1 else 0
  }

  lemma FilesRotate(c: Codec, d: Dir, segs: Segs, active: nat)
    requires Files(c, d, [], segs, active)
    ensures Files(c, d[active + 1 := []], [], segs[active + 1 := NEW_SEGMENT], active + 1)
  {
    hide Content;
    EmptyContent(c);
    assert d[active] + [] == d[active];
  }

  lemma FilesAppend(c: Codec, d: Dir, buf: Str, d': Dir, buf': Str, segs: Segs, active: nat, r: Record)
    requires Files(c, d, buf, segs, active)
    requires d'.Keys == d.Keys && d'[active] + buf' == d[active] + buf + Frame(c, r.payload)
    requires forall k :: k in d && k != active ==> d'[k] == d[k]
    ensures Files(c, d', buf', segs[active := segs[active].(mine := segs[active].mine + [r])], active)
  {
    hide Content, Frame;
    ContentSnoc(c, segs[active].mine, r);
    AppendAssoc(segs[active].raw, Content(c, segs[active].mine), Frame(c, r.payload));
  }

  lemma FilesOpened(c: Codec, d: Dir, active: nat)
    requires active in d && forall k :: k in d ==> k <= active
    ensures Files(c, d, [], Found(d), active)
  {
    hide Content;
    EmptyContent(c);
    forall k | k in d ensures FileBytes(c, Found(d)[k]) == d[k] {
      AppendCut(d[k], [], 0);
    }
    AppendCut(d[active], [], 0);
  }

  lemma FilesKeys(c: Codec, d: Dir, buf: Str, segs: Segs, active: nat)
    requires Files(c, d, buf, segs, active)
    ensures segs.Keys == d.Keys && active in d && forall k :: k in segs ==> k <= active
    ensures |d[active]| + |buf| == |FileBytes(c, segs[active])|
  {
  }

  // ---------------------------------------------------------------- pruning

  datatype PruneError = WriterClosed | Unreadable(status: Status)

  /** A segment other than `captured` that can be read and holds only indices below `p`. */
  ghost predicate Prunable(c: Codec, d: Dir, captured: nat, p: nat, k: nat)
    requires k in d
  {
    k != captured && Scan(c, d[k]).status == Clean && MaxIndex(Scan(c, d[k]).envs) < p
  }

  lemma FilesWithout(c: Codec, d: Dir, buf: Str, segs: Segs, active: nat, gone: set<nat>)
    requires Files(c, d, buf, segs, active) && active !in gone
    ensures Files(c, d - gone, buf, segs - gone, active)
  {
    hide Content;
  }

  lemma SoundWithout(c: Codec, s: Session, gone: set<nat>)
    requires s.Sound(c) && s.active !in gone
    ensures s.(segs := s.segs - gone, sidecars := s.sidecars - gone).Sound(c)
  {
    hide Content, Tiles, Unbroken, EndsAt, NormalIndices;
  }

  lemma WithoutMore<V>(m: map<nat, V>, gone: set<nat>, k: nat)
    ensures m - gone - {k} == m - (gone + {k}) && m - {} == m
  {
  }

  class Writer {
    const codec: Codec
    const strictSync: bool
    const sidecarFlushEvery: nat
    const maxSegmentBytes: nat
    const forceRotateEvery: nat

    /** The segment files; that of the active segment lacks the bytes in `buf`. */
    var disk: Dir
    var buf: Str
    var segIdx: nat
    var lastIndex: nat
    var closed: bool
    var entries: seq<EntryMeta>
    var entriesSinceFlush: nat
    /** The index files written by this writer. */
    var sidecars: map<nat, seq<EntryMeta>>
    var appendCount: nat

    ghost var segs: Segs

    ghost function View(): Session
      reads `segs, `segIdx, `lastIndex, `entries, `sidecars
    {
      Session(segs, segIdx, lastIndex, entries, sidecars)
    }

    ghost predicate Valid()
      reads `disk, `buf, `segs, `segIdx, `lastIndex, `entries, `sidecars, `closed
    {
      && Files(codec, disk, buf, segs, segIdx)
      && segIdx in segs && View().Sound(codec)
      && (closed ==> buf == []) && maxSegmentBytes > 0
    }

    /** Continues the highest segment of a directory, or starts segment 0. Whatever bytes are there
        stay in front of what is appended. */
    constructor (c: Codec, d: Dir, strict: bool, flushEvery: int, maxBytes: int, rotateEvery: int)
      ensures Valid() && codec == c && !closed && buf == [] && strictSync == strict
      ensures disk == (if d == map[] then map[0 := []] else d) && segs == Found(disk)
      ensures lastIndex == 0 && appendCount == 0 && View().Log() == []
      ensures maxSegmentBytes == if maxBytes > 0 then maxBytes else 64 * 1024 * 1024
      ensures forceRotateEvery == if rotateEvery > 0 then rotateEvery else 0
    {
      hide Session.Sound, Files, RecordsBelow;
      codec := c;
      strictSync := strict;
      sidecarFlushEvery := if flushEvery <= 0 then 256 else flushEvery;
      maxSegmentBytes := if maxBytes > 0 then maxBytes else 64 * 1024 * 1024;
      forceRotateEvery := if rotateEvery > 0 then rotateEvery else 0;
      var highest := HighestSegment(d.Keys);
      segIdx := if highest >= 0 then highest else 0;
      disk := if highest >= 0 then d else d[0 := []];
      buf, lastIndex, closed := [], 0, false;
      entries, entriesSinceFlush, sidecars, appendCount := [], 0, map[], 0;
      segs := Found(if highest >= 0 then d else d[0 := []]);
      new;
      SoundOpened(c, disk, segIdx);
      FilesOpened(c, disk, segIdx);
      NothingAppended(disk, segIdx + 1);
    }

    /** Appends a normal entry; an index that does not follow the last one goes to a new segment. */
    method AppendEnvelope(index: nat, b: Str) returns (ok: bool)
      requires Valid()
      modifies this
      ensures Valid() && ok == !old(closed) && closed == old(closed)
      ensures !ok ==> unchanged(this)
      ensures ok ==>
        var r := Record(index, false, b);
        var at := old(segIdx) + One(old(lastIndex) != 0 && index != old(lastIndex) + 1);
        var start := if at == old(segIdx) then old(segs[segIdx]) else NEW_SEGMENT;
        && View().Log() == old(View().Log()) + [r] && lastIndex == index
        && Landed(codec, old(segs), segs, at, segIdx, start, r, maxSegmentBytes, old(Forced()))
      ensures ok && strictSync ==> buf == []
      ensures appendCount == if ok && forceRotateEvery > 0 then old(appendCount) + 1 else old(appendCount)
    {
      hide Files, Content, Session.Sound, Session.Log, Landed, FileBytes;
      if closed {
        return false;
      }
      if lastIndex != 0 && index != lastIndex + 1 {
        StartsRun(View(), Record(index, false, b));
        Rotate();
      }
      ghost var before := segs;
      WriteRecord(Record(index, false, b));
      if before != old(segs) {
        LandedLater(codec, old(segs), segs, old(segIdx)
          + 1, segIdx, Record(index, false, b), maxSegmentBytes, old(Forced()));
      }
      return true;
    }

    /** Appends a hard state, indexed by its commit, outside the sequence of normal entries. */
    method AppendHardState(commit: nat, b: Str) returns (ok: bool)
      requires Valid()
      modifies this
      ensures Valid() && ok == !old(closed) && closed == old(closed)
      ensures !ok ==> unchanged(this)
      ensures ok ==>
        var r := Record(commit, true, b);
        && View().Log() == old(View().Log()) + [r] && lastIndex == old(lastIndex)
        && Landed(codec, old(segs), segs, old(segIdx), segIdx, old(segs[segIdx]), r, maxSegmentBytes, old(Forced()))
      ensures ok && strictSync ==> buf == []
      ensures appendCount == if ok && forceRotateEvery > 0 then old(appendCount) + 1 else old(appendCount)
    {
      hide Files, Content, Session.Sound, Session.Log, Landed, FileBytes;
      if closed {
        return false;
      }
      WriteRecord(Record(commit, true, b));
      return true;
    }

    /** The next append completes a forced-rotation period. */
    predicate Forced()
      reads `appendCount
    {
      forceRotateEvery > 0 && (appendCount + 1) % forceRotateEvery == 0
    }

    /** What both appends do from the framing on. */
    method WriteRecord(r: Record)
      requires Valid() && !closed && View().Follows(r)
      modifies this
      ensures Valid() && !closed
      ensures View().Log() == old(View().Log()) + [r]
      ensures lastIndex == if r.hard then old(lastIndex) else r.index
      ensures Landed(codec, old(segs), segs, old(segIdx), segIdx, old(segs[segIdx]), r, maxSegmentBytes, old(Forced()))
      ensures strictSync ==> buf == []
      ensures appendCount == if forceRotateEvery > 0 then old(appendCount) + 1 else old(appendCount)
    {
      hide Files, Content, Session.Sound, Session.Log, Opened, FileBytes, Valid;
      var end := PutFrame(r);
      SyncOrIndex();
      RotateWhenDue(end);
    }

    /** Rotates when the segment has reached its size, and again at the end of a forced period. */
    method RotateWhenDue(end: nat)
      requires Valid() && !closed
      modifies this
      ensures Valid() && !closed && lastIndex == old(lastIndex)
      ensures View().Log() == old(View().Log()) && (old(buf) == [] ==> buf == [])
      ensures segIdx == old(segIdx) + One(end >= maxSegmentBytes) + One(old(Forced()))
      ensures segs == Opened(old(segs), old(segIdx), segIdx)
      ensures appendCount == if forceRotateEvery > 0 then old(appendCount) + 1 else old(appendCount)
    {
      hide Files, Content, Session.Sound, Session.Log, Opened;
      assert maxSegmentBytes > 0;
      hide Valid;
      OpenedMore(segs, segIdx, segIdx);
      if maxSegmentBytes > 0 && end >= maxSegmentBytes {
        Rotate();
      }
      OpenedMore(old(segs), old(segIdx), segIdx);
      if forceRotateEvery > 0 {
        appendCount := appendCount + 1;
        if appendCount % forceRotateEvery == 0 {
          Rotate();
        }
      }
    }

    /** Writes the frame and notes its place; `end` is the offset behind it. */
    method PutFrame(r: Record) returns (end: nat)
      requires Valid() && !closed && View().Follows(r)
      modifies `disk, `buf, `lastIndex, `entries, `entriesSinceFlush, `segs
      ensures Valid()
      ensures View() == old(View()).Appended(codec, r) && View().Log() == old(View().Log()) + [r]
      ensures end == |FileBytes(codec, segs[segIdx])|
    {
      hide FileBytes, Frame, Session.Sound, Session.Follows, Session.Log, Files, Cut32;
      FilesKeys(codec, disk, buf, segs, segIdx);
      var frame := Frame(codec, r.payload);
      var offsetBefore := |disk[segIdx]| + |buf|;
      ghost var s := View();
      BufWrite(frame);
      if !r.hard {
        lastIndex := r.index;
      }
      entries := entries + [EntryMeta(r.index, Cut32(offsetBefore), Cut32(|frame|))];
      entriesSinceFlush := entriesSinceFlush + 1;
      FilesAppend(codec, old(disk), old(buf), disk, buf, segs, segIdx, r);
      SoundAppend(codec, s, r);
      AppendedLog(codec, s, r);
      segs := segs[segIdx := segs[segIdx].(mine := segs[segIdx].mine + [r])];
      assert View() == s.Appended(codec, r);
      return offsetBefore + |frame|;
    }

    /** Strict mode makes the frame durable; index files are rewritten every so many entries. */
    method SyncOrIndex()
      requires Valid() && !closed
      modifies `disk, `buf, `sidecars, `entriesSinceFlush
      ensures Valid() && (strictSync ==> buf == []) && View().Log() == old(View().Log())
    {
      hide Files, Content, Session.Sound;
      if strictSync {
        Flush();
      } else if entriesSinceFlush >= sidecarFlushEvery {
        WriteSidecar();
      }
      if entriesSinceFlush >= sidecarFlushEvery {
        WriteSidecar();
      }
    }

    /** A buffered write: some of the bytes reach the file, in order. */
    method BufWrite(frame: Str)
      requires segIdx in disk
      modifies `disk, `buf
      ensures disk.Keys == old(disk.Keys) && forall k :: k in disk && k != segIdx ==> disk[k] == old(disk[k])
      ensures disk[segIdx] + buf == old(disk[segIdx] + buf) + frame
    {
      var all := disk[segIdx] + buf + frame;
      var k: nat :| |disk[segIdx]| <= k <= |all|;
      disk, buf := disk[segIdx := all[..k]], all[k..];
      TakeDropAt(all, k);
    }

    method Flush()
      requires Valid()
      modifies `disk, `buf
      ensures Valid() && (!closed ==> buf == [])
    {
      hide FileBytes, Session.Sound;
      if closed {
        return;
      }
      disk, buf := disk[segIdx := disk[segIdx] + buf], [];
      AppendCut(disk[segIdx], [], 0);
    }

    method WriteSidecar()
      requires Valid()
      modifies `sidecars, `entriesSinceFlush
      ensures Valid() && View() == old(View()).Saved()
    {
      hide Session.Sound, Files;
      SoundSaved(codec, View());
      if entries == [] {
        return;
      }
      sidecars, entriesSinceFlush := sidecars[segIdx := entries], 0;
    }

    /** Closes the active segment and opens the next one. */
    method Rotate()
      requires Valid() && !closed
      modifies `disk, `buf, `segIdx, `entries, `entriesSinceFlush, `sidecars, `segs
      ensures Valid() && buf == [] && disk[segIdx] == []
      ensures View() == old(View()).Rotated() && View().Log() == old(View().Log())
    {
      hide FileBytes, Session.Sound, Files, RecordsBelow, Session.Log;
      ghost var s := View();
      Flush();
      WriteSidecar();
      FilesRotate(codec, disk, segs, segIdx);
      FilesKeys(codec, disk, buf, segs, segIdx);
      SoundRotate(codec, s);
      RotatedLog(s);
      segIdx := segIdx + 1;
      disk := disk[segIdx := []];
      entries, entriesSinceFlush := [], 0;
      segs := segs[segIdx := NEW_SEGMENT];
      assert View() == s.Rotated();
    }

    /** Removes every closed segment whose highest index is below `p`, unless one cannot be read. Here
        no append comes between capturing the active segment and the scan. */
    method PruneThrough(p: nat) returns (removed: nat, err: Option<PruneError>, ghost gone: set<nat>)
      requires Valid()
      modifies `disk, `sidecars, `segs
      ensures Valid() && disk == old(disk) - gone && segs == old(segs) - gone && removed == |gone|
      ensures forall k :: k in gone ==> k in old(disk) && Prunable(codec, old(disk), segIdx, p, k)
      ensures err.None? && p > 0 ==> forall k :: k in disk ==> !Prunable(codec, old(disk), segIdx, p, k)
      ensures err == Some(WriterClosed) <==> p > 0 && closed
      ensures err.Some? && err.value.Unreadable? ==>
                exists k :: k in old(disk) && k != segIdx
                  && Scan(codec, old(disk)[k]).status == err.value.status != Clean
    {
      hide Files, Session.Sound, Scan, MaxIndex;
      FilesKeys(codec, disk, buf, segs, segIdx);
      gone := {};
      WithoutMore(disk, {}, 0);
      WithoutMore(segs, {}, 0);
      if p == 0 {
        return 0, None, gone;
      }
      if closed {
        return 0, Some(WriterClosed), gone;
      }
      var unread;
      removed, unread, gone := PruneScan(segIdx, p);
      err := if unread == Clean then None else Some(Unreadable(unread));
    }

    /** The part of a prune that runs without the lock: `captured` was the active segment when the lock
        was released, and appends may have rotated since. The active segment goes too, exactly when
        it is not the captured one and what has reached its file is readable and below `p`. */
    method PruneScan(captured: nat, p: nat) returns (removed: nat, unread: Status, ghost gone: set<nat>)
      requires Valid()
      modifies `disk, `sidecars, `segs
      ensures disk == old(disk) - gone && segs == old(segs) - gone && removed == |gone|
      ensures forall k :: k in gone ==> k in old(disk) && Prunable(codec, old(disk), captured, p, k)
      ensures unread == Clean ==> forall k :: k in disk ==> !Prunable(codec, old(disk), captured, p, k)
      ensures unread != Clean ==>
                exists k :: k in old(disk) && k != captured && Scan(codec, old(disk)[k]).status == unread
      ensures segIdx in disk ==> Valid()
      ensures segIdx in old(disk)
      ensures unread == Clean ==> (segIdx !in disk <==> Prunable(codec, old(disk), captured, p, segIdx))
    {
      hide Files, Session.Sound;
      FilesKeys(codec, disk, buf, segs, segIdx);
      ghost var d0, s0, v0 := disk, segs, View();
      var listed := ListSegments(disk.Keys);
      ListingDistinct(listed, disk.Keys);
      removed, unread, gone := PruneListed(listed, captured, p);
      if segIdx !in gone {
        FilesWithout(codec, d0, buf, s0, segIdx, gone);
        SoundWithout(codec, v0, gone);
      }
    }

    /** The loop over the listed segments; stops at the first that cannot be read. */
    method PruneListed(listed: seq<nat>, captured: nat, p: nat)
        returns (removed: nat, unread: Status, ghost gone: set<nat>)
      requires forall i :: 0 <= i < |listed| ==> listed[i] in disk
      requires forall i, j :: 0 <= i < j < |listed| ==> listed[i] != listed[j]
      modifies `disk, `sidecars, `segs
      ensures disk == old(disk) - gone && segs == old(segs) - gone && sidecars == old(sidecars) - gone
                && removed == |gone|
      ensures forall k :: k in gone ==> k in old(disk) && Prunable(codec, old(disk), captured, p, k)
      ensures unread == Clean ==>
                forall i :: 0 <= i < |listed| && listed[i] in disk ==>
                  !Prunable(codec, old(disk), captured, p, listed[i])
      ensures unread != Clean ==>
                exists i :: 0 <= i < |listed| && listed[i] != captured
                  && Scan(codec, old(disk)[listed[i]]).status == unread
    {
      hide Scan, MaxIndex;
      removed, gone := 0, {};
      WithoutMore(disk, {}, 0);
      WithoutMore(segs, {}, 0);
      WithoutMore(sidecars, {}, 0);
      for i := 0 to |listed|
        invariant disk == old(disk) - gone && segs == old(segs) - gone && sidecars == old(sidecars) - gone
        invariant removed == |gone| && forall j :: i <= j < |listed| ==> listed[j] !in gone
        invariant forall k :: k in gone ==> k in old(disk) && Prunable(codec, old(disk), captured, p, k)
        invariant forall j :: 0 <= j < i && listed[j] !in gone ==> !Prunable(codec, old(disk), captured, p, listed[j])
      {
        var k := listed[i];
        if k == captured {
          continue;
        }
        var max, status := MaxIndexInSegment(codec, disk[k]);
        if status != Clean {
          return removed, status, gone;
        }
        if max < p {
          WithoutMore(old(disk), gone, k);
          WithoutMore(old(segs), gone, k);
          WithoutMore(old(sidecars), gone, k);
          disk, sidecars, segs := disk - {k}, sidecars - {k}, segs - {k};
          removed, gone := removed + 1, gone + {k};
        }
      }
      return removed, Clean, gone;
    }

    method Close()
      requires Valid()
      modifies `disk, `buf, `sidecars, `entriesSinceFlush, `closed
      ensures Valid() && closed && (old(closed) ==> unchanged(this))
    {
      hide Files, Session.Sound, Content;
      if closed {
        return;
      }
      Flush();
      WriteSidecar();
      closed := true;
    }
  }

  /** Where a record went: to segment `at`, behind what that held, with the rotations that followed. */
  ghost predicate Landed(c: Codec, before: Segs, after: Segs, at: nat, active: nat, start: Segment, r: Record,
                         maxBytes: nat, forced: bool)
  {
    var g := start.(mine := start.mine + [r]);
    && active == at + One(|FileBytes(c, g)| >= maxBytes) + One(forced)
    && after == Opened(before[at := g], at, active)
  }

  lemma LandedLater(c: Codec, before: Segs, after: Segs, at: nat, active: nat, r: Record, maxBytes: nat, forced: bool)
    requires Landed(c, before[at := NEW_SEGMENT], after, at, active, NEW_SEGMENT, r, maxBytes, forced)
    ensures Landed(c, before, after, at, active, NEW_SEGMENT, r, maxBytes, forced)
  {
    SetTwice(before, at, NEW_SEGMENT, Segment([], [] + [r]));
  }

  lemma {:induction false} NothingAppended(d: Dir, n: nat)
    ensures RecordsBelow(MineOf(Found(d)), n) == []
  {
    if n > 0 {
      NothingAppended(d, n - 1);
    }
  }

  method HighestSegment(ids: set<nat>) returns (highest: int)
    ensures highest == -1 <==> ids == {}
    ensures ids != {} ==> highest in ids && forall k :: k in ids ==> k <= highest
  {
    highest := -1;
    var rest := ids;
    while rest != {}
      invariant rest <= ids
      invariant highest == -1 <==> rest == ids
      invariant highest != -1 ==> highest in ids
      invariant forall k :: k in ids ==> k in rest || k <= highest
      decreases |rest|
    {
      var n :| n in rest;
      if n > highest {
        highest := n;
      }
      rest := rest - {n};
      assert n in ids;
    }
  }
}
