/** What a reader recovers from a file written by `log::Writer`: everything, from a complete file;
    the wholly written records, from a file cut at any byte. */
module LogRecovery {
  import opened LogFormat
  import opened LogParse

  ghost predicate Has(file: Bytes, p: nat, b: Bytes) {
    p + |b| <= |file| && file[p..p + |b|] == b
  }

  /** The reader looks for the log the writer wrote. A recyclable log keeps 32 bits of its number. */
  ghost predicate Matches(cfg: LogConfig, rc: ReaderConfig) {
    && cfg.crc.Lawful()
    && rc.crc == cfg.crc
    && rc.logNumber == cfg.logNumber
    && (cfg.recycle ==> cfg.logNumber < 0x1_0000_0000)
  }

  /** Between records of a log written with `cfg`. */
  predicate Fits(cfg: LogConfig, c: Cursor) {
    cfg.recycle && c.firstRead ==> c.recycled
  }

  // ----- one frame -----

  lemma FrameBytes(crc: Checksum, n: nat, t: Byte, payload: Bytes)
    requires |payload| <= 0xffff
    ensures var fr := Frame(crc, n, t, payload);
            && fr[..4] == Fixed32(FrameCrc(crc, n, t, payload))
            && fr[4] as int + 256 * (fr[5] as int) == |payload|
            && fr[6] == t
            && (IsRecyclableType(t) ==> fr[7..11] == LogNumberBytes(n))
            && fr[TypeHeaderSize(t)..] == payload
  {
  }

  lemma FrameChecked(crc: Checksum, n: nat, t: Byte, payload: Bytes)
    requires |payload| <= 0xffff
    ensures var fr := Frame(crc, n, t, payload);
            fr[6..] == [t] + (if IsRecyclableType(t) then LogNumberBytes(n) else []) + payload
  {
  }

  /** Parsing a buffer that starts with a written frame gives back type and payload. */
  lemma ParseWritten(cfg: LogConfig, rc: ReaderConfig, begin: bool, end: bool, payload: Bytes, h: Bytes)
    requires Matches(cfg, rc) && |payload| <= 0xffff
    requires var fr := Frame(cfg.crc, cfg.logNumber, DataType(cfg, begin, end), payload);
             |fr| <= |h| && h[..|fr|] == fr
    ensures |h| >= HEADER_SIZE && h[6] == DataType(cfg, begin, end) && |h| >= TypeHeaderSize(h[6])
    ensures ParseBuffer(rc, h) == Found(DataType(cfg, begin, end), payload, 0, cfg.HeaderSize() + |payload|)
  {
    hide DataType, Fixed32, DecodeFixed32, Frame, FrameHeader;
    var t := DataType(cfg, begin, end);
    var fr := Frame(cfg.crc, cfg.logNumber, t, payload);
    FrameBytes(cfg.crc, cfg.logNumber, t, payload);
    assert h[4] == fr[4] && h[5] == fr[5] && h[6] == fr[6];
    assert h[..4] == fr[..4];
    Fixed32RoundTrip(FrameCrc(cfg.crc, cfg.logNumber, t, payload));
    FrameChecked(cfg.crc, cfg.logNumber, t, payload);
    assert h[6..|fr|] == fr[6..];
    if cfg.recycle {
      Fixed32RoundTrip(cfg.logNumber);
      assert h[7..11] == fr[7..11];
    }
    assert h[TypeHeaderSize(t)..|fr|] == fr[TypeHeaderSize(t)..];
  }

  /** If the file continues past the cursor, one refill at most brings its bytes into the buffer. */
  ghost function Loaded(file: Bytes, c: Cursor): (d: Cursor)
    requires c.Ok(file)
    ensures d.Ok(file) && d.at == c.at && d.recycled == c.recycled && d.firstRead == c.firstRead
  {
    if c.at == c.end && !c.eof then Refill(file, c) else c
  }

  lemma LoadedBuffer(file: Bytes, c: Cursor)
    requires c.Ok(file)
    ensures var d := Loaded(file, c);
            && (c.at < |file| ==> d.at < d.end)
            && (d.at < d.end ==> d.end == if c.at - c.at % BLOCK_SIZE + BLOCK_SIZE <= |file|
                                          then c.at - c.at % BLOCK_SIZE + BLOCK_SIZE else |file|)
            && (d.at < d.end ==> d.eof == (d.end % BLOCK_SIZE != 0))
            && (c.at == |file| ==> d.eof && d.at == d.end)
  {
  }

  lemma ReadLoaded(file: Bytes, rc: ReaderConfig, c: Cursor)
    requires c.Ok(file)
    ensures ReadPhysical(file, rc, c) == ReadPhysical(file, rc, Loaded(file, c))
  {
  }

  /** A frame written at the cursor is what the next physical read returns. */
  lemma ReadFrame(cfg: LogConfig, rc: ReaderConfig, begin: bool, end: bool, payload: Bytes, file: Bytes, c: Cursor)
    requires Matches(cfg, rc) && |payload| <= 0xffff && c.Ok(file) && Fits(cfg, c)
    requires Has(file, c.at, Frame(cfg.crc, cfg.logNumber, DataType(cfg, begin, end), payload))
    requires c.at % BLOCK_SIZE + cfg.HeaderSize() + |payload| <= BLOCK_SIZE
    ensures var ph := ReadPhysical(file, rc, c);
            && ph.Physical?
            && ph.code == DataType(cfg, begin, end) && ph.fragment == payload && ph.drop == 0
            && ph.next.at == c.at + cfg.HeaderSize() + |payload|
            && ph.next.firstRead == c.firstRead
            && ph.next.recycled == (c.recycled || cfg.recycle)
            && ph.next.Ok(file) && Fits(cfg, ph.next)
  {
    hide ParseBuffer, DataType, Frame;
    var d := Loaded(file, c);
    LoadedBuffer(file, c);
    ReadLoaded(file, rc, c);
    var fr := Frame(cfg.crc, cfg.logNumber, DataType(cfg, begin, end), payload);
    var h := file[d.at..d.end];
    assert d.at + |fr| <= d.end;
    assert h[..|fr|] == file[d.at..d.at + |fr|];
    ParseWritten(cfg, rc, begin, end, payload, h);
    assert file[d.at + 6] == h[6];
  }

  // ----- padding -----

  lemma HasSplit(file: Bytes, p: nat, a: Bytes, b: Bytes)
    requires Has(file, p, a + b)
    ensures Has(file, p, a) && Has(file, p + |a|, b)
  {
    assert a == (a + b)[..|a|] && b == (a + b)[|a|..];
    assert file[p..p + |a|] == file[p..p + |a + b|][..|a|];
    assert file[p + |a|..p + |a| + |b|] == file[p..p + |a + b|][|a|..];
  }

  /** The cursor once the writer's padding is behind it. */
  ghost function PastPadding(h: nat, file: Bytes, c: Cursor): (d: Cursor)
    requires c.Ok(file) && HEADER_SIZE <= h <= RECYCLABLE_HEADER_SIZE
    requires Has(file, c.at, Zeros(Pad(h, c.at)))
    ensures d.Ok(file) && d.at == c.at + Pad(h, c.at)
    ensures d.recycled == c.recycled && d.firstRead == c.firstRead
    ensures Pad(h, c.at) == 0 ==> d == c
  {
    LoadedBuffer(file, c);
    if Pad(h, c.at) == 0 then c
    else if Pad(h, c.at) < HEADER_SIZE then Refill(file, c)
    else c.(at := c.end)
  }

  /** Padding is skipped without a report: a trailer shorter than a header by refilling, a longer
      one (possible only before an 11-byte header) as a zero-length record of type zero. */
  lemma SkipPadding(h: nat, rc: ReaderConfig, mode: Mode, file: Bytes, s: ReaderState)
    requires s.cursor.Ok(file) && HEADER_SIZE <= h <= RECYCLABLE_HEADER_SIZE
    requires Has(file, s.cursor.at, Zeros(Pad(h, s.cursor.at)))
    ensures ReadOne(file, rc, mode, s, [], false)
         == ReadOne(file, rc, mode, s.(cursor := PastPadding(h, file, s.cursor)), [], false)
  {
    hide ReadPhysical, Switch;
    var c := s.cursor;
    var pad := Pad(h, c.at);
    LoadedBuffer(file, c);
    if 0 < pad < HEADER_SIZE {
      ReadTrailer(rc, file, c);
    } else if pad >= HEADER_SIZE {
      ReadLongPadding(rc, file, c);
      IgnoredRecord(mode, c.(at := c.end));
      assert s.reports + [] == s.reports;
    }
  }

  lemma ReadTrailer(rc: ReaderConfig, file: Bytes, c: Cursor)
    requires c.Ok(file) && !c.eof && c.end - c.at < HEADER_SIZE
    ensures ReadPhysical(file, rc, c) == ReadPhysical(file, rc, Refill(file, c))
  {
  }

  lemma ParseZeros(rc: ReaderConfig, h: Bytes)
    requires |h| >= HEADER_SIZE && forall i :: 0 <= i < HEADER_SIZE ==> h[i] == 0
    ensures ParseBuffer(rc, h) == Found(BAD_RECORD, [], 0, |h|)
  {
    assert h[4] == 0 && h[5] == 0 && h[6] == 0;
  }

  lemma ReadLongPadding(rc: ReaderConfig, file: Bytes, c: Cursor)
    requires c.Ok(file) && c.end - c.at >= HEADER_SIZE
    requires Has(file, c.at, Zeros(c.end - c.at))
    ensures ReadPhysical(file, rc, c) == Physical(BAD_RECORD, [], 0, c.(at := c.end))
  {
    hide ParseBuffer;
    var h := file[c.at..c.end];
    assert h == Zeros(c.end - c.at);
    assert file[c.at + 6] == h[6] == 0;
    ParseZeros(rc, h);
  }

  lemma IgnoredRecord(mode: Mode, c: Cursor)
    ensures Switch(mode, Physical(BAD_RECORD, [], 0, c), [], false) == (Go([], false), [])
  {
  }

  // ----- one record -----

  lemma SwitchData(cfg: LogConfig, mode: Mode, begin: bool, end: bool, ph: Physical, scratch: Bytes)
    requires ph.Physical? && ph.code == DataType(cfg, begin, end)
    requires begin ==> scratch == []
    ensures Switch(mode, ph, scratch, !begin)
         == (if end then Deliver(scratch + ph.fragment) else Go(scratch + ph.fragment, true), [])
  {
    hide DataType;
    assert begin ==> scratch + ph.fragment == ph.fragment;
  }

  /** One turn of the loop in `ReadRecord` on a written fragment. */
  lemma ReadFragment(cfg: LogConfig, rc: ReaderConfig, mode: Mode, file: Bytes, s: ReaderState,
                     begin: bool, end: bool, payload: Bytes, scratch: Bytes)
    requires Matches(cfg, rc) && |payload| <= 0xffff && s.cursor.Ok(file) && Fits(cfg, s.cursor)
    requires Has(file, s.cursor.at, Frame(cfg.crc, cfg.logNumber, DataType(cfg, begin, end), payload))
    requires s.cursor.at % BLOCK_SIZE + cfg.HeaderSize() + |payload| <= BLOCK_SIZE
    requires begin ==> scratch == []
    ensures var next := ReadPhysical(file, rc, s.cursor).next;
            && next.Ok(file) && Fits(cfg, next)
            && next.at == s.cursor.at + cfg.HeaderSize() + |payload|
            && next.recycled == (s.cursor.recycled || cfg.recycle)
            && ReadOne(file, rc, mode, s, scratch, !begin)
            == if end then (Record(scratch + payload), s.(cursor := next.(firstRead := true)))
               else ReadOne(file, rc, mode, s.(cursor := next), scratch + payload, true)
  {
    hide ReadPhysical, Switch, Frame, DataType;
    ReadFrame(cfg, rc, begin, end, payload, file, s.cursor);
    SwitchData(cfg, mode, begin, end, ReadPhysical(file, rc, s.cursor), scratch);
    assert s.reports + [] == s.reports;
  }

  /** A record written at the cursor is read back whole, silently. */
  lemma {:induction false} ReadWritten(cfg: LogConfig, rc: ReaderConfig, mode: Mode, file: Bytes, s: ReaderState,
                                       data: Bytes, begin: bool, scratch: Bytes)
    requires Matches(cfg, rc) && s.cursor.Ok(file) && Fits(cfg, s.cursor)
    requires Has(file, s.cursor.at, RecordBytes(cfg, s.cursor.at, data, begin))
    requires if begin then scratch == [] else s.cursor.at % BLOCK_SIZE == 0
    ensures var r := ReadOne(file, rc, mode, s, scratch, !begin);
            && r.0 == Record(scratch + data)
            && r.1.reports == s.reports
            && r.1.cursor.at == s.cursor.at + |RecordBytes(cfg, s.cursor.at, data, begin)|
            && r.1.cursor.Ok(file) && Fits(cfg, r.1.cursor)
            && r.1.cursor.recycled == (s.cursor.recycled || cfg.recycle)
    decreases |RecordBytes(cfg, s.cursor.at, data, begin)|
  {
    hide *;
    var h := cfg.HeaderSize();
    var p := s.cursor.at;
    var k := FragmentLength(h, p, |data|);
    var q := AfterFragment(h, p, |data|);
    RecordBytesStep(cfg, p, data, begin);
    var piece := FirstPiece(cfg, p, data, begin);
    if k == |data| {
      assert piece + [] == piece && data[..k] == data;
      var s1 := ReadPiece(cfg, rc, mode, file, s, data, begin, scratch);
    } else {
      HasSplit(file, p, piece, RecordBytes(cfg, q, data[k..], false));
      var s1 := ReadPiece(cfg, rc, mode, file, s, data, begin, scratch);
      NonFinalFragmentFillsBlock(h, p, |data|);
      ReadWritten(cfg, rc, mode, file, s1, data[k..], false, scratch + data[..k]);
      assert scratch + data[..k] + data[k..] == scratch + data;
    }
  }

  /** Padding and first fragment of the rest of a record. */
  lemma ReadPiece(cfg: LogConfig, rc: ReaderConfig, mode: Mode, file: Bytes, s: ReaderState,
                  data: Bytes, begin: bool, scratch: Bytes) returns (s1: ReaderState)
    requires Matches(cfg, rc) && s.cursor.Ok(file) && Fits(cfg, s.cursor)
    requires Has(file, s.cursor.at, FirstPiece(cfg, s.cursor.at, data, begin))
    requires if begin then scratch == [] else s.cursor.at % BLOCK_SIZE == 0
    ensures s1.cursor.Ok(file) && Fits(cfg, s1.cursor) && s1.reports == s.reports
    ensures s1.cursor.recycled == (s.cursor.recycled || cfg.recycle)
    ensures s1.cursor.at == AfterFragment(cfg.HeaderSize(), s.cursor.at, |data|)
    ensures var k := FragmentLength(cfg.HeaderSize(), s.cursor.at, |data|);
            ReadOne(file, rc, mode, s, scratch, !begin)
            == if k == |data| then (Record(scratch + data[..k]), s1)
               else ReadOne(file, rc, mode, s1, scratch + data[..k], true)
  {
    hide ReadOne, ReadPhysical, Frame, DataType, PastPadding, Cursor.Ok, Matches, Has;
    var h := cfg.HeaderSize();
    var p := s.cursor.at;
    var k := FragmentLength(h, p, |data|);
    var end := k == |data|;
    HasSplit(file, p, Zeros(Pad(h, p)), Frame(cfg.crc, cfg.logNumber, DataType(cfg, begin, end), data[..k]));
    var s0 := s.(cursor := PastPadding(h, file, s.cursor));
    if begin {
      SkipPadding(h, rc, mode, file, s);
    }
    ReadFragment(cfg, rc, mode, file, s0, begin, end, data[..k], scratch);
    var next := ReadPhysical(file, rc, s0.cursor).next;
    s1 := s.(cursor := if end then next.(firstRead := true) else next);
  }

  // ----- a record cut short -----

  /** The file ends inside `b`, which starts at p. */
  ghost predicate Cut(file: Bytes, p: nat, b: Bytes) {
    p <= |file| < p + |b| && file[p..] == b[..|file| - p]
  }

  lemma CutSplit(file: Bytes, p: nat, a: Bytes, b: Bytes)
    requires Cut(file, p, a + b)
    ensures if |file| < p + |a| then Cut(file, p, a) else Has(file, p, a) && Cut(file, p + |a|, b)
  {
    var x := |file| - p;
    if x < |a| {
      assert (a + b)[..x] == a[..x];
    } else {
      assert (a + b)[..x][..|a|] == a && (a + b)[..x][|a|..] == b[..x - |a|];
      assert file[p..p + |a|] == file[p..][..|a|] && file[p + |a|..] == file[p..][|a|..];
    }
  }

  /** With x bytes left from offset p: does recovery see an incomplete record? Bytes beyond the
      padding always show; padding itself shows only if it is incomplete and shorter than a header. */
  predicate Partial(h: nat, p: nat, x: nat)
    requires h <= RECYCLABLE_HEADER_SIZE
  {
    x > Pad(h, p) || (0 < x < Pad(h, p) && x < HEADER_SIZE)
  }

  /** Reading stops, and the two strict modes report why. */
  ghost predicate Ends(mode: Mode, before: seq<Report>, r: (Outcome, ReaderState), said: seq<Report>) {
    r.0 == NoMore && r.1.reports == before + if mode.Strict() then said else []
  }

  /** The fragments of a record that has no end. */
  function Trailing(begin: bool, size: nat): seq<Report> {
    if begin then [] else [Corruption(size, TrailingData)]
  }

  /** What the strict modes report of a file that ends x bytes behind offset p, inside the rest of a record of
      which `size` bytes were read. */
  function CutReports(h: nat, p: nat, left: nat, begin: bool, size: nat, x: nat): seq<Report>
    requires HEADER_SIZE <= h <= RECYCLABLE_HEADER_SIZE
    decreases x
  {
    var pad := Pad(h, p);
    var k := FragmentLength(h, p, left);
    if x < pad then if 0 < x < HEADER_SIZE then [Corruption(x, TruncatedHeader)] else Trailing(begin, size)
    else if x == pad then Trailing(begin, size)
    else if x - pad < h then [Corruption(x - pad, TruncatedHeader)] + Trailing(begin, size)
    else if x - pad < h + k then [Corruption(x - pad, TruncatedBody)]
    else if k < left then CutReports(h, AfterFragment(h, p, left), left - k, false, size + k, x - pad - h - k)
    else []
  }

  lemma SwitchAtEnd(rc: ReaderConfig, mode: Mode, file: Bytes, s: ReaderState, scratch: Bytes, inFragment: bool)
    requires s.cursor.Ok(file)
    requires var ph := ReadPhysical(file, rc, s.cursor);
             && ph.Physical?
             && (ph.code == EOF_CODE || ph.code == BAD_HEADER || (ph.code == BAD_RECORD_LEN && ph.next.eof))
    ensures var ph := ReadPhysical(file, rc, s.cursor);
            Ends(mode, s.reports, ReadOne(file, rc, mode, s, scratch, inFragment),
                 if ph.code == EOF_CODE then Trailing(!inFragment, |scratch|)
                 else if ph.code == BAD_HEADER then
                   [Corruption(ph.drop, TruncatedHeader)] + Trailing(!inFragment, |scratch|)
                 else [Corruption(ph.drop, TruncatedBody)])
  {
    hide ReadPhysical;
  }

  lemma ReadAtFileEnd(rc: ReaderConfig, file: Bytes, c: Cursor)
    requires c.Ok(file) && c.at == |file|
    ensures var ph := ReadPhysical(file, rc, c); ph.Physical? && ph.code == EOF_CODE
  {
    LoadedBuffer(file, c);
    ReadLoaded(file, rc, c);
  }

  lemma ParseCut(cfg: LogConfig, rc: ReaderConfig, begin: bool, end: bool, payload: Bytes, h: Bytes)
    requires |payload| <= 0xffff
    requires var fr := Frame(cfg.crc, cfg.logNumber, DataType(cfg, begin, end), payload);
             HEADER_SIZE <= |h| < |fr| && h == fr[..|h|]
    ensures h[6] == DataType(cfg, begin, end)
    ensures |h| >= cfg.HeaderSize() ==> ParseBuffer(rc, h) == Found(BAD_RECORD_LEN, [], |h|, |h|)
  {
    hide DataType, Frame;
    FrameBytes(cfg.crc, cfg.logNumber, DataType(cfg, begin, end), payload);
    var fr := Frame(cfg.crc, cfg.logNumber, DataType(cfg, begin, end), payload);
    assert h[4] == fr[4] && h[5] == fr[5] && h[6] == fr[6];
  }

  lemma ReadCutFrame(cfg: LogConfig, rc: ReaderConfig, begin: bool, end: bool, payload: Bytes, file: Bytes, c: Cursor)
    requires |payload| <= 0xffff && c.Ok(file) && Fits(cfg, c)
    requires c.at % BLOCK_SIZE + cfg.HeaderSize() + |payload| <= BLOCK_SIZE
    requires Cut(file, c.at, Frame(cfg.crc, cfg.logNumber, DataType(cfg, begin, end), payload))
    ensures var ph := ReadPhysical(file, rc, c);
            && ph.Physical?
            && var y := |file| - c.at;
               if y == 0 then ph.code == EOF_CODE
               else if y < cfg.HeaderSize() then ph.code == BAD_HEADER && ph.drop == y
               else ph.code == BAD_RECORD_LEN && ph.drop == y && ph.next.eof
  {
    hide ReadPhysical, Frame, DataType, Loaded;
    if c.at == |file| {
      ReadAtFileEnd(rc, file, c);
    } else {
      LoadedBuffer(file, c);
      ReadLoaded(file, rc, c);
      ReadCutLoaded(cfg, rc, begin, end, payload, file, Loaded(file, c));
    }
  }

  /** The visible part of the frame is in the buffer. */
  lemma ReadCutLoaded(cfg: LogConfig, rc: ReaderConfig, begin: bool, end: bool, payload: Bytes, file: Bytes, d: Cursor)
    requires |payload| <= 0xffff && d.Ok(file) && Fits(cfg, d) && d.eof && d.at < d.end == |file|
    requires Cut(file, d.at, Frame(cfg.crc, cfg.logNumber, DataType(cfg, begin, end), payload))
    ensures var ph := ReadPhysical(file, rc, d);
            && ph.Physical?
            && if |file| - d.at < cfg.HeaderSize() then ph.code == BAD_HEADER && ph.drop == |file| - d.at
               else ph.code == BAD_RECORD_LEN && ph.drop == |file| - d.at && ph.next.eof
  {
    hide ParseBuffer, Frame, DataType;
    var h := file[d.at..d.end];
    if |h| >= HEADER_SIZE {
      ParseCut(cfg, rc, begin, end, payload, h);
      assert file[d.at + 6] == h[6];
    }
  }

  /** A file that ends inside the padding before a record. */
  lemma ReadCutPadding(h: nat, rc: ReaderConfig, mode: Mode, file: Bytes, s: ReaderState)
    requires s.cursor.Ok(file) && HEADER_SIZE <= h <= RECYCLABLE_HEADER_SIZE
    requires Cut(file, s.cursor.at, Zeros(Pad(h, s.cursor.at)))
    ensures var x := |file| - s.cursor.at;
            Ends(mode, s.reports, ReadOne(file, rc, mode, s, [], false),
                 if 0 < x < HEADER_SIZE then [Corruption(x, TruncatedHeader)] else [])
  {
    hide ReadPhysical, Switch;
    var c := s.cursor;
    var x := |file| - c.at;
    LoadedBuffer(file, c);
    if x == 0 {
      ReadAtFileEnd(rc, file, c);
      SwitchAtEnd(rc, mode, file, s, [], false);
    } else if x < HEADER_SIZE {
      ReadShortEnd(rc, file, c);
      SwitchAtEnd(rc, mode, file, s, [], false);
    } else {
      assert Zeros(Pad(h, c.at))[..x] == Zeros(x);
      assert file[c.at..c.at + x] == file[c.at..];
      ReadLongPadding(rc, file, c);
      IgnoredRecord(mode, c.(at := c.end));
      assert s.reports + [] == s.reports;
      ReadAtFileEnd(rc, file, c.(at := c.end));
      SwitchAtEnd(rc, mode, file, s.(cursor := c.(at := c.end)), [], false);
    }
  }

  lemma ReadShortEnd(rc: ReaderConfig, file: Bytes, c: Cursor)
    requires c.Ok(file) && c.eof && 0 < c.end - c.at < HEADER_SIZE
    ensures ReadPhysical(file, rc, c) == Physical(BAD_HEADER, [], c.end - c.at, c.(at := c.end))
  {
  }

  /** A file that ends inside a record: nothing more is returned. */
  lemma {:induction false} ReadCut(cfg: LogConfig, rc: ReaderConfig, mode: Mode, file: Bytes, s: ReaderState,
                                   data: Bytes, begin: bool, scratch: Bytes)
    requires Matches(cfg, rc) && s.cursor.Ok(file) && Fits(cfg, s.cursor)
    requires Cut(file, s.cursor.at, RecordBytes(cfg, s.cursor.at, data, begin))
    requires if begin then scratch == [] else s.cursor.at % BLOCK_SIZE == 0
    ensures Ends(mode, s.reports, ReadOne(file, rc, mode, s, scratch, !begin),
                 CutReports(cfg.HeaderSize(), s.cursor.at, |data|, begin, |scratch|, |file| - s.cursor.at))
    decreases |RecordBytes(cfg, s.cursor.at, data, begin)|
  {
    hide *;
    var h := cfg.HeaderSize();
    var p := s.cursor.at;
    var k := FragmentLength(h, p, |data|);
    var q := AfterFragment(h, p, |data|);
    RecordBytesStep(cfg, p, data, begin);
    var piece := FirstPiece(cfg, p, data, begin);
    CutSplit(file, p, piece, if k == |data| then [] else RecordBytes(cfg, q, data[k..], false));
    if |file| < p + |piece| {
      ReadCutPiece(cfg, rc, mode, file, s, data, begin, scratch);
    } else {
      NonFinalFragmentFillsBlock(h, p, |data|);
      CutLater(h, p, |data|, begin, |scratch|, |file| - p);
      var s1 := ReadPiece(cfg, rc, mode, file, s, data, begin, scratch);
      ReadCut(cfg, rc, mode, file, s1, data[k..], false, scratch + data[..k]);
    }
  }

  lemma CutLater(h: nat, p: nat, left: nat, begin: bool, size: nat, x: nat)
    requires HEADER_SIZE <= h <= RECYCLABLE_HEADER_SIZE && FragmentLength(h, p, left) < left
    requires p + x >= AfterFragment(h, p, left)
    ensures var k, q := FragmentLength(h, p, left), AfterFragment(h, p, left);
            CutReports(h, p, left, begin, size, x) == CutReports(h, q, left - k, false, size + k, p + x - q)
  {
  }

  /** Something is reported exactly if an incomplete record shows. */
  lemma {:induction false} CutShows(cfg: LogConfig, p: nat, data: Bytes, begin: bool, size: nat, x: nat)
    requires x < |RecordBytes(cfg, p, data, begin)| && (!begin ==> p % BLOCK_SIZE == 0)
    ensures CutReports(cfg.HeaderSize(), p, |data|, begin, size, x) != []
        <==> !begin || Partial(cfg.HeaderSize(), p, x)
    decreases x
  {
    hide RecordBytes, FirstPiece;
    var h := cfg.HeaderSize();
    var k, q := FragmentLength(h, p, |data|), AfterFragment(h, p, |data|);
    RecordBytesStep(cfg, p, data, begin);
    if k < |data| && p + x >= q {
      NonFinalFragmentFillsBlock(h, p, |data|);
      CutLater(h, p, |data|, begin, size, x);
      CutShows(cfg, q, data[k..], false, size + k, p + x - q);
    }
  }

  lemma ReadCutPiece(cfg: LogConfig, rc: ReaderConfig, mode: Mode, file: Bytes, s: ReaderState,
                     data: Bytes, begin: bool, scratch: Bytes)
    requires Matches(cfg, rc) && s.cursor.Ok(file) && Fits(cfg, s.cursor)
    requires Cut(file, s.cursor.at, FirstPiece(cfg, s.cursor.at, data, begin))
    requires if begin then scratch == [] else s.cursor.at % BLOCK_SIZE == 0
    ensures Ends(mode, s.reports, ReadOne(file, rc, mode, s, scratch, !begin),
                 CutReports(cfg.HeaderSize(), s.cursor.at, |data|, begin, |scratch|, |file| - s.cursor.at))
  {
    hide ReadOne, ReadPhysical, Frame, DataType, PastPadding, Cursor.Ok, Matches, Has, Ends;
    var h := cfg.HeaderSize();
    var p := s.cursor.at;
    var k := FragmentLength(h, p, |data|);
    var end := k == |data|;
    CutSplit(file, p, Zeros(Pad(h, p)), Frame(cfg.crc, cfg.logNumber, DataType(cfg, begin, end), data[..k]));
    if |file| < p + Pad(h, p) {
      ReadCutPadding(h, rc, mode, file, s);
    } else {
      var s0 := s.(cursor := PastPadding(h, file, s.cursor));
      if begin {
        SkipPadding(h, rc, mode, file, s);
      }
      ReadCutFrame(cfg, rc, begin, end, data[..k], file, s0.cursor);
      SwitchAtEnd(rc, mode, file, s0, scratch, !begin);
    }
  }

  // ----- a whole log -----

  /** How many records end at or before file length `len`. */
  function Whole(cfg: LogConfig, p: nat, records: seq<Bytes>, len: nat): (k: nat)
    ensures k <= |records|
    decreases |records|
  {
    if records == [] then 0
    else
      var q := p + |RecordBytes(cfg, p, records[0], true)|;
      if q > len then 0 else 1 + Whole(cfg, q, records[1..], len)
  }

  lemma {:induction false} WholeIsMaximal(cfg: LogConfig, p: nat, records: seq<Bytes>, len: nat)
    requires p <= len
    ensures var k := Whole(cfg, p, records, len);
            && p + |LogBytes(cfg, p, records[..k])| <= len
            && (k < |records| ==> len < p + |LogBytes(cfg, p, records[..k + 1])|)
    decreases |records|
  {
    hide RecordBytes;
    if records != [] {
      var q := p + |RecordBytes(cfg, p, records[0], true)|;
      if q > len {
        LogBytesSingle(cfg, p, records[0]);
        assert records[..1] == [records[0]];
      } else {
        WholeIsMaximal(cfg, q, records[1..], len);
        var k := Whole(cfg, q, records[1..], len);
        assert records[..k + 1][0] == records[0] && records[..k + 1][1..] == records[1..][..k];
        if k + 1 < |records| {
          assert records[..k + 2][0] == records[0] && records[..k + 2][1..] == records[1..][..k + 1];
        }
      }
    }
  }

  /** Wholly written records are read back in order; the reader is then just behind them. */
  lemma {:induction false} ReadRecords(cfg: LogConfig, rc: ReaderConfig, mode: Mode, file: Bytes, s: ReaderState,
                                       records: seq<Bytes>) returns (s': ReaderState)
    requires Matches(cfg, rc) && s.cursor.Ok(file) && Fits(cfg, s.cursor)
    requires Has(file, s.cursor.at, LogBytes(cfg, s.cursor.at, records))
    ensures s'.cursor.Ok(file) && Fits(cfg, s'.cursor) && s'.reports == s.reports
    ensures s'.cursor.at == s.cursor.at + |LogBytes(cfg, s.cursor.at, records)|
    ensures var rest := ReadAll(file, rc, mode, s');
            ReadAll(file, rc, mode, s) == rest.(records := records + rest.records)
    decreases |records|
  {
    hide RecordBytes, ReadOne, Cursor.Ok, Matches, Fits;
    if records == [] {
      s' := s;
      assert forall x: seq<Bytes> :: [] + x == x;
    } else {
      var p := s.cursor.at;
      var first := RecordBytes(cfg, p, records[0], true);
      HasSplit(file, p, first, LogBytes(cfg, p + |first|, records[1..]));
      ReadWritten(cfg, rc, mode, file, s, records[0], true, []);
      assert [] + records[0] == records[0];
      var t := ReadOne(file, rc, mode, s, [], false).1;
      s' := ReadRecords(cfg, rc, mode, file, t, records[1..]);
      var rest := ReadAll(file, rc, mode, s').records;
      assert [records[0]] + (records[1..] + rest) == records + rest;
    }
  }

  // ----- the theorems -----

  /** Where the k-th record of a log ends. */
  function EndOf(cfg: LogConfig, records: seq<Bytes>, k: nat): nat
    requires k <= |records|
  {
    |LogBytes(cfg, 0, records[..k])|
  }

  /** A log cut at any byte: the reader returns exactly the records that end at or before the cut,
      in every mode. The two strict modes report an incomplete record if and only if `Partial`
      says one shows; the other two report nothing. */
  lemma TruncatedLog(cfg: LogConfig, rc: ReaderConfig, mode: Mode, records: seq<Bytes>, file: Bytes, k: nat)
    requires Matches(cfg, rc)
    requires file <= LogBytes(cfg, 0, records)
    requires k <= |records| && EndOf(cfg, records, k) <= |file|
    requires k < |records| ==> |file| < EndOf(cfg, records, k + 1)
    ensures var t := ReadFile(file, rc, mode);
            && t.records == records[..k]
            && t.last == NoMore
            && var e := EndOf(cfg, records, k);
               && (t.reports != [] <==> mode.Strict() && Partial(cfg.HeaderSize(), e, |file| - e))
               && t.reports == if mode.Strict() && k < |records|
                               then CutReports(cfg.HeaderSize(), e, |records[k]|, true, 0, |file| - e) else []
  {
    hide ReadOne, ReadAll, RecordBytes, LogBytes, Matches, Has, CutReports, Cut, Partial, Fits, Cursor.Ok;
    SplitAt(cfg, records, file, k);
    FreshReader(cfg, file);
    var s := ReadRecords(cfg, rc, mode, file, ReaderState(START, []), records[..k]);
    AtCut(cfg, rc, mode, records, file, k, s);
    NoMoreToRead(file, rc, mode, s);
    assert records[..k] + [] == records[..k];
  }

  lemma FreshReader(cfg: LogConfig, file: Bytes)
    ensures START.Ok(file) && Fits(cfg, START)
  {
  }

  lemma NoMoreToRead(file: Bytes, rc: ReaderConfig, mode: Mode, s: ReaderState)
    requires s.cursor.Ok(file) && ReadOne(file, rc, mode, s, [], false).0 == NoMore
    ensures ReadAll(file, rc, mode, s) == Transcript([], NoMore, ReadOne(file, rc, mode, s, [], false).1.reports)
  {
    hide ReadOne;
  }

  lemma AtCut(cfg: LogConfig, rc: ReaderConfig, mode: Mode, records: seq<Bytes>, file: Bytes, k: nat, s: ReaderState)
    requires Matches(cfg, rc) && s.cursor.Ok(file) && Fits(cfg, s.cursor) && s.reports == []
    requires k <= |records| && s.cursor.at == EndOf(cfg, records, k)
    requires k == |records| ==> |file| == s.cursor.at
    requires k < |records| ==> Cut(file, s.cursor.at, RecordBytes(cfg, s.cursor.at, records[k], true))
    ensures var r := ReadOne(file, rc, mode, s, [], false);
            var e := s.cursor.at;
            && r.0 == NoMore
            && (r.1.reports != [] <==> mode.Strict() && Partial(cfg.HeaderSize(), e, |file| - e))
            && r.1.reports == if mode.Strict() && k < |records|
                              then CutReports(cfg.HeaderSize(), e, |records[k]|, true, 0, |file| - e) else []
  {
    hide ReadOne, ReadPhysical, RecordBytes, LogBytes, EndOf, Matches, Fits, Cursor.Ok, Has, CutReports, Cut, Partial;
    var e := s.cursor.at;
    if k == |records| {
      ReadAtFileEnd(rc, file, s.cursor);
      SwitchAtEnd(rc, mode, file, s, [], false);
      NothingPartial(cfg.HeaderSize(), e);
    } else {
      ReadCut(cfg, rc, mode, file, s, records[k], true, []);
      CutEnds(file, e, RecordBytes(cfg, e, records[k], true));
      CutShows(cfg, e, records[k], true, 0, |file| - e);
    }
  }

  lemma CutEnds(file: Bytes, p: nat, b: Bytes)
    requires Cut(file, p, b)
    ensures p <= |file| < p + |b|
  {
  }

  lemma NothingPartial(h: nat, p: nat)
    requires h <= RECYCLABLE_HEADER_SIZE
    ensures !Partial(h, p, 0)
  {
  }

  /** Every cut has such a k: the count of wholly written records. */
  lemma TruncatedLogCount(cfg: LogConfig, records: seq<Bytes>, file: Bytes)
    requires file <= LogBytes(cfg, 0, records)
    ensures var k := Whole(cfg, 0, records, |file|);
            && EndOf(cfg, records, k) <= |file|
            && (k < |records| ==> |file| < EndOf(cfg, records, k + 1))
  {
    hide LogBytes, Whole, RecordBytes;
    WholeIsMaximal(cfg, 0, records, |file|);
  }

  lemma SplitAt(cfg: LogConfig, records: seq<Bytes>, file: Bytes, k: nat)
    requires file <= LogBytes(cfg, 0, records)
    requires k <= |records| && EndOf(cfg, records, k) <= |file|
    requires k < |records| ==> |file| < EndOf(cfg, records, k + 1)
    ensures Has(file, 0, LogBytes(cfg, 0, records[..k]))
    ensures k == |records| ==> EndOf(cfg, records, k) == |file|
    ensures k < |records| ==>
              Cut(file, EndOf(cfg, records, k), RecordBytes(cfg, EndOf(cfg, records, k), records[k], true))
  {
    hide RecordBytes, LogBytes;
    var all := LogBytes(cfg, 0, records);
    var done := LogBytes(cfg, 0, records[..k]);
    assert records == records[..k] + records[k..];
    LogBytesConcat(cfg, 0, records[..k], records[k..]);
    assert done == all[..|done|] == file[..|done|];
    if k < |records| {
      assert records[..k + 1] == records[..k] + [records[k]];
      LogBytesAppend(cfg, 0, records[..k], records[k]);
      assert records == records[..k + 1] + records[k + 1..];
      LogBytesConcat(cfg, 0, records[..k + 1], records[k + 1..]);
      var r := RecordBytes(cfg, |done|, records[k], true);
      assert (done + r)[..|file|][|done|..] == r[..|file| - |done|];
      assert file == (done + r)[..|file|];
    } else {
      assert records[..k] == records;
    }
  }

  /** A complete log is read back exactly, in order, without a report, in every mode, with or
      without checksums, recyclable or not. */
  lemma RoundTrip(cfg: LogConfig, rc: ReaderConfig, mode: Mode, records: seq<Bytes>)
    requires Matches(cfg, rc)
    ensures ReadFile(LogBytes(cfg, 0, records), rc, mode) == Transcript(records, NoMore, [])
  {
    hide ReadAll, LogBytes, Matches;
    var file := LogBytes(cfg, 0, records);
    assert records[..|records|] == records;
    TruncatedLog(cfg, rc, mode, records, file, |records|);
  }

  /** Choosing checksums moves no byte. */
  lemma {:induction false} ChecksumChoiceKeepsRecordSize(cfg: LogConfig, p: nat, data: Bytes, begin: bool)
    ensures |RecordBytes(cfg.(withChecksum := !cfg.withChecksum), p, data, begin)| == |RecordBytes(cfg, p, data, begin)|
    decreases |RecordBytes(cfg, p, data, begin)|
  {
    hide RecordBytes, FirstPiece, FragmentLength, Pad;
    var other := cfg.(withChecksum := !cfg.withChecksum);
    RecordBytesStep(cfg, p, data, begin);
    RecordBytesStep(other, p, data, begin);
    var h := cfg.HeaderSize();
    var k := FragmentLength(h, p, |data|);
    if k < |data| {
      ChecksumChoiceKeepsRecordSize(cfg, AfterFragment(h, p, |data|), data[k..], false);
    }
  }

  lemma {:induction false} ChecksumChoiceKeepsOffsets(cfg: LogConfig, p: nat, records: seq<Bytes>)
    ensures |LogBytes(cfg.(withChecksum := !cfg.withChecksum), p, records)| == |LogBytes(cfg, p, records)|
    decreases |records|
  {
    hide RecordBytes;
    if records != [] {
      ChecksumChoiceKeepsRecordSize(cfg, p, records[0], true);
      ChecksumChoiceKeepsOffsets(cfg, p + |RecordBytes(cfg, p, records[0], true)|, records[1..]);
    }
  }

  // ----- records of another log number -----

  lemma ParseOld(crc: Checksum, n: nat, rc: ReaderConfig, t: Byte, payload: Bytes, h: Bytes)
    requires IsRecyclableType(t) && |payload| <= 0xffff && n % 0x1_0000_0000 != rc.logNumber
    requires var fr := Frame(crc, n, t, payload); |fr| <= |h| && h[..|fr|] == fr
    ensures h[6] == t
    ensures ParseBuffer(rc, h) == Found(OLD_RECORD, [], 0, RECYCLABLE_HEADER_SIZE + |payload|)
  {
    hide Fixed32, DecodeFixed32, Frame, FrameHeader, IsRecyclableType;
    var fr := Frame(crc, n, t, payload);
    FrameBytes(crc, n, t, payload);
    assert h[4] == fr[4] && h[5] == fr[5] && h[6] == fr[6];
    Fixed32RoundTrip(n % 0x1_0000_0000);
    assert h[7..11] == fr[7..11];
  }

  /** A complete frame of another log number is recognised as such before anything else is looked at. */
  lemma ReadOldFrame(crc: Checksum, n: nat, rc: ReaderConfig, t: Byte, payload: Bytes, file: Bytes, c: Cursor)
    requires IsRecyclableType(t) && |payload| <= 0xffff && n % 0x1_0000_0000 != rc.logNumber
    requires c.Ok(file) && (c.firstRead ==> c.recycled)
    requires Has(file, c.at, Frame(crc, n, t, payload))
    requires c.at % BLOCK_SIZE + RECYCLABLE_HEADER_SIZE + |payload| <= BLOCK_SIZE
    ensures var ph := ReadPhysical(file, rc, c);
            && ph.Physical? && ph.code == OLD_RECORD
            && ph.next.at == c.at + RECYCLABLE_HEADER_SIZE + |payload|
            && ph.next.recycled && ph.next.firstRead == c.firstRead
  {
    hide ParseBuffer, Frame, IsRecyclableType;
    var d := Loaded(file, c);
    LoadedBuffer(file, c);
    ReadLoaded(file, rc, c);
    var fr := Frame(crc, n, t, payload);
    var h := file[d.at..d.end];
    assert d.at + |fr| <= d.end;
    assert h[..|fr|] == file[d.at..d.at + |fr|];
    ParseOld(crc, n, rc, t, payload, h);
    assert file[d.at + 6] == h[6];
  }

  /** A recycled file: the log, then a complete record of an earlier use of the file. It ends the log
      like the end of the file does, except in the mode that skips anything bad, where reading goes
      on behind it. */
  lemma StaleRecordEndsLog(cfg: LogConfig, rc: ReaderConfig, mode: Mode, records: seq<Bytes>,
                           n: nat, t: Byte, payload: Bytes, rest: Bytes) returns (behind: ReaderState)
    requires Matches(cfg, rc) && cfg.recycle
    requires IsRecyclableType(t) && n % 0x1_0000_0000 != rc.logNumber
    requires |payload| <= Room(cfg.HeaderSize(), |LogBytes(cfg, 0, records)|)
    ensures var e := |LogBytes(cfg, 0, records)|;
            var pad := Zeros(Pad(cfg.HeaderSize(), e));
            var file := LogBytes(cfg, 0, records) + pad + Frame(cfg.crc, n, t, payload) + rest;
            && (mode != SkipAnyCorruptedRecords ==>
                  ReadFile(file, rc, mode)
                  == Transcript(records, NoMore, if mode == PointInTimeRecovery then [OldLogRecord(0)] else []))
            && behind.cursor.Ok(file) && behind.reports == []
            && behind.cursor.at == |file| - |rest|
            && (mode == SkipAnyCorruptedRecords ==>
                  var more := ReadAll(file, rc, mode, behind);
                  ReadFile(file, rc, mode) == more.(records := records + more.records))
  {
    hide ReadOne, ReadPhysical, LogBytes, Frame, Matches, IsRecyclableType, PastPadding;
    var h := cfg.HeaderSize();
    var log := LogBytes(cfg, 0, records);
    var e := |log|;
    var pad := Zeros(Pad(h, e));
    var fr := Frame(cfg.crc, n, t, payload);
    var file := log + pad + fr + rest;
    Placed(log, pad, fr, rest);
    var s := ReadRecords(cfg, rc, mode, file, ReaderState(START, []), records);
    SkipPadding(h, rc, mode, file, s);
    var s0 := s.(cursor := PastPadding(h, file, s.cursor));
    ReadOldFrame(cfg.crc, n, rc, t, payload, file, s0.cursor);
    behind := s0.(cursor := ReadPhysical(file, rc, s0.cursor).next);
    OldRecordTurn(rc, mode, file, s0);
    SameTranscript(rc, mode, file, s, s0);
    if mode == SkipAnyCorruptedRecords {
      SameTranscript(rc, mode, file, s0, behind);
    } else {
      assert records + [] == records;
    }
  }

  lemma Placed(a: Bytes, b: Bytes, c: Bytes, d: Bytes)
    ensures var f := a + b + c + d;
            Has(f, 0, a) && Has(f, |a|, b) && Has(f, |a| + |b|, c)
  {
  }

  lemma SameTranscript(rc: ReaderConfig, mode: Mode, file: Bytes, s: ReaderState, s': ReaderState)
    requires s.cursor.Ok(file) && s'.cursor.Ok(file)
    requires ReadOne(file, rc, mode, s, [], false) == ReadOne(file, rc, mode, s', [], false)
    ensures ReadAll(file, rc, mode, s) == ReadAll(file, rc, mode, s')
  {
    hide ReadOne;
  }

  /** What the loop does with an old record outside a fragmented one. */
  lemma OldRecordTurn(rc: ReaderConfig, mode: Mode, file: Bytes, s: ReaderState)
    requires s.cursor.Ok(file)
    requires var ph := ReadPhysical(file, rc, s.cursor); ph.Physical? && ph.code == OLD_RECORD
    ensures var t := s.(cursor := ReadPhysical(file, rc, s.cursor).next);
            ReadOne(file, rc, mode, s, [], false)
            == if mode == SkipAnyCorruptedRecords then ReadOne(file, rc, mode, t, [], false)
               else (NoMore, if mode == PointInTimeRecovery then t.(reports := s.reports + [OldLogRecord(0)]) else t)
  {
    hide ReadPhysical;
    assert s.reports + [] == s.reports;
  }

  // ----- a recycled file whose last record was cut between two fragments -----

  /** A record of more than j fragments, from offset p on. */
  ghost predicate Splits(cfg: LogConfig, p: nat, data: Bytes, j: nat)
    decreases j
  {
    var k := FragmentLength(cfg.HeaderSize(), p, |data|);
    j > 0 ==> k < |data| && Splits(cfg, AfterFragment(cfg.HeaderSize(), p, |data|), data[k..], j - 1)
  }

  /** How much of the payload the first j fragments hold. */
  ghost function Taken(cfg: LogConfig, p: nat, data: Bytes, j: nat): (n: nat)
    requires Splits(cfg, p, data, j)
    ensures n <= |data|
    decreases j
  {
    if j == 0 then 0
    else
      var k := FragmentLength(cfg.HeaderSize(), p, |data|);
      k + Taken(cfg, AfterFragment(cfg.HeaderSize(), p, |data|), data[k..], j - 1)
  }

  /** The bytes of the first j fragments of a record: a prefix of the bytes of the record. */
  ghost function FirstPieces(cfg: LogConfig, p: nat, data: Bytes, begin: bool, j: nat): Bytes
    requires Splits(cfg, p, data, j)
    decreases j
  {
    if j == 0 then []
    else
      var k := FragmentLength(cfg.HeaderSize(), p, |data|);
      FirstPiece(cfg, p, data, begin)
      + FirstPieces(cfg, AfterFragment(cfg.HeaderSize(), p, |data|), data[k..], false, j - 1)
  }

  lemma {:induction false} FirstPiecesArePrefix(cfg: LogConfig, p: nat, data: Bytes, begin: bool, j: nat)
    requires Splits(cfg, p, data, j)
    ensures FirstPieces(cfg, p, data, begin, j) <= RecordBytes(cfg, p, data, begin)
    decreases j
  {
    hide RecordBytes, FirstPiece;
    if j > 0 {
      var k := FragmentLength(cfg.HeaderSize(), p, |data|);
      RecordBytesStep(cfg, p, data, begin);
      FirstPiecesArePrefix(cfg, AfterFragment(cfg.HeaderSize(), p, |data|), data[k..], false, j - 1);
    }
  }

  /** The loop in `ReadRecord` collects the fragments that are there. */
  lemma {:induction false} ReadFirstPieces(cfg: LogConfig, rc: ReaderConfig, mode: Mode, file: Bytes,
                                           s: ReaderState, data: Bytes, begin: bool, scratch: Bytes, j: nat)
    returns (s': ReaderState)
    requires Matches(cfg, rc) && s.cursor.Ok(file) && Fits(cfg, s.cursor)
    requires Splits(cfg, s.cursor.at, data, j)
    requires Has(file, s.cursor.at, FirstPieces(cfg, s.cursor.at, data, begin, j))
    requires if begin then scratch == [] && j > 0 else s.cursor.at % BLOCK_SIZE == 0
    ensures s'.cursor.Ok(file) && Fits(cfg, s'.cursor) && s'.reports == s.reports
    ensures s'.cursor.at == s.cursor.at + |FirstPieces(cfg, s.cursor.at, data, begin, j)|
    ensures s'.cursor.recycled == (s.cursor.recycled || (cfg.recycle && j > 0))
    ensures s'.cursor.at % BLOCK_SIZE == 0
    ensures ReadOne(file, rc, mode, s, scratch, !begin)
         == ReadOne(file, rc, mode, s', scratch + data[..Taken(cfg, s.cursor.at, data, j)], true)
    decreases j
  {
    hide ReadOne, FirstPiece, FirstPieces, Splits, Taken, FragmentLength, AfterFragment, Cursor.Ok, Matches, Fits, Has;
    PiecesStep(cfg, s.cursor.at, data, begin, j);
    if j == 0 {
      s' := s;
      assert scratch + data[..0] == scratch;
    } else {
      var h := cfg.HeaderSize();
      var p := s.cursor.at;
      var k := FragmentLength(h, p, |data|);
      var q := AfterFragment(h, p, |data|);
      HasSplit(file, p, FirstPiece(cfg, p, data, begin), FirstPieces(cfg, q, data[k..], false, j - 1));
      var s1 := ReadPiece(cfg, rc, mode, file, s, data, begin, scratch);
      NonFinalFragmentFillsBlock(h, p, |data|);
      s' := ReadFirstPieces(cfg, rc, mode, file, s1, data[k..], false, scratch + data[..k], j - 1);
      var n := Taken(cfg, q, data[k..], j - 1);
      assert scratch + data[..k] + data[k..][..n] == scratch + data[..k + n];
    }
  }

  lemma PiecesStep(cfg: LogConfig, p: nat, data: Bytes, begin: bool, j: nat)
    requires Splits(cfg, p, data, j)
    ensures if j == 0 then FirstPieces(cfg, p, data, begin, j) == [] && Taken(cfg, p, data, j) == 0
            else
              var k := FragmentLength(cfg.HeaderSize(), p, |data|);
              var q := AfterFragment(cfg.HeaderSize(), p, |data|);
              && k < |data| && Splits(cfg, q, data[k..], j - 1)
              && Taken(cfg, p, data, j) == k + Taken(cfg, q, data[k..], j - 1)
              && FirstPieces(cfg, p, data, begin, j)
                 == FirstPiece(cfg, p, data, begin) + FirstPieces(cfg, q, data[k..], false, j - 1)
  {
    hide FirstPiece;
  }

  /** What the loop does with an old record inside a fragmented one. */
  lemma OldRecordInFragment(rc: ReaderConfig, mode: Mode, file: Bytes, s: ReaderState, scratch: Bytes)
    requires s.cursor.Ok(file)
    requires var ph := ReadPhysical(file, rc, s.cursor); ph.Physical? && ph.code == OLD_RECORD
    ensures var t := s.(cursor := ReadPhysical(file, rc, s.cursor).next);
            ReadOne(file, rc, mode, s, scratch, true)
            == if mode == SkipAnyCorruptedRecords then
                 ReadOne(file, rc, mode, t.(reports := s.reports + [Corruption(|scratch|, ErrorInMiddle)]), [], false)
               else (NoMore, if mode.Strict()
                             then t.(reports := s.reports + [Corruption(|scratch|, TrailingOldRecord)]) else t)
  {
    hide ReadPhysical;
    assert s.reports + [] == s.reports;
  }

  /** A recycled file: the log, the first j fragments of one more record, then a complete record of an
      earlier use of the file. The unfinished record is given up: silently in the tolerant mode, with its
      size reported in the strict ones; in the mode that skips anything bad, reading goes on behind. */
  lemma StaleRecordInsideRecord(cfg: LogConfig, rc: ReaderConfig, mode: Mode, records: seq<Bytes>,
                                data: Bytes, j: nat, n: nat, t: Byte, payload: Bytes, rest: Bytes)
    returns (behind: ReaderState)
    requires Matches(cfg, rc) && cfg.recycle
    requires j > 0 && Splits(cfg, |LogBytes(cfg, 0, records)|, data, j)
    requires IsRecyclableType(t) && n % 0x1_0000_0000 != rc.logNumber
    requires |payload| <= BLOCK_SIZE - RECYCLABLE_HEADER_SIZE
    ensures var log := LogBytes(cfg, 0, records);
            var file := log + FirstPieces(cfg, |log|, data, true, j) + Frame(cfg.crc, n, t, payload) + rest;
            var lost := Taken(cfg, |log|, data, j);
            && (mode != SkipAnyCorruptedRecords ==>
                  ReadFile(file, rc, mode)
                  == Transcript(records, NoMore, if mode.Strict() then [Corruption(lost, TrailingOldRecord)] else []))
            && behind.cursor.Ok(file) && behind.reports == [Corruption(lost, ErrorInMiddle)]
            && behind.cursor.at == |file| - |rest|
            && (mode == SkipAnyCorruptedRecords ==>
                  var more := ReadAll(file, rc, mode, behind);
                  ReadFile(file, rc, mode) == more.(records := records + more.records))
  {
    hide ReadOne, ReadPhysical, LogBytes, Frame, Matches, IsRecyclableType, FirstPieces, Taken, Splits;
    var log := LogBytes(cfg, 0, records);
    var pieces := FirstPieces(cfg, |log|, data, true, j);
    var fr := Frame(cfg.crc, n, t, payload);
    var file := log + pieces + fr + rest;
    Placed(log, pieces, fr, rest);
    var s := ReadRecords(cfg, rc, mode, file, ReaderState(START, []), records);
    var s1 := ReadFirstPieces(cfg, rc, mode, file, s, data, true, [], j);
    var scratch := [] + data[..Taken(cfg, |log|, data, j)];
    ReadOldFrame(cfg.crc, n, rc, t, payload, file, s1.cursor);
    OldRecordInFragment(rc, mode, file, s1, scratch);
    behind := ReaderState(ReadPhysical(file, rc, s1.cursor).next, [Corruption(|scratch|, ErrorInMiddle)]);
    assert forall r: Report :: s1.reports + [r] == [r];
    if mode == SkipAnyCorruptedRecords {
      SameTranscript(rc, mode, file, s, behind);
    } else {
      assert records + [] == records;
    }
  }

  // ----- log numbers wider than the header -----

  /** A recyclable log whose number needs more than 32 bits looks old to its own reader. */
  predicate TooWide(cfg: LogConfig, rc: ReaderConfig) {
    cfg.recycle && cfg.logNumber >= 0x1_0000_0000 && rc.logNumber == cfg.logNumber
  }

  /** The first piece of a record of such a log, seen outside a fragmented record. */
  lemma OldPiece(cfg: LogConfig, rc: ReaderConfig, mode: Mode, file: Bytes, s: ReaderState, data: Bytes, begin: bool)
      returns (s1: ReaderState)
    requires TooWide(cfg, rc) && s.cursor.Ok(file) && Fits(cfg, s.cursor)
    requires Has(file, s.cursor.at, FirstPiece(cfg, s.cursor.at, data, begin))
    ensures s1.cursor.Ok(file) && Fits(cfg, s1.cursor)
    ensures s1.cursor.at == AfterFragment(cfg.HeaderSize(), s.cursor.at, |data|)
    ensures s1.reports == s.reports
    ensures mode == SkipAnyCorruptedRecords ==>
              ReadOne(file, rc, mode, s, [], false) == ReadOne(file, rc, mode, s1, [], false)
    ensures mode != SkipAnyCorruptedRecords ==> ReadOne(file, rc, mode, s, [], false).0 == NoMore
  {
    hide ReadOne, ReadPhysical, Frame, DataType, PastPadding, Cursor.Ok, Has;
    var h := cfg.HeaderSize();
    var p := s.cursor.at;
    var k := FragmentLength(h, p, |data|);
    var t := DataType(cfg, begin, k == |data|);
    HasSplit(file, p, Zeros(Pad(h, p)), Frame(cfg.crc, cfg.logNumber, t, data[..k]));
    SkipPadding(h, rc, mode, file, s);
    var s0 := s.(cursor := PastPadding(h, file, s.cursor));
    ReadOldFrame(cfg.crc, cfg.logNumber, rc, t, data[..k], file, s0.cursor);
    OldRecordTurn(rc, mode, file, s0);
    s1 := s0.(cursor := ReadPhysical(file, rc, s0.cursor).next);
  }

  lemma {:induction false} SkipOldRecord(cfg: LogConfig, rc: ReaderConfig, file: Bytes, s: ReaderState, data: Bytes,
                                         begin: bool)
      returns (s': ReaderState)
    requires TooWide(cfg, rc) && s.cursor.Ok(file) && Fits(cfg, s.cursor)
    requires Has(file, s.cursor.at, RecordBytes(cfg, s.cursor.at, data, begin))
    ensures s'.cursor.Ok(file) && Fits(cfg, s'.cursor)
    ensures s'.cursor.at == s.cursor.at + |RecordBytes(cfg, s.cursor.at, data, begin)|
    ensures ReadOne(file, rc, SkipAnyCorruptedRecords, s, [], false)
         == ReadOne(file, rc, SkipAnyCorruptedRecords, s', [], false)
    decreases |RecordBytes(cfg, s.cursor.at, data, begin)|
  {
    hide *;
    var h := cfg.HeaderSize();
    var p := s.cursor.at;
    var k := FragmentLength(h, p, |data|);
    var q := AfterFragment(h, p, |data|);
    RecordBytesStep(cfg, p, data, begin);
    var piece := FirstPiece(cfg, p, data, begin);
    if k == |data| {
      assert piece + [] == piece;
      s' := OldPiece(cfg, rc, SkipAnyCorruptedRecords, file, s, data, begin);
    } else {
      HasSplit(file, p, piece, RecordBytes(cfg, q, data[k..], false));
      var s1 := OldPiece(cfg, rc, SkipAnyCorruptedRecords, file, s, data, begin);
      s' := SkipOldRecord(cfg, rc, file, s1, data[k..], false);
    }
  }

  lemma {:induction false} SkipOldLog(cfg: LogConfig, rc: ReaderConfig, file: Bytes, s: ReaderState,
                                      records: seq<Bytes>)
    requires TooWide(cfg, rc) && s.cursor.Ok(file) && Fits(cfg, s.cursor)
    requires Has(file, s.cursor.at, LogBytes(cfg, s.cursor.at, records))
    requires |file| == s.cursor.at + |LogBytes(cfg, s.cursor.at, records)|
    ensures ReadOne(file, rc, SkipAnyCorruptedRecords, s, [], false).0 == NoMore
    decreases |records|
  {
    hide RecordBytes, ReadOne, ReadPhysical, Cursor.Ok;
    var p := s.cursor.at;
    if records == [] {
      ReadAtFileEnd(rc, file, s.cursor);
      SwitchAtEnd(rc, SkipAnyCorruptedRecords, file, s, [], false);
    } else {
      var first := RecordBytes(cfg, p, records[0], true);
      HasSplit(file, p, first, LogBytes(cfg, p + |first|, records[1..]));
      var s1 := SkipOldRecord(cfg, rc, file, s, records[0], true);
      SkipOldLog(cfg, rc, file, s1, records[1..]);
    }
  }

  /** Nothing of such a log comes back, in any mode. */
  lemma TooWideReadsNothing(cfg: LogConfig, rc: ReaderConfig, mode: Mode, records: seq<Bytes>)
    requires TooWide(cfg, rc)
    ensures ReadFile(LogBytes(cfg, 0, records), rc, mode).records == []
  {
    hide RecordBytes, FirstPiece, ReadOne, ReadPhysical;
    var file := LogBytes(cfg, 0, records);
    var s := ReaderState(START, []);
    if mode == SkipAnyCorruptedRecords {
      SkipOldLog(cfg, rc, file, s, records);
    } else if records == [] {
      ReadAtFileEnd(rc, file, s.cursor);
      SwitchAtEnd(rc, mode, file, s, [], false);
    } else {
      var first := RecordBytes(cfg, 0, records[0], true);
      RecordBytesStep(cfg, 0, records[0], true);
      HasSplit(file, 0, first, LogBytes(cfg, |first|, records[1..]));
      var piece := FirstPiece(cfg, 0, records[0], true);
      assert first[..|piece|] == piece;
      HasSplit(file, 0, piece, first[|piece|..]);
      var s1 := OldPiece(cfg, rc, mode, file, s, records[0], true);
    }
  }

  /** The round trip holds exactly when the log number fits the 32 bits a recyclable header keeps
      (or nothing was written): the reader compares all 64 bits. */
  lemma RoundTripExactly(cfg: LogConfig, rc: ReaderConfig, mode: Mode, records: seq<Bytes>)
    requires cfg.crc.Lawful() && rc.crc == cfg.crc && rc.logNumber == cfg.logNumber
    ensures ReadFile(LogBytes(cfg, 0, records), rc, mode) == Transcript(records, NoMore, [])
        <==> (cfg.recycle && records != [] ==> cfg.logNumber < 0x1_0000_0000)
  {
    hide RecordBytes, ReadOne, ReadPhysical;
    if cfg.recycle && cfg.logNumber >= 0x1_0000_0000 {
      TooWideReadsNothing(cfg, rc, mode, records);
      if records == [] {
        var s := ReaderState(START, []);
        ReadAtFileEnd(rc, [], s.cursor);
        SwitchAtEnd(rc, mode, [], s, [], false);
      }
    } else {
      RoundTrip(cfg, rc, mode, records);
    }
  }
}
