/** What a reader makes of a damaged log: records, fragments without a beginning or an end, frames with a
    wrong checksum or length, blank space, frames of unknown types and of other logs, in any order. The
    expected transcript is stated over the parts of the file, without the reader. */
module LogDamage {
  import opened LogFormat
  import opened LogParse
  import opened LogRecovery

  datatype Segment =
    /** A record. */
    | Whole(data: Bytes)
    /** The first j fragments of a record. */
    | Begun(data: Bytes, j: nat)
    /** The fragments of a record without its beginning. */
    | Orphan(data: Bytes)
    /** A frame whose checksum or length is wrong, and whatever follows it in its block. */
    | Spoiled(bytes: Bytes, why: Reason)
    /** The same in a last block that the file does not fill. */
    | Ruined(bytes: Bytes, why: Reason)
    /** Zeros to the end of the block. */
    | Blank
    /** An intact frame of a type the reader does not know. */
    | Unknown(t: Byte, payload: Bytes)
    /** A frame of another log number. */
    | Stale(number: nat, t: Byte, payload: Bytes)

  /** The frame at the front of the bytes, which end with their block, has a wrong length, or else a wrong
      checksum that is looked at. */
  ghost predicate Damaged(rc: ReaderConfig, bytes: Bytes, why: Reason) {
    && |bytes| >= HEADER_SIZE && |bytes| >= TypeHeaderSize(bytes[6])
    && var t := bytes[6];
       var size := TypeHeaderSize(t) + (bytes[4] as int + 256 * (bytes[5] as int));
       match why
       case BadLength => size > |bytes|
       case ChecksumMismatch =>
         && size <= |bytes| && (t == ZERO_TYPE ==> size > HEADER_SIZE)
         && (IsRecyclableType(t) ==> DecodeFixed32(bytes[7..11]) == rc.logNumber)
         && rc.verify && !IsNoChecksumType(t)
         && rc.crc.value(bytes[6..size]) != rc.crc.unmask(DecodeFixed32(bytes[..4]))
       case _ => false
  }

  /** Neither data nor metadata, nor one of the codes the reader gives itself. */
  predicate IsUnknown(t: Byte) {
    && !IsFull(t) && !IsFirst(t) && !IsMiddle(t) && !IsLast(t) && !IsMetadata(t) && !IsRecyclableType(t)
    && !(EOF_CODE <= t <= BAD_RECORD_CHECKSUM)
  }

  /** How much of the block is left behind the padding at offset p. */
  function RestOfBlock(h: nat, p: nat): (n: nat)
    requires HEADER_SIZE <= h <= RECYCLABLE_HEADER_SIZE
    ensures n >= h
  {
    BLOCK_SIZE - (p + Pad(h, p)) % BLOCK_SIZE
  }

  /** The segment can stand at offset p, behind a record that has begun or not. */
  ghost predicate Stands(cfg: LogConfig, rc: ReaderConfig, p: nat, seg: Segment, open: bool) {
    match seg
    case Whole(_) => true
    case Begun(data, j) => j > 0 && Splits(cfg, p, data, j)
    case Orphan(_) => !open && p % BLOCK_SIZE == 0
    case Spoiled(bytes, why) =>
      && |bytes| == RestOfBlock(cfg.HeaderSize(), p) && Damaged(rc, bytes, why)
      && (LooksRecyclable(bytes) ==> cfg.recycle)
    case Ruined(bytes, why) =>
      && |bytes| < RestOfBlock(cfg.HeaderSize(), p) && Damaged(rc, bytes, why)
      && (LooksRecyclable(bytes) ==> cfg.recycle)
    case Blank => p % BLOCK_SIZE + HEADER_SIZE <= BLOCK_SIZE
    case Unknown(t, payload) =>
      IsUnknown(t) && (t == ZERO_TYPE ==> payload != []) && |payload| <= Room(cfg.HeaderSize(), p)
    case Stale(number, t, payload) =>
      && cfg.recycle && IsRecyclableType(t) && number % 0x1_0000_0000 != rc.logNumber
      && |payload| <= Room(cfg.HeaderSize(), p)
  }

  /** The first j fragments of a record, and how much of it they hold. */
  ghost function Fragments(cfg: LogConfig, p: nat, data: Bytes, j: nat): Bytes {
    if Splits(cfg, p, data, j) then FirstPieces(cfg, p, data, true, j) else []
  }

  ghost function Held(cfg: LogConfig, p: nat, data: Bytes, j: nat): nat {
    if Splits(cfg, p, data, j) then Taken(cfg, p, data, j) else 0
  }

  function FrameOf(crc: Checksum, number: nat, t: Byte, payload: Bytes): Bytes {
    if |payload| <= 0xffff then Frame(crc, number, t, payload) else []
  }

  predicate LooksRecyclable(bytes: Bytes) {
    |bytes| >= HEADER_SIZE && IsRecyclableType(bytes[6])
  }

  ghost function SegmentBytes(cfg: LogConfig, p: nat, seg: Segment): Bytes {
    var pad := Zeros(Pad(cfg.HeaderSize(), p));
    match seg
    case Whole(data) => RecordBytes(cfg, p, data, true)
    case Begun(data, j) => Fragments(cfg, p, data, j)
    case Orphan(data) => RecordBytes(cfg, p, data, false)
    case Spoiled(bytes, _) => pad + bytes
    case Ruined(bytes, _) => pad + bytes
    case Blank => Zeros(BLOCK_SIZE - p % BLOCK_SIZE)
    case Unknown(t, payload) => pad + FrameOf(cfg.crc, cfg.logNumber, t, payload)
    case Stale(number, t, payload) => pad + FrameOf(cfg.crc, number, t, payload)
  }

  /** A list of segments that fit one behind the other. */
  ghost predicate AllStand(cfg: LogConfig, rc: ReaderConfig, p: nat, segs: seq<Segment>, open: bool)
    decreases |segs|
  {
    segs != [] ==>
      && Stands(cfg, rc, p, segs[0], open) && (segs[0].Ruined? ==> |segs| == 1)
      && AllStand(cfg, rc, p + |SegmentBytes(cfg, p, segs[0])|, segs[1..], segs[0].Begun?)
  }

  ghost function AllBytes(cfg: LogConfig, p: nat, segs: seq<Segment>): Bytes
    decreases |segs|
  {
    if segs == [] then []
    else
      var first := SegmentBytes(cfg, p, segs[0]);
      first + AllBytes(cfg, p + |first|, segs[1..])
  }

  // ----- what is expected -----

  /** A record that has begun is given up because another begins. */
  function Interrupted(open: bool, size: nat): seq<Report> {
    if open && size > 0 then [Corruption(size, PartialRecordWithoutEnd)] else []
  }

  /** It is given up because of what follows it. */
  function GivenUp(open: bool, size: nat): seq<Report> {
    if open then [Corruption(size, ErrorInMiddle)] else []
  }

  /** Every fragment without a beginning is reported by itself. */
  function Missing(h: nat, p: nat, left: nat): seq<Report>
    requires HEADER_SIZE <= h <= RECYCLABLE_HEADER_SIZE
    decreases left, if Room(h, p) == 0 then 1 else 0
  {
    var k := FragmentLength(h, p, left);
    if k == left then [Corruption(k, MissingStart)]
    else
      NonFinalFragmentFillsBlock(h, p, left);
      [Corruption(k, MissingStart)] + Missing(h, AfterFragment(h, p, left), left - k)
  }

  function Before(records: seq<Bytes>, said: seq<Report>, t: Transcript): Transcript {
    Transcript(records + t.records, t.last, said + t.reports)
  }

  /** What is read: `size` bytes of a record are open or none is, and a recyclable frame was seen or not. */
  ghost function Expected(cfg: LogConfig, mode: Mode, p: nat, segs: seq<Segment>, open: bool,
                          size: nat, recycled: bool): Transcript
    decreases |segs|
  {
    if segs == [] then
      Transcript([], NoMore, if open && mode.Strict() then [Corruption(size, TrailingData)] else [])
    else
      var q := p + |SegmentBytes(cfg, p, segs[0])|;
      match segs[0]
      case Whole(data) =>
        Before([data], Interrupted(open, size),
               Expected(cfg, mode, q, segs[1..], false, 0, recycled || cfg.recycle))
      case Begun(data, j) =>
        Before([], Interrupted(open, size),
               Expected(cfg, mode, q, segs[1..], true, Held(cfg, p, data, j), recycled || cfg.recycle))
      case Orphan(data) =>
        Before([], Missing(cfg.HeaderSize(), p, |data|),
               Expected(cfg, mode, q, segs[1..], false, 0, recycled || cfg.recycle))
      case Spoiled(bytes, why) =>
        var recycled' := recycled || LooksRecyclable(bytes);
        if recycled' && mode.TolerateCorruptedTailRecords? then Transcript([], NoMore, [])
        else
          Before([], [Corruption(|bytes|, why)] + GivenUp(open, size),
                 Expected(cfg, mode, q, segs[1..], false, 0, recycled'))
      case Ruined(bytes, why) =>
        if why == BadLength then
          Transcript([], NoMore, if mode.Strict() then [Corruption(|bytes|, TruncatedBody)] else [])
        else if (recycled || LooksRecyclable(bytes)) && mode.TolerateCorruptedTailRecords? then
          Transcript([], NoMore, [])
        else Transcript([], NoMore, [Corruption(|bytes|, why)] + GivenUp(open, size))
      case Blank => Before([], GivenUp(open, size), Expected(cfg, mode, q, segs[1..], false, 0, recycled))
      case Unknown(t, payload) =>
        var said := if t < 128 then [Corruption(|payload| + (if open then size else 0), UnknownType)] else [];
        Before([], said, Expected(cfg, mode, q, segs[1..], false, 0, recycled))
      case Stale(_, _, _) =>
        if mode.SkipAnyCorruptedRecords? then
          Before([], GivenUp(open, size), Expected(cfg, mode, q, segs[1..], false, 0, true))
        else
          Transcript([], NoMore,
                     if open then if mode.Strict() then [Corruption(size, TrailingOldRecord)] else []
                     else if mode.PointInTimeRecovery? then [OldLogRecord(0)] else [])
  }

  // ----- reading on from inside a record -----

  ghost function Continue(file: Bytes, rc: ReaderConfig, mode: Mode, s: ReaderState, scratch: Bytes,
                          open: bool): Transcript
    requires s.cursor.Ok(file)
  {
    var (outcome, t) := ReadOne(file, rc, mode, s, scratch, open);
    if outcome.Record? then Before([outcome.data], [], ReadAll(file, rc, mode, t))
    else Transcript([], outcome, t.reports)
  }

  lemma FromTheStart(file: Bytes, rc: ReaderConfig, mode: Mode, s: ReaderState)
    requires s.cursor.Ok(file)
    ensures ReadAll(file, rc, mode, s) == Continue(file, rc, mode, s, [], false)
  {
    hide ReadOne;
    assert forall r: seq<Report> :: [] + r == r;
  }

  lemma SameRest(file: Bytes, rc: ReaderConfig, mode: Mode, s: ReaderState, scratch: Bytes, open: bool,
                 s': ReaderState, scratch': Bytes, open': bool)
    requires s.cursor.Ok(file) && s'.cursor.Ok(file)
    requires ReadOne(file, rc, mode, s, scratch, open) == ReadOne(file, rc, mode, s', scratch', open')
    ensures Continue(file, rc, mode, s, scratch, open) == Continue(file, rc, mode, s', scratch', open')
  {
    hide ReadOne, ReadAll;
  }

  /** Where the reader stands between two segments. */
  ghost predicate At(cfg: LogConfig, file: Bytes, s: ReaderState, p: nat, scratch: Bytes, open: bool, size: nat,
                     recycled: bool)
  {
    && s.cursor.Ok(file) && Fits(cfg, s.cursor) && s.cursor.at == p && s.cursor.recycled == recycled
    && |scratch| == size && (if open then p % BLOCK_SIZE == 0 else scratch == [])
  }

  // ----- the segments one by one -----

  /** The padding in front of a frame. */
  lemma PassPadding(cfg: LogConfig, rc: ReaderConfig, mode: Mode, file: Bytes, s: ReaderState, scratch: Bytes,
                    open: bool) returns (s': ReaderState)
    requires s.cursor.Ok(file) && Fits(cfg, s.cursor)
    requires if open then s.cursor.at % BLOCK_SIZE == 0 else scratch == []
    requires Has(file, s.cursor.at, Zeros(Pad(cfg.HeaderSize(), s.cursor.at)))
    ensures s'.cursor.Ok(file) && s'.reports == s.reports && Fits(cfg, s'.cursor)
    ensures s'.cursor.at == s.cursor.at + Pad(cfg.HeaderSize(), s.cursor.at)
    ensures s'.cursor.recycled == s.cursor.recycled && s'.cursor.firstRead == s.cursor.firstRead
    ensures ReadOne(file, rc, mode, s, scratch, open) == ReadOne(file, rc, mode, s', scratch, open)
  {
    hide ReadOne, PastPadding;
    var h := cfg.HeaderSize();
    s' := s.(cursor := PastPadding(h, file, s.cursor));
    if !open {
      SkipPadding(h, rc, mode, file, s);
    }
  }

  /** A record that begins while another is open ends that one, with a report. */
  lemma FreshStart(rc: ReaderConfig, mode: Mode, file: Bytes, s: ReaderState, scratch: Bytes)
    requires s.cursor.Ok(file)
    requires var ph := ReadPhysical(file, rc, s.cursor); ph.Physical? && (IsFull(ph.code) || IsFirst(ph.code))
    ensures ReadOne(file, rc, mode, s, scratch, true)
         == ReadOne(file, rc, mode, s.(reports := s.reports + Interrupted(true, |scratch|)), [], false)
  {
    hide ReadPhysical;
    var said := Interrupted(true, |scratch|);
    assert s.reports + said + [] == s.reports + said;
  }

  lemma BeginsHere(cfg: LogConfig, rc: ReaderConfig, mode: Mode, file: Bytes, s: ReaderState, scratch: Bytes,
                   open: bool, data: Bytes) returns (s': ReaderState)
    requires Matches(cfg, rc) && s.cursor.Ok(file) && Fits(cfg, s.cursor)
    requires if open then s.cursor.at % BLOCK_SIZE == 0 else scratch == []
    requires Has(file, s.cursor.at, FirstPiece(cfg, s.cursor.at, data, true))
    ensures s' == s.(reports := s.reports + Interrupted(open, |scratch|))
    ensures ReadOne(file, rc, mode, s, scratch, open) == ReadOne(file, rc, mode, s', [], false)
  {
    hide ReadOne, ReadPhysical, Frame, DataType, Matches, Has, Fits;
    s' := s.(reports := s.reports + Interrupted(open, |scratch|));
    if open {
      var h := cfg.HeaderSize();
      var k := FragmentLength(h, s.cursor.at, |data|);
      var fr := Frame(cfg.crc, cfg.logNumber, DataType(cfg, true, k == |data|), data[..k]);
      assert Pad(h, s.cursor.at) == 0;
      assert Zeros(0) + fr == fr;
      ReadFrame(cfg, rc, true, k == |data|, data[..k], file, s.cursor);
      FreshStart(rc, mode, file, s, scratch);
    } else {
      assert s.reports + [] == s.reports;
    }
  }

  lemma FirstPieceOf(cfg: LogConfig, rc: ReaderConfig, file: Bytes, p: nat, data: Bytes)
    requires Has(file, p, RecordBytes(cfg, p, data, true))
    ensures Has(file, p, FirstPiece(cfg, p, data, true))
  {
    hide RecordBytes, FirstPiece, Has;
    RecordBytesStep(cfg, p, data, true);
    var k := FragmentLength(cfg.HeaderSize(), p, |data|);
    HasSplit(file, p, FirstPiece(cfg, p, data, true),
             if k == |data| then []
             else RecordBytes(cfg, AfterFragment(cfg.HeaderSize(), p, |data|), data[k..], false));
  }

  lemma ReadWhole(cfg: LogConfig, rc: ReaderConfig, mode: Mode, file: Bytes, s: ReaderState, scratch: Bytes,
                  open: bool, data: Bytes) returns (s': ReaderState)
    requires Matches(cfg, rc) && At(cfg, file, s, s.cursor.at, scratch, open, |scratch|, s.cursor.recycled)
    requires Has(file, s.cursor.at, RecordBytes(cfg, s.cursor.at, data, true))
    ensures At(cfg, file, s', s.cursor.at + |RecordBytes(cfg, s.cursor.at, data, true)|, [], false, 0,
               s.cursor.recycled || cfg.recycle)
    ensures s'.reports == s.reports + Interrupted(open, |scratch|)
    ensures Continue(file, rc, mode, s, scratch, open)
         == Before([data], [], Continue(file, rc, mode, s', [], false))
  {
    hide ReadOne, ReadAll, RecordBytes, FirstPiece, Matches, Has;
    FirstPieceOf(cfg, rc, file, s.cursor.at, data);
    var s1 := BeginsHere(cfg, rc, mode, file, s, scratch, open, data);
    ReadWritten(cfg, rc, mode, file, s1, data, true, []);
    assert [] + data == data;
    s' := ReadOne(file, rc, mode, s1, [], false).1;
    FromTheStart(file, rc, mode, s');
  }

  lemma ReadBegun(cfg: LogConfig, rc: ReaderConfig, mode: Mode, file: Bytes, s: ReaderState, scratch: Bytes,
                  open: bool, data: Bytes, j: nat) returns (s': ReaderState, scratch': Bytes)
    requires Matches(cfg, rc) && At(cfg, file, s, s.cursor.at, scratch, open, |scratch|, s.cursor.recycled)
    requires j > 0 && Splits(cfg, s.cursor.at, data, j)
    requires Has(file, s.cursor.at, FirstPieces(cfg, s.cursor.at, data, true, j))
    ensures At(cfg, file, s', s.cursor.at + |FirstPieces(cfg, s.cursor.at, data, true, j)|, scratch', true,
               Taken(cfg, s.cursor.at, data, j), s.cursor.recycled || cfg.recycle)
    ensures s'.reports == s.reports + Interrupted(open, |scratch|)
    ensures Continue(file, rc, mode, s, scratch, open) == Continue(file, rc, mode, s', scratch', true)
  {
    hide ReadOne, ReadAll, FirstPieces, FirstPiece, Matches, Has, Splits, Taken, Continue;
    var p := s.cursor.at;
    PiecesStep(cfg, p, data, true, j);
    var k := FragmentLength(cfg.HeaderSize(), p, |data|);
    HasSplit(file, p, FirstPiece(cfg, p, data, true),
             FirstPieces(cfg, AfterFragment(cfg.HeaderSize(), p, |data|), data[k..], false, j - 1));
    var s1 := BeginsHere(cfg, rc, mode, file, s, scratch, open, data);
    s' := ReadFirstPieces(cfg, rc, mode, file, s1, data, true, [], j);
    scratch' := [] + data[..Taken(cfg, p, data, j)];
    SameRest(file, rc, mode, s, scratch, open, s', scratch', true);
  }

  /** One fragment without a beginning. */
  lemma ReadOrphanPiece(cfg: LogConfig, rc: ReaderConfig, mode: Mode, file: Bytes, s: ReaderState, data: Bytes)
    returns (s': ReaderState)
    requires Matches(cfg, rc) && s.cursor.Ok(file) && Fits(cfg, s.cursor) && s.cursor.at % BLOCK_SIZE == 0
    requires Has(file, s.cursor.at, FirstPiece(cfg, s.cursor.at, data, false))
    ensures var k := FragmentLength(cfg.HeaderSize(), s.cursor.at, |data|);
            && s'.reports == s.reports + [Corruption(k, MissingStart)]
            && s'.cursor.Ok(file) && Fits(cfg, s'.cursor)
            && s'.cursor.at == AfterFragment(cfg.HeaderSize(), s.cursor.at, |data|)
            && s'.cursor.recycled == (s.cursor.recycled || cfg.recycle)
            && ReadOne(file, rc, mode, s, [], false) == ReadOne(file, rc, mode, s', [], false)
  {
    hide ReadPhysical, Frame, DataType, Matches, Has, Fits;
    var h := cfg.HeaderSize();
    var k := FragmentLength(h, s.cursor.at, |data|);
    var fr := Frame(cfg.crc, cfg.logNumber, DataType(cfg, false, k == |data|), data[..k]);
    assert Pad(h, s.cursor.at) == 0;
    assert Zeros(0) + fr == fr;
    ReadFrame(cfg, rc, false, k == |data|, data[..k], file, s.cursor);
    s' := ReaderState(ReadPhysical(file, rc, s.cursor).next, s.reports + [Corruption(k, MissingStart)]);
  }

  lemma {:induction false} ReadOrphan(cfg: LogConfig, rc: ReaderConfig, mode: Mode, file: Bytes, s: ReaderState,
                                      data: Bytes) returns (s': ReaderState)
    requires Matches(cfg, rc) && s.cursor.Ok(file) && Fits(cfg, s.cursor) && s.cursor.at % BLOCK_SIZE == 0
    requires Has(file, s.cursor.at, RecordBytes(cfg, s.cursor.at, data, false))
    ensures s'.cursor.Ok(file) && Fits(cfg, s'.cursor) && s'.cursor.recycled == (s.cursor.recycled || cfg.recycle)
    ensures s'.cursor.at == s.cursor.at + |RecordBytes(cfg, s.cursor.at, data, false)|
    ensures s'.reports == s.reports + Missing(cfg.HeaderSize(), s.cursor.at, |data|)
    ensures ReadOne(file, rc, mode, s, [], false) == ReadOne(file, rc, mode, s', [], false)
    decreases |RecordBytes(cfg, s.cursor.at, data, false)|
  {
    hide ReadOne, RecordBytes, FirstPiece, Matches, Has, Fits, Cursor.Ok, FragmentLength, AfterFragment;
    var h, p := cfg.HeaderSize(), s.cursor.at;
    var k, q := FragmentLength(h, p, |data|), AfterFragment(h, p, |data|);
    RecordBytesStep(cfg, p, data, false);
    var piece := FirstPiece(cfg, p, data, false);
    var rest := if k == |data| then [] else RecordBytes(cfg, q, data[k..], false);
    HasSplit(file, p, piece, rest);
    var s1 := ReadOrphanPiece(cfg, rc, mode, file, s, data);
    if k == |data| {
      s' := s1;
    } else {
      NonFinalFragmentFillsBlock(h, p, |data|);
      s' := ReadOrphan(cfg, rc, mode, file, s1, data[k..]);
      assert s.reports + [Corruption(k, MissingStart)] + Missing(h, q, |data| - k)
          == s.reports + ([Corruption(k, MissingStart)] + Missing(h, q, |data| - k));
    }
  }

  lemma ParseSpoiled(rc: ReaderConfig, bytes: Bytes, why: Reason)
    requires Damaged(rc, bytes, why)
    ensures ParseBuffer(rc, bytes)
         == Found(if why == BadLength then BAD_RECORD_LEN else BAD_RECORD_CHECKSUM, [], |bytes|, |bytes|)
  {
    hide DecodeFixed32, IsRecyclableType;
  }

  lemma ReadSpoiled(rc: ReaderConfig, file: Bytes, c: Cursor, bytes: Bytes, why: Reason)
    requires c.Ok(file) && Has(file, c.at, bytes)
    requires || c.at % BLOCK_SIZE + |bytes| == BLOCK_SIZE
             || (c.at % BLOCK_SIZE + |bytes| < BLOCK_SIZE && c.at + |bytes| == |file|)
    requires Damaged(rc, bytes, why) && (LooksRecyclable(bytes) && c.firstRead ==> c.recycled)
    ensures var ph := ReadPhysical(file, rc, c);
            && ph.Physical? && ph.code == (if why == BadLength then BAD_RECORD_LEN else BAD_RECORD_CHECKSUM)
            && (why == BadLength || why == ChecksumMismatch) && ph.drop == |bytes|
            && ph.next.at == c.at + |bytes| && ph.next.Ok(file)
            && (ph.next.eof <==> c.at % BLOCK_SIZE + |bytes| < BLOCK_SIZE)
            && ph.next.recycled == (c.recycled || LooksRecyclable(bytes)) && ph.next.firstRead == c.firstRead
  {
    hide ReadPhysical, Damaged, LooksRecyclable, Has;
    var d := Loaded(file, c);
    DamagedHeader(rc, bytes, why);
    LoadsRest(file, c, bytes);
    ReadLoaded(file, rc, c);
    SpoiledAt(rc, file, d, bytes, why);
  }

  /** The buffer holds the bytes up to the end of the block or of the file. */
  lemma LoadsRest(file: Bytes, c: Cursor, bytes: Bytes)
    requires c.Ok(file) && Has(file, c.at, bytes) && bytes != []
    requires || c.at % BLOCK_SIZE + |bytes| == BLOCK_SIZE
             || (c.at % BLOCK_SIZE + |bytes| < BLOCK_SIZE && c.at + |bytes| == |file|)
    ensures var d := Loaded(file, c);
            && d.end == c.at + |bytes| && file[d.at..d.end] == bytes
            && (d.eof <==> c.at % BLOCK_SIZE + |bytes| < BLOCK_SIZE)
  {
    hide Loaded;
    LoadedBuffer(file, c);
    assert (c.at - c.at % BLOCK_SIZE) % BLOCK_SIZE == 0;
  }

  lemma SpoiledAt(rc: ReaderConfig, file: Bytes, d: Cursor, bytes: Bytes, why: Reason)
    requires d.Ok(file) && file[d.at..d.end] == bytes
    requires Damaged(rc, bytes, why) && (LooksRecyclable(bytes) && d.firstRead ==> d.recycled)
    ensures var ph := ReadPhysical(file, rc, d);
            && ph.Physical? && ph.code == (if why == BadLength then BAD_RECORD_LEN else BAD_RECORD_CHECKSUM)
            && (why == BadLength || why == ChecksumMismatch) && ph.drop == |bytes|
            && ph.next == d.(at := d.end, recycled := d.recycled || LooksRecyclable(bytes)) && ph.next.Ok(file)
  {
    hide ParseBuffer, IsRecyclableType;
    DamagedHeader(rc, bytes, why);
    assert |bytes| == d.end - d.at;
    assert file[d.at + 6] == bytes[6];
    ParseSpoiled(rc, bytes, why);
  }

  lemma DamagedHeader(rc: ReaderConfig, bytes: Bytes, why: Reason)
    requires Damaged(rc, bytes, why)
    ensures |bytes| >= HEADER_SIZE && |bytes| >= TypeHeaderSize(bytes[6])
    ensures why == BadLength || why == ChecksumMismatch
  {
  }

  /** A spoiled frame: tolerated at the end of a recycled log, else reported and passed over with its block. */
  lemma ReadDamage(cfg: LogConfig, rc: ReaderConfig, mode: Mode, file: Bytes, s: ReaderState, scratch: Bytes,
                   open: bool, bytes: Bytes, why: Reason) returns (s': ReaderState)
    requires At(cfg, file, s, s.cursor.at, scratch, open, |scratch|, s.cursor.recycled)
    requires Stands(cfg, rc, s.cursor.at, Spoiled(bytes, why), open)
    requires Has(file, s.cursor.at, Zeros(Pad(cfg.HeaderSize(), s.cursor.at)) + bytes)
    ensures var recycled := s.cursor.recycled || LooksRecyclable(bytes);
            if recycled && mode.TolerateCorruptedTailRecords? then
              Continue(file, rc, mode, s, scratch, open) == Transcript([], NoMore, s.reports)
            else
              && At(cfg, file, s', s.cursor.at + Pad(cfg.HeaderSize(), s.cursor.at) + |bytes|, [], false, 0, recycled)
              && s'.reports == s.reports + ([Corruption(|bytes|, why)] + GivenUp(open, |scratch|))
              && Continue(file, rc, mode, s, scratch, open) == Continue(file, rc, mode, s', [], false)
  {
    hide ReadOne, ReadPhysical, ReadAll, Damaged, Has, IsRecyclableType, Pad;
    var h := cfg.HeaderSize();
    HasSplit(file, s.cursor.at, Zeros(Pad(h, s.cursor.at)), bytes);
    var s0 := PassPadding(cfg, rc, mode, file, s, scratch, open);
    ReadSpoiled(rc, file, s0.cursor, bytes, why);
    s' := SpoiledTurn(rc, mode, file, s0, scratch, open, why);
  }

  lemma SpoiledTurn(rc: ReaderConfig, mode: Mode, file: Bytes, s: ReaderState, scratch: Bytes, open: bool, why: Reason)
    returns (s': ReaderState)
    requires s.cursor.Ok(file) && (!open ==> scratch == [])
    requires var ph := ReadPhysical(file, rc, s.cursor);
             && ph.Physical? && (why == ChecksumMismatch || (why == BadLength && !ph.next.eof))
             && ph.code == (if why == BadLength then BAD_RECORD_LEN else BAD_RECORD_CHECKSUM)
    ensures var ph := ReadPhysical(file, rc, s.cursor);
            if ph.next.recycled && mode.TolerateCorruptedTailRecords? then
              ReadOne(file, rc, mode, s, scratch, open) == (NoMore, ReaderState(ph.next, s.reports))
            else
              && s' == ReaderState(ph.next, s.reports + ([Corruption(ph.drop, why)] + GivenUp(open, |scratch|)))
              && ReadOne(file, rc, mode, s, scratch, open) == ReadOne(file, rc, mode, s', [], false)
  {
    hide ReadPhysical;
    var ph := ReadPhysical(file, rc, s.cursor);
    s' := ReaderState(ph.next, s.reports + ([Corruption(ph.drop, why)] + GivenUp(open, |scratch|)));
    assert [Corruption(ph.drop, why)] + [Corruption(|scratch|, ErrorInMiddle)]
        == [Corruption(ph.drop, why), Corruption(|scratch|, ErrorInMiddle)];
    assert [Corruption(ph.drop, why)] + [] == [Corruption(ph.drop, why)];
    assert s.reports + [] == s.reports;
  }

  /** Damage in a last block that is not full ends the file. */
  lemma ReadRuined(cfg: LogConfig, rc: ReaderConfig, mode: Mode, file: Bytes, s: ReaderState, scratch: Bytes,
                   open: bool, bytes: Bytes, why: Reason)
    requires At(cfg, file, s, s.cursor.at, scratch, open, |scratch|, s.cursor.recycled)
    requires Stands(cfg, rc, s.cursor.at, Ruined(bytes, why), open)
    requires Has(file, s.cursor.at, Zeros(Pad(cfg.HeaderSize(), s.cursor.at)) + bytes)
    requires |file| == s.cursor.at + Pad(cfg.HeaderSize(), s.cursor.at) + |bytes|
    ensures Continue(file, rc, mode, s, scratch, open)
         == Transcript([], NoMore, s.reports
              + if why == BadLength then if mode.Strict() then [Corruption(|bytes|, TruncatedBody)] else []
                else if (s.cursor.recycled || LooksRecyclable(bytes)) && mode.TolerateCorruptedTailRecords? then []
                else [Corruption(|bytes|, why)] + GivenUp(open, |scratch|))
  {
    hide ReadOne, ReadPhysical, ReadAll, Damaged, Has, LooksRecyclable, Pad, Fits;
    HasSplit(file, s.cursor.at, Zeros(Pad(cfg.HeaderSize(), s.cursor.at)), bytes);
    var s0 := PassPadding(cfg, rc, mode, file, s, scratch, open);
    RecyclableFits(cfg, s0.cursor, bytes);
    ReadSpoiled(rc, file, s0.cursor, bytes, why);
    assert s.reports + [] == s.reports;
    if why == BadLength {
      SwitchAtEnd(rc, mode, file, s0, scratch, open);
    } else {
      var s' := SpoiledTurn(rc, mode, file, s0, scratch, open, why);
      if !((s.cursor.recycled || LooksRecyclable(bytes)) && mode.TolerateCorruptedTailRecords?) {
        SameRest(file, rc, mode, s, scratch, open, s', [], false);
        ReadEnd(cfg, rc, mode, file, s', [], false);
      }
    }
  }

  lemma RecyclableFits(cfg: LogConfig, c: Cursor, bytes: Bytes)
    requires Fits(cfg, c) && (LooksRecyclable(bytes) ==> cfg.recycle)
    ensures LooksRecyclable(bytes) && c.firstRead ==> c.recycled
  {
  }

  lemma ReadBlank(cfg: LogConfig, rc: ReaderConfig, mode: Mode, file: Bytes, s: ReaderState, scratch: Bytes,
                  open: bool) returns (s': ReaderState)
    requires At(cfg, file, s, s.cursor.at, scratch, open, |scratch|, s.cursor.recycled)
    requires s.cursor.at % BLOCK_SIZE + HEADER_SIZE <= BLOCK_SIZE
    requires Has(file, s.cursor.at, Zeros(BLOCK_SIZE - s.cursor.at % BLOCK_SIZE))
    ensures At(cfg, file, s', s.cursor.at + (BLOCK_SIZE - s.cursor.at % BLOCK_SIZE), [], false, 0, s.cursor.recycled)
    ensures s'.reports == s.reports + GivenUp(open, |scratch|)
    ensures ReadOne(file, rc, mode, s, scratch, open) == ReadOne(file, rc, mode, s', [], false)
  {
    hide ReadPhysical;
    var c := Loaded(file, s.cursor);
    LoadedBuffer(file, s.cursor);
    ReadLoaded(file, rc, s.cursor);
    ReadLongPadding(rc, file, c);
    s' := ReaderState(c.(at := c.end), s.reports + GivenUp(open, |scratch|));
  }

  lemma ParseUnknown(cfg: LogConfig, rc: ReaderConfig, t: Byte, payload: Bytes, h: Bytes)
    requires Matches(cfg, rc) && |payload| <= 0xffff && IsUnknown(t) && (t == ZERO_TYPE ==> payload != [])
    requires var fr := Frame(cfg.crc, cfg.logNumber, t, payload); |fr| <= |h| && h[..|fr|] == fr
    ensures h[6] == t && ParseBuffer(rc, h) == Found(t, payload, 0, HEADER_SIZE + |payload|)
  {
    hide Fixed32, DecodeFixed32, Frame, FrameHeader;
    var fr := Frame(cfg.crc, cfg.logNumber, t, payload);
    FrameBytes(cfg.crc, cfg.logNumber, t, payload);
    assert h[4] == fr[4] && h[5] == fr[5] && h[6] == fr[6];
    assert h[..4] == fr[..4];
    Fixed32RoundTrip(FrameCrc(cfg.crc, cfg.logNumber, t, payload));
    FrameChecked(cfg.crc, cfg.logNumber, t, payload);
    assert h[6..|fr|] == fr[6..];
    assert h[HEADER_SIZE..|fr|] == fr[HEADER_SIZE..];
  }

  lemma ReadUnknownFrame(cfg: LogConfig, rc: ReaderConfig, t: Byte, payload: Bytes, file: Bytes, c: Cursor)
    requires Matches(cfg, rc) && |payload| <= 0xffff && IsUnknown(t) && (t == ZERO_TYPE ==> payload != [])
    requires c.Ok(file) && Has(file, c.at, Frame(cfg.crc, cfg.logNumber, t, payload))
    requires c.at % BLOCK_SIZE + HEADER_SIZE + |payload| <= BLOCK_SIZE
    ensures var ph := ReadPhysical(file, rc, c);
            && ph.Physical? && ph.code == t && ph.fragment == payload && ph.next.Ok(file)
            && ph.next.at == c.at + HEADER_SIZE + |payload|
            && ph.next.recycled == c.recycled && ph.next.firstRead == c.firstRead
  {
    hide ParseBuffer, Frame, IsUnknown, Matches;
    var d := Loaded(file, c);
    LoadedBuffer(file, c);
    ReadLoaded(file, rc, c);
    UnknownHeader(t);
    var fr := Frame(cfg.crc, cfg.logNumber, t, payload);
    var h := file[d.at..d.end];
    assert d.at + |fr| <= d.end;
    assert h[..|fr|] == file[d.at..d.at + |fr|];
    ParseUnknown(cfg, rc, t, payload, h);
    assert file[d.at + 6] == h[6];
  }

  lemma SmallPayload(h: nat, p: nat)
    requires HEADER_SIZE <= h <= RECYCLABLE_HEADER_SIZE
    ensures Room(h, p) <= 0xffff
  {
  }

  lemma UnknownHeader(t: Byte)
    requires IsUnknown(t)
    ensures !IsRecyclableType(t) && TypeHeaderSize(t) == HEADER_SIZE
  {
  }

  lemma ReadUnknown(cfg: LogConfig, rc: ReaderConfig, mode: Mode, file: Bytes, s: ReaderState, scratch: Bytes,
                    open: bool, t: Byte, payload: Bytes) returns (s': ReaderState)
    requires Matches(cfg, rc) && At(cfg, file, s, s.cursor.at, scratch, open, |scratch|, s.cursor.recycled)
    requires Stands(cfg, rc, s.cursor.at, Unknown(t, payload), open)
    requires Has(file, s.cursor.at,
                 Zeros(Pad(cfg.HeaderSize(), s.cursor.at)) + Frame(cfg.crc, cfg.logNumber, t, payload))
    ensures At(cfg, file, s', s.cursor.at + Pad(cfg.HeaderSize(), s.cursor.at) + HEADER_SIZE + |payload|, [], false, 0,
               s.cursor.recycled)
    ensures s'.reports == s.reports
              + if t < 128 then [Corruption(|payload| + (if open then |scratch| else 0), UnknownType)] else []
    ensures ReadOne(file, rc, mode, s, scratch, open) == ReadOne(file, rc, mode, s', [], false)
  {
    hide ReadOne, ReadPhysical, Frame, Has, Matches, Fits, IsUnknown;
    HasSplit(file, s.cursor.at, Zeros(Pad(cfg.HeaderSize(), s.cursor.at)), Frame(cfg.crc, cfg.logNumber, t, payload));
    var s0 := PassPadding(cfg, rc, mode, file, s, scratch, open);
    ReadUnknownFrame(cfg, rc, t, payload, file, s0.cursor);
    s' := UnknownTurn(rc, mode, file, s0, scratch, open, t, payload);
    StillFits(cfg, s0.cursor, s'.cursor);
  }

  lemma StillFits(cfg: LogConfig, c: Cursor, d: Cursor)
    requires Fits(cfg, c) && d.recycled == c.recycled && d.firstRead == c.firstRead
    ensures Fits(cfg, d)
  {
  }

  lemma UnknownTurn(rc: ReaderConfig, mode: Mode, file: Bytes, s: ReaderState, scratch: Bytes, open: bool, t: Byte,
                    payload: Bytes) returns (s': ReaderState)
    requires s.cursor.Ok(file) && IsUnknown(t)
    requires var ph := ReadPhysical(file, rc, s.cursor); ph.Physical? && ph.code == t && ph.fragment == payload
    ensures s'.cursor == ReadPhysical(file, rc, s.cursor).next
    ensures s'.reports == s.reports
              + if t < 128 then [Corruption(|payload| + (if open then |scratch| else 0), UnknownType)] else []
    ensures ReadOne(file, rc, mode, s, scratch, open) == ReadOne(file, rc, mode, s', [], false)
  {
    hide ReadPhysical;
    var said := if t < 128 then [Corruption(|payload| + (if open then |scratch| else 0), UnknownType)] else [];
    s' := ReaderState(ReadPhysical(file, rc, s.cursor).next, s.reports + said);
  }

  lemma ReadStale(cfg: LogConfig, rc: ReaderConfig, mode: Mode, file: Bytes, s: ReaderState, scratch: Bytes,
                  open: bool, number: nat, t: Byte, payload: Bytes) returns (s': ReaderState)
    requires At(cfg, file, s, s.cursor.at, scratch, open, |scratch|, s.cursor.recycled)
    requires Stands(cfg, rc, s.cursor.at, Stale(number, t, payload), open)
    requires Has(file, s.cursor.at, Zeros(Pad(cfg.HeaderSize(), s.cursor.at)) + Frame(cfg.crc, number, t, payload))
    ensures var q := s.cursor.at + Pad(cfg.HeaderSize(), s.cursor.at) + |Frame(cfg.crc, number, t, payload)|;
            At(cfg, file, s', q, [], false, 0, true)
    ensures if mode.SkipAnyCorruptedRecords? then
              && s'.reports == s.reports + GivenUp(open, |scratch|)
              && ReadOne(file, rc, mode, s, scratch, open) == ReadOne(file, rc, mode, s', [], false)
            else
              var r := ReadOne(file, rc, mode, s, scratch, open);
              r.0 == NoMore && r.1.reports == s.reports
                + (if open then if mode.Strict() then [Corruption(|scratch|, TrailingOldRecord)] else []
                   else if mode.PointInTimeRecovery? then [OldLogRecord(0)] else [])
  {
    hide ReadOne, ReadPhysical, Frame, Has, IsRecyclableType;
    HasSplit(file, s.cursor.at, Zeros(Pad(cfg.HeaderSize(), s.cursor.at)), Frame(cfg.crc, number, t, payload));
    var s0 := PassPadding(cfg, rc, mode, file, s, scratch, open);
    ReadOldFrame(cfg.crc, number, rc, t, payload, file, s0.cursor);
    s' := ReaderState(ReadPhysical(file, rc, s0.cursor).next, s.reports + GivenUp(open, |scratch|));
    assert s.reports + [] == s.reports;
    if open {
      OldRecordInFragment(rc, mode, file, s0, scratch);
    } else {
      OldRecordTurn(rc, mode, file, s0);
    }
  }

  // ----- the theorem -----

  lemma ReadEnd(cfg: LogConfig, rc: ReaderConfig, mode: Mode, file: Bytes, s: ReaderState, scratch: Bytes, open: bool)
    requires s.cursor.Ok(file) && s.cursor.at == |file|
    ensures Continue(file, rc, mode, s, scratch, open)
         == Transcript([], NoMore,
                       s.reports + if open && mode.Strict() then [Corruption(|scratch|, TrailingData)] else [])
  {
    hide ReadOne, ReadAll, ReadPhysical;
    ReadAtFileEnd(rc, file, s.cursor);
    SwitchAtEnd(rc, mode, file, s, scratch, open);
    assert s.reports + [] == s.reports;
  }

  lemma BeforeTwice(records: seq<Bytes>, before: seq<Report>, said: seq<Report>, t: Transcript)
    ensures Before(records, [], Before([], before + said, t)) == Before([], before, Before(records, said, t))
  {
  }

  lemma SplitRest(cfg: LogConfig, rc: ReaderConfig, file: Bytes, p: nat, segs: seq<Segment>, open: bool)
    requires AllStand(cfg, rc, p, segs, open) && segs != []
    requires p <= |file| && file[p..] == AllBytes(cfg, p, segs)
    ensures var first := SegmentBytes(cfg, p, segs[0]);
            && Has(file, p, first) && p + |first| <= |file|
            && AllStand(cfg, rc, p + |first|, segs[1..], segs[0].Begun?)
            && file[p + |first|..] == AllBytes(cfg, p + |first|, segs[1..])
            && (segs[0].Ruined? ==> |file| == p + |first|)
  {
    hide SegmentBytes, Stands;
    var first := SegmentBytes(cfg, p, segs[0]);
    var rest := AllBytes(cfg, p + |first|, segs[1..]);
    assert file[p..] == first + rest;
    assert file[p..p + |first|] == file[p..][..|first|] == first;
    assert file[p + |first|..] == file[p..][|first|..] == rest;
  }

  lemma EndOfSegments(cfg: LogConfig, rc: ReaderConfig, mode: Mode, file: Bytes, s: ReaderState, scratch: Bytes,
                      open: bool)
    requires s.cursor.Ok(file)
    requires file[s.cursor.at..] == AllBytes(cfg, s.cursor.at, [])
    ensures Continue(file, rc, mode, s, scratch, open)
         == Before([], s.reports, Expected(cfg, mode, s.cursor.at, [], open, |scratch|, s.cursor.recycled))
  {
    hide Continue;
    assert |file[s.cursor.at..]| == 0;
    ReadEnd(cfg, rc, mode, file, s, scratch, open);
  }

  lemma NothingBefore(t: Transcript)
    ensures Before([], [], t) == t
  {
  }

  lemma StopsHere(file: Bytes, rc: ReaderConfig, mode: Mode, s: ReaderState, scratch: Bytes, open: bool,
                  said: seq<Report>)
    requires s.cursor.Ok(file)
    requires var r := ReadOne(file, rc, mode, s, scratch, open); r.0 == NoMore && r.1.reports == s.reports + said
    ensures Continue(file, rc, mode, s, scratch, open) == Before([], s.reports, Transcript([], NoMore, said))
  {
    hide ReadOne, ReadAll;
  }

  /** What a segment leads to: records and reports, and a state to go on from, or the end. */
  datatype Next = Next(go: bool, records: seq<Bytes>, said: seq<Report>, state: ReaderState, scratch: Bytes)

  /** It is read as expected. */
  ghost predicate StepOk(cfg: LogConfig, rc: ReaderConfig, mode: Mode, file: Bytes, s: ReaderState, segs: seq<Segment>,
                         scratch: Bytes, open: bool, next: Next)
    requires s.cursor.Ok(file) && segs != []
  {
    var q := s.cursor.at + |SegmentBytes(cfg, s.cursor.at, segs[0])|;
    var whole := Expected(cfg, mode, s.cursor.at, segs, open, |scratch|, s.cursor.recycled);
    if next.go then
      var s' := next.state;
      && At(cfg, file, s', q, next.scratch, segs[0].Begun?, |next.scratch|, s'.cursor.recycled)
      && s'.reports == s.reports + next.said
      && Continue(file, rc, mode, s, scratch, open)
         == Before(next.records, [], Continue(file, rc, mode, s', next.scratch, segs[0].Begun?))
      && whole == Before(next.records, next.said, Expected(cfg, mode, q, segs[1..], segs[0].Begun?,
                                                           |next.scratch|, s'.cursor.recycled))
    else Continue(file, rc, mode, s, scratch, open) == Before([], s.reports, whole)
  }

  lemma WholeStep(cfg: LogConfig, rc: ReaderConfig, mode: Mode, file: Bytes, s: ReaderState, segs: seq<Segment>,
                  scratch: Bytes, open: bool) returns (next: Next)
    requires Matches(cfg, rc) && At(cfg, file, s, s.cursor.at, scratch, open, |scratch|, s.cursor.recycled)
    requires segs != [] && AllStand(cfg, rc, s.cursor.at, segs, open)
    requires Has(file, s.cursor.at, SegmentBytes(cfg, s.cursor.at, segs[0]))
    requires segs[0].Whole?
    ensures StepOk(cfg, rc, mode, file, s, segs, scratch, open, next)
  {
    hide ReadOne, ReadAll, Continue, RecordBytes, FirstPieces, Frame, Matches, Has, Splits, Taken, Damaged, Pad, Room;
    hide Zeros, IsRecyclableType, LooksRecyclable, IsUnknown, Missing, Fits;
    var s' := ReadWhole(cfg, rc, mode, file, s, scratch, open, segs[0].data);
    next := Next(true, [segs[0].data], Interrupted(open, |scratch|), s', []);
  }

  lemma BegunStep(cfg: LogConfig, rc: ReaderConfig, mode: Mode, file: Bytes, s: ReaderState, segs: seq<Segment>,
                  scratch: Bytes, open: bool) returns (next: Next)
    requires Matches(cfg, rc) && At(cfg, file, s, s.cursor.at, scratch, open, |scratch|, s.cursor.recycled)
    requires segs != [] && AllStand(cfg, rc, s.cursor.at, segs, open)
    requires Has(file, s.cursor.at, SegmentBytes(cfg, s.cursor.at, segs[0]))
    requires segs[0].Begun?
    ensures StepOk(cfg, rc, mode, file, s, segs, scratch, open, next)
  {
    hide ReadOne, ReadAll, Continue, RecordBytes, FirstPieces, Frame, Matches, Has, Splits, Taken, Damaged, Pad, Room;
    hide Zeros, IsRecyclableType, LooksRecyclable, IsUnknown, Missing, Fits;
    var s', scratch' := ReadBegun(cfg, rc, mode, file, s, scratch, open, segs[0].data, segs[0].j);
    NothingBefore(Continue(file, rc, mode, s', scratch', true));
    next := Next(true, [], Interrupted(open, |scratch|), s', scratch');
  }

  lemma OrphanStep(cfg: LogConfig, rc: ReaderConfig, mode: Mode, file: Bytes, s: ReaderState, segs: seq<Segment>,
                   scratch: Bytes, open: bool) returns (next: Next)
    requires Matches(cfg, rc) && At(cfg, file, s, s.cursor.at, scratch, open, |scratch|, s.cursor.recycled)
    requires segs != [] && AllStand(cfg, rc, s.cursor.at, segs, open)
    requires Has(file, s.cursor.at, SegmentBytes(cfg, s.cursor.at, segs[0]))
    requires segs[0].Orphan?
    ensures StepOk(cfg, rc, mode, file, s, segs, scratch, open, next)
  {
    hide ReadOne, ReadAll, Continue, RecordBytes, FirstPieces, Frame, Matches, Has, Splits, Taken, Damaged, Pad, Room;
    hide Zeros, IsRecyclableType, LooksRecyclable, IsUnknown, Missing, Fits;
    var s' := ReadOrphan(cfg, rc, mode, file, s, segs[0].data);
    SameRest(file, rc, mode, s, scratch, open, s', [], false);
    NothingBefore(Continue(file, rc, mode, s', [], false));
    next := Next(true, [], Missing(cfg.HeaderSize(), s.cursor.at, |segs[0].data|), s', []);
  }

  lemma SpoiledStep(cfg: LogConfig, rc: ReaderConfig, mode: Mode, file: Bytes, s: ReaderState, segs: seq<Segment>,
                    scratch: Bytes, open: bool) returns (next: Next)
    requires Matches(cfg, rc) && At(cfg, file, s, s.cursor.at, scratch, open, |scratch|, s.cursor.recycled)
    requires segs != [] && AllStand(cfg, rc, s.cursor.at, segs, open)
    requires Has(file, s.cursor.at, SegmentBytes(cfg, s.cursor.at, segs[0]))
    requires segs[0].Spoiled?
    ensures StepOk(cfg, rc, mode, file, s, segs, scratch, open, next)
  {
    hide ReadOne, ReadAll, Continue, RecordBytes, FirstPieces, Frame, Matches, Has, Splits, Taken, Damaged, Pad, Room;
    hide Zeros, IsRecyclableType, LooksRecyclable, IsUnknown, Missing, Fits;
    var bytes, why := segs[0].bytes, segs[0].why;
    var s' := ReadDamage(cfg, rc, mode, file, s, scratch, open, bytes, why);
    if (s.cursor.recycled || LooksRecyclable(bytes)) && mode.TolerateCorruptedTailRecords? {
      assert s.reports + [] == s.reports;
      next := Next(false, [], [], s, []);
    } else {
      NothingBefore(Continue(file, rc, mode, s', [], false));
      next := Next(true, [], [Corruption(|bytes|, why)] + GivenUp(open, |scratch|), s', []);
    }
  }

  lemma RuinedStep(cfg: LogConfig, rc: ReaderConfig, mode: Mode, file: Bytes, s: ReaderState, segs: seq<Segment>,
                   scratch: Bytes, open: bool) returns (next: Next)
    requires Matches(cfg, rc) && At(cfg, file, s, s.cursor.at, scratch, open, |scratch|, s.cursor.recycled)
    requires segs != [] && AllStand(cfg, rc, s.cursor.at, segs, open)
    requires Has(file, s.cursor.at, SegmentBytes(cfg, s.cursor.at, segs[0]))
    requires segs[0].Ruined? && |file| == s.cursor.at + |SegmentBytes(cfg, s.cursor.at, segs[0])|
    ensures StepOk(cfg, rc, mode, file, s, segs, scratch, open, next)
  {
    hide ReadOne, ReadAll, Continue, RecordBytes, FirstPieces, Frame, Matches, Has, Splits, Taken, Damaged, Pad, Room;
    hide Zeros, IsRecyclableType, LooksRecyclable, IsUnknown, Missing, Fits;
    ReadRuined(cfg, rc, mode, file, s, scratch, open, segs[0].bytes, segs[0].why);
    next := Next(false, [], [], s, []);
  }

  lemma BlankStep(cfg: LogConfig, rc: ReaderConfig, mode: Mode, file: Bytes, s: ReaderState, segs: seq<Segment>,
                  scratch: Bytes, open: bool) returns (next: Next)
    requires Matches(cfg, rc) && At(cfg, file, s, s.cursor.at, scratch, open, |scratch|, s.cursor.recycled)
    requires segs != [] && AllStand(cfg, rc, s.cursor.at, segs, open)
    requires Has(file, s.cursor.at, SegmentBytes(cfg, s.cursor.at, segs[0]))
    requires segs[0].Blank?
    ensures StepOk(cfg, rc, mode, file, s, segs, scratch, open, next)
  {
    hide ReadOne, ReadAll, Continue, RecordBytes, FirstPieces, Frame, Matches, Has, Splits, Taken, Damaged, Pad, Room;
    hide Zeros, IsRecyclableType, LooksRecyclable, IsUnknown, Missing, Fits;
    var s' := ReadBlank(cfg, rc, mode, file, s, scratch, open);
    SameRest(file, rc, mode, s, scratch, open, s', [], false);
    NothingBefore(Continue(file, rc, mode, s', [], false));
    next := Next(true, [], GivenUp(open, |scratch|), s', []);
  }

  lemma UnknownStep(cfg: LogConfig, rc: ReaderConfig, mode: Mode, file: Bytes, s: ReaderState, segs: seq<Segment>,
                    scratch: Bytes, open: bool) returns (next: Next)
    requires Matches(cfg, rc) && At(cfg, file, s, s.cursor.at, scratch, open, |scratch|, s.cursor.recycled)
    requires segs != [] && AllStand(cfg, rc, s.cursor.at, segs, open)
    requires Has(file, s.cursor.at, SegmentBytes(cfg, s.cursor.at, segs[0]))
    requires segs[0].Unknown?
    ensures StepOk(cfg, rc, mode, file, s, segs, scratch, open, next)
  {
    hide ReadOne, ReadAll, Continue, RecordBytes, FirstPieces, Frame, Matches, Has, Splits, Taken, Damaged, Pad, Room;
    hide Zeros, IsRecyclableType, LooksRecyclable, IsUnknown, Missing, Fits;
    var t, payload := segs[0].t, segs[0].payload;
    SmallPayload(cfg.HeaderSize(), s.cursor.at);
    var s' := ReadUnknown(cfg, rc, mode, file, s, scratch, open, t, payload);
    UnknownHeader(t);
    SameRest(file, rc, mode, s, scratch, open, s', [], false);
    NothingBefore(Continue(file, rc, mode, s', [], false));
    var said := if t < 128 then [Corruption(|payload| + (if open then |scratch| else 0), UnknownType)] else [];
    next := Next(true, [], said, s', []);
  }

  lemma StaleStep(cfg: LogConfig, rc: ReaderConfig, mode: Mode, file: Bytes, s: ReaderState, segs: seq<Segment>,
                  scratch: Bytes, open: bool) returns (next: Next)
    requires Matches(cfg, rc) && At(cfg, file, s, s.cursor.at, scratch, open, |scratch|, s.cursor.recycled)
    requires segs != [] && AllStand(cfg, rc, s.cursor.at, segs, open)
    requires Has(file, s.cursor.at, SegmentBytes(cfg, s.cursor.at, segs[0]))
    requires segs[0].Stale?
    ensures StepOk(cfg, rc, mode, file, s, segs, scratch, open, next)
  {
    hide ReadOne, ReadAll, Continue, RecordBytes, FirstPieces, Frame, Matches, Has, Splits, Taken, Damaged, Pad, Room;
    hide Zeros, IsRecyclableType, LooksRecyclable, IsUnknown, Missing, Fits;
    SmallPayload(cfg.HeaderSize(), s.cursor.at);
    var s' := ReadStale(cfg, rc, mode, file, s, scratch, open, segs[0].number, segs[0].t, segs[0].payload);
    if mode.SkipAnyCorruptedRecords? {
      SameRest(file, rc, mode, s, scratch, open, s', [], false);
      NothingBefore(Continue(file, rc, mode, s', [], false));
      next := Next(true, [], GivenUp(open, |scratch|), s', []);
    } else {
      StopsHere(file, rc, mode, s, scratch, open,
                if open then if mode.Strict() then [Corruption(|scratch|, TrailingOldRecord)] else []
                else if mode.PointInTimeRecovery? then [OldLogRecord(0)] else []);
      next := Next(false, [], [], s, []);
    }
  }

  lemma OneSegment(cfg: LogConfig, rc: ReaderConfig, mode: Mode, file: Bytes, s: ReaderState, segs: seq<Segment>,
                   scratch: Bytes, open: bool) returns (next: Next)
    requires Matches(cfg, rc) && At(cfg, file, s, s.cursor.at, scratch, open, |scratch|, s.cursor.recycled)
    requires segs != [] && AllStand(cfg, rc, s.cursor.at, segs, open)
    requires Has(file, s.cursor.at, SegmentBytes(cfg, s.cursor.at, segs[0]))
    requires segs[0].Ruined? ==> |file| == s.cursor.at + |SegmentBytes(cfg, s.cursor.at, segs[0])|
    ensures StepOk(cfg, rc, mode, file, s, segs, scratch, open, next)
  {
    hide Matches, At, AllStand, Has, SegmentBytes, StepOk;
    match segs[0]
    case Whole(_) => next := WholeStep(cfg, rc, mode, file, s, segs, scratch, open);
    case Begun(_, _) => next := BegunStep(cfg, rc, mode, file, s, segs, scratch, open);
    case Orphan(_) => next := OrphanStep(cfg, rc, mode, file, s, segs, scratch, open);
    case Spoiled(_, _) => next := SpoiledStep(cfg, rc, mode, file, s, segs, scratch, open);
    case Ruined(_, _) => next := RuinedStep(cfg, rc, mode, file, s, segs, scratch, open);
    case Blank => next := BlankStep(cfg, rc, mode, file, s, segs, scratch, open);
    case Unknown(_, _) => next := UnknownStep(cfg, rc, mode, file, s, segs, scratch, open);
    case Stale(_, _, _) => next := StaleStep(cfg, rc, mode, file, s, segs, scratch, open);
  }

  /** From any place between two segments on, the reader finds what is expected. */
  lemma {:induction false} ReadSegments(cfg: LogConfig, rc: ReaderConfig, mode: Mode, file: Bytes, s: ReaderState,
                                        segs: seq<Segment>, scratch: Bytes, open: bool)
    requires Matches(cfg, rc) && At(cfg, file, s, s.cursor.at, scratch, open, |scratch|, s.cursor.recycled)
    requires AllStand(cfg, rc, s.cursor.at, segs, open)
    requires file[s.cursor.at..] == AllBytes(cfg, s.cursor.at, segs)
    ensures Continue(file, rc, mode, s, scratch, open)
         == Before([], s.reports, Expected(cfg, mode, s.cursor.at, segs, open, |scratch|, s.cursor.recycled))
    decreases |segs|
  {
    hide Continue, Expected, AllBytes, AllStand, SegmentBytes, Matches, Has, Fits, Before;
    if segs == [] {
      EndOfSegments(cfg, rc, mode, file, s, scratch, open);
    } else {
      SplitRest(cfg, rc, file, s.cursor.at, segs, open);
      var next := OneSegment(cfg, rc, mode, file, s, segs, scratch, open);
      if next.go {
        var s' := next.state;
        ReadSegments(cfg, rc, mode, file, s', segs[1..], next.scratch, segs[0].Begun?);
        var t := Expected(cfg, mode, s'.cursor.at, segs[1..], segs[0].Begun?, |next.scratch|, s'.cursor.recycled);
        BeforeTwice(next.records, s.reports, next.said, t);
      }
    }
  }

  /** A file made of any segments is read as expected, in every mode. */
  lemma DamagedLog(cfg: LogConfig, rc: ReaderConfig, mode: Mode, segs: seq<Segment>)
    requires Matches(cfg, rc) && AllStand(cfg, rc, 0, segs, false)
    ensures ReadFile(AllBytes(cfg, 0, segs), rc, mode)
         == Expected(cfg, mode, 0, segs, false, 0, false)
  {
    hide ReadAll, Continue, AllBytes, AllStand, Expected, Matches;
    var file := AllBytes(cfg, 0, segs);
    var s := ReaderState(START, []);
    assert file[0..] == file;
    ReadSegments(cfg, rc, mode, file, s, segs, [], false);
    FromTheStart(file, rc, mode, s);
    NothingBefore(Expected(cfg, mode, 0, segs, false, 0, false));
  }

  // ----- one damaged frame in a log -----

  function Wholes(records: seq<Bytes>): (segs: seq<Segment>)
    ensures |segs| == |records|
  {
    seq(|records|, i requires 0 <= i < |records| => Whole(records[i]))
  }

  lemma Cons(cfg: LogConfig, rc: ReaderConfig, p: nat, seg: Segment, rest: seq<Segment>, open: bool)
    requires Stands(cfg, rc, p, seg, open) && !seg.Ruined?
    requires AllStand(cfg, rc, p + |SegmentBytes(cfg, p, seg)|, rest, seg.Begun?)
    ensures AllStand(cfg, rc, p, [seg] + rest, open)
    ensures var first := SegmentBytes(cfg, p, seg);
            AllBytes(cfg, p, [seg] + rest) == first + AllBytes(cfg, p + |first|, rest)
  {
    hide Stands, SegmentBytes;
    assert ([seg] + rest)[0] == seg && ([seg] + rest)[1..] == rest;
  }

  lemma ExpectWhole(cfg: LogConfig, mode: Mode, p: nat, data: Bytes, rest: seq<Segment>, open: bool,
                    size: nat, recycled: bool)
    ensures Expected(cfg, mode, p, [Whole(data)] + rest, open, size, recycled)
         == Before([data], Interrupted(open, size), Expected(cfg, mode, p + |RecordBytes(cfg, p, data, true)|, rest,
                                                             false, 0, recycled || cfg.recycle))
  {
    hide RecordBytes, Interrupted, Before;
    assert ([Whole(data)] + rest)[0] == Whole(data) && ([Whole(data)] + rest)[1..] == rest;
  }

  lemma ExpectBegun(cfg: LogConfig, mode: Mode, p: nat, data: Bytes, j: nat, rest: seq<Segment>,
                    open: bool, size: nat, recycled: bool)
    ensures Expected(cfg, mode, p, [Begun(data, j)] + rest, open, size, recycled)
         == Before([], Interrupted(open, size),
                   Expected(cfg, mode, p + |Fragments(cfg, p, data, j)|, rest, true, Held(cfg, p, data, j),
                            recycled || cfg.recycle))
  {
    hide Fragments, Held, Interrupted, Before;
    assert ([Begun(data, j)] + rest)[0] == Begun(data, j) && ([Begun(data, j)] + rest)[1..] == rest;
  }

  lemma ExpectSpoiled(cfg: LogConfig, mode: Mode, p: nat, bytes: Bytes, why: Reason,
                      rest: seq<Segment>, open: bool, size: nat, recycled: bool)
    ensures var recycled' := recycled || LooksRecyclable(bytes);
            Expected(cfg, mode, p, [Spoiled(bytes, why)] + rest, open, size, recycled)
            == if recycled' && mode.TolerateCorruptedTailRecords? then Transcript([], NoMore, [])
               else
                 Before([], [Corruption(|bytes|, why)] + GivenUp(open, size),
                        Expected(cfg, mode, p + Pad(cfg.HeaderSize(), p) + |bytes|, rest, false, 0, recycled'))
  {
    hide Pad, GivenUp, Before, LooksRecyclable;
    assert ([Spoiled(bytes, why)] + rest)[0] == Spoiled(bytes, why) && ([Spoiled(bytes, why)] + rest)[1..] == rest;
  }

  /** Intact records in front of other segments. */
  lemma {:induction false} RecordsFirst(cfg: LogConfig, rc: ReaderConfig, mode: Mode, p: nat, records: seq<Bytes>,
                                        rest: seq<Segment>, recycled: bool)
    requires AllStand(cfg, rc, p + |LogBytes(cfg, p, records)|, rest, false)
    ensures AllStand(cfg, rc, p, Wholes(records) + rest, false)
    ensures AllBytes(cfg, p, Wholes(records) + rest)
         == LogBytes(cfg, p, records) + AllBytes(cfg, p + |LogBytes(cfg, p, records)|, rest)
    ensures Expected(cfg, mode, p, Wholes(records) + rest, false, 0, recycled)
         == Before(records, [], Expected(cfg, mode, p + |LogBytes(cfg, p, records)|, rest, false, 0,
                                         recycled || (cfg.recycle && records != [])))
    decreases |records|
  {
    hide RecordBytes, Expected, AllStand, AllBytes;
    var segs := Wholes(records) + rest;
    if records == [] {
      assert segs == rest;
      assert [] + AllBytes(cfg, p, rest) == AllBytes(cfg, p, rest);
      NothingBefore(Expected(cfg, mode, p, rest, false, 0, recycled));
    } else {
      var first := RecordBytes(cfg, p, records[0], true);
      var q := p + |first|;
      assert segs == [Whole(records[0])] + (Wholes(records[1..]) + rest);
      RecordsFirst(cfg, rc, mode, q, records[1..], rest, recycled || cfg.recycle);
      Cons(cfg, rc, p, Whole(records[0]), Wholes(records[1..]) + rest, false);
      ExpectWhole(cfg, mode, p, records[0], Wholes(records[1..]) + rest, false, 0, recycled);
      var more := LogBytes(cfg, q, records[1..]);
      Assoc(first, more, AllBytes(cfg, q + |more|, rest));
      var t := Expected(cfg, mode, q + |more|, rest, false, 0, recycled || cfg.recycle);
      assert [records[0]] + (records[1..] + t.records) == records + t.records;
      assert [] + ([] + t.reports) == t.reports;
    }
  }

  lemma JustRecords(cfg: LogConfig, rc: ReaderConfig, mode: Mode, p: nat, records: seq<Bytes>, recycled: bool)
    ensures AllStand(cfg, rc, p, Wholes(records), false)
    ensures AllBytes(cfg, p, Wholes(records)) == LogBytes(cfg, p, records)
    ensures Expected(cfg, mode, p, Wholes(records), false, 0, recycled) == Transcript(records, NoMore, [])
  {
    hide LogBytes;
    RecordsFirst(cfg, rc, mode, p, records, [], recycled);
    assert Wholes(records) + [] == Wholes(records);
    assert LogBytes(cfg, p, records) + [] == LogBytes(cfg, p, records);
    assert records + [] == records;
  }

  /** The spoiled block and the records behind it. */
  lemma SpoiledThenRecords(cfg: LogConfig, rc: ReaderConfig, mode: Mode, p: nat, open: bool, size: nat, recycled: bool,
                           bytes: Bytes, why: Reason, b: seq<Bytes>)
    requires Stands(cfg, rc, p, Spoiled(bytes, why), open)
    ensures var segs := [Spoiled(bytes, why)] + Wholes(b);
            var pad := Zeros(Pad(cfg.HeaderSize(), p));
            && AllStand(cfg, rc, p, segs, open)
            && AllBytes(cfg, p, segs) == pad + bytes + LogBytes(cfg, p + |pad| + |bytes|, b)
            && Expected(cfg, mode, p, segs, open, size, recycled)
               == if (recycled || LooksRecyclable(bytes)) && mode.TolerateCorruptedTailRecords?
                  then Transcript([], NoMore, [])
                  else Transcript(b, NoMore, [Corruption(|bytes|, why)] + GivenUp(open, size))
  {
    hide Damaged, IsRecyclableType, LogBytes, Pad, Expected, AllStand, AllBytes;
    var q := p + |Zeros(Pad(cfg.HeaderSize(), p)) + bytes|;
    JustRecords(cfg, rc, mode, q, b, recycled || LooksRecyclable(bytes));
    Cons(cfg, rc, p, Spoiled(bytes, why), Wholes(b), open);
    ExpectSpoiled(cfg, mode, p, bytes, why, Wholes(b), open, size, recycled);
    var said := [Corruption(|bytes|, why)] + GivenUp(open, size);
    assert [] + b == b && said + [] == said;
  }

  /** A log in which one frame was damaged, at the beginning of a record or behind its first j fragments: the rest
      of its block is lost. What follows in later blocks is read, the damage is reported with the number of
      bytes lost, and so are the fragments given up; only in a log known to be recycled the tolerant mode takes
      the damage for the end. */
  lemma DamagedFrame(cfg: LogConfig, rc: ReaderConfig, mode: Mode, a: seq<Bytes>, data: Bytes, j: nat, bytes: Bytes,
                     why: Reason, b: seq<Bytes>)
    requires Matches(cfg, rc) && Splits(cfg, |LogBytes(cfg, 0, a)|, data, j)
    requires var p := |LogBytes(cfg, 0, a)| + |Fragments(cfg, |LogBytes(cfg, 0, a)|, data, j)|;
             |bytes| == RestOfBlock(cfg.HeaderSize(), p)
    requires Damaged(rc, bytes, why) && (LooksRecyclable(bytes) ==> cfg.recycle)
    ensures var log := LogBytes(cfg, 0, a);
            var front := log + Fragments(cfg, |log|, data, j);
            var pad := Zeros(Pad(cfg.HeaderSize(), |front|));
            var file := front + (pad + bytes + LogBytes(cfg, |front| + |pad| + |bytes|, b));
            var recycled := LooksRecyclable(bytes) || (cfg.recycle && (a != [] || j > 0));
            ReadFile(file, rc, mode)
            == if recycled && mode.TolerateCorruptedTailRecords? then Transcript(a, NoMore, [])
               else Transcript(a + b, NoMore, [Corruption(|bytes|, why)] + GivenUp(j > 0, Held(cfg, |log|, data, j)))
  {
    hide ReadFile, LogBytes, Fragments, Held, Damaged, LooksRecyclable, Pad, Matches, Splits, Expected, AllStand;
    hide AllBytes, Before;
    var log := LogBytes(cfg, 0, a);
    var e := |log|;
    var begun, size := Fragments(cfg, e, data, j), Held(cfg, e, data, j);
    var p := e + |begun|;
    var seen := cfg.recycle && a != [];
    SpoiledThenRecords(cfg, rc, mode, p, j > 0, size, seen || (cfg.recycle && j > 0), bytes, why, b);
    var spoiled := [Spoiled(bytes, why)] + Wholes(b);
    var all := AllBytes(cfg, p, spoiled);
    var t := Expected(cfg, mode, p, spoiled, j > 0, size, seen || (cfg.recycle && j > 0));
    var segs := if j == 0 then spoiled else [Begun(data, j)] + spoiled;
    if j == 0 {
      NoFragments(cfg, e, data);
    } else {
      Cons(cfg, rc, e, Begun(data, j), spoiled, false);
      ExpectBegun(cfg, mode, e, data, j, spoiled, false, 0, seen);
    }
    RecordsFirst(cfg, rc, mode, 0, a, segs, false);
    DamagedLog(cfg, rc, mode, Wholes(a) + segs);
    Assoc(log, begun, all);
    Twice(a, t);
    assert j == 0 ==> [] + all == all;
  }

  lemma NoFragments(cfg: LogConfig, p: nat, data: Bytes)
    ensures Fragments(cfg, p, data, 0) == [] && Held(cfg, p, data, 0) == 0
  {
  }

  lemma Twice(a: seq<Bytes>, t: Transcript)
    ensures Before(a, [], Before([], [], t)) == Before(a, [], t) == Transcript(a + t.records, t.last, t.reports)
    ensures a + [] == a
  {
  }

  /** Such damage: a written frame in which the payload was exchanged for one of another checksum. */
  lemma ExchangedPayload(cfg: LogConfig, rc: ReaderConfig, begin: bool, end: bool, payload: Bytes, other: Bytes,
                         tail: Bytes)
    requires Matches(cfg, rc) && cfg.withChecksum && rc.verify && |other| == |payload| <= 0xffff
    requires var t := DataType(cfg, begin, end);
             var number := if cfg.recycle then LogNumberBytes(cfg.logNumber) else [];
             cfg.crc.value([t] + number + other) != cfg.crc.value([t] + number + payload)
    ensures var header := FrameHeader(cfg.crc, cfg.logNumber, DataType(cfg, begin, end), payload);
            Damaged(rc, header + other + tail, ChecksumMismatch)
  {
    hide DataType, Fixed32, DecodeFixed32;
    var t := DataType(cfg, begin, end);
    var header := FrameHeader(cfg.crc, cfg.logNumber, t, payload);
    var bytes := header + other + tail;
    var n := TypeHeaderSize(t);
    FrameBytes(cfg.crc, cfg.logNumber, t, payload);
    Fixed32RoundTrip(FrameCrc(cfg.crc, cfg.logNumber, t, payload));
    assert bytes[..4] == header[..4] == Fixed32(FrameCrc(cfg.crc, cfg.logNumber, t, payload));
    assert bytes[4] == header[4] && bytes[5] == header[5] && bytes[6] == header[6] == t;
    assert bytes[6..n + |payload|] == header[6..] + other;
    assert header[6..] == [t] + (if cfg.recycle then LogNumberBytes(cfg.logNumber) else []);
    if cfg.recycle {
      Fixed32RoundTrip(cfg.logNumber);
      assert bytes[7..11] == header[7..11] == LogNumberBytes(cfg.logNumber);
    }
  }
}
