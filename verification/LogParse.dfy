/** What `log::Reader` computes, as functions of the file and a cursor into it. The class in
    LogReader is proved to compute these; the theorems about them are in LogRecovery. */
module LogParse {
  import opened LogFormat

  // Results of reading a physical record that are not record types. They share the byte range of
  // record types: a stored type of 212..217 is indistinguishable from them.
  const EOF_CODE: Byte := 212
  const BAD_RECORD: Byte := 213
  const BAD_HEADER: Byte := 214
  const OLD_RECORD: Byte := 215
  const BAD_RECORD_LEN: Byte := 216
  const BAD_RECORD_CHECKSUM: Byte := 217

  datatype Mode =
    | TolerateCorruptedTailRecords
    | AbsoluteConsistency
    | PointInTimeRecovery
    | SkipAnyCorruptedRecords
  {
    predicate Strict() { AbsoluteConsistency? || PointInTimeRecovery? }
  }

  datatype Reason =
    | PartialRecordWithoutEnd
    | MissingStart
    | TruncatedHeader
    | TruncatedBody
    | TrailingData
    | TrailingOldRecord
    | ErrorInMiddle
    | BadLength
    | ChecksumMismatch
    | UnknownType

  datatype Report = Corruption(bytes: nat, reason: Reason) | OldLogRecord(bytes: nat)

  /** What a reader is constructed with; `logNumber` is 64 bits wide in the source. */
  datatype ReaderConfig = ReaderConfig(crc: Checksum, verify: bool, logNumber: nat)

  /** The unread part of the buffer is `file[at..end]`; `eof` records that the last read was short. */
  datatype Cursor = Cursor(at: nat, end: nat, eof: bool, recycled: bool, firstRead: bool)
  {
    ghost predicate Ok(file: Bytes) {
      && at <= end <= |file|
      && (if eof then end == |file| else end % BLOCK_SIZE == 0)
      && (at < end ==> at % BLOCK_SIZE + (end - at) <= BLOCK_SIZE)
      && (at < end && eof ==> end % BLOCK_SIZE != 0)
    }

    function Left(file: Bytes): nat
      requires end <= |file|
    {
      if eof then 0 else 1 + |file| - end
    }
  }

  const START := Cursor(0, 0, false, false, false)

  /** A successful `ReadMore`: the rest of the buffer is a trailer to skip. */
  function Refill(file: Bytes, c: Cursor): (d: Cursor)
    requires c.Ok(file) && !c.eof
    ensures d.Ok(file) && d.Left(file) < c.Left(file) && d.at == c.end
  {
    var end := if c.end + BLOCK_SIZE <= |file| then c.end + BLOCK_SIZE else |file|;
    c.(at := c.end, end := end, eof := end - c.end < BLOCK_SIZE)
  }

  /** `Stuck` is a bad-record result that consumed nothing: asking again gives it again. A record begun is
      given up with one report the first time. */
  datatype Physical =
    | Physical(code: Byte, fragment: Bytes, drop: nat, next: Cursor)
    | Stuck(next: Cursor)

  /** `ReadPhysicalRecord`. */
  function ReadPhysical(file: Bytes, rc: ReaderConfig, c: Cursor): (ph: Physical)
    requires c.Ok(file)
    ensures ph.next.Ok(file) && ph.next.at >= c.at
    ensures ph.Physical? && ph.next.at == c.at ==> ph.code == EOF_CODE
    decreases c.Left(file)
  {
    if c.end - c.at < HEADER_SIZE then
      if c.eof then AtEof(c) else ReadPhysical(file, rc, Refill(file, c))
    else
      var recyclable := IsRecyclableType(file[c.at + 6]);
      if recyclable && c.firstRead && !c.recycled then
        Stuck(c)
      else
        var d := if recyclable then c.(recycled := true) else c;
        if recyclable && c.end - c.at < RECYCLABLE_HEADER_SIZE then
          if c.eof then AtEof(d) else ReadPhysical(file, rc, Refill(file, d))
        else
          ParseFrame(file, rc, d)
  }

  function AtEof(c: Cursor): (ph: Physical)
    requires c.at <= c.end
    ensures ph.Physical?
  {
    if c.at < c.end then Physical(BAD_HEADER, [], c.end - c.at, c.(at := c.end))
    else Physical(EOF_CODE, [], 0, c)
  }

  /** What is found at the front of the buffer, and how many bytes of it are consumed. */
  datatype Found = Found(code: Byte, fragment: Bytes, drop: nat, used: nat)

  /** Length, log number, zero-record and checksum tests on a buffer that holds a whole header. */
  function ParseBuffer(rc: ReaderConfig, h: Bytes): (f: Found)
    requires |h| >= HEADER_SIZE && |h| >= TypeHeaderSize(h[6])
    ensures 0 < f.used <= |h|
  {
    var t := h[6];
    var size := TypeHeaderSize(t) + (h[4] as int + 256 * (h[5] as int));
    if size > |h| then Found(BAD_RECORD_LEN, [], |h|, |h|)
    else if IsRecyclableType(t) && DecodeFixed32(h[7..11]) != rc.logNumber then
      Found(OLD_RECORD, [], 0, size)
    else if t == ZERO_TYPE && size == HEADER_SIZE then Found(BAD_RECORD, [], 0, |h|)
    else if rc.verify && !IsNoChecksumType(t)
            && rc.crc.value(h[6..size]) != rc.crc.unmask(DecodeFixed32(h[..4])) then
      Found(BAD_RECORD_CHECKSUM, [], |h|, |h|)
    else
      Found(t, h[TypeHeaderSize(t)..size], 0, size)
  }

  function ParseFrame(file: Bytes, rc: ReaderConfig, c: Cursor): (ph: Physical)
    requires c.Ok(file)
    requires c.end - c.at >= HEADER_SIZE
    requires c.end - c.at >= TypeHeaderSize(file[c.at + 6])
    ensures ph.Physical? && ph.next.Ok(file) && ph.next.at > c.at
  {
    var f := ParseBuffer(rc, file[c.at..c.end]);
    Physical(f.code, f.fragment, f.drop, c.(at := c.at + f.used))
  }

  /** What the switch in `ReadRecord` does with one physical record. */
  datatype Action = Deliver(record: Bytes) | Stop | Unmodelled | Go(scratch: Bytes, inFragment: bool)

  function Switch(mode: Mode, ph: Physical, scratch: Bytes, inFragment: bool): (r: (Action, seq<Report>))
    requires ph.Physical?
    ensures ph.code == EOF_CODE ==> r.0.Stop?
  {
    var code := ph.code;
    if IsFull(code) then
      (Deliver(ph.fragment),
       if inFragment && scratch != [] then [Corruption(|scratch|, PartialRecordWithoutEnd)] else [])
    else if IsFirst(code) then
      (Go(ph.fragment, true),
       if inFragment && scratch != [] then [Corruption(|scratch|, PartialRecordWithoutEnd)] else [])
    else if IsMiddle(code) then
      if inFragment then (Go(scratch + ph.fragment, true), [])
      else (Go(scratch, false), [Corruption(|ph.fragment|, MissingStart)])
    else if IsLast(code) then
      if inFragment then (Deliver(scratch + ph.fragment), [])
      else (Go(scratch, false), [Corruption(|ph.fragment|, MissingStart)])
    else if IsMetadata(code) then (Unmodelled, [])
    else if code == BAD_HEADER || code == EOF_CODE then
      (Stop,
       (if code == BAD_HEADER && mode.Strict() then [Corruption(ph.drop, TruncatedHeader)] else [])
       + (if inFragment && mode.Strict() then [Corruption(|scratch|, TrailingData)] else []))
    else if code == OLD_RECORD && !mode.SkipAnyCorruptedRecords? then
      (Stop,
       if inFragment && mode.Strict() then [Corruption(|scratch|, TrailingOldRecord)]
       else if !inFragment && mode.PointInTimeRecovery? then [OldLogRecord(|scratch|)]
       else [])
    else if code == OLD_RECORD || code == BAD_RECORD then
      if inFragment then (Go([], false), [Corruption(|scratch|, ErrorInMiddle)]) else (Go(scratch, false), [])
    else if code == BAD_RECORD_LEN && ph.next.eof then
      (Stop, if mode.Strict() then [Corruption(ph.drop, TruncatedBody)] else [])
    else if code == BAD_RECORD_LEN || code == BAD_RECORD_CHECKSUM then
      if ph.next.recycled && mode.TolerateCorruptedTailRecords? then (Stop, [])
      else
        var what := Corruption(ph.drop, if code == BAD_RECORD_LEN then BadLength else ChecksumMismatch);
        if inFragment then (Go([], false), [what, Corruption(|scratch|, ErrorInMiddle)])
        else (Go(scratch, false), [what])
    else
      (Go([], false),
       if code < 128 then [Corruption(|ph.fragment| + (if inFragment then |scratch| else 0), UnknownType)] else [])
  }

  /** `NoMore` is the source's `false`; `Diverges` its endless loop on a recyclable record in a log
      that did not start with one; `Foreign` a metadata record, whose decoder is not modelled. */
  datatype Outcome = Record(data: Bytes) | NoMore | Diverges | Foreign

  datatype ReaderState = ReaderState(cursor: Cursor, reports: seq<Report>)

  /** `ReadRecord`, from the middle of its loop. */
  function ReadOne(file: Bytes, rc: ReaderConfig, mode: Mode, s: ReaderState,
                   scratch: Bytes, inFragment: bool): (r: (Outcome, ReaderState))
    requires s.cursor.Ok(file)
    ensures r.1.cursor.Ok(file)
    ensures r.0.Record? ==> r.1.cursor.at > s.cursor.at
    decreases |file| - s.cursor.at
  {
    var ph := ReadPhysical(file, rc, s.cursor);
    if ph.Stuck? then
      var said := if inFragment then [Corruption(|scratch|, ErrorInMiddle)] else [];
      (Diverges, ReaderState(ph.next, s.reports + said))
    else
      var (action, said) := Switch(mode, ph, scratch, inFragment);
      var t := ReaderState(ph.next, s.reports + said);
      match action
      case Deliver(data) => (Record(data), t.(cursor := t.cursor.(firstRead := true)))
      case Stop => (NoMore, t)
      case Unmodelled => (Foreign, t)
      case Go(scratch', inFragment') => ReadOne(file, rc, mode, t, scratch', inFragment')
  }

  /** Reading until the reader gives no more records. */
  datatype Transcript = Transcript(records: seq<Bytes>, last: Outcome, reports: seq<Report>)

  function ReadAll(file: Bytes, rc: ReaderConfig, mode: Mode, s: ReaderState): Transcript
    requires s.cursor.Ok(file)
    decreases |file| - s.cursor.at
  {
    var (outcome, t) := ReadOne(file, rc, mode, s, [], false);
    if outcome.Record? then
      var rest := ReadAll(file, rc, mode, t);
      rest.(records := [outcome.data] + rest.records)
    else Transcript([], outcome, t.reports)
  }

  /** A fresh reader over a whole file. */
  function ReadFile(file: Bytes, rc: ReaderConfig, mode: Mode): Transcript {
    ReadAll(file, rc, mode, ReaderState(START, []))
  }
}
