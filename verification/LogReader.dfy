/** `log::Reader`: reassembles logical records from a file, one block-sized read at a time.
    A read of the file is short only at its end, and never fails. */
module LogReader {
  import opened LogFormat
  import opened LogParse

  class Reader {
    const rc: ReaderConfig
    const file: Bytes
    var buffer: Bytes
    var eof: bool
    var endOfBufferOffset: nat
    var recycled: bool
    var firstRecordRead: bool
    var reports: seq<Report>

    ghost predicate Valid()
      reads this
    {
      && |buffer| <= endOfBufferOffset <= |file|
      && buffer == file[endOfBufferOffset - |buffer|..endOfBufferOffset]
      && Here().Ok(file)
    }

    function Here(): Cursor
      requires |buffer| <= endOfBufferOffset
      reads this
    {
      Cursor(endOfBufferOffset - |buffer|, endOfBufferOffset, eof, recycled, firstRecordRead)
    }

    ghost function State(): ReaderState
      requires Valid()
      reads this
    {
      ReaderState(Here(), reports)
    }

    constructor (rc: ReaderConfig, file: Bytes)
      ensures Valid() && this.rc == rc && this.file == file
      ensures State() == ReaderState(START, [])
    {
      this.rc, this.file := rc, file;
      buffer, eof, endOfBufferOffset, recycled, firstRecordRead, reports := [], false, 0, false, false, [];
    }

    /** The next logical record, or why there is none. */
    method ReadRecord(mode: Mode) returns (outcome: Outcome)
      requires Valid()
      modifies this
      ensures Valid()
      ensures (outcome, State()) == old(ReadOne(file, rc, mode, State(), [], false))
    {
      hide ReadPhysical, Switch;
      var scratch: Bytes := [];
      var inFragment := false;
      ghost var goal := ReadOne(file, rc, mode, State(), [], false);
      while true
        invariant Valid()
        invariant ReadOne(file, rc, mode, State(), scratch, inFragment) == goal
        decreases |file| - Here().at
      {
        var ph := ReadPhysicalRecord();
        if ph.Stuck? {
          Tell(if inFragment then [Corruption(|scratch|, ErrorInMiddle)] else []);
          return Diverges;
        }
        var (action, said) := Switch(mode, ph, scratch, inFragment);
        Tell(said);
        match action
        case Deliver(data) =>
          MarkFirstRecordRead();
          return Record(data);
        case Stop =>
          return NoMore;
        case Unmodelled =>
          return Foreign;
        case Go(scratch', inFragment') =>
          scratch, inFragment := scratch', inFragment';
      }
    }

    method Tell(said: seq<Report>)
      requires Valid()
      modifies this`reports
      ensures Valid() && State() == old(State()).(reports := old(reports) + said)
    {
      reports := reports + said;
    }

    method MarkFirstRecordRead()
      requires Valid()
      modifies this`firstRecordRead
      ensures Valid() && State() == old(State()).(cursor := old(Here()).(firstRead := true))
    {
      firstRecordRead := true;
    }

    /** The next physical record, refilling the buffer as needed. */
    method ReadPhysicalRecord() returns (ph: Physical)
      requires Valid()
      modifies this`buffer, this`eof, this`endOfBufferOffset, this`recycled
      ensures Valid() && Here() == ph.next
      ensures ph == old(ReadPhysical(file, rc, Here()))
    {
      hide ReadPhysical, Cursor.Ok;
      ghost var goal := ReadPhysical(file, rc, Here());
      while true
        invariant Valid()
        invariant ReadPhysical(file, rc, Here()) == goal
        decreases Here().Left(file)
      {
        var again;
        again, ph := TryPhysicalRecord();
        if !again {
          return;
        }
      }
    }

    /** One turn of its loop. */
    method TryPhysicalRecord() returns (again: bool, ph: Physical)
      requires Valid()
      modifies this`buffer, this`eof, this`endOfBufferOffset, this`recycled
      ensures Valid()
      ensures again ==> ReadPhysical(file, rc, Here()) == old(ReadPhysical(file, rc, Here()))
      ensures again ==> Here().Left(file) < old(Here().Left(file))
      ensures !again ==> ph == old(ReadPhysical(file, rc, Here())) && Here() == ph.next
    {
      hide ParseFrame, Refill, AtEof, IsRecyclableType, Cursor.Ok;
      if |buffer| < HEADER_SIZE {
        var drop, error;
        again, drop, error := ReadMore();
        return again, Physical(error, [], drop, Here());
      }
      assert buffer[6] == file[Here().at + 6];
      if IsRecyclableType(buffer[6]) {
        if firstRecordRead && !recycled {
          return false, Stuck(Here());
        }
        MarkRecycled();
        if |buffer| < RECYCLABLE_HEADER_SIZE {
          var drop, error;
          again, drop, error := ReadMore();
          return again, Physical(error, [], drop, Here());
        }
      }
      again := false;
      ph := ConsumeFrame();
    }

    method MarkRecycled()
      requires Valid()
      modifies this`recycled
      ensures Valid() && Here() == old(Here()).(recycled := true)
    {
      recycled := true;
    }

    /** Parses the frame at the front of the buffer and drops what it consumed. */
    method ConsumeFrame() returns (ph: Physical)
      requires Valid() && |buffer| >= HEADER_SIZE && |buffer| >= TypeHeaderSize(buffer[6])
      modifies this`buffer
      ensures Valid() && Here() == ph.next
      ensures file[old(Here().at) + 6] == old(buffer[6])
      ensures ph == ParseFrame(file, rc, old(Here()))
    {
      hide ParseBuffer;
      ghost var c := Here();
      assert buffer == file[c.at..c.end];
      var found := ParseBuffer(rc, buffer);
      buffer := buffer[found.used..];
      ph := Physical(found.code, found.fragment, found.drop, Here());
    }

    /** Replaces the buffer by the next block, or says why there is none. */
    method ReadMore() returns (more: bool, drop: nat, error: Byte)
      requires Valid()
      modifies this`buffer, this`eof, this`endOfBufferOffset
      ensures Valid()
      ensures more == !old(eof)
      ensures more ==> drop == 0 && Here() == Refill(file, old(Here()))
      ensures !more ==> Physical(error, [], drop, Here()) == old(AtEof(Here()))
    {
      drop, error := 0, EOF_CODE;
      if !eof {
        var n := if |file| - endOfBufferOffset < BLOCK_SIZE then |file| - endOfBufferOffset else BLOCK_SIZE;
        buffer := file[endOfBufferOffset..endOfBufferOffset + n];
        endOfBufferOffset := endOfBufferOffset + n;
        if n < BLOCK_SIZE {
          eof := true;
        }
        more := true;
      } else {
        if |buffer| > 0 {
          drop := |buffer|;
          buffer := [];
          error := BAD_HEADER;
        }
        more := false;
      }
    }
  }

  /** The loop every recovery client runs: read until there is no next record. */
  method ReadLog(rc: ReaderConfig, file: Bytes, mode: Mode) returns (result: Transcript)
    ensures result == ReadFile(file, rc, mode)
  {
    hide ReadOne, ReadAll, Cursor.Ok;
    var reader := new Reader(rc, file);
    var records := [];
    ghost var goal := ReadFile(file, rc, mode);
    while true
      invariant reader.Valid() && fresh(reader) && reader.file == file && reader.rc == rc
      invariant goal == Prepend(records, ReadAll(file, rc, mode, reader.State()))
      decreases |file| - reader.Here().at
    {
      ghost var before := reader.State();
      ReadAllStep(file, rc, mode, before);
      var outcome := reader.ReadRecord(mode);
      if !outcome.Record? {
        return Transcript(records, outcome, reader.reports);
      }
      PrependMore(records, outcome.data, ReadAll(file, rc, mode, reader.State()));
      records := records + [outcome.data];
    }
  }

  ghost function Prepend(records: seq<Bytes>, t: Transcript): Transcript {
    t.(records := records + t.records)
  }

  lemma ReadAllStep(file: Bytes, rc: ReaderConfig, mode: Mode, s: ReaderState)
    requires s.cursor.Ok(file)
    ensures var (outcome, t) := ReadOne(file, rc, mode, s, [], false);
            ReadAll(file, rc, mode, s)
            == if outcome.Record? then Prepend([outcome.data], ReadAll(file, rc, mode, t))
               else Transcript([], outcome, t.reports)
  {
    hide ReadOne;
  }

  lemma PrependMore(records: seq<Bytes>, data: Bytes, t: Transcript)
    ensures Prepend(records, Prepend([data], t)) == Prepend(records + [data], t)
  {
    assert records + ([data] + t.records) == records + [data] + t.records;
  }
}
