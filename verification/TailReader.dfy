/** `FragmentBufferedReader`: follows a log that another process is still writing. */
module TailReader {
  import opened LogFormat
  import opened LogParse
  import opened TailParse

  lemma HeaderBytes(file: Bytes, at: nat, end: nat, buffer: Bytes)
    requires at + RECYCLABLE_HEADER_SIZE <= end <= |file| && buffer == file[at..end]
    ensures buffer[7..11] == file[at + 7..at + 11] && buffer[6] == file[at + 6]
  {
    forall i | 0 <= i < 4 ensures buffer[7..11][i] == file[at + 7..at + 11][i] {
      assert buffer[7 + i] == file[at + 7 + i];
    }
  }

  class FragmentBufferedReader {
    const rc: ReaderConfig
    /** What is visible of the log; it only grows. */
    var file: Bytes
    var buffer: Bytes
    var eof: bool
    /** Offset within the last block at which the end of the file was seen. */
    var eofOffset: nat
    var endOfBufferOffset: nat
    var recycled: bool
    var firstRecordRead: bool
    var fragments: Bytes
    var inFragmentedRecord: bool
    var reports: seq<Report>

    ghost predicate Valid()
      reads this
    {
      && |buffer| <= endOfBufferOffset <= |file|
      && buffer == file[endOfBufferOffset - |buffer|..endOfBufferOffset]
      && eofOffset == endOfBufferOffset % BLOCK_SIZE
      && TailOk(file, Here())
    }

    function Here(): Cursor
      requires |buffer| <= endOfBufferOffset
      reads this
    {
      Cursor(endOfBufferOffset - |buffer|, endOfBufferOffset, eof, recycled, firstRecordRead)
    }

    function State(): TailState
      requires |buffer| <= endOfBufferOffset
      reads this
    {
      TailState(Here(), fragments, inFragmentedRecord, reports)
    }

    constructor (rc: ReaderConfig)
      ensures Valid() && this.rc == rc && file == [] && State() == TAIL_START
    {
      this.rc := rc;
      file, buffer, eof, eofOffset, endOfBufferOffset := [], [], false, 0, 0;
      recycled, firstRecordRead, fragments, inFragmentedRecord, reports := false, false, [], false, [];
    }

    /** The writer appended to the log. */
    method Grow(more: Bytes)
      requires Valid()
      modifies this`file
      ensures Valid() && State() == old(State()) && file == old(file) + more
    {
      file := file + more;
    }

    /** The next record, if all of it is visible. */
    method ReadRecord() returns (outcome: Outcome)
      requires Valid()
      modifies this
      ensures Valid() && file == old(file)
      ensures (outcome, State()) == old(TailOne(file, rc, State()))
    {
      hide TryFragment, TailSwitch, TailOk;
      ghost var goal := TailOne(file, rc, State());
      while true
        invariant Valid() && file == old(file)
        invariant TailOne(file, rc, State()) == goal
        decreases |file| - Here().at
      {
        var attempt := TryReadFragment();
        match attempt
        case NoFragment(_) => return NoMore;
        case Dead(_) =>
          if inFragmentedRecord {
            Keep([], false, [Corruption(|fragments|, ErrorInMiddle)]);
          }
          return Diverges;
        case Torn(_) => return Foreign;
        case Fragment(code, fragment, drop, _) =>
          var (action, said) := TailSwitch(State(), code, fragment, drop);
          match action
          case Deliver(data) =>
            Keep([], false, said);
            MarkFirstRecordRead();
            return Record(data);
          case Stop =>
            Keep([], inFragmentedRecord, said);
            return NoMore;
          case Unmodelled =>
            Keep(fragments, inFragmentedRecord, said);
            return Foreign;
          case Go(fragments', inFragment') =>
            Keep(fragments', inFragment', said);
      }
    }

    method Keep(fragments: Bytes, inFragment: bool, said: seq<Report>)
      requires Valid()
      modifies this`fragments, this`inFragmentedRecord, this`reports
      ensures Valid()
      ensures State() == TailState(old(Here()), fragments, inFragment, old(reports) + said)
    {
      this.fragments, inFragmentedRecord, reports := fragments, inFragment, reports + said;
    }

    method MarkFirstRecordRead()
      requires Valid()
      modifies this`firstRecordRead
      ensures Valid() && State() == old(State()).(cursor := old(Here()).(firstRead := true))
    {
      firstRecordRead := true;
    }

    method MarkRecycled()
      requires Valid()
      modifies this`recycled
      ensures Valid() && Here() == old(Here()).(recycled := true)
    {
      recycled := true;
    }

    method TryReadFragment() returns (attempt: Attempt)
      requires Valid()
      modifies this`buffer, this`eof, this`eofOffset, this`endOfBufferOffset, this`recycled
      ensures Valid() && Here() == attempt.next
      ensures attempt == old(TryFragment(file, rc, Here()))
    {
      hide Fill, AfterHeader, TailOk;
      var ok := FillBuffer(HEADER_SIZE);
      if !ok {
        return NoFragment(Here());
      }
      attempt := TakeHeader();
    }

    /** The short header is buffered: refuses a foreign recyclable frame, or takes the frame. */
    method TakeHeader() returns (attempt: Attempt)
      requires Valid() && |buffer| >= HEADER_SIZE
      modifies this`buffer, this`eof, this`eofOffset, this`endOfBufferOffset, this`recycled
      ensures Valid() && Here() == attempt.next
      ensures attempt == old(AfterHeader(file, rc, Here()))
    {
      hide Fill, Body, IsRecyclableType, TailOk;
      var d := Here();
      assert buffer == file[d.at..d.end];
      if IsRecyclableType(buffer[6]) {
        if firstRecordRead && !recycled {
          return Dead(d);
        }
        MarkRecycled();
        var ok := FillBuffer(RECYCLABLE_HEADER_SIZE);
        if Here().at != d.at {
          return Torn(Here());
        }
        if !ok {
          return NoFragment(Here());
        }
        assert buffer == file[d.at..Here().end];
        HeaderBytes(file, d.at, Here().end, buffer);
        if DecodeFixed32(buffer[7..11]) != rc.logNumber {
          return Dead(Here());
        }
      }
      attempt := TakeBody();
    }

    /** Waits for the rest of the frame whose header is buffered, and consumes it. */
    method TakeBody() returns (attempt: Attempt)
      requires Valid() && |buffer| >= HEADER_SIZE && |buffer| >= TypeHeaderSize(buffer[6])
      modifies this`buffer, this`eof, this`eofOffset, this`endOfBufferOffset
      ensures Valid() && Here() == attempt.next
      ensures file[old(Here().at) + 6] == old(buffer[6])
      ensures attempt == Body(file, rc, old(Here()))
    {
      hide Fill, ParseBuffer, IsRecyclableType, TailOk;
      var c := Here();
      assert buffer == file[c.at..c.end];
      var size := TypeHeaderSize(buffer[6]) + (buffer[4] as int + 256 * (buffer[5] as int));
      var ok := FillBuffer(size);
      var d := Here();
      if d.at != c.at {
        return Torn(d);
      }
      if !ok {
        return NoFragment(d);
      }
      assert buffer == file[d.at..d.end];
      var found := ParseBuffer(rc, buffer);
      RemovePrefix(found.used);
      return Fragment(found.code, found.fragment, found.drop, Here());
    }

    method RemovePrefix(n: nat)
      requires Valid() && n <= |buffer|
      modifies this`buffer
      ensures Valid() && Here() == old(Here()).(at := old(Here()).at + n)
    {
      buffer := buffer[n..];
    }

    method FillBuffer(need: nat) returns (ok: bool)
      requires Valid()
      modifies this`buffer, this`eof, this`eofOffset, this`endOfBufferOffset
      ensures Valid()
      ensures (ok, Here()) == old(Fill(file, Here(), need))
    {
      hide TailOk, More;
      ghost var goal := Fill(file, Here(), need);
      while |buffer| < need
        invariant Valid()
        invariant Fill(file, Here(), need) == goal
        decreases |file| - endOfBufferOffset, !eof
      {
        var oldSize := |buffer|;
        TryReadMore();
        if oldSize == |buffer| {
          return false;
        }
      }
      return true;
    }

    method TryReadMore()
      requires Valid()
      modifies this`buffer, this`eof, this`eofOffset, this`endOfBufferOffset
      ensures Valid() && Here() == old(More(file, Here()))
    {
      hide TailOk;
      if !eof {
        ghost var c := Here();
        AtBlockEnd(file, c);
        var n := if |file| - endOfBufferOffset < BLOCK_SIZE then |file| - endOfBufferOffset else BLOCK_SIZE;
        OffsetInBlock(endOfBufferOffset, n);
        buffer := file[endOfBufferOffset..endOfBufferOffset + n];
        endOfBufferOffset := endOfBufferOffset + n;
        if n < BLOCK_SIZE {
          eof := true;
          eofOffset := n;
        }
        assert Here() == More(file, c);
      } else {
        eof := false;
        UnmarkEof();
      }
    }

    /** Reads the rest of the block in which the end of the file was seen. */
    method UnmarkEof()
      requires |buffer| <= endOfBufferOffset <= |file| && !eof
      requires buffer == file[endOfBufferOffset - |buffer|..endOfBufferOffset]
      requires eofOffset == endOfBufferOffset % BLOCK_SIZE
      requires TailOk(file, Here().(eof := true))
      modifies this`buffer, this`eof, this`eofOffset, this`endOfBufferOffset
      ensures Valid() && Here() == old(More(file, Here().(eof := true)))
    {
      hide TailOk;
      var remaining := BLOCK_SIZE - eofOffset;
      var added := if |file| - endOfBufferOffset < remaining then |file| - endOfBufferOffset else remaining;
      ghost var c := Here().(eof := true);
      OffsetInBlock(endOfBufferOffset, added);
      JoinSlices(file, c.at, c.end, c.end + added);
      buffer := buffer + file[endOfBufferOffset..endOfBufferOffset + added];
      endOfBufferOffset := endOfBufferOffset + added;
      if added < remaining {
        eof := true;
        eofOffset := eofOffset + added;
      } else {
        eofOffset := 0;
      }
      assert Here() == More(file, c);
    }
  }

  lemma AtBlockEnd(file: Bytes, c: Cursor)
    requires TailOk(file, c) && !c.eof
    ensures c.end % BLOCK_SIZE == 0
  {
  }

  lemma OffsetInBlock(end: nat, added: nat)
    requires end % BLOCK_SIZE + added <= BLOCK_SIZE
    ensures (end + added) % BLOCK_SIZE
         == if end % BLOCK_SIZE + added < BLOCK_SIZE then end % BLOCK_SIZE + added else 0
  {
  }

  lemma JoinSlices(file: Bytes, a: nat, b: nat, c: nat)
    requires a <= b <= c <= |file|
    ensures file[a..b] + file[b..c] == file[a..c]
  {
  }
}
