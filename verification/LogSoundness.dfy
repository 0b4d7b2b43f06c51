/** What a reader can return from arbitrary bytes: only records assembled from intact frames, in the
    order of the file, whatever is damaged around them. */
module LogSoundness {
  import opened LogFormat
  import opened LogParse

  /** A physical frame at some offset of the file. */
  datatype Piece = Piece(at: nat, t: Byte, size: nat)
  {
    function End(): nat {
      at + size
    }

    /** The frame is intact: it lies in one block, its length field and its log number are right, and
        so is its checksum if it has one that is to be verified. */
    ghost predicate Genuine(file: Bytes, rc: ReaderConfig) {
      && TypeHeaderSize(t) <= size && at + size <= |file| && at % BLOCK_SIZE + size <= BLOCK_SIZE
      && file[at + 6] == t
      && size == TypeHeaderSize(t) + file[at + 4] as int + 256 * (file[at + 5] as int)
      && (IsRecyclableType(t) ==> DecodeFixed32(file[at + 7..at + 11]) == rc.logNumber)
      && (rc.verify && !IsNoChecksumType(t) ==>
            rc.crc.value(file[at + 6..at + size]) == rc.crc.unmask(DecodeFixed32(file[at..at + 4])))
    }

    function Payload(file: Bytes): Bytes
      requires TypeHeaderSize(t) <= size && at + size <= |file|
    {
      file[at + TypeHeaderSize(t)..at + size]
    }
  }

  predicate IsData(t: Byte) {
    IsFull(t) || IsFirst(t) || IsMiddle(t) || IsLast(t)
  }

  ghost predicate AllGenuine(file: Bytes, rc: ReaderConfig, pieces: seq<Piece>) {
    forall i :: 0 <= i < |pieces| ==> pieces[i].Genuine(file, rc)
  }

  /** One behind the other, none before `from` and none after `to`. */
  ghost predicate Between(pieces: seq<Piece>, from: nat, to: nat) {
    && (forall i :: 0 <= i < |pieces| ==> from <= pieces[i].at && pieces[i].End() <= to)
    && (forall i, j :: 0 <= i < j < |pieces| ==> pieces[i].End() <= pieces[j].at)
  }

  /** No frame lies between x and y: they are the same place, or y is the next block and what is left of the block
      of x is too short for the header that would be there. */
  ghost predicate Adjacent(file: Bytes, x: nat, y: nat) {
    || y == x
    || (&& y == x - x % BLOCK_SIZE + BLOCK_SIZE <= |file|
        && (y - x < HEADER_SIZE || (y - x < RECYCLABLE_HEADER_SIZE && IsRecyclableType(file[x + 6]))))
  }

  /** The frames follow each other without a gap. */
  ghost predicate Contiguous(file: Bytes, pieces: seq<Piece>) {
    forall i :: 0 <= i < |pieces| - 1 ==> Adjacent(file, pieces[i].End(), pieces[i + 1].at)
  }

  /** The next frame from `at` on follows them. */
  ghost predicate Reaches(file: Bytes, pieces: seq<Piece>, at: nat) {
    pieces != [] ==> Adjacent(file, pieces[|pieces| - 1].End(), at)
  }

  lemma ReachesOn(file: Bytes, pieces: seq<Piece>, at: nat, next: nat)
    requires Reaches(file, pieces, at) && Adjacent(file, at, next) && (at % BLOCK_SIZE == 0 ==> next == at)
    ensures Reaches(file, pieces, next)
  {
    if pieces != [] {
      var x := pieces[|pieces| - 1].End();
      assert (x - x % BLOCK_SIZE + BLOCK_SIZE) % BLOCK_SIZE == 0;
    }
  }

  lemma ContiguousMore(file: Bytes, pieces: seq<Piece>, p: Piece)
    requires Contiguous(file, pieces) && Reaches(file, pieces, p.at)
    ensures Contiguous(file, pieces + [p]) && Reaches(file, pieces + [p], p.End())
  {
  }

  ghost function Joined(file: Bytes, rc: ReaderConfig, pieces: seq<Piece>): Bytes
    requires AllGenuine(file, rc, pieces)
  {
    if pieces == [] then [] else Joined(file, rc, pieces[..|pieces| - 1]) + pieces[|pieces| - 1].Payload(file)
  }

  /** The first fragments of a record. */
  ghost predicate Begun(file: Bytes, rc: ReaderConfig, pieces: seq<Piece>, data: Bytes) {
    && pieces != [] && AllGenuine(file, rc, pieces) && data == Joined(file, rc, pieces) && Contiguous(file, pieces)
    && IsFirst(pieces[0].t) && forall i :: 1 <= i < |pieces| ==> IsMiddle(pieces[i].t)
  }

  /** A whole record: one full fragment, or a first, any middle ones and a last. */
  ghost predicate Assembled(file: Bytes, rc: ReaderConfig, pieces: seq<Piece>, data: Bytes) {
    && pieces != [] && AllGenuine(file, rc, pieces) && data == Joined(file, rc, pieces) && Contiguous(file, pieces)
    && if |pieces| == 1 then IsFull(pieces[0].t)
       else IsFirst(pieces[0].t) && IsLast(pieces[|pieces| - 1].t)
            && forall i :: 1 <= i < |pieces| - 1 ==> IsMiddle(pieces[i].t)
  }

  /** A physical record with a data type is an intact frame. */
  lemma {:induction false} PhysicalIsGenuine(file: Bytes, rc: ReaderConfig, c: Cursor) returns (p: Piece)
    requires c.Ok(file) && ReadPhysical(file, rc, c).Physical? && IsData(ReadPhysical(file, rc, c).code)
    ensures var ph := ReadPhysical(file, rc, c);
            && p.Genuine(file, rc) && p.t == ph.code && p.Payload(file) == ph.fragment
            && c.at <= p.at && p.End() == ph.next.at
            && Adjacent(file, c.at, p.at) && (c.at % BLOCK_SIZE == 0 ==> p.at == c.at)
    decreases c.Left(file)
  {
    hide ParseFrame, Refill, Piece.Genuine, IsRecyclableType, Adjacent, Cursor.Ok;
    CursorInFile(file, c);
    if c.end - c.at < HEADER_SIZE {
      SkipsShort(file, c);
      p := PhysicalIsGenuine(file, rc, Refill(file, c));
    } else {
      var recyclable := IsRecyclableType(file[c.at + 6]);
      var d := if recyclable then c.(recycled := true) else c;
      MarkedOk(file, c);
      if recyclable && c.end - c.at < RECYCLABLE_HEADER_SIZE {
        SkipsShort(file, d);
        p := PhysicalIsGenuine(file, rc, Refill(file, d));
      } else {
        p := FrameIsGenuine(file, rc, d);
        SamePlace(file, c.at);
      }
    }
  }

  lemma MarkedOk(file: Bytes, c: Cursor)
    requires c.Ok(file)
    ensures c.(recycled := true).Ok(file)
  {
  }

  lemma SamePlace(file: Bytes, x: nat)
    ensures Adjacent(file, x, x)
  {
  }

  /** A refill skips a trailer only. */
  lemma SkipsShort(file: Bytes, c: Cursor)
    requires c.Ok(file) && !c.eof
    requires || c.end - c.at < HEADER_SIZE
             || (c.end - c.at < RECYCLABLE_HEADER_SIZE && IsRecyclableType(file[c.at + 6]))
    ensures Adjacent(file, c.at, c.end) && c.end % BLOCK_SIZE == 0 && (c.at % BLOCK_SIZE == 0 ==> c.end == c.at)
  {
    hide IsRecyclableType;
    if c.at < c.end {
      assert c.end == c.at - c.at % BLOCK_SIZE + BLOCK_SIZE;
    }
  }

  lemma FrameIsGenuine(file: Bytes, rc: ReaderConfig, c: Cursor) returns (p: Piece)
    requires c.Ok(file) && c.end - c.at >= HEADER_SIZE && c.end - c.at >= TypeHeaderSize(file[c.at + 6])
    requires IsData(ParseFrame(file, rc, c).code)
    ensures var ph := ParseFrame(file, rc, c);
            && p.Genuine(file, rc) && p.t == ph.code && p.Payload(file) == ph.fragment
            && c.at == p.at && p.End() == ph.next.at
  {
    hide ParseBuffer, IsData, Cursor.Ok, Piece.Genuine;
    WithinBlock(file, c);
    p := BufferIsGenuine(file, rc, c.at, c.end);
  }

  /** What is found at the front of a buffer is a frame of the file. */
  lemma BufferIsGenuine(file: Bytes, rc: ReaderConfig, at: nat, end: nat) returns (p: Piece)
    requires at + HEADER_SIZE <= end <= |file| && at + TypeHeaderSize(file[at + 6]) <= end
    requires at % BLOCK_SIZE + (end - at) <= BLOCK_SIZE && IsData(ParseBuffer(rc, file[at..end]).code)
    ensures var f := ParseBuffer(rc, file[at..end]);
            && p.Genuine(file, rc) && p.t == f.code && p.Payload(file) == f.fragment
            && p.at == at && p.End() == at + f.used
  {
    hide IsRecyclableType, TypeHeaderSize, IsNoChecksumType, DecodeFixed32, ParseBuffer, IsData;
    var h := file[at..end];
    var size := TypeHeaderSize(h[6]) + (h[4] as int + 256 * (h[5] as int));
    p := Piece(at, h[6], size);
    HeaderSizes(h[6]);
    BufferIsChecked(rc, h);
    Slice(file, at, end, 0, 4);
    Slice(file, at, end, 6, size);
    Slice(file, at, end, TypeHeaderSize(h[6]), size);
    if IsRecyclableType(h[6]) {
      Slice(file, at, end, 7, 11);
    }
  }

  lemma HeaderSizes(t: Byte)
    ensures IsRecyclableType(t) ==> TypeHeaderSize(t) == RECYCLABLE_HEADER_SIZE
  {
  }

  /** A data type is found only behind the tests of length, log number and checksum. */
  lemma BufferIsChecked(rc: ReaderConfig, h: Bytes)
    requires |h| >= HEADER_SIZE && |h| >= TypeHeaderSize(h[6]) && IsData(ParseBuffer(rc, h).code)
    ensures var t := h[6];
            var size := TypeHeaderSize(t) + (h[4] as int + 256 * (h[5] as int));
            && size <= |h| && ParseBuffer(rc, h) == Found(t, h[TypeHeaderSize(t)..size], 0, size)
            && (IsRecyclableType(t) ==> DecodeFixed32(h[7..11]) == rc.logNumber)
            && (rc.verify && !IsNoChecksumType(t) ==>
            rc.crc.value(h[6..size]) == rc.crc.unmask(DecodeFixed32(h[..4])))
  {
  }

  lemma Slice(file: Bytes, at: nat, end: nat, k: nat, n: nat)
    requires at <= end <= |file| && k <= n <= end - at
    ensures file[at..end][k..n] == file[at + k..at + n]
  {
    forall i | 0 <= i < n - k ensures file[at..end][k..n][i] == file[at + k..at + n][i] {
      assert file[at..end][k + i] == file[at + k + i];
    }
  }

  // ----- one record -----

  lemma JoinedMore(file: Bytes, rc: ReaderConfig, pieces: seq<Piece>, p: Piece)
    requires AllGenuine(file, rc, pieces) && p.Genuine(file, rc)
    ensures AllGenuine(file, rc, pieces + [p])
    ensures Joined(file, rc, pieces + [p]) == Joined(file, rc, pieces) + p.Payload(file)
  {
    assert (pieces + [p])[..|pieces|] == pieces;
  }

  lemma JoinedOne(file: Bytes, rc: ReaderConfig, p: Piece)
    requires p.Genuine(file, rc)
    ensures AllGenuine(file, rc, [p]) && Joined(file, rc, [p]) == p.Payload(file)
  {
    hide Piece.Genuine;
    JoinedMore(file, rc, [], p);
    assert [] + [p] == [p];
  }

  lemma BetweenMore(pieces: seq<Piece>, from: nat, to: nat, p: Piece)
    requires Between(pieces, from, to) && from <= to <= p.at
    ensures Between(pieces + [p], from, p.End())
  {
  }

  /** From the middle of `ReadRecord`: what is delivered consists of the fragments gathered so far and
      of those read now. */
  lemma {:induction false} OneRecord(file: Bytes, rc: ReaderConfig, mode: Mode, s: ReaderState, scratch: Bytes,
                                     inFragment: bool, from: nat, gathered: seq<Piece>) returns (pieces: seq<Piece>)
    requires s.cursor.Ok(file) && from <= s.cursor.at && ReadOne(file, rc, mode, s, scratch, inFragment).0.Record?
    requires inFragment ==> Begun(file, rc, gathered, scratch) && Between(gathered, from, s.cursor.at)
    requires inFragment ==> Reaches(file, gathered, s.cursor.at)
    ensures var (outcome, t) := ReadOne(file, rc, mode, s, scratch, inFragment);
            Assembled(file, rc, pieces, outcome.data) && Between(pieces, from, t.cursor.at)
    decreases |file| - s.cursor.at
  {
    hide ReadPhysical, Cursor.Ok, Piece.Genuine, Joined, Begun, Assembled, Between, Reaches, Adjacent;
    CursorInFile(file, s.cursor);
    var ph := ReadPhysical(file, rc, s.cursor);
    var (action, said) := Switch(mode, ph, scratch, inFragment);
    var next: seq<Piece> := gathered;
    if IsData(ph.code) {
      var p := PhysicalIsGenuine(file, rc, s.cursor);
      if IsFull(p.t) {
        Single(file, rc, p, from);
        return [p];
      } else if IsFirst(p.t) {
        next := [p];
        FirstOne(file, rc, p, from);
      } else if inFragment && IsMiddle(p.t) {
        next := gathered + [p];
        ReachesOn(file, gathered, s.cursor.at, p.at);
        MiddleOne(file, rc, gathered, scratch, p, from, s.cursor.at);
      } else if inFragment {
        ReachesOn(file, gathered, s.cursor.at, p.at);
        LastOne(file, rc, gathered, scratch, p, from, s.cursor.at);
        return gathered + [p];
      }
    }
    var t := ReaderState(ph.next, s.reports + said);
    pieces := OneRecord(file, rc, mode, t, action.scratch, action.inFragment, from, next);
  }

  lemma WithinBlock(file: Bytes, c: Cursor)
    requires c.Ok(file)
    ensures c.at <= c.end <= |file| && (c.at < c.end ==> c.at % BLOCK_SIZE + (c.end - c.at) <= BLOCK_SIZE)
  {
  }

  lemma CursorInFile(file: Bytes, c: Cursor)
    requires c.Ok(file)
    ensures c.at <= c.end <= |file|
  {
  }

  lemma Single(file: Bytes, rc: ReaderConfig, p: Piece, from: nat)
    requires p.Genuine(file, rc) && IsFull(p.t) && from <= p.at
    ensures Assembled(file, rc, [p], p.Payload(file)) && Between([p], from, p.End())
  {
    hide Piece.Genuine, Joined, Adjacent;
    SamePlace(file, p.End());
    JoinedOne(file, rc, p);
  }

  lemma FirstOne(file: Bytes, rc: ReaderConfig, p: Piece, from: nat)
    requires p.Genuine(file, rc) && IsFirst(p.t) && from <= p.at
    ensures Begun(file, rc, [p], p.Payload(file)) && Between([p], from, p.End()) && Reaches(file, [p], p.End())
  {
    hide Piece.Genuine, Joined, Adjacent;
    SamePlace(file, p.End());
    JoinedOne(file, rc, p);
  }

  lemma MiddleOne(file: Bytes, rc: ReaderConfig, gathered: seq<Piece>, scratch: Bytes, p: Piece, from: nat, to: nat)
    requires Begun(file, rc, gathered, scratch) && Between(gathered, from, to) && from <= to <= p.at
    requires p.Genuine(file, rc) && IsMiddle(p.t) && Reaches(file, gathered, p.at)
    ensures Begun(file, rc, gathered + [p], scratch + p.Payload(file)) && Between(gathered + [p], from, p.End())
    ensures Reaches(file, gathered + [p], p.End())
  {
    hide Piece.Genuine, Joined, Contiguous, Reaches, Between;
    ContiguousMore(file, gathered, p);
    JoinedMore(file, rc, gathered, p);
    BetweenMore(gathered, from, to, p);
  }

  lemma LastOne(file: Bytes, rc: ReaderConfig, gathered: seq<Piece>, scratch: Bytes, p: Piece, from: nat, to: nat)
    requires Begun(file, rc, gathered, scratch) && Between(gathered, from, to) && from <= to <= p.at
    requires p.Genuine(file, rc) && IsLast(p.t) && Reaches(file, gathered, p.at)
    ensures Assembled(file, rc, gathered + [p], scratch + p.Payload(file)) && Between(gathered + [p], from, p.End())
  {
    hide Piece.Genuine, Joined, Contiguous, Reaches, Between;
    ContiguousMore(file, gathered, p);
    JoinedMore(file, rc, gathered, p);
    BetweenMore(gathered, from, to, p);
  }

  // ----- a whole file -----

  /** The records of a file one behind the other. */
  ghost predicate AllAssembled(file: Bytes, rc: ReaderConfig, records: seq<Bytes>, pieces: seq<seq<Piece>>, from: nat) {
    && |pieces| == |records|
    && (forall i :: 0 <= i < |records| ==>
          Assembled(file, rc, pieces[i], records[i]) && Between(pieces[i], from, |file|))
    && (forall i, j :: 0 <= i < j < |pieces| ==> Precedes(pieces[i], pieces[j]))
  }

  ghost predicate Precedes(a: seq<Piece>, b: seq<Piece>) {
    forall i, j :: 0 <= i < |a| && 0 <= j < |b| ==> a[i].End() <= b[j].at
  }

  lemma {:induction false} EveryRecordFrom(file: Bytes, rc: ReaderConfig, mode: Mode, s: ReaderState)
    returns (pieces: seq<seq<Piece>>)
    requires s.cursor.Ok(file)
    ensures AllAssembled(file, rc, ReadAll(file, rc, mode, s).records, pieces, s.cursor.at)
    decreases |file| - s.cursor.at
  {
    hide ReadOne, Assembled;
    var (outcome, t) := ReadOne(file, rc, mode, s, [], false);
    pieces := [];
    if outcome.Record? {
      var first := OneRecord(file, rc, mode, s, [], false, s.cursor.at, []);
      var rest := EveryRecordFrom(file, rc, mode, t);
      pieces := [first] + rest;
      forall j | 0 <= j < |rest| ensures Precedes(first, rest[j]) {
        assert Between(rest[j], t.cursor.at, |file|);
      }
    }
  }

  /** From any bytes, in any mode: every record returned is assembled from intact frames of one
      record, and the records come in the order of their frames. */
  lemma EveryRecordIsGenuine(file: Bytes, rc: ReaderConfig, mode: Mode) returns (pieces: seq<seq<Piece>>)
    ensures AllAssembled(file, rc, ReadFile(file, rc, mode).records, pieces, 0)
  {
    pieces := EveryRecordFrom(file, rc, mode, ReaderState(START, []));
  }
}
