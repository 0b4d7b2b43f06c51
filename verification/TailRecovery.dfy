/** A tailing reader on a log that grows by arbitrary amounts between calls: every
    call returns the next record if and only if all of it is visible, and nothing is ever reported. */
module TailRecovery {
  import opened LogFormat
  import opened LogParse
  import opened TailParse
  import opened LogRecovery

  // ----- filling the buffer -----

  /** Within a block, the bytes asked for arrive exactly when they are in the file. */
  lemma {:induction false} FillInBlock(file: Bytes, c: Cursor, need: nat)
    requires TailOk(file, c) && c.at % BLOCK_SIZE + need <= BLOCK_SIZE
    ensures Fill(file, c, need).1.at == c.at
    ensures Fill(file, c, need).0 <==> |file| - c.at >= need
    decreases |file| - c.end, !c.eof
  {
    if c.end - c.at < need {
      var d := More(file, c);
      assert !c.eof ==> c.at == c.end;
      if d.end - d.at != c.end - c.at {
        FillInBlock(file, d, need);
      }
    }
  }

  /** Behind the last frame of a block, the reader moves on to the next block once it sees it. */
  lemma {:induction false} FillAcrossPadding(file: Bytes, c: Cursor)
    requires TailOk(file, c) && 0 < Pad(HEADER_SIZE, c.at)
    ensures var (ok, d) := Fill(file, c, HEADER_SIZE);
            var q := c.at + Pad(HEADER_SIZE, c.at);
            && (ok <==> |file| - q >= HEADER_SIZE)
            && (d.at == q || (!ok && d.at == c.at))
    decreases |file| - c.end, !c.eof
  {
    hide Pad;
    var d := More(file, c);
    var q := c.at + Pad(HEADER_SIZE, c.at);
    WithinPadding(file, c);
    if c.eof {
      if d.end - d.at != c.end - c.at {
        FillAcrossPadding(file, d);
      }
    } else if d.end - d.at != c.end - c.at {
      FillInBlock(file, d, HEADER_SIZE);
    }
  }

  lemma WithinPadding(file: Bytes, c: Cursor)
    requires TailOk(file, c) && 0 < Pad(HEADER_SIZE, c.at)
    ensures var q := c.at + Pad(HEADER_SIZE, c.at);
            && q % BLOCK_SIZE == 0 && Pad(HEADER_SIZE, q) == 0
            && c.end <= q < c.at + HEADER_SIZE && (!c.eof ==> c.end == q)
  {
    assert (c.at + Pad(HEADER_SIZE, c.at)) % BLOCK_SIZE == 0;
  }

  /** A short buffer ends where it ended before, or with what is visible. */
  predicate Buffers(file: Bytes, c: Cursor, d: Cursor) {
    d.eof ==> d.end == |file| || (c.eof && d.end == c.end)
  }

  lemma {:induction false} FillBuffers(file: Bytes, c: Cursor, need: nat)
    requires TailOk(file, c)
    ensures Buffers(file, c, Fill(file, c, need).1)
    decreases |file| - c.end, !c.eof
  {
    if c.end - c.at < need {
      var d := More(file, c);
      if d.end - d.at != c.end - c.at {
        FillBuffers(file, d, need);
      }
    }
  }

  lemma BodyBuffers(file: Bytes, rc: ReaderConfig, c: Cursor)
    requires TailOk(file, c) && c.end - c.at >= HEADER_SIZE && c.end - c.at >= TypeHeaderSize(file[c.at + 6])
    ensures Buffers(file, c, Body(file, rc, c).next)
  {
    hide Fill, ParseBuffer, TailOk;
    CursorVisible(file, c);
    FillBuffers(file, c, TypeHeaderSize(file[c.at + 6]) + (file[c.at + 4] as int + 256 * (file[c.at + 5] as int)));
  }

  lemma TryBuffers(file: Bytes, rc: ReaderConfig, c: Cursor)
    requires TailOk(file, c)
    ensures Buffers(file, c, TryFragment(file, rc, c).next)
  {
    hide Fill, Body, IsRecyclableType, DecodeFixed32;
    FillBuffers(file, c, HEADER_SIZE);
    var (ok, d) := Fill(file, c, HEADER_SIZE);
    if ok {
      if !IsRecyclableType(file[d.at + 6]) {
        BodyBuffers(file, rc, d);
      } else {
        var f := d.(recycled := true);
        FillBuffers(file, f, RECYCLABLE_HEADER_SIZE);
        var (ok', g) := Fill(file, f, RECYCLABLE_HEADER_SIZE);
        if ok' && g.at == d.at {
          BodyBuffers(file, rc, g);
        }
      }
    }
  }

  // ----- one fragment -----

  /** The header of a written frame, seen through a file that may end inside the frame. */
  lemma VisibleHeader(cfg: LogConfig, begin: bool, end: bool, payload: Bytes, file: Bytes, q: nat)
    requires |payload| <= 0xffff && q + HEADER_SIZE <= |file|
    requires var fr := Frame(cfg.crc, cfg.logNumber, DataType(cfg, begin, end), payload);
             Has(file, q, fr) || Cut(file, q, fr)
    ensures file[q + 6] == DataType(cfg, begin, end)
    ensures file[q + 4] as int + 256 * (file[q + 5] as int) == |payload|
    ensures cfg.recycle && q + RECYCLABLE_HEADER_SIZE <= |file| ==>
              file[q + 7..q + 11] == LogNumberBytes(cfg.logNumber)
  {
    hide DataType, Frame, LogNumberBytes;
    var fr := Frame(cfg.crc, cfg.logNumber, DataType(cfg, begin, end), payload);
    FrameBytes(cfg.crc, cfg.logNumber, DataType(cfg, begin, end), payload);
    var n := if Has(file, q, fr) then |fr| else |file| - q;
    var seen := file[q..q + n];
    assert seen == fr[..n];
    assert file[q + 4] == seen[4] && file[q + 5] == seen[5] && file[q + 6] == seen[6];
    if cfg.recycle && q + RECYCLABLE_HEADER_SIZE <= |file| {
      assert forall i :: 7 <= i < 11 ==> file[q + i] == seen[i] == fr[i];
      assert file[q + 7..q + 11] == fr[7..11];
    }
  }

  lemma BodyOfFrame(cfg: LogConfig, rc: ReaderConfig, begin: bool, end: bool, payload: Bytes, file: Bytes, c: Cursor)
    requires Matches(cfg, rc) && |payload| <= 0xffff && TailOk(file, c)
    requires c.end - c.at >= cfg.HeaderSize()
    requires c.at % BLOCK_SIZE + cfg.HeaderSize() + |payload| <= BLOCK_SIZE
    requires var fr := Frame(cfg.crc, cfg.logNumber, DataType(cfg, begin, end), payload);
             Has(file, c.at, fr) || Cut(file, c.at, fr)
    ensures file[c.at + 6] == DataType(cfg, begin, end)
    ensures var fr := Frame(cfg.crc, cfg.logNumber, DataType(cfg, begin, end), payload);
            var r := Body(file, rc, c);
            && r.next.recycled == c.recycled && r.next.firstRead == c.firstRead
            && (Has(file, c.at, fr) ==>
                  && r.Fragment? && r.code == DataType(cfg, begin, end)
                  && r.fragment == payload && r.next.at == c.at + |fr|)
            && (Cut(file, c.at, fr) ==> r.NoFragment? && r.next.at == c.at)
  {
    hide Frame, DataType, Fill, ParseBuffer, Matches, TailOk, Has, Cut;
    CursorVisible(file, c);
    VisibleHeader(cfg, begin, end, payload, file, c.at);
    var size := cfg.HeaderSize() + |payload|;
    FillInBlock(file, c, size);
    var fr := Frame(cfg.crc, cfg.logNumber, DataType(cfg, begin, end), payload);
    var (ok, d) := Fill(file, c, size);
    Extent(file, c.at, fr);
    if ok {
      ParseBuffered(cfg, rc, begin, end, payload, file, d);
    }
  }

  lemma Extent(file: Bytes, p: nat, b: Bytes)
    ensures Has(file, p, b) ==> |file| - p >= |b|
    ensures Cut(file, p, b) ==> |file| - p < |b|
  {
  }

  lemma ParseBuffered(cfg: LogConfig, rc: ReaderConfig, begin: bool, end: bool, payload: Bytes, file: Bytes, d: Cursor)
    requires Matches(cfg, rc) && |payload| <= 0xffff && TailOk(file, d)
    requires d.end - d.at >= cfg.HeaderSize() + |payload|
    requires Has(file, d.at, Frame(cfg.crc, cfg.logNumber, DataType(cfg, begin, end), payload))
    ensures var h := file[d.at..d.end];
            && |h| >= HEADER_SIZE && |h| >= TypeHeaderSize(h[6])
            && ParseBuffer(rc, h) == Found(DataType(cfg, begin, end), payload, 0, cfg.HeaderSize() + |payload|)
  {
    hide Frame, DataType, ParseBuffer, Matches;
    var fr := Frame(cfg.crc, cfg.logNumber, DataType(cfg, begin, end), payload);
    var h := file[d.at..d.end];
    assert h[..|fr|] == file[d.at..d.at + |fr|];
    ParseWritten(cfg, rc, begin, end, payload, h);
  }

  /** The number in a visible recyclable header is the number the reader looks for. */
  lemma NumberMatches(cfg: LogConfig, rc: ReaderConfig)
    requires Matches(cfg, rc) && cfg.recycle
    ensures DecodeFixed32(LogNumberBytes(cfg.logNumber)) == rc.logNumber
  {
    hide Fixed32, DecodeFixed32;
    Fixed32RoundTrip(cfg.logNumber);
  }

  /** A written frame at the cursor, its short header buffered: it is taken if it is visible. */
  lemma FrameAtCursor(cfg: LogConfig, rc: ReaderConfig, begin: bool, end: bool, payload: Bytes, file: Bytes, c: Cursor)
    requires Matches(cfg, rc) && |payload| <= 0xffff && TailOk(file, c) && Fits(cfg, c)
    requires c.end - c.at >= HEADER_SIZE
    requires c.at % BLOCK_SIZE + cfg.HeaderSize() + |payload| <= BLOCK_SIZE
    requires var fr := Frame(cfg.crc, cfg.logNumber, DataType(cfg, begin, end), payload);
             Has(file, c.at, fr) || Cut(file, c.at, fr)
    ensures var fr := Frame(cfg.crc, cfg.logNumber, DataType(cfg, begin, end), payload);
            var r := AfterHeader(file, rc, c);
            && r.next.firstRead == c.firstRead && (cfg.recycle ==> r.next.recycled)
            && (Has(file, c.at, fr) ==>
                  && r.Fragment? && r.code == DataType(cfg, begin, end)
                  && r.fragment == payload && r.next.at == c.at + |fr|
                  && r.next.recycled == (c.recycled || cfg.recycle))
            && (Cut(file, c.at, fr) ==> r.NoFragment? && r.next.at == c.at)
  {
    hide Frame, DataType, Fill, Body, Matches, LogNumberBytes, DecodeFixed32;
    VisibleHeader(cfg, begin, end, payload, file, c.at);
    if !cfg.recycle {
      BodyOfFrame(cfg, rc, begin, end, payload, file, c);
    } else {
      var e := c.(recycled := true);
      FillInBlock(file, e, RECYCLABLE_HEADER_SIZE);
      var (ok, f) := Fill(file, e, RECYCLABLE_HEADER_SIZE);
      if ok {
        NumberMatches(cfg, rc);
        BodyOfFrame(cfg, rc, begin, end, payload, file, f);
      }
    }
  }

  /** The next fragment is taken when it is visible; otherwise the reader stays where it is, or has
      moved past the padding before it. */
  lemma TryPiece(cfg: LogConfig, rc: ReaderConfig, file: Bytes, c: Cursor, data: Bytes, begin: bool)
    requires Matches(cfg, rc) && TailOk(file, c) && Fits(cfg, c) && Pad(cfg.HeaderSize(), c.at) < HEADER_SIZE
    requires var piece := FirstPiece(cfg, c.at, data, begin); Has(file, c.at, piece) || Cut(file, c.at, piece)
    ensures var piece := FirstPiece(cfg, c.at, data, begin);
            var k := FragmentLength(cfg.HeaderSize(), c.at, |data|);
            var r := TryFragment(file, rc, c);
            && r.next.firstRead == c.firstRead && Fits(cfg, r.next)
            && (Has(file, c.at, piece) ==>
                  && r.Fragment? && r.code == DataType(cfg, begin, k == |data|)
                  && r.next.recycled == (c.recycled || cfg.recycle)
                  && r.fragment == data[..k] && r.next.at == c.at + |piece|)
            && (Cut(file, c.at, piece) ==>
                  r.NoFragment? && (r.next.at == c.at || r.next.at == c.at + Pad(cfg.HeaderSize(), c.at)))
  {
    hide Frame, DataType, Fill, AfterHeader, Matches, TailOk, Has, Cut;
    var h := cfg.HeaderSize();
    var p := c.at;
    var pad := Pad(h, p);
    var k := FragmentLength(h, p, |data|);
    ShortPad(h, p);
    if pad == 0 {
      FillInBlock(file, c, HEADER_SIZE);
    } else {
      FillAcrossPadding(file, c);
    }
    PieceParts(cfg, file, p, data, begin);
    var (ok, d) := Fill(file, c, HEADER_SIZE);
    if ok {
      FrameAtCursor(cfg, rc, begin, k == |data|, data[..k], file, d);
    }
  }

  lemma ShortPad(h: nat, p: nat)
    requires HEADER_SIZE <= h <= RECYCLABLE_HEADER_SIZE && Pad(h, p) < HEADER_SIZE
    ensures Pad(HEADER_SIZE, p) == Pad(h, p)
  {
  }

  lemma HasLength(file: Bytes, p: nat, b: Bytes)
    requires Has(file, p, b)
    ensures p + |b| <= |file|
  {
  }

  lemma PieceParts(cfg: LogConfig, file: Bytes, p: nat, data: Bytes, begin: bool)
    ensures var h := cfg.HeaderSize();
            var pad := Pad(h, p);
            var k := FragmentLength(h, p, |data|);
            var fr := Frame(cfg.crc, cfg.logNumber, DataType(cfg, begin, k == |data|), data[..k]);
            var piece := FirstPiece(cfg, p, data, begin);
            && |fr| >= h
            && (Has(file, p, piece) ==> Has(file, p + pad, fr) && |file| >= p + pad + HEADER_SIZE)
            && (Cut(file, p, piece) && |file| >= p + pad ==> Cut(file, p + pad, fr))
  {
    hide Frame, DataType, Has, Cut;
    var h := cfg.HeaderSize();
    var pad := Pad(h, p);
    var k := FragmentLength(h, p, |data|);
    var fr := Frame(cfg.crc, cfg.logNumber, DataType(cfg, begin, k == |data|), data[..k]);
    var piece := FirstPiece(cfg, p, data, begin);
    if Has(file, p, piece) {
      HasSplit(file, p, Zeros(pad), fr);
      HasLength(file, p + pad, fr);
    }
    if Cut(file, p, piece) {
      CutSplit(file, p, Zeros(pad), fr);
    }
  }

  // ----- padding -----

  /** Anywhere inside the padding the same fragment is ahead. */
  lemma SamePlace(h: nat, p: nat, x: nat, left: nat)
    requires HEADER_SIZE <= h <= RECYCLABLE_HEADER_SIZE && x <= Pad(h, p)
    ensures var q := p + x;
            && Pad(h, q) == Pad(h, p) - x
            && FragmentLength(h, q, left) == FragmentLength(h, p, left)
            && AfterFragment(h, q, left) == AfterFragment(h, p, left)
  {
    var leftover := BLOCK_SIZE - p % BLOCK_SIZE;
    if 0 < x < leftover {
      assert (p + x) % BLOCK_SIZE == p % BLOCK_SIZE + x;
    } else if 0 < x {
      assert (p + x) % BLOCK_SIZE == 0;
    }
  }

  lemma PieceBehindPadding(cfg: LogConfig, p: nat, x: nat, data: Bytes, begin: bool)
    requires x <= Pad(cfg.HeaderSize(), p)
    ensures FirstPiece(cfg, p, data, begin) == Zeros(x) + FirstPiece(cfg, p + x, data, begin)
  {
    hide Frame, DataType, Pad, FragmentLength;
    var h := cfg.HeaderSize();
    var pad := Pad(h, p);
    var k := FragmentLength(h, p, |data|);
    SamePlace(h, p, x, |data|);
    assert Zeros(pad) == Zeros(x) + Zeros(pad - x);
    Assoc(Zeros(x), Zeros(pad - x), Frame(cfg.crc, cfg.logNumber, DataType(cfg, begin, k == |data|), data[..k]));
  }

  /** Padding is only a detour: the same record is written from anywhere inside it. */
  lemma RecordBehindPadding(cfg: LogConfig, p: nat, x: nat, data: Bytes, begin: bool)
    requires x <= Pad(cfg.HeaderSize(), p)
    ensures RecordBytes(cfg, p, data, begin) == Zeros(x) + RecordBytes(cfg, p + x, data, begin)
  {
    hide RecordBytes, FirstPiece, Pad, FragmentLength;
    var h := cfg.HeaderSize();
    var k := FragmentLength(h, p, |data|);
    RecordBytesStep(cfg, p, data, begin);
    RecordBytesStep(cfg, p + x, data, begin);
    SamePlace(h, p, x, |data|);
    PieceBehindPadding(cfg, p, x, data, begin);
    var rest := if k == |data| then [] else RecordBytes(cfg, AfterFragment(h, p, |data|), data[k..], false);
    Assoc(Zeros(x), FirstPiece(cfg, p + x, data, begin), rest);
  }

  /** Padding of a header's length or more, which only recyclable logs have: the reader takes what it sees
      of it for an empty record, once that is enough for a header. */
  lemma TryLongPadding(cfg: LogConfig, rc: ReaderConfig, file: Bytes, c: Cursor, data: Bytes, begin: bool)
    requires TailOk(file, c) && Pad(cfg.HeaderSize(), c.at) >= HEADER_SIZE
    requires var piece := FirstPiece(cfg, c.at, data, begin); Has(file, c.at, piece) || Cut(file, c.at, piece)
    ensures var r := TryFragment(file, rc, c);
            && r.next.firstRead == c.firstRead && r.next.recycled == c.recycled
            && if |file| - c.at < HEADER_SIZE then r.NoFragment? && r.next.at == c.at
               else && r.Fragment? && r.code == BAD_RECORD && r.fragment == []
                    && c.at + HEADER_SIZE <= r.next.at <= c.at + Pad(cfg.HeaderSize(), c.at)
  {
    hide Fill, FirstPiece, AfterHeader, Has, Cut, TailOk, Pad;
    var p := c.at;
    PadToBlockEnd(cfg.HeaderSize(), p);
    FillInBlock(file, c, HEADER_SIZE);
    var (ok, d) := Fill(file, c, HEADER_SIZE);
    if ok {
      WithinBlock(file, d);
      SeenZeros(cfg, file, p, data, begin, d.end);
      ZerosAtCursor(rc, file, d);
    }
  }

  lemma PadToBlockEnd(h: nat, p: nat)
    requires HEADER_SIZE <= h <= RECYCLABLE_HEADER_SIZE && Pad(h, p) > 0
    ensures p % BLOCK_SIZE + Pad(h, p) == BLOCK_SIZE
  {
  }

  lemma WithinBlock(file: Bytes, c: Cursor)
    requires TailOk(file, c) && c.at < c.end
    ensures c.at % BLOCK_SIZE + (c.end - c.at) <= BLOCK_SIZE && c.end <= |file|
  {
  }

  lemma ZerosAtCursor(rc: ReaderConfig, file: Bytes, c: Cursor)
    requires TailOk(file, c) && c.end - c.at >= HEADER_SIZE && file[c.at..c.end] == Zeros(c.end - c.at)
    ensures AfterHeader(file, rc, c) == Fragment(BAD_RECORD, [], 0, c.(at := c.end))
  {
    hide Fill, ParseBuffer;
    var seen := file[c.at..c.end];
    assert file[c.at + 4] == seen[4] && file[c.at + 5] == seen[5] && file[c.at + 6] == seen[6];
    FillNothing(file, c, HEADER_SIZE);
    ParseZeros(rc, seen);
  }

  lemma FillNothing(file: Bytes, c: Cursor, need: nat)
    requires TailOk(file, c) && c.end - c.at >= need
    ensures Fill(file, c, need) == (true, c)
  {
  }

  lemma SeenZeros(cfg: LogConfig, file: Bytes, p: nat, data: Bytes, begin: bool, end: nat)
    requires p <= end <= |file| && end <= p + Pad(cfg.HeaderSize(), p)
    requires var piece := FirstPiece(cfg, p, data, begin); Has(file, p, piece) || Cut(file, p, piece)
    ensures file[p..end] == Zeros(end - p)
  {
    hide FirstPiece, Pad;
    var piece := FirstPiece(cfg, p, data, begin);
    PieceBehindPadding(cfg, p, end - p, data, begin);
    assert piece[..end - p] == Zeros(end - p);
    if Has(file, p, piece) {
      assert file[p..end] == file[p..p + |piece|][..end - p];
    } else {
      assert file[p..end] == file[p..][..end - p];
    }
  }

  // ----- one record, over any number of calls -----

  /** The reader is inside a record of which `left` is still to come. */
  predicate Midway(s: TailState, left: Bytes, begin: bool, data: Bytes) {
    && s.fragments + left == data
    && s.inFragment == !begin
    && (if begin then s.fragments == [] else s.cursor.at % BLOCK_SIZE == 0)
  }

  /** Long padding costs a turn of the loop, or a wait if too little of it is visible. */
  lemma SkipLong(cfg: LogConfig, rc: ReaderConfig, file: Bytes, s: TailState, left: Bytes, begin: bool, data: Bytes)
      returns (s1: TailState, waits: bool)
    requires TailOk(file, s.cursor) && Fits(cfg, s.cursor) && Midway(s, left, begin, data)
    requires var piece := FirstPiece(cfg, s.cursor.at, left, begin);
             Has(file, s.cursor.at, piece) || Cut(file, s.cursor.at, piece)
    ensures TailOk(file, s1.cursor) && Fits(cfg, s1.cursor) && Midway(s1, left, begin, data) && s1.reports == s.reports
    ensures s.cursor.at <= s1.cursor.at <= s.cursor.at + Pad(cfg.HeaderSize(), s.cursor.at)
    ensures s1.cursor.recycled == s.cursor.recycled && Buffers(file, s.cursor, s1.cursor)
    ensures if waits then
              |file| < s.cursor.at + Pad(cfg.HeaderSize(), s.cursor.at) && TailOne(file, rc, s) == (NoMore, s1)
            else
              Pad(cfg.HeaderSize(), s1.cursor.at) < HEADER_SIZE && TailOne(file, rc, s) == TailOne(file, rc, s1)
  {
    hide FirstPiece, TryFragment, TailOk, Has, Cut, Pad;
    var h := cfg.HeaderSize();
    s1, waits := s, false;
    if Pad(h, s.cursor.at) >= HEADER_SIZE {
      PadToBlockEnd(h, s.cursor.at);
      TryLongPadding(cfg, rc, file, s.cursor, left, begin);
      TryBuffers(file, rc, s.cursor);
      var r := TryFragment(file, rc, s.cursor);
      s1, waits := s.(cursor := r.next), r.NoFragment?;
      if !waits {
        assert s.reports + [] == s.reports;
        SamePlace(h, s.cursor.at, r.next.at - s.cursor.at, |left|);
      }
    }
  }

  lemma SwitchFollowing(cfg: LogConfig, s: TailState, begin: bool, end: bool, fragment: Bytes, drop: nat)
    requires s.inFragment == !begin && (begin ==> s.fragments == [])
    ensures TailSwitch(s, DataType(cfg, begin, end), fragment, drop)
         == (if end then Deliver(s.fragments + fragment) else Go(s.fragments + fragment, true), [])
  {
    hide DataType;
    assert begin ==> s.fragments + fragment == fragment;
  }

  /** A visible fragment behind short padding is one turn of the loop. */
  lemma FollowShort(cfg: LogConfig, rc: ReaderConfig, file: Bytes, s: TailState, left: Bytes, begin: bool, data: Bytes)
      returns (s1: TailState)
    requires Matches(cfg, rc) && TailOk(file, s.cursor) && Fits(cfg, s.cursor) && Midway(s, left, begin, data)
    requires Pad(cfg.HeaderSize(), s.cursor.at) < HEADER_SIZE
    requires Has(file, s.cursor.at, FirstPiece(cfg, s.cursor.at, left, begin))
    ensures TailOk(file, s1.cursor) && Fits(cfg, s1.cursor) && s1.reports == s.reports
    ensures s1.cursor.at == AfterFragment(cfg.HeaderSize(), s.cursor.at, |left|)
    ensures s1.cursor.recycled == (s.cursor.recycled || cfg.recycle) && Buffers(file, s.cursor, s1.cursor)
    ensures var k := FragmentLength(cfg.HeaderSize(), s.cursor.at, |left|);
            if k == |left| then TailOne(file, rc, s) == (Record(data), s1) && s1.fragments == [] && !s1.inFragment
            else TailOne(file, rc, s) == TailOne(file, rc, s1) && Midway(s1, left[k..], false, data)
  {
    hide FirstPiece, TryFragment, TailSwitch, DataType, TailOk, Matches, Has, Pad, FragmentLength;
    TryPiece(cfg, rc, file, s.cursor, left, begin);
    TryBuffers(file, rc, s.cursor);
    var h := cfg.HeaderSize();
    var k := FragmentLength(h, s.cursor.at, |left|);
    var r := TryFragment(file, rc, s.cursor);
    var t := s.(cursor := r.next);
    SwitchFollowing(cfg, t, begin, k == |left|, left[..k], r.drop);
    assert s.reports + [] == s.reports;
    assert s.fragments + left[..k] + left[k..] == s.fragments + left;
    Marked(file, r.next);
    s1 := if k == |left| then TailState(r.next.(firstRead := true), [], false, s.reports)
          else t.(fragments := s.fragments + left[..k], inFragment := true);
    if k == |left| {
      assert left[..k] == left;
    } else {
      NonFinalFragmentFillsBlock(h, s.cursor.at, |left|);
    }
  }

  lemma Marked(file: Bytes, c: Cursor)
    requires TailOk(file, c)
    ensures TailOk(file, c.(firstRead := true)) && TailOk(file, c.(recycled := true))
  {
  }

  /** A visible fragment is read in one or two turns of the loop. */
  lemma FollowPiece(cfg: LogConfig, rc: ReaderConfig, file: Bytes, s: TailState, left: Bytes, begin: bool, data: Bytes)
      returns (s1: TailState)
    requires Matches(cfg, rc) && TailOk(file, s.cursor) && Fits(cfg, s.cursor) && Midway(s, left, begin, data)
    requires Has(file, s.cursor.at, FirstPiece(cfg, s.cursor.at, left, begin))
    ensures TailOk(file, s1.cursor) && Fits(cfg, s1.cursor) && s1.reports == s.reports
    ensures s1.cursor.at == AfterFragment(cfg.HeaderSize(), s.cursor.at, |left|)
    ensures s1.cursor.recycled == (s.cursor.recycled || cfg.recycle) && Buffers(file, s.cursor, s1.cursor)
    ensures var k := FragmentLength(cfg.HeaderSize(), s.cursor.at, |left|);
            if k == |left| then TailOne(file, rc, s) == (Record(data), s1) && s1.fragments == [] && !s1.inFragment
            else TailOne(file, rc, s) == TailOne(file, rc, s1) && Midway(s1, left[k..], false, data)
  {
    hide FirstPiece, TailOne, TailOk, Matches, Fits, Has, Pad, FragmentLength, AfterFragment, Midway;
    var p := s.cursor.at;
    var s0, waits := SkipLong(cfg, rc, file, s, left, begin, data);
    var x := s0.cursor.at - p;
    SamePlace(cfg.HeaderSize(), p, x, |left|);
    PieceBehindPadding(cfg, p, x, left, begin);
    HasLength(file, p, FirstPiece(cfg, p, left, begin));
    PadInPiece(cfg, p, left, begin);
    HasSplit(file, p, Zeros(x), FirstPiece(cfg, s0.cursor.at, left, begin));
    s1 := FollowShort(cfg, rc, file, s0, left, begin, data);
  }

  lemma PadInPiece(cfg: LogConfig, p: nat, data: Bytes, begin: bool)
    ensures Pad(cfg.HeaderSize(), p) <= |FirstPiece(cfg, p, data, begin)|
  {
  }

  /** A call that sees the whole rest of the record returns it. */
  lemma {:induction false} FollowVisible(cfg: LogConfig, rc: ReaderConfig, file: Bytes, s: TailState,
                                         left: Bytes, begin: bool, data: Bytes)
    requires Matches(cfg, rc) && TailOk(file, s.cursor) && Fits(cfg, s.cursor) && Midway(s, left, begin, data)
    requires Has(file, s.cursor.at, RecordBytes(cfg, s.cursor.at, left, begin))
    ensures var (outcome, t) := TailOne(file, rc, s);
            && outcome == Record(data)
            && TailOk(file, t.cursor) && Fits(cfg, t.cursor)
            && t.reports == s.reports && t.fragments == [] && !t.inFragment
            && t.cursor.at == s.cursor.at + |RecordBytes(cfg, s.cursor.at, left, begin)|
            && t.cursor.recycled == (s.cursor.recycled || cfg.recycle) && Buffers(file, s.cursor, t.cursor)
    decreases |RecordBytes(cfg, s.cursor.at, left, begin)|
  {
    hide RecordBytes, FirstPiece, TailOne, FragmentLength, Pad, TailOk, Matches, Has, Midway;
    var p := s.cursor.at;
    var k := FragmentLength(cfg.HeaderSize(), p, |left|);
    RecordBytesStep(cfg, p, left, begin);
    var piece := FirstPiece(cfg, p, left, begin);
    if k == |left| {
      assert piece + [] == piece;
      var s1 := FollowPiece(cfg, rc, file, s, left, begin, data);
    } else {
      HasSplit(file, p, piece, RecordBytes(cfg, AfterFragment(cfg.HeaderSize(), p, |left|), left[k..], false));
      var s1 := FollowPiece(cfg, rc, file, s, left, begin, data);
      FollowVisible(cfg, rc, file, s1, left[k..], false, data);
    }
  }

  /** A call that does not see all of it returns nothing, and loses nothing. */
  lemma {:induction false} FollowCut(cfg: LogConfig, rc: ReaderConfig, file: Bytes, s: TailState,
                                     left: Bytes, begin: bool, data: Bytes) returns (left': Bytes, begin': bool)
    requires Matches(cfg, rc) && TailOk(file, s.cursor) && Fits(cfg, s.cursor) && Midway(s, left, begin, data)
    requires Cut(file, s.cursor.at, RecordBytes(cfg, s.cursor.at, left, begin))
    ensures var (outcome, t) := TailOne(file, rc, s);
            var b := RecordBytes(cfg, s.cursor.at, left, begin);
            && outcome == NoMore && TailOk(file, t.cursor) && Fits(cfg, t.cursor) && t.reports == s.reports
            && Midway(t, left', begin', data)
            && s.cursor.at <= t.cursor.at <= s.cursor.at + |b|
            && b[t.cursor.at - s.cursor.at..] == RecordBytes(cfg, t.cursor.at, left', begin')
    decreases |RecordBytes(cfg, s.cursor.at, left, begin)|
  {
    hide RecordBytes, FirstPiece, TailOne, FragmentLength, Pad, TailOk, Matches, Has, Cut, Midway;
    var p := s.cursor.at;
    var k := FragmentLength(cfg.HeaderSize(), p, |left|);
    var q := AfterFragment(cfg.HeaderSize(), p, |left|);
    RecordBytesStep(cfg, p, left, begin);
    var piece := FirstPiece(cfg, p, left, begin);
    var rest := if k == |left| then [] else RecordBytes(cfg, q, left[k..], false);
    CutSplit(file, p, piece, rest);
    if |file| < p + |piece| {
      left', begin' := left, begin;
      WaitForPiece(cfg, rc, file, s, left, begin, data);
    } else {
      CutIsShort(file, p + |piece|, rest);
      var s1 := FollowPiece(cfg, rc, file, s, left, begin, data);
      left', begin' := FollowCut(cfg, rc, file, s1, left[k..], false, data);
      var t := TailOne(file, rc, s).1;
      assert (piece + rest)[t.cursor.at - p..] == rest[t.cursor.at - q..];
    }
  }

  lemma CutIsShort(file: Bytes, p: nat, b: Bytes)
    requires Cut(file, p, b)
    ensures |b| > 0
  {
  }

  /** A fragment that is not wholly visible is waited for, somewhere in the padding before it. */
  lemma WaitForPiece(cfg: LogConfig, rc: ReaderConfig, file: Bytes, s: TailState, left: Bytes, begin: bool, data: Bytes)
    requires Matches(cfg, rc) && TailOk(file, s.cursor) && Fits(cfg, s.cursor) && Midway(s, left, begin, data)
    requires Cut(file, s.cursor.at, FirstPiece(cfg, s.cursor.at, left, begin))
    ensures var (outcome, t) := TailOne(file, rc, s);
            var b := RecordBytes(cfg, s.cursor.at, left, begin);
            && outcome == NoMore && TailOk(file, t.cursor) && Fits(cfg, t.cursor) && t.reports == s.reports
            && Midway(t, left, begin, data)
            && s.cursor.at <= t.cursor.at <= s.cursor.at + |b|
            && b[t.cursor.at - s.cursor.at..] == RecordBytes(cfg, t.cursor.at, left, begin)
  {
    hide RecordBytes, FirstPiece, TailOne, TailOk, Matches, Fits, Cut, Has, Pad, Midway;
    var p := s.cursor.at;
    var s0, waits := SkipLong(cfg, rc, file, s, left, begin, data);
    var x := s0.cursor.at - p;
    SamePlace(cfg.HeaderSize(), p, x, |left|);
    if !waits {
      CursorVisible(file, s0.cursor);
      PieceBehindPadding(cfg, p, x, left, begin);
      CutSplit(file, p, Zeros(x), FirstPiece(cfg, s0.cursor.at, left, begin));
      WaitShort(cfg, rc, file, s0, left, begin, data);
    }
    RecordBehindPadding(cfg, p, TailOne(file, rc, s).1.cursor.at - p, left, begin);
  }

  lemma WaitShort(cfg: LogConfig, rc: ReaderConfig, file: Bytes, s: TailState, left: Bytes, begin: bool, data: Bytes)
    requires Matches(cfg, rc) && TailOk(file, s.cursor) && Fits(cfg, s.cursor) && Midway(s, left, begin, data)
    requires Pad(cfg.HeaderSize(), s.cursor.at) < HEADER_SIZE
    requires Cut(file, s.cursor.at, FirstPiece(cfg, s.cursor.at, left, begin))
    ensures var (outcome, t) := TailOne(file, rc, s);
            && outcome == NoMore && TailOk(file, t.cursor) && Fits(cfg, t.cursor) && t.reports == s.reports
            && Midway(t, left, begin, data)
            && s.cursor.at <= t.cursor.at <= s.cursor.at + Pad(cfg.HeaderSize(), s.cursor.at)
  {
    hide FirstPiece, TryFragment, TailOk, Matches, Cut, Pad;
    TryPiece(cfg, rc, file, s.cursor, left, begin);
    if Pad(cfg.HeaderSize(), s.cursor.at) > 0 {
      PadToBlockEnd(cfg.HeaderSize(), s.cursor.at);
    }
  }

  // ----- a run of calls on a growing log -----

  /** k records have been returned and the reader is somewhere in the next one. */
  ghost predicate Tracking(cfg: LogConfig, records: seq<Bytes>, k: nat, s: TailState) {
    var full := LogBytes(cfg, 0, records);
    && k <= |records|
    && s.reports == []
    && Fits(cfg, s.cursor)
    && (if k == |records| then s.cursor.at == |full| && s.fragments == [] && !s.inFragment
        else InSomeRecord(cfg, full, EndOf(cfg, records, k + 1), records[k], s))
  }

  ghost predicate InSomeRecord(cfg: LogConfig, full: Bytes, end: nat, data: Bytes, s: TailState) {
    exists left, begin :: InRecord(cfg, full, end, data, s, left, begin)
  }

  ghost predicate InRecord(cfg: LogConfig, full: Bytes, end: nat, data: Bytes, s: TailState, left: Bytes, begin: bool) {
    && Midway(s, left, begin, data)
    && Has(full, s.cursor.at, RecordBytes(cfg, s.cursor.at, left, begin))
    && s.cursor.at + |RecordBytes(cfg, s.cursor.at, left, begin)| == end
  }

  lemma RecordPlaced(cfg: LogConfig, records: seq<Bytes>, k: nat)
    requires k < |records|
    ensures var e := EndOf(cfg, records, k);
            && Has(LogBytes(cfg, 0, records), e, RecordBytes(cfg, e, records[k], true))
            && EndOf(cfg, records, k + 1) == e + |RecordBytes(cfg, e, records[k], true)|
  {
    hide RecordBytes, LogBytes;
    var done := LogBytes(cfg, 0, records[..k]);
    var r := RecordBytes(cfg, |done|, records[k], true);
    assert records[..k + 1] == records[..k] + [records[k]];
    LogBytesAppend(cfg, 0, records[..k], records[k]);
    assert records == records[..k + 1] + records[k + 1..];
    LogBytesConcat(cfg, 0, records[..k + 1], records[k + 1..]);
    var tail := LogBytes(cfg, |done + r|, records[k + 1..]);
    assert (done + r + tail)[|done|..|done| + |r|] == r;
  }

  /** Between records: ready for record k. */
  lemma TrackingBetween(cfg: LogConfig, records: seq<Bytes>, k: nat, s: TailState)
    requires k <= |records| && s.cursor.at == EndOf(cfg, records, k)
    requires s.reports == [] && Fits(cfg, s.cursor) && s.fragments == [] && !s.inFragment
    ensures Tracking(cfg, records, k, s)
  {
    hide RecordBytes, LogBytes, Has;
    if k < |records| {
      RecordPlaced(cfg, records, k);
      assert [] + records[k] == records[k];
      assert InRecord(cfg, LogBytes(cfg, 0, records), EndOf(cfg, records, k + 1), records[k], s, records[k], true);
    } else {
      assert records[..k] == records;
    }
  }

  lemma HasPrefix(full: Bytes, n: nat, p: nat, b: Bytes)
    requires n <= |full| && p <= n && Has(full, p, b)
    ensures if p + |b| <= n then Has(full[..n], p, b) else Cut(full[..n], p, b)
  {
    var f := full[..n];
    if p + |b| <= n {
      assert f[p..p + |b|] == full[p..p + |b|];
    } else {
      assert f[p..] == full[p..n] == full[p..p + |b|][..n - p];
    }
  }

  lemma HasSuffix(full: Bytes, p: nat, b: Bytes, q: nat)
    requires Has(full, p, b) && p <= q <= p + |b|
    ensures Has(full, q, b[q - p..])
  {
    assert full[q..p + |b|] == full[p..p + |b|][q - p..];
  }

  /** One call with n bytes visible returns the next record exactly when it ends within them. */
  lemma OneCall(cfg: LogConfig, rc: ReaderConfig, records: seq<Bytes>, k: nat, s: TailState, n: nat)
    requires Matches(cfg, rc) && Tracking(cfg, records, k, s)
    requires n <= |LogBytes(cfg, 0, records)| && TailOk(LogBytes(cfg, 0, records)[..n], s.cursor)
    ensures var (outcome, t) := TailOne(LogBytes(cfg, 0, records)[..n], rc, s);
            var returned := k < |records| && EndOf(cfg, records, k + 1) <= n;
            && TailOk(LogBytes(cfg, 0, records)[..n], t.cursor)
            && outcome == (if returned then Record(records[k]) else NoMore)
            && Tracking(cfg, records, if returned then k + 1 else k, t)
  {
    hide LogBytes, Matches, TailOne, TailOk, EndOf, InRecord;
    var full := LogBytes(cfg, 0, records);
    if k == |records| {
      CursorVisible(full[..n], s.cursor);
      NothingLeft(rc, full[..n], s);
    } else {
      var end := EndOf(cfg, records, k + 1);
      var left, begin :| InRecord(cfg, full, end, records[k], s, left, begin);
      if end <= n {
        CallVisible(cfg, rc, full, n, end, records[k], s, left, begin);
        TrackingBetween(cfg, records, k + 1, TailOne(full[..n], rc, s).1);
      } else {
        CallCut(cfg, rc, full, n, end, records[k], s, left, begin);
      }
    }
  }

  /** The rest of the record is visible. */
  lemma CallVisible(cfg: LogConfig, rc: ReaderConfig, full: Bytes, n: nat, end: nat, data: Bytes, s: TailState,
                    left: Bytes, begin: bool)
    requires Matches(cfg, rc) && end <= n <= |full| && TailOk(full[..n], s.cursor) && Fits(cfg, s.cursor)
    requires InRecord(cfg, full, end, data, s, left, begin)
    ensures var (outcome, t) := TailOne(full[..n], rc, s);
            && outcome == Record(data) && TailOk(full[..n], t.cursor) && Fits(cfg, t.cursor)
            && t.reports == s.reports && t.fragments == [] && !t.inFragment && t.cursor.at == end
  {
    hide RecordBytes, Matches, Has, Cut, TailOne, TailOk, Midway;
    HasPrefix(full, n, s.cursor.at, RecordBytes(cfg, s.cursor.at, left, begin));
    FollowVisible(cfg, rc, full[..n], s, left, begin, data);
  }

  /** The record ends behind what is visible: the reader waits inside it. */
  lemma CallCut(cfg: LogConfig, rc: ReaderConfig, full: Bytes, n: nat, end: nat, data: Bytes, s: TailState, left: Bytes,
                begin: bool)
    requires Matches(cfg, rc) && n < end && n <= |full| && TailOk(full[..n], s.cursor) && Fits(cfg, s.cursor)
    requires InRecord(cfg, full, end, data, s, left, begin)
    ensures var (outcome, t) := TailOne(full[..n], rc, s);
            && outcome == NoMore && TailOk(full[..n], t.cursor) && Fits(cfg, t.cursor) && t.reports == s.reports
            && InSomeRecord(cfg, full, end, data, t)
  {
    hide RecordBytes, Matches, Has, Cut, TailOne, TailOk, Midway;
    CursorVisible(full[..n], s.cursor);
    var p := s.cursor.at;
    var b := RecordBytes(cfg, p, left, begin);
    HasPrefix(full, n, p, b);
    var left', begin' := FollowCut(cfg, rc, full[..n], s, left, begin, data);
    var t := TailOne(full[..n], rc, s).1;
    HasSuffix(full, p, b, t.cursor.at);
    assert InRecord(cfg, full, end, data, t, left', begin');
  }

  lemma CursorVisible(file: Bytes, c: Cursor)
    requires TailOk(file, c)
    ensures c.at <= c.end <= |file|
  {
  }

  lemma NothingLeft(rc: ReaderConfig, file: Bytes, s: TailState)
    requires TailOk(file, s.cursor) && s.cursor.at == |file|
    ensures var (outcome, t) := TailOne(file, rc, s);
            && outcome == NoMore && t == s.(cursor := t.cursor) && TailOk(file, t.cursor)
            && t.cursor.at == s.cursor.at
            && t.cursor.recycled == s.cursor.recycled && t.cursor.firstRead == s.cursor.firstRead
  {
    hide Body;
    FillAtEnd(file, s.cursor);
  }

  lemma FillAtEnd(file: Bytes, c: Cursor)
    requires TailOk(file, c) && c.at == |file|
    ensures var r := Fill(file, c, HEADER_SIZE); !r.0 && r.1.at == c.at
  {
  }

  /** Visible sizes during a run of calls: the log never shrinks. */
  predicate Growing(lens: seq<nat>, from: nat, to: nat) {
    && (forall i :: 0 <= i < |lens| ==> from <= lens[i] <= to)
    && (forall i, j :: 0 <= i < j < |lens| ==> lens[i] <= lens[j])
  }

  /** A run of `ReadRecord` calls, the i-th seeing `lens[i]` bytes of the log. */
  function Follow(full: Bytes, rc: ReaderConfig, s: TailState, lens: seq<nat>): (seq<Outcome>, TailState)
    requires TailOk(full, s.cursor) && Growing(lens, s.cursor.end, |full|)
    decreases |lens|
  {
    if lens == [] then ([], s)
    else
      assert s.cursor.end <= lens[0];
      var (outcome, t) := TailOne(full[..lens[0]], rc, s);
      assert TailOk(full, t.cursor) && t.cursor.end <= lens[0];
      assert forall i :: 0 <= i < |lens[1..]| ==> lens[1..][i] == lens[i + 1];
      var (outcomes, u) := Follow(full, rc, t, lens[1..]);
      ([outcome] + outcomes, u)
  }

  /** The promise: each call delivers the next record if it is wholly visible, else nothing. */
  function Promised(cfg: LogConfig, records: seq<Bytes>, k: nat, lens: seq<nat>): (r: seq<Outcome>)
    requires k <= |records|
    ensures |r| == |lens|
    decreases |lens|
  {
    if lens == [] then []
    else if k < |records| && EndOf(cfg, records, k + 1) <= lens[0]
    then [Record(records[k])] + Promised(cfg, records, k + 1, lens[1..])
    else [NoMore] + Promised(cfg, records, k, lens[1..])
  }

  lemma {:induction false} FollowFrom(cfg: LogConfig, rc: ReaderConfig, records: seq<Bytes>, k: nat, s: TailState,
                                      lens: seq<nat>)
    requires Matches(cfg, rc) && Tracking(cfg, records, k, s)
    requires TailOk(LogBytes(cfg, 0, records), s.cursor) && Growing(lens, s.cursor.end, |LogBytes(cfg, 0, records)|)
    ensures var (outcomes, t) := Follow(LogBytes(cfg, 0, records), rc, s, lens);
            outcomes == Promised(cfg, records, k, lens) && t.reports == []
    decreases |lens|
  {
    hide LogBytes, TailOne, EndOf, Matches, InSomeRecord;
    if lens != [] {
      var full := LogBytes(cfg, 0, records);
      assert s.cursor.end <= lens[0];
      OneCall(cfg, rc, records, k, s, lens[0]);
      var t := TailOne(full[..lens[0]], rc, s).1;
      assert forall i :: 0 <= i < |lens[1..]| ==> lens[1..][i] == lens[i + 1];
      var k' := if k < |records| && EndOf(cfg, records, k + 1) <= lens[0] then k + 1 else k;
      FollowFrom(cfg, rc, records, k', t, lens[1..]);
    }
  }

  /** From a fresh reader, for every way the visible part can grow: every call keeps the promise, so
      no call reports anything, spins or skips. */
  lemma TailKeepsPromise(cfg: LogConfig, rc: ReaderConfig, records: seq<Bytes>, lens: seq<nat>)
    requires Matches(cfg, rc)
    requires Growing(lens, 0, |LogBytes(cfg, 0, records)|)
    ensures var (outcomes, t) := Follow(LogBytes(cfg, 0, records), rc, TAIL_START, lens);
            outcomes == Promised(cfg, records, 0, lens) && t.reports == []
  {
    hide RecordBytes, Follow, Promised, Matches, Tracking;
    assert records[..0] == [];
    TrackingBetween(cfg, records, 0, TAIL_START);
    FollowFrom(cfg, rc, records, 0, TAIL_START, lens);
  }

  // ----- log numbers wider than the header -----

  /** The first frame of a log, as far as n bytes show it. */
  lemma FirstFrameSeen(cfg: LogConfig, records: seq<Bytes>, n: nat) returns (payload: Bytes, end: bool)
    requires records != [] && n <= |LogBytes(cfg, 0, records)|
    ensures |payload| <= BLOCK_SIZE - cfg.HeaderSize() && EndOf(cfg, records, 1) >= cfg.HeaderSize()
    ensures var fr := Frame(cfg.crc, cfg.logNumber, DataType(cfg, true, end), payload);
            var file := LogBytes(cfg, 0, records)[..n];
            Has(file, 0, fr) || Cut(file, 0, fr)
  {
    hide RecordBytes, LogBytes, EndOf, Frame, DataType, Has, Cut;
    var data := records[0];
    var k := FragmentLength(cfg.HeaderSize(), 0, |data|);
    payload, end := data[..k], k == |data|;
    RecordPlaced(cfg, records, 0);
    RecordBytesStep(cfg, 0, data, true);
    StartsAtZero(cfg, records);
    var fr := Frame(cfg.crc, cfg.logNumber, DataType(cfg, true, end), payload);
    assert Zeros(0) + fr == fr;
    var rest := if end then [] else RecordBytes(cfg, AfterFragment(cfg.HeaderSize(), 0, |data|), data[k..], false);
    HasSplit(LogBytes(cfg, 0, records), 0, fr, rest);
    HasPrefix(LogBytes(cfg, 0, records), n, 0, fr);
  }

  lemma StartsAtZero(cfg: LogConfig, records: seq<Bytes>)
    ensures EndOf(cfg, records, 0) == 0
  {
    assert records[..0] == [];
  }

  /** The reader waits at the first frame of such a log until it sees the number, then turns for ever. */
  lemma WideCall(cfg: LogConfig, rc: ReaderConfig, records: seq<Bytes>, s: TailState, n: nat)
    requires TooWide(cfg, rc) && records != [] && n <= |LogBytes(cfg, 0, records)|
    requires s.cursor.at == 0 && !s.cursor.firstRead && TailOk(LogBytes(cfg, 0, records)[..n], s.cursor)
    ensures EndOf(cfg, records, 1) >= RECYCLABLE_HEADER_SIZE
    ensures var (outcome, t) := TailOne(LogBytes(cfg, 0, records)[..n], rc, s);
            if n >= RECYCLABLE_HEADER_SIZE then outcome == Diverges
            else outcome == NoMore && t == s.(cursor := t.cursor) && t.cursor.at == 0 && !t.cursor.firstRead
  {
    hide LogBytes, EndOf, Frame, DataType, TailOk, Fill, Body, LogNumberBytes, DecodeFixed32, Has, Cut;
    var file := LogBytes(cfg, 0, records)[..n];
    var payload, end := FirstFrameSeen(cfg, records, n);
    FillInBlock(file, s.cursor, HEADER_SIZE);
    var (ok, d) := Fill(file, s.cursor, HEADER_SIZE);
    if ok {
      VisibleHeader(cfg, true, end, payload, file, 0);
      Marked(file, d);
      FillInBlock(file, d.(recycled := true), RECYCLABLE_HEADER_SIZE);
      WideNumber(cfg.logNumber);
    }
  }

  lemma WideNumber(n: nat)
    ensures DecodeFixed32(LogNumberBytes(n)) < 0x1_0000_0000
  {
    hide Fixed32, DecodeFixed32;
    Fixed32RoundTrip(n % 0x1_0000_0000);
  }

  lemma {:induction false} FollowWide(cfg: LogConfig, rc: ReaderConfig, records: seq<Bytes>, s: TailState,
                                      lens: seq<nat>)
    requires TooWide(cfg, rc) && records != [] && s.cursor.at == 0 && !s.cursor.firstRead && s.reports == []
    requires TailOk(LogBytes(cfg, 0, records), s.cursor) && Growing(lens, s.cursor.end, |LogBytes(cfg, 0, records)|)
    ensures var (outcomes, t) := Follow(LogBytes(cfg, 0, records), rc, s, lens);
            (outcomes == Promised(cfg, records, 0, lens) && t.reports == [])
            <==> forall i :: 0 <= i < |lens| ==> lens[i] < RECYCLABLE_HEADER_SIZE
    decreases |lens|
  {
    hide LogBytes, TailOne, EndOf, TooWide;
    if lens != [] {
      var full := LogBytes(cfg, 0, records);
      assert s.cursor.end <= lens[0];
      WideCall(cfg, rc, records, s, lens[0]);
      var t := TailOne(full[..lens[0]], rc, s).1;
      assert forall i :: 0 <= i < |lens[1..]| ==> lens[1..][i] == lens[i + 1];
      var outcomes := Follow(full, rc, s, lens).0;
      var promised := Promised(cfg, records, 0, lens);
      if lens[0] >= RECYCLABLE_HEADER_SIZE {
        assert outcomes[0] != promised[0];
      } else {
        FollowWide(cfg, rc, records, t, lens[1..]);
        assert outcomes[1..] == Follow(full, rc, t, lens[1..]).0;
        assert promised[1..] == Promised(cfg, records, 0, lens[1..]);
        assert forall i :: 1 <= i < |lens| ==> lens[i] == lens[1..][i - 1];
      }
    }
  }

  lemma {:induction false} FollowEmpty(cfg: LogConfig, rc: ReaderConfig, s: TailState, lens: seq<nat>)
    requires s.cursor.at == 0 && s.reports == [] && TailOk([], s.cursor) && Growing(lens, s.cursor.end, 0)
    ensures var (outcomes, t) := Follow([], rc, s, lens);
            outcomes == Promised(cfg, [], 0, lens) && t.reports == []
    decreases |lens|
  {
    hide TailOne;
    if lens != [] {
      var full: Bytes := [];
      assert full[..lens[0]] == full;
      NothingLeft(rc, [], s);
      var t := TailOne([], rc, s).1;
      assert forall i :: 0 <= i < |lens[1..]| ==> lens[1..][i] == lens[i + 1];
      FollowEmpty(cfg, rc, t, lens[1..]);
    }
  }

  /** The promise is kept if and only if the log is not recyclable, or its number fits 32 bits, or there is no
      record, or no call sees a whole header: the number read has 32 bits, the one compared with it all. */
  lemma TailKeepsPromiseExactly(cfg: LogConfig, rc: ReaderConfig, records: seq<Bytes>, lens: seq<nat>)
    requires cfg.crc.Lawful() && rc.crc == cfg.crc && rc.logNumber == cfg.logNumber
    requires Growing(lens, 0, |LogBytes(cfg, 0, records)|)
    ensures var (outcomes, t) := Follow(LogBytes(cfg, 0, records), rc, TAIL_START, lens);
            (outcomes == Promised(cfg, records, 0, lens) && t.reports == [])
            <==> !TooWide(cfg, rc) || records == [] || forall i :: 0 <= i < |lens| ==> lens[i] < RECYCLABLE_HEADER_SIZE
  {
    hide Follow, Promised;
    if !TooWide(cfg, rc) {
      TailKeepsPromise(cfg, rc, records, lens);
    } else if records == [] {
      FollowEmpty(cfg, rc, TAIL_START, lens);
    } else {
      FollowWide(cfg, rc, records, TAIL_START, lens);
    }
  }

  // ----- what the promise amounts to -----

  /** The records among the outcomes. */
  function Delivered(outcomes: seq<Outcome>): seq<Bytes> {
    if outcomes == [] then []
    else (if outcomes[0].Record? then [outcomes[0].data] else []) + Delivered(outcomes[1..])
  }

  /** How many calls of a run see the whole log. */
  function FullViews(lens: seq<nat>, size: nat): nat {
    if lens == [] then 0 else (if lens[0] >= size then 1 else 0) + FullViews(lens[1..], size)
  }

  /** What has been returned is always a prefix of what was written; and a run in which as many calls
      see the whole log as there were records left has returned them all. */
  lemma {:induction false} PromisedIsPrefix(cfg: LogConfig, records: seq<Bytes>, k: nat, lens: seq<nat>)
    requires k <= |records|
    ensures Delivered(Promised(cfg, records, k, lens)) <= records[k..]
    ensures FullViews(lens, |LogBytes(cfg, 0, records)|) >= |records| - k ==>
              Delivered(Promised(cfg, records, k, lens)) == records[k..]
    decreases |lens|
  {
    hide LogBytes;
    if lens != [] {
      var rest := if k < |records| && EndOf(cfg, records, k + 1) <= lens[0]
                  then Promised(cfg, records, k + 1, lens[1..]) else Promised(cfg, records, k, lens[1..]);
      var p := Promised(cfg, records, k, lens);
      assert p[1..] == rest;
      if k < |records| {
        RecordPlaced(cfg, records, k);
        assert records[k..] == [records[k]] + records[k + 1..];
        if EndOf(cfg, records, k + 1) <= lens[0] {
          PromisedIsPrefix(cfg, records, k + 1, lens[1..]);
        } else {
          PromisedIsPrefix(cfg, records, k, lens[1..]);
        }
      } else {
        PromisedIsPrefix(cfg, records, k, lens[1..]);
      }
    }
  }
}
