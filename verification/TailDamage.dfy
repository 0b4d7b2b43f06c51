/** What a tailing reader makes of a damaged log that becomes visible part by part. In a log that was not
    recycled a frame with a wrong checksum costs the rest of its block and is reported; in a recycled one it ends
    the call without a report, and later calls go on behind it. The expected calls are stated over the parts of
    the file, without the reader. */
module TailDamage {
  import opened LogFormat
  import opened LogParse
  import opened LogRecovery
  import opened TailParse
  import opened TailRecovery
  import LogDamage

  type Segment = LogDamage.Segment

  /** Where the reader stands: `held` is what it kept of a record begun, or nothing. */
  datatype Place = Place(p: nat, segs: seq<Segment>, open: bool, held: Bytes, recycled: bool)
  {
    /** The end of the next segment. */
    ghost function Next(cfg: LogConfig): nat {
      if segs == [] then p else p + |LogDamage.SegmentBytes(cfg, p, segs[0])|
    }
  }

  /** A call goes on behind the segment, or returns. */
  datatype Step =
    | Goes(said: seq<Report>, place: Place)
    | Returns(outcome: Outcome, said: seq<Report>, place: Place)

  /** A record that has begun is given up because another begins: silently if nothing was kept of it and the other
      is in one piece. */
  function Interrupted(open: bool, size: nat, whole: bool): seq<Report> {
    if open && (size > 0 || !whole) then [Corruption(size, PartialRecordWithoutEnd)] else []
  }

  ghost function Begins(cfg: LogConfig, p: nat, data: Bytes, j: nat): Bytes {
    if Splits(cfg, p, data, j) then data[..Taken(cfg, p, data, j)] else []
  }

  /** What the next segment leads to. */
  ghost function StepOf(cfg: LogConfig, w: Place): (step: Step)
    requires w.segs != []
    ensures step.place.segs == w.segs[1..]
  {
    var size := |w.held|;
    var next := Place(w.Next(cfg), w.segs[1..], false, [], w.recycled);
    var known := next.(recycled := w.recycled || cfg.recycle);
    match w.segs[0]
    case Whole(data) =>
      var whole := FragmentLength(cfg.HeaderSize(), w.p, |data|) == |data|;
      Returns(Record(data), Interrupted(w.open, size, whole), known)
    case Begun(data, j) =>
      Goes(Interrupted(w.open, size, false), known.(open := true, held := Begins(cfg, w.p, data, j)))
    case Orphan(data) =>
      if w.open then Returns(Record(w.held + data), [], known)
      else Goes(LogDamage.Missing(cfg.HeaderSize(), w.p, |data|), known)
    case Spoiled(bytes, why) => Damage(w, next, bytes, why)
    case Ruined(bytes, why) => Damage(w, next, bytes, why)
    case Blank => Goes(LogDamage.GivenUp(w.open, size), next)
    case Unknown(t, payload) =>
      Goes(if t < 128 then [Corruption(|payload| + (if w.open then size else 0), UnknownType)] else [], next)
    case Stale(_, _, _) => Goes([], next)
  }

  function Damage(w: Place, next: Place, bytes: Bytes, why: Reason): (step: Step)
    ensures step.place.segs == next.segs
  {
    if w.recycled || LogDamage.LooksRecyclable(bytes) then Returns(NoMore, [], next.(open := w.open, recycled := true))
    else Goes([Corruption(|bytes|, why)] + LogDamage.GivenUp(w.open, |w.held|), next)
  }

  /** One call with n bytes visible: its outcome, its reports and where it leaves the reader. */
  ghost function Call(cfg: LogConfig, w: Place, n: nat): (Outcome, seq<Report>, Place)
    decreases |w.segs|
  {
    if w.segs == [] || n < w.Next(cfg) then (NoMore, [], w)
    else
      match StepOf(cfg, w)
      case Goes(said, place) =>
        var (outcome, more, last) := Call(cfg, place, n);
        (outcome, said + more, last)
      case Returns(outcome, said, place) => (outcome, said, place)
  }

  /** A run of calls. */
  ghost function Calls(cfg: LogConfig, w: Place, lens: seq<nat>): (seq<Outcome>, seq<Report>)
    decreases |lens|
  {
    if lens == [] then ([], [])
    else
      var (outcome, said, place) := Call(cfg, w, lens[0]);
      var (outcomes, more) := Calls(cfg, place, lens[1..]);
      ([outcome] + outcomes, said + more)
  }

  /** The visible part ends between two segments. */
  ghost predicate Boundary(cfg: LogConfig, p: nat, segs: seq<Segment>, n: nat)
    decreases |segs|
  {
    n == p || (segs != [] && Boundary(cfg, p + |LogDamage.SegmentBytes(cfg, p, segs[0])|, segs[1..], n))
  }

  /** A tailing reader waits for ever for the end of a frame whose length is wrong, and turns for ever at a frame
      of another log; neither is followed here. */
  predicate Followable(seg: Segment) {
    && !seg.Stale?
    && (seg.Spoiled? || seg.Ruined? ==> seg.why == ChecksumMismatch)
  }

  // ----- the reader between two segments -----

  ghost predicate At(cfg: LogConfig, file: Bytes, s: TailState, w: Place) {
    && TailOk(file, s.cursor) && Fits(cfg, s.cursor)
    && s.cursor.at == w.p && s.cursor.recycled == w.recycled && s.inFragment == w.open && s.fragments == w.held
    && (!w.open ==> w.held == []) && (w.open && w.segs != [] ==> w.p % BLOCK_SIZE == 0)
    && (s.cursor.eof ==> Boundary(cfg, w.p, w.segs, s.cursor.end))
  }

  /** The reader does with a segment what is expected. */
  ghost predicate Stepped(cfg: LogConfig, rc: ReaderConfig, file: Bytes, s: TailState, step: Step, t: TailState)
    requires TailOk(file, s.cursor)
  {
    && At(cfg, file, t, step.place) && t.reports == s.reports + step.said
    && match step
       case Goes(_, _) => TailOne(file, rc, s) == TailOne(file, rc, t)
       case Returns(outcome, _, _) => TailOne(file, rc, s) == (outcome, t)
  }

  lemma BoundaryLater(cfg: LogConfig, p: nat, segs: seq<Segment>, n: nat)
    requires segs != [] && Boundary(cfg, p, segs, n)
    ensures var q := p + |LogDamage.SegmentBytes(cfg, p, segs[0])|;
            (n >= q ==> Boundary(cfg, q, segs[1..], n)) && (n > p ==> n >= q) && n >= p
  {
    hide LogDamage.SegmentBytes;
    var q := p + |LogDamage.SegmentBytes(cfg, p, segs[0])|;
    if n != p {
      BoundaryAhead(cfg, q, segs[1..], n);
    }
  }

  lemma {:induction false} BoundaryAhead(cfg: LogConfig, p: nat, segs: seq<Segment>, n: nat)
    requires Boundary(cfg, p, segs, n)
    ensures n >= p
    decreases |segs|
  {
    hide LogDamage.SegmentBytes;
    if n != p {
      BoundaryAhead(cfg, p + |LogDamage.SegmentBytes(cfg, p, segs[0])|, segs[1..], n);
    }
  }

  /** The buffer of the reader behind a segment ends between two segments, too. */
  lemma BufferLater(cfg: LogConfig, file: Bytes, s: TailState, w: Place, d: Cursor)
    requires At(cfg, file, s, w) && w.segs != [] && Boundary(cfg, w.p, w.segs, |file|)
    requires TailOk(file, d) && Buffers(file, s.cursor, d) && d.at == w.Next(cfg)
    ensures d.eof ==> Boundary(cfg, w.Next(cfg), w.segs[1..], d.end)
  {
    hide LogDamage.SegmentBytes, Boundary;
    if d.eof {
      BoundaryLater(cfg, w.p, w.segs, d.end);
    }
  }

  // ----- records and fragments -----

  lemma DataCode(cfg: LogConfig, end: bool)
    ensures if end then IsFull(DataType(cfg, true, end)) else IsFirst(DataType(cfg, true, end))
    ensures !IsFull(DataType(cfg, false, end)) && !IsFirst(DataType(cfg, false, end))
    ensures if end then IsLast(DataType(cfg, false, end)) else IsMiddle(DataType(cfg, false, end))
  {
  }

  /** A record that begins while another is open ends that one. */
  lemma FreshTurn(rc: ReaderConfig, file: Bytes, s: TailState)
    requires TailOk(file, s.cursor) && s.inFragment
    requires var r := TryFragment(file, rc, s.cursor); r.Fragment? && (IsFull(r.code) || IsFirst(r.code))
    ensures var said := Interrupted(true, |s.fragments|, IsFull(TryFragment(file, rc, s.cursor).code));
            TailOne(file, rc, s)
            == TailOne(file, rc, s.(fragments := [], inFragment := false, reports := s.reports + said))
  {
    hide TryFragment;
    var r := TryFragment(file, rc, s.cursor);
    var said := Interrupted(true, |s.fragments|, IsFull(r.code));
    assert s.reports + said + [] == s.reports + said;
  }

  lemma BeginsHere(cfg: LogConfig, rc: ReaderConfig, file: Bytes, s: TailState, data: Bytes) returns (t: TailState)
    requires Matches(cfg, rc) && TailOk(file, s.cursor) && Fits(cfg, s.cursor)
    requires if s.inFragment then s.cursor.at % BLOCK_SIZE == 0 else s.fragments == []
    requires Has(file, s.cursor.at, FirstPiece(cfg, s.cursor.at, data, true))
    ensures var whole := FragmentLength(cfg.HeaderSize(), s.cursor.at, |data|) == |data|;
            var said := Interrupted(s.inFragment, |s.fragments|, whole);
            && t == s.(fragments := [], inFragment := false, reports := s.reports + said)
            && TailOne(file, rc, s) == TailOne(file, rc, t)
  {
    hide TailOne, TryFragment, FirstPiece, DataType, Matches, Has, Fits, IsFull, IsFirst;
    var whole := FragmentLength(cfg.HeaderSize(), s.cursor.at, |data|) == |data|;
    t := s.(fragments := [], inFragment := false,
            reports := s.reports + Interrupted(s.inFragment, |s.fragments|, whole));
    if s.inFragment {
      DataCode(cfg, whole);
      NotBoth(DataType(cfg, true, whole));
      TryPiece(cfg, rc, file, s.cursor, data, true);
      FreshTurn(rc, file, s);
    } else {
      assert s.reports + [] == s.reports;
    }
  }

  lemma NotBoth(t: Byte)
    ensures !(IsFull(t) && IsFirst(t))
  {
  }

  lemma WholeStep(cfg: LogConfig, rc: ReaderConfig, file: Bytes, s: TailState, w: Place) returns (t: TailState)
    requires Matches(cfg, rc) && At(cfg, file, s, w) && w.segs != [] && Boundary(cfg, w.p, w.segs, |file|)
    requires w.segs[0].Whole? && Has(file, w.p, LogDamage.SegmentBytes(cfg, w.p, w.segs[0]))
    ensures Stepped(cfg, rc, file, s, StepOf(cfg, w), t)
  {
    hide TailOne, RecordBytes, FirstPiece, Matches, Has, TailOk, Boundary, Buffers, FragmentLength;
    var data := w.segs[0].data;
    LogDamage.FirstPieceOf(cfg, rc, file, w.p, data);
    var s0 := BeginsHere(cfg, rc, file, s, data);
    assert [] + data == data;
    FollowVisible(cfg, rc, file, s0, data, true, data);
    t := TailOne(file, rc, s).1;
    BufferLater(cfg, file, s, w, t.cursor);
  }

  /** The first j fragments of a record are kept. */
  lemma {:induction false} KeepPieces(cfg: LogConfig, rc: ReaderConfig, file: Bytes, s: TailState, left: Bytes,
                                      begin: bool, data: Bytes, j: nat) returns (t: TailState)
    requires Matches(cfg, rc) && TailOk(file, s.cursor) && Fits(cfg, s.cursor) && Midway(s, left, begin, data)
    requires Splits(cfg, s.cursor.at, left, j) && (begin ==> j > 0)
    requires Has(file, s.cursor.at, FirstPieces(cfg, s.cursor.at, left, begin, j))
    ensures TailOk(file, t.cursor) && Fits(cfg, t.cursor) && t.reports == s.reports
    ensures t.cursor.at == s.cursor.at + |FirstPieces(cfg, s.cursor.at, left, begin, j)|
    ensures t.cursor.recycled == (s.cursor.recycled || (cfg.recycle && j > 0)) && Buffers(file, s.cursor, t.cursor)
    ensures t.inFragment && t.fragments == s.fragments + left[..Taken(cfg, s.cursor.at, left, j)]
    ensures t.cursor.at % BLOCK_SIZE == 0 && TailOne(file, rc, s) == TailOne(file, rc, t)
    decreases j
  {
    hide TailOne, FirstPieces, FirstPiece, Matches, Has, Splits, Taken, TailOk, Fits, FragmentLength, AfterFragment;
    var p := s.cursor.at;
    PiecesStep(cfg, p, left, begin, j);
    if j == 0 {
      t := s;
      assert s.fragments + left[..0] == s.fragments;
    } else {
      var k, q := FragmentLength(cfg.HeaderSize(), p, |left|), AfterFragment(cfg.HeaderSize(), p, |left|);
      var rest := FirstPieces(cfg, q, left[k..], false, j - 1);
      HasSplit(file, p, FirstPiece(cfg, p, left, begin), rest);
      var s1 := FollowPiece(cfg, rc, file, s, left, begin, data);
      PieceLength(cfg, p, left, begin);
      t := KeepPieces(cfg, rc, file, s1, left[k..], false, data, j - 1);
      KeptJoins(s.fragments, s1.fragments, left, k, data, Taken(cfg, q, left[k..], j - 1));
    }
  }

  lemma PieceLength(cfg: LogConfig, p: nat, data: Bytes, begin: bool)
    ensures AfterFragment(cfg.HeaderSize(), p, |data|) == p + |FirstPiece(cfg, p, data, begin)|
  {
  }

  lemma KeptJoins(kept: Bytes, more: Bytes, left: Bytes, k: nat, data: Bytes, n: nat)
    requires k <= |left| && n <= |left| - k && kept + left == data && more + left[k..] == data
    ensures more + left[k..][..n] == kept + left[..k + n]
  {
    assert |more| == |kept| + k;
    assert more == data[..|more|] == kept + left[..k];
    assert left[..k] + left[k..][..n] == left[..k + n];
  }

  lemma BegunStep(cfg: LogConfig, rc: ReaderConfig, file: Bytes, s: TailState, w: Place) returns (t: TailState)
    requires Matches(cfg, rc) && At(cfg, file, s, w) && w.segs != [] && Boundary(cfg, w.p, w.segs, |file|)
    requires w.segs[0].Begun? && w.segs[0].j > 0 && Splits(cfg, w.p, w.segs[0].data, w.segs[0].j)
    requires Has(file, w.p, LogDamage.SegmentBytes(cfg, w.p, w.segs[0]))
    ensures Stepped(cfg, rc, file, s, StepOf(cfg, w), t)
  {
    hide TailOne, FirstPieces, FirstPiece, Matches, Has, TailOk, Boundary, Buffers, FragmentLength, Splits, Taken;
    var data, j := w.segs[0].data, w.segs[0].j;
    PiecesStep(cfg, w.p, data, true, j);
    var k := FragmentLength(cfg.HeaderSize(), w.p, |data|);
    HasSplit(file, w.p, FirstPiece(cfg, w.p, data, true),
             FirstPieces(cfg, AfterFragment(cfg.HeaderSize(), w.p, |data|), data[k..], false, j - 1));
    var s0 := BeginsHere(cfg, rc, file, s, data);
    assert [] + data == data;
    t := KeepPieces(cfg, rc, file, s0, data, true, data, j);
    BufferLater(cfg, file, s, w, t.cursor);
  }

  /** One fragment without a beginning. */
  lemma OrphanPiece(cfg: LogConfig, rc: ReaderConfig, file: Bytes, s: TailState, data: Bytes) returns (t: TailState)
    requires Matches(cfg, rc) && TailOk(file, s.cursor) && Fits(cfg, s.cursor) && s.cursor.at % BLOCK_SIZE == 0
    requires !s.inFragment && s.fragments == []
    requires Has(file, s.cursor.at, FirstPiece(cfg, s.cursor.at, data, false))
    ensures var k := FragmentLength(cfg.HeaderSize(), s.cursor.at, |data|);
            && t.reports == s.reports + [Corruption(k, MissingStart)] && !t.inFragment && t.fragments == []
            && TailOk(file, t.cursor) && Fits(cfg, t.cursor) && Buffers(file, s.cursor, t.cursor)
            && t.cursor.at == AfterFragment(cfg.HeaderSize(), s.cursor.at, |data|)
            && t.cursor.recycled == (s.cursor.recycled || cfg.recycle)
            && TailOne(file, rc, s) == TailOne(file, rc, t)
  {
    hide TailOne, TryFragment, FirstPiece, DataType, Matches, Has, Fits, TailOk, IsFull, IsFirst, IsMiddle, IsLast;
    var k := FragmentLength(cfg.HeaderSize(), s.cursor.at, |data|);
    TryPiece(cfg, rc, file, s.cursor, data, false);
    TryBuffers(file, rc, s.cursor);
    DataCode(cfg, k == |data|);
    PieceLength(cfg, s.cursor.at, data, false);
    Turn(file, rc, s);
    t := s.(cursor := TryFragment(file, rc, s.cursor).next, reports := s.reports + [Corruption(k, MissingStart)]);
  }

  lemma {:induction false} OrphanPieces(cfg: LogConfig, rc: ReaderConfig, file: Bytes, s: TailState, data: Bytes)
    returns (t: TailState)
    requires Matches(cfg, rc) && TailOk(file, s.cursor) && Fits(cfg, s.cursor) && s.cursor.at % BLOCK_SIZE == 0
    requires !s.inFragment && s.fragments == []
    requires Has(file, s.cursor.at, RecordBytes(cfg, s.cursor.at, data, false))
    ensures TailOk(file, t.cursor) && Fits(cfg, t.cursor) && Buffers(file, s.cursor, t.cursor)
    ensures t.cursor.at == s.cursor.at + |RecordBytes(cfg, s.cursor.at, data, false)|
    ensures t.cursor.recycled == (s.cursor.recycled || cfg.recycle) && !t.inFragment && t.fragments == []
    ensures t.reports == s.reports + LogDamage.Missing(cfg.HeaderSize(), s.cursor.at, |data|)
    ensures TailOne(file, rc, s) == TailOne(file, rc, t)
    decreases |RecordBytes(cfg, s.cursor.at, data, false)|
  {
    hide TailOne, RecordBytes, FirstPiece, Matches, Has, Fits, TailOk, FragmentLength, AfterFragment;
    var h, p := cfg.HeaderSize(), s.cursor.at;
    var k, q := FragmentLength(h, p, |data|), AfterFragment(h, p, |data|);
    RecordBytesStep(cfg, p, data, false);
    var piece := FirstPiece(cfg, p, data, false);
    var rest := if k == |data| then [] else RecordBytes(cfg, q, data[k..], false);
    HasSplit(file, p, piece, rest);
    var s1 := OrphanPiece(cfg, rc, file, s, data);
    if k == |data| {
      t := s1;
    } else {
      NonFinalFragmentFillsBlock(h, p, |data|);
      t := OrphanPieces(cfg, rc, file, s1, data[k..]);
      assert s.reports + [Corruption(k, MissingStart)] + LogDamage.Missing(h, q, |data| - k)
          == s.reports + ([Corruption(k, MissingStart)] + LogDamage.Missing(h, q, |data| - k));
    }
  }

  /** Fragments without a beginning are reported one by one; but if the reader thinks it is inside a record, they
      end that record. */
  lemma OrphanStep(cfg: LogConfig, rc: ReaderConfig, file: Bytes, s: TailState, w: Place) returns (t: TailState)
    requires Matches(cfg, rc) && At(cfg, file, s, w) && w.segs != [] && Boundary(cfg, w.p, w.segs, |file|)
    requires w.segs[0].Orphan? && w.p % BLOCK_SIZE == 0
    requires Has(file, w.p, LogDamage.SegmentBytes(cfg, w.p, w.segs[0]))
    ensures Stepped(cfg, rc, file, s, StepOf(cfg, w), t)
  {
    hide TailOne, RecordBytes, Matches, Has, TailOk, Boundary, Buffers, FragmentLength, LogDamage.Missing;
    var data := w.segs[0].data;
    if w.open {
      FollowVisible(cfg, rc, file, s, data, false, w.held + data);
      t := TailOne(file, rc, s).1;
      assert s.reports + [] == s.reports;
    } else {
      t := OrphanPieces(cfg, rc, file, s, data);
    }
    BufferLater(cfg, file, s, w, t.cursor);
  }

  // ----- what stands behind padding -----

  lemma SameTry(file: Bytes, rc: ReaderConfig, s: TailState, c: Cursor)
    requires TailOk(file, s.cursor) && TailOk(file, c)
    requires TryFragment(file, rc, s.cursor) == TryFragment(file, rc, c)
    ensures TailOne(file, rc, s) == TailOne(file, rc, s.(cursor := c))
  {
    hide TryFragment, TailSwitch;
  }

  /** Padding as long as a header is an empty record. */
  lemma PassLong(cfg: LogConfig, rc: ReaderConfig, file: Bytes, s: TailState) returns (t: TailState)
    requires TailOk(file, s.cursor) && Pad(cfg.HeaderSize(), s.cursor.at) >= HEADER_SIZE && !s.inFragment
    requires Has(file, s.cursor.at, Zeros(Pad(cfg.HeaderSize(), s.cursor.at)))
    ensures t == s.(cursor := t.cursor) && TailOk(file, t.cursor) && Buffers(file, s.cursor, t.cursor)
    ensures t.cursor.recycled == s.cursor.recycled && t.cursor.firstRead == s.cursor.firstRead
    ensures s.cursor.at <= t.cursor.at <= s.cursor.at + Pad(cfg.HeaderSize(), s.cursor.at)
    ensures Pad(cfg.HeaderSize(), t.cursor.at) == s.cursor.at + Pad(cfg.HeaderSize(), s.cursor.at) - t.cursor.at
    ensures Pad(cfg.HeaderSize(), t.cursor.at) < HEADER_SIZE && TailOne(file, rc, s) == TailOne(file, rc, t)
  {
    hide TailOne, Fill, AfterHeader, TailOk, Pad;
    var p := s.cursor.at;
    var pad := Pad(cfg.HeaderSize(), p);
    PadToBlockEnd(cfg.HeaderSize(), p);
    FillInBlock(file, s.cursor, HEADER_SIZE);
    FillBuffers(file, s.cursor, HEADER_SIZE);
    var d := Fill(file, s.cursor, HEADER_SIZE).1;
    WithinBlock(file, d);
    assert file[p..d.end] == file[p..p + pad][..d.end - p];
    ZerosAtCursor(rc, file, d);
    Turn(file, rc, s);
    t := s.(cursor := d.(at := d.end));
    assert s.reports + [] == s.reports;
    LongPad(cfg.HeaderSize(), p);
    SamePlace(cfg.HeaderSize(), p, d.end - p, 0);
  }

  lemma LongPad(h: nat, p: nat)
    requires HEADER_SIZE <= h <= RECYCLABLE_HEADER_SIZE
    ensures Pad(h, p) < RECYCLABLE_HEADER_SIZE
  {
  }

  /** The reader comes to a frame behind padding, with its short header in the buffer. */
  lemma PassPadding(cfg: LogConfig, rc: ReaderConfig, file: Bytes, s: TailState) returns (t: TailState)
    requires TailOk(file, s.cursor) && (s.inFragment ==> s.cursor.at % BLOCK_SIZE == 0)
    requires Has(file, s.cursor.at, Zeros(Pad(cfg.HeaderSize(), s.cursor.at)))
    requires s.cursor.at + Pad(cfg.HeaderSize(), s.cursor.at) + HEADER_SIZE <= |file|
    ensures t == s.(cursor := t.cursor) && TailOk(file, t.cursor) && Buffers(file, s.cursor, t.cursor)
    ensures t.cursor.recycled == s.cursor.recycled && t.cursor.firstRead == s.cursor.firstRead
    ensures t.cursor.at == s.cursor.at + Pad(cfg.HeaderSize(), s.cursor.at)
    ensures t.cursor.end - t.cursor.at >= HEADER_SIZE
    ensures TailOne(file, rc, s) == TailOne(file, rc, t)
  {
    hide TailOne, Fill, AfterHeader, TailOk, Has, Pad;
    var h := cfg.HeaderSize();
    var s1 := s;
    if Pad(h, s.cursor.at) >= HEADER_SIZE {
      NoPadAtStart(h, s.cursor.at);
      s1 := PassLong(cfg, rc, file, s);
    }
    ShortPad(h, s1.cursor.at);
    FillBuffers(file, s1.cursor, HEADER_SIZE);
    if Pad(h, s1.cursor.at) == 0 {
      NoPadFits(h, s1.cursor.at);
      FillInBlock(file, s1.cursor, HEADER_SIZE);
    } else {
      FillAcrossPadding(file, s1.cursor);
    }
    var c := Fill(file, s1.cursor, HEADER_SIZE).1;
    FillNothing(file, c, HEADER_SIZE);
    t := s1.(cursor := c);
    SameTry(file, rc, s1, c);
  }

  lemma NoPadAtStart(h: nat, p: nat)
    requires HEADER_SIZE <= h <= RECYCLABLE_HEADER_SIZE
    ensures p % BLOCK_SIZE == 0 ==> Pad(h, p) == 0
  {
  }

  lemma NoPadFits(h: nat, p: nat)
    requires HEADER_SIZE <= h <= RECYCLABLE_HEADER_SIZE && Pad(h, p) == 0
    ensures p % BLOCK_SIZE + h <= BLOCK_SIZE
  {
  }

  // ----- damage -----

  lemma BodySpoiled(rc: ReaderConfig, file: Bytes, c: Cursor, bytes: Bytes)
    requires TailOk(file, c) && file[c.at..c.end] == bytes && LogDamage.Damaged(rc, bytes, ChecksumMismatch)
    ensures |bytes| == c.end - c.at >= HEADER_SIZE && |bytes| >= TypeHeaderSize(bytes[6]) && file[c.at + 6] == bytes[6]
    ensures Body(file, rc, c) == Fragment(BAD_RECORD_CHECKSUM, [], |bytes|, c.(at := c.end))
  {
    hide Fill, ParseBuffer, IsRecyclableType, DecodeFixed32;
    LogDamage.DamagedHeader(rc, bytes, ChecksumMismatch);
    assert |bytes| == c.end - c.at;
    assert file[c.at + 4] == bytes[4] && file[c.at + 5] == bytes[5] && file[c.at + 6] == bytes[6];
    FillNothing(file, c, TypeHeaderSize(bytes[6]) + (bytes[4] as int + 256 * (bytes[5] as int)));
    LogDamage.ParseSpoiled(rc, bytes, ChecksumMismatch);
  }

  lemma RightNumber(rc: ReaderConfig, file: Bytes, c: Cursor, bytes: Bytes)
    requires TailOk(file, c) && file[c.at..c.end] == bytes && LogDamage.Damaged(rc, bytes, ChecksumMismatch)
    requires |bytes| >= HEADER_SIZE && IsRecyclableType(bytes[6])
    ensures c.at + 11 <= c.end && DecodeFixed32(file[c.at + 7..c.at + 11]) == rc.logNumber
  {
    hide DecodeFixed32;
    LogDamage.DamagedHeader(rc, bytes, ChecksumMismatch);
    assert |bytes| == c.end - c.at;
    PartOfPart(file, c.at, c.end, 7, 11);
  }

  lemma PartOfPart(file: Bytes, a: nat, b: nat, i: nat, j: nat)
    requires a <= b <= |file| && i <= j <= b - a
    ensures file[a..b][i..j] == file[a + i..a + j]
  {
    var part := file[a..b];
    assert forall k :: 0 <= k < j - i ==> part[i..j][k] == part[i + k] == file[a + i..a + j][k];
  }

  /** A frame with a wrong checksum is taken together with the rest of the buffer. */
  lemma TrySpoiled(rc: ReaderConfig, file: Bytes, c: Cursor, bytes: Bytes)
    requires TailOk(file, c) && file[c.at..c.end] == bytes && LogDamage.Damaged(rc, bytes, ChecksumMismatch)
    requires LogDamage.LooksRecyclable(bytes) && c.firstRead ==> c.recycled
    ensures TryFragment(file, rc, c)
         == Fragment(BAD_RECORD_CHECKSUM, [], |bytes|,
                     c.(at := c.end, recycled := c.recycled || LogDamage.LooksRecyclable(bytes)))
  {
    hide Fill, Body, IsRecyclableType, DecodeFixed32, LogDamage.Damaged, TailOk;
    CursorVisible(file, c);
    BodySpoiled(rc, file, c, bytes);
    FillNothing(file, c, HEADER_SIZE);
    if IsRecyclableType(bytes[6]) {
      Marked(file, c);
      RightNumber(rc, file, c, bytes);
      BodySpoiled(rc, file, c.(recycled := true), bytes);
      FillNothing(file, c.(recycled := true), RECYCLABLE_HEADER_SIZE);
    }
  }

  lemma SpoiledTurn(rc: ReaderConfig, file: Bytes, s: TailState, size: nat) returns (t: TailState)
    requires TailOk(file, s.cursor) && (!s.inFragment ==> s.fragments == [])
    requires var r := TryFragment(file, rc, s.cursor);
             r.Fragment? && r.code == BAD_RECORD_CHECKSUM && r.drop == size
    ensures var c := TryFragment(file, rc, s.cursor).next;
            if c.recycled then
              t == s.(cursor := c, fragments := []) && TailOne(file, rc, s) == (NoMore, t)
            else
              var said := [Corruption(size, ChecksumMismatch)] + LogDamage.GivenUp(s.inFragment, |s.fragments|);
              && t == s.(cursor := c, fragments := [], inFragment := false, reports := s.reports + said)
              && TailOne(file, rc, s) == TailOne(file, rc, t)
  {
    hide TailOne, TryFragment;
    Turn(file, rc, s);
    var c := TryFragment(file, rc, s.cursor).next;
    var said := [Corruption(size, ChecksumMismatch)] + LogDamage.GivenUp(s.inFragment, |s.fragments|);
    assert said == if s.inFragment then [Corruption(size, ChecksumMismatch), Corruption(|s.fragments|, ErrorInMiddle)]
                   else [Corruption(size, ChecksumMismatch)];
    assert s.reports + [] == s.reports;
    t := if c.recycled then s.(cursor := c, fragments := [])
         else s.(cursor := c, fragments := [], inFragment := false, reports := s.reports + said);
  }

  /** The buffer at a damaged frame ends with the segment. */
  lemma BufferIsSegment(cfg: LogConfig, file: Bytes, s: TailState, w: Place, d: Cursor, x: nat)
    requires At(cfg, file, s, w) && w.segs != [] && Boundary(cfg, w.p, w.segs, |file|)
    requires TailOk(file, d) && Buffers(file, s.cursor, d) && d.end > d.at >= w.p && d.at + x == w.Next(cfg)
    requires d.at % BLOCK_SIZE + x == BLOCK_SIZE || (d.at % BLOCK_SIZE + x < BLOCK_SIZE && w.Next(cfg) == |file|)
    ensures d.end == w.Next(cfg)
  {
    hide Place.Next, Boundary, LogDamage.SegmentBytes;
    var e := d.at - d.at % BLOCK_SIZE + BLOCK_SIZE;
    assert e % BLOCK_SIZE == 0;
    EndsHere(cfg, w);
    if d.eof {
      BoundaryLater(cfg, w.p, w.segs, d.end);
    }
  }

  lemma EndsHere(cfg: LogConfig, w: Place)
    requires w.segs != []
    ensures w.Next(cfg) == w.p + |LogDamage.SegmentBytes(cfg, w.p, w.segs[0])|
  {
  }

  /** The next segment is a frame with a wrong checksum, followed by what else is in its block. */
  ghost predicate Wrong(cfg: LogConfig, rc: ReaderConfig, file: Bytes, w: Place, bytes: Bytes) {
    && w.segs != [] && LogDamage.Stands(cfg, rc, w.p, w.segs[0], false)
    && (|| w.segs[0] == LogDamage.Spoiled(bytes, ChecksumMismatch)
        || (w.segs == [LogDamage.Ruined(bytes, ChecksumMismatch)] && w.Next(cfg) == |file|))
  }

  lemma WrongParts(cfg: LogConfig, rc: ReaderConfig, file: Bytes, w: Place, bytes: Bytes)
    requires Wrong(cfg, rc, file, w, bytes)
    ensures var q := w.p + Pad(cfg.HeaderSize(), w.p);
            && w.segs != [] && w.Next(cfg) == q + |bytes|
            && (|| q % BLOCK_SIZE + |bytes| == BLOCK_SIZE
                || (q % BLOCK_SIZE + |bytes| < BLOCK_SIZE && w.Next(cfg) == |file|))
            && (w.Next(cfg) % BLOCK_SIZE == 0 || w.segs[1..] == [])
    ensures LogDamage.Damaged(rc, bytes, ChecksumMismatch) && |bytes| >= HEADER_SIZE
    ensures LogDamage.LooksRecyclable(bytes) ==> cfg.recycle
  {
    hide LogDamage.LooksRecyclable, Pad;
    var q := w.p + Pad(cfg.HeaderSize(), w.p);
    if q % BLOCK_SIZE + |bytes| == BLOCK_SIZE {
      assert (q + |bytes|) % BLOCK_SIZE == 0;
    }
  }

  lemma WrongTaken(cfg: LogConfig, rc: ReaderConfig, file: Bytes, s: TailState, w: Place, bytes: Bytes)
    returns (t: TailState)
    requires At(cfg, file, s, w) && Boundary(cfg, w.p, w.segs, |file|) && Wrong(cfg, rc, file, w, bytes)
    requires Has(file, w.p, Zeros(Pad(cfg.HeaderSize(), w.p)) + bytes)
    ensures TailOk(file, t.cursor) && Buffers(file, s.cursor, t.cursor) && t.cursor.at == w.Next(cfg)
    ensures t.cursor.firstRead == s.cursor.firstRead
    ensures t.cursor.recycled == (s.cursor.recycled || LogDamage.LooksRecyclable(bytes))
    ensures if t.cursor.recycled then
              t == s.(cursor := t.cursor, fragments := []) && TailOne(file, rc, s) == (NoMore, t)
            else
              var said := [Corruption(|bytes|, ChecksumMismatch)] + LogDamage.GivenUp(s.inFragment, |s.fragments|);
              && t == s.(cursor := t.cursor, fragments := [], inFragment := false, reports := s.reports + said)
              && TailOne(file, rc, s) == TailOne(file, rc, t)
  {
    hide TailOne, TryFragment, Has, Boundary, LogDamage.Damaged, LogDamage.LooksRecyclable, Pad, Wrong, Place.Next;
    WrongParts(cfg, rc, file, w, bytes);
    var pad := Pad(cfg.HeaderSize(), w.p);
    HasSplit(file, w.p, Zeros(pad), bytes);
    HasThere(file, w.p + pad, bytes);
    var s0 := PassPadding(cfg, rc, file, s);
    BufferIsSegment(cfg, file, s, w, s0.cursor, |bytes|);
    LogDamage.RecyclableFits(cfg, s0.cursor, bytes);
    TrySpoiled(rc, file, s0.cursor, bytes);
    t := SpoiledTurn(rc, file, s0, |bytes|);
  }

  lemma DamageStep(cfg: LogConfig, rc: ReaderConfig, file: Bytes, s: TailState, w: Place, bytes: Bytes)
    returns (t: TailState)
    requires At(cfg, file, s, w) && Boundary(cfg, w.p, w.segs, |file|) && Wrong(cfg, rc, file, w, bytes)
    requires Has(file, w.p, Zeros(Pad(cfg.HeaderSize(), w.p)) + bytes)
    ensures Stepped(cfg, rc, file, s, StepOf(cfg, w), t)
  {
    hide TailOne, TailOk, Has, Boundary, Buffers, LogDamage.Stands, LogDamage.LooksRecyclable, Pad, Place.Next;
    WrongParts(cfg, rc, file, w, bytes);
    t := WrongTaken(cfg, rc, file, s, w, bytes);
    assert s.reports + [] == s.reports;
    BufferLater(cfg, file, s, w, t.cursor);
  }

  lemma HasThere(file: Bytes, p: nat, b: Bytes)
    requires Has(file, p, b)
    ensures p + |b| <= |file| && file[p..p + |b|] == b
  {
  }

  // ----- blank space and unknown frames -----

  lemma BlankTurn(rc: ReaderConfig, file: Bytes, s: TailState, d: Cursor) returns (t: TailState)
    requires TailOk(file, s.cursor) && TailOk(file, d) && (!s.inFragment ==> s.fragments == [])
    requires Fill(file, s.cursor, HEADER_SIZE) == (true, d) && file[d.at..d.end] == Zeros(d.end - d.at)
    ensures t == s.(cursor := d.(at := d.end), fragments := [], inFragment := false,
                    reports := s.reports + LogDamage.GivenUp(s.inFragment, |s.fragments|))
    ensures TailOk(file, t.cursor) && TailOne(file, rc, s) == TailOne(file, rc, t)
  {
    hide TailOne, Fill, AfterHeader;
    ZerosAtCursor(rc, file, d);
    Turn(file, rc, s);
    t := s.(cursor := d.(at := d.end), fragments := [], inFragment := false,
            reports := s.reports + LogDamage.GivenUp(s.inFragment, |s.fragments|));
  }

  lemma BlankStep(cfg: LogConfig, rc: ReaderConfig, file: Bytes, s: TailState, w: Place) returns (t: TailState)
    requires At(cfg, file, s, w) && w.segs != [] && Boundary(cfg, w.p, w.segs, |file|)
    requires w.segs[0].Blank? && w.p % BLOCK_SIZE + HEADER_SIZE <= BLOCK_SIZE
    requires Has(file, w.p, Zeros(BLOCK_SIZE - w.p % BLOCK_SIZE))
    ensures Stepped(cfg, rc, file, s, StepOf(cfg, w), t)
  {
    hide TailOne, Fill, Boundary, TailOk, Buffers;
    FillInBlock(file, s.cursor, HEADER_SIZE);
    FillBuffers(file, s.cursor, HEADER_SIZE);
    var d := Fill(file, s.cursor, HEADER_SIZE).1;
    BufferIsSegment(cfg, file, s, w, d, BLOCK_SIZE - w.p % BLOCK_SIZE);
    t := BlankTurn(rc, file, s, d);
    BuffersOn(file, s.cursor, d, t.cursor);
    BufferLater(cfg, file, s, w, t.cursor);
    LogDamage.StillFits(cfg, s.cursor, t.cursor);
    assert (w.p + (BLOCK_SIZE - w.p % BLOCK_SIZE)) % BLOCK_SIZE == 0;
  }

  lemma BuffersOn(file: Bytes, c: Cursor, d: Cursor, d': Cursor)
    requires Buffers(file, c, d) && d'.end == d.end && d'.eof == d.eof
    ensures Buffers(file, c, d')
  {
  }

  /** An intact frame of an unknown type. */
  lemma TryUnknown(cfg: LogConfig, rc: ReaderConfig, file: Bytes, c: Cursor, t: Byte, payload: Bytes)
    requires Matches(cfg, rc) && |payload| <= 0xffff && LogDamage.IsUnknown(t) && (t == ZERO_TYPE ==> payload != [])
    requires TailOk(file, c) && c.end - c.at >= HEADER_SIZE
    requires Has(file, c.at, Frame(cfg.crc, cfg.logNumber, t, payload))
    requires c.at % BLOCK_SIZE + HEADER_SIZE + |payload| <= BLOCK_SIZE
    ensures var r := TryFragment(file, rc, c);
            && r.Fragment? && r.code == t && r.fragment == payload && r.next.at == c.at + HEADER_SIZE + |payload|
            && r.next.recycled == c.recycled && r.next.firstRead == c.firstRead
  {
    hide Fill, ParseBuffer, Frame, LogDamage.IsUnknown, Matches, TailOk;
    CursorVisible(file, c);
    FillNothing(file, c, HEADER_SIZE);
    LogDamage.UnknownHeader(t);
    var fr := Frame(cfg.crc, cfg.logNumber, t, payload);
    FrameBytes(cfg.crc, cfg.logNumber, t, payload);
    assert |fr| == HEADER_SIZE + |payload|;
    var seen := file[c.at..c.at + |fr|];
    assert file[c.at + 4] == seen[4] && file[c.at + 5] == seen[5] && file[c.at + 6] == seen[6];
    FillInBlock(file, c, |fr|);
    var d := Fill(file, c, |fr|).1;
    CursorVisible(file, d);
    var h := file[d.at..d.end];
    assert h[..|fr|] == seen;
    LogDamage.ParseUnknown(cfg, rc, t, payload, h);
  }

  lemma UnknownTurn(rc: ReaderConfig, file: Bytes, s: TailState, t: Byte, payload: Bytes) returns (s': TailState)
    requires TailOk(file, s.cursor) && LogDamage.IsUnknown(t)
    requires var r := TryFragment(file, rc, s.cursor); r.Fragment? && r.code == t && r.fragment == payload
    ensures var size := |payload| + (if s.inFragment then |s.fragments| else 0);
            s' == s.(cursor := TryFragment(file, rc, s.cursor).next, fragments := [], inFragment := false,
                     reports := s.reports + if t < 128 then [Corruption(size, UnknownType)] else [])
    ensures TailOne(file, rc, s) == TailOne(file, rc, s')
  {
    hide TailOne, TryFragment;
    Turn(file, rc, s);
    var size := |payload| + (if s.inFragment then |s.fragments| else 0);
    s' := s.(cursor := TryFragment(file, rc, s.cursor).next, fragments := [], inFragment := false,
             reports := s.reports + if t < 128 then [Corruption(size, UnknownType)] else []);
  }

  lemma UnknownTaken(cfg: LogConfig, rc: ReaderConfig, file: Bytes, s: TailState, t: Byte, payload: Bytes)
    returns (s': TailState)
    requires Matches(cfg, rc) && TailOk(file, s.cursor) && (s.inFragment ==> s.cursor.at % BLOCK_SIZE == 0)
    requires LogDamage.Stands(cfg, rc, s.cursor.at, LogDamage.Unknown(t, payload), false) && |payload| <= 0xffff
    requires Has(file, s.cursor.at,
                 Zeros(Pad(cfg.HeaderSize(), s.cursor.at)) + Frame(cfg.crc, cfg.logNumber, t, payload))
    ensures TailOk(file, s'.cursor) && Buffers(file, s.cursor, s'.cursor)
    ensures s'.cursor.at == s.cursor.at + Pad(cfg.HeaderSize(), s.cursor.at) + HEADER_SIZE + |payload|
    ensures s'.cursor.recycled == s.cursor.recycled && s'.cursor.firstRead == s.cursor.firstRead
    ensures !s'.inFragment && s'.fragments == []
    ensures s'.reports == s.reports + if t < 128
              then [Corruption(|payload| + (if s.inFragment then |s.fragments| else 0), UnknownType)] else []
    ensures TailOne(file, rc, s) == TailOne(file, rc, s')
  {
    hide TailOne, TryFragment, Frame, Has, Matches, TailOk, LogDamage.IsUnknown;
    var fr := Frame(cfg.crc, cfg.logNumber, t, payload);
    HasSplit(file, s.cursor.at, Zeros(Pad(cfg.HeaderSize(), s.cursor.at)), fr);
    FrameBytes(cfg.crc, cfg.logNumber, t, payload);
    HasLength(file, s.cursor.at + Pad(cfg.HeaderSize(), s.cursor.at), fr);
    var s0 := PassPadding(cfg, rc, file, s);
    TryUnknown(cfg, rc, file, s0.cursor, t, payload);
    TryBuffers(file, rc, s0.cursor);
    s' := UnknownTurn(rc, file, s0, t, payload);
  }

  lemma UnknownStep(cfg: LogConfig, rc: ReaderConfig, file: Bytes, s: TailState, w: Place) returns (t: TailState)
    requires Matches(cfg, rc) && At(cfg, file, s, w) && w.segs != [] && Boundary(cfg, w.p, w.segs, |file|)
    requires w.segs[0].Unknown? && LogDamage.Stands(cfg, rc, w.p, w.segs[0], false)
    requires Has(file, w.p, LogDamage.SegmentBytes(cfg, w.p, w.segs[0]))
    ensures Stepped(cfg, rc, file, s, StepOf(cfg, w), t)
  {
    hide TailOne, TailOk, Has, Boundary, Buffers, Frame, Pad, Room, LogDamage.IsUnknown, Matches;
    var payload := w.segs[0].payload;
    LogDamage.SmallPayload(cfg.HeaderSize(), w.p);
    t := UnknownTaken(cfg, rc, file, s, w.segs[0].t, payload);
    LogDamage.UnknownHeader(w.segs[0].t);
    BufferLater(cfg, file, s, w, t.cursor);
    LogDamage.StillFits(cfg, s.cursor, t.cursor);
  }

  // ----- one call -----

  lemma OneSegment(cfg: LogConfig, rc: ReaderConfig, file: Bytes, s: TailState, w: Place) returns (t: TailState)
    requires Matches(cfg, rc) && At(cfg, file, s, w) && w.segs != [] && Boundary(cfg, w.p, w.segs, |file|)
    requires LogDamage.Stands(cfg, rc, w.p, w.segs[0], false) && Followable(w.segs[0])
    requires w.segs[0].Ruined? ==> |w.segs| == 1 && |file| == w.Next(cfg)
    requires Has(file, w.p, LogDamage.SegmentBytes(cfg, w.p, w.segs[0]))
    ensures Stepped(cfg, rc, file, s, StepOf(cfg, w), t)
  {
    hide Matches, At, Boundary, Has, StepOf, Stepped, RecordBytes, FirstPieces, Splits, Pad, Room, LogDamage.Damaged;
    match w.segs[0]
    case Whole(_) => t := WholeStep(cfg, rc, file, s, w);
    case Begun(_, _) => t := BegunStep(cfg, rc, file, s, w);
    case Orphan(_) => t := OrphanStep(cfg, rc, file, s, w);
    case Spoiled(bytes, _) => t := DamageStep(cfg, rc, file, s, w, bytes);
    case Ruined(bytes, _) =>
      assert w.segs == [w.segs[0]];
      t := DamageStep(cfg, rc, file, s, w, bytes);
    case Blank => t := BlankStep(cfg, rc, file, s, w);
    case Unknown(_, _) => t := UnknownStep(cfg, rc, file, s, w);
  }

  /** The rest of the log, seen from a place between two segments. */
  ghost predicate Ahead(cfg: LogConfig, rc: ReaderConfig, full: Bytes, w: Place) {
    && w.p <= |full| && full[w.p..] == LogDamage.AllBytes(cfg, w.p, w.segs)
    && LogDamage.AllStand(cfg, rc, w.p, w.segs, false)
    && forall i :: 0 <= i < |w.segs| ==> Followable(w.segs[i])
  }

  /** What may stand behind the beginning of a record may stand anywhere. */
  lemma StandsAnyway(cfg: LogConfig, rc: ReaderConfig, p: nat, segs: seq<Segment>, open: bool)
    requires LogDamage.AllStand(cfg, rc, p, segs, open)
    ensures LogDamage.AllStand(cfg, rc, p, segs, false)
  {
    hide LogDamage.SegmentBytes, LogDamage.Damaged;
  }

  lemma AheadNext(cfg: LogConfig, rc: ReaderConfig, full: Bytes, w: Place)
    requires Ahead(cfg, rc, full, w) && w.segs != []
    ensures var first := LogDamage.SegmentBytes(cfg, w.p, w.segs[0]);
            && LogDamage.Stands(cfg, rc, w.p, w.segs[0], false) && Has(full, w.p, first)
            && (w.segs[0].Ruined? ==> |w.segs| == 1 && |full| == w.Next(cfg))
            && Ahead(cfg, rc, full, StepOf(cfg, w).place)
  {
    hide LogDamage.SegmentBytes, LogDamage.Stands, LogDamage.AllBytes, Has, StepOf, Followable;
    LogDamage.SplitRest(cfg, rc, full, w.p, w.segs, false);
    StandsAnyway(cfg, rc, w.Next(cfg), w.segs[1..], w.segs[0].Begun?);
    NextPlace(cfg, w);
  }

  lemma NextPlace(cfg: LogConfig, w: Place)
    requires w.segs != []
    ensures StepOf(cfg, w).place.p == w.Next(cfg)
  {
    hide Place.Next;
  }

  /** One call with the part up to n visible, which ends between two segments. */
  lemma {:induction false} OneCall(cfg: LogConfig, rc: ReaderConfig, full: Bytes, n: nat, s: TailState, w: Place)
    requires Matches(cfg, rc) && Ahead(cfg, rc, full, w)
    requires n <= |full| && At(cfg, full[..n], s, w) && Boundary(cfg, w.p, w.segs, n)
    ensures var (outcome, said, place) := Call(cfg, w, n);
            var (result, t) := TailOne(full[..n], rc, s);
            && result == outcome && t.reports == s.reports + said
            && At(cfg, full[..n], t, place) && Ahead(cfg, rc, full, place)
            && (forall m :: n <= m && Boundary(cfg, w.p, w.segs, m) ==> Boundary(cfg, place.p, place.segs, m))
    decreases |w.segs|
  {
    hide TailOne, Matches, Ahead, At, Boundary, StepOf, LogDamage.SegmentBytes, LogDamage.Stands, Has, Place.Next;
    var file := full[..n];
    if w.segs == [] || n < w.Next(cfg) {
      WaitsAt(cfg, rc, file, s, w);
    } else {
      AheadNext(cfg, rc, full, w);
      EndsHere(cfg, w);
      HasPrefix(full, n, w.p, LogDamage.SegmentBytes(cfg, w.p, w.segs[0]));
      assert Followable(w.segs[0]) by { FollowableNext(cfg, rc, full, w); }
      var t := OneSegment(cfg, rc, file, s, w);
      var step := StepOf(cfg, w);
      NextPlace(cfg, w);
      forall m | n <= m && Boundary(cfg, w.p, w.segs, m) ensures Boundary(cfg, step.place.p, step.place.segs, m) {
        BoundaryLater(cfg, w.p, w.segs, m);
      }
      if step.Goes? {
        OneCall(cfg, rc, full, n, t, step.place);
        var more := Call(cfg, step.place, n).1;
        assert s.reports + step.said + more == s.reports + (step.said + more);
      }
    }
  }

  lemma FollowableNext(cfg: LogConfig, rc: ReaderConfig, full: Bytes, w: Place)
    requires Ahead(cfg, rc, full, w) && w.segs != []
    ensures Followable(w.segs[0])
  {
    hide LogDamage.AllBytes, LogDamage.AllStand, Followable;
  }

  /** Nothing more is visible. */
  lemma WaitsAt(cfg: LogConfig, rc: ReaderConfig, file: Bytes, s: TailState, w: Place)
    requires At(cfg, file, s, w) && Boundary(cfg, w.p, w.segs, |file|)
    requires w.segs == [] || |file| < w.Next(cfg)
    ensures var (outcome, t) := TailOne(file, rc, s);
            outcome == NoMore && t.reports == s.reports + [] && At(cfg, file, t, w)
  {
    hide TailOne, LogDamage.SegmentBytes;
    if w.segs != [] {
      BoundaryLater(cfg, w.p, w.segs, |file|);
    }
    assert |file| == w.p;
    NothingLeft(rc, file, s);
    WaitBuffers(rc, file, s);
    assert s.reports + [] == s.reports;
  }

  lemma WaitBuffers(rc: ReaderConfig, file: Bytes, s: TailState)
    requires TailOk(file, s.cursor) && s.cursor.at == |file|
    ensures Buffers(file, s.cursor, TailOne(file, rc, s).1.cursor)
  {
    hide TryFragment, TailSwitch;
    TryBuffers(file, rc, s.cursor);
    TryAtEnd(rc, file, s.cursor);
  }

  lemma TryAtEnd(rc: ReaderConfig, file: Bytes, c: Cursor)
    requires TailOk(file, c) && c.at == |file|
    ensures TryFragment(file, rc, c).NoFragment?
  {
    hide AfterHeader;
    FillAtEnd(file, c);
  }

  // ----- a run of calls -----

  lemma Seen(cfg: LogConfig, full: Bytes, n: nat, m: nat, s: TailState, w: Place)
    requires n <= m <= |full| && At(cfg, full[..n], s, w)
    ensures At(cfg, full[..m], s, w)
  {
    hide Boundary;
  }

  lemma {:induction false} RunOfCalls(cfg: LogConfig, rc: ReaderConfig, full: Bytes, s: TailState, w: Place,
                                      lens: seq<nat>)
    requires Matches(cfg, rc) && Ahead(cfg, rc, full, w) && At(cfg, full, s, w)
    requires Growing(lens, s.cursor.end, |full|)
    requires forall i :: 0 <= i < |lens| ==> Boundary(cfg, w.p, w.segs, lens[i])
    ensures var (outcomes, t) := Follow(full, rc, s, lens);
            var (expected, said) := Calls(cfg, w, lens);
            outcomes == expected && t.reports == s.reports + said
    decreases |lens|
  {
    hide TailOne, Matches, Ahead, Boundary, Call, LogDamage.SegmentBytes;
    if lens == [] {
      assert s.reports + [] == s.reports;
    } else {
      var n := lens[0];
      assert s.cursor.end <= n;
      Unseen(cfg, full, n, s, w);
      OneCall(cfg, rc, full, n, s, w);
      var (outcome, said, place) := Call(cfg, w, n);
      var t := TailOne(full[..n], rc, s).1;
      Seen(cfg, full, n, |full|, t, place);
      assert full[..|full|] == full;
      assert forall i :: 0 <= i < |lens[1..]| ==> lens[1..][i] == lens[i + 1];
      RunOfCalls(cfg, rc, full, t, place, lens[1..]);
      var more := Calls(cfg, place, lens[1..]).1;
      assert s.reports + said + more == s.reports + (said + more);
    }
  }

  lemma Unseen(cfg: LogConfig, full: Bytes, n: nat, s: TailState, w: Place)
    requires s.cursor.end <= n <= |full| && At(cfg, full, s, w)
    ensures At(cfg, full[..n], s, w)
  {
    hide Boundary;
  }

  /** A log of any such segments that becomes visible segment by segment: every call returns and reports what is
      expected. */
  lemma TailOfDamagedLog(cfg: LogConfig, rc: ReaderConfig, segs: seq<Segment>, lens: seq<nat>)
    requires Matches(cfg, rc) && LogDamage.AllStand(cfg, rc, 0, segs, false)
    requires forall i :: 0 <= i < |segs| ==> Followable(segs[i])
    requires Growing(lens, 0, |LogDamage.AllBytes(cfg, 0, segs)|)
    requires forall i :: 0 <= i < |lens| ==> Boundary(cfg, 0, segs, lens[i])
    ensures var (outcomes, t) := Follow(LogDamage.AllBytes(cfg, 0, segs), rc, TAIL_START, lens);
            (outcomes, t.reports) == Calls(cfg, Place(0, segs, false, [], false), lens)
  {
    hide Follow, Calls, Matches, Boundary, LogDamage.AllBytes, LogDamage.AllStand, Followable;
    var full := LogDamage.AllBytes(cfg, 0, segs);
    assert full[0..] == full;
    var w := Place(0, segs, false, [], false);
    RunOfCalls(cfg, rc, full, TAIL_START, w, lens);
    var said := Calls(cfg, w, lens).1;
    assert [] + said == said;
  }

  // ----- one damaged frame in a log -----

  /** Calls that all see n bytes. */
  function Views(n: nat, calls: nat): seq<nat> {
    seq(calls, _ => n)
  }

  function Returned(records: seq<Bytes>): seq<Outcome> {
    seq(|records|, i requires 0 <= i < |records| => Record(records[i]))
  }

  /** What such calls return and report, from a fresh reader on a file all of which is visible. */
  function Polled(file: Bytes, rc: ReaderConfig, calls: nat): (seq<Outcome>, seq<Report>) {
    var (outcomes, t) := Follow(file, rc, TAIL_START, Views(|file|, calls));
    (outcomes, t.reports)
  }

  lemma OneView(cfg: LogConfig, w: Place, n: nat, calls: nat)
    ensures var (outcome, said, place) := Call(cfg, w, n);
            var (outcomes, more) := Calls(cfg, place, Views(n, calls));
            Calls(cfg, w, Views(n, calls + 1)) == ([outcome] + outcomes, said + more)
  {
    hide Call;
    assert Views(n, calls + 1)[1..] == Views(n, calls);
  }

  /** Records in front of other segments are returned one by one. */
  lemma {:induction false} RecordsFirst(cfg: LogConfig, p: nat, records: seq<Bytes>, rest: seq<Segment>,
                                        recycled: bool, n: nat, calls: nat)
    requires n >= p + |LogBytes(cfg, p, records)|
    ensures var place := Place(p + |LogBytes(cfg, p, records)|, rest, false, [],
                               recycled || (cfg.recycle && records != []));
            var (outcomes, said) := Calls(cfg, place, Views(n, calls));
            Calls(cfg, Place(p, LogDamage.Wholes(records) + rest, false, [], recycled), Views(n, |records| + calls))
            == (Returned(records) + outcomes, said)
    decreases |records|
  {
    hide RecordBytes, Call, Calls, Views;
    var w := Place(p, LogDamage.Wholes(records) + rest, false, [], recycled);
    if records == [] {
      assert LogDamage.Wholes(records) + rest == rest;
      var outcomes := Calls(cfg, w, Views(n, calls)).0;
      assert Returned(records) + outcomes == outcomes;
    } else {
      var q := p + |RecordBytes(cfg, p, records[0], true)|;
      var next := Place(q, LogDamage.Wholes(records[1..]) + rest, false, [], recycled || cfg.recycle);
      RecordCall(cfg, w, records[0], next, n);
      OneView(cfg, w, n, |records| - 1 + calls);
      RecordsFirst(cfg, q, records[1..], rest, recycled || cfg.recycle, n, calls);
      assert |LogBytes(cfg, p, records)| == q - p + |LogBytes(cfg, q, records[1..])|;
      var place := Place(p + |LogBytes(cfg, p, records)|, rest, false, [], recycled || cfg.recycle);
      var (outcomes, said) := Calls(cfg, place, Views(n, calls));
      assert [Record(records[0])] + (Returned(records[1..]) + outcomes) == Returned(records) + outcomes;
      assert [] + said == said;
    }
  }

  lemma RecordCall(cfg: LogConfig, w: Place, data: Bytes, next: Place, n: nat)
    requires w.segs == [LogDamage.Whole(data)] + next.segs && n >= next.p
    requires next == Place(w.p + |RecordBytes(cfg, w.p, data, true)|, w.segs[1..], false, [], w.recycled || cfg.recycle)
    ensures var whole := FragmentLength(cfg.HeaderSize(), w.p, |data|) == |data|;
            Call(cfg, w, n) == (Record(data), Interrupted(w.open, |w.held|, whole), next)
  {
    hide RecordBytes, FragmentLength;
  }

  /** The last call finds nothing. */
  lemma NothingToReturn(cfg: LogConfig, w: Place, n: nat)
    requires w.segs == []
    ensures Calls(cfg, w, Views(n, 1)) == ([NoMore], [])
  {
    LastCall(cfg, w, n);
  }

  lemma JustRecords(cfg: LogConfig, w: Place, records: seq<Bytes>, n: nat)
    requires w == Place(w.p, LogDamage.Wholes(records), false, [], w.recycled)
    requires n >= w.p + |LogBytes(cfg, w.p, records)|
    ensures Calls(cfg, w, Views(n, |records| + 1)) == (Returned(records) + [NoMore], [])
  {
    hide LogBytes, Calls;
    assert LogDamage.Wholes(records) + [] == LogDamage.Wholes(records);
    RecordsFirst(cfg, w.p, records, [], w.recycled, n, 1);
    NothingToReturn(cfg, Place(w.p + |LogBytes(cfg, w.p, records)|, [], false, [],
                               w.recycled || (cfg.recycle && records != [])), n);
  }

  /** The same if the reader still thinks it is inside a record of which it kept nothing. */
  lemma RecordsBehindStop(cfg: LogConfig, w: Place, records: seq<Bytes>, n: nat)
    requires w == Place(w.p, LogDamage.Wholes(records), w.open, [], true)
    requires n >= w.p + |LogBytes(cfg, w.p, records)|
    ensures Calls(cfg, w, Views(n, |records| + 1))
         == (Returned(records) + [NoMore],
             if records == [] then []
             else Interrupted(w.open, 0, FragmentLength(cfg.HeaderSize(), w.p, |records[0]|) == |records[0]|))
  {
    hide RecordBytes, Call, Calls, FragmentLength;
    if records == [] {
      NothingToReturn(cfg, w, n);
      assert Returned(records) + [NoMore] == [NoMore];
    } else {
      var q := w.p + |RecordBytes(cfg, w.p, records[0], true)|;
      var next := Place(q, LogDamage.Wholes(records[1..]), false, [], true);
      assert LogDamage.Wholes(records) == [LogDamage.Whole(records[0])] + LogDamage.Wholes(records[1..]);
      assert LogDamage.Wholes(records)[1..] == LogDamage.Wholes(records[1..]);
      RecordCall(cfg, w, records[0], next, n);
      OneView(cfg, w, n, |records|);
      JustRecords(cfg, next, records[1..], n);
      assert [Record(records[0])] + (Returned(records[1..]) + [NoMore]) == Returned(records) + [NoMore];
      var said := Call(cfg, w, n).1;
      assert said + [] == said;
    }
  }

  /** The call that meets the damage. */
  lemma SpoiledCall(cfg: LogConfig, w: Place, bytes: Bytes, rest: seq<Segment>, n: nat)
    requires w.segs == [LogDamage.Spoiled(bytes, ChecksumMismatch)] + rest
    requires n >= w.p + Pad(cfg.HeaderSize(), w.p) + |bytes|
    ensures var q := w.p + Pad(cfg.HeaderSize(), w.p) + |bytes|;
            if w.recycled || LogDamage.LooksRecyclable(bytes) then
              Call(cfg, w, n) == (NoMore, [], Place(q, rest, w.open, [], true))
            else
              var (outcome, more, place) := Call(cfg, Place(q, rest, false, [], false), n);
              var said := [Corruption(|bytes|, ChecksumMismatch)] + LogDamage.GivenUp(w.open, |w.held|);
              Call(cfg, w, n) == (outcome, said + more, place)
  {
    hide Pad, LogDamage.LooksRecyclable;
    assert w.segs[1..] == rest;
  }

  lemma BegunCall(cfg: LogConfig, w: Place, data: Bytes, j: nat, rest: seq<Segment>, n: nat)
    requires w.segs == [LogDamage.Begun(data, j)] + rest && !w.open && w.held == []
    requires n >= w.p + |LogDamage.Fragments(cfg, w.p, data, j)|
    ensures Call(cfg, w, n)
         == Call(cfg, Place(w.p + |LogDamage.Fragments(cfg, w.p, data, j)|, rest, true, Begins(cfg, w.p, data, j),
                            w.recycled || cfg.recycle), n)
  {
    hide LogDamage.Fragments, Begins;
    assert w.segs[1..] == rest;
    assert forall r: seq<Report> :: [] + r == r;
  }

  /** What the calls that see a spoiled block and records behind it return. */
  lemma SpoiledThenRecords(cfg: LogConfig, w: Place, bytes: Bytes, b: seq<Bytes>, n: nat)
    requires w.segs == [LogDamage.Spoiled(bytes, ChecksumMismatch)] + LogDamage.Wholes(b)
    requires var q := w.p + Pad(cfg.HeaderSize(), w.p) + |bytes|; n >= q + |LogBytes(cfg, q, b)|
    ensures var q := w.p + Pad(cfg.HeaderSize(), w.p) + |bytes|;
            if w.recycled || LogDamage.LooksRecyclable(bytes) then
              Calls(cfg, w, Views(n, |b| + 2))
              == ([NoMore] + Returned(b) + [NoMore],
                  if b == [] then [] else Interrupted(w.open, 0, FragmentLength(cfg.HeaderSize(), q, |b[0]|) == |b[0]|))
            else
              Calls(cfg, w, Views(n, |b| + 1))
              == (Returned(b) + [NoMore],
                  [Corruption(|bytes|, ChecksumMismatch)] + LogDamage.GivenUp(w.open, |w.held|))
  {
    hide LogBytes, Pad, LogDamage.LooksRecyclable, Call, Calls, FragmentLength;
    var q := w.p + Pad(cfg.HeaderSize(), w.p) + |bytes|;
    SpoiledCall(cfg, w, bytes, LogDamage.Wholes(b), n);
    if w.recycled || LogDamage.LooksRecyclable(bytes) {
      var next := Place(q, LogDamage.Wholes(b), w.open, [], true);
      OneView(cfg, w, n, |b| + 1);
      RecordsBehindStop(cfg, next, b, n);
      assert [NoMore] + (Returned(b) + [NoMore]) == [NoMore] + Returned(b) + [NoMore];
      assert forall r: seq<Report> :: [] + r == r;
    } else {
      var next := Place(q, LogDamage.Wholes(b), false, [], false);
      OneView(cfg, w, n, |b|);
      OneView(cfg, next, n, |b|);
      JustRecords(cfg, next, b, n);
      var said := [Corruption(|bytes|, ChecksumMismatch)] + LogDamage.GivenUp(w.open, |w.held|);
      FirstSaysNothing(Call(cfg, next, n).1, Calls(cfg, Call(cfg, next, n).2, Views(n, |b|)).1);
      assert said + [] + [] == said;
    }
  }

  lemma FirstSaysNothing(a: seq<Report>, b: seq<Report>)
    requires a + b == []
    ensures a == [] && b == []
  {
    assert |a + b| == |a| + |b|;
  }

  /** What the calls are expected to return and report when a damaged frame and what follows it in its block stand
      behind the first j fragments of a record. */
  ghost function Around(cfg: LogConfig, a: seq<Bytes>, held: nat, j: nat, size: nat, q: nat, b: seq<Bytes>,
                        recycled: bool): (seq<Outcome>, seq<Report>)
  {
    if recycled then
      (Returned(a) + [NoMore] + Returned(b) + [NoMore],
       if b == [] then []
       else Interrupted(j > 0, 0, FragmentLength(cfg.HeaderSize(), q, |b[0]|) == |b[0]|))
    else (Returned(a + b) + [NoMore], [Corruption(size, ChecksumMismatch)] + LogDamage.GivenUp(j > 0, held))
  }

  lemma AroundCalls(cfg: LogConfig, rc: ReaderConfig, a: seq<Bytes>, data: Bytes, j: nat, bytes: Bytes, b: seq<Bytes>,
                    n: nat)
    requires Splits(cfg, |LogBytes(cfg, 0, a)|, data, j)
    requires var e := |LogBytes(cfg, 0, a)|;
             var p := e + |LogDamage.Fragments(cfg, e, data, j)|;
             var q := p + Pad(cfg.HeaderSize(), p) + |bytes|;
             n >= q + |LogBytes(cfg, q, b)|
    ensures var e := |LogBytes(cfg, 0, a)|;
            var p := e + |LogDamage.Fragments(cfg, e, data, j)|;
            var q := p + Pad(cfg.HeaderSize(), p) + |bytes|;
            var recycled := LogDamage.LooksRecyclable(bytes) || (cfg.recycle && (a != [] || j > 0));
            var segs := Segments(a, data, j, bytes, b);
            Calls(cfg, Place(0, segs, false, [], false), Views(n, |a| + |b| + if recycled then 2 else 1))
            == Around(cfg, a, LogDamage.Held(cfg, e, data, j), j, |bytes|, q, b, recycled)
  {
    hide LogBytes, Pad, LogDamage.LooksRecyclable, Call, Calls, FragmentLength, Splits, LogDamage.Fragments;
    hide LogDamage.Held, Interrupted, LogDamage.GivenUp, Begins;
    var e := |LogBytes(cfg, 0, a)|;
    var p := e + |LogDamage.Fragments(cfg, e, data, j)|;
    var recycled := LogDamage.LooksRecyclable(bytes) || (cfg.recycle && (a != [] || j > 0));
    var more := |b| + if recycled then 2 else 1;
    var spoiled := [LogDamage.Spoiled(bytes, ChecksumMismatch)] + LogDamage.Wholes(b);
    var rest := if j == 0 then spoiled else [LogDamage.Begun(data, j)] + spoiled;
    RecordsFirst(cfg, 0, a, rest, false, n, more);
    var w := Place(e, rest, false, [], cfg.recycle && a != []);
    var behind := Place(p, spoiled, j > 0, Begins(cfg, e, data, j), cfg.recycle && (a != [] || j > 0));
    HeldBytes(cfg, e, data, j);
    SpoiledThenRecords(cfg, behind, bytes, b, n);
    if j > 0 {
      BegunCall(cfg, w, data, j, spoiled, n);
      SameCalls(cfg, w, behind, n, more);
    }
    var expected := Calls(cfg, behind, Views(n, more));
    assert Returned(a) + ([NoMore] + Returned(b) + [NoMore]) == Returned(a) + [NoMore] + Returned(b) + [NoMore];
    assert Returned(a) + (Returned(b) + [NoMore]) == Returned(a + b) + [NoMore];
  }

  /** The log: records, the first j fragments of another, a damaged frame and what follows it in its block, records. */
  function Segments(a: seq<Bytes>, data: Bytes, j: nat, bytes: Bytes, b: seq<Bytes>): seq<Segment> {
    var spoiled := [LogDamage.Spoiled(bytes, ChecksumMismatch)] + LogDamage.Wholes(b);
    LogDamage.Wholes(a) + if j == 0 then spoiled else [LogDamage.Begun(data, j)] + spoiled
  }

  lemma HeldBytes(cfg: LogConfig, p: nat, data: Bytes, j: nat)
    requires Splits(cfg, p, data, j)
    ensures |Begins(cfg, p, data, j)| == LogDamage.Held(cfg, p, data, j)
    ensures j == 0 ==> Begins(cfg, p, data, j) == [] && LogDamage.Fragments(cfg, p, data, j) == []
  {
  }

  lemma SameCalls(cfg: LogConfig, w: Place, v: Place, n: nat, calls: nat)
    requires calls > 0 && Call(cfg, w, n) == Call(cfg, v, n)
    ensures Calls(cfg, w, Views(n, calls)) == Calls(cfg, v, Views(n, calls))
  {
    hide Call;
    OneView(cfg, w, n, calls - 1);
    OneView(cfg, v, n, calls - 1);
  }

  /** The bytes of that log. */
  lemma SegmentsBytes(cfg: LogConfig, rc: ReaderConfig, a: seq<Bytes>, data: Bytes, j: nat, bytes: Bytes, b: seq<Bytes>)
    requires Splits(cfg, |LogBytes(cfg, 0, a)|, data, j)
    requires var p := |LogBytes(cfg, 0, a)| + |LogDamage.Fragments(cfg, |LogBytes(cfg, 0, a)|, data, j)|;
             |bytes| == LogDamage.RestOfBlock(cfg.HeaderSize(), p)
    requires LogDamage.Damaged(rc, bytes, ChecksumMismatch) && (LogDamage.LooksRecyclable(bytes) ==> cfg.recycle)
    ensures var log := LogBytes(cfg, 0, a);
            var front := log + LogDamage.Fragments(cfg, |log|, data, j);
            var pad := Zeros(Pad(cfg.HeaderSize(), |front|));
            var segs := Segments(a, data, j, bytes, b);
            && LogDamage.AllStand(cfg, rc, 0, segs, false)
            && LogDamage.AllBytes(cfg, 0, segs)
               == front + (pad + bytes + LogBytes(cfg, |front| + |pad| + |bytes|, b))
  {
    hide LogBytes, LogDamage.Fragments, LogDamage.Damaged, LogDamage.LooksRecyclable, Pad, Splits, LogDamage.AllStand;
    hide LogDamage.AllBytes, LogDamage.Expected;
    var log := LogBytes(cfg, 0, a);
    var e := |log|;
    var begun := LogDamage.Fragments(cfg, e, data, j);
    var mode := AbsoluteConsistency;
    LogDamage.SpoiledThenRecords(cfg, rc, mode, e + |begun|, j > 0, 0, false, bytes, ChecksumMismatch, b);
    var spoiled := [LogDamage.Spoiled(bytes, ChecksumMismatch)] + LogDamage.Wholes(b);
    var rest := if j == 0 then spoiled else [LogDamage.Begun(data, j)] + spoiled;
    if j == 0 {
      LogDamage.NoFragments(cfg, e, data);
    } else {
      LogDamage.Cons(cfg, rc, e, LogDamage.Begun(data, j), spoiled, false);
    }
    LogDamage.RecordsFirst(cfg, rc, mode, 0, a, rest, false);
    var all := LogDamage.AllBytes(cfg, e + |begun|, spoiled);
    Assoc(log, begun, all);
    assert j == 0 ==> [] + all == all;
  }

  lemma {:induction false} EndIsBoundary(cfg: LogConfig, p: nat, segs: seq<Segment>)
    ensures Boundary(cfg, p, segs, p + |LogDamage.AllBytes(cfg, p, segs)|)
    decreases |segs|
  {
    hide LogDamage.SegmentBytes;
    if segs != [] {
      EndIsBoundary(cfg, p + |LogDamage.SegmentBytes(cfg, p, segs[0])|, segs[1..]);
    }
  }

  /** A log in which one frame was damaged, all of it visible: the rest of the block is lost. If the reader does not
      take the log for recycled, it returns what stands in other blocks and reports the damage with the number of
      bytes lost, and so the fragments given up. Otherwise the call that meets the damage returns nothing and
      reports nothing, and the next call goes on behind it. */
  lemma TailOfDamagedFrame(cfg: LogConfig, rc: ReaderConfig, a: seq<Bytes>, data: Bytes, j: nat, bytes: Bytes,
                           b: seq<Bytes>)
    requires Matches(cfg, rc) && Splits(cfg, |LogBytes(cfg, 0, a)|, data, j)
    requires var p := |LogBytes(cfg, 0, a)| + |LogDamage.Fragments(cfg, |LogBytes(cfg, 0, a)|, data, j)|;
             |bytes| == LogDamage.RestOfBlock(cfg.HeaderSize(), p)
    requires LogDamage.Damaged(rc, bytes, ChecksumMismatch) && (LogDamage.LooksRecyclable(bytes) ==> cfg.recycle)
    ensures var log := LogBytes(cfg, 0, a);
            var front := log + LogDamage.Fragments(cfg, |log|, data, j);
            var pad := Zeros(Pad(cfg.HeaderSize(), |front|));
            var q := |front| + |pad| + |bytes|;
            var file := front + (pad + bytes + LogBytes(cfg, q, b));
            var recycled := LogDamage.LooksRecyclable(bytes) || (cfg.recycle && (a != [] || j > 0));
            Polled(file, rc, |a| + |b| + if recycled then 2 else 1)
            == Around(cfg, a, LogDamage.Held(cfg, |log|, data, j), j, |bytes|, q, b, recycled)
  {
    hide Polled, LogBytes, LogDamage.Fragments, LogDamage.Held, LogDamage.Damaged, LogDamage.LooksRecyclable, Pad;
    hide Matches, Splits, LogDamage.AllStand, LogDamage.AllBytes, Around, Calls, Segments, Followable, Views;
    SegmentsBytes(cfg, rc, a, data, j, bytes, b);
    var segs := Segments(a, data, j, bytes, b);
    AllFollowable(a, data, j, bytes, b);
    var recycled := LogDamage.LooksRecyclable(bytes) || (cfg.recycle && (a != [] || j > 0));
    PolledLog(cfg, rc, segs, |a| + |b| + if recycled then 2 else 1);
    AroundCalls(cfg, rc, a, data, j, bytes, b, |LogDamage.AllBytes(cfg, 0, segs)|);
  }

  /** All of the log is visible from the beginning. */
  lemma PolledLog(cfg: LogConfig, rc: ReaderConfig, segs: seq<Segment>, calls: nat)
    requires Matches(cfg, rc) && LogDamage.AllStand(cfg, rc, 0, segs, false)
    requires forall i :: 0 <= i < |segs| ==> Followable(segs[i])
    ensures var file := LogDamage.AllBytes(cfg, 0, segs);
            Polled(file, rc, calls) == Calls(cfg, Place(0, segs, false, [], false), Views(|file|, calls))
  {
    hide Follow, Matches, LogDamage.AllStand, LogDamage.AllBytes, Boundary, Calls, Followable;
    EndIsBoundary(cfg, 0, segs);
    TailOfDamagedLog(cfg, rc, segs, Views(|LogDamage.AllBytes(cfg, 0, segs)|, calls));
  }

  lemma AllFollowable(a: seq<Bytes>, data: Bytes, j: nat, bytes: Bytes, b: seq<Bytes>)
    ensures var segs := Segments(a, data, j, bytes, b); forall i :: 0 <= i < |segs| ==> Followable(segs[i])
  {
  }

  // ----- records that were never written -----

  /** The records among the segments. */
  function Written(segs: seq<Segment>): seq<Bytes> {
    if segs == [] then []
    else (if segs[0].Whole? then [segs[0].data] else []) + Written(segs[1..])
  }

  /** What the calls deliver in the end. */
  ghost function Due(cfg: LogConfig, w: Place): seq<Bytes>
    decreases |w.segs|
  {
    if w.segs == [] then []
    else
      var step := StepOf(cfg, w);
      (if step.Returns? && step.outcome.Record? then [step.outcome.data] else []) + Due(cfg, step.place)
  }

  /** The end of a record stands where the reader thinks it is inside a record. */
  ghost predicate Beheaded(cfg: LogConfig, w: Place)
    decreases |w.segs|
  {
    w.segs != [] && ((w.segs[0].Orphan? && w.open) || Beheaded(cfg, StepOf(cfg, w).place))
  }

  lemma StepReturns(cfg: LogConfig, w: Place)
    requires w.segs != []
    ensures var step := StepOf(cfg, w);
            var record := step.Returns? && step.outcome.Record?;
            && (record <==> w.segs[0].Whole? || (w.segs[0].Orphan? && w.open))
            && (w.segs[0].Whole? ==> step.outcome.data == w.segs[0].data)
  {
  }

  lemma {:induction false} DueAtLeast(cfg: LogConfig, w: Place)
    ensures |Due(cfg, w)| >= |Written(w.segs)|
    ensures Beheaded(cfg, w) ==> |Due(cfg, w)| > |Written(w.segs)|
    ensures !Beheaded(cfg, w) ==> Due(cfg, w) == Written(w.segs)
    decreases |w.segs|
  {
    hide StepOf;
    if w.segs != [] {
      StepReturns(cfg, w);
      DueAtLeast(cfg, StepOf(cfg, w).place);
    }
  }

  /** One call delivers the next record due. */
  lemma {:induction false} CallDelivers(cfg: LogConfig, w: Place, n: nat)
    ensures var (outcome, _, place) := Call(cfg, w, n);
            && (outcome.Record? ==> Due(cfg, w) == [outcome.data] + Due(cfg, place))
            && (!outcome.Record? ==> Due(cfg, w) == Due(cfg, place))
            && |place.segs| <= |w.segs|
            && (w.segs != [] && n >= w.p + |LogDamage.AllBytes(cfg, w.p, w.segs)| ==> |place.segs| < |w.segs|)
            && place.p + |LogDamage.AllBytes(cfg, place.p, place.segs)|
               == w.p + |LogDamage.AllBytes(cfg, w.p, w.segs)|
    decreases |w.segs|
  {
    hide StepOf, LogDamage.SegmentBytes;
    if w.segs != [] {
      NextPlace(cfg, w);
      var step := StepOf(cfg, w);
      if n >= w.Next(cfg) && step.Goes? {
        CallDelivers(cfg, step.place, n);
        assert [] + Due(cfg, step.place) == Due(cfg, step.place);
      }
    }
  }

  lemma {:induction false} CallsDeliver(cfg: LogConfig, w: Place, lens: seq<nat>)
    ensures Delivered(Calls(cfg, w, lens).0) <= Due(cfg, w)
    ensures FullViews(lens, w.p + |LogDamage.AllBytes(cfg, w.p, w.segs)|) >= |w.segs| ==>
              Delivered(Calls(cfg, w, lens).0) == Due(cfg, w)
    decreases |lens|
  {
    hide Call, Due, LogDamage.AllBytes, Delivered, FullViews;
    if lens == [] {
      NothingDue(cfg, w);
    } else {
      var end := w.p + |LogDamage.AllBytes(cfg, w.p, w.segs)|;
      CallDelivers(cfg, w, lens[0]);
      var (outcome, said, place) := Call(cfg, w, lens[0]);
      var rest := Calls(cfg, place, lens[1..]).0;
      DeliveredFirst(outcome, rest);
      ViewsFirst(lens, end);
      NothingDue(cfg, w);
      CallsDeliver(cfg, place, lens[1..]);
    }
  }

  lemma NothingDue(cfg: LogConfig, w: Place)
    ensures Delivered([]) == []
    ensures w.segs == [] ==> Due(cfg, w) == []
    ensures forall n :: FullViews([], n) == 0
  {
  }

  lemma DeliveredFirst(outcome: Outcome, rest: seq<Outcome>)
    ensures Delivered([outcome] + rest) == (if outcome.Record? then [outcome.data] else []) + Delivered(rest)
  {
    assert ([outcome] + rest)[1..] == rest;
  }

  lemma ViewsFirst(lens: seq<nat>, n: nat)
    requires lens != []
    ensures FullViews(lens, n) == (if lens[0] >= n then 1 else 0) + FullViews(lens[1..], n)
  {
  }

  /** Once all of the log was visible often enough, what the reader has delivered is what was written if and only if
      the end of a record stands nowhere where the reader thinks it is inside a record. */
  lemma TailDeliversWritten(cfg: LogConfig, rc: ReaderConfig, segs: seq<Segment>, lens: seq<nat>)
    requires Matches(cfg, rc) && LogDamage.AllStand(cfg, rc, 0, segs, false)
    requires forall i :: 0 <= i < |segs| ==> Followable(segs[i])
    requires Growing(lens, 0, |LogDamage.AllBytes(cfg, 0, segs)|)
    requires forall i :: 0 <= i < |lens| ==> Boundary(cfg, 0, segs, lens[i])
    requires FullViews(lens, |LogDamage.AllBytes(cfg, 0, segs)|) >= |segs|
    ensures Delivered(Follow(LogDamage.AllBytes(cfg, 0, segs), rc, TAIL_START, lens).0) == Written(segs)
            <==> !Beheaded(cfg, Place(0, segs, false, [], false))
    ensures !cfg.recycle ==> !Beheaded(cfg, Place(0, segs, false, [], false))
  {
    hide Follow, Calls, Matches, Boundary, LogDamage.AllBytes, LogDamage.AllStand, Followable, Beheaded, FullViews;
    hide Delivered;
    var w := Place(0, segs, false, [], false);
    TailOfDamagedLog(cfg, rc, segs, lens);
    CallsDeliver(cfg, w, lens);
    DueAtLeast(cfg, w);
    if !cfg.recycle {
      OnlyRecycled(cfg, rc, w, false);
    }
  }

  /** Only in a recycled log the reader can take the end of one record for that of another. */
  lemma {:induction false} OnlyRecycled(cfg: LogConfig, rc: ReaderConfig, w: Place, open: bool)
    requires !cfg.recycle && !w.recycled && LogDamage.AllStand(cfg, rc, w.p, w.segs, open) && (w.open ==> open)
    ensures !Beheaded(cfg, w)
    decreases |w.segs|
  {
    hide LogDamage.SegmentBytes, LogDamage.Damaged, LogDamage.LooksRecyclable;
    if w.segs != [] {
      OnlyRecycled(cfg, rc, StepOf(cfg, w).place, w.segs[0].Begun?);
    }
  }

  lemma FirstBlock(cfg: LogConfig, data: Bytes)
    requires cfg.recycle && |data| == BLOCK_SIZE
    ensures Splits(cfg, 0, data, 1) && |LogDamage.Fragments(cfg, 0, data, 1)| == BLOCK_SIZE
  {
    hide FirstPiece;
    PieceLength(cfg, 0, data, true);
    PiecesStep(cfg, 0, data, true, 1);
  }

  lemma OrphanCall(cfg: LogConfig, w: Place, data: Bytes, n: nat)
    requires w.segs == [LogDamage.Orphan(data)] && w.open && n >= w.Next(cfg)
    ensures Call(cfg, w, n).0 == Record(w.held + data) && Call(cfg, w, n).1 == []
  {
    hide Place.Next;
  }

  /** The first fragment of a record, a damaged block, and the end of the record. */
  function Hollow(data: Bytes, bytes: Bytes, rest: Bytes): seq<Segment> {
    [LogDamage.Begun(data, 1)] + ([LogDamage.Spoiled(bytes, ChecksumMismatch)] + [LogDamage.Orphan(rest)])
  }

  lemma HollowStands(cfg: LogConfig, rc: ReaderConfig, data: Bytes, bytes: Bytes, rest: Bytes)
    requires cfg.recycle && |data| == |bytes| == BLOCK_SIZE && LogDamage.Damaged(rc, bytes, ChecksumMismatch)
    ensures LogDamage.AllStand(cfg, rc, 0, Hollow(data, bytes, rest), false)
    ensures |LogDamage.AllBytes(cfg, 0, Hollow(data, bytes, rest))|
         == Place(2 * BLOCK_SIZE, [LogDamage.Orphan(rest)], true, [], true).Next(cfg)
  {
    hide RecordBytes, Splits, LogDamage.AllStand, LogDamage.AllBytes, LogDamage.Damaged, LogDamage.Fragments;
    hide LogDamage.LooksRecyclable, Pad;
    FirstBlock(cfg, data);
    NoPadAtStart(cfg.HeaderSize(), BLOCK_SIZE);
    var end := OneOrphan(cfg, rc, 2 * BLOCK_SIZE, rest);
    var spoiled := LogDamage.Spoiled(bytes, ChecksumMismatch);
    LogDamage.Cons(cfg, rc, BLOCK_SIZE, spoiled, [LogDamage.Orphan(rest)], true);
    LogDamage.Cons(cfg, rc, 0, LogDamage.Begun(data, 1), [spoiled] + [LogDamage.Orphan(rest)], false);
  }

  /** The reader drops what it kept of a record, but thinks that it is still inside one. */
  lemma HollowCalls(cfg: LogConfig, data: Bytes, bytes: Bytes, rest: Bytes, n: nat)
    requires cfg.recycle && |data| == |bytes| == BLOCK_SIZE
    requires n >= Place(2 * BLOCK_SIZE, [LogDamage.Orphan(rest)], true, [], true).Next(cfg) >= 2 * BLOCK_SIZE
    ensures Calls(cfg, Place(0, Hollow(data, bytes, rest), false, [], false), Views(n, 2))
         == ([NoMore, Record(rest)], [])
  {
    hide Splits, Calls, Call, LogDamage.Fragments, LogDamage.LooksRecyclable, Pad, Begins, Place.Next;
    FirstBlock(cfg, data);
    NoPadAtStart(cfg.HeaderSize(), BLOCK_SIZE);
    var spoiled := [LogDamage.Spoiled(bytes, ChecksumMismatch)] + [LogDamage.Orphan(rest)];
    var w := Place(0, Hollow(data, bytes, rest), false, [], false);
    var behind := Place(BLOCK_SIZE, spoiled, true, Begins(cfg, 0, data, 1), true);
    var last := Place(2 * BLOCK_SIZE, [LogDamage.Orphan(rest)], true, [], true);
    BegunCall(cfg, w, data, 1, spoiled, n);
    SpoiledCall(cfg, behind, bytes, [LogDamage.Orphan(rest)], n);
    OrphanCall(cfg, last, rest, n);
    OneView(cfg, w, n, 1);
    LastCall(cfg, last, n);
    assert [] + rest == rest;
    assert Call(cfg, w, n) == (NoMore, [], last);
    var (outcomes, said) := Calls(cfg, last, Views(n, 1));
    assert outcomes == [Record(rest)] && said == [];
    assert [NoMore] + outcomes == [NoMore, Record(rest)] && [] + said == [];
  }

  lemma HollowIsDelivered(cfg: LogConfig, rc: ReaderConfig, data: Bytes, bytes: Bytes, rest: Bytes)
    requires Matches(cfg, rc) && cfg.recycle && |data| == |bytes| == BLOCK_SIZE
    requires LogDamage.Damaged(rc, bytes, ChecksumMismatch)
    ensures var segs := Hollow(data, bytes, rest);
            && LogDamage.AllStand(cfg, rc, 0, segs, false) && Written(segs) == []
            && Polled(LogDamage.AllBytes(cfg, 0, segs), rc, 2) == ([NoMore, Record(rest)], [])
  {
    hide Polled, LogDamage.AllStand, LogDamage.AllBytes, Calls, LogDamage.Damaged, Matches, RecordBytes;
    var segs := Hollow(data, bytes, rest);
    HollowStands(cfg, rc, data, bytes, rest);
    var n := |LogDamage.AllBytes(cfg, 0, segs)|;
    PolledLog(cfg, rc, segs, 2);
    HollowCalls(cfg, data, bytes, rest, n);
    var spoiled := LogDamage.Spoiled(bytes, ChecksumMismatch);
    assert segs[1..] == [spoiled] + [LogDamage.Orphan(rest)] && segs[1..][1..] == [LogDamage.Orphan(rest)];
    assert Written(segs) == Written(segs[1..]) == Written(segs[1..][1..]) == [];
  }

  lemma LastCall(cfg: LogConfig, w: Place, n: nat)
    ensures Calls(cfg, w, Views(n, 1)) == ([Call(cfg, w, n).0], Call(cfg, w, n).1)
  {
    hide Call;
    var (outcome, said, place) := Call(cfg, w, n);
    OneView(cfg, w, n, 0);
    assert [outcome] + [] == [outcome] && said + [] == said;
  }

  lemma OneOrphan(cfg: LogConfig, rc: ReaderConfig, p: nat, rest: Bytes) returns (end: nat)
    requires p % BLOCK_SIZE == 0
    ensures LogDamage.AllStand(cfg, rc, p, [LogDamage.Orphan(rest)], false)
    ensures end == p + |LogDamage.AllBytes(cfg, p, [LogDamage.Orphan(rest)])|
    ensures end == Place(p, [LogDamage.Orphan(rest)], true, [], true).Next(cfg)
  {
    hide RecordBytes;
    var bytes := RecordBytes(cfg, p, rest, false);
    assert bytes + [] == bytes;
    end := p + |bytes|;
  }

  /** A checksum that is always zero. */
  const PLAIN: Checksum := Checksum(_ => 0, (_, _) => 0, (_, _, _) => 0, x => x, x => x)

  /** A frame in the middle of a record of which nothing is right but the length and the log number. */
  const WRONG_FRAME: Bytes := [1, 0, 0, 0, 0, 0, RECYCLABLE_MIDDLE, 0, 0, 0, 0] + Zeros(BLOCK_SIZE - 11)

  /** A recycled log with a record over three blocks, in which the frame in the second block is damaged: its end is
      delivered as a record, although nothing of that kind was written, and nothing is reported. */
  lemma DeliversNeverWritten(rest: Bytes)
    ensures var cfg, rc := LogConfig(PLAIN, 0, true, true), ReaderConfig(PLAIN, true, 0);
            var segs := Hollow(Zeros(BLOCK_SIZE), WRONG_FRAME, rest);
            && Matches(cfg, rc) && LogDamage.AllStand(cfg, rc, 0, segs, false) && Written(segs) == []
            && Polled(LogDamage.AllBytes(cfg, 0, segs), rc, 2) == ([NoMore, Record(rest)], [])
  {
    hide Polled, Written, Hollow, LogDamage.AllStand, LogDamage.AllBytes;
    var cfg, rc := LogConfig(PLAIN, 0, true, true), ReaderConfig(PLAIN, true, 0);
    WrongFrame(rc);
    HollowIsDelivered(cfg, rc, Zeros(BLOCK_SIZE), WRONG_FRAME, rest);
  }

  lemma WrongFrame(rc: ReaderConfig)
    requires rc == ReaderConfig(PLAIN, true, 0)
    ensures LogDamage.Damaged(rc, WRONG_FRAME, ChecksumMismatch)
  {
    assert WRONG_FRAME[..4] == [1, 0, 0, 0];
    assert WRONG_FRAME[7..11] == [0, 0, 0, 0];
  }
}
