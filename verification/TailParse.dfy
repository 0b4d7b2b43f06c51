/** What `FragmentBufferedReader` computes on the part of a growing log that is visible during one
    call: it keeps its fragments and its place across calls instead of giving up at the end. */
module TailParse {
  import opened LogFormat
  import opened LogParse

  /** As `Cursor.Ok`, for a file that may have grown since the buffer was filled. */
  ghost predicate TailOk(file: Bytes, c: Cursor) {
    && c.at <= c.end <= |file|
    && (!c.eof ==> c.end % BLOCK_SIZE == 0)
    && (c.at < c.end ==> c.at % BLOCK_SIZE + (c.end - c.at) <= BLOCK_SIZE)
    && (c.at < c.end && c.eof ==> c.end % BLOCK_SIZE != 0)
  }

  /** `TryReadMore`: the next block, or after a short read the rest of the current block. */
  function More(file: Bytes, c: Cursor): (d: Cursor)
    requires TailOk(file, c)
    ensures TailOk(file, d) && d.end >= c.end
    ensures d.recycled == c.recycled && d.firstRead == c.firstRead
    ensures d.end == c.end ==> d.eof
    ensures d.at == if c.eof then c.at else c.end
  {
    var from := if c.eof then c.end % BLOCK_SIZE else 0;
    var remaining := BLOCK_SIZE - from;
    var added := if |file| - c.end < remaining then |file| - c.end else remaining;
    c.(at := if c.eof then c.at else c.end, end := c.end + added, eof := added < remaining)
  }

  /** Reads until `need` bytes are buffered; gives up when a read leaves the buffer size unchanged. */
  function Fill(file: Bytes, c: Cursor, need: nat): (r: (bool, Cursor))
    requires TailOk(file, c)
    ensures TailOk(file, r.1) && r.1.recycled == c.recycled && r.1.firstRead == c.firstRead
    ensures r.0 ==> r.1.end - r.1.at >= need
    decreases |file| - c.end, !c.eof
  {
    if c.end - c.at >= need then (true, c)
    else
      var d := More(file, c);
      if d.end - d.at == c.end - c.at then (false, d) else Fill(file, d, need)
  }

  /** `NoFragment` is the source's `false`. `Dead` stands for its endless loops on a recyclable frame
      it refuses without consuming, `Torn` for a frame longer than its block, where the source would
      read a header that has been overwritten. */
  datatype Attempt =
    | NoFragment(next: Cursor)
    | Fragment(code: Byte, fragment: Bytes, drop: nat, next: Cursor)
    | Dead(next: Cursor)
    | Torn(next: Cursor)

  /** `TryReadFragment`. */
  function TryFragment(file: Bytes, rc: ReaderConfig, c: Cursor): (r: Attempt)
    requires TailOk(file, c)
    ensures TailOk(file, r.next)
    ensures r.Fragment? ==> r.next.at > c.at
  {
    FillMovesForward(file, c, HEADER_SIZE);
    var (ok, d) := Fill(file, c, HEADER_SIZE);
    if !ok then NoFragment(d) else AfterHeader(file, rc, d)
  }

  /** The short header at the cursor is buffered: a recyclable frame is refused, or needs four bytes more. */
  function AfterHeader(file: Bytes, rc: ReaderConfig, d: Cursor): (r: Attempt)
    requires TailOk(file, d) && d.end - d.at >= HEADER_SIZE
    ensures TailOk(file, r.next)
    ensures r.Fragment? ==> r.next.at > d.at
  {
    if !IsRecyclableType(file[d.at + 6]) then Body(file, rc, d)
    else if d.firstRead && !d.recycled then Dead(d)
    else
      var e := d.(recycled := true);
      var (ok', f) := Fill(file, e, RECYCLABLE_HEADER_SIZE);
      FillMovesForward(file, e, RECYCLABLE_HEADER_SIZE);
      if f.at != d.at then Torn(f)
      else if !ok' then NoFragment(f)
      else if DecodeFixed32(file[f.at + 7..f.at + 11]) != rc.logNumber then Dead(f)
      else Body(file, rc, f)
  }

  /** The header at the cursor is buffered: wait for the whole frame, check it and consume it. */
  function Body(file: Bytes, rc: ReaderConfig, c: Cursor): (r: Attempt)
    requires TailOk(file, c) && c.end - c.at >= HEADER_SIZE
    requires c.end - c.at >= TypeHeaderSize(file[c.at + 6])
    ensures TailOk(file, r.next)
    ensures r.Fragment? ==> r.next.at > c.at
  {
    var size := TypeHeaderSize(file[c.at + 6]) + (file[c.at + 4] as int + 256 * (file[c.at + 5] as int));
    var (ok, d) := Fill(file, c, size);
    if d.at != c.at then Torn(d)
    else if !ok then NoFragment(d)
    else
      var f := ParseBuffer(rc, file[d.at..d.end]);
      Consumed(file, d, f.used);
      Fragment(f.code, f.fragment, f.drop, d.(at := d.at + f.used))
  }

  lemma Consumed(file: Bytes, c: Cursor, n: nat)
    requires TailOk(file, c) && n <= c.end - c.at
    ensures TailOk(file, c.(at := c.at + n))
  {
  }

  lemma {:induction false} FillMovesForward(file: Bytes, c: Cursor, need: nat)
    requires TailOk(file, c)
    ensures Fill(file, c, need).1.at >= c.at
    decreases |file| - c.end, !c.eof
  {
    if c.end - c.at < need {
      var d := More(file, c);
      if d.end - d.at != c.end - c.at {
        FillMovesForward(file, d, need);
      }
    }
  }

  /** What survives between calls. */
  datatype TailState = TailState(cursor: Cursor, fragments: Bytes, inFragment: bool, reports: seq<Report>)

  const TAIL_START := TailState(START, [], false, [])

  /** The switch in `FragmentBufferedReader::ReadRecord`. `Stop` drops the fragments but leaves
      `inFragment` as it is. */
  function TailSwitch(s: TailState, code: Byte, fragment: Bytes, drop: nat): (Action, seq<Report>) {
    if IsFull(code) then
      (Deliver(fragment),
       if s.inFragment && s.fragments != [] then [Corruption(|s.fragments|, PartialRecordWithoutEnd)] else [])
    else if IsFirst(code) then
      (Go(fragment, true),
       if s.inFragment || s.fragments != [] then [Corruption(|s.fragments|, PartialRecordWithoutEnd)] else [])
    else if IsMiddle(code) then
      if s.inFragment then (Go(s.fragments + fragment, true), [])
      else (Go(s.fragments, false), [Corruption(|fragment|, MissingStart)])
    else if IsLast(code) then
      if s.inFragment then (Deliver(s.fragments + fragment), [])
      else (Go(s.fragments, false), [Corruption(|fragment|, MissingStart)])
    else if IsMetadata(code) then (Unmodelled, [])
    else if code == BAD_HEADER || code == BAD_RECORD || code == EOF_CODE || code == OLD_RECORD then
      if s.inFragment then (Go([], false), [Corruption(|s.fragments|, ErrorInMiddle)])
      else (Go(s.fragments, false), [])
    else if code == BAD_RECORD_CHECKSUM then
      if s.cursor.recycled then (Stop, [])
      else if s.inFragment then
        (Go([], false), [Corruption(drop, ChecksumMismatch), Corruption(|s.fragments|, ErrorInMiddle)])
      else (Go(s.fragments, false), [Corruption(drop, ChecksumMismatch)])
    else
      (Go([], false),
       if code < 128 then [Corruption(|fragment| + (if s.inFragment then |s.fragments| else 0), UnknownType)] else [])
  }

  /** A frame that is refused ends a record begun, with one report; the next turns of the loop add nothing. */
  function GivenUp(s: TailState): TailState {
    if s.inFragment then
      s.(fragments := [], inFragment := false, reports := s.reports + [Corruption(|s.fragments|, ErrorInMiddle)])
    else s
  }

  /** `FragmentBufferedReader::ReadRecord`. */
  function TailOne(file: Bytes, rc: ReaderConfig, s: TailState): (r: (Outcome, TailState))
    requires TailOk(file, s.cursor)
    ensures TailOk(file, r.1.cursor)
    decreases |file| - s.cursor.at
  {
    match TryFragment(file, rc, s.cursor)
    case NoFragment(next) => (NoMore, s.(cursor := next))
    case Dead(next) => (Diverges, GivenUp(s.(cursor := next)))
    case Torn(next) => (Foreign, s.(cursor := next))
    case Fragment(code, fragment, drop, next) =>
      var t := s.(cursor := next);
      var (action, said) := TailSwitch(t, code, fragment, drop);
      var u := t.(reports := t.reports + said);
      match action
      case Deliver(data) =>
        (Record(data), u.(cursor := next.(firstRead := true), fragments := [], inFragment := false))
      case Stop => (NoMore, u.(fragments := []))
      case Unmodelled => (Foreign, u)
      case Go(fragments, inFragment) => TailOne(file, rc, u.(fragments := fragments, inFragment := inFragment))
  }

  /** What the loop does with a fragment: it ends with a record or a stop, or goes on. */
  lemma Turn(file: Bytes, rc: ReaderConfig, s: TailState)
    requires TailOk(file, s.cursor) && TryFragment(file, rc, s.cursor).Fragment?
    ensures var r := TryFragment(file, rc, s.cursor);
            var t := s.(cursor := r.next);
            var (action, said) := TailSwitch(t, r.code, r.fragment, r.drop);
            var u := t.(reports := t.reports + said);
            TailOne(file, rc, s)
            == match action
               case Deliver(data) =>
                 (Record(data), u.(cursor := r.next.(firstRead := true), fragments := [], inFragment := false))
               case Stop => (NoMore, u.(fragments := []))
               case Unmodelled => (Foreign, u)
               case Go(fragments, inFragment) => TailOne(file, rc, u.(fragments := fragments, inFragment := inFragment))
  {
    hide TryFragment, TailSwitch;
  }
}
