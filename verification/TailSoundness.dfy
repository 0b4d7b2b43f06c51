/** What a tailing reader can return from arbitrary bytes that become visible in any way: records assembled
    from intact frames that follow each other without a gap. In a log that was not recycled nothing else;
    in a recycled one also the end of a record whose beginning the reader dropped. */
module TailSoundness {
  import opened LogFormat
  import opened LogParse
  import opened LogSoundness
  import opened TailParse
  import TailRecovery

  // ----- one fragment -----

  /** Filling the buffer moves the reader over a trailer only. */
  lemma {:induction false} FillPlace(file: Bytes, c: Cursor, need: nat)
    requires TailOk(file, c) && need <= BLOCK_SIZE
    ensures var d := Fill(file, c, need).1;
            && (d.at == c.at || (d.at == c.at - c.at % BLOCK_SIZE + BLOCK_SIZE <= |file| && d.at - c.at < need))
            && (c.at % BLOCK_SIZE == 0 ==> d.at == c.at)
    decreases |file| - c.end, !c.eof
  {
    if c.end - c.at < need {
      var d := More(file, c);
      if !c.eof {
        TrailerEnds(file, c, need);
      }
      if d.end - d.at != c.end - c.at {
        FillPlace(file, d, need);
      }
    }
  }

  lemma TrailerEnds(file: Bytes, c: Cursor, need: nat)
    requires TailOk(file, c) && !c.eof && c.end - c.at < need <= BLOCK_SIZE
    ensures c.end % BLOCK_SIZE == 0 && (c.at % BLOCK_SIZE == 0 ==> c.end == c.at)
    ensures c.end == c.at || c.end == c.at - c.at % BLOCK_SIZE + BLOCK_SIZE
  {
  }

  lemma BodyIsGenuine(file: Bytes, rc: ReaderConfig, c: Cursor) returns (p: Piece)
    requires TailOk(file, c) && c.end - c.at >= HEADER_SIZE && c.end - c.at >= TypeHeaderSize(file[c.at + 6])
    requires var r := Body(file, rc, c); r.Fragment? && IsData(r.code)
    ensures var r := Body(file, rc, c);
            && p.Genuine(file, rc) && p.t == r.code && p.Payload(file) == r.fragment
            && p.at == c.at && p.End() == r.next.at
  {
    hide Fill, ParseBuffer, IsData, Piece.Genuine, TypeHeaderSize;
    var size := TypeHeaderSize(file[c.at + 6]) + (file[c.at + 4] as int + 256 * (file[c.at + 5] as int));
    var (ok, d) := Fill(file, c, size);
    assert d.end - d.at >= size >= TypeHeaderSize(file[c.at + 6]);
    SizeOfHeader(file[c.at + 6]);
    p := BufferIsGenuine(file, rc, d.at, d.end);
  }

  lemma SizeOfHeader(t: Byte)
    ensures TypeHeaderSize(t) >= HEADER_SIZE
  {
  }

  /** A fragment taken is an intact frame, the next from the reader's place on. */
  lemma TryIsGenuine(file: Bytes, rc: ReaderConfig, c: Cursor) returns (p: Piece)
    requires TailOk(file, c)
    requires var r := TryFragment(file, rc, c); r.Fragment? && IsData(r.code)
    ensures var r := TryFragment(file, rc, c);
            && p.Genuine(file, rc) && p.t == r.code && p.Payload(file) == r.fragment && p.End() == r.next.at
            && c.at <= p.at && Adjacent(file, c.at, p.at) && (c.at % BLOCK_SIZE == 0 ==> p.at == c.at)
  {
    hide Fill, Body, IsData, Piece.Genuine, IsRecyclableType, DecodeFixed32;
    FillPlace(file, c, HEADER_SIZE);
    FillMovesForward(file, c, HEADER_SIZE);
    var d := Fill(file, c, HEADER_SIZE).1;
    if !IsRecyclableType(file[d.at + 6]) {
      p := BodyIsGenuine(file, rc, d);
    } else {
      p := BodyIsGenuine(file, rc, Fill(file, d.(recycled := true), RECYCLABLE_HEADER_SIZE).1);
    }
  }

  lemma WaitsNearby(file: Bytes, rc: ReaderConfig, c: Cursor)
    requires TailOk(file, c) && TryFragment(file, rc, c).NoFragment?
    ensures var next := TryFragment(file, rc, c).next;
            c.at <= next.at && Adjacent(file, c.at, next.at) && (c.at % BLOCK_SIZE == 0 ==> next.at == c.at)
  {
    hide Fill, ParseBuffer, IsRecyclableType, TailOk, DecodeFixed32;
    FillPlace(file, c, HEADER_SIZE);
    FillMovesForward(file, c, HEADER_SIZE);
  }

  lemma TryKeepsFlag(file: Bytes, rc: ReaderConfig, c: Cursor)
    requires TailOk(file, c)
    ensures c.recycled ==> TryFragment(file, rc, c).next.recycled
    ensures TryFragment(file, rc, c).Fragment? ==> TryFragment(file, rc, c).next.at > c.at
  {
    hide Fill, ParseBuffer, IsRecyclableType, DecodeFixed32;
  }

  // ----- a longer file -----

  lemma GenuineLonger(full: Bytes, n: nat, rc: ReaderConfig, p: Piece)
    requires n <= |full| && p.Genuine(full[..n], rc)
    ensures p.Genuine(full, rc) && p.Payload(full) == p.Payload(full[..n])
  {
    var file := full[..n];
    Within(full, n, p.at, p.at + 4);
    Within(full, n, p.at + 6, p.End());
    Within(full, n, p.at + TypeHeaderSize(p.t), p.End());
    if IsRecyclableType(p.t) {
      Within(full, n, p.at + 7, p.at + 11);
    }
  }

  lemma Within(full: Bytes, n: nat, a: nat, b: nat)
    requires a <= b <= n <= |full|
    ensures full[..n][a..b] == full[a..b]
  {
  }

  lemma AdjacentLonger(full: Bytes, n: nat, x: nat, y: nat)
    requires n <= |full| && Adjacent(full[..n], x, y)
    ensures Adjacent(full, x, y)
  {
  }

  // ----- one call -----

  /** Fragments of a record without its beginning, or none. */
  ghost predicate Torso(file: Bytes, rc: ReaderConfig, pieces: seq<Piece>, data: Bytes) {
    && AllGenuine(file, rc, pieces) && data == Joined(file, rc, pieces) && Contiguous(file, pieces)
    && forall i :: 0 <= i < |pieces| ==> IsMiddle(pieces[i].t)
  }

  /** The end of a record without its beginning. */
  ghost predicate Headless(file: Bytes, rc: ReaderConfig, pieces: seq<Piece>, data: Bytes) {
    && pieces != [] && AllGenuine(file, rc, pieces) && data == Joined(file, rc, pieces) && Contiguous(file, pieces)
    && IsLast(pieces[|pieces| - 1].t) && forall i :: 0 <= i < |pieces| - 1 ==> IsMiddle(pieces[i].t)
  }

  /** A whole record; in a recycled log perhaps only its end. */
  ghost predicate Good(file: Bytes, rc: ReaderConfig, pieces: seq<Piece>, data: Bytes, recycled: bool) {
    Assembled(file, rc, pieces, data) || (recycled && Headless(file, rc, pieces, data))
  }

  /** The fragments kept are those of a record begun; in a recycled log perhaps without its beginning. */
  ghost predicate Keeps(file: Bytes, rc: ReaderConfig, s: TailState, pieces: seq<Piece>, from: nat) {
    s.inFragment ==>
      && (Begun(file, rc, pieces, s.fragments) || (s.cursor.recycled && Torso(file, rc, pieces, s.fragments)))
      && Between(pieces, from, s.cursor.at) && Reaches(file, pieces, s.cursor.at)
  }

  lemma KeepsMiddle(file: Bytes, rc: ReaderConfig, s: TailState, pieces: seq<Piece>, from: nat, p: Piece, next: Cursor)
    requires s.inFragment && Keeps(file, rc, s, pieces, from) && from <= s.cursor.at <= p.at
    requires p.Genuine(file, rc) && IsMiddle(p.t) && Reaches(file, pieces, p.at) && next.at == p.End()
    requires s.cursor.recycled ==> next.recycled
    ensures Keeps(file, rc, s.(cursor := next, fragments := s.fragments + p.Payload(file)), pieces + [p], from)
  {
    hide Piece.Genuine, Joined, Contiguous, Reaches, Between;
    JoinedMore(file, rc, pieces, p);
    BetweenMore(pieces, from, s.cursor.at, p);
    ContiguousMore(file, pieces, p);
  }

  lemma LastIsGood(file: Bytes, rc: ReaderConfig, s: TailState, pieces: seq<Piece>, from: nat, p: Piece, recycled: bool)
    requires s.inFragment && Keeps(file, rc, s, pieces, from) && from <= s.cursor.at <= p.at
    requires p.Genuine(file, rc) && IsLast(p.t) && Reaches(file, pieces, p.at) && (s.cursor.recycled ==> recycled)
    ensures Good(file, rc, pieces + [p], s.fragments + p.Payload(file), recycled)
    ensures Between(pieces + [p], from, p.End())
  {
    hide Piece.Genuine, Joined, Contiguous, Reaches, Between;
    JoinedMore(file, rc, pieces, p);
    BetweenMore(pieces, from, s.cursor.at, p);
    ContiguousMore(file, pieces, p);
  }

  lemma NothingKept(file: Bytes, rc: ReaderConfig, s: TailState, from: nat)
    requires !s.inFragment || (s.cursor.recycled && s.fragments == [])
    ensures Keeps(file, rc, s, [], from)
  {
  }

  /** One call, with n bytes visible: a record returned is good, and otherwise what is kept is. */
  lemma {:induction false} CallIsSound(full: Bytes, n: nat, rc: ReaderConfig, s: TailState, kept: seq<Piece>, from: nat)
    returns (pieces: seq<Piece>)
    requires n <= |full| && TailOk(full[..n], s.cursor) && from <= s.cursor.at && Keeps(full, rc, s, kept, from)
    ensures var (outcome, t) := TailOne(full[..n], rc, s);
            && (s.cursor.recycled ==> t.cursor.recycled)
            && (outcome.Record? ==>
                  && Good(full, rc, pieces, outcome.data, t.cursor.recycled) && Between(pieces, from, t.cursor.at)
                  && !t.inFragment && s.cursor.at <= t.cursor.at)
            && (!outcome.Record? && outcome != Foreign ==>
                  Keeps(full, rc, t, pieces, from) && s.cursor.at <= t.cursor.at)
    decreases n - s.cursor.at, 2
  {
    hide TryFragment, TailSwitch, TailOk, Keeps, Good, Piece.Genuine, Between, Reaches, Adjacent, IsData;
    var file := full[..n];
    Visible(file, s.cursor);
    TryKeepsFlag(file, rc, s.cursor);
    var r := TryFragment(file, rc, s.cursor);
    match r
    case NoFragment(next) =>
      WaitsNearby(file, rc, s.cursor);
      AdjacentLonger(full, n, s.cursor.at, next.at);
      KeepsWaiting(full, rc, s, kept, from, next);
      pieces := kept;
    case Dead(next) =>
      DeadNearby(file, rc, s.cursor);
      NothingKept(full, rc, TailParse.GivenUp(s.(cursor := next)), from);
      pieces := [];
    case Torn(next) =>
      pieces := [];
    case Fragment(code, fragment, drop, next) =>
      pieces := TakenIsSound(full, n, rc, s, kept, from);
  }

  lemma OtherSwitch(s: TailState, code: Byte, fragment: Bytes, drop: nat)
    requires !IsData(code)
    ensures var action := TailSwitch(s, code, fragment, drop).0;
            && !action.Deliver? && (action.Stop? ==> s.cursor.recycled) && (action.Go? ==> !action.inFragment)
  {
  }

  lemma DataSwitch(s: TailState, code: Byte, fragment: Bytes, drop: nat)
    requires IsData(code)
    ensures var action := TailSwitch(s, code, fragment, drop).0;
            if IsFull(code) then action == Deliver(fragment)
            else if IsFirst(code) then action == Go(fragment, true)
            else if !s.inFragment then action == Go(s.fragments, false)
            else if IsMiddle(code) then action == Go(s.fragments + fragment, true)
            else action == Deliver(s.fragments + fragment)
  {
  }

  lemma {:induction false} TakenIsSound(full: Bytes, n: nat, rc: ReaderConfig, s: TailState, kept: seq<Piece>,
                                        from: nat) returns (pieces: seq<Piece>)
    requires n <= |full| && TailOk(full[..n], s.cursor) && from <= s.cursor.at && Keeps(full, rc, s, kept, from)
    requires TryFragment(full[..n], rc, s.cursor).Fragment?
    ensures var (outcome, t) := TailOne(full[..n], rc, s);
            && (s.cursor.recycled ==> t.cursor.recycled)
            && (outcome.Record? ==>
                  && Good(full, rc, pieces, outcome.data, t.cursor.recycled) && Between(pieces, from, t.cursor.at)
                  && !t.inFragment && s.cursor.at <= t.cursor.at)
            && (!outcome.Record? && outcome != Foreign ==>
                  Keeps(full, rc, t, pieces, from) && s.cursor.at <= t.cursor.at)
    decreases n - s.cursor.at, 1
  {
    hide TailOne, TryFragment, TailSwitch, TailOk, Keeps, Good, Piece.Genuine, Between, Reaches, Adjacent, IsData;
    var file := full[..n];
    Turn(file, rc, s);
    TryKeepsFlag(file, rc, s.cursor);
    var r := TryFragment(file, rc, s.cursor);
    Visible(file, r.next);
    var t := s.(cursor := r.next);
    var (action, said) := TailSwitch(t, r.code, r.fragment, r.drop);
    var u := t.(reports := t.reports + said);
    if !IsData(r.code) {
      OtherSwitch(t, r.code, r.fragment, r.drop);
      if action.Go? {
        var v := u.(fragments := action.scratch, inFragment := action.inFragment);
        NothingKept(full, rc, v, from);
        pieces := CallIsSound(full, n, rc, v, [], from);
      } else {
        if action.Stop? {
          NothingKept(full, rc, u.(fragments := []), from);
        }
        pieces := [];
      }
    } else {
      DataSwitch(t, r.code, r.fragment, r.drop);
      var p := TryIsGenuine(file, rc, s.cursor);
      GenuineLonger(full, n, rc, p);
      AdjacentLonger(full, n, s.cursor.at, p.at);
      pieces := DataIsSound(full, n, rc, s, kept, from, p, said);
    }
  }

  /** The fragment is the intact frame p. */
  lemma {:induction false} DataIsSound(full: Bytes, n: nat, rc: ReaderConfig, s: TailState, kept: seq<Piece>, from: nat,
                                       p: Piece, said: seq<Report>) returns (pieces: seq<Piece>)
    requires n <= |full| && TailOk(full[..n], s.cursor) && from <= s.cursor.at && Keeps(full, rc, s, kept, from)
    requires TryFragment(full[..n], rc, s.cursor).Fragment?
    requires var r := TryFragment(full[..n], rc, s.cursor);
             && r.next.at > s.cursor.at && (s.cursor.recycled ==> r.next.recycled) && TailOk(full[..n], r.next)
             && r.next.at <= n
             && p.Genuine(full, rc) && p.t == r.code && p.Payload(full) == r.fragment && p.End() == r.next.at
             && s.cursor.at <= p.at && Adjacent(full, s.cursor.at, p.at)
             && (s.cursor.at % BLOCK_SIZE == 0 ==> p.at == s.cursor.at) && IsData(p.t)
             && TailSwitch(s.(cursor := r.next), r.code, r.fragment, r.drop).1 == said
    ensures var (outcome, t) := TailOne(full[..n], rc, s);
            && (s.cursor.recycled ==> t.cursor.recycled)
            && (outcome.Record? ==>
                  && Good(full, rc, pieces, outcome.data, t.cursor.recycled) && Between(pieces, from, t.cursor.at)
                  && !t.inFragment && s.cursor.at <= t.cursor.at)
            && (!outcome.Record? && outcome != Foreign ==>
                  Keeps(full, rc, t, pieces, from) && s.cursor.at <= t.cursor.at)
    decreases n - s.cursor.at, 0
  {
    hide TailOne, TryFragment, TailSwitch, TailOk, Keeps, Piece.Genuine, Between, Reaches, Adjacent, IsData, Assembled;
    hide Headless;
    var file := full[..n];
    Turn(file, rc, s);
    var r := TryFragment(file, rc, s.cursor);
    var t := s.(cursor := r.next);
    DataSwitch(t, r.code, r.fragment, r.drop);
    var u := t.(reports := t.reports + said);
    if IsFull(p.t) {
      Single(full, rc, p, from);
      pieces := [p];
    } else if IsFirst(p.t) {
      var v := u.(fragments := r.fragment, inFragment := true);
      KeepsFirst(full, rc, v, from, p);
      pieces := CallIsSound(full, n, rc, v, [p], from);
    } else if !s.inFragment {
      var v := u.(fragments := s.fragments, inFragment := false);
      NothingKept(full, rc, v, from);
      pieces := CallIsSound(full, n, rc, v, [], from);
    } else {
      KeptReaches(full, rc, s, kept, from);
      ReachesOn(full, kept, s.cursor.at, p.at);
      if IsMiddle(p.t) {
        KeepsMiddle(full, rc, s, kept, from, p, r.next);
        var v := u.(fragments := s.fragments + r.fragment, inFragment := true);
        SameKept(full, rc, s.(cursor := r.next, fragments := s.fragments + r.fragment), v, kept + [p], from);
        pieces := CallIsSound(full, n, rc, v, kept + [p], from);
      } else {
        IsLastData(p.t);
        LastIsGood(full, rc, s, kept, from, p, r.next.recycled);
        pieces := kept + [p];
      }
    }
  }

  lemma IsLastData(t: Byte)
    requires IsData(t) && !IsFull(t) && !IsFirst(t) && !IsMiddle(t)
    ensures IsLast(t)
  {
  }

  lemma KeepsFirst(full: Bytes, rc: ReaderConfig, s: TailState, from: nat, p: Piece)
    requires p.Genuine(full, rc) && IsFirst(p.t) && from <= p.at
    requires s.fragments == p.Payload(full) && s.cursor.at == p.End()
    ensures Keeps(full, rc, s, [p], from)
  {
    hide Piece.Genuine, Begun, Between, Reaches;
    FirstOne(full, rc, p, from);
  }

  lemma KeptReaches(full: Bytes, rc: ReaderConfig, s: TailState, kept: seq<Piece>, from: nat)
    requires Keeps(full, rc, s, kept, from) && s.inFragment
    ensures Reaches(full, kept, s.cursor.at)
  {
  }

  lemma SameKept(full: Bytes, rc: ReaderConfig, s: TailState, t: TailState, kept: seq<Piece>, from: nat)
    requires Keeps(full, rc, s, kept, from)
    requires t.cursor == s.cursor && t.fragments == s.fragments && t.inFragment == s.inFragment
    ensures Keeps(full, rc, t, kept, from)
  {
    hide Begun, Torso, Between, Reaches;
  }

  lemma Visible(file: Bytes, c: Cursor)
    requires TailOk(file, c)
    ensures c.at <= c.end <= |file|
  {
  }

  lemma DeadNearby(file: Bytes, rc: ReaderConfig, c: Cursor)
    requires TailOk(file, c) && TryFragment(file, rc, c).Dead?
    ensures c.at <= TryFragment(file, rc, c).next.at
  {
    hide Fill, IsRecyclableType, DecodeFixed32;
    FillMovesForward(file, c, HEADER_SIZE);
  }

  lemma KeepsWaiting(full: Bytes, rc: ReaderConfig, s: TailState, kept: seq<Piece>, from: nat, next: Cursor)
    requires Keeps(full, rc, s, kept, from) && s.cursor.at <= next.at && Adjacent(full, s.cursor.at, next.at)
    requires (s.cursor.at % BLOCK_SIZE == 0 ==> next.at == s.cursor.at) && (s.cursor.recycled ==> next.recycled)
    ensures Keeps(full, rc, s.(cursor := next), kept, from)
  {
    hide Piece.Genuine, Joined, Contiguous, Reaches, Begun, Torso;
    if s.inFragment {
      ReachesOn(full, kept, s.cursor.at, next.at);
    }
  }

  // ----- a run of calls -----

  /** The records delivered before a call ends in a way the model does not cover. */
  function Covered(outcomes: seq<Outcome>): seq<Bytes> {
    if outcomes == [] || outcomes[0] == Foreign then []
    else (if outcomes[0].Record? then [outcomes[0].data] else []) + Covered(outcomes[1..])
  }

  ghost predicate AllGood(full: Bytes, rc: ReaderConfig, records: seq<Bytes>, pieces: seq<seq<Piece>>, from: nat,
                          recycled: bool) {
    && |pieces| == |records|
    && (forall i :: 0 <= i < |records| ==>
          Good(full, rc, pieces[i], records[i], recycled) && Between(pieces[i], from, |full|))
    && (forall i, j :: 0 <= i < j < |pieces| ==> Precedes(pieces[i], pieces[j]))
  }

  lemma GoodLater(full: Bytes, rc: ReaderConfig, pieces: seq<Piece>, data: Bytes, a: bool, b: bool)
    requires Good(full, rc, pieces, data, a) && (a ==> b)
    ensures Good(full, rc, pieces, data, b)
  {
    hide Assembled, Headless;
  }

  lemma Consecutive(full: Bytes, rc: ReaderConfig, first: seq<Piece>, data: Bytes, from: nat, at: nat,
                    records: seq<Bytes>, pieces: seq<seq<Piece>>, recycled: bool)
    requires Good(full, rc, first, data, recycled) && Between(first, from, at) && from <= at <= |full|
    requires AllGood(full, rc, records, pieces, at, recycled)
    ensures AllGood(full, rc, [data] + records, [first] + pieces, from, recycled)
  {
    hide Good;
    forall j | 0 <= j < |pieces| ensures Precedes(first, pieces[j]) && Between(pieces[j], from, |full|) {
      assert Between(pieces[j], at, |full|);
    }
  }

  lemma {:induction false} FollowIsSound(full: Bytes, rc: ReaderConfig, s: TailState, lens: seq<nat>, kept: seq<Piece>,
                                         from: nat) returns (pieces: seq<seq<Piece>>)
    requires TailOk(full, s.cursor) && TailRecovery.Growing(lens, s.cursor.end, |full|)
    requires from <= s.cursor.at && Keeps(full, rc, s, kept, from)
    ensures var (outcomes, t) := TailRecovery.Follow(full, rc, s, lens);
            && AllGood(full, rc, Covered(outcomes), pieces, from, t.cursor.recycled)
            && (s.cursor.recycled ==> t.cursor.recycled)
    decreases |lens|
  {
    hide TailOne, Keeps, Good, Between, AllGood;
    pieces := [];
    if lens == [] {
      NothingDelivered(full, rc, from, s.cursor.recycled);
    } else {
      assert s.cursor.end <= lens[0];
      var n := lens[0];
      var first := CallIsSound(full, n, rc, s, kept, from);
      var (outcome, t) := TailOne(full[..n], rc, s);
      assert forall i :: 0 <= i < |lens[1..]| ==> lens[1..][i] == lens[i + 1];
      var (rest, u) := TailRecovery.Follow(full, rc, t, lens[1..]);
      FlagStays(full, rc, t, lens[1..]);
      assert ([outcome] + rest)[1..] == rest;
      if outcome == Foreign {
        NothingDelivered(full, rc, from, u.cursor.recycled);
      } else if outcome.Record? {
        NothingKept(full, rc, t, t.cursor.at);
        var more := FollowIsSound(full, rc, t, lens[1..], [], t.cursor.at);
        GoodLater(full, rc, first, outcome.data, t.cursor.recycled, u.cursor.recycled);
        Consecutive(full, rc, first, outcome.data, from, t.cursor.at, Covered(rest), more, u.cursor.recycled);
        pieces := [first] + more;
      } else {
        pieces := FollowIsSound(full, rc, t, lens[1..], first, from);
        assert [] + Covered(rest) == Covered(rest);
      }
    }
  }

  lemma NothingDelivered(full: Bytes, rc: ReaderConfig, from: nat, recycled: bool)
    ensures AllGood(full, rc, [], [], from, recycled)
  {
  }

  lemma {:induction false} OneKeepsFlag(file: Bytes, rc: ReaderConfig, s: TailState)
    requires TailOk(file, s.cursor)
    ensures s.cursor.recycled ==> TailOne(file, rc, s).1.cursor.recycled
    decreases |file| - s.cursor.at
  {
    hide TryFragment, TailSwitch, TailOk;
    TryKeepsFlag(file, rc, s.cursor);
    Visible(file, s.cursor);
    var r := TryFragment(file, rc, s.cursor);
    if r.Fragment? {
      Visible(file, r.next);
      var t := s.(cursor := r.next);
      var (action, said) := TailSwitch(t, r.code, r.fragment, r.drop);
      if action.Go? {
        var u := t.(reports := t.reports + said);
        OneKeepsFlag(file, rc, u.(fragments := action.scratch, inFragment := action.inFragment));
      }
    }
  }

  lemma {:induction false} FlagStays(full: Bytes, rc: ReaderConfig, s: TailState, lens: seq<nat>)
    requires TailOk(full, s.cursor) && TailRecovery.Growing(lens, s.cursor.end, |full|)
    ensures s.cursor.recycled ==> TailRecovery.Follow(full, rc, s, lens).1.cursor.recycled
    decreases |lens|
  {
    hide TailOne;
    if lens != [] {
      assert s.cursor.end <= lens[0];
      var t := TailOne(full[..lens[0]], rc, s).1;
      OneKeepsFlag(full[..lens[0]], rc, s);
      assert forall i :: 0 <= i < |lens[1..]| ==> lens[1..][i] == lens[i + 1];
      FlagStays(full, rc, t, lens[1..]);
    }
  }

  /** From any bytes, however they become visible: every record delivered is joined, without a gap, from intact
      frames, and the records come in the order of their frames. Unless the reader has seen a recyclable frame,
      each is a whole record. */
  lemma EveryTailRecordIsGenuine(full: Bytes, rc: ReaderConfig, lens: seq<nat>) returns (pieces: seq<seq<Piece>>)
    requires TailRecovery.Growing(lens, 0, |full|)
    ensures var (outcomes, t) := TailRecovery.Follow(full, rc, TAIL_START, lens);
            && AllGood(full, rc, Covered(outcomes), pieces, 0, t.cursor.recycled)
            && (!t.cursor.recycled ==> AllAssembled(full, rc, Covered(outcomes), pieces, 0))
  {
    hide TailRecovery.Follow, Assembled, Headless, Between;
    NothingKept(full, rc, TAIL_START, 0);
    pieces := FollowIsSound(full, rc, TAIL_START, lens, [], 0);
  }
}
