/** `log::Writer`: appends logical records to a file as block-aligned physical frames.
    Appends are taken to succeed; a crash at any byte is covered by the truncation theorems. */
module LogWriter {
  import opened LogFormat

  /** The members of the record-type enumeration. */
  predicate IsRecordType(t: Byte) {
    || t <= RECYCLABLE_TIMESTAMP_SIZE
    || t == PREDECESSOR_WAL_INFO || t == RECYCLABLE_PREDECESSOR_WAL_INFO
    || (IsNoChecksumType(t) && (IsFull(t) || IsFirst(t) || IsMiddle(t) || IsLast(t)))
  }

  /** Little-endian store of a word into a header buffer. */
  method EncodeFixed32(buf: array<Byte>, at: nat, x: U32)
    requires at + 4 <= buf.Length
    modifies buf
    ensures buf[..at] == old(buf[..at])
    ensures buf[at..at + 4] == Fixed32(x)
    ensures buf[at + 4..] == old(buf[at + 4..])
  {
    buf[at] := x % 256;
    buf[at + 1] := x / 256 % 256;
    buf[at + 2] := x / 65536 % 256;
    buf[at + 3] := x / 16777216;
  }

  class Writer {
    const cfg: LogConfig
    const typeCrc: seq<U32>
    var dest: Bytes
    var blockOffset: nat
    /** The records added so far. */
    ghost var records: seq<Bytes>

    /** Between records, the file is the log of the records added. */
    ghost predicate Valid()
      reads this
    {
      Aligned() && dest == LogBytes(cfg, 0, records)
    }

    ghost predicate Aligned()
      reads this
    {
      && cfg.crc.Lawful()
      && blockOffset <= BLOCK_SIZE
      && blockOffset % BLOCK_SIZE == |dest| % BLOCK_SIZE
      && |typeCrc| == RECYCLABLE_NO_CHECKSUM_LAST as int + 1
      && forall t: Byte :: t < |typeCrc| ==> typeCrc[t] == cfg.crc.value([t])
    }

    constructor (cfg: LogConfig)
      requires cfg.crc.Lawful()
      ensures Valid() && this.cfg == cfg && records == []
    {
      var table: seq<U32> := [];
      for i := 0 to RECYCLABLE_NO_CHECKSUM_LAST as int + 1
        invariant |table| == i
        invariant forall t: Byte :: t < i ==> table[t] == cfg.crc.value([t])
      {
        table := table + [cfg.crc.value([i])];
      }
      this.cfg := cfg;
      typeCrc := table;
      dest := [];
      records := [];
      blockOffset := 0;
    }

    /** Appends one logical record, splitting it over blocks as needed. */
    method AddRecord(data: Bytes)
      requires Valid()
      modifies this
      ensures Valid() && records == old(records) + [data]
    {
      hide RecordBytes, LogBytes;
      LogBytesAppend(cfg, 0, records, data);
      AddFragments(data);
      records := records + [data];
    }

    /** The loop of `AddRecord`. */
    method AddFragments(data: Bytes)
      requires Aligned()
      modifies `dest, `blockOffset
      ensures Aligned()
      ensures dest == old(dest) + RecordBytes(cfg, |old(dest)|, data, true)
    {
      var h := cfg.HeaderSize();
      ghost var goal := dest + RecordBytes(cfg, |dest|, data, true);
      var left := data;
      var begin := true;
      var done := false;
      while !done
        invariant Aligned()
        invariant if done then dest == goal else dest + RecordBytes(cfg, |dest|, left, begin) == goal
        decreases !done, |left|, if Room(h, |dest|) == 0 then 1 else 0
      {
        ghost var start := dest;
        var fragmentLength := AddFragment(left, begin);
        StepOfRecord(cfg, start, left, begin);
        left := left[fragmentLength..];
        begin := false;
        done := |left| == 0;
      }
    }

    /** One pass of the loop in `AddRecord`: pad to a new block if the header does not fit, then
        emit as much of `left` as the block holds. */
    method AddFragment(left: Bytes, begin: bool) returns (fragmentLength: nat)
      requires Aligned()
      modifies `dest, `blockOffset
      ensures Aligned()
      ensures fragmentLength == FragmentLength(cfg.HeaderSize(), |old(dest)|, |left|)
      ensures dest == old(dest) + FirstPiece(cfg, |old(dest)|, left, begin)
    {
      hide FrameHeader, Frame, FrameCrc;
      var h := cfg.HeaderSize();
      ghost var start := dest;
      PaddingFromBlockOffset(h, |start|, blockOffset);
      var leftover := BLOCK_SIZE - blockOffset;
      if leftover < h {
        if leftover > 0 {
          dest := dest + Zeros(leftover);
        }
        blockOffset := 0;
      }
      assert dest == start + Zeros(Pad(h, |start|));
      var avail := BLOCK_SIZE - blockOffset - h;
      fragmentLength := if |left| < avail then |left| else avail;
      var end := |left| == fragmentLength;
      var t := DataType(cfg, begin, end);
      DataTypeIsRecordType(cfg, begin, end);
      EmitPhysicalRecord(t, left[..fragmentLength]);
      Assoc(start, Zeros(Pad(h, |start|)), Frame(cfg.crc, cfg.logNumber, t, left[..fragmentLength]));
    }

    /** Appends header and payload of one fragment. */
    method EmitPhysicalRecord(t: Byte, payload: Bytes)
      requires Aligned() && IsRecordType(t)
      requires |payload| <= 0xffff
      requires blockOffset + TypeHeaderSize(t) + |payload| <= BLOCK_SIZE
      modifies `dest, `blockOffset
      ensures Aligned()
      ensures dest == old(dest) + Frame(cfg.crc, cfg.logNumber, t, payload)
      ensures blockOffset == old(blockOffset) + TypeHeaderSize(t) + |payload|
    {
      hide FrameHeader, FrameCrc, Checksum.Lawful, IsRecordType, TypeHeaderSize;
      SameOffset(blockOffset, |dest|, TypeHeaderSize(t) + |payload|);
      var header := BuildHeader(t, payload);
      ghost var before := dest;
      dest := dest + header;
      dest := dest + payload;
      Assoc(before, header, payload);
      blockOffset := blockOffset + |header| + |payload|;
    }

    /** Fills the header buffer: length, type and, if recyclable, log number; then the checksum word. */
    method BuildHeader(t: Byte, payload: Bytes) returns (header: Bytes)
      requires Aligned() && IsRecordType(t)
      requires |payload| <= 0xffff
      ensures header == FrameHeader(cfg.crc, cfg.logNumber, t, payload)
    {
      hide FrameCrc, Fixed32, LogNumberBytes, Checksum.Lawful, IsRecyclableType, IsRecordType;
      var buf := new Byte[RECYCLABLE_HEADER_SIZE](_ => 0);
      var headerSize := FillBehindChecksum(buf, t, |payload|);
      ghost var all := buf[..];
      HeaderTail(all, headerSize);
      var crc := ComputeCrc(t, buf[7..headerSize], payload);
      EncodeFixed32(buf, 0, crc);
      header := buf[..headerSize];
      assert buf[0 + 4..] == all[4..];
      HeaderParts(buf[..], headerSize);
    }

    method FillBehindChecksum(buf: array<Byte>, t: Byte, length: nat) returns (headerSize: nat)
      requires IsRecordType(t) && length <= 0xffff && buf.Length == RECYCLABLE_HEADER_SIZE
      modifies buf
      ensures headerSize == TypeHeaderSize(t)
      ensures buf[4..7] == [length % 256, length / 256, t]
      ensures buf[7..headerSize] == if IsRecyclableType(t) then LogNumberBytes(cfg.logNumber) else []
    {
      hide Fixed32, LogNumberBytes, IsRecyclableType, IsRecordType;
      buf[4] := length % 256;
      buf[5] := length / 256;
      buf[6] := t;
      headerSize := HEADER_SIZE;
      RecyclableTest(t);
      if !(t < RECYCLABLE_FULL || t == SET_COMPRESSION || t == PREDECESSOR_WAL_INFO
           || t == TIMESTAMP_SIZE || NO_CHECKSUM_FULL <= t <= NO_CHECKSUM_LAST) {
        headerSize := RECYCLABLE_HEADER_SIZE;
        ghost var fixed := buf[..7];
        EncodeFixed32(buf, 7, cfg.logNumber % 0x1_0000_0000);
        LogNumberWord(cfg.logNumber);
        assert buf[4..7] == buf[..7][4..] == fixed[4..];
      }
    }

    /** The checksum word of a fragment, from the per-type table; zero for no-checksum types. */
    method ComputeCrc(t: Byte, logNumberBytes: Bytes, payload: Bytes) returns (crc: U32)
      requires Aligned() && IsRecordType(t)
      requires logNumberBytes == if IsRecyclableType(t) then LogNumberBytes(cfg.logNumber) else []
      ensures crc == FrameCrc(cfg.crc, cfg.logNumber, t, payload)
    {
      if NO_CHECKSUM_FULL <= t <= RECYCLABLE_NO_CHECKSUM_LAST {
        return 0;
      }
      crc := typeCrc[t];
      if |logNumberBytes| > 0 {
        crc := cfg.crc.extend(crc, logNumberBytes);
      }
      crc := cfg.crc.combine(crc, cfg.crc.value(payload), |payload|);
      crc := cfg.crc.mask(crc);
      CombinedCrc(cfg, t, payload);
    }
  }

  /** Extending the type's checksum by the log number and combining it with the payload's is the
      checksum of the concatenation. */
  lemma CombinedCrc(cfg: LogConfig, t: Byte, payload: Bytes)
    requires cfg.crc.Lawful() && !IsNoChecksumType(t)
    ensures var c := cfg.crc;
            var head := if IsRecyclableType(t) then c.extend(c.value([t]), LogNumberBytes(cfg.logNumber))
                        else c.value([t]);
            c.mask(c.combine(head, c.value(payload), |payload|)) == FrameCrc(c, cfg.logNumber, t, payload)
  {
    if !IsRecyclableType(t) {
      assert [t] + [] == [t];
    }
  }

  /** The writer's test for a header without log number. */
  lemma RecyclableTest(t: Byte)
    requires IsRecordType(t)
    ensures !IsRecyclableType(t) <==>
      (t < RECYCLABLE_FULL || t == SET_COMPRESSION || t == PREDECESSOR_WAL_INFO
       || t == TIMESTAMP_SIZE || NO_CHECKSUM_FULL <= t <= NO_CHECKSUM_LAST)
  {
  }

  lemma HeaderTail(b: Bytes, size: nat)
    requires 7 <= size <= |b|
    ensures b[4..][..size - 4] == b[4..7] + b[7..size]
  {
  }

  lemma HeaderParts(b: Bytes, size: nat)
    requires 4 <= size <= |b|
    ensures b[..size] == b[0..0 + 4] + b[0 + 4..][..size - 4]
  {
  }

  lemma LogNumberWord(n: nat)
    ensures Fixed32(n % 0x1_0000_0000) == LogNumberBytes(n)
  {
  }

  lemma SameOffset(a: nat, b: nat, n: nat)
    requires a % BLOCK_SIZE == b % BLOCK_SIZE
    ensures (a + n) % BLOCK_SIZE == (b + n) % BLOCK_SIZE
  {
    assert (a + n) % BLOCK_SIZE == (a % BLOCK_SIZE + n) % BLOCK_SIZE;
    assert (b + n) % BLOCK_SIZE == (b % BLOCK_SIZE + n) % BLOCK_SIZE;
  }

  lemma DataTypeIsRecordType(cfg: LogConfig, begin: bool, end: bool)
    ensures IsRecordType(DataType(cfg, begin, end))
  {
  }

  /** The writer's `leftover` arithmetic on `block_offset_` is padding by absolute offset. */
  lemma PaddingFromBlockOffset(h: nat, p: nat, blockOffset: nat)
    requires 0 < h <= RECYCLABLE_HEADER_SIZE
    requires blockOffset <= BLOCK_SIZE && blockOffset % BLOCK_SIZE == p % BLOCK_SIZE
    ensures Pad(h, p) == if BLOCK_SIZE - blockOffset < h then BLOCK_SIZE - blockOffset else 0
    ensures (p + Pad(h, p)) % BLOCK_SIZE == if BLOCK_SIZE - blockOffset < h then 0 else blockOffset
  {
  }

  /** One iteration of the fragmentation loop. */
  lemma StepOfRecord(cfg: LogConfig, start: Bytes, left: Bytes, begin: bool)
    ensures var h := cfg.HeaderSize();
            var p := |start|;
            var k := FragmentLength(h, p, |left|);
            var here := start + FirstPiece(cfg, p, left, begin);
            && (k == |left| ==> start + RecordBytes(cfg, p, left, begin) == here)
            && (k < |left| ==>
                  && start + RecordBytes(cfg, p, left, begin) == here + RecordBytes(cfg, |here|, left[k..], false)
                  && (k > 0 || (Room(h, p) == 0 && Room(h, |here|) > 0)))
  {
    hide FirstPiece, RecordBytes, FragmentLength, Room, Pad;
    var h := cfg.HeaderSize();
    var p := |start|;
    var k := FragmentLength(h, p, |left|);
    RecordBytesStep(cfg, p, left, begin);
    var piece := FirstPiece(cfg, p, left, begin);
    if k < |left| {
      EmptyFragment(h, p, |left|);
      NonFinalFragmentFillsBlock(h, p, |left|);
      Assoc(start, piece, RecordBytes(cfg, p + |piece|, left[k..], false));
    } else {
      assert piece + [] == piece;
    }
  }

  lemma EmptyFragment(h: nat, p: nat, left: nat)
    requires h <= RECYCLABLE_HEADER_SIZE && FragmentLength(h, p, left) < left
    ensures FragmentLength(h, p, left) == Room(h, p)
  {
  }
}
