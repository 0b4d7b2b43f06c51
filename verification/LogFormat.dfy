/** The on-disk format shared by the log writer and the log readers: record types, physical
    frames (header plus payload), and the fragmentation of one logical record over blocks.

    Everything is a function of the absolute file offset `p`: padding and fragment sizes only
    depend on `p % BLOCK_SIZE`. */
module LogFormat {
  type Byte = b: int | 0 <= b < 256
  type U32 = x: int | 0 <= x < 0x1_0000_0000
  type Bytes = seq<Byte>

  const BLOCK_SIZE := 32768
  const HEADER_SIZE := 7
  const RECYCLABLE_HEADER_SIZE := 11

  const ZERO_TYPE: Byte := 0
  const FULL: Byte := 1
  const FIRST: Byte := 2
  const MIDDLE: Byte := 3
  const LAST: Byte := 4
  const RECYCLABLE_FULL: Byte := 5
  const RECYCLABLE_FIRST: Byte := 6
  const RECYCLABLE_MIDDLE: Byte := 7
  const RECYCLABLE_LAST: Byte := 8
  const SET_COMPRESSION: Byte := 9
  const TIMESTAMP_SIZE: Byte := 10
  const RECYCLABLE_TIMESTAMP_SIZE: Byte := 11
  const PREDECESSOR_WAL_INFO: Byte := 130
  const RECYCLABLE_PREDECESSOR_WAL_INFO: Byte := 131
  const NO_CHECKSUM_FULL: Byte := 140
  const NO_CHECKSUM_FIRST: Byte := 150
  const NO_CHECKSUM_MIDDLE: Byte := 160
  const NO_CHECKSUM_LAST: Byte := 170
  const RECYCLABLE_NO_CHECKSUM_FULL: Byte := 181
  const RECYCLABLE_NO_CHECKSUM_FIRST: Byte := 191
  const RECYCLABLE_NO_CHECKSUM_MIDDLE: Byte := 201
  const RECYCLABLE_NO_CHECKSUM_LAST: Byte := 211

  /** CRC32C is foreign code; the codec relies on nothing but these laws. */
  datatype Checksum = Checksum(
    value: Bytes -> U32,
    extend: (U32, Bytes) -> U32,
    combine: (U32, U32, nat) -> U32,
    mask: U32 -> U32,
    unmask: U32 -> U32)
  {
    ghost predicate Lawful() {
      && (forall a: Bytes, b: Bytes :: extend(value(a), b) == value(a + b))
      && (forall a: Bytes, b: Bytes :: combine(value(a), value(b), |b|) == value(a + b))
      && (forall x: U32 :: unmask(mask(x)) == x)
    }
  }

  /** What a `log::Writer` is constructed with. `logNumber` is 64 bits wide in the source. */
  datatype LogConfig = LogConfig(crc: Checksum, logNumber: nat, recycle: bool, withChecksum: bool)
  {
    function HeaderSize(): (h: nat)
      ensures HEADER_SIZE <= h <= RECYCLABLE_HEADER_SIZE
    {
      if recycle then RECYCLABLE_HEADER_SIZE else HEADER_SIZE
    }
  }

  // ----- little-endian words -----

  function Fixed32(x: U32): (b: Bytes)
    ensures |b| == 4
  {
    [x % 256, x / 256 % 256, x / 65536 % 256, x / 16777216]
  }

  function DecodeFixed32(b: Bytes): U32
    requires |b| == 4
  {
    b[0] as int + 256 * (b[1] as int) + 65536 * (b[2] as int) + 16777216 * (b[3] as int)
  }

  lemma Fixed32RoundTrip(x: U32)
    ensures DecodeFixed32(Fixed32(x)) == x
  {
    var a, b, c := x / 256, x / 65536, x / 16777216;
    assert x == 256 * a + x % 256;
    assert b == a / 256 && a == 256 * b + a % 256;
    assert c == b / 256 && b == 256 * c + b % 256;
  }

  // ----- record types -----

  predicate IsRecyclableType(t: Byte) {
    || RECYCLABLE_FULL <= t <= RECYCLABLE_LAST
    || RECYCLABLE_NO_CHECKSUM_FULL <= t <= RECYCLABLE_NO_CHECKSUM_LAST
    || t == RECYCLABLE_TIMESTAMP_SIZE
    || t == RECYCLABLE_PREDECESSOR_WAL_INFO
  }

  predicate IsNoChecksumType(t: Byte) {
    NO_CHECKSUM_FULL <= t <= RECYCLABLE_NO_CHECKSUM_LAST
  }

  function TypeHeaderSize(t: Byte): (h: nat)
    ensures HEADER_SIZE <= h <= RECYCLABLE_HEADER_SIZE
  {
    if IsRecyclableType(t) then RECYCLABLE_HEADER_SIZE else HEADER_SIZE
  }

  predicate IsFull(t: Byte) {
    t == FULL || t == RECYCLABLE_FULL || t == NO_CHECKSUM_FULL || t == RECYCLABLE_NO_CHECKSUM_FULL
  }

  predicate IsFirst(t: Byte) {
    t == FIRST || t == RECYCLABLE_FIRST || t == NO_CHECKSUM_FIRST || t == RECYCLABLE_NO_CHECKSUM_FIRST
  }

  predicate IsMiddle(t: Byte) {
    t == MIDDLE || t == RECYCLABLE_MIDDLE || t == NO_CHECKSUM_MIDDLE || t == RECYCLABLE_NO_CHECKSUM_MIDDLE
  }

  predicate IsLast(t: Byte) {
    t == LAST || t == RECYCLABLE_LAST || t == NO_CHECKSUM_LAST || t == RECYCLABLE_NO_CHECKSUM_LAST
  }

  /** Metadata records: their decoders are not part of this model. */
  predicate IsMetadata(t: Byte) {
    || t == SET_COMPRESSION
    || t == TIMESTAMP_SIZE || t == RECYCLABLE_TIMESTAMP_SIZE
    || t == PREDECESSOR_WAL_INFO || t == RECYCLABLE_PREDECESSOR_WAL_INFO
  }

  /** The type `AddRecord` gives a fragment, by its position in the logical record. */
  function DataType(cfg: LogConfig, begin: bool, end: bool): (t: Byte)
    ensures IsFull(t) <==> begin && end
    ensures IsFirst(t) <==> begin && !end
    ensures IsLast(t) <==> !begin && end
    ensures IsMiddle(t) <==> !begin && !end
    ensures IsRecyclableType(t) == cfg.recycle
    ensures IsNoChecksumType(t) == !cfg.withChecksum
    ensures TypeHeaderSize(t) == cfg.HeaderSize()
    ensures t != ZERO_TYPE && !IsMetadata(t)
  {
    if !cfg.withChecksum then
      if begin && end then
        if cfg.recycle then RECYCLABLE_NO_CHECKSUM_FULL else NO_CHECKSUM_FULL
      else if begin then
        if cfg.recycle then RECYCLABLE_NO_CHECKSUM_FIRST else NO_CHECKSUM_FIRST
      else if end then
        if cfg.recycle then RECYCLABLE_NO_CHECKSUM_LAST else NO_CHECKSUM_LAST
      else
        if cfg.recycle then RECYCLABLE_NO_CHECKSUM_MIDDLE else NO_CHECKSUM_MIDDLE
    else
      if begin && end then
        if cfg.recycle then RECYCLABLE_FULL else FULL
      else if begin then
        if cfg.recycle then RECYCLABLE_FIRST else FIRST
      else if end then
        if cfg.recycle then RECYCLABLE_LAST else LAST
      else
        if cfg.recycle then RECYCLABLE_MIDDLE else MIDDLE
  }

  // ----- physical frames -----

  /** Only the low 32 bits of the log number are stored. */
  function LogNumberBytes(logNumber: nat): (b: Bytes)
    ensures |b| == 4
  {
    Fixed32(logNumber % 0x1_0000_0000)
  }

  /** The stored checksum word: over type, log number (if any) and payload; zero without checksum. */
  function FrameCrc(crc: Checksum, logNumber: nat, t: Byte, payload: Bytes): U32 {
    if IsNoChecksumType(t) then 0
    else
      var extra := if IsRecyclableType(t) then LogNumberBytes(logNumber) else [];
      crc.mask(crc.value([t] + extra + payload))
  }

  function FrameHeader(crc: Checksum, logNumber: nat, t: Byte, payload: Bytes): (h: Bytes)
    requires |payload| <= 0xffff
    ensures |h| == TypeHeaderSize(t)
  {
    Fixed32(FrameCrc(crc, logNumber, t, payload))
    + [|payload| % 256, |payload| / 256, t]
    + (if IsRecyclableType(t) then LogNumberBytes(logNumber) else [])
  }

  function Frame(crc: Checksum, logNumber: nat, t: Byte, payload: Bytes): (fr: Bytes)
    requires |payload| <= 0xffff
    ensures |fr| == TypeHeaderSize(t) + |payload|
  {
    FrameHeader(crc, logNumber, t, payload) + payload
  }

  // ----- fragmentation of one record, from absolute offset p -----

  function Zeros(n: nat): (z: Bytes)
    ensures |z| == n
    ensures forall i :: 0 <= i < n ==> z[i] == 0
  {
    seq(n, i => 0)
  }

  /** Bytes of zero padding before a frame can start at or after p. */
  function Pad(h: nat, p: nat): (n: nat)
    requires h <= RECYCLABLE_HEADER_SIZE
    ensures n < h || n == 0
    ensures (p + n) % BLOCK_SIZE + h <= BLOCK_SIZE
  {
    var leftover := BLOCK_SIZE - p % BLOCK_SIZE;
    if leftover < h then leftover else 0
  }

  /** Payload room left in the block once the header is placed. */
  function Room(h: nat, p: nat): nat
    requires h <= RECYCLABLE_HEADER_SIZE
  {
    BLOCK_SIZE - (p + Pad(h, p)) % BLOCK_SIZE - h
  }

  function FragmentLength(h: nat, p: nat, left: nat): (k: nat)
    requires h <= RECYCLABLE_HEADER_SIZE
    ensures k <= left && k <= BLOCK_SIZE - h
    ensures (p + Pad(h, p)) % BLOCK_SIZE + h + k <= BLOCK_SIZE
    ensures k < left ==> (p + Pad(h, p)) % BLOCK_SIZE + h + k == BLOCK_SIZE
  {
    if left < Room(h, p) then left else Room(h, p)
  }

  /** Offset after the first fragment of a record with `left` bytes to go. */
  function AfterFragment(h: nat, p: nat, left: nat): nat
    requires h <= RECYCLABLE_HEADER_SIZE
  {
    p + Pad(h, p) + h + FragmentLength(h, p, left)
  }

  /** A non-final fragment ends exactly at a block boundary. */
  lemma NonFinalFragmentFillsBlock(h: nat, p: nat, left: nat)
    requires HEADER_SIZE <= h <= RECYCLABLE_HEADER_SIZE
    requires FragmentLength(h, p, left) < left
    ensures AfterFragment(h, p, left) % BLOCK_SIZE == 0
    ensures Pad(h, AfterFragment(h, p, left)) == 0
    ensures Room(h, AfterFragment(h, p, left)) > 0
  {
    var s := p + Pad(h, p);
    var q := AfterFragment(h, p, left);
    assert q == s - s % BLOCK_SIZE + BLOCK_SIZE;
  }

  /** Padding and first fragment of the rest of a record. */
  function FirstPiece(cfg: LogConfig, p: nat, data: Bytes, begin: bool): (out: Bytes)
    ensures p + |out| == AfterFragment(cfg.HeaderSize(), p, |data|)
    ensures |out| > 0
  {
    var h := cfg.HeaderSize();
    var k := FragmentLength(h, p, |data|);
    Zeros(Pad(h, p)) + Frame(cfg.crc, cfg.logNumber, DataType(cfg, begin, k == |data|), data[..k])
  }

  /** The bytes `AddRecord` appends at offset p for the rest of a record. */
  function RecordBytes(cfg: LogConfig, p: nat, data: Bytes, begin: bool): (out: Bytes)
    ensures |out| >= cfg.HeaderSize()
    decreases |data|, if Room(cfg.HeaderSize(), p) == 0 then 1 else 0
  {
    var h := cfg.HeaderSize();
    var k := FragmentLength(h, p, |data|);
    var here := FirstPiece(cfg, p, data, begin);
    if k == |data| then here
    else
      NonFinalFragmentFillsBlock(h, p, |data|);
      here + RecordBytes(cfg, p + |here|, data[k..], false)
  }

  lemma RecordBytesStep(cfg: LogConfig, p: nat, data: Bytes, begin: bool)
    ensures var k := FragmentLength(cfg.HeaderSize(), p, |data|);
            RecordBytes(cfg, p, data, begin)
            == FirstPiece(cfg, p, data, begin)
               + (if k == |data| then []
                  else RecordBytes(cfg, AfterFragment(cfg.HeaderSize(), p, |data|), data[k..], false))
  {
    hide FirstPiece;
  }

  /** The file a writer produces for a list of records. */
  function LogBytes(cfg: LogConfig, p: nat, records: seq<Bytes>): Bytes
    decreases |records|
  {
    if records == [] then []
    else
      var r := RecordBytes(cfg, p, records[0], true);
      r + LogBytes(cfg, p + |r|, records[1..])
  }

  /** Adding a record appends its bytes and leaves the earlier ones alone. */
  lemma LogBytesAppend(cfg: LogConfig, p: nat, records: seq<Bytes>, data: Bytes)
    ensures LogBytes(cfg, p, records + [data])
         == LogBytes(cfg, p, records) + RecordBytes(cfg, p + |LogBytes(cfg, p, records)|, data, true)
  {
    hide RecordBytes, LogBytes;
    LogBytesConcat(cfg, p, records, [data]);
    LogBytesSingle(cfg, p + |LogBytes(cfg, p, records)|, data);
  }

  lemma LogBytesSingle(cfg: LogConfig, p: nat, data: Bytes)
    ensures LogBytes(cfg, p, [data]) == RecordBytes(cfg, p, data, true)
  {
    var r := RecordBytes(cfg, p, data, true);
    assert [data][1..] == [];
    assert r + [] == r;
  }

  lemma Assoc(a: Bytes, b: Bytes, c: Bytes)
    ensures (a + b) + c == a + (b + c)
  {
  }

  lemma {:induction false} LogBytesConcat(cfg: LogConfig, p: nat, a: seq<Bytes>, b: seq<Bytes>)
    ensures LogBytes(cfg, p, a + b) == LogBytes(cfg, p, a) + LogBytes(cfg, p + |LogBytes(cfg, p, a)|, b)
    decreases |a|
  {
    hide RecordBytes;
    if a == [] {
      assert a + b == b;
    } else {
      var r := RecordBytes(cfg, p, a[0], true);
      assert (a + b)[0] == a[0] && (a + b)[1..] == a[1..] + b;
      LogBytesConcat(cfg, p + |r|, a[1..], b);
      var rest := LogBytes(cfg, p + |r|, a[1..]);
      Assoc(r, rest, LogBytes(cfg, p + |r| + |rest|, b));
    }
  }
}
