/** The append-only record log: one record's bytes, the scan that reads a log back, and what a log cut anywhere
    reads as. The checksum is an arbitrary function. */
module RecordLog {
  import opened Common
  import opened ByteOrder

  const HEADER: nat := 24
  const MAGIC: seq<Byte> := [0x46, 0x58, 0x52, 0x31]
  const FORMAT_VERSION: nat := 1
  const MAX_RECORD_BYTES: nat := 8 * 1024 * 1024
  const MAX_LOG_RECORDS: nat := 1000000
  const MAX_FILE_BYTES: nat := 64 * 1024 * 1024 + 128

  type Record = seq<Byte>

  // ---------------------------------------------------------------- appending

  function HeaderOf(crc: Checksum, record: Record): (bytes: seq<Byte>)
    ensures |bytes| == HEADER
  {
    MAGIC + LittleEndian(FORMAT_VERSION, 4) + LittleEndian(|record|, 8) + LittleEndian(crc(record), 4)
    + LittleEndian(0, 4)
  }

  function Encoding(crc: Checksum, record: Record): (bytes: seq<Byte>)
    ensures |bytes| == HEADER + |record|
  {
    HeaderOf(crc, record) + record
  }

  /** Adds a record at the end of a log; refused when the record is too long. */
  method AppendRecord(crc: Checksum, contents: seq<Byte>, record: Record) returns (r: Status, after: seq<Byte>)
    ensures |record| > MAX_RECORD_BYTES ==> r == Err(BoundsExceeded) && after == contents
    ensures |record| <= MAX_RECORD_BYTES ==> r == SUCCESS && after == contents + Encoding(crc, record)
  {
    if |record| > MAX_RECORD_BYTES { return Err(BoundsExceeded), contents; }
    var header := MAGIC;
    header := header + LittleEndian(FORMAT_VERSION, 4);
    header := header + LittleEndian(|record|, 8);
    header := header + LittleEndian(crc(record), 4);
    header := header + LittleEndian(0, 4);
    if |header| != HEADER { return Err(Internal), contents; }
    after := contents + header;
    after := after + record;
    assert after == contents + Encoding(crc, record);
    return SUCCESS, after;
  }

  /** How one record is written. */
  type Encoder = Record -> seq<Byte>

  function EncoderOf(crc: Checksum): Encoder { (record: Record) => Encoding(crc, record) }

  /** The log holding some records. */
  function Log(encode: Encoder, records: seq<Record>): seq<Byte> {
    if records == [] then [] else encode(records[0]) + Log(encode, records[1..])
  }

  lemma {:induction false} LogGrowsByAppending(encode: Encoder, records: seq<Record>, record: Record)
    ensures Log(encode, records + [record]) == Log(encode, records) + encode(record)
  {
    if records == [] {
      assert [record][1..] == [] && [] + [record] == [record];
    } else {
      assert (records + [record])[1..] == records[1..] + [record];
      LogGrowsByAppending(encode, records[1..], record);
    }
  }

  // ---------------------------------------------------------------- reading

  datatype Front = Whole(record: Record) | Truncated | Damaged

  /** The record at the front of some bytes. */
  function FrontOf(crc: Checksum, bytes: seq<Byte>): (r: Front)
    ensures r.Whole? ==> HEADER + |r.record| <= |bytes|
  {
    if |bytes| < HEADER then Truncated
    else if bytes[..4] != MAGIC then Damaged
    else if Number(bytes[4..8]) != FORMAT_VERSION then Damaged
    else
      var length := Number(bytes[8..16]);
      if length > MAX_RECORD_BYTES then Damaged
      else if HEADER + length > |bytes| then Truncated
      else
        var record := bytes[HEADER..HEADER + length];
        if crc(record) != Number(bytes[16..20]) then Damaged else Whole(record)
  }

  function NoReader(bytes: seq<Byte>): Front { Truncated }

  /** How the record at the front of some bytes is read. */
  type Reader = f: seq<Byte> -> Front | forall b :: f(b).Whole? ==> HEADER + |f(b).record| <= |b| witness NoReader

  function ReaderOf(crc: Checksum): Reader { (bytes: seq<Byte>) => FrontOf(crc, bytes) }

  datatype Report = Report(records: seq<Record>, truncated: bool, damaged: bool, leftover: nat)

  function Prepend(records: seq<Record>, r: Result<Report>): Result<Report> {
    if r.Err? then r else Ok(r.value.(records := records + r.value.records))
  }

  /** What reading some bytes reports after `count` records were already read. */
  function Read(front: Reader, bytes: seq<Byte>, count: nat): Result<Report>
    decreases |bytes|
  {
    if bytes == [] then Ok(Report([], false, false, 0))
    else if count >= MAX_LOG_RECORDS then Err(ResourceExhausted)
    else
      match front(bytes)
      case Truncated => Ok(Report([], true, false, |bytes|))
      case Damaged => Ok(Report([], false, true, |bytes|))
      case Whole(record) => Prepend([record], Read(front, bytes[HEADER + |record|..], count + 1))
  }

  lemma PrependTwice(x: seq<Record>, y: seq<Record>, r: Result<Report>)
    ensures Prepend(x, Prepend(y, r)) == Prepend(x + y, r)
  {
    if r.Ok? { assert x + (y + r.value.records) == (x + y) + r.value.records; }
  }

  lemma PrependNone(r: Result<Report>)
    ensures Prepend([], r) == r
  {
    if r.Ok? { assert [] + r.value.records == r.value.records; }
  }

  /** The scan: one record after the other until the bytes end, are not a record, or are too many. */
  method ScanRecords(front: Reader, contents: seq<Byte>) returns (r: Result<Report>)
    ensures r == Read(front, contents, 0)
  {
    var records: seq<Record>, offset := [], 0;
    ghost var whole := Read(front, contents, 0);
    PrependNone(whole);
    assert contents[0..] == contents;
    while offset < |contents|
      invariant 0 <= offset <= |contents|
      invariant Prepend(records, Read(front, contents[offset..], |records|)) == whole
    {
      if |records| >= MAX_LOG_RECORDS { return Err(ResourceExhausted); }
      var bytes := contents[offset..];
      var first := front(bytes);
      if first.Truncated? {
        assert records + [] == records;
        return Ok(Report(records, true, false, |contents| - offset));
      }
      if first.Damaged? {
        assert records + [] == records;
        return Ok(Report(records, false, true, |contents| - offset));
      }
      var end := offset + HEADER + |first.record|;
      assert bytes[HEADER + |first.record|..] == contents[end..];
      PrependTwice(records, [first.record], Read(front, contents[end..], |records| + 1));
      records := records + [first.record];
      offset := end;
    }
    assert records + [] == records;
    return Ok(Report(records, false, false, 0));
  }

  /** Reads a log file; an absent file is an empty log. */
  method ReadRecords(crc: Checksum, file: Option<seq<Byte>>) returns (r: Result<Report>)
    ensures file.None? ==> r == Ok(Report([], false, false, 0))
    ensures file.Some? && |file.value| > MAX_FILE_BYTES ==> r == Err(BoundsExceeded)
    ensures file.Some? && |file.value| <= MAX_FILE_BYTES ==> r == Read(ReaderOf(crc), file.value, 0)
  {
    if file.None? { return Ok(Report([], false, false, 0)); }
    if |file.value| > MAX_FILE_BYTES { return Err(BoundsExceeded); }
    r := ScanRecords(ReaderOf(crc), file.value);
  }

  // ---------------------------------------------------------------- a log cut anywhere

  predicate Fits(record: Record) { |record| <= MAX_RECORD_BYTES }

  /** A written record is read back whatever follows it, and cut short it reads as truncated. */
  ghost predicate Delimits(front: Reader, encode: Encoder) {
    && (forall r: Record :: |encode(r)| == HEADER + |r|)
    && (forall r: Record, more :: Fits(r) ==> front(encode(r) + more) == Whole(r))
    && (forall r: Record, k :: Fits(r) && 0 <= k < |encode(r)| ==> front(encode(r)[..k]) == Truncated)
  }

  lemma HeaderReadsBack(crc: Checksum, record: Record, bytes: seq<Byte>)
    requires Fits(record) && |bytes| >= HEADER && bytes[..HEADER] == HeaderOf(crc, record)
    ensures bytes[..4] == MAGIC && Number(bytes[4..8]) == FORMAT_VERSION
    ensures Number(bytes[8..16]) == |record| && Number(bytes[16..20]) == crc(record)
  {
    var header := HeaderOf(crc, record);
    assert bytes[..4] == header[..4] == MAGIC;
    assert bytes[4..8] == header[4..8] == LittleEndian(FORMAT_VERSION, 4);
    assert bytes[8..16] == header[8..16] == LittleEndian(|record|, 8);
    assert bytes[16..20] == header[16..20] == LittleEndian(crc(record), 4);
    FourBytes(FORMAT_VERSION);
    EightBytes(|record|);
    FourBytes(crc(record));
  }

  lemma FrontOfWhole(crc: Checksum, record: Record, more: seq<Byte>)
    requires Fits(record)
    ensures FrontOf(crc, Encoding(crc, record) + more) == Whole(record)
  {
    var bytes := Encoding(crc, record) + more;
    assert bytes[..HEADER] == HeaderOf(crc, record);
    HeaderReadsBack(crc, record, bytes);
    assert bytes[HEADER..HEADER + |record|] == record;
  }

  lemma FrontOfCut(crc: Checksum, record: Record, k: nat)
    requires Fits(record) && k < HEADER + |record|
    ensures FrontOf(crc, Encoding(crc, record)[..k]) == Truncated
  {
    var bytes := Encoding(crc, record)[..k];
    if k >= HEADER {
      assert bytes[..HEADER] == HeaderOf(crc, record);
      HeaderReadsBack(crc, record, bytes);
    }
  }

  lemma SameUpToLast(front: seq<Byte>, last: seq<Byte>, other: seq<Byte>)
    requires |last| == |other|
    ensures front + last == front + other <==> last == other
  {
    if front + last == front + other {
      assert (front + last)[|front|..] == last && (front + other)[|front|..] == other;
    }
  }

  lemma HeaderAsRead(crc: Checksum, record: Record, bytes: seq<Byte>)
    requires |bytes| >= HEADER && bytes[..4] == MAGIC && Number(bytes[4..8]) == FORMAT_VERSION
    requires Number(bytes[8..16]) == |record| && Number(bytes[16..20]) == crc(record)
    ensures bytes[..HEADER] == HeaderOf(crc, record) <==> bytes[20..24] == LittleEndian(0, 4)
  {
    LittleEndianOfNumber(bytes[4..8]);
    LittleEndianOfNumber(bytes[8..16]);
    LittleEndianOfNumber(bytes[16..20]);
    HeaderParts(bytes);
    SameUpToLast(MAGIC + LittleEndian(FORMAT_VERSION, 4) + LittleEndian(|record|, 8) + LittleEndian(crc(record), 4),
                 bytes[20..24], LittleEndian(0, 4));
  }

  lemma HeaderParts(bytes: seq<Byte>)
    requires |bytes| >= HEADER
    ensures bytes[..HEADER] == bytes[..4] + bytes[4..8] + bytes[8..16] + bytes[16..20] + bytes[20..24]
  {
  }

  /** Nothing but an encoding is read as a record, up to the four reserved header bytes, which are not checked. */
  lemma WholeIsEncoding(crc: Checksum, bytes: seq<Byte>)
    requires FrontOf(crc, bytes).Whole?
    ensures var record := FrontOf(crc, bytes).record;
            && Fits(record)
            && (bytes[..HEADER + |record|] == Encoding(crc, record) <==> bytes[20..24] == LittleEndian(0, 4))
  {
    var record := FrontOf(crc, bytes).record;
    HeaderAsRead(crc, record, bytes);
    assert bytes[..HEADER + |record|] == bytes[..HEADER] + record;
    assert bytes[..HEADER + |record|][..HEADER] == bytes[..HEADER];
    assert Encoding(crc, record)[..HEADER] == HeaderOf(crc, record);
  }

  lemma FormatDelimits(crc: Checksum)
    ensures Delimits(ReaderOf(crc), EncoderOf(crc))
  {
    forall r: Record, more | Fits(r) ensures FrontOf(crc, Encoding(crc, r) + more) == Whole(r) {
      FrontOfWhole(crc, r, more);
    }
    forall r: Record, k | Fits(r) && 0 <= k < HEADER + |r| ensures FrontOf(crc, Encoding(crc, r)[..k]) == Truncated {
      FrontOfCut(crc, r, k);
    }
  }

  /** Where the n-th record ends. */
  function EndOf(encode: Encoder, records: seq<Record>, n: nat): nat
    requires n <= |records|
  {
    |Log(encode, records[..n])|
  }

  /** How many records end at or before position k. */
  function EndedBy(records: seq<Record>, k: nat): (n: nat)
    ensures n <= |records|
  {
    if records == [] || k < HEADER + |records[0]| then 0
    else 1 + EndedBy(records[1..], k - HEADER - |records[0]|)
  }

  /** How far position k is past the last record that ends at or before it. */
  function Past(records: seq<Record>, k: nat): nat {
    if records == [] || k < HEADER + |records[0]| then k else Past(records[1..], k - HEADER - |records[0]|)
  }

  ghost predicate KnownLengths(encode: Encoder) { forall r: Record :: |encode(r)| == HEADER + |r| }

  lemma EndOfNext(encode: Encoder, records: seq<Record>, n: nat)
    requires KnownLengths(encode) && n < |records|
    ensures EndOf(encode, records, n + 1) == HEADER + |records[0]| + EndOf(encode, records[1..], n)
  {
    assert records[..n + 1][0] == records[0] && records[..n + 1][1..] == records[1..][..n];
  }

  /** `EndedBy` is what it says: exactly the first that many records end at or before k. */
  lemma {:induction false} EndedByExactly(encode: Encoder, records: seq<Record>, k: nat, n: nat)
    requires KnownLengths(encode) && n <= |records|
    ensures EndOf(encode, records, n) <= k <==> n <= EndedBy(records, k)
    decreases |records|
  {
    assert records[..0] == [];
    if n > 0 {
      EndOfNext(encode, records, n - 1);
      if k >= HEADER + |records[0]| { EndedByExactly(encode, records[1..], k - HEADER - |records[0]|, n - 1); }
    }
  }

  lemma {:induction false} PastExactly(encode: Encoder, records: seq<Record>, k: nat)
    requires KnownLengths(encode)
    ensures EndOf(encode, records, EndedBy(records, k)) + Past(records, k) == k
  {
    assert records[..0] == [];
    if records != [] && k >= HEADER + |records[0]| {
      PastExactly(encode, records[1..], k - HEADER - |records[0]|);
      EndOfNext(encode, records, EndedBy(records, k) - 1);
    }
  }

  ghost predicate IsBoundary(encode: Encoder, records: seq<Record>, k: nat) {
    exists n :: 0 <= n <= |records| && EndOf(encode, records, n) == k
  }

  lemma BoundaryExactly(encode: Encoder, records: seq<Record>, k: nat)
    requires KnownLengths(encode)
    ensures IsBoundary(encode, records, k) <==> EndOf(encode, records, EndedBy(records, k)) == k
  {
    if n :| 0 <= n <= |records| && EndOf(encode, records, n) == k {
      EndedByExactly(encode, records, k, n);
      if n < EndedBy(records, k) {
        EndedByExactly(encode, records, k, n + 1);
        EndsIncrease(encode, records, n);
      }
    }
  }

  lemma EndsIncrease(encode: Encoder, records: seq<Record>, n: nat)
    requires KnownLengths(encode) && n < |records|
    ensures EndOf(encode, records, n + 1) == EndOf(encode, records, n) + HEADER + |records[n]|
  {
    assert records[..n + 1] == records[..n] + [records[n]];
    LogGrowsByAppending(encode, records[..n], records[n]);
  }

  predicate WithinLimits(records: seq<Record>) { forall i :: 0 <= i < |records| ==> Fits(records[i]) }

  /** What reading the first k bytes of a log reports, by what precedes k. */
  function CutReport(records: seq<Record>, k: nat): Report {
    Report(records[..EndedBy(records, k)], Past(records, k) != 0, false, Past(records, k))
  }

  lemma CutReportPastFirst(records: seq<Record>, k: nat)
    requires records != [] && HEADER + |records[0]| <= k
    ensures Prepend([records[0]], Ok(CutReport(records[1..], k - HEADER - |records[0]|))) == Ok(CutReport(records, k))
  {
    var n := EndedBy(records[1..], k - HEADER - |records[0]|);
    assert [records[0]] + records[1..][..n] == records[..n + 1];
  }

  lemma {:induction false} ReadCut(front: Reader, encode: Encoder, records: seq<Record>, k: nat, count: nat)
    requires Delimits(front, encode)
    requires WithinLimits(records) && count + |records| <= MAX_LOG_RECORDS && k <= |Log(encode, records)|
    ensures Read(front, Log(encode, records)[..k], count) == Ok(CutReport(records, k))
    decreases |records|
  {
    if records != [] {
      var first, rest := encode(records[0]), records[1..];
      var bytes := Log(encode, records)[..k];
      if k < |first| {
        assert bytes == first[..k];
        assert records[..0] == [];
      } else {
        var more := Log(encode, rest)[..k - |first|];
        assert bytes == first + more;
        assert bytes[|first|..] == more;
        ReadCut(front, encode, rest, k - |first|, count + 1);
        CutReportPastFirst(records, k);
      }
    }
  }

  /** Reading the first k bytes of a log returns exactly the records that end at or before k, is truncated exactly
      when k is not a record boundary, reports the bytes past the last whole record, and never finds damage. */
  lemma CutLogReadsExactly(crc: Checksum, records: seq<Record>, k: nat)
    requires WithinLimits(records) && |records| <= MAX_LOG_RECORDS && k <= |Log(EncoderOf(crc), records)|
    ensures EndOf(EncoderOf(crc), records, EndedBy(records, k)) <= k
    ensures Read(ReaderOf(crc), Log(EncoderOf(crc), records)[..k], 0)
         == Ok(Report(records[..EndedBy(records, k)], !IsBoundary(EncoderOf(crc), records, k), false,
                      k - EndOf(EncoderOf(crc), records, EndedBy(records, k))))
  {
    var encode := EncoderOf(crc);
    FormatDelimits(crc);
    ReadCut(ReaderOf(crc), encode, records, k, 0);
    PastExactly(encode, records, k);
    BoundaryExactly(encode, records, k);
  }

  lemma ReadWhole(front: Reader, encode: Encoder, records: seq<Record>, log: seq<Byte>)
    requires Delimits(front, encode) && log == Log(encode, records)
    requires WithinLimits(records) && |records| <= MAX_LOG_RECORDS
    ensures Read(front, log, 0) == Ok(Report(records, false, false, 0))
  {
    assert records[..|records|] == records && log[..|log|] == log;
    EndedByExactly(encode, records, |log|, |records|);
    PastExactly(encode, records, |log|);
    ReadCut(front, encode, records, |log|, 0);
  }

  /** In particular a log reads back as the records appended to it. */
  lemma WholeLogReadsBack(crc: Checksum, records: seq<Record>)
    requires WithinLimits(records) && |records| <= MAX_LOG_RECORDS
    ensures Read(ReaderOf(crc), Log(EncoderOf(crc), records), 0) == Ok(Report(records, false, false, 0))
  {
    FormatDelimits(crc);
    ReadWhole(ReaderOf(crc), EncoderOf(crc), records, Log(EncoderOf(crc), records));
  }

  lemma {:induction false} ReadTooMany(front: Reader, encode: Encoder, records: seq<Record>, count: nat)
    requires Delimits(front, encode) && WithinLimits(records)
    requires count <= MAX_LOG_RECORDS < count + |records|
    ensures Read(front, Log(encode, records), count) == Err(ResourceExhausted)
    decreases |records|
  {
    var first, rest := encode(records[0]), records[1..];
    var bytes := Log(encode, records);
    assert bytes == first + Log(encode, rest) && bytes[|first|..] == Log(encode, rest);
    if count < MAX_LOG_RECORDS { ReadTooMany(front, encode, rest, count + 1); }
  }

  /** A log with more records than the reader permits is refused as a whole. */
  lemma LongLogIsRefused(crc: Checksum, records: seq<Record>)
    requires WithinLimits(records) && |records| > MAX_LOG_RECORDS
    ensures Read(ReaderOf(crc), Log(EncoderOf(crc), records), 0) == Err(ResourceExhausted)
  {
    FormatDelimits(crc);
    ReadTooMany(ReaderOf(crc), EncoderOf(crc), records, 0);
  }

  // ---------------------------------------------------------------- damage

  /** A whole header that no record was written with, or a whole record whose checksum is not its own. */
  predicate Broken(crc: Checksum, bytes: seq<Byte>) {
    && |bytes| >= HEADER
    && var length := Number(bytes[8..16]);
    || bytes[..4] != MAGIC || bytes[4..8] != LittleEndian(FORMAT_VERSION, 4) || length > MAX_RECORD_BYTES
    || (HEADER + length <= |bytes| && LittleEndian(crc(bytes[HEADER..HEADER + length]), 4) != bytes[16..20])
  }

  /** Exactly such bytes are read as damaged; anything else that is not a whole record is read as truncated. */
  lemma DamagedExactly(crc: Checksum, bytes: seq<Byte>)
    ensures FrontOf(crc, bytes).Damaged? <==> Broken(crc, bytes)
    ensures FrontOf(crc, bytes).Truncated? <==>
            !Broken(crc, bytes) && (|bytes| < HEADER || |bytes| < HEADER + Number(bytes[8..16]))
  {
    if |bytes| >= HEADER {
      SameNumber(FORMAT_VERSION, bytes[4..8]);
      var length := Number(bytes[8..16]);
      if HEADER + length <= |bytes| { SameNumber(crc(bytes[HEADER..HEADER + length]), bytes[16..20]); }
    }
  }

  lemma ReadFirst(front: Reader, encode: Encoder, record: Record, left: seq<Byte>, count: nat)
    requires Delimits(front, encode) && Fits(record) && count < MAX_LOG_RECORDS
    ensures Read(front, encode(record) + left, count) == Prepend([record], Read(front, left, count + 1))
  {
    var bytes := encode(record) + left;
    assert front(bytes) == Whole(record);
    assert bytes[HEADER + |record|..] == left;
  }

  lemma {:induction false} ReadPast(front: Reader, encode: Encoder, records: seq<Record>, more: seq<Byte>, count: nat)
    requires Delimits(front, encode) && WithinLimits(records) && count + |records| <= MAX_LOG_RECORDS
    ensures Read(front, Log(encode, records) + more, count) == Prepend(records, Read(front, more, count + |records|))
    decreases |records|
  {
    if records == [] {
      assert Log(encode, records) + more == more;
      PrependNone(Read(front, more, count));
    } else {
      var left := Log(encode, records[1..]) + more;
      assert Log(encode, records) + more == encode(records[0]) + left;
      ReadFirst(front, encode, records[0], left, count);
      ReadPast(front, encode, records[1..], more, count + 1);
      PrependFirst(records, Read(front, more, count + |records|));
    }
  }

  lemma PrependFirst(records: seq<Record>, r: Result<Report>)
    requires records != []
    ensures Prepend([records[0]], Prepend(records[1..], r)) == Prepend(records, r)
  {
    if r.Ok? { assert [records[0]] + (records[1..] + r.value.records) == records + r.value.records; }
  }

  /** A log with something broken after some whole records reports those records, the damage and everything from there
      on as left over, and not a truncation. */
  lemma DamagedLogReadsExactly(crc: Checksum, records: seq<Record>, bytes: seq<Byte>)
    requires WithinLimits(records) && |records| < MAX_LOG_RECORDS && Broken(crc, bytes)
    ensures Read(ReaderOf(crc), Log(EncoderOf(crc), records) + bytes, 0) == Ok(Report(records, false, true, |bytes|))
  {
    FormatDelimits(crc);
    ReadPast(ReaderOf(crc), EncoderOf(crc), records, bytes, 0);
    DamagedExactly(crc, bytes);
    assert records + [] == records;
  }

  /** A written record is broken once its magic or version is altered, or its payload or stored checksum so that they
      do not match any more; whatever follows it. */
  lemma AlteredRecordIsBroken(crc: Checksum, record: Record, bytes: seq<Byte>, more: seq<Byte>)
    requires Fits(record) && |bytes| == HEADER + |record|
    requires || bytes[..4] != MAGIC || bytes[4..8] != LittleEndian(FORMAT_VERSION, 4)
             || (bytes[..16] == HeaderOf(crc, record)[..16] && LittleEndian(crc(bytes[HEADER..]), 4) != bytes[16..20])
    ensures Broken(crc, bytes + more)
  {
    var all := bytes + more;
    assert all[..4] == bytes[..4] && all[4..8] == bytes[4..8] && all[16..20] == bytes[16..20];
    if bytes[..16] == HeaderOf(crc, record)[..16] {
      assert all[8..16] == bytes[..16][8..16] == HeaderOf(crc, record)[..16][8..16] == LittleEndian(|record|, 8);
      EightBytes(|record|);
      assert all[HEADER..HEADER + |record|] == bytes[HEADER..];
    }
  }
}
