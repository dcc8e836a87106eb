/**
 The classic pcap stream both firmwares write: a 24-byte File Header followed by Packet Records
 (sections 4 and 5 of draft-ietf-opsawg-pcap), the printers that follow the packed C structs, and a
 reference reader written from the format alone.
 */
module Pcap {
  import opened Bytes
  import opened Sequences

  const FILE_HEADER_SIZE := 24
  const RECORD_HEADER_SIZE := 16
  const MAGIC: uint32 := 0xa1b2c3d4

  datatype FileHeader = FileHeader(
    magic: uint32, versionMajor: uint16, versionMinor: uint16,
    thiszone: uint32, sigfigs: uint32, snaplen: uint32, network: uint32)

  /** A packet record; the length field incl_len is the length of data. */
  datatype Record = Record(tsSec: uint32, tsUsec: uint32, origLen: uint32, data: seq<byte>)

  /** incl_len is a 32-bit field. */
  predicate Encodable(r: Record) {
    |r.data| < 0x1_0000_0000
  }

  predicate AllEncodable(rs: seq<Record>) {
    forall i :: 0 <= i < |rs| ==> Encodable(rs[i])
  }

  // ---- Printers ----

  function EncodeFileHeader(h: FileHeader): (bs: seq<byte>)
    ensures |bs| == FILE_HEADER_SIZE
  {
    Le32(h.magic) + Le16(h.versionMajor) + Le16(h.versionMinor)
    + Le32(h.thiszone) + Le32(h.sigfigs) + Le32(h.snaplen) + Le32(h.network)
  }

  function EncodeRecordHeader(tsSec: uint32, tsUsec: uint32, inclLen: uint32, origLen: uint32): (bs: seq<byte>)
    ensures |bs| == RECORD_HEADER_SIZE
  {
    Le32(tsSec) + Le32(tsUsec) + Le32(inclLen) + Le32(origLen)
  }

  function EncodeRecord(r: Record): (bs: seq<byte>)
    requires Encodable(r)
    ensures |bs| == RECORD_HEADER_SIZE + |r.data|
  {
    EncodeRecordHeader(r.tsSec, r.tsUsec, |r.data|, r.origLen) + r.data
  }

  function EncodeRecords(rs: seq<Record>): seq<byte>
    requires AllEncodable(rs)
  {
    if rs == [] then [] else EncodeRecord(rs[0]) + EncodeRecords(rs[1..])
  }

  function EncodeFile(h: FileHeader, rs: seq<Record>): seq<byte>
    requires AllEncodable(rs)
  {
    EncodeFileHeader(h) + EncodeRecords(rs)
  }

  // ---- The reference reader ----

  function ReadFileHeader(bs: seq<byte>): FileHeader
    requires |bs| >= FILE_HEADER_SIZE
  {
    FileHeader(ReadLe32(bs, 0), ReadLe16(bs, 4), ReadLe16(bs, 6),
               ReadLe32(bs, 8), ReadLe32(bs, 12), ReadLe32(bs, 16), ReadLe32(bs, 20))
  }

  /** A whole record stands at the front of bs. */
  predicate HasRecord(bs: seq<byte>) {
    |bs| >= RECORD_HEADER_SIZE && |bs| >= RECORD_HEADER_SIZE + ReadLe32(bs, 8)
  }

  function FirstRecord(bs: seq<byte>): Record
    requires HasRecord(bs)
  {
    Record(ReadLe32(bs, 0), ReadLe32(bs, 4), ReadLe32(bs, 12), bs[16..16 + ReadLe32(bs, 8)])
  }

  /** All whole records at the front of bs, in order, and the bytes that follow them. */
  function ReadRecords(bs: seq<byte>): (res: (seq<Record>, seq<byte>))
    ensures AllEncodable(res.0)
    decreases |bs|
  {
    if HasRecord(bs) then
      var (rs, rest) := ReadRecords(bs[16 + ReadLe32(bs, 8)..]);
      ([FirstRecord(bs)] + rs, rest)
    else
      ([], bs)
  }

  datatype Capture = Capture(header: FileHeader, records: seq<Record>, rest: seq<byte>)

  /** None when the stream is shorter than a file header or does not start with the magic number. */
  function ReadFile(bs: seq<byte>): (res: Option<Capture>) {
    if |bs| < FILE_HEADER_SIZE || ReadLe32(bs, 0) != MAGIC then None
    else
      var (rs, rest) := ReadRecords(bs[FILE_HEADER_SIZE..]);
      Some(Capture(ReadFileHeader(bs), rs, rest))
  }

  // ---- Printer and reader undo each other ----

  lemma FileHeaderReadBack(h: FileHeader, tail: seq<byte>)
    ensures ReadFileHeader(EncodeFileHeader(h) + tail) == h
    ensures ReadLe32(EncodeFileHeader(h) + tail, 0) == h.magic
  {
    hide Le32, Le16, ReadLe32, ReadLe16;
    var bs := EncodeFileHeader(h) + tail;
    assert bs[0..4] == Le32(h.magic) && bs[4..6] == Le16(h.versionMajor) && bs[6..8] == Le16(h.versionMinor);
    assert bs[8..12] == Le32(h.thiszone) && bs[12..16] == Le32(h.sigfigs);
    assert bs[16..20] == Le32(h.snaplen) && bs[20..24] == Le32(h.network);
    ReadLe32Found(h.magic, bs, 0);
    ReadLe16Found(h.versionMajor, bs, 4);
    ReadLe16Found(h.versionMinor, bs, 6);
    ReadLe32Found(h.thiszone, bs, 8);
    ReadLe32Found(h.sigfigs, bs, 12);
    ReadLe32Found(h.snaplen, bs, 16);
    ReadLe32Found(h.network, bs, 20);
  }

  lemma FileHeaderPrintBack(bs: seq<byte>)
    requires |bs| >= FILE_HEADER_SIZE
    ensures EncodeFileHeader(ReadFileHeader(bs)) == bs[..FILE_HEADER_SIZE]
  {
    hide Le32, Le16, ReadLe32, ReadLe16;
    Le32OfRead(bs, 0);
    Le16OfRead(bs, 4);
    Le16OfRead(bs, 6);
    Le32OfRead(bs, 8);
    Le32OfRead(bs, 12);
    Le32OfRead(bs, 16);
    Le32OfRead(bs, 20);
    assert bs[..24] == bs[0..4] + bs[4..6] + bs[6..8] + bs[8..12] + bs[12..16] + bs[16..20] + bs[20..24];
  }

  lemma RecordHeaderReadBack(tsSec: uint32, tsUsec: uint32, inclLen: uint32, origLen: uint32, tail: seq<byte>)
    ensures var bs := EncodeRecordHeader(tsSec, tsUsec, inclLen, origLen) + tail;
            ReadLe32(bs, 0) == tsSec && ReadLe32(bs, 4) == tsUsec && ReadLe32(bs, 8) == inclLen && ReadLe32(bs, 12) == origLen
  {
    hide Le32, ReadLe32;
    var bs := EncodeRecordHeader(tsSec, tsUsec, inclLen, origLen) + tail;
    assert bs[0..4] == Le32(tsSec) && bs[4..8] == Le32(tsUsec) && bs[8..12] == Le32(inclLen) && bs[12..16] == Le32(origLen);
    ReadLe32Found(tsSec, bs, 0);
    ReadLe32Found(tsUsec, bs, 4);
    ReadLe32Found(inclLen, bs, 8);
    ReadLe32Found(origLen, bs, 12);
  }

  lemma RecordReadBack(r: Record, tail: seq<byte>)
    requires Encodable(r)
    ensures var bs := EncodeRecord(r) + tail;
            && HasRecord(bs)
            && FirstRecord(bs) == r
            && ReadLe32(bs, 8) == |r.data|
            && bs[16 + |r.data|..] == tail
  {
    var bs := EncodeRecord(r) + tail;
    assert bs == EncodeRecordHeader(r.tsSec, r.tsUsec, |r.data|, r.origLen) + (r.data + tail);
    RecordHeaderReadBack(r.tsSec, r.tsUsec, |r.data|, r.origLen, r.data + tail);
  }

  /** Reading past printed records goes on with whatever follows them. */
  lemma {:induction false} RecordsReadBack(rs: seq<Record>, tail: seq<byte>)
    requires AllEncodable(rs)
    ensures ReadRecords(EncodeRecords(rs) + tail) == (rs + ReadRecords(tail).0, ReadRecords(tail).1)
    decreases |rs|
  {
    hide EncodeRecord;
    hide HasRecord;
    hide FirstRecord;
    hide ReadLe32;
    if rs == [] {
      assert EncodeRecords(rs) + tail == tail;
      assert rs + ReadRecords(tail).0 == ReadRecords(tail).0;
    } else {
      var more := EncodeRecords(rs[1..]) + tail;
      assert EncodeRecords(rs) + tail == EncodeRecord(rs[0]) + more;
      RecordReadBack(rs[0], more);
      RecordsReadBack(rs[1..], tail);
      assert [rs[0]] + (rs[1..] + ReadRecords(tail).0) == rs + ReadRecords(tail).0;
    }
  }

  lemma HasRecordLength(bs: seq<byte>)
    requires HasRecord(bs)
    ensures |bs| >= RECORD_HEADER_SIZE && |bs| >= RECORD_HEADER_SIZE + ReadLe32(bs, 8)
  {
  }

  lemma RecordPrintBack(bs: seq<byte>)
    requires HasRecord(bs)
    ensures EncodeRecord(FirstRecord(bs)) == bs[..16 + ReadLe32(bs, 8)]
  {
    hide Le32, Le16, ReadLe32, ReadLe16;
    Le32OfRead(bs, 0);
    Le32OfRead(bs, 4);
    Le32OfRead(bs, 8);
    Le32OfRead(bs, 12);
    assert bs[..16] == bs[0..4] + bs[4..8] + bs[8..12] + bs[12..16];
  }

  /** Whatever the reader makes of a stream, printing it again gives the stream. */
  lemma {:induction false} RecordsPrintBack(bs: seq<byte>)
    ensures EncodeRecords(ReadRecords(bs).0) + ReadRecords(bs).1 == bs
    ensures !HasRecord(ReadRecords(bs).1)
    decreases |bs|
  {
    hide EncodeRecord, HasRecord, FirstRecord, ReadLe32;
    if HasRecord(bs) {
      assert |bs| >= 16 + ReadLe32(bs, 8) by { HasRecordLength(bs); }
      var n := ReadLe32(bs, 8);
      var (rs, rest) := ReadRecords(bs[16 + n..]);
      RecordsPrintBack(bs[16 + n..]);
      RecordPrintBack(bs);
      assert ([FirstRecord(bs)] + rs)[1..] == rs;
      assert bs == bs[..16 + n] + (EncodeRecords(rs) + rest);
    }
  }

  lemma EmptyHasNoRecord()
    ensures ReadRecords([]) == ([], [])
  {
  }

  /** Decode undoes encode. */
  lemma FileReadBack(h: FileHeader, rs: seq<Record>)
    requires h.magic == MAGIC && AllEncodable(rs)
    ensures ReadFile(EncodeFile(h, rs)) == Some(Capture(h, rs, []))
  {
    hide EncodeFileHeader;
    hide ReadFileHeader;
    hide EncodeRecords;
    hide HasRecord;
    var bs := EncodeFile(h, rs);
    FileHeaderReadBack(h, EncodeRecords(rs));
    EmptyHasNoRecord();
    assert rs + [] == rs;
    RecordsReadBack(rs, []);
    assert bs[FILE_HEADER_SIZE..] == EncodeRecords(rs) + [];
  }

  /** Encode undoes decode: nothing the reader accepts is read ambiguously. */
  lemma FilePrintBack(bs: seq<byte>)
    requires ReadFile(bs).Some?
    ensures var c := ReadFile(bs).value;
            EncodeFile(c.header, c.records) + c.rest == bs && !HasRecord(c.rest)
  {
    hide EncodeFileHeader, ReadFileHeader, EncodeRecords, ReadRecords, HasRecord, ReadLe32;
    FileHeaderPrintBack(bs);
    RecordsPrintBack(bs[FILE_HEADER_SIZE..]);
    assert bs == bs[..FILE_HEADER_SIZE] + bs[FILE_HEADER_SIZE..];
  }

  lemma OneRecordEncoded(r: Record)
    requires Encodable(r)
    ensures EncodeRecords([r]) == EncodeRecord(r)
  {
    assert [r][1..] == [];
  }

  lemma {:induction false} EncodeRecordsConcat(a: seq<Record>, b: seq<Record>)
    requires AllEncodable(a) && AllEncodable(b)
    ensures EncodeRecords(a + b) == EncodeRecords(a) + EncodeRecords(b)
    decreases |a|
  {
    if a == [] {
      assert a + b == b;
    } else {
      assert (a + b)[1..] == a[1..] + b;
      EncodeRecordsConcat(a[1..], b);
    }
  }

  // ---- Robustness to cuts ----

  /** The number of records wholly contained in the first k bytes of the printed records. */
  function WholeRecords(rs: seq<Record>, k: nat): (n: nat)
    requires AllEncodable(rs)
    ensures n <= |rs|
    decreases |rs|
  {
    if rs == [] || k < |EncodeRecord(rs[0])| then 0
    else 1 + WholeRecords(rs[1..], k - |EncodeRecord(rs[0])|)
  }

  /** WholeRecords is the largest count that fits, which is what its name says. */
  lemma {:induction false} WholeRecordsIsLargest(rs: seq<Record>, k: nat, n: nat)
    requires AllEncodable(rs) && n <= |rs|
    ensures n <= WholeRecords(rs, k) <==> |EncodeRecords(rs[..n])| <= k
    decreases |rs|
  {
    if n > 0 {
      assert rs[..n][0] == rs[0] && rs[..n][1..] == rs[1..][..n - 1];
      if |EncodeRecord(rs[0])| <= k {
        WholeRecordsIsLargest(rs[1..], k - |EncodeRecord(rs[0])|, n - 1);
      }
    }
  }

  /** A proper front part of one printed record does not contain a record. */
  lemma CutInsideRecord(r: Record, k: nat)
    requires Encodable(r) && k < |EncodeRecord(r)|
    ensures !HasRecord(EncodeRecord(r)[..k])
  {
    if k >= RECORD_HEADER_SIZE {
      var cut := EncodeRecord(r)[..k];
      assert cut == EncodeRecordHeader(r.tsSec, r.tsUsec, |r.data|, r.origLen) + cut[16..];
      RecordHeaderReadBack(r.tsSec, r.tsUsec, |r.data|, r.origLen, cut[16..]);
    }
  }

  lemma {:induction false} CutRecords(rs: seq<Record>, k: nat)
    requires AllEncodable(rs) && k <= |EncodeRecords(rs)|
    ensures var n := WholeRecords(rs, k);
            && |EncodeRecords(rs[..n])| <= k
            && ReadRecords(EncodeRecords(rs)[..k]).0 == rs[..n]
            && (n == |rs| || k - |EncodeRecords(rs[..n])| < |EncodeRecord(rs[n])|)
    decreases |rs|
  {
    hide EncodeRecord, HasRecord, FirstRecord, ReadLe32;
    var bs := EncodeRecords(rs)[..k];
    if rs == [] {
      EmptyHasNoRecord();
      assert bs == [] && rs[..0] == [];
    } else if k < |EncodeRecord(rs[0])| {
      assert bs == EncodeRecord(rs[0])[..k];
      CutInsideRecord(rs[0], k);
      assert rs[..0] == [];
    } else {
      var m := |EncodeRecord(rs[0])|;
      var tail := EncodeRecords(rs[1..])[..k - m];
      assert bs == EncodeRecord(rs[0]) + tail;
      RecordReadBack(rs[0], tail);
      CutRecords(rs[1..], k - m);
      var n := WholeRecords(rs[1..], k - m);
      assert [rs[0]] + rs[1..][..n] == rs[..n + 1];
      assert rs[..n + 1][0] == rs[0] && rs[..n + 1][1..] == rs[1..][..n];
    }
  }

  /**
   A stream cut anywhere past its file header still reads as exactly the records that are wholly there,
   and what is left over is shorter than the record it belongs to.
   */
  lemma CutStream(h: FileHeader, rs: seq<Record>, k: nat)
    requires h.magic == MAGIC && AllEncodable(rs)
    requires FILE_HEADER_SIZE <= k <= |EncodeFile(h, rs)|
    ensures var n := WholeRecords(rs, k - FILE_HEADER_SIZE);
            var start := |EncodeFile(h, rs[..n])|;
            && start <= k
            && ReadFile(EncodeFile(h, rs)[..k]) == Some(Capture(h, rs[..n], EncodeFile(h, rs)[start..k]))
            && (n == |rs| || k - start < |EncodeRecord(rs[n])|)
  {
    hide EncodeFileHeader, ReadFileHeader, EncodeRecord, EncodeRecords, ReadRecords, WholeRecords, HasRecord, ReadLe32;
    var cut := EncodeRecords(rs)[..k - FILE_HEADER_SIZE];
    assert EncodeFile(h, rs)[..k] == EncodeFileHeader(h) + cut;
    FileHeaderReadBack(h, cut);
    CutRecords(rs, k - FILE_HEADER_SIZE);
    RecordsPrintBack(cut);
    var n := WholeRecords(rs, k - FILE_HEADER_SIZE);
    assert (EncodeFileHeader(h) + cut)[FILE_HEADER_SIZE..] == cut;
    var at := |EncodeRecords(rs[..n])|;
    assert EncodeFile(h, rs)[FILE_HEADER_SIZE + at..k] == EncodeRecords(rs)[at..k - FILE_HEADER_SIZE] == cut[at..];
  }
}
