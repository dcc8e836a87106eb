/**
 capture_lib: the packed record a captured frame becomes, and the bytes of it that are sent.
 wifi_promiscuous_pkt_t is declared by ESP-IDF, outside the repository; its length field sig_len has 12 bits.
 */
module Capture {
  import opened Bytes
  import opened Pcap

  const SIG_LEN_RANGE := 0x1000
  const FCS_LEN := 4
  const TAP_HEADER_SIZE := 8
  const TAP_DATA_SIZE := 12
  const RADIOTAP_SIZE := TAP_HEADER_SIZE + TAP_DATA_SIZE
  const IT_PRESENT: uint32 := 0x0004_0860
  const LINKTYPE_IEEE802_11_RADIOTAP: uint32 := 127

  type SigLen = n: int | 0 <= n < SIG_LEN_RANGE
  /** CONFIG_SNIFFER_SNAP_LEN and its configured range. */
  type SnapLen = n: int | 200 <= n <= 2500 witness 1000

  datatype RxCtrl = RxCtrl(
    rssi: int8, noiseFloor: int8, antenna: byte, channel: byte,
    timestamp: uint32, sigLen: SigLen, rxState: nat)

  /** A driver buffer: payload is the memory that can be read from the first frame byte on. */
  datatype Packet = Packet(rx: RxCtrl, payload: seq<byte>)

  datatype RecHeader = RecHeader(tsSec: uint32, tsUsec: uint32, inclLen: uint32, origLen: uint32)
  datatype TapHeader = TapHeader(version: byte, pad: byte, len: uint16, present: uint32)
  datatype TapData = TapData(
    signal: int8, noise: int8, antenna: byte, pad: byte,
    flags: uint32, freq: uint16, channel: byte, maxPower: byte)
  /** pcap_rec_t: packed, with a fixed buffer of snaplen bytes at its end. */
  datatype PcapRec = PcapRec(header: RecHeader, tapHeader: TapHeader, tapData: TapData, buf: seq<byte>)

  /** `sig_len -= 4` in a 12-bit unsigned field. */
  function WithoutFcs(pkt: Packet): Packet {
    pkt.(rx := pkt.rx.(sigLen := (pkt.rx.sigLen - FCS_LEN) % SIG_LEN_RANGE))
  }

  function OrigLen(pkt: Packet): uint32 {
    pkt.rx.sigLen + RADIOTAP_SIZE
  }

  function InclLen(snaplen: SnapLen, pkt: Packet): uint32 {
    if OrigLen(pkt) > snaplen then snaplen else OrigLen(pkt)
  }

  /** memcpy reads incl_len bytes from the start of the payload. */
  predicate Copyable(snaplen: SnapLen, pkt: Packet) {
    InclLen(snaplen, pkt) <= |pkt.payload|
  }

  function CreateRecord(snaplen: SnapLen, pkt: Packet): (rec: PcapRec)
    requires Copyable(snaplen, pkt)
    ensures RADIOTAP_SIZE <= rec.header.inclLen <= rec.header.origLen && rec.header.inclLen <= snaplen
    ensures |rec.buf| == snaplen && Sendable(rec)
    ensures rec.header.tsSec * 1_000_000 + rec.header.tsUsec == pkt.rx.timestamp && rec.header.tsUsec < 1_000_000
  {
    var incl := InclLen(snaplen, pkt);
    PcapRec(
      RecHeader(pkt.rx.timestamp / 1_000_000, pkt.rx.timestamp % 1_000_000, incl, OrigLen(pkt)),
      TapHeader(0, 0, RADIOTAP_SIZE, IT_PRESENT),
      TapData(pkt.rx.rssi, pkt.rx.noiseFloor, pkt.rx.antenna, 0, 0, 0, pkt.rx.channel, 0),
      pkt.payload[..incl] + seq(snaplen - incl, i => 0))
  }

  function TapBytes(h: TapHeader, d: TapData): (bs: seq<byte>)
    ensures |bs| == RADIOTAP_SIZE
  {
    [h.version, h.pad] + Le16(h.len) + Le32(h.present)
    + [ByteOf(d.signal), ByteOf(d.noise), d.antenna, d.pad]
    + Le32(d.flags) + Le16(d.freq) + [d.channel, d.maxPower]
  }

  /** sizeof the packed struct */
  function SizeOf(rec: PcapRec): nat {
    RECORD_HEADER_SIZE + RADIOTAP_SIZE + |rec.buf|
  }

  /** The memory image of the packed struct. */
  function StructBytes(rec: PcapRec): (bs: seq<byte>)
    ensures |bs| == SizeOf(rec)
  {
    EncodeRecordHeader(rec.header.tsSec, rec.header.tsUsec, rec.header.inclLen, rec.header.origLen)
    + TapBytes(rec.tapHeader, rec.tapData) + rec.buf
  }

  /** capture_get_size */
  function SentSize(rec: PcapRec): nat {
    RECORD_HEADER_SIZE + rec.header.inclLen
  }

  /** The write covers no byte outside the struct. */
  predicate Sendable(rec: PcapRec) {
    SentSize(rec) <= SizeOf(rec)
  }

  /** The bytes capture_on_send hands to the socket. */
  function SentBytes(rec: PcapRec): seq<byte>
    requires Sendable(rec)
  {
    StructBytes(rec)[..SentSize(rec)]
  }

  function FileHeaderOf(snaplen: SnapLen): FileHeader {
    FileHeader(MAGIC, 2, 4, 0, 0, snaplen, LINKTYPE_IEEE802_11_RADIOTAP)
  }

  /** The first bytes on a client's socket. */
  lemma FileHeaderLiteral(snaplen: SnapLen)
    ensures EncodeFileHeader(FileHeaderOf(snaplen)) ==
            [0xd4, 0xc3, 0xb2, 0xa1, 2, 0, 4, 0] + seq(8, i => 0) + [snaplen % 0x100, snaplen / 0x100, 0, 0, 127, 0, 0, 0]
  {
  }

  // ---- What a record means ----

  function RadiotapOf(rx: RxCtrl): (bs: seq<byte>)
    ensures |bs| == RADIOTAP_SIZE
  {
    TapBytes(TapHeader(0, 0, RADIOTAP_SIZE, IT_PRESENT), TapData(rx.rssi, rx.noiseFloor, rx.antenna, 0, 0, 0, rx.channel, 0))
  }

  /** The pcap record of a frame: radiotap header, then the frame as far as the snap length allows. */
  function WireRecord(snaplen: SnapLen, pkt: Packet): (r: Record)
    requires Copyable(snaplen, pkt)
    ensures Encodable(r) && |r.data| == InclLen(snaplen, pkt)
  {
    Record(pkt.rx.timestamp / 1_000_000, pkt.rx.timestamp % 1_000_000, OrigLen(pkt),
           RadiotapOf(pkt.rx) + pkt.payload[..InclLen(snaplen, pkt) - RADIOTAP_SIZE])
  }

  /** The frame's length without its check sequence; a sig_len below 4 wraps in its 12 bits. */
  function FrameLength(sigLen: SigLen): nat {
    if sigLen >= 4 then sigLen - 4 else sigLen + 4092
  }

  /** As many bytes of the frame as the snap length leaves room for behind 20 bytes of radiotap header. */
  function KeptLength(snaplen: SnapLen, sigLen: SigLen): nat {
    if FrameLength(sigLen) + 20 <= snaplen then FrameLength(sigLen) else snaplen - 20
  }

  function TapLiteral(rx: RxCtrl): seq<byte> {
    [0, 0, 20, 0, 0x60, 0x08, 0x04, 0, rx.rssi % 0x100, rx.noiseFloor % 0x100, rx.antenna, 0,
     0, 0, 0, 0, 0, 0, rx.channel, 0]
  }

  /** r is the record of a frame as the driver hands it over, check sequence included in sig_len. */
  predicate RecordsFrame(snaplen: SnapLen, r: Record, pkt: Packet) {
    var kept := KeptLength(snaplen, pkt.rx.sigLen);
    && r.tsSec == pkt.rx.timestamp / 1_000_000 && r.tsUsec == pkt.rx.timestamp % 1_000_000
    && r.origLen == FrameLength(pkt.rx.sigLen) + 20
    && kept <= |pkt.payload|
    && r.data == TapLiteral(pkt.rx) + pkt.payload[..kept]
  }

  lemma LengthsOfFrame(snaplen: SnapLen, pkt: Packet)
    ensures OrigLen(WithoutFcs(pkt)) == FrameLength(pkt.rx.sigLen) + 20
    ensures InclLen(snaplen, WithoutFcs(pkt)) == KeptLength(snaplen, pkt.rx.sigLen) + 20
  {
  }

  lemma RadiotapIsLiteral(rx: RxCtrl)
    ensures RadiotapOf(rx) == TapLiteral(rx)
  {
    assert Le16(RADIOTAP_SIZE) == [20, 0] && Le32(IT_PRESENT) == [0x60, 0x08, 0x04, 0];
    assert Le32(0) == [0, 0, 0, 0] && Le16(0) == [0, 0];
    hide Le16, Le32;
  }

  /** The record of a frame, in numbers, and the memory that must be readable to build it. */
  lemma WireRecordOfFrame(snaplen: SnapLen, pkt: Packet)
    ensures Copyable(snaplen, WithoutFcs(pkt)) <==> KeptLength(snaplen, pkt.rx.sigLen) + 20 <= |pkt.payload|
    ensures Copyable(snaplen, WithoutFcs(pkt)) ==> RecordsFrame(snaplen, WireRecord(snaplen, WithoutFcs(pkt)), pkt)
  {
    LengthsOfFrame(snaplen, pkt);
    RadiotapIsLiteral(WithoutFcs(pkt).rx);
    assert TapLiteral(WithoutFcs(pkt).rx) == TapLiteral(pkt.rx);
    hide OrigLen, InclLen, KeptLength, FrameLength, RadiotapOf, TapLiteral;
  }

  /** What goes onto the wire is one well-formed pcap record. */
  lemma SentIsWireRecord(snaplen: SnapLen, pkt: Packet)
    requires Copyable(snaplen, pkt)
    ensures SentBytes(CreateRecord(snaplen, pkt)) == EncodeRecord(WireRecord(snaplen, pkt))
  {
    hide EncodeRecordHeader, TapBytes;
    var rec := CreateRecord(snaplen, pkt);
    var r := WireRecord(snaplen, pkt);
    var head := EncodeRecordHeader(r.tsSec, r.tsUsec, |r.data|, r.origLen);
    assert StructBytes(rec) == head + RadiotapOf(pkt.rx) + rec.buf;
    assert rec.buf[..InclLen(snaplen, pkt) - RADIOTAP_SIZE] == pkt.payload[..InclLen(snaplen, pkt) - RADIOTAP_SIZE];
    assert SentBytes(rec) == head + (RadiotapOf(pkt.rx) + rec.buf[..InclLen(snaplen, pkt) - RADIOTAP_SIZE]);
  }

  /** memcpy reads RADIOTAP_SIZE bytes past the frame, but none of them is ever sent. */
  lemma SentIgnoresBytesPastFrame(snaplen: SnapLen, p: Packet, q: Packet)
    requires Copyable(snaplen, p) && Copyable(snaplen, q)
    requires p.rx == q.rx && p.payload[..InclLen(snaplen, p) - RADIOTAP_SIZE] == q.payload[..InclLen(snaplen, q) - RADIOTAP_SIZE]
    ensures InclLen(snaplen, p) - RADIOTAP_SIZE <= p.rx.sigLen
    ensures SentBytes(CreateRecord(snaplen, p)) == SentBytes(CreateRecord(snaplen, q))
  {
    SentIsWireRecord(snaplen, p);
    SentIsWireRecord(snaplen, q);
  }
}

/** A radiotap reader that follows the present bits and the natural alignment of the fields (radiotap.org). */
module Radiotap {
  import opened Bytes
  import opened Sequences
  import opened Capture

  datatype Layout = Layout(align: nat, size: nat)

  const DBM_SIGNAL := 5
  const DBM_NOISE := 6
  const ANTENNA := 11
  const XCHANNEL := 18

  /** Alignment and size of the defined fields, by present bit. */
  function FieldLayout(bit: nat): Option<Layout> {
    match bit
    case 0 => Some(Layout(8, 8))
    case 1 => Some(Layout(1, 1))
    case 2 => Some(Layout(1, 1))
    case 3 => Some(Layout(2, 4))
    case 4 => Some(Layout(2, 2))
    case 5 => Some(Layout(1, 1))
    case 6 => Some(Layout(1, 1))
    case 7 => Some(Layout(2, 2))
    case 8 => Some(Layout(2, 2))
    case 9 => Some(Layout(2, 2))
    case 10 => Some(Layout(1, 1))
    case 11 => Some(Layout(1, 1))
    case 12 => Some(Layout(1, 1))
    case 13 => Some(Layout(1, 1))
    case 14 => Some(Layout(2, 2))
    case 15 => Some(Layout(2, 2))
    case 16 => Some(Layout(1, 1))
    case 17 => Some(Layout(1, 1))
    case 18 => Some(Layout(4, 8))
    case 19 => Some(Layout(1, 3))
    case 20 => Some(Layout(4, 8))
    case 21 => Some(Layout(2, 12))
    case 22 => Some(Layout(8, 12))
    case _ => None
  }

  function AlignUp(at: nat, align: nat): (r: nat)
    requires align > 0
    ensures r >= at
  {
    if at % align == 0 then at else at + (align - at % align)
  }

  /** The offsets of the present fields and the offset behind the last; None at a field of unknown layout. */
  function Walk(present: nat, bit: nat, at: nat): Option<(map<nat, nat>, nat)>
    decreases present
  {
    if present == 0 then Some((map[], at))
    else if present % 2 == 0 then Walk(present / 2, bit + 1, at)
    else match FieldLayout(bit)
      case None => None
      case Some(l) =>
        if l.align == 0 then None
        else
          var here := AlignUp(at, l.align);
          match Walk(present / 2, bit + 1, here + l.size)
          case None => None
          case Some((fields, end)) => Some((fields[bit := here], end))
  }

  /** The present word with some clear bits below it. */
  function Above(present: nat, clear: nat): nat {
    if clear == 0 then present else 2 * Above(present, clear - 1)
  }

  /** Clear bits are passed over. */
  lemma {:induction false} SkipClearBits(present: nat, clear: nat, bit: nat, at: nat)
    ensures Walk(Above(present, clear), bit, at) == Walk(present, bit + clear, at)
    decreases clear
  {
    if clear > 0 {
      var below := Above(present, clear - 1);
      assert Above(present, clear) == 2 * below && (2 * below) / 2 == below && (2 * below) % 2 == 0;
      SkipClearBits(present, clear - 1, bit + 1, at);
      if below == 0 {
        WalkEnd(bit, at);
        WalkEnd(bit + 1, at);
      }
    }
  }

  lemma EmittedFields()
    ensures Walk(IT_PRESENT, 0, TAP_HEADER_SIZE) ==
            Some((map[DBM_SIGNAL := 8, DBM_NOISE := 9, ANTENNA := 10, XCHANNEL := 12], RADIOTAP_SIZE))
  {
    hide Walk;
    assert Walk(0, 19, 20) == Some((map[], 20)) by { WalkEnd(19, 20); }
    assert Above(0x2043, 5) == IT_PRESENT && Above(0x81, 4) == 0x810 && Above(0x01, 6) == 0x40;
    SkipClearBits(0x2043, 5, 0, 8);
    SkipClearBits(0x81, 4, 7, 10);
    SkipClearBits(0x01, 6, 12, 11);
    WalkField(0x01, 18, 11);
    assert Walk(0x01, 18, 11) == Some((map[18 := 12], 20));
    WalkField(0x81, 11, 10);
    assert Walk(0x81, 11, 10) == Some((map[11 := 10, 18 := 12], 20)) by {
      assert map[18 := 12][11 := 10] == map[11 := 10, 18 := 12];
    }
    WalkField(0x1021, 6, 9);
    assert map[11 := 10, 18 := 12][6 := 9] == map[6 := 9, 11 := 10, 18 := 12];
    WalkField(0x2043, 5, 8);
    assert map[6 := 9, 11 := 10, 18 := 12][5 := 8] == map[5 := 8, 6 := 9, 11 := 10, 18 := 12];
  }

  lemma WalkEnd(bit: nat, at: nat)
    ensures Walk(0, bit, at) == Some((map[], at))
  {
  }

  lemma WalkField(present: nat, bit: nat, at: nat)
    requires present % 2 == 1 && FieldLayout(bit).Some? && FieldLayout(bit).value.align > 0
    ensures var here := AlignUp(at, FieldLayout(bit).value.align);
            Walk(present, bit, at) ==
            match Walk(present / 2, bit + 1, here + FieldLayout(bit).value.size)
            case None => None
            case Some((fields, end)) => Some((fields[bit := here], end))
  {
  }

  /**
   The walker finds exactly the four fields the firmware fills in, reads back the values the driver
   reported, and stops exactly at it_len, for every received frame.
   */
  lemma WalkerReadsBack(snaplen: SnapLen, pkt: Packet)
    requires Copyable(snaplen, pkt)
    ensures var tap := WireRecord(snaplen, pkt).data;
            && |tap| >= RADIOTAP_SIZE
            && tap[0] == 0
            && Walk(ReadLe32(tap, 4), 0, TAP_HEADER_SIZE).Some?
            && var (fields, end) := Walk(ReadLe32(tap, 4), 0, TAP_HEADER_SIZE).value;
            && end == ReadLe16(tap, 2) == RADIOTAP_SIZE
            && fields.Keys == {DBM_SIGNAL, DBM_NOISE, ANTENNA, XCHANNEL}
            && fields[XCHANNEL] + 8 <= |tap|
            && fields[DBM_SIGNAL] < |tap| && fields[DBM_NOISE] < |tap| && fields[ANTENNA] < |tap|
            && SignedByte(tap[fields[DBM_SIGNAL]]) == pkt.rx.rssi
            && SignedByte(tap[fields[DBM_NOISE]]) == pkt.rx.noiseFloor
            && tap[fields[ANTENNA]] == pkt.rx.antenna
            && tap[fields[XCHANNEL] + 6] == pkt.rx.channel
  {
    hide Le32, Le16, ReadLe32, ReadLe16, Walk;
    var tap := WireRecord(snaplen, pkt).data;
    assert tap[2..4] == Le16(RADIOTAP_SIZE) && tap[4..8] == Le32(IT_PRESENT);
    ReadLe16Found(RADIOTAP_SIZE, tap, 2);
    ReadLe32Found(IT_PRESENT, tap, 4);
    EmittedFields();
  }
}
