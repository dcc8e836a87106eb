/**
 The Arduino firmware: the two-letter command interpreter of main.cpp, its address filters, and the binary
 stream Sniffer.h writes to the serial line. Text output is not part of the stream.
 */
module Arduino {
  import opened Bytes
  import opened Sequences
  import opened Pcap
  import opened Capture
  import opened Frames
  import opened HexText

  const SNAPLEN := 2500
  const LINKTYPE_IEEE802_11: uint32 := 105
  const ARGUMENT_SIZE := 12
  const HEADER: FileHeader := FileHeader(MAGIC, 2, 4, 0, 0, SNAPLEN, LINKTYPE_IEEE802_11)

  /** A call of the driver, with the clock readings writePacket makes. */
  datatype Heard = Heard(mgmt: bool, pkt: Packet, tsSec: uint32, tsUsec: uint32)

  /** A frame, or a command with the bytes that can be read behind it before the time-out. */
  datatype Event = Frame(f: Heard) | Command(op: string, argument: string)

  /** wifi_sniffer_packet_handler: in a 32-bit variable, with the check sequence off for management frames only. */
  function PacketLength(f: Heard): uint32 {
    if f.mgmt then (f.pkt.rx.sigLen - FCS_LEN) % 0x1_0000_0000 else f.pkt.rx.sigLen
  }

  function IncludedLength(f: Heard): uint32 {
    if PacketLength(f) > SNAPLEN then SNAPLEN else PacketLength(f)
  }

  /** The two inspected addresses and the bytes to be written can be read. */
  predicate ValidHeard(f: Heard) {
    |f.pkt.payload| >= 16 && |f.pkt.payload| >= IncludedLength(f)
  }

  predicate ValidEvent(e: Event) {
    match e
    case Frame(f) => ValidHeard(f)
    case Command(op, argument) => |op| == 2 && |argument| <= ARGUMENT_SIZE
  }

  datatype State = State(start: bool, binary: bool, addr1: AddrFilter, addr2: AddrFilter)

  /** One thing written to the serial line. */
  datatype Chunk = HeaderChunk | RecordChunk(r: Record)

  // ---- What the code computes ----

  /** The filter an F1 or F2 argument stands for; None leaves the filter as it is. */
  function ArgumentFilter(argument: string): (f: Option<AddrFilter>)
    requires |argument| <= ARGUMENT_SIZE
  {
    if argument == "" then Some(AddrFilter([0, 0, 0, 0, 0, 0], 0))
    else if |argument| % 2 == 1 then None
    else match ParseHex(argument)
      case None => None
      case Some(bs) => Some(AddrFilter(bs + seq(ADDR_SIZE - |bs|, i => 0), |bs|))
  }

  function OrElse(f: Option<AddrFilter>, current: AddrFilter): AddrFilter {
    if f.Some? then f.value else current
  }

  function Next(s: State, e: Event): State
    requires ValidEvent(e)
  {
    match e
    case Frame(f) => s
    case Command(op, argument) =>
      if op == "S0" then s.(start := false)
      else if op == "S1" then s.(start := true)
      else if op == "OT" then s.(binary := false, start := true)
      else if op == "OB" then s.(binary := true, start := true)
      else if op == "F1" then s.(addr1 := OrElse(ArgumentFilter(argument), s.addr1))
      else if op == "F2" then s.(addr2 := OrElse(ArgumentFilter(argument), s.addr2))
      else s
  }

  predicate Recorded(s: State, f: Heard)
    requires ValidHeard(f)
  {
    && s.start && s.binary
    && IsAddrEqual(f.pkt.payload[4..10], s.addr1)
    && IsAddrEqual(f.pkt.payload[10..16], s.addr2)
  }

  function RecordOf(f: Heard): Record
    requires ValidHeard(f)
  {
    Record(f.tsSec, f.tsUsec, PacketLength(f), f.pkt.payload[..IncludedLength(f)])
  }

  predicate WritesHeader(s: State, e: Event) {
    e.Command? && (e.op == "OB" || (e.op == "S1" && s.binary))
  }

  function Emitted(s: State, e: Event): seq<Chunk>
    requires ValidEvent(e)
  {
    if WritesHeader(s, e) then [HeaderChunk]
    else if e.Frame? && Recorded(s, e.f) then [RecordChunk(RecordOf(e.f))]
    else []
  }

  predicate AllRecordsEncodable(cs: seq<Chunk>) {
    forall i :: 0 <= i < |cs| && cs[i].RecordChunk? ==> Encodable(cs[i].r)
  }

  function ChunkBytes(c: Chunk): seq<byte>
    requires c.RecordChunk? ==> Encodable(c.r)
  {
    match c
    case HeaderChunk => EncodeFileHeader(HEADER)
    case RecordChunk(r) => EncodeRecord(r)
  }

  function BytesOf(cs: seq<Chunk>): seq<byte>
    requires AllRecordsEncodable(cs)
  {
    if cs == [] then [] else ChunkBytes(cs[0]) + BytesOf(cs[1..])
  }

  // ---- The code ----

  class Sniffer {
    var start: bool
    var binary: bool
    var addr1: AddrFilter
    var addr2: AddrFilter
    var hasWriter: bool
    var line: seq<byte>

    ghost function Model(): State
      reads this
    {
      State(start, binary, addr1, addr2)
    }

    /** setup: the first signal_start runs while there is no writer, so its header is lost. */
    constructor ()
      ensures Model() == BootState() && hasWriter && line == []
    {
      start, binary := false, true;
      addr1, addr2 := AddrFilter([0, 0, 0, 0, 0, 0], 0), AddrFilter([0x00, 0x0C, 0xCC, 0, 0, 0], 3);
      hasWriter, line := false, [];
      new;
      SignalStart();
      hasWriter := true;
    }

    method Write(bs: seq<byte>)
      modifies this`line
      ensures line == old(line) + if hasWriter then bs else []
    {
      if hasWriter {
        line := line + bs;
      }
    }

    method Write16(n: uint16)
      modifies this`line
      ensures line == old(line) + if hasWriter then Le16(n) else []
    {
      Write([n % 0x100, n / 0x100]);
    }

    method Write32(n: uint32)
      modifies this`line
      ensures line == old(line) + if hasWriter then Le32(n) else []
    {
      Write([n % 0x100, n / 0x100 % 0x100, n / 0x1_0000 % 0x100, n / 0x100_0000]);
    }

    method CaptureStart()
      modifies this`line
      ensures line == old(line) + if hasWriter then EncodeFileHeader(HEADER) else []
    {
      hide Le32, Le16;
      Write32(MAGIC);
      Write16(2);
      Write16(4);
      Write32(0);
      Write32(0);
      Write32(SNAPLEN);
      Write32(LINKTYPE_IEEE802_11);
    }

    method NewPacket(tsSec: uint32, tsUsec: uint32, len: uint32, buf: seq<byte>)
      requires |buf| >= len || |buf| >= SNAPLEN
      modifies this`line
      ensures var incl := if len > SNAPLEN then SNAPLEN else len;
              line == old(line) + if hasWriter then EncodeRecord(Record(tsSec, tsUsec, len, buf[..incl])) else []
    {
      hide Le32;
      var origLen, inclLen := len, len;
      if inclLen > SNAPLEN {
        inclLen := SNAPLEN;
      }
      Write32(tsSec);
      Write32(tsUsec);
      Write32(inclLen);
      Write32(origLen);
      Write(buf[..inclLen]);
    }

    method PacketCb(f: Heard)
      requires ValidEvent(Frame(f)) && hasWriter
      modifies this`line
      ensures AllRecordsEncodable(Emitted(Model(), Frame(f)))
      ensures line == old(line) + BytesOf(Emitted(Model(), Frame(f)))
    {
      hide EncodeRecord;
      if start && IsAddrEqual(f.pkt.payload[4..10], addr1) && IsAddrEqual(f.pkt.payload[10..16], addr2) {
        if binary {
          NewPacket(f.tsSec, f.tsUsec, PacketLength(f), f.pkt.payload);
          OneChunk(RecordChunk(RecordOf(f)));
        }
      }
    }

    method SignalStart()
      modifies this`start, this`line
      ensures start
      ensures line == old(line) + if binary && hasWriter then EncodeFileHeader(HEADER) else []
    {
      if binary {
        CaptureStart();
      }
      start := true;
    }

    /** filterAddr; size -1 stands for a refused argument. */
    method FilterAddr(mac: string) returns (addr: seq<byte>, size: int)
      requires |mac| <= ARGUMENT_SIZE
      ensures |addr| == ADDR_SIZE
      ensures match ArgumentFilter(mac)
              case None => size == -1
              case Some(f) => size == f.size && addr == f.addr
    {
      addr, size := [0, 0, 0, 0, 0, 0], 0;
      if |mac| > 0 {
        if |mac| % 2 == 0 {
          var buf := new byte[ADDR_SIZE](i => 0);
          assert buf[..] == addr;
          assert mac[..|mac|] == mac;
          var t := HexToByteArray(mac, |mac|, buf);
          addr := buf[..];
          size := if t == SIZE_ERROR then -1 else t;
          assert ParseHex(mac).Some? ==> addr == ParseHex(mac).value + seq(ADDR_SIZE - |ParseHex(mac).value|, i => 0);
        } else {
          size := -1;
        }
      }
    }

    method Read(op: string, argument: string)
      requires ValidEvent(Command(op, argument)) && hasWriter
      modifies this`start, this`binary, this`addr1, this`addr2, this`line
      ensures Model() == Next(old(Model()), Command(op, argument))
      ensures line == old(line) + BytesOf(Emitted(old(Model()), Command(op, argument)))
    {
      OneChunk(HeaderChunk);
      if op == "S0" {
        start := false;
      }
      if op == "S1" {
        SignalStart();
      }
      if op == "OT" {
        binary := false;
        SignalStart();
      }
      if op == "OB" {
        binary := true;
        SignalStart();
      }
      if op == "F1" {
        var addr, size := FilterAddr(argument);
        if size >= 0 {
          addr1 := AddrFilter(addr, size);
        }
      }
      if op == "F2" {
        var addr, size := FilterAddr(argument);
        if size >= 0 {
          addr2 := AddrFilter(addr, size);
        }
      }
    }
  }

  lemma OneChunk(c: Chunk)
    requires c.RecordChunk? ==> Encodable(c.r)
    ensures AllRecordsEncodable([c]) && BytesOf([c]) == ChunkBytes(c)
  {
    assert [c][1..] == [];
  }

  function BootState(): State {
    State(true, true, AddrFilter([0, 0, 0, 0, 0, 0], 0), AddrFilter([0x00, 0x0C, 0xCC, 0, 0, 0], 3))
  }
}
