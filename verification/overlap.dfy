/** What goes wrong when a client is accepted while another one is served, with runs that get there. */
module Overlap {
  import opened Bytes
  import opened Sequences
  import opened Pcap
  import opened Capture
  import opened Frames
  import opened FilterTraces
  import opened Nvs
  import opened FilterStore
  import opened Pipeline
  import opened PipelineRuns
  import opened Delivery

  // ---- A record before any header ----

  lemma {:induction false} HeldMember(tasks: seq<Phase>, t: nat)
    requires t < |tasks| && tasks[t].Holding?
    ensures tasks[t].rec in Held(tasks)
    decreases |tasks|
  {
    if t < |tasks| - 1 {
      HeldMember(tasks[..|tasks| - 1], t);
    }
  }

  /** A held record was built from a frame that passed. */
  lemma HeldWasBuilt(cfg: Config, s: State, t: nat) returns (a: Arrival)
    requires Consistent(cfg, s) && Live(s, t) && s.dev.tasks[t].Holding?
    ensures ValidArrival(cfg, a) && s.dev.tasks[t].rec == BuildRec(cfg, a)
  {
    hide Held, Built, BuildRec, ValidArrival, Passes, InStep, StreamsAreChunks;
    HeldMember(s.dev.tasks, t);
    var rec := s.dev.tasks[t].rec;
    assert rec in multiset(Held(s.dev.tasks));
    assert rec in multiset(Built(s.log.passed));
    var i := BuiltMember(s.log.passed, rec);
    assert Justified(cfg, s.log.passed[i]);
    a := s.log.passed[i].a;
  }

  /** A stream that begins with a record has no capture file to offer: the seconds of a 32-bit microsecond clock never spell the magic number. */
  lemma RecordIsNoHeader(cfg: Config, a: Arrival)
    requires ValidArrival(cfg, a)
    ensures SentBytes(BuildRec(cfg, a)) != [] && ReadFile(SentBytes(BuildRec(cfg, a))) == None
  {
    BuiltIsWire(cfg, a);
    var w := WireRecord(cfg.snaplen, WithoutFcs(a.pkt));
    var bs := EncodeRecord(w);
    assert w.tsSec != MAGIC;
    hide EncodeRecordHeader, ReadLe32, BuildRec, WireRecord, ValidArrival;
    RecordHeaderReadBack(w.tsSec, w.tsUsec, |w.data|, w.origLen, w.data);
  }

  lemma RunSnoc(cfg: Config, fl: Flash, es: seq<Event>, e: Event)
    requires FitsFilters(fl) && ValidEvents(cfg, es) && ValidEvent(cfg, e)
    ensures ValidEvents(cfg, es + [e]) && Run(cfg, fl, es + [e]) == Step(cfg, Run(cfg, fl, es), e)
  {
    hide Step, FitsFilters, ValidEvent;
    assert (es + [e])[..|es|] == es;
  }

  /** The new client is sent what the old task was holding. */
  lemma OverlapSendsRecordFirst(cfg: Config, s: State, t: nat)
    requires WellFormed(s) && Live(s, t) && s.dev.tasks[t].Holding? && s.dev.tasks[t].rec.header.origLen > 0
    ensures var s' := Step(cfg, Step(cfg, s, Accept(true)), SendRecord(t, true));
            s'.dev.streams == s.dev.streams + [SentBytes(s.dev.tasks[t].rec)]
  {
    hide SentBytes, Sendable, FitsFilters;
    var rec := s.dev.tasks[t].rec;
    var s1 := Step(cfg, s, Accept(true));
    assert Live(s1, t) && s1.dev.tasks[t] == Holding(rec);
    assert [] + SentBytes(rec) == SentBytes(rec);
  }

  /**
   The condition on accepts is needed: whenever a task holds a record, a client accepted at that moment
   can be sent the record before any header, and then cannot read its stream.
   */
  lemma OverlapBreaksStream(cfg: Config, fl: Flash, es: seq<Event>, t: nat)
    requires FitsFilters(fl) && ValidEvents(cfg, es)
    requires Live(Run(cfg, fl, es), t) && Run(cfg, fl, es).dev.tasks[t].Holding?
    ensures ValidEvents(cfg, es + [Accept(true)] + [SendRecord(t, true)])
    ensures var streams := Run(cfg, fl, es + [Accept(true)] + [SendRecord(t, true)]).dev.streams;
            && |streams| == |Run(cfg, fl, es).dev.streams| + 1
            && Last(streams) != []
            && ReadFile(Last(streams)) == None
  {
    var s := Run(cfg, fl, es);
    RunConsistent(cfg, fl, es);
    var a := HeldWasBuilt(cfg, s, t);
    assert BuildRec(cfg, a).header.origLen > 0;
    hide ReadFile, Step, ValidArrival, FitsFilters, SentBytes, BuildRec, Run;
    RecordIsNoHeader(cfg, a);
    OverlapSendsRecordFirst(cfg, s, t);
    RunSnoc(cfg, fl, es, Accept(true));
    RunSnoc(cfg, fl, es + [Accept(true)], SendRecord(t, true));
  }

  // ---- Two headers ----

  lemma RunTwo(cfg: Config, fl: Flash, es: seq<Event>, d: Event, e: Event)
    requires FitsFilters(fl) && ValidEvents(cfg, es) && ValidEvent(cfg, d) && ValidEvent(cfg, e)
    ensures ValidEvents(cfg, es + [d, e])
    ensures Run(cfg, fl, es + [d, e]) == Step(cfg, Step(cfg, Run(cfg, fl, es), d), e)
  {
    hide Step, Run, FitsFilters, ValidEvent;
    RunSnoc(cfg, fl, es, d);
    RunSnoc(cfg, fl, es + [d], e);
    assert es + [d] + [e] == es + [d, e];
  }

  function FileHeaderBytes(cfg: Config): seq<byte> {
    EncodeFileHeader(FileHeaderOf(cfg.snaplen))
  }

  /** Task t starts and sends its header. */
  lemma StartUp(cfg: Config, s: State, t: nat)
    requires WellFormed(s) && s.dev.sock.Some? && t < |s.dev.tasks| && s.dev.tasks[t].Created?
    ensures var s' := Step(cfg, Step(cfg, s, Open(t)), SendHeader(t, true));
            var c := s.dev.sock.value;
            && s'.dev.sock == s.dev.sock && s'.dev.tasks == s.dev.tasks[t := Idle]
            && s'.dev.promiscuous && s'.dev.queue == s.dev.queue && s'.dev.settings == s.dev.settings
            && s'.dev.streams == s.dev.streams[c := s.dev.streams[c] + FileHeaderBytes(cfg)]
  {
    hide EncodeFileHeader, FitsFilters;
    var running := Step(cfg, s, Open(t));
    assert Live(s, t) && Live(running, t);
    assert s.dev.tasks[t := Opened][t := Idle] == s.dev.tasks[t := Idle];
  }

  lemma TwoAccepts(cfg: Config, s: State)
    requires WellFormed(s)
    ensures var s', u := Step(cfg, Step(cfg, s, Accept(true)), Accept(true)), |s.dev.tasks|;
            && !AtMostOneTask(s')
            && s'.dev.tasks == s.dev.tasks + [Created, Created]
            && s'.dev.sock == Some(|s.dev.streams| + 1)
            && s'.dev.streams == s.dev.streams + [[], []]
  {
    var s', u := Step(cfg, Step(cfg, s, Accept(true)), Accept(true)), |s.dev.tasks|;
    assert Live(s', u) && Live(s', u + 1);
  }

  /** Two tasks that have not started, and one client: both headers go to it. */
  lemma TwoStartUps(cfg: Config, s: State, u: nat)
    requires WellFormed(s) && s.dev.sock == Some(|s.dev.streams| - 1) && Last(s.dev.streams) == []
    requires u + 1 < |s.dev.tasks| && s.dev.tasks[u].Created? && s.dev.tasks[u + 1].Created?
    ensures var s1 := Step(cfg, Step(cfg, s, Open(u)), SendHeader(u, true));
            Step(cfg, Step(cfg, s1, Open(u + 1)), SendHeader(u + 1, true)).dev.streams
            == Init(s.dev.streams) + [FileHeaderBytes(cfg) + FileHeaderBytes(cfg)]
  {
    hide Step, FileHeaderBytes, FitsFilters;
    StartUp(cfg, s, u);
    StartUp(cfg, Step(cfg, Step(cfg, s, Open(u)), SendHeader(u, true)), u + 1);
    assert [] + FileHeaderBytes(cfg) == FileHeaderBytes(cfg);
  }

  /** Two clients are accepted, then tasks u and u + 1 start. */
  function TwoClients(u: nat): (es: seq<Event>)
    ensures forall cfg :: ValidEvents(cfg, es)
  {
    [Accept(true), Accept(true)] + [Open(u), SendHeader(u, true)] + [Open(u + 1), SendHeader(u + 1, true)]
  }

  lemma RunTwoClients(cfg: Config, fl: Flash, es: seq<Event>, u: nat)
    requires FitsFilters(fl) && ValidEvents(cfg, es)
    ensures ValidEvents(cfg, es + TwoClients(u)) && ValidEvents(cfg, es + [Accept(true), Accept(true)])
    ensures var s1 := Run(cfg, fl, es + [Accept(true), Accept(true)]);
            var s2 := Step(cfg, Step(cfg, s1, Open(u)), SendHeader(u, true));
            && s1 == Step(cfg, Step(cfg, Run(cfg, fl, es), Accept(true)), Accept(true))
            && Run(cfg, fl, es + TwoClients(u)) == Step(cfg, Step(cfg, s2, Open(u + 1)), SendHeader(u + 1, true))
  {
    hide Step, Run, FitsFilters;
    var accepted := es + [Accept(true), Accept(true)];
    var first := accepted + [Open(u), SendHeader(u, true)];
    RunTwo(cfg, fl, es, Accept(true), Accept(true));
    RunTwo(cfg, fl, accepted, Open(u), SendHeader(u, true));
    RunTwo(cfg, fl, first, Open(u + 1), SendHeader(u + 1, true));
    assert first + [Open(u + 1), SendHeader(u + 1, true)] == es + TwoClients(u);
  }

  /**
   Two accepts in a row make two live tasks, and the second client is sent two file headers; this can follow
   any run, power-on included.
   */
  lemma OverlapSendsTwoHeaders(cfg: Config, fl: Flash, es: seq<Event>)
    requires FitsFilters(fl) && ValidEvents(cfg, es)
    ensures ValidEvents(cfg, es + [Accept(true), Accept(true)])
    ensures !AtMostOneTask(Run(cfg, fl, es + [Accept(true), Accept(true)]))
    ensures var s := Run(cfg, fl, es);
            && ValidEvents(cfg, es + TwoClients(|s.dev.tasks|))
            && Run(cfg, fl, es + TwoClients(|s.dev.tasks|)).dev.streams
               == s.dev.streams + [[], FileHeaderBytes(cfg) + FileHeaderBytes(cfg)]
  {
    hide Step, Run, FitsFilters, FileHeaderBytes, ValidEvents, AtMostOneTask, TwoClients;
    var s := Run(cfg, fl, es);
    var u := |s.dev.tasks|;
    RunTwoClients(cfg, fl, es, u);
    TwoAccepts(cfg, s);
    TwoStartUps(cfg, Run(cfg, fl, es + [Accept(true), Accept(true)]), u);
    assert Init(s.dev.streams + [[], []]) == s.dev.streams + [[]];
    var both := FileHeaderBytes(cfg) + FileHeaderBytes(cfg);
    assert s.dev.streams + [[]] + [both] == s.dev.streams + [[], both];
  }

  /** The record header a reader sees in the first 16 bytes of a file header. */
  const BOGUS: Record := Record(MAGIC, 0x0004_0002, 0, [])

  lemma HeaderAsRecord(snaplen: SnapLen)
    ensures EncodeFileHeader(FileHeaderOf(snaplen)) == EncodeRecord(BOGUS) + (Le32(snaplen) + Le32(LINKTYPE_IEEE802_11_RADIOTAP))
  {
  }

  lemma ReadShortTail(tail: seq<byte>)
    requires |tail| < RECORD_HEADER_SIZE
    ensures ReadRecords(tail) == ([], tail)
  {
  }

  lemma ReadTwoHeaders(h: FileHeader, r: Record, tail: seq<byte>)
    requires h.magic == MAGIC && Encodable(r) && |tail| < RECORD_HEADER_SIZE
    requires EncodeFileHeader(h) == EncodeRecord(r) + tail
    ensures ReadFile(EncodeFileHeader(h) + EncodeFileHeader(h)) == Some(Capture(h, [r], tail))
  {
    hide EncodeFileHeader, EncodeRecord, EncodeRecords, ReadLe32, ReadFileHeader, ReadRecords;
    var header := EncodeFileHeader(h);
    FileHeaderReadBack(h, header);
    assert (header + header)[FILE_HEADER_SIZE..] == header;
    OneRecordEncoded(r);
    RecordsReadBack([r], tail);
    ReadShortTail(tail);
    assert [r] + [] == [r];
  }

  /**
   What a pcap reader makes of two file headers: an empty record that was never captured, stamped with the
   magic number as its seconds, and eight bytes it cannot place.
   */
  lemma TwoHeadersReadBogus(cfg: Config)
    ensures ReadFile(FileHeaderBytes(cfg) + FileHeaderBytes(cfg)) ==
            Some(Capture(FileHeaderOf(cfg.snaplen), [BOGUS], Le32(cfg.snaplen) + Le32(LINKTYPE_IEEE802_11_RADIOTAP)))
  {
    hide EncodeFileHeader, EncodeRecord, ReadFile, Le32;
    HeaderAsRecord(cfg.snaplen);
    ReadTwoHeaders(FileHeaderOf(cfg.snaplen), BOGUS, Le32(cfg.snaplen) + Le32(LINKTYPE_IEEE802_11_RADIOTAP));
  }

  // ---- A run that gets there ----

  /** From power-on: a client, its task started, a frame, and the task's next turn. */
  function Prelude(a: Arrival): seq<Event> {
    [Accept(true)] + [Open(0), SendHeader(0, true)] + [Frame(a), Pop(0)]
  }

  /** With one client and one frame that passes, the task comes to hold the frame's record. */
  lemma HoldingIsReached(cfg: Config, fl: Flash, a: Arrival)
    requires FitsFilters(fl) && cfg.capacity > 0 && ValidArrival(cfg, a)
    requires Deliverable(a) && Passes(Boot(cfg, fl).dev.settings.ram, a)
    ensures ValidEvents(cfg, Prelude(a))
    ensures var s := Run(cfg, fl, Prelude(a));
            s.dev.tasks == [Holding(BuildRec(cfg, a))] && |s.dev.streams| == 1
  {
    RunSnoc(cfg, fl, [], Accept(true));
    assert [] + [Accept(true)] == [Accept(true)];
    var started := [Accept(true)] + [Open(0), SendHeader(0, true)];
    RunTwo(cfg, fl, [Accept(true)], Open(0), SendHeader(0, true));
    RunTwo(cfg, fl, started, Frame(a), Pop(0));
    assert Run(cfg, fl, [Accept(true)]) == Step(cfg, Boot(cfg, fl), Accept(true));
    hide Run, FitsFilters, EncodeFileHeader, ValidArrival, BuildRec, Passes, InitConfig, Deliverable;
    StartUp(cfg, Run(cfg, fl, [Accept(true)]), 0);
    var s := Run(cfg, fl, started);
    assert s.dev.tasks == [Idle] && s.dev.queue == [];
    FrameThenPop(cfg, s, a);
  }

  lemma FrameThenPop(cfg: Config, s: State, a: Arrival)
    requires WellFormed(s) && ValidArrival(cfg, a) && Deliverable(a)
    requires s.dev.tasks == [Idle] && s.dev.queue == [] && s.dev.promiscuous && cfg.capacity > 0
    requires Passes(s.dev.settings.ram, a)
    ensures var s' := Step(cfg, Step(cfg, s, Frame(a)), Pop(0));
            s'.dev.tasks == [Holding(BuildRec(cfg, a))] && s'.dev.streams == s.dev.streams
  {
    hide FitsFilters, ValidArrival, BuildRec, Passes, Deliverable;
    var s1 := Step(cfg, s, Frame(a));
    assert s1.dev.queue == [BuildRec(cfg, a)];
    assert Live(s1, 0);
  }

  /** A device fresh from the factory, and a data frame from one station to another. */
  const PLAIN_CONFIG: Config := Config(1000, 1, AddrFilter([2, 0, 0, 0, 0, 1], 6))
  const FRESH_FLASH: Flash := Flash(map[], map[], 0)
  const PLAIN_ARRIVAL: Arrival := Arrival(
    Data,
    Packet(RxCtrl(-50, -95, 0, 1, 0, 28, 0), IbssFrame([2, 0, 0, 0, 0, 2], [2, 0, 0, 0, 0, 3]) + seq(20, i => 0)),
    true)

  /** A run on which a client accepted while another is served cannot open its stream. */
  lemma UnreadableStreamReached()
    ensures FitsFilters(FRESH_FLASH)
    ensures var es := Prelude(PLAIN_ARRIVAL) + [Accept(true)] + [SendRecord(0, true)];
            && ValidEvents(PLAIN_CONFIG, es)
            && var streams := Run(PLAIN_CONFIG, FRESH_FLASH, es).dev.streams;
               |streams| == 2 && streams[1] != [] && ReadFile(streams[1]) == None
  {
    PlainArrivalPasses();
    hide Run, Passes, BuildRec, ValidArrival, FitsFilters, ReadFile, Deliverable, InitConfig;
    HoldingIsReached(PLAIN_CONFIG, FRESH_FLASH, PLAIN_ARRIVAL);
    OverlapBreaksStream(PLAIN_CONFIG, FRESH_FLASH, Prelude(PLAIN_ARRIVAL), 0);
  }

  lemma PlainArrivalPasses()
    ensures FitsFilters(FRESH_FLASH) && ValidArrival(PLAIN_CONFIG, PLAIN_ARRIVAL) && Deliverable(PLAIN_ARRIVAL)
    ensures Passes(Boot(PLAIN_CONFIG, FRESH_FLASH).dev.settings.ram, PLAIN_ARRIVAL)
  {
    var p := PLAIN_ARRIVAL.pkt.payload;
    assert p[0] == 8 && p[1] == 0;
    assert FrameControl(p) == 8;
    assert p[4..10] == [2, 0, 0, 0, 0, 3] && p[10..16] == [2, 0, 0, 0, 0, 2];
    var f := InitConfig(FRESH_FLASH, PLAIN_CONFIG.own).ram;
    assert f.addr2.size == 0 && f.rssi == RSSI_DEFAULT && f.own == PLAIN_CONFIG.own;
    assert p[4..10][5] == 3 && p[10..16][5] == 2;
    assert !IsAddrEqual(p[4..10], f.own) && !IsAddrEqual(p[10..16], f.own);
  }
}
