/**
 What the Arduino puts on the line, said of the history of commands and frames alone: no state of the
 interpreter occurs in these definitions.
 */
module ArduinoHistory {
  import opened Sequences
  import opened Pcap
  import opened Frames
  import opened Arduino
  import opened ArduinoRuns

  // ---- Modes and filters ----

  /** The last of the given commands. */
  function LastOp(es: seq<Event>, ops: set<string>): Option<string> {
    if es == [] then None
    else
      var e := es[|es| - 1];
      if e.Command? && e.op in ops then Some(e.op) else LastOp(es[..|es| - 1], ops)
  }

  /** The last command that starts or stops was not S0. */
  predicate Started(initially: bool, es: seq<Event>) {
    match LastOp(es, {"S0", "S1", "OT", "OB"})
    case None => initially
    case Some(op) => op != "S0"
  }

  /** The last command that chooses an output was OB. */
  predicate InBinary(initially: bool, es: seq<Event>) {
    match LastOp(es, {"OT", "OB"})
    case None => initially
    case Some(op) => op == "OB"
  }

  /** The last well-formed argument of the given command. */
  function FilterInForce(initially: AddrFilter, es: seq<Event>, op: string): AddrFilter
    requires ValidEvents(es)
  {
    if es == [] then initially
    else
      var e := es[|es| - 1];
      if e.Command? && e.op == op && ArgumentFilter(e.argument).Some? then ArgumentFilter(e.argument).value
      else FilterInForce(initially, es[..|es| - 1], op)
  }

  lemma {:induction false} StateFromHistory(s: State, es: seq<Event>)
    requires ValidEvents(es)
    ensures After(s, es) == State(Started(s.start, es), InBinary(s.binary, es),
                                  FilterInForce(s.addr1, es, "F1"), FilterInForce(s.addr2, es, "F2"))
    decreases |es|
  {
    hide ArgumentFilter, ValidHeard;
    if es != [] {
      StateFromHistory(s, es[..|es| - 1]);
    }
  }

  // ---- Records ----

  /** The length of a frame, four less for management frames, in 32 bits. */
  function HeardLength(f: Heard): nat {
    if !f.mgmt then f.pkt.rx.sigLen
    else if f.pkt.rx.sigLen >= 4 then f.pkt.rx.sigLen - 4
    else f.pkt.rx.sigLen + 0xFFFF_FFFC
  }

  function HeardKept(f: Heard): nat {
    if HeardLength(f) > 2500 then 2500 else HeardLength(f)
  }

  /** The record of a frame: the clock readings, the length, at most 2500 bytes. */
  function HeardRecord(f: Heard): Record
    requires HeardKept(f) <= |f.pkt.payload|
  {
    Record(f.tsSec, f.tsUsec, HeardLength(f), f.pkt.payload[..HeardKept(f)])
  }

  lemma HeardIsRecordOf(f: Heard)
    ensures ValidHeard(f) <==> |f.pkt.payload| >= 16 && |f.pkt.payload| >= HeardKept(f)
    ensures ValidHeard(f) ==> RecordOf(f) == HeardRecord(f)
  {
    var sigLen: int := f.pkt.rx.sigLen;
    if f.mgmt && sigLen < 4 {
      assert (sigLen - 4) % 0x1_0000_0000 == sigLen + 0xFFFF_FFFC;
    }
  }

  /** Both addresses of the frame begin with the filters in force when it is heard. */
  predicate MatchesHistory(addr1: AddrFilter, addr2: AddrFilter, before: seq<Event>, f: Heard)
    requires ValidEvents(before)
  {
    && AddressAt(f.pkt.payload, 4, FilterInForce(addr1, before, "F1"))
    && AddressAt(f.pkt.payload, 10, FilterInForce(addr2, before, "F2"))
  }

  // ---- The line ----

  /** What one event puts on the line. */
  function ChunksFor(s: State, before: seq<Event>, e: Event): seq<Chunk>
    requires ValidEvents(before) && ValidEvent(e)
  {
    match e
    case Frame(f) =>
      HeardIsRecordOf(f);
      if Started(s.start, before) && InBinary(s.binary, before) && MatchesHistory(s.addr1, s.addr2, before, f)
      then [RecordChunk(HeardRecord(f))] else []
    case Command(op, _) =>
      if op == "OB" || (op == "S1" && InBinary(s.binary, before)) then [Arduino.HeaderChunk] else []
  }

  function ChunksFromHistory(s: State, es: seq<Event>): seq<Chunk>
    requires ValidEvents(es)
  {
    if es == [] then []
    else ChunksFromHistory(s, es[..|es| - 1]) + ChunksFor(s, es[..|es| - 1], es[|es| - 1])
  }

  lemma EmittedFromHistory(s: State, before: seq<Event>, e: Event)
    requires ValidEvents(before) && ValidEvent(e)
    ensures Emitted(After(s, before), e) == ChunksFor(s, before, e)
  {
    hide ArgumentFilter, After, FilterInForce, Started, InBinary, AddressAt, IsAddrEqual, HeardRecord, RecordOf;
    StateFromHistory(s, before);
    if e.Frame? {
      var f := e.f;
      HeardIsRecordOf(f);
      EqualIsAddressAt(f.pkt.payload, 4, FilterInForce(s.addr1, before, "F1"));
      EqualIsAddressAt(f.pkt.payload, 10, FilterInForce(s.addr2, before, "F2"));
    }
  }

  /**
   In every run, from any state: a header for every OB and for every S1 in binary mode, a record for every frame
   that is heard between a start and a stop, in binary mode, and matches the filters in force; nothing else.
   */
  lemma {:induction false} WrittenFromHistory(s: State, es: seq<Event>)
    requires ValidEvents(es)
    ensures Written(s, es) == ChunksFromHistory(s, es)
    decreases |es|
  {
    hide ChunksFor, Emitted, After, ValidEvent;
    if es != [] {
      WrittenFromHistory(s, es[..|es| - 1]);
      EmittedFromHistory(s, es[..|es| - 1], es[|es| - 1]);
    }
  }

  // ---- One session ----

  /** A record for every frame that matches, in order. */
  function SessionRecords(addr1: AddrFilter, addr2: AddrFilter, es: seq<Event>): (rs: seq<Record>)
    requires ValidEvents(es)
    ensures AllEncodable(rs)
  {
    if es == [] then []
    else
      var before, e := es[..|es| - 1], es[|es| - 1];
      SessionRecords(addr1, addr2, before) +
      if e.Frame? && MatchesHistory(addr1, addr2, before, e.f) then
        HeardIsRecordOf(e.f);
        [HeardRecord(e.f)]
      else []
  }

  function RecordChunks(rs: seq<Record>): (cs: seq<Chunk>)
    ensures |cs| == |rs| && forall i :: 0 <= i < |rs| ==> cs[i] == RecordChunk(rs[i])
  {
    seq(|rs|, i requires 0 <= i < |rs| => RecordChunk(rs[i]))
  }

  lemma {:induction false} SessionWritten(s: State, es: seq<Event>)
    requires ValidEvents(es) && NoSwitch(es) && s.start && s.binary
    ensures Written(s, es) == RecordChunks(SessionRecords(s.addr1, s.addr2, es))
    decreases |es|
  {
    hide ArgumentFilter, HeardRecord, MatchesHistory, ValidHeard, After, Emitted;
    if es != [] {
      var before, e := es[..|es| - 1], es[|es| - 1];
      SessionWritten(s, before);
      WithoutSwitch(s, before);
      StateFromHistory(s, before);
      EmittedFromHistory(s, before, e);
    }
  }

  /**
   Every S1 in binary mode and every OB opens a session: the bytes up to the next switch are a capture file
   with exactly one record for each frame that matches the filters in force when it is heard, in order.
   */
  lemma SessionRecordsHeard(s: State, argument: string, op: string, es: seq<Event>)
    requires ValidEvents(es) && NoSwitch(es) && |argument| <= ARGUMENT_SIZE
    requires op == "OB" || (op == "S1" && s.binary)
    ensures ValidEvents([Command(op, argument)] + es)
    ensures var rs, line := SessionRecords(s.addr1, s.addr2, es), BytesOf(Written(s, [Command(op, argument)] + es));
            line == EncodeFile(HEADER, rs) && ReadFile(line) == Some(Pcap.Capture(HEADER, rs, []))
  {
    var e := Command(op, argument);
    assert Next(s, e).start && Next(s, e).binary && Next(s, e).addr1 == s.addr1 && Next(s, e).addr2 == s.addr2;
    assert WritesHeader(s, e) && ValidEvent(e);
    hide Next, WritesHeader, BytesOf, Written, EncodeFile, ReadFile, SessionRecords, NoSwitch, ValidEvent;
    SessionReads(s, e, es);
    SessionWritten(Next(s, e), es);
    assert RecordsIn(Written(Next(s, e), es)) == SessionRecords(s.addr1, s.addr2, es);
  }

  /** The first bytes on the line of a session. */
  lemma HeaderLiteral()
    ensures EncodeFileHeader(HEADER) == [0xd4, 0xc3, 0xb2, 0xa1, 2, 0, 4, 0] + seq(8, i => 0) + [0xc4, 9, 0, 0, 105, 0, 0, 0]
  {
  }
}
