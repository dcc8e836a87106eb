/** The Arduino byte stream over any interleaving of commands and frames. */
module ArduinoRuns {
  import opened Bytes
  import opened Sequences
  import opened Pcap
  import opened Capture
  import opened Frames
  import opened HexText
  import opened Arduino
  import Forwarder

  predicate ValidEvents(es: seq<Event>) {
    forall i :: 0 <= i < |es| ==> ValidEvent(es[i])
  }

  function After(s: State, es: seq<Event>): State
    requires ValidEvents(es)
    decreases |es|
  {
    if es == [] then s else Next(After(s, es[..|es| - 1]), es[|es| - 1])
  }

  /** Everything written in a run, in order. */
  function Written(s: State, es: seq<Event>): (cs: seq<Chunk>)
    requires ValidEvents(es)
    ensures AllRecordsEncodable(cs)
    decreases |es|
  {
    if es == [] then []
    else Written(s, es[..|es| - 1]) + Emitted(After(s, es[..|es| - 1]), es[|es| - 1])
  }

  lemma {:induction false} RunConcat(s: State, a: seq<Event>, b: seq<Event>)
    requires ValidEvents(a) && ValidEvents(b)
    ensures After(s, a + b) == After(After(s, a), b)
    ensures Written(s, a + b) == Written(s, a) + Written(After(s, a), b)
    decreases |b|
  {
    hide ValidEvent, Next, Emitted;
    if b == [] {
      assert a + b == a;
    } else {
      var n := |b| - 1;
      assert (a + b)[..|a + b| - 1] == a + b[..n];
      RunConcat(s, a, b[..n]);
    }
  }

  // ---- From chunks to bytes ----

  lemma {:induction false} BytesOfConcat(a: seq<Chunk>, b: seq<Chunk>)
    requires AllRecordsEncodable(a) && AllRecordsEncodable(b)
    ensures BytesOf(a + b) == BytesOf(a) + BytesOf(b)
    decreases |a|
  {
    hide ChunkBytes, Encodable;
    if a == [] {
      assert a + b == b;
    } else {
      assert (a + b)[1..] == a[1..] + b;
      BytesOfConcat(a[1..], b);
    }
  }

  predicate RecordsOnly(cs: seq<Chunk>) {
    forall i :: 0 <= i < |cs| ==> cs[i].RecordChunk?
  }

  function RecordsIn(cs: seq<Chunk>): (rs: seq<Record>)
    requires RecordsOnly(cs) && AllRecordsEncodable(cs)
    ensures |rs| == |cs| && (forall i :: 0 <= i < |rs| ==> rs[i] == cs[i].r) && AllEncodable(rs)
  {
    seq(|cs|, i requires 0 <= i < |cs| => cs[i].r)
  }

  lemma {:induction false} RecordsOnlyBytes(cs: seq<Chunk>)
    requires RecordsOnly(cs) && AllRecordsEncodable(cs)
    ensures BytesOf(cs) == EncodeRecords(RecordsIn(cs))
    decreases |cs|
  {
    hide Encodable, EncodeRecord;
    if cs != [] {
      RecordsOnlyBytes(cs[1..]);
      assert RecordsIn(cs)[1..] == RecordsIn(cs[1..]);
    }
  }

  // ---- Switching ----

  /** The commands that start, stop or redirect the output. */
  predicate IsSwitch(e: Event) {
    e.Command? && e.op in {"S0", "S1", "OT", "OB"}
  }

  predicate NoSwitch(es: seq<Event>) {
    forall i :: 0 <= i < |es| ==> !IsSwitch(es[i])
  }

  lemma {:induction false} WithoutSwitch(s: State, es: seq<Event>)
    requires ValidEvents(es) && NoSwitch(es)
    ensures After(s, es).start == s.start && After(s, es).binary == s.binary
    ensures RecordsOnly(Written(s, es))
    ensures !s.start || !s.binary ==> Written(s, es) == []
    decreases |es|
  {
    hide ArgumentFilter, ValidHeard, IsAddrEqual, RecordOf;
    if es != [] {
      WithoutSwitch(s, es[..|es| - 1]);
    }
  }

  /** Between S0 and the next start command nothing is written. */
  lemma SilentAfterStop(s: State, before: seq<Event>, argument: string, es: seq<Event>)
    requires ValidEvents(before) && ValidEvent(Command("S0", argument)) && ValidEvents(es) && NoSwitch(es)
    ensures ValidEvents(before + [Command("S0", argument)] + es)
    ensures Written(s, before + [Command("S0", argument)] + es) == Written(s, before)
  {
    hide ValidEvent, ArgumentFilter;
    var stop := Command("S0", argument);
    var s1 := After(s, before);
    OneEvent(s1, stop);
    RunConcat(s, before, [stop]);
    RunConcat(s, before + [stop], es);
    WithoutSwitch(Next(s1, stop), es);
    assert Written(s, before) + [] + [] == Written(s, before);
  }

  lemma OneEvent(s: State, e: Event)
    requires ValidEvent(e)
    ensures ValidEvents([e]) && After(s, [e]) == Next(s, e) && Written(s, [e]) == Emitted(s, e)
  {
    hide ValidEvent, Next, Emitted;
    assert [e][..0] == [];
  }

  /** A session: from an event that writes a header up to the next switch the bytes are one whole capture file. */
  lemma SessionReads(s: State, e: Event, es: seq<Event>)
    requires ValidEvent(e) && ValidEvents(es) && WritesHeader(s, e) && NoSwitch(es)
    ensures ValidEvents([e] + es)
    ensures var body := Written(Next(s, e), es);
            && RecordsOnly(body)
            && BytesOf(Written(s, [e] + es)) == EncodeFile(HEADER, RecordsIn(body))
            && ReadFile(BytesOf(Written(s, [e] + es))) == Some(Pcap.Capture(HEADER, RecordsIn(body), []))
  {
    OneEvent(s, e);
    RunConcat(s, [e], es);
    WithoutSwitch(Next(s, e), es);
    var body := Written(Next(s, e), es);
    hide ValidEvent, Next, EncodeFileHeader, EncodeRecords, ReadFile, Written, After;
    assert Written(s, [e] + es) == [Arduino.HeaderChunk] + body;
    OneChunk(Arduino.HeaderChunk);
    BytesOfConcat([Arduino.HeaderChunk], body);
    RecordsOnlyBytes(body);
    FileReadBack(HEADER, RecordsIn(body));
  }

  /** A switch after which records are written has written the header. */
  lemma SwitchedOnWritesHeader(s: State, e: Event)
    requires ValidEvent(e) && IsSwitch(e) && Next(s, e).start && Next(s, e).binary
    ensures WritesHeader(s, e)
  {
  }

  lemma LastSwitchWroteHeader(s: State, before: seq<Event>, e: Event, between: seq<Event>)
    requires ValidEvents(before) && ValidEvent(e) && ValidEvents(between) && IsSwitch(e) && NoSwitch(between)
    requires After(s, before + [e] + between).start && After(s, before + [e] + between).binary
    ensures WritesHeader(After(s, before), e)
  {
    hide ValidEvent, Next, Emitted, IsSwitch, NoSwitch;
    OneEvent(After(s, before), e);
    RunConcat(s, before, [e]);
    RunConcat(s, before + [e], between);
    WithoutSwitch(Next(After(s, before), e), between);
    SwitchedOnWritesHeader(After(s, before), e);
  }

  /**
   Behind every record there is a header that belongs to it: the last switch before the record wrote it.
   The one exception is the time from power-on to the first switch, where the header was lost.
   */
  lemma RecordFollowsHeader(es: seq<Event>, j: nat) returns (i: int)
    requires ValidEvents(es) && j < |es| && es[j].Frame? && Recorded(After(BootState(), es[..j]), es[j].f)
    ensures -1 <= i < j && NoSwitch(es[i + 1..j])
    ensures i >= 0 ==> WritesHeader(After(BootState(), es[..i]), es[i])
    ensures i == -1 ==> NoSwitch(es[..j])
  {
    i := LastSwitch(es[..j]);
    hide ValidEvent, After, IsSwitch, IsAddrEqual;
    assert es[..j][i + 1..] == es[i + 1..j];
    if i >= 0 {
      assert es[..j] == es[..i] + [es[i]] + es[i + 1..j];
      LastSwitchWroteHeader(BootState(), es[..i], es[i], es[i + 1..j]);
    } else {
      assert es[0..j] == es[..j];
    }
  }

  lemma {:induction false} LastSwitch(es: seq<Event>) returns (i: int)
    ensures -1 <= i < |es| && NoSwitch(es[i + 1..])
    ensures i >= 0 ==> IsSwitch(es[i])
    decreases |es|
  {
    if es == [] {
      i := -1;
    } else if IsSwitch(es[|es| - 1]) {
      i := |es| - 1;
    } else {
      i := LastSwitch(es[..|es| - 1]);
      assert forall k :: i + 1 <= k < |es| - 1 ==> es[k] == es[..|es| - 1][i + 1..][k - i - 1];
    }
  }

  // ---- The whole stream from power-on ----

  predicate HeaderFirst(cs: seq<Chunk>) {
    cs == [] || cs[0].HeaderChunk?
  }

  predicate Matches(s: State, f: Heard)
    requires ValidHeard(f)
  {
    IsAddrEqual(f.pkt.payload[4..10], s.addr1) && IsAddrEqual(f.pkt.payload[10..16], s.addr2)
  }

  /** Frame j comes before any switch and passes the filters as F1 and F2 have set them. */
  predicate EarlyMatch(es: seq<Event>, j: nat)
    requires ValidEvents(es) && j < |es|
  {
    es[j].Frame? && NoSwitch(es[..j]) && Matches(After(BootState(), es[..j]), es[j].f)
  }

  predicate NoEarlyMatch(es: seq<Event>)
    requires ValidEvents(es)
  {
    forall j :: 0 <= j < |es| ==> !EarlyMatch(es, j)
  }

  lemma EarlyMatchPrefix(es: seq<Event>)
    requires ValidEvents(es) && es != []
    ensures NoEarlyMatch(es) <==> NoEarlyMatch(es[..|es| - 1]) && !EarlyMatch(es, |es| - 1)
  {
    hide After, NoSwitch, Matches, ValidEvent;
    var front := es[..|es| - 1];
    forall j | 0 <= j < |front| ensures EarlyMatch(front, j) <==> EarlyMatch(es, j) {
      assert front[..j] == es[..j];
    }
  }

  /** A header once written is in the history. */
  lemma HeaderIsWritten(s: State, es: seq<Event>, i: nat)
    requires ValidEvents(es) && i < |es| && WritesHeader(After(s, es[..i]), es[i])
    ensures Written(s, es) != []
  {
    hide ValidEvent, Next, Emitted, After, Written;
    assert es == es[..i] + [es[i]] + es[i + 1..];
    RunConcat(s, es[..i] + [es[i]], es[i + 1..]);
    RunConcat(s, es[..i], [es[i]]);
    OneEvent(After(s, es[..i]), es[i]);
    assert |Emitted(After(s, es[..i]), es[i])| == 1 by { HeaderEmitted(After(s, es[..i]), es[i]); }
  }

  lemma HeaderEmitted(s: State, e: Event)
    requires ValidEvent(e) && WritesHeader(s, e)
    ensures Emitted(s, e) == [Arduino.HeaderChunk]
  {
  }

  /** The stream from power-on starts with a header exactly when no frame passes the filters before the first switch. */
  lemma {:induction false} HeaderFirstIff(es: seq<Event>)
    requires ValidEvents(es)
    ensures HeaderFirst(Written(BootState(), es)) <==> NoEarlyMatch(es)
    decreases |es|
  {
    if es != [] {
      var n := |es| - 1;
      var e := es[n];
      var front := es[..n];
      var s := After(BootState(), front);
      HeaderFirstIff(front);
      EarlyMatchPrefix(es);
      if NoSwitch(front) {
        WithoutSwitch(BootState(), front);
      } else if e.Frame? && Recorded(s, e.f) {
        var i := RecordFollowsHeader(es, n);
        assert front[..i] == es[..i];
        HeaderIsWritten(BootState(), front, i);
      }
      hide ValidEvent, After, IsAddrEqual, RecordOf, NoSwitch, NoEarlyMatch;
    }
  }

  predicate SessionsEncodable(ss: seq<seq<Record>>) {
    forall k :: 0 <= k < |ss| ==> AllEncodable(ss[k])
  }

  /** The last session, one record longer. */
  function Extended(ss: seq<seq<Record>>, r: Record): (ss': seq<seq<Record>>)
    requires ss != [] && SessionsEncodable(ss) && Encodable(r)
    ensures SessionsEncodable(ss') && ss' != []
  {
    ss[..|ss| - 1] + [ss[|ss| - 1] + [r]]
  }

  /** The records of each session, in order. */
  function Sessions(cs: seq<Chunk>): (ss: seq<seq<Record>>)
    requires AllRecordsEncodable(cs) && HeaderFirst(cs)
    ensures SessionsEncodable(ss) && (cs != [] ==> ss != [])
    decreases |cs|
  {
    if cs == [] then []
    else
      var last := cs[|cs| - 1];
      var before := Sessions(cs[..|cs| - 1]);
      if last.HeaderChunk? then before + [[]] else Extended(before, last.r)
  }

  function FilesOf(ss: seq<seq<Record>>): seq<byte>
    requires SessionsEncodable(ss)
  {
    if ss == [] then [] else FilesOf(ss[..|ss| - 1]) + EncodeFile(HEADER, ss[|ss| - 1])
  }

  lemma HeaderStartsFile(ss: seq<seq<Record>>)
    requires SessionsEncodable(ss)
    ensures SessionsEncodable(ss + [[]]) && FilesOf(ss + [[]]) == FilesOf(ss) + EncodeFileHeader(HEADER)
  {
    hide EncodeFileHeader;
    assert (ss + [[]])[..|ss|] == ss;
    assert EncodeFile(HEADER, []) == EncodeFileHeader(HEADER);
  }

  lemma RecordExtendsFile(ss: seq<seq<Record>>, r: Record)
    requires ss != [] && SessionsEncodable(ss) && Encodable(r)
    ensures FilesOf(Extended(ss, r)) == FilesOf(ss) + EncodeRecord(r)
  {
    hide EncodeFileHeader, EncodeRecord, Encodable;
    var m := |ss| - 1;
    assert Extended(ss, r)[..m] == ss[..m] && Extended(ss, r)[m] == ss[m] + [r];
    OneRecordEncoded(r);
    EncodeRecordsConcat(ss[m], [r]);
    assert EncodeFile(HEADER, ss[m] + [r]) == EncodeFile(HEADER, ss[m]) + EncodeRecord(r);
  }

  lemma {:induction false} HeaderFirstIsFiles(cs: seq<Chunk>)
    requires AllRecordsEncodable(cs) && HeaderFirst(cs)
    ensures BytesOf(cs) == FilesOf(Sessions(cs))
    decreases |cs|
  {
    hide EncodeFileHeader, EncodeRecord, Encodable, Extended, FilesOf, BytesOf;
    if cs == [] {
      NoFiles();
    } else {
      var front, last := cs[..|cs| - 1], cs[|cs| - 1];
      HeaderFirstIsFiles(front);
      assert cs == front + [last];
      BytesOfConcat(front, [last]);
      OneChunk(last);
      if last.HeaderChunk? {
        HeaderStartsFile(Sessions(front));
      } else {
        RecordExtendsFile(Sessions(front), last.r);
      }
    }
  }

  lemma NoFiles()
    ensures BytesOf([]) == [] && FilesOf([]) == []
  {
  }

  /** While stopped or in text mode, the next thing to go onto the line is a header. */
  lemma {:induction false} QuietStartsWithHeader(s: State, es: seq<Event>)
    requires ValidEvents(es) && !(s.start && s.binary)
    ensures HeaderFirst(Written(s, es))
    ensures Written(s, es) == [] ==> !(After(s, es).start && After(s, es).binary)
    decreases |es|
  {
    hide ArgumentFilter, ValidHeard, IsAddrEqual, RecordOf;
    if es != [] {
      QuietStartsWithHeader(s, es[..|es| - 1]);
    }
  }

  /**
   From any switch on, S1 and OB among them, whatever went onto the line before and in whatever way commands
   and frames follow, the bytes are a sequence of capture files.
   */
  lemma StreamFromSwitchIsFiles(s: State, e: Event, es: seq<Event>)
    requires ValidEvent(e) && ValidEvents(es) && IsSwitch(e)
    ensures ValidEvents([e] + es)
    ensures var cs := Written(s, [e] + es);
            && HeaderFirst(cs) && (WritesHeader(s, e) ==> cs != [])
            && BytesOf(cs) == FilesOf(Sessions(cs))
  {
    hide ValidEvent, Next, Emitted, WritesHeader, IsSwitch, After, Written, BytesOf, FilesOf, Sessions;
    OneEvent(s, e);
    RunConcat(s, [e], es);
    if WritesHeader(s, e) {
      HeaderEmitted(s, e);
    } else {
      assert !(Next(s, e).start && Next(s, e).binary) by {
        if Next(s, e).start && Next(s, e).binary {
          SwitchedOnWritesHeader(s, e);
        }
      }
      SwitchEmitsHeaderOnly(s, e);
      assert [] + Written(Next(s, e), es) == Written(Next(s, e), es);
      QuietStartsWithHeader(Next(s, e), es);
    }
    HeaderFirstIsFiles(Written(s, [e] + es));
  }

  lemma SwitchEmitsHeaderOnly(s: State, e: Event)
    requires ValidEvent(e) && IsSwitch(e) && !WritesHeader(s, e)
    ensures Emitted(s, e) == []
  {
  }

  /** The place of the first switch, or the end. */
  function FirstSwitch(es: seq<Event>): (n: nat)
    ensures n <= |es| && NoSwitch(es[..n]) && (n < |es| ==> IsSwitch(es[n]))
  {
    if es == [] || IsSwitch(es[0]) then 0
    else
      var n := FirstSwitch(es[1..]);
      assert forall k :: 1 <= k < n + 1 ==> es[k] == es[1..][..n][k - 1];
      1 + n
  }

  /**
   The whole stream of any run from power-on: the records of frames that passed before the first switch, with
   no header, and then a sequence of capture files. The first part is empty exactly when no frame slipped out.
   */
  lemma StreamIsFiles(es: seq<Event>)
    requires ValidEvents(es)
    ensures var n := FirstSwitch(es);
            var early, rest := Written(BootState(), es[..n]), Written(After(BootState(), es[..n]), es[n..]);
            && RecordsOnly(early) && HeaderFirst(rest)
            && BytesOf(Written(BootState(), es)) == EncodeRecords(RecordsIn(early)) + FilesOf(Sessions(rest))
            && (early == [] <==> NoEarlyMatch(es))
    ensures NoEarlyMatch(es) ==>
              && HeaderFirst(Written(BootState(), es))
              && BytesOf(Written(BootState(), es)) == FilesOf(Sessions(Written(BootState(), es)))
  {
    var n := FirstSwitch(es);
    var s := After(BootState(), es[..n]);
    var early, rest := Written(BootState(), es[..n]), Written(s, es[n..]);
    hide ValidEvent, IsSwitch, After, Written, BytesOf, FilesOf, Sessions, NoEarlyMatch, NoSwitch, EncodeRecords;
    SplitAtSwitch(es, n);
    BytesOfConcat(early, rest);
    RecordsOnlyBytes(early);
    HeaderFirstIsFiles(rest);
    HeaderFirstIff(es);
    if early == [] {
      assert early + rest == rest;
    } else {
      assert (early + rest)[0] == early[0];
    }
    if NoEarlyMatch(es) {
      HeaderFirstIsFiles(Written(BootState(), es));
    }
  }

  lemma SplitAtSwitch(es: seq<Event>, n: nat)
    requires ValidEvents(es) && n <= |es| && NoSwitch(es[..n]) && (n < |es| ==> IsSwitch(es[n]))
    ensures var early, rest := Written(BootState(), es[..n]), Written(After(BootState(), es[..n]), es[n..]);
            RecordsOnly(early) && HeaderFirst(rest) && Written(BootState(), es) == early + rest
  {
    hide ValidEvent, IsSwitch, After, Written, BytesOf, FilesOf, Sessions, NoSwitch;
    WithoutSwitch(BootState(), es[..n]);
    assert es == es[..n] + es[n..];
    RunConcat(BootState(), es[..n], es[n..]);
    if n < |es| {
      assert es[n..] == [es[n]] + es[n + 1..];
      StreamFromSwitchIsFiles(After(BootState(), es[..n]), es[n], es[n + 1..]);
    } else {
      NothingWritten(After(BootState(), es[..n]), es[n..]);
    }
  }

  lemma NothingWritten(s: State, es: seq<Event>)
    requires es == []
    ensures Written(s, es) == []
  {
  }

  // ---- What can go wrong ----

  /** A 16-byte data frame from 00:0C:CC:00:00:01, the prefix the addr2 filter starts with. */
  const LOCAL_FRAME: Heard := Heard(
    false, Packet(RxCtrl(0, 0, 0, 1, 0, 16, 0), [8, 0, 0, 0, 255, 255, 255, 255, 255, 255, 0x00, 0x0C, 0xCC, 0, 0, 1]), 0, 0)
  const LOCAL_RECORD: Record := Record(0, 0, 16, LOCAL_FRAME.pkt.payload)

  lemma LocalFrameIsRecorded()
    ensures ValidEvent(Frame(LOCAL_FRAME)) && Recorded(BootState(), LOCAL_FRAME) && RecordOf(LOCAL_FRAME) == LOCAL_RECORD
  {
    var p := LOCAL_FRAME.pkt.payload;
    assert p[10..16] == [0x00, 0x0C, 0xCC, 0, 0, 1];
    assert p[10..16][..3] == [0x00, 0x0C, 0xCC];
    assert p[..16] == p;
  }

  /** Heard first after power-on, it goes out without a header and no pcap reader opens the stream. */
  lemma LocalFrameBeforeHeader()
    ensures ValidEvents([Frame(LOCAL_FRAME)])
    ensures var cs := Written(BootState(), [Frame(LOCAL_FRAME)]);
            !HeaderFirst(cs) && ReadFile(BytesOf(cs)) == None
  {
    LocalFrameIsRecorded();
    OneEvent(BootState(), Frame(LOCAL_FRAME));
    hide Recorded, EncodeRecordHeader, ReadLe32, Written, After, Next, ValidEvent, RecordOf;
    OneChunk(RecordChunk(LOCAL_RECORD));
    RecordHeaderReadBack(0, 0, 16, 16, LOCAL_RECORD.data);
  }

  /** Heard after S1, it is the one record of a session of which the host forwards the header of the record only. */
  lemma LocalFrameLosesPayload()
    ensures var s1, heard := Command("S1", ""), Frame(LOCAL_FRAME);
            && ValidEvents([s1] + [heard])
            && BytesOf(Written(BootState(), [s1] + [heard])) == EncodeFile(HEADER, [LOCAL_RECORD])
    ensures !Forwarder.NoShortFrames([LOCAL_RECORD])
    ensures Forwarder.ForwardStream(EncodeFile(HEADER, [LOCAL_RECORD]), Forwarder.LittleEndian).out
         != EncodeFile(HEADER, Forwarder.FramesOf([LOCAL_RECORD]))
  {
    LocalFrameSession();
    LocalRecordIsShort();
    hide Recorded, EncodeFile, EncodeFileHeader, EncodeRecord, Written, After, BytesOf, Next, ValidEvent, RecordOf;
    hide Forwarder.ForwardStream, Forwarder.FramesOf, Forwarder.NoShortFrames;
    Forwarder.ForwardsExactlyFrames(HEADER, [LOCAL_RECORD]);
  }

  lemma LocalRecordIsShort()
    ensures !Forwarder.NoShortFrames([LOCAL_RECORD]) && Forwarder.JavaSized([LOCAL_RECORD])
  {
    assert LOCAL_RECORD in [LOCAL_RECORD];
  }

  lemma LocalFrameSession()
    ensures var s1, heard := Command("S1", ""), Frame(LOCAL_FRAME);
            && ValidEvents([s1] + [heard])
            && BytesOf(Written(BootState(), [s1] + [heard])) == EncodeFile(HEADER, [LOCAL_RECORD])
  {
    var s1, heard := Command("S1", ""), Frame(LOCAL_FRAME);
    LocalFrameIsRecorded();
    assert Next(BootState(), s1) == BootState();
    assert Emitted(BootState(), heard) == [RecordChunk(LOCAL_RECORD)];
    hide Recorded, EncodeFile, Written, After, BytesOf, Next, ValidEvent, RecordOf, Emitted;
    SessionReads(BootState(), s1, [heard]);
    OneEvent(BootState(), heard);
    assert RecordsIn([RecordChunk(LOCAL_RECORD)]) == [LOCAL_RECORD];
  }

  // ---- Filters ----

  /** The argument of e is a well-formed filter for the given command. */
  predicate SetsFilter(e: Event, op: string)
    requires ValidEvent(e)
  {
    e.Command? && e.op == op && ArgumentFilter(e.argument).Some?
  }

  function FilterNamed(s: State, op: string): AddrFilter {
    if op == "F1" then s.addr1 else s.addr2
  }

  /** After any run a filter is the last well-formed argument it was given, or still what it was. */
  lemma {:induction false} FilterIsLastArgument(s: State, es: seq<Event>, op: string) returns (i: int)
    requires ValidEvents(es) && op in {"F1", "F2"}
    ensures -1 <= i < |es| && forall k :: i < k < |es| ==> !SetsFilter(es[k], op)
    ensures i >= 0 ==> SetsFilter(es[i], op) && FilterNamed(After(s, es), op) == ArgumentFilter(es[i].argument).value
    ensures i == -1 ==> FilterNamed(After(s, es), op) == FilterNamed(s, op)
    decreases |es|
  {
    hide ArgumentFilter, ValidHeard;
    if es == [] {
      i := -1;
    } else if SetsFilter(es[|es| - 1], op) {
      i := |es| - 1;
    } else {
      i := FilterIsLastArgument(s, es[..|es| - 1], op);
    }
  }

  /** Which arguments are well-formed, and what they stand for. */
  lemma ArgumentMeaning(argument: string)
    requires |argument| <= ARGUMENT_SIZE
    ensures ArgumentFilter(argument).Some? <==>
            |argument| % 2 == 0 && forall i :: 0 <= i < |argument| ==> IsHex(argument[i])
    ensures ArgumentFilter(argument).Some? ==>
              var f := ArgumentFilter(argument).value;
              && 2 * f.size == |argument|
              && ParseHex(argument) == Some(f.addr[..f.size])
              && (f.size == 0 <==> argument == "")
  {
    ParsesIffHex(argument);
  }

  // ---- Through the host ----

  /**
   A session read by the host with the writer's byte order reaches the reader behind the pipe, every recorded
   frame that is not empty, if and only if none is shorter than the host's packet parser demands.
   */
  lemma SessionThroughHost(s: State, e: Event, es: seq<Event>)
    requires ValidEvent(e) && ValidEvents(es) && WritesHeader(s, e) && NoSwitch(es)
    ensures RecordsOnly(Written(Next(s, e), es)) && ValidEvents([e] + es)
    ensures var rs := RecordsIn(Written(Next(s, e), es));
            ReadFile(Forwarder.ForwardStream(BytesOf(Written(s, [e] + es)), Forwarder.LittleEndian).out)
            == Some(Pcap.Capture(HEADER, Forwarder.FramesOf(rs), []))
            <==> Forwarder.NoShortFrames(rs)
  {
    SessionReads(s, e, es);
    var rs := RecordsIn(Written(Next(s, e), es));
    RecordsAreShort(Next(s, e), es);
    hide ReadFile, Written, Next, Forwarder.ForwardStream, Forwarder.FramesOf, BytesOf, EncodeFile;
    Forwarder.ForwardedReadsBack(HEADER, rs);
  }

  lemma {:induction false} RecordsAreShort(s: State, es: seq<Event>)
    requires ValidEvents(es)
    ensures forall i :: 0 <= i < |Written(s, es)| && Written(s, es)[i].RecordChunk? ==> |Written(s, es)[i].r.data| <= SNAPLEN
    decreases |es|
  {
    hide WritesHeader, Next, IsAddrEqual;
    if es != [] {
      RecordsAreShort(s, es[..|es| - 1]);
    }
  }
}
