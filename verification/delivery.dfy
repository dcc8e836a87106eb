/** What a client can read from its socket, over whole runs of the capture pipeline. */
module Delivery {
  import opened Sequences
  import opened Pcap
  import opened Capture
  import opened FilterTraces
  import opened Nvs
  import opened FilterStore
  import opened Pipeline
  import opened PipelineRuns
  import opened GuardedRuns

  predicate AllValid(cfg: Config, frames: seq<Arrival>) {
    forall i :: 0 <= i < |frames| ==> ValidArrival(cfg, frames[i])
  }

  /** The pcap records of a list of frames. */
  function WireRecords(cfg: Config, frames: seq<Arrival>): (rs: seq<Record>)
    requires AllValid(cfg, frames)
    ensures |rs| == |frames| && AllEncodable(rs)
  {
    if frames == [] then []
    else
      var n := |frames| - 1;
      WireRecords(cfg, frames[..n]) + [WireRecord(cfg.snaplen, WithoutFcs(frames[n].pkt))]
  }

  /** The frames the driver delivers in a run, in order. */
  function Arrivals(es: seq<Event>): seq<Arrival> {
    if es == [] then []
    else Arrivals(es[..|es| - 1]) + (if es[|es| - 1].Frame? then [es[|es| - 1].a] else [])
  }

  function PassedFrames(passed: seq<Passed>): (frames: seq<Arrival>)
    ensures |frames| == |passed| && forall i :: 0 <= i < |frames| ==> frames[i] == passed[i].a
  {
    seq(|passed|, i requires 0 <= i < |passed| => passed[i].a)
  }

  // ---- From the history of writes to the bytes ----

  /** A framed history of writes is, byte for byte, a capture file. */
  lemma {:induction false} FramedIsFile(cfg: Config, chunks: seq<Chunk>, frames: seq<Arrival>)
    requires Framed(chunks) && chunks != [] && AllValid(cfg, frames)
    requires |frames| == |RecordsOf(chunks)|
    requires forall i :: 0 <= i < |frames| ==> RecordsOf(chunks)[i] == BuildRec(cfg, frames[i])
    ensures ClientBytes(cfg, chunks) == EncodeFile(FileHeaderOf(cfg.snaplen), WireRecords(cfg, frames))
    decreases |chunks|
  {
    hide BuildRec, ValidArrival, EncodeFileHeader, EncodeRecord, SentBytes, Sendable, Encodable, WireRecords, RecordsOf;
    var n := |chunks| - 1;
    if n == 0 {
      assert chunks[..0] == [];
      HeaderAlone(chunks);
      assert WireRecords(cfg, frames) == [];
    } else {
      var m := |frames| - 1;
      RecordsOfSnoc(chunks);
      FramedIsFile(cfg, chunks[..n], frames[..m]);
      BuiltIsWire(cfg, frames[m]);
      WireRecordsSnoc(cfg, frames);
      assert ClientBytes(cfg, chunks) == ClientBytes(cfg, chunks[..n]) + SentBytes(chunks[n].rec);
    }
  }

  lemma HeaderAlone(chunks: seq<Chunk>)
    requires |chunks| == 1 && chunks[0].HeaderChunk?
    ensures RecordsOf(chunks) == []
  {
    assert chunks[..0] == [];
  }

  lemma RecordsOfSnoc(chunks: seq<Chunk>)
    requires chunks != [] && chunks[|chunks| - 1].RecordChunk?
    ensures RecordsOf(chunks) == RecordsOf(chunks[..|chunks| - 1]) + [chunks[|chunks| - 1].rec]
  {
  }

  lemma WireRecordsSnoc(cfg: Config, frames: seq<Arrival>)
    requires AllValid(cfg, frames) && frames != []
    ensures var n := |frames| - 1;
            && Copyable(cfg.snaplen, WithoutFcs(frames[n].pkt))
            && Encodable(WireRecord(cfg.snaplen, WithoutFcs(frames[n].pkt)))
            && EncodeRecords(WireRecords(cfg, frames)) ==
               EncodeRecords(WireRecords(cfg, frames[..n])) + EncodeRecord(WireRecord(cfg.snaplen, WithoutFcs(frames[n].pkt)))
  {
    hide EncodeRecord, ValidArrival, WireRecord;
    var n := |frames| - 1;
    ArrivalDeliverable(cfg, frames[n]);
    var w := WireRecord(cfg.snaplen, WithoutFcs(frames[n].pkt));
    OneRecordEncoded(w);
    EncodeRecordsConcat(WireRecords(cfg, frames[..n]), [w]);
  }

  lemma BuiltIsWire(cfg: Config, a: Arrival)
    requires ValidArrival(cfg, a)
    ensures Copyable(cfg.snaplen, WithoutFcs(a.pkt))
    ensures Encodable(WireRecord(cfg.snaplen, WithoutFcs(a.pkt)))
    ensures SentBytes(BuildRec(cfg, a)) == EncodeRecord(WireRecord(cfg.snaplen, WithoutFcs(a.pkt)))
  {
    SentIsWireRecord(cfg.snaplen, WithoutFcs(a.pkt));
  }

  // ---- Subsequences ----

  lemma {:induction false} DeliveredPart(clients: seq<seq<Chunk>>, c: nat)
    requires c < |clients|
    ensures Subsequence(RecordsOf(clients[c]), Delivered(clients))
    decreases |clients|
  {
    hide RecordsOf;
    var n := |clients| - 1;
    var before, last := Delivered(clients[..n]), RecordsOf(clients[n]);
    if c == n {
      SubsequenceOmit([], before, last);
      assert [] + last == last && [] + before + last == before + last;
    } else {
      DeliveredPart(clients[..n], c);
      SubsequenceOmit(before, last, []);
      assert before + [] == before && before + last + [] == before + last;
      SubsequenceTrans(RecordsOf(clients[c]), before, before + last);
    }
  }

  lemma {:induction false} BuiltAt(passed: seq<Passed>, i: nat)
    requires i < |passed|
    ensures |Built(passed)| == |passed| && Built(passed)[i] == passed[i].rec
    decreases |passed|
  {
    var n := |passed| - 1;
    if i < n {
      BuiltAt(passed[..n], i);
    } else if n > 0 {
      BuiltAt(passed[..n], 0);
    }
  }

  /** In an orderly state each client's records are, in order, among the records built. */
  lemma ClientInOrder(s: State, c: nat)
    requires InOrder(s) && c < |s.log.clients|
    ensures Subsequence(RecordsOf(s.log.clients[c]), Built(s.log.passed))
  {
    hide RecordsOf, Delivered, Built, Held;
    var d, rest := Delivered(s.log.clients), Held(s.dev.tasks) + s.dev.queue;
    DeliveredPart(s.log.clients, c);
    SubsequenceOmit(d, rest, []);
    assert d + [] == d && d + rest + [] == d + Held(s.dev.tasks) + s.dev.queue;
    SubsequenceTrans(RecordsOf(s.log.clients[c]), d, d + rest + []);
    SubsequenceTrans(RecordsOf(s.log.clients[c]), d + rest + [], Built(s.log.passed));
  }

  /** The frames behind a client's records, in order. */
  lemma FramesOfClient(cfg: Config, s: State, c: nat) returns (frames: seq<Arrival>)
    requires Consistent(cfg, s) && InOrder(s) && c < |s.log.clients|
    ensures AllValid(cfg, frames) && |frames| == |RecordsOf(s.log.clients[c])|
    ensures forall i :: 0 <= i < |frames| ==> RecordsOf(s.log.clients[c])[i] == BuildRec(cfg, frames[i])
    ensures Subsequence(frames, PassedFrames(s.log.passed))
  {
    hide RecordsOf, Built, BuildRec, ValidArrival, Passes, Conserved, InStep, StreamsAreChunks;
    var rs, passed := RecordsOf(s.log.clients[c]), s.log.passed;
    ClientInOrder(s, c);
    var f := SubsequenceEmbeds(rs, Built(passed));
    if |passed| > 0 {
      BuiltAt(passed, 0);
    }
    assert |rs| > 0 ==> |passed| > 0 by {
      if |rs| > 0 && |passed| == 0 {
        assert f[0] < |Built(passed)|;
        EmptyBuilt();
      }
    }
    frames := seq(|rs|, i requires 0 <= i < |rs| => if f[i] < |passed| then passed[f[i]].a else passed[0].a);
    forall i | 0 <= i < |frames|
      ensures f[i] < |passed| && ValidArrival(cfg, frames[i]) && rs[i] == BuildRec(cfg, frames[i])
    {
      BuiltAt(passed, f[i]);
      assert Justified(cfg, passed[f[i]]);
    }
    EmbeddingIsSubsequence(f, frames, PassedFrames(passed));
  }

  lemma EmptyBuilt()
    ensures Built([]) == []
  {
  }

  lemma {:induction false} PassedAreArrivals(cfg: Config, fl: Flash, es: seq<Event>)
    requires FitsFilters(fl) && ValidEvents(cfg, es)
    ensures Subsequence(PassedFrames(Run(cfg, fl, es).log.passed), Arrivals(es))
    decreases |es|
  {
    if es != [] {
      hide Step, ValidEvent, FitsFilters, PassedFrames;
      var n := |es| - 1;
      PassedAreArrivals(cfg, fl, es[..n]);
      var s := Run(cfg, fl, es[..n]);
      StepPassed(cfg, s, es[n]);
      if es[n].Frame? {
        SubsequenceSnoc(PassedFrames(s.log.passed), Arrivals(es[..n]), es[n].a);
      } else {
        assert Arrivals(es) == Arrivals(es[..n]);
      }
    }
  }

  /** A step adds to the frames that passed at most the frame it delivers. */
  lemma StepPassed(cfg: Config, s: State, e: Event)
    requires WellFormed(s) && ValidEvent(cfg, e)
    ensures var before, after := PassedFrames(s.log.passed), PassedFrames(Step(cfg, s, e).log.passed);
            after == before || (e.Frame? && after == before + [e.a])
  {
    hide BuildRec, ValidArrival, Passes, FitsFilters, ChunkBytes, Held, InitConfig, Apply;
  }

  lemma {:induction false} WireRecordsAt(cfg: Config, frames: seq<Arrival>, i: nat)
    requires AllValid(cfg, frames) && i < |frames|
    ensures Copyable(cfg.snaplen, WithoutFcs(frames[i].pkt))
    ensures WireRecords(cfg, frames)[i] == WireRecord(cfg.snaplen, WithoutFcs(frames[i].pkt))
    decreases |frames|
  {
    hide ValidArrival, WireRecord;
    assert Copyable(cfg.snaplen, WithoutFcs(frames[i].pkt)) by { ArrivalDeliverable(cfg, frames[i]); }
    if i < |frames| - 1 {
      WireRecordsAt(cfg, frames[..|frames| - 1], i);
    }
  }

  lemma WireRecordsOfFrames(cfg: Config, frames: seq<Arrival>)
    requires AllValid(cfg, frames)
    ensures forall i :: 0 <= i < |frames| ==> RecordsFrame(cfg.snaplen, WireRecords(cfg, frames)[i], frames[i].pkt)
  {
    hide ValidArrival, WireRecord, WireRecords, RecordsFrame;
    forall i | 0 <= i < |frames| ensures RecordsFrame(cfg.snaplen, WireRecords(cfg, frames)[i], frames[i].pkt) {
      WireRecordsAt(cfg, frames, i);
      WireRecordOfFrame(cfg.snaplen, frames[i].pkt);
    }
  }

  // ---- The main theorem ----

  /**
   In every guarded run, whatever fails and whenever the device restarts: a client's bytes are nothing, or
   a capture file that a pcap reader reads to the end as the records of some of the frames that arrived and
   passed the filter, in the order of their arrival.
   */
  lemma ClientReadsPassedFrames(cfg: Config, fl: Flash, es: seq<Event>, c: nat) returns (frames: seq<Arrival>)
    requires FitsFilters(fl) && ValidEvents(cfg, es) && Guarded(cfg, fl, es)
    requires c < |Run(cfg, fl, es).log.clients|
    ensures AllValid(cfg, frames)
    ensures Subsequence(frames, PassedFrames(Run(cfg, fl, es).log.passed)) && Subsequence(frames, Arrivals(es))
    ensures var bs := Run(cfg, fl, es).dev.streams[c];
            || (bs == [] && frames == [])
            || ReadFile(bs) == Some(Capture(FileHeaderOf(cfg.snaplen), WireRecords(cfg, frames), []))
    ensures forall i :: 0 <= i < |frames| ==> RecordsFrame(cfg.snaplen, WireRecords(cfg, frames)[i], frames[i].pkt)
  {
    hide InOrder, Conserved, InStep, Justified, Run, Framed, ClientBytes, RecordsOf, ValidArrival, SingleTask, HeaderInTime;
    RunConsistent(cfg, fl, es);
    RunOrderly(cfg, fl, es);
    var s := Run(cfg, fl, es);
    frames := FramesOfClient(cfg, s, c);
    WireRecordsOfFrames(cfg, frames);
    PassedAreArrivals(cfg, fl, es);
    SubsequenceTrans(frames, PassedFrames(s.log.passed), Arrivals(es));
    var chunks := s.log.clients[c];
    if chunks == [] {
      EmptyClient(cfg);
      NoRecords();
    } else {
      FramedIsFile(cfg, chunks, frames);
      hide EncodeFile, ReadFile;
      FileReadBack(FileHeaderOf(cfg.snaplen), WireRecords(cfg, frames));
    }
  }

  lemma NoRecords()
    ensures RecordsOf([]) == []
  {
  }

  // ---- Time order ----

  predicate TimesAscend(frames: seq<Arrival>) {
    forall i, j :: 0 <= i < j < |frames| ==> frames[i].pkt.rx.timestamp <= frames[j].pkt.rx.timestamp
  }

  predicate TimestampBefore(a: Record, b: Record) {
    a.tsSec < b.tsSec || (a.tsSec == b.tsSec && a.tsUsec <= b.tsUsec)
  }

  /** When the driver's clock does not run backwards, every client reads its records in time order. */
  lemma ClientReadsInTimeOrder(cfg: Config, fl: Flash, es: seq<Event>, c: nat, i: nat, j: nat) returns (rs: seq<Record>)
    requires FitsFilters(fl) && ValidEvents(cfg, es) && Guarded(cfg, fl, es)
    requires c < |Run(cfg, fl, es).log.clients| && TimesAscend(Arrivals(es))
    ensures var bs := Run(cfg, fl, es).dev.streams[c];
            bs != [] ==> ReadFile(bs) == Some(Capture(FileHeaderOf(cfg.snaplen), rs, []))
    ensures i < j < |rs| ==> TimestampBefore(rs[i], rs[j]) && rs[i].tsUsec < 1_000_000
  {
    hide Run, ReadFile, ValidEvents, Guarded, WireRecords, ValidArrival;
    var frames := ClientReadsPassedFrames(cfg, fl, es, c);
    rs := WireRecords(cfg, frames);
    if i < j < |rs| {
      WireRecordsAt(cfg, frames, i);
      WireRecordsAt(cfg, frames, j);
      var f := SubsequenceEmbeds(frames, Arrivals(es));
      assert f[i] < f[j];
      assert frames[i].pkt.rx.timestamp <= frames[j].pkt.rx.timestamp;
    }
  }

  // ---- When the condition is needed ----

  ghost predicate AtMostOneTask(s: State) {
    forall t: nat, u: nat :: Live(s, t) && Live(s, u) ==> t == u
  }

  predicate TasksCreated(es: seq<Event>) {
    forall i :: 0 <= i < |es| ==> !es[i].Start? && (es[i].Accept? ==> es[i].taskCreated)
  }

  /** When every accept gets its task, a connected client is served by a live task. */
  ghost predicate Served(s: State) {
    s.dev.sock.Some? ==> s.dev.handle.Some? && Live(s, s.dev.handle.value)
  }

  lemma StepServed(cfg: Config, s: State, e: Event)
    requires WellFormed(s) && ValidEvent(cfg, e) && Served(s)
    requires SingleTask(s) && !e.Start? && (e.Accept? ==> e.taskCreated)
    ensures Served(Step(cfg, s, e))
  {
    match e
    case Frame(a) =>
      hide StepFrame, ValidArrival, FitsFilters;
      FrameTouchesQueueOnly(cfg, s, a);
    case _ => hide ChunkBytes, FitsFilters, InitConfig, Apply, Held;
  }

  lemma {:induction false} RunServed(cfg: Config, fl: Flash, es: seq<Event>)
    requires FitsFilters(fl) && ValidEvents(cfg, es) && Guarded(cfg, fl, es) && TasksCreated(es)
    ensures Served(Run(cfg, fl, es))
    decreases |es|
  {
    if es != [] {
      hide Step, FitsFilters, ValidEvent, Served, Live, InOrder;
      var n := |es| - 1;
      RunServed(cfg, fl, es[..n]);
      RunOrderly(cfg, fl, es[..n]);
      StepServed(cfg, Run(cfg, fl, es[..n]), es[n]);
    }
  }

  lemma GuardedHasOneTask(cfg: Config, fl: Flash, es: seq<Event>)
    requires FitsFilters(fl) && ValidEvents(cfg, es) && Guarded(cfg, fl, es)
    ensures AtMostOneTask(Run(cfg, fl, es))
  {
    hide Run, Live, InOrder;
    RunOrderly(cfg, fl, es);
  }

  lemma {:induction false} GuardedPrefix(cfg: Config, fl: Flash, es: seq<Event>, n: nat)
    requires FitsFilters(fl) && ValidEvents(cfg, es) && Guarded(cfg, fl, es) && n <= |es|
    ensures Guarded(cfg, fl, es[..n])
    decreases |es|
  {
    if n < |es| {
      assert es[..|es| - 1][..n] == es[..n];
      GuardedPrefix(cfg, fl, es[..|es| - 1], n);
    } else {
      assert es[..n] == es;
    }
  }

  /** An accept while a client is served makes a second live task. */
  lemma OverlapMakesTwo(cfg: Config, s: State)
    requires WellFormed(s) && Served(s) && s.dev.sock.Some?
    ensures !AtMostOneTask(Step(cfg, s, Accept(true)))
  {
    var s' := Step(cfg, s, Accept(true));
    assert Live(s', s.dev.handle.value) && Live(s', |s.dev.tasks|);
  }

  /** Every state a run goes through has at most one live task. */
  ghost predicate AlwaysOneTask(cfg: Config, fl: Flash, es: seq<Event>)
    requires FitsFilters(fl) && ValidEvents(cfg, es)
  {
    forall n :: 0 <= n <= |es| ==> AtMostOneTask(Run(cfg, fl, es[..n]))
  }

  lemma {:induction false} OneTaskNeedsGuard(cfg: Config, fl: Flash, es: seq<Event>)
    requires FitsFilters(fl) && ValidEvents(cfg, es) && TasksCreated(es) && AlwaysOneTask(cfg, fl, es)
    ensures Guarded(cfg, fl, es)
    decreases |es|
  {
    if es != [] {
      hide Step, FitsFilters, ValidEvent, Served, AtMostOneTask;
      var n := |es| - 1;
      assert forall k :: 0 <= k <= n ==> es[..n][..k] == es[..k];
      OneTaskNeedsGuard(cfg, fl, es[..n]);
      RunServed(cfg, fl, es[..n]);
      var s := Run(cfg, fl, es[..n]);
      assert AtMostOneTask(Run(cfg, fl, es)) by {
        assert es[..|es|] == es;
      }
      assert es[n].Accept? ==> es[n] == Accept(true);
      if es[n].Accept? && s.dev.sock.Some? {
        OverlapMakesTwo(cfg, s);
      }
    }
  }

  /** At most one task, at every point of a run, exactly when clients are accepted one at a time. */
  lemma OneTaskIffGuarded(cfg: Config, fl: Flash, es: seq<Event>)
    requires FitsFilters(fl) && ValidEvents(cfg, es) && TasksCreated(es)
    ensures AlwaysOneTask(cfg, fl, es) <==> Guarded(cfg, fl, es)
  {
    hide Run, FitsFilters, ValidEvent, AtMostOneTask;
    if Guarded(cfg, fl, es) {
      forall n | 0 <= n <= |es| ensures AtMostOneTask(Run(cfg, fl, es[..n])) {
        GuardedPrefix(cfg, fl, es, n);
        GuardedHasOneTask(cfg, fl, es[..n]);
      }
    }
    if AlwaysOneTask(cfg, fl, es) {
      OneTaskNeedsGuard(cfg, fl, es);
    }
  }
}
