/** What every run of the capture pipeline keeps, with or without overlapping clients. */
module PipelineRuns {
  import opened Bytes
  import opened Capture
  import opened Frames
  import opened FilterTraces
  import opened Nvs
  import opened FilterStore
  import opened Pipeline

  // ---- The invariants ----

  /** Every record ever built is in exactly one place. */
  ghost predicate Conserved(s: State) {
    multiset(Built(s.log.passed)) ==
    multiset(s.log.dropped) + multiset(s.dev.queue) + multiset(Held(s.dev.tasks)) + multiset(Delivered(s.log.clients)) + multiset(s.log.lost)
  }

  /** Each client's bytes are whole headers and whole records, in the order of the writes. */
  ghost predicate StreamsAreChunks(cfg: Config, s: State)
    requires WellFormed(s)
  {
    forall c :: 0 <= c < |s.log.clients| ==> s.dev.streams[c] == ClientBytes(cfg, s.log.clients[c])
  }

  /** The history names real decisions: each entry passed the filter in force and got the record built from it. */
  ghost predicate Justified(cfg: Config, p: Passed) {
    && ValidArrival(cfg, p.a)
    && Passes(p.f, p.a)
    && p.f.own == cfg.own
    && p.rec == BuildRec(cfg, p.a)
  }

  ghost predicate Consistent(cfg: Config, s: State) {
    && WellFormed(s)
    && |s.dev.queue| <= cfg.capacity
    && InStep(s.dev.settings) && s.dev.settings.ram.own == cfg.own
    && StreamsAreChunks(cfg, s)
    && (forall i :: 0 <= i < |s.log.passed| ==> Justified(cfg, s.log.passed[i]))
    && Conserved(s)
  }

  // ---- Bookkeeping lemmas ----

  lemma {:induction false} HeldSplit(ts: seq<Phase>, t: nat)
    requires t < |ts|
    ensures Held(ts) == Held(ts[..t]) + HeldBy(ts[t]) + Held(ts[t + 1..])
    decreases |ts|
  {
    hide HeldBy;
    var n := |ts| - 1;
    if t == n {
      assert Held(ts[t + 1..]) == [];
    } else {
      var front, rest := ts[..n], ts[t + 1..];
      HeldSplit(front, t);
      assert front[..t] == ts[..t] && front[t + 1..] == rest[..|rest| - 1];
      assert Held(rest) == Held(front[t + 1..]) + HeldBy(ts[n]);
    }
  }

  lemma MultisetOfThree<T>(a: seq<T>, b: seq<T>, c: seq<T>)
    ensures multiset(a + b + c) == multiset(a) + multiset(b) + multiset(c)
  {
  }

  /** One task changes phase: what it held is gone from the held records, what it now holds is there. */
  lemma HeldUpdate(ts: seq<Phase>, t: nat, p: Phase)
    requires t < |ts|
    ensures !p.Holding? && !ts[t].Holding? ==> Held(ts[t := p]) == Held(ts)
    ensures p.Holding? && !ts[t].Holding? ==> multiset(Held(ts[t := p])) == multiset(Held(ts)) + multiset{p.rec}
    ensures !p.Holding? && ts[t].Holding? ==> multiset(Held(ts)) == multiset(Held(ts[t := p])) + multiset{ts[t].rec}
  {
    hide Held, Sendable;
    var after := ts[t := p];
    HeldSplit(ts, t);
    HeldSplit(after, t);
    assert after[..t] == ts[..t] && after[t + 1..] == ts[t + 1..];
    MultisetOfThree(Held(ts[..t]), HeldBy(ts[t]), Held(ts[t + 1..]));
    MultisetOfThree(Held(ts[..t]), HeldBy(p), Held(ts[t + 1..]));
  }

  lemma HeldSnoc(ts: seq<Phase>, p: Phase)
    ensures Held(ts + [p]) == Held(ts) + HeldBy(p)
  {
    assert (ts + [p])[..|ts|] == ts;
  }

  lemma {:induction false} HeldNone(ts: seq<Phase>)
    requires forall i :: 0 <= i < |ts| ==> !ts[i].Holding?
    ensures Held(ts) == []
    decreases |ts|
  {
    if ts != [] {
      HeldNone(ts[..|ts| - 1]);
    }
  }

  lemma DeliveredWrite(clients: seq<seq<Chunk>>, c: nat, chunk: Chunk)
    requires c + 1 == |clients|
    ensures Delivered(clients[c := clients[c] + [chunk]]) == Delivered(clients) + RecordOf(chunk)
  {
    var after := clients[c := clients[c] + [chunk]];
    assert after[..c] == clients[..c];
    assert (clients[c] + [chunk])[..|clients[c]|] == clients[c];
  }

  lemma DeliveredConnect(clients: seq<seq<Chunk>>)
    ensures Delivered(clients + [[]]) == Delivered(clients)
  {
    assert (clients + [[]])[..|clients|] == clients;
  }

  lemma BuiltSnoc(passed: seq<Passed>, p: Passed)
    ensures Built(passed + [p]) == Built(passed) + [p.rec]
  {
    assert (passed + [p])[..|passed|] == passed;
  }

  lemma ClientBytesSnoc(cfg: Config, chunks: seq<Chunk>, chunk: Chunk)
    ensures ClientBytes(cfg, chunks + [chunk]) == ClientBytes(cfg, chunks) + ChunkBytes(cfg, chunk)
  {
    assert (chunks + [chunk])[..|chunks|] == chunks;
  }

  // ---- Conservation, step by step ----

  lemma FrameConserves(cfg: Config, s: State, a: Arrival)
    requires ValidArrival(cfg, a) && Conserved(s)
    ensures Conserved(StepFrame(cfg, s, a))
  {
    hide Accepts, Readable, Copyable, CreateRecord, Held, Delivered, Built;
    if s.dev.promiscuous && Passes(s.dev.settings.ram, a) {
      BuiltSnoc(s.log.passed, Passed(a, BuildRec(cfg, a), s.dev.settings.ram));
    }
  }

  lemma StartConserves(s: State)
    requires Conserved(s)
    ensures Conserved(StepStart(s))
  {
    HeldSnoc(s.dev.tasks, Created);
  }

  lemma AcceptConserves(s: State, taskCreated: bool)
    requires Conserved(s)
    ensures Conserved(StepAccept(s, taskCreated))
  {
    DeliveredConnect(s.log.clients);
    var connected := StepAccept(s, false);
    StartConserves(connected);
  }

  /** Stopping moves what the stopped task held to the lost records. */
  lemma StopConserves(s: State, t: nat)
    requires t < |s.dev.tasks| && WellFormed(s) && Conserved(s)
    ensures Conserved(FailSend(s, t))
  {
    hide Held, Delivered, Built;
    var victim := if s.dev.handle.Some? then s.dev.handle.value else t;
    HeldUpdate(s.dev.tasks, victim, Deleted);
  }

  lemma WriteConserves(s: State, bs: seq<byte>, chunk: Chunk)
    requires WellFormed(s) && s.dev.sock.Some?
    requires multiset(Built(s.log.passed)) ==
             multiset(s.log.dropped) + multiset(s.dev.queue) + multiset(Held(s.dev.tasks))
             + multiset(Delivered(s.log.clients)) + multiset(s.log.lost) + multiset(RecordOf(chunk))
    ensures Conserved(Write(s, bs, chunk))
  {
    hide Held, Delivered, Built;
    DeliveredWrite(s.log.clients, s.dev.sock.value, chunk);
  }

  lemma OpenConserves(s: State, t: nat)
    requires Conserved(s)
    ensures Conserved(StepOpen(s, t))
  {
    hide Held, Delivered, Built;
    if Live(s, t) {
      HeldUpdate(s.dev.tasks, t, Opened);
    }
  }

  lemma SendHeaderConserves(cfg: Config, s: State, t: nat, ok: bool)
    requires WellFormed(s) && Conserved(s)
    ensures Conserved(StepSendHeader(cfg, s, t, ok))
  {
    hide Held, Delivered, Built, ChunkBytes, FailSend, Write;
    if Live(s, t) && s.dev.tasks[t].Opened? {
      HeldUpdate(s.dev.tasks, t, Idle);
      var running := SetPhase(s, t, Idle);
      assert Conserved(running);
      if s.dev.sock.Some? {
        if ok {
          WriteConserves(running, ChunkBytes(cfg, HeaderChunk), HeaderChunk);
        } else {
          StopConserves(running, t);
        }
      }
    }
  }

  lemma PopConserves(s: State, t: nat)
    requires Conserved(s)
    ensures Conserved(StepPop(s, t))
  {
    hide Held, Delivered, Built;
    if Live(s, t) && s.dev.tasks[t].Idle? && s.dev.queue != [] {
      HeldUpdate(s.dev.tasks, t, Holding(s.dev.queue[0]));
      assert s.dev.queue == [s.dev.queue[0]] + s.dev.queue[1..];
    }
  }

  lemma SendRecordConserves(cfg: Config, s: State, t: nat, ok: bool)
    requires WellFormed(s) && Conserved(s)
    ensures Conserved(StepSendRecord(cfg, s, t, ok))
  {
    hide Held, Delivered, Built, ChunkBytes, FailSend, Write;
    if Live(s, t) && s.dev.tasks[t].Holding? {
      var rec := s.dev.tasks[t].rec;
      HeldUpdate(s.dev.tasks, t, Idle);
      var idle := SetPhase(s, t, Idle);
      assert multiset([rec]) == multiset{rec};
      assert multiset(s.log.lost + [rec]) == multiset(s.log.lost) + multiset{rec};
      assert Conserved(Lose(idle, rec));
      if s.dev.sock.Some? && rec.header.origLen != 0 {
        if ok {
          WriteConserves(idle, ChunkBytes(cfg, RecordChunk(rec)), RecordChunk(rec));
        } else {
          StopConserves(Lose(idle, rec), t);
        }
      }
    }
  }

  lemma RebootConserves(cfg: Config, s: State)
    requires WellFormed(s) && Conserved(s)
    ensures Conserved(StepReboot(cfg, s))
  {
    hide Delivered, Built, Held;
    HeldNone(AllDeleted(s.dev.tasks));
  }

  lemma StepConserves(cfg: Config, s: State, e: Event)
    requires WellFormed(s) && ValidEvent(cfg, e) && Conserved(s)
    ensures Conserved(Step(cfg, s, e))
  {
    hide StepFrame, StepAccept, StepStart, StepOpen, StepSendHeader, StepPop, StepSendRecord, StepReboot, Held, Delivered, Built;
    match e
    case Frame(a) => FrameConserves(cfg, s, a);
    case Accept(taskCreated) => AcceptConserves(s, taskCreated);
    case Start => StartConserves(s);
    case Open(t) => OpenConserves(s, t);
    case SendHeader(t, ok) => SendHeaderConserves(cfg, s, t, ok);
    case Pop(t) => PopConserves(s, t);
    case SendRecord(t, ok) => SendRecordConserves(cfg, s, t, ok);
    case Configure(c) =>
    case Reboot => RebootConserves(cfg, s);
  }

  // ---- Streams, step by step ----

  lemma WriteKeepsStreams(cfg: Config, s: State, chunk: Chunk)
    requires WellFormed(s) && s.dev.sock.Some? && StreamsAreChunks(cfg, s)
    ensures StreamsAreChunks(cfg, Write(s, ChunkBytes(cfg, chunk), chunk))
  {
    ClientBytesSnoc(cfg, s.log.clients[s.dev.sock.value], chunk);
  }

  lemma StepKeepsStreams(cfg: Config, s: State, e: Event)
    requires WellFormed(s) && ValidEvent(cfg, e) && StreamsAreChunks(cfg, s)
    ensures StreamsAreChunks(cfg, Step(cfg, s, e))
  {
    hide ClientBytes, ChunkBytes, StepFrame, SentBytes, Held;
    match e
    case Frame(a) => FrameTouchesQueueOnly(cfg, s, a);
    case Accept(taskCreated) => assert ClientBytes(cfg, []) == [] by { EmptyClient(cfg); }
    case SendHeader(t, ok) =>
      if Live(s, t) && s.dev.sock.Some? {
        WriteKeepsStreams(cfg, SetPhase(s, t, Idle), HeaderChunk);
      }
    case SendRecord(t, ok) =>
      if Live(s, t) && s.dev.tasks[t].Holding? && s.dev.sock.Some? {
        WriteKeepsStreams(cfg, SetPhase(s, t, Idle), RecordChunk(s.dev.tasks[t].rec));
      }
    case _ =>
  }

  lemma EmptyClient(cfg: Config)
    ensures ClientBytes(cfg, []) == []
  {
  }

  /** An arriving frame changes the queue and the history of frames, and nothing else. */
  lemma FrameTouchesQueueOnly(cfg: Config, s: State, a: Arrival)
    requires ValidArrival(cfg, a)
    ensures var s' := StepFrame(cfg, s, a);
            && s'.dev == s.dev.(queue := s'.dev.queue)
            && s'.log == s.log.(passed := s'.log.passed, dropped := s'.log.dropped)
  {
  }

  // ---- The rest of the invariant ----

  lemma StepKeepsSettings(cfg: Config, s: State, e: Event)
    requires WellFormed(s) && ValidEvent(cfg, e)
    requires InStep(s.dev.settings) && s.dev.settings.ram.own == cfg.own
    ensures InStep(Step(cfg, s, e).dev.settings) && Step(cfg, s, e).dev.settings.ram.own == cfg.own
  {
    hide InStep, StepFrame, ChunkBytes, Held;
    match e
    case Frame(a) => FrameTouchesQueueOnly(cfg, s, a);
    case Configure(c) =>
      if c.Addr2? {
        SetAddr2InStep(s.dev.settings, c.f);
      } else {
        SetRssiInStep(s.dev.settings, c.rssi);
      }
    case Reboot => InitInStep(s.dev.settings.flash, cfg.own);
    case _ =>
  }

  lemma StepKeepsPassed(cfg: Config, s: State, e: Event)
    requires WellFormed(s) && ValidEvent(cfg, e) && s.dev.settings.ram.own == cfg.own
    requires forall i :: 0 <= i < |s.log.passed| ==> Justified(cfg, s.log.passed[i])
    ensures forall i :: 0 <= i < |Step(cfg, s, e).log.passed| ==> Justified(cfg, Step(cfg, s, e).log.passed[i])
  {
    hide Passes, BuildRec, ValidArrival, ChunkBytes, Held, InitConfig;
  }

  lemma StepBoundsQueue(cfg: Config, s: State, e: Event)
    requires WellFormed(s) && ValidEvent(cfg, e) && |s.dev.queue| <= cfg.capacity
    ensures |Step(cfg, s, e).dev.queue| <= cfg.capacity
  {
    hide Passes, BuildRec, ValidArrival, ChunkBytes, Held, InitConfig;
  }

  /** A record is dropped only at an arrival that finds the queue exactly full. */
  lemma DropsOnlyWhenFull(cfg: Config, s: State, e: Event)
    requires Consistent(cfg, s) && ValidEvent(cfg, e)
    ensures Step(cfg, s, e).log.dropped ==
            if e.Frame? && s.dev.promiscuous && Passes(s.dev.settings.ram, e.a) && |s.dev.queue| == cfg.capacity
            then s.log.dropped + [BuildRec(cfg, e.a)] else s.log.dropped
  {
    hide Passes, BuildRec, ValidArrival, ChunkBytes, Held, InitConfig, Conserved, StreamsAreChunks, InStep;
  }

  lemma StepConsistent(cfg: Config, s: State, e: Event)
    requires Consistent(cfg, s) && ValidEvent(cfg, e)
    ensures Consistent(cfg, Step(cfg, s, e))
  {
    hide Step, Conserved, StreamsAreChunks, InStep, Justified;
    StepConserves(cfg, s, e);
    StepKeepsStreams(cfg, s, e);
    StepKeepsSettings(cfg, s, e);
    StepKeepsPassed(cfg, s, e);
    StepBoundsQueue(cfg, s, e);
  }

  lemma BootConsistent(cfg: Config, fl: Flash)
    requires FitsFilters(fl)
    ensures Consistent(cfg, Boot(cfg, fl))
  {
    hide InStep, InitConfig;
    InitInStep(fl, cfg.own);
  }

  /** Every reachable state, for any flash contents and any interleaving of the steps. */
  lemma {:induction false} RunConsistent(cfg: Config, fl: Flash, es: seq<Event>)
    requires FitsFilters(fl) && ValidEvents(cfg, es)
    ensures Consistent(cfg, Run(cfg, fl, es))
    decreases |es|
  {
    hide Consistent, Step, FitsFilters, ValidEvent;
    if es == [] {
      BootConsistent(cfg, fl);
    } else {
      RunConsistent(cfg, fl, es[..|es| - 1]);
      StepConsistent(cfg, Run(cfg, fl, es[..|es| - 1]), es[|es| - 1]);
    }
  }

  // ---- What follows for whole runs ----

  lemma {:induction false} BuiltMember(passed: seq<Passed>, rec: QueuedRec) returns (i: nat)
    requires rec in Built(passed)
    ensures i < |passed| && passed[i].rec == rec
    decreases |passed|
  {
    var n := |passed| - 1;
    if passed[n].rec == rec {
      i := n;
    } else {
      i := BuiltMember(passed[..n], rec);
    }
  }

  lemma DeliveredWasBuilt(s: State, rec: QueuedRec)
    requires Conserved(s) && rec in Delivered(s.log.clients)
    ensures rec in Built(s.log.passed)
  {
    assert rec in multiset(Delivered(s.log.clients));
    assert rec in multiset(Built(s.log.passed));
  }

  /**
   No frame that was handled with the filter semaphore had, and passed, carries the sniffer's own address in
   an inspected field.
   */
  lemma PassedAreForeign(cfg: Config, fl: Flash, es: seq<Event>, i: nat)
    requires FitsFilters(fl) && ValidEvents(cfg, es) && cfg.own.size == ADDR_SIZE
    requires i < |Run(cfg, fl, es).log.passed| && Run(cfg, fl, es).log.passed[i].a.lockOk
    ensures Foreign(cfg, Run(cfg, fl, es).log.passed[i].a)
  {
    hide InspectedAddresses, OwnInHeader, Passes, BuildRec, ValidArrival, Conserved, InStep, StreamsAreChunks, Run;
    RunConsistent(cfg, fl, es);
    var p := Run(cfg, fl, es).log.passed[i];
    assert Justified(cfg, p);
    ArrivalDeliverable(cfg, p.a);
    OwnFramesRejected(p.f, p.a);
  }

  predicate Foreign(cfg: Config, a: Arrival) {
    && |a.pkt.payload| >= 2
    && cfg.own.addr !in InspectedAddresses(a.kind, a.pkt.payload)
    && !OwnInHeader(a.kind, a.pkt.payload, cfg.own)
  }

  /**
   A record sent to a client was built from a frame that passed; every frame that passed and makes that
   record is foreign, unless it was handled while the semaphore could not be had.
   */
  lemma NeverDeliversOwnFrames(cfg: Config, fl: Flash, es: seq<Event>, rec: QueuedRec)
    requires FitsFilters(fl) && ValidEvents(cfg, es) && cfg.own.size == ADDR_SIZE
    requires rec in Delivered(Run(cfg, fl, es).log.clients)
    ensures var passed := Run(cfg, fl, es).log.passed;
            && (exists i :: 0 <= i < |passed| && passed[i].rec == rec)
            && forall i :: 0 <= i < |passed| && passed[i].rec == rec ==>
                 && ValidArrival(cfg, passed[i].a) && rec == BuildRec(cfg, passed[i].a)
                 && (passed[i].a.lockOk ==> Foreign(cfg, passed[i].a))
  {
    hide Foreign, Passes, BuildRec, ValidArrival, Conserved, InStep, StreamsAreChunks, Run;
    RunConsistent(cfg, fl, es);
    var s := Run(cfg, fl, es);
    DeliveredWasBuilt(s, rec);
    var k := BuiltMember(s.log.passed, rec);
    forall i | 0 <= i < |s.log.passed| && s.log.passed[i].rec == rec
      ensures ValidArrival(cfg, s.log.passed[i].a) && rec == BuildRec(cfg, s.log.passed[i].a)
      ensures s.log.passed[i].a.lockOk ==> Foreign(cfg, s.log.passed[i].a)
    {
      assert Justified(cfg, s.log.passed[i]);
      if s.log.passed[i].a.lockOk {
        PassedAreForeign(cfg, fl, es, i);
      }
    }
  }

  lemma ArrivalDeliverable(cfg: Config, a: Arrival)
    requires ValidArrival(cfg, a)
    ensures Deliverable(a) && Copyable(cfg.snaplen, WithoutFcs(a.pkt))
  {
  }

  /** In any reachable state a reboot changes no decision of the handler and writes nothing to flash. */
  lemma RebootKeepsDecisions(cfg: Config, fl: Flash, es: seq<Event>, a: Arrival)
    requires FitsFilters(fl) && ValidEvents(cfg, es) && Deliverable(a)
    ensures var s := Run(cfg, fl, es);
            var s' := Step(cfg, s, Reboot);
            && (Passes(s'.dev.settings.ram, a) <==> Passes(s.dev.settings.ram, a))
            && s'.dev.settings.flash == s.dev.settings.flash
  {
    hide Conserved, InStep, StreamsAreChunks, Run, Justified, InitConfig, Accepts, Held;
    RunConsistent(cfg, fl, es);
    var s := Run(cfg, fl, es);
    RestartKeeps(s.dev.settings);
    SameSettingsDecideAlike(Step(cfg, s, Reboot).dev.settings.ram, s.dev.settings.ram, a.kind, WithoutFcs(a.pkt), a.lockOk);
  }
}
