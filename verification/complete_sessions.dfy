/**
 What goes in comes out: a session without failures, in which no record is dropped, ends, once the queue is drained,
 with the client holding exactly the frames that passed the filter, each once and in order.
 */
module CompleteSessions {
  import opened Sequences
  import opened Pcap
  import opened Capture
  import opened Frames
  import opened FilterTraces
  import opened Nvs
  import opened FilterStore
  import opened Pipeline
  import opened PipelineRuns
  import opened GuardedRuns
  import opened Delivery
  import opened Overlap
  import opened Outcomes

  // ---- Nothing is lost unless something fails ----

  /** No restart, and no write is refused. */
  predicate NoFailure(e: Event) {
    && !e.Reboot?
    && (e.SendHeader? ==> e.ok)
    && (e.SendRecord? ==> e.ok)
  }

  lemma StepLosesNothing(cfg: Config, s: State, e: Event)
    requires WellFormed(s) && ValidEvent(cfg, e) && SingleTask(s) && NoFailure(e)
    requires e.SendRecord? && e.t < |s.dev.tasks| ==> HoldsFrame(s, e.t)
    ensures Step(cfg, s, e).log.lost == s.log.lost
  {
    hide BuildRec, ValidArrival, Passes, ChunkBytes, InitConfig, Apply, FitsFilters;
  }

  /** With one client at a time, no restart and no refused write, no record is lost. */
  lemma {:induction false} NothingLost(cfg: Config, fl: Flash, es: seq<Event>)
    requires FitsFilters(fl) && ValidEvents(cfg, es) && Guarded(cfg, fl, es)
    requires forall i :: 0 <= i < |es| ==> NoFailure(es[i])
    ensures Run(cfg, fl, es).log.lost == []
    decreases |es|
  {
    if es != [] {
      hide Step, FitsFilters, ValidEvent, NoFailure, InOrder, HoldsFrame;
      var n := |es| - 1;
      NothingLost(cfg, fl, es[..n]);
      RunOrderly(cfg, fl, es[..n]);
      if es[n].SendRecord? && es[n].t < |Run(cfg, fl, es[..n]).dev.tasks| {
        HeldIsFrame(cfg, fl, es[..n], es[n].t);
      }
      StepLosesNothing(cfg, Run(cfg, fl, es[..n]), es[n]);
    }
  }

  // ---- A session ----

  /** From power-on: a client, and its task up to the header. */
  const OPENING: seq<Event> := [Accept(true)] + [Open(0), SendHeader(0, true)]

  /** What happens in a session without failures. */
  predicate InSession(e: Event) {
    e.Frame? || e.Pop? || (e.SendRecord? && e.ok)
  }

  predicate AllInSession(es: seq<Event>) {
    forall i :: 0 <= i < |es| ==> InSession(es[i])
  }

  /** One client, one task past its header, the driver calling back, the settings of power-on. */
  ghost predicate Serving(cfg: Config, fl: Flash, s: State)
    requires FitsFilters(fl)
  {
    && WellFormed(s)
    && s.dev.sock == Some(0) && |s.dev.streams| == 1 && |s.log.clients| == 1
    && |s.dev.tasks| == 1 && (s.dev.tasks[0].Idle? || s.dev.tasks[0].Holding?)
    && s.dev.promiscuous
    && s.dev.settings == InitConfig(fl, cfg.own)
  }

  /** No record has been dropped as long as no more frames passed than the queue has room for. */
  predicate RoomForAll(cfg: Config, s: State) {
    |s.dev.queue| <= |s.log.passed| && (|s.log.passed| <= cfg.capacity ==> s.log.dropped == [])
  }

  predicate AllDeliverable(trace: seq<Arrival>) {
    forall a :: a in trace ==> Deliverable(a)
  }

  /** The frames of a trace that pass the filter of power-on. */
  ghost function PassingAtBoot(cfg: Config, fl: Flash, trace: seq<Arrival>): seq<Arrival>
    requires FitsFilters(fl) && AllDeliverable(trace)
  {
    Passing(InitConfig(fl, cfg.own).ram, trace)
  }

  lemma SessionStep(cfg: Config, fl: Flash, s: State, e: Event)
    requires FitsFilters(fl) && Serving(cfg, fl, s) && ValidEvent(cfg, e) && InSession(e) && RoomForAll(cfg, s)
    ensures Serving(cfg, fl, Step(cfg, s, e)) && RoomForAll(cfg, Step(cfg, s, e))
    ensures !e.Frame? ==> Step(cfg, s, e).log.passed == s.log.passed && Step(cfg, s, e).log.dropped == s.log.dropped
    ensures e.Frame? ==> Deliverable(e.a) &&
                         PassedFrames(Step(cfg, s, e).log.passed) ==
                         PassedFrames(s.log.passed) + (if Passes(InitConfig(fl, cfg.own).ram, e.a) then [e.a] else [])
  {
    hide BuildRec, Passes, ChunkBytes, InitConfig, FitsFilters;
    if e.Frame? {
      ArrivalDeliverable(cfg, e.a);
    }
    hide ValidArrival, Deliverable;
    assert PassedFrames(s.log.passed) + [] == PassedFrames(s.log.passed);
  }

  lemma OpeningRun(cfg: Config, fl: Flash)
    requires FitsFilters(fl)
    ensures ValidEvents(cfg, OPENING) && Guarded(cfg, fl, OPENING)
    ensures Serving(cfg, fl, Run(cfg, fl, OPENING)) && Run(cfg, fl, OPENING).log.passed == []
    ensures RoomForAll(cfg, Run(cfg, fl, OPENING))
  {
    RunSnoc(cfg, fl, [], Accept(true));
    assert [] + [Accept(true)] == [Accept(true)];
    RunTwo(cfg, fl, [Accept(true)], Open(0), SendHeader(0, true));
    GuardedSnoc(cfg, fl, [], Accept(true));
    GuardedSnoc(cfg, fl, [Accept(true)], Open(0));
    RunSnoc(cfg, fl, [Accept(true)], Open(0));
    GuardedSnoc(cfg, fl, [Accept(true)] + [Open(0)], SendHeader(0, true));
    assert [Accept(true)] + [Open(0)] + [SendHeader(0, true)] == OPENING;
    hide Run, FitsFilters, EncodeFileHeader, InitConfig;
    assert Run(cfg, fl, [Accept(true)]) == Step(cfg, Boot(cfg, fl), Accept(true)) by { BootRun(cfg, fl); }
    StartUp(cfg, Run(cfg, fl, [Accept(true)]), 0);
  }

  lemma BootRun(cfg: Config, fl: Flash)
    requires FitsFilters(fl)
    ensures Run(cfg, fl, []) == Boot(cfg, fl)
  {
  }

  lemma GuardedSnoc(cfg: Config, fl: Flash, es: seq<Event>, e: Event)
    requires FitsFilters(fl) && ValidEvents(cfg, es) && ValidEvent(cfg, e)
    requires Guarded(cfg, fl, es) && GuardedStep(Run(cfg, fl, es), e)
    ensures ValidEvents(cfg, es + [e]) && Guarded(cfg, fl, es + [e])
  {
    hide Run, FitsFilters, ValidEvent, GuardedStep;
    assert (es + [e])[..|es|] == es;
  }

  lemma {:induction false} ArrivalsDeliverable(cfg: Config, es: seq<Event>)
    requires ValidEvents(cfg, es)
    ensures AllDeliverable(Arrivals(es)) && AllValid(cfg, Arrivals(es))
    decreases |es|
  {
    hide ValidArrival, Deliverable;
    if es != [] {
      ArrivalsDeliverable(cfg, es[..|es| - 1]);
      if es[|es| - 1].Frame? {
        ArrivalDeliverable(cfg, es[|es| - 1].a);
      }
    }
  }

  lemma {:induction false} SessionRun(cfg: Config, fl: Flash, body: seq<Event>)
    requires FitsFilters(fl) && ValidEvents(cfg, body) && AllInSession(body)
    ensures ValidEvents(cfg, OPENING + body) && Guarded(cfg, fl, OPENING + body) && AllDeliverable(Arrivals(body))
    ensures Serving(cfg, fl, Run(cfg, fl, OPENING + body)) && RoomForAll(cfg, Run(cfg, fl, OPENING + body))
    ensures PassedFrames(Run(cfg, fl, OPENING + body).log.passed) == PassingAtBoot(cfg, fl, Arrivals(body))
    decreases |body|
  {
    hide Run, Step, FitsFilters, ValidEvent, Serving, RoomForAll, Passes, Deliverable, InitConfig;
    ArrivalsDeliverable(cfg, body);
    if body == [] {
      OpeningRun(cfg, fl);
      assert OPENING + body == OPENING;
    } else {
      var n := |body| - 1;
      var before, e := OPENING + body[..n], body[n];
      SessionRun(cfg, fl, body[..n]);
      assert OPENING + body == before + [e];
      RunSnoc(cfg, fl, before, e);
      GuardedSnoc(cfg, fl, before, e);
      SessionStep(cfg, fl, Run(cfg, fl, before), e);
      if e.Frame? {
        PassingSnoc(InitConfig(fl, cfg.own).ram, Arrivals(body[..n]), e.a);
      } else {
        assert Arrivals(body) == Arrivals(body[..n]);
      }
    }
  }

  lemma PassingSnoc(f: Filter, trace: seq<Arrival>, a: Arrival)
    requires AllDeliverable(trace) && Deliverable(a)
    ensures AllDeliverable(trace + [a])
    ensures Passing(f, trace + [a]) == Passing(f, trace) + (if Passes(f, a) then [a] else [])
  {
    hide Passes, Deliverable;
    assert Init(trace + [a]) == trace;
  }

  // ---- Draining ----

  /** The task sends what it holds, then n times takes a record and sends it. */
  function Drain(n: nat): (es: seq<Event>)
    ensures forall i :: 0 <= i < |es| ==> es[i] == Pop(0) || es[i] == SendRecord(0, true)
  {
    if n == 0 then [SendRecord(0, true)] else Drain(n - 1) + [Pop(0), SendRecord(0, true)]
  }

  lemma DrainInSession(cfg: Config, body: seq<Event>, n: nat)
    requires ValidEvents(cfg, body) && AllInSession(body)
    ensures ValidEvents(cfg, body + Drain(n)) && AllInSession(body + Drain(n))
  {
    hide ValidArrival, Drain;
    forall i | 0 <= i < |body + Drain(n)|
      ensures ValidEvent(cfg, (body + Drain(n))[i]) && InSession((body + Drain(n))[i])
    {
      assert (body + Drain(n))[i] == if i < |body| then body[i] else Drain(n)[i - |body|];
    }
  }

  lemma SendEmpties(cfg: Config, fl: Flash, s: State)
    requires FitsFilters(fl) && Serving(cfg, fl, s) && HoldsFrame(s, 0)
    ensures var s' := Step(cfg, s, SendRecord(0, true));
            s'.dev.tasks == [Idle] && s'.dev.queue == s.dev.queue
  {
    hide ChunkBytes, InitConfig, FitsFilters;
    assert s.dev.tasks[0] != Deleted;
  }

  lemma PopTakes(cfg: Config, fl: Flash, s: State)
    requires FitsFilters(fl) && Serving(cfg, fl, s) && s.dev.tasks == [Idle] && s.dev.queue != []
    ensures Step(cfg, s, Pop(0)).dev.queue == s.dev.queue[1..]
  {
    hide InitConfig, FitsFilters;
    assert Live(s, 0);
  }

  /** The held record goes to the client. */
  lemma SendTurn(cfg: Config, fl: Flash, body: seq<Event>)
    requires FitsFilters(fl) && ValidEvents(cfg, body) && AllInSession(body) && ValidEvents(cfg, OPENING + body)
    ensures ValidEvents(cfg, OPENING + (body + [SendRecord(0, true)]))
    ensures var s, s' := Run(cfg, fl, OPENING + body), Run(cfg, fl, OPENING + (body + [SendRecord(0, true)]));
            s'.dev.tasks == [Idle] && s'.dev.queue == s.dev.queue && s'.log.dropped == s.log.dropped
  {
    assert ValidEvent(cfg, SendRecord(0, true));
    hide Run, Step, FitsFilters, ValidEvents, ValidEvent, RoomForAll, Deliverable, InitConfig, HoldsFrame;
    SessionRun(cfg, fl, body);
    HeldIsFrame(cfg, fl, OPENING + body, 0);
    SendEmpties(cfg, fl, Run(cfg, fl, OPENING + body));
    SessionStep(cfg, fl, Run(cfg, fl, OPENING + body), SendRecord(0, true));
    RunSnoc(cfg, fl, OPENING + body, SendRecord(0, true));
    assert OPENING + body + [SendRecord(0, true)] == OPENING + (body + [SendRecord(0, true)]);
  }

  /** The oldest record is taken from the queue. */
  lemma PopTurn(cfg: Config, fl: Flash, body: seq<Event>)
    requires FitsFilters(fl) && ValidEvents(cfg, body) && AllInSession(body) && ValidEvents(cfg, OPENING + body)
    requires Run(cfg, fl, OPENING + body).dev.tasks == [Idle] && Run(cfg, fl, OPENING + body).dev.queue != []
    ensures ValidEvents(cfg, OPENING + (body + [Pop(0)]))
    ensures var s, s' := Run(cfg, fl, OPENING + body), Run(cfg, fl, OPENING + (body + [Pop(0)]));
            s'.dev.queue == s.dev.queue[1..] && s'.log.dropped == s.log.dropped
  {
    assert ValidEvent(cfg, Pop(0));
    hide Run, Step, FitsFilters, ValidEvents, ValidEvent, RoomForAll, Deliverable, InitConfig;
    SessionRun(cfg, fl, body);
    PopTakes(cfg, fl, Run(cfg, fl, OPENING + body));
    SessionStep(cfg, fl, Run(cfg, fl, OPENING + body), Pop(0));
    RunSnoc(cfg, fl, OPENING + body, Pop(0));
    assert OPENING + body + [Pop(0)] == OPENING + (body + [Pop(0)]);
  }

  lemma {:induction false} DrainEmpties(cfg: Config, fl: Flash, body: seq<Event>, n: nat)
    requires FitsFilters(fl) && ValidEvents(cfg, body) && AllInSession(body)
    requires ValidEvents(cfg, OPENING + body) && n <= |Run(cfg, fl, OPENING + body).dev.queue|
    ensures ValidEvents(cfg, OPENING + (body + Drain(n)))
    ensures var s, s' := Run(cfg, fl, OPENING + body), Run(cfg, fl, OPENING + (body + Drain(n)));
            && s'.dev.tasks == [Idle] && |s'.dev.queue| == |s.dev.queue| - n
            && s'.log.dropped == s.log.dropped
    decreases n
  {
    hide Run, FitsFilters, ValidEvents, AllInSession;
    if n == 0 {
      SendTurn(cfg, fl, body);
    } else {
      var drained := body + Drain(n - 1);
      DrainEmpties(cfg, fl, body, n - 1);
      DrainInSession(cfg, body, n - 1);
      PopTurn(cfg, fl, drained);
      assert ValidEvents(cfg, drained + [Pop(0)]) && AllInSession(drained + [Pop(0)]) by { PopInSession(cfg, drained); }
      SendTurn(cfg, fl, drained + [Pop(0)]);
      assert drained + [Pop(0)] + [SendRecord(0, true)] == body + Drain(n);
    }
  }

  lemma PopInSession(cfg: Config, body: seq<Event>)
    requires ValidEvents(cfg, body) && AllInSession(body)
    ensures ValidEvents(cfg, body + [Pop(0)]) && AllInSession(body + [Pop(0)])
  {
    hide ValidArrival;
  }

  // ---- The theorem ----

  lemma {:induction false} ArrivalsConcat(a: seq<Event>, b: seq<Event>)
    requires forall i :: 0 <= i < |b| ==> !b[i].Frame?
    ensures Arrivals(a + b) == Arrivals(a)
    decreases |b|
  {
    if b == [] {
      assert a + b == a;
    } else {
      assert (a + b)[..|a + b| - 1] == a + b[..|b| - 1];
      ArrivalsConcat(a, b[..|b| - 1]);
    }
  }

  lemma SessionHasNoFailure(body: seq<Event>)
    requires AllInSession(body)
    ensures forall i :: 0 <= i < |OPENING + body| ==> NoFailure((OPENING + body)[i])
  {
    forall i | 0 <= i < |OPENING + body| ensures NoFailure((OPENING + body)[i]) {
      if i >= 3 {
        assert (OPENING + body)[i] == body[i - 3] && InSession(body[i - 3]);
      }
    }
  }

  lemma OneIdle()
    ensures Held([Idle]) == []
  {
    assert [Idle][..0] == [];
  }

  lemma OneClient(clients: seq<seq<Chunk>>)
    requires |clients| == 1
    ensures Delivered(clients) == RecordsOf(clients[0])
  {
    assert clients[..0] == [];
  }

  /** All records built are the client's, when the task is idle, the queue empty and nothing dropped. */
  lemma ClientHasAll(cfg: Config, fl: Flash, body: seq<Event>)
    requires FitsFilters(fl) && ValidEvents(cfg, body) && AllInSession(body) && ValidEvents(cfg, OPENING + body)
    requires var s := Run(cfg, fl, OPENING + body);
             s.dev.tasks == [Idle] && s.dev.queue == [] && s.log.dropped == []
    ensures var s := Run(cfg, fl, OPENING + body);
            |s.log.clients| == 1 && s.log.clients[0] != [] && RecordsOf(s.log.clients[0]) == Built(s.log.passed)
  {
    hide Run, FitsFilters, ValidEvents, RoomForAll, Deliverable, InitConfig, HoldsFrame, Built, RecordsOf, Delivered, Held;
    hide NoFailure, InOrder;
    SessionRun(cfg, fl, body);
    SessionHasNoFailure(body);
    NothingLost(cfg, fl, OPENING + body);
    LosslessIsComplete(cfg, fl, OPENING + body);
    var s := Run(cfg, fl, OPENING + body);
    OneIdle();
    OneClient(s.log.clients);
    assert Delivered(s.log.clients) + [] + [] == Delivered(s.log.clients);
    RunOrderly(cfg, fl, OPENING + body);
    assert Live(s, 0);
  }

  /** So the client's stream is the capture file of the frames that passed. */
  lemma ClientStream(cfg: Config, fl: Flash, body: seq<Event>)
    requires FitsFilters(fl) && ValidEvents(cfg, body) && AllInSession(body) && ValidEvents(cfg, OPENING + body)
    requires var s := Run(cfg, fl, OPENING + body);
             s.dev.tasks == [Idle] && s.dev.queue == [] && s.log.dropped == []
    ensures AllDeliverable(Arrivals(body)) && AllValid(cfg, PassingAtBoot(cfg, fl, Arrivals(body)))
    ensures Run(cfg, fl, OPENING + body).dev.streams ==
            [EncodeFile(FileHeaderOf(cfg.snaplen), WireRecords(cfg, PassingAtBoot(cfg, fl, Arrivals(body))))]
  {
    hide Run, FitsFilters, ValidEvents, RoomForAll, Deliverable, InitConfig, Built, RecordsOf, BuildRec, ValidArrival;
    hide Conserved, InOrder, InStep, Passes, Framed, ClientBytes, EncodeFile, WireRecords, PassingAtBoot, SingleTask, HeaderInTime;
    SessionRun(cfg, fl, body);
    ClientHasAll(cfg, fl, body);
    RunConsistent(cfg, fl, OPENING + body);
    RunOrderly(cfg, fl, OPENING + body);
    var s := Run(cfg, fl, OPENING + body);
    var frames := PassedFrames(s.log.passed);
    var rs := RecordsOf(s.log.clients[0]);
    forall i | 0 <= i < |frames|
      ensures |rs| == |frames| && ValidArrival(cfg, frames[i]) && rs[i] == BuildRec(cfg, frames[i])
    {
      BuiltAt(s.log.passed, i);
      assert Justified(cfg, s.log.passed[i]);
    }
    if frames == [] {
      EmptyBuilt();
    } else {
      BuiltAt(s.log.passed, 0);
    }
    FramedIsFile(cfg, s.log.clients[0], frames);
    assert s.dev.streams == [s.dev.streams[0]];
  }

  /**
   For every interleaving of frames and task turns in which no write is refused and no record is dropped: once
   the queue is drained, the client's stream is one capture file, which reads back as exactly the arrived frames
   that pass the filter in force from power-on, all of them, in order.
   */
  lemma SessionIsComplete(cfg: Config, fl: Flash, body: seq<Event>)
    requires FitsFilters(fl) && ValidEvents(cfg, body) && AllInSession(body)
    ensures ValidEvents(cfg, OPENING + body) && AllDeliverable(Arrivals(body))
    ensures var s, frames := Run(cfg, fl, OPENING + body), PassingAtBoot(cfg, fl, Arrivals(body));
            s.log.dropped == [] ==>
              && AllValid(cfg, frames) && ValidEvents(cfg, OPENING + (body + Drain(|s.dev.queue|)))
              && var streams := Run(cfg, fl, OPENING + (body + Drain(|s.dev.queue|))).dev.streams;
                 && |streams| == 1
                 && ReadFile(streams[0]) == Some(Capture(FileHeaderOf(cfg.snaplen), WireRecords(cfg, frames), []))
  {
    hide Run, FitsFilters, ValidEvents, RoomForAll, Deliverable, InitConfig, WireRecords, PassingAtBoot, Drain, AllInSession, Serving, ReadFile, EncodeFile;
    SessionRun(cfg, fl, body);
    var s := Run(cfg, fl, OPENING + body);
    var n := |s.dev.queue|;
    if s.log.dropped == [] {
      DrainEmpties(cfg, fl, body, n);
      DrainInSession(cfg, body, n);
      ArrivalsConcat(body, Drain(n));
      ClientStream(cfg, fl, body + Drain(n));
      FileReadBack(FileHeaderOf(cfg.snaplen), WireRecords(cfg, PassingAtBoot(cfg, fl, Arrivals(body))));
    }
  }

  /** No record is dropped as long as no more frames pass than the queue has room for. */
  lemma FewFramesNotDropped(cfg: Config, fl: Flash, body: seq<Event>)
    requires FitsFilters(fl) && ValidEvents(cfg, body) && AllInSession(body)
    ensures AllDeliverable(Arrivals(body)) && ValidEvents(cfg, OPENING + body)
    ensures |PassingAtBoot(cfg, fl, Arrivals(body))| <= cfg.capacity ==> Run(cfg, fl, OPENING + body).log.dropped == []
  {
    hide Run, FitsFilters, ValidEvents, Deliverable, InitConfig, PassingAtBoot, Serving;
    SessionRun(cfg, fl, body);
    assert |PassedFrames(Run(cfg, fl, OPENING + body).log.passed)| == |Run(cfg, fl, OPENING + body).log.passed|;
  }
}
