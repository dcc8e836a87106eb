/**
 Runs in which a client is accepted only while none is connected: at most one task is live, and what each
 client is sent is one readable capture file of frames that passed, in the order of their arrival.
 */
module GuardedRuns {
  import opened Sequences
  import opened Capture
  import opened Frames
  import opened FilterTraces
  import opened Nvs
  import opened FilterStore
  import opened Pipeline
  import opened PipelineRuns

  /** The one live task is the one the handle names, and it has a client. */
  ghost predicate SingleTask(s: State) {
    forall t: nat :: Live(s, t) ==> s.dev.handle == Some(t) && s.dev.sock.Some?
  }

  /** Nothing, or one header and then records only. */
  predicate Framed(chunks: seq<Chunk>) {
    chunks != [] ==> chunks[0].HeaderChunk? && forall i :: 1 <= i < |chunks| ==> chunks[i].RecordChunk?
  }

  /** The task has sent its client the header exactly when it is past sending it. */
  ghost predicate HeaderInTime(s: State)
    requires WellFormed(s)
  {
    forall t: nat :: Live(s, t) && s.dev.sock.Some? ==>
      (s.log.clients[s.dev.sock.value] == [] <==> s.dev.tasks[t].Created? || s.dev.tasks[t].Opened?)
  }

  /** The driver calls back exactly while a live task is past its start. */
  ghost predicate ListensWhileServing(s: State) {
    s.dev.promiscuous <==> exists t: nat :: Live(s, t) && !s.dev.tasks[t].Created?
  }

  ghost predicate AllFramed(s: State) {
    forall c :: 0 <= c < |s.log.clients| ==> Framed(s.log.clients[c])
  }

  /** What was sent, then what the task holds, then the queue: records in the order they were built. */
  ghost predicate InOrder(s: State) {
    Subsequence(Delivered(s.log.clients) + Held(s.dev.tasks) + s.dev.queue, Built(s.log.passed))
  }

  ghost predicate Shaped(s: State) {
    WellFormed(s) && SingleTask(s) && HeaderInTime(s) && AllFramed(s) && ListensWhileServing(s)
  }

  ghost predicate Orderly(s: State) {
    Shaped(s) && InOrder(s)
  }

  // ---- Tasks and frames of the stream ----

  lemma SendHeaderKeepsShape(cfg: Config, s: State, t: nat, ok: bool)
    requires Shaped(s)
    ensures Shaped(StepSendHeader(cfg, s, t, ok))
  {
    hide ChunkBytes, FitsFilters;
    var s' := StepSendHeader(cfg, s, t, ok);
    if Live(s, t) && s.dev.tasks[t].Opened? {
      assert s.dev.handle == Some(t) && s.dev.sock.Some?;
      assert s.log.clients[s.dev.sock.value] == [];
      forall u: nat | Live(s', u) ensures u == t {
        assert Live(s, u);
      }
      if s'.dev.sock.Some? {
        assert Live(s, t) && !s.dev.tasks[t].Created?;
        assert Live(s', t) && !s'.dev.tasks[t].Created?;
      }
    }
  }

  lemma SendRecordKeepsShape(cfg: Config, s: State, t: nat, ok: bool)
    requires Shaped(s)
    ensures Shaped(StepSendRecord(cfg, s, t, ok))
  {
    hide ChunkBytes, FitsFilters;
    var s' := StepSendRecord(cfg, s, t, ok);
    if Live(s, t) && s.dev.tasks[t].Holding? {
      assert s.dev.handle == Some(t) && s.dev.sock.Some?;
      assert s.log.clients[s.dev.sock.value] != [];
      forall u: nat | Live(s', u) ensures u == t {
        assert Live(s, u);
      }
      if s'.dev.sock.Some? {
        assert Live(s, t) && !s.dev.tasks[t].Created?;
        assert Live(s', t) && !s'.dev.tasks[t].Created?;
      }
    }
  }

  lemma OpenKeepsShape(s: State, t: nat)
    requires Shaped(s)
    ensures Shaped(StepOpen(s, t))
  {
    hide FitsFilters, Framed;
    var s' := StepOpen(s, t);
    assert forall u: nat :: Live(s', u) <==> Live(s, u);
    if Live(s, t) && s.dev.tasks[t].Created? {
      assert Live(s', t) && !s'.dev.tasks[t].Created?;
    }
  }

  lemma PopKeepsShape(s: State, t: nat)
    requires Shaped(s)
    ensures Shaped(StepPop(s, t))
  {
    hide FitsFilters, Framed;
    var s' := StepPop(s, t);
    assert forall u: nat :: Live(s', u) <==> Live(s, u);
    assert forall u: nat :: Live(s, u) ==> (s'.dev.tasks[u].Created? <==> s.dev.tasks[u].Created?);
  }

  lemma AcceptKeepsShape(s: State, taskCreated: bool)
    requires Shaped(s) && s.dev.sock.None?
    ensures Shaped(StepAccept(s, taskCreated))
  {
    hide FitsFilters;
    var s' := StepAccept(s, taskCreated);
    forall u: nat | Live(s', u) ensures u == |s.dev.tasks| {
      assert u < |s.dev.tasks| ==> Live(s, u);
    }
  }

  lemma StepKeepsShape(cfg: Config, s: State, e: Event)
    requires ValidEvent(cfg, e) && GuardedStep(s, e) && Shaped(s)
    ensures Shaped(Step(cfg, s, e))
  {
    match e
    case Frame(a) =>
      hide StepFrame, ValidArrival, FitsFilters, Framed;
      FrameTouchesQueueOnly(cfg, s, a);
      assert forall u: nat :: Live(StepFrame(cfg, s, a), u) <==> Live(s, u);
    case Accept(taskCreated) => AcceptKeepsShape(s, taskCreated);
    case Open(t) => OpenKeepsShape(s, t);
    case Pop(t) => PopKeepsShape(s, t);
    case SendHeader(t, ok) => SendHeaderKeepsShape(cfg, s, t, ok);
    case SendRecord(t, ok) => SendRecordKeepsShape(cfg, s, t, ok);
    case Configure(c) =>
      hide Apply, FitsFilters, Framed;
      assert forall u: nat :: Live(Step(cfg, s, e), u) <==> Live(s, u);
    case Reboot =>
      hide InitConfig, FitsFilters, Framed, Held;
      assert forall u: nat :: !Live(Step(cfg, s, e), u);
  }

  // ---- Order ----

  /** When only task t can hold a record, the held records are what it holds. */
  lemma HeldSingle(ts: seq<Phase>, t: nat)
    requires t < |ts| && forall i :: 0 <= i < |ts| && i != t ==> !ts[i].Holding?
    ensures Held(ts) == HeldBy(ts[t])
  {
    hide Held, HeldBy;
    HeldSplit(ts, t);
    HeldNone(ts[..t]);
    HeldNone(ts[t + 1..]);
    assert Held(ts) == [] + HeldBy(ts[t]) + [];
  }

  lemma LiveIsOnlyHolder(s: State, t: nat, p: Phase)
    requires SingleTask(s) && Live(s, t)
    ensures Held(s.dev.tasks) == HeldBy(s.dev.tasks[t])
    ensures Held(s.dev.tasks[t := p]) == HeldBy(p)
  {
    hide Held, HeldBy;
    forall i: nat | i < |s.dev.tasks| && i != t ensures !s.dev.tasks[i].Holding? {
      assert s.dev.tasks[i] != Deleted ==> Live(s, i);
    }
    HeldSingle(s.dev.tasks, t);
    HeldSingle(s.dev.tasks[t := p], t);
  }

  lemma FrameKeepsOrder(cfg: Config, s: State, a: Arrival)
    requires ValidArrival(cfg, a) && InOrder(s)
    ensures InOrder(StepFrame(cfg, s, a))
  {
    hide Held, Delivered, Built, BuildRec, Accepts, Readable, Copyable, CreateRecord;
    if s.dev.promiscuous && Passes(s.dev.settings.ram, a) {
      var rec := BuildRec(cfg, a);
      BuiltSnoc(s.log.passed, Passed(a, rec, s.dev.settings.ram));
      var ahead := Delivered(s.log.clients) + Held(s.dev.tasks);
      SubsequenceSnoc(ahead + s.dev.queue, Built(s.log.passed), rec);
      assert ahead + (s.dev.queue + [rec]) == ahead + s.dev.queue + [rec];
    }
  }

  /** A record taken out of the middle leaves the rest in order. */
  lemma LosingKeepsOrder(d: seq<QueuedRec>, held: seq<QueuedRec>, queue: seq<QueuedRec>, built: seq<QueuedRec>)
    requires Subsequence(d + held + queue, built)
    ensures Subsequence(d + [] + queue, built)
  {
    SubsequenceOmit(d, held, queue);
    assert d + [] + queue == d + queue;
    SubsequenceTrans(d + queue, d + held + queue, built);
  }

  lemma SendKeepsOrder(cfg: Config, s: State, t: nat, ok: bool)
    requires WellFormed(s) && SingleTask(s) && InOrder(s)
    ensures InOrder(StepSendRecord(cfg, s, t, ok))
  {
    hide Held, Delivered, Built, ChunkBytes, FitsFilters;
    if Live(s, t) && s.dev.tasks[t].Holding? {
      var rec := s.dev.tasks[t].rec;
      LiveIsOnlyHolder(s, t, Idle);
      LiveIsOnlyHolder(s, t, Deleted);
      var d := Delivered(s.log.clients);
      assert s.dev.tasks[t := Idle][t := Deleted] == s.dev.tasks[t := Deleted];
      LosingKeepsOrder(d, [rec], s.dev.queue, Built(s.log.passed));
      var s' := StepSendRecord(cfg, s, t, ok);
      assert Held(s'.dev.tasks) == [] && s'.dev.queue == s.dev.queue && s'.log.passed == s.log.passed;
      if ok && s.dev.sock.Some? && rec.header.origLen != 0 {
        DeliveredWrite(s.log.clients, s.dev.sock.value, RecordChunk(rec));
        assert d + [rec] + [] + s.dev.queue == d + [rec] + s.dev.queue;
      }
    }
  }

  lemma HeaderKeepsOrder(cfg: Config, s: State, t: nat, ok: bool)
    requires WellFormed(s) && SingleTask(s) && InOrder(s)
    ensures InOrder(StepSendHeader(cfg, s, t, ok))
  {
    hide Held, Delivered, Built, ChunkBytes, FitsFilters;
    if Live(s, t) && s.dev.tasks[t].Opened? {
      LiveIsOnlyHolder(s, t, Idle);
      LiveIsOnlyHolder(s, t, Deleted);
      assert s.dev.tasks[t := Idle][t := Deleted] == s.dev.tasks[t := Deleted];
      var s' := StepSendHeader(cfg, s, t, ok);
      assert Held(s'.dev.tasks) == [] && s'.dev.queue == s.dev.queue && s'.log.passed == s.log.passed;
      if ok && s.dev.sock.Some? {
        DeliveredWrite(s.log.clients, s.dev.sock.value, HeaderChunk);
        assert Delivered(s.log.clients) + [] == Delivered(s.log.clients);
      }
    }
  }

  lemma PopKeepsOrder(s: State, t: nat)
    requires SingleTask(s) && InOrder(s)
    ensures InOrder(StepPop(s, t))
  {
    hide Held, Delivered, Built;
    if Live(s, t) && s.dev.tasks[t].Idle? && s.dev.queue != [] {
      LiveIsOnlyHolder(s, t, Holding(s.dev.queue[0]));
      var d := Delivered(s.log.clients);
      assert d + [s.dev.queue[0]] + s.dev.queue[1..] == d + [] + s.dev.queue;
      assert Held(StepPop(s, t).dev.tasks) == [s.dev.queue[0]];
    }
  }

  lemma RebootKeepsOrder(cfg: Config, s: State)
    requires WellFormed(s) && InOrder(s)
    ensures InOrder(StepReboot(cfg, s))
  {
    hide Held, Delivered, Built, InitConfig, FitsFilters;
    HeldNone(AllDeleted(s.dev.tasks));
    var d := Delivered(s.log.clients);
    LosingKeepsOrder(d, Held(s.dev.tasks), s.dev.queue, Built(s.log.passed));
    SubsequenceOmit(d, s.dev.queue, []);
    assert d + [] + [] == d + [] && d + [] + s.dev.queue == d + s.dev.queue + [];
    SubsequenceTrans(d + [] + [], d + [] + s.dev.queue, Built(s.log.passed));
  }

  lemma OpenKeepsOrder(s: State, t: nat)
    requires SingleTask(s) && InOrder(s)
    ensures InOrder(StepOpen(s, t))
  {
    hide Held, Delivered, Built;
    if Live(s, t) {
      HeldUpdate(s.dev.tasks, t, Opened);
    }
  }

  lemma AcceptKeepsOrder(s: State, taskCreated: bool)
    requires InOrder(s)
    ensures InOrder(StepAccept(s, taskCreated))
  {
    hide Held, Delivered, Built;
    DeliveredConnect(s.log.clients);
    HeldSnoc(s.dev.tasks, Created);
    assert Held(s.dev.tasks) + [] == Held(s.dev.tasks);
  }

  lemma StepOrderly(cfg: Config, s: State, e: Event)
    requires ValidEvent(cfg, e) && GuardedStep(s, e) && Orderly(s)
    ensures Orderly(Step(cfg, s, e))
  {
    StepKeepsShape(cfg, s, e);
    hide SingleTask, HeaderInTime, AllFramed, ListensWhileServing, Held, Delivered, Built, Live;
    hide StepFrame, StepAccept, StepOpen, StepSendHeader, StepPop, StepSendRecord, StepReboot;
    match e
    case Frame(a) => FrameKeepsOrder(cfg, s, a);
    case Accept(taskCreated) => AcceptKeepsOrder(s, taskCreated);
    case Open(t) => OpenKeepsOrder(s, t);
    case SendHeader(t, ok) => HeaderKeepsOrder(cfg, s, t, ok);
    case Pop(t) => PopKeepsOrder(s, t);
    case SendRecord(t, ok) => SendKeepsOrder(cfg, s, t, ok);
    case Configure(c) =>
    case Reboot => RebootKeepsOrder(cfg, s);
  }

  lemma {:induction false} RunOrderly(cfg: Config, fl: Flash, es: seq<Event>)
    requires FitsFilters(fl) && ValidEvents(cfg, es) && Guarded(cfg, fl, es)
    ensures Orderly(Run(cfg, fl, es))
    decreases |es|
  {
    hide Step, FitsFilters, ValidEvent, GuardedStep, SingleTask, HeaderInTime, AllFramed, ListensWhileServing, InOrder;
    if es == [] {
      BootOrderly(cfg, fl);
    } else {
      RunOrderly(cfg, fl, es[..|es| - 1]);
      StepOrderly(cfg, Run(cfg, fl, es[..|es| - 1]), es[|es| - 1]);
    }
  }

  lemma BootOrderly(cfg: Config, fl: Flash)
    requires FitsFilters(fl)
    ensures Orderly(Boot(cfg, fl))
  {
    hide InitConfig;
    var empty: seq<QueuedRec> := [];
    assert empty + empty + empty == empty;
  }

  // ---- Consequences ----

  /** Between clients the firmware is deaf: in a guarded run a frame that arrives without a client changes nothing. */
  lemma DeafWithoutClient(cfg: Config, fl: Flash, es: seq<Event>, a: Arrival)
    requires FitsFilters(fl) && ValidEvents(cfg, es) && Guarded(cfg, fl, es) && ValidArrival(cfg, a)
    requires Run(cfg, fl, es).dev.sock.None?
    ensures Step(cfg, Run(cfg, fl, es), Frame(a)) == Run(cfg, fl, es)
  {
    hide Run, InOrder, HeaderInTime, AllFramed, ValidArrival, FitsFilters;
    RunOrderly(cfg, fl, es);
  }

  /**
   When nothing was dropped and nothing lost, what was sent, held and queued is exactly what was built:
   nothing missing, nothing twice, nothing out of order.
   */
  lemma LosslessIsComplete(cfg: Config, fl: Flash, es: seq<Event>)
    requires FitsFilters(fl) && ValidEvents(cfg, es) && Guarded(cfg, fl, es)
    requires var log := Run(cfg, fl, es).log; log.dropped == [] && log.lost == []
    ensures var s := Run(cfg, fl, es);
            Delivered(s.log.clients) + Held(s.dev.tasks) + s.dev.queue == Built(s.log.passed)
  {
    hide Run, Shaped, InStep, StreamsAreChunks, Justified, Delivered, Held, Built;
    RunOrderly(cfg, fl, es);
    RunConsistent(cfg, fl, es);
    var s := Run(cfg, fl, es);
    var kept := Delivered(s.log.clients) + Held(s.dev.tasks) + s.dev.queue;
    assert multiset(kept) == multiset(Built(s.log.passed)) by {
      MultisetOfThree(Delivered(s.log.clients), Held(s.dev.tasks), s.dev.queue);
    }
    assert |kept| == |multiset(kept)| && |Built(s.log.passed)| == |multiset(Built(s.log.passed))|;
    SubsequenceLength(kept, Built(s.log.passed));
  }
}
