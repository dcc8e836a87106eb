/**
 What the steps of a run do to clients, said of the state before and after: a refused write ends the session, a
 replaced or failed client never gets another byte, a restart leaves nothing running, and nothing is lost otherwise.
 */
module Outcomes {
  import opened Bytes
  import opened Sequences
  import opened Pcap
  import opened Capture
  import opened Frames
  import opened FilterTraces
  import opened Nvs
  import opened FilterStore
  import opened Pipeline
  import opened PipelineRuns
  import opened GuardedRuns
  import opened Overlap

  // ---- Clients that are done ----

  /** Client c is no longer the one the device writes to. */
  predicate Done(s: State, c: nat) {
    c < |s.dev.streams| && s.dev.sock != Some(c)
  }

  lemma StepKeepsDone(cfg: Config, s: State, e: Event, c: nat)
    requires WellFormed(s) && ValidEvent(cfg, e) && Done(s, c)
    ensures Done(Step(cfg, s, e), c) && Step(cfg, s, e).dev.streams[c] == s.dev.streams[c]
  {
    hide BuildRec, ValidArrival, Passes, ChunkBytes, Held, InitConfig, Apply, FitsFilters;
  }

  /** Once the device has turned away from a client, its stream stays as it is in every continuation. */
  lemma {:induction false} DoneForever(cfg: Config, fl: Flash, es: seq<Event>, more: seq<Event>, c: nat)
    requires FitsFilters(fl) && ValidEvents(cfg, es) && ValidEvents(cfg, more) && Done(Run(cfg, fl, es), c)
    ensures ValidEvents(cfg, es + more)
    ensures Done(Run(cfg, fl, es + more), c)
    ensures Run(cfg, fl, es + more).dev.streams[c] == Run(cfg, fl, es).dev.streams[c]
    decreases |more|
  {
    hide Run, Step, FitsFilters, ValidEvent;
    if more == [] {
      assert es + more == es;
    } else {
      var n := |more| - 1;
      DoneForever(cfg, fl, es, more[..n], c);
      StepKeepsDone(cfg, Run(cfg, fl, es + more[..n]), more[n], c);
      RunSnoc(cfg, fl, es + more[..n], more[n]);
      assert es + more == es + more[..n] + [more[n]];
    }
  }

  /** Every live task was started after the last restart, so the handle names a task. */
  ghost predicate HandleWhileLive(s: State) {
    forall t: nat :: Live(s, t) ==> s.dev.handle.Some?
  }

  lemma StepKeepsHandle(cfg: Config, s: State, e: Event)
    requires WellFormed(s) && ValidEvent(cfg, e) && HandleWhileLive(s)
    ensures HandleWhileLive(Step(cfg, s, e))
  {
    hide BuildRec, ValidArrival, Passes, ChunkBytes, Held, InitConfig, Apply, FitsFilters;
    var s' := Step(cfg, s, e);
    forall t: nat | Live(s', t) ensures s'.dev.handle.Some? {
      assert Live(s, t) || s'.dev.handle.Some?;
    }
  }

  lemma {:induction false} RunHandle(cfg: Config, fl: Flash, es: seq<Event>)
    requires FitsFilters(fl) && ValidEvents(cfg, es)
    ensures HandleWhileLive(Run(cfg, fl, es))
    decreases |es|
  {
    hide Step, FitsFilters, ValidEvent, HandleWhileLive;
    if es == [] {
      assert HandleWhileLive(Boot(cfg, fl)) by { BootHandle(cfg, fl); }
    } else {
      RunHandle(cfg, fl, es[..|es| - 1]);
      StepKeepsHandle(cfg, Run(cfg, fl, es[..|es| - 1]), es[|es| - 1]);
    }
  }

  lemma BootHandle(cfg: Config, fl: Flash)
    requires FitsFilters(fl)
    ensures HandleWhileLive(Boot(cfg, fl))
  {
  }

  // ---- A refused write ----

  /** Task t is about to write to a client. */
  predicate Writing(s: State, t: nat) {
    t < |s.dev.tasks| && s.dev.sock.Some? && (s.dev.tasks[t].Opened? || s.dev.tasks[t].Holding?)
  }

  /** The socket refuses what task t writes. */
  function Refuse(s: State, t: nat): Event
    requires Writing(s, t)
  {
    if s.dev.tasks[t].Opened? then SendHeader(t, false) else SendRecord(t, false)
  }

  /**
   Between s and s': the client is forgotten, the driver stops calling back, the task of the handle is gone, the
   record that was refused is lost, with one the deleted task may have held besides, and all else is as it was.
   */
  ghost predicate SessionEnded(s: State, s': State, t: nat)
    requires Writing(s, t)
  {
    && s.dev.handle.Some? && s.dev.handle.value < |s.dev.tasks| == |s'.dev.tasks|
    && s'.dev.sock == None && !s'.dev.promiscuous && s'.dev.handle == s.dev.handle
    && s'.dev.tasks[s.dev.handle.value] == Deleted
    && (t != s.dev.handle.value ==> s'.dev.tasks[t] == Idle)
    && (forall u :: 0 <= u < |s.dev.tasks| && u != t && u != s.dev.handle.value ==> s'.dev.tasks[u] == s.dev.tasks[u])
    && s'.dev.queue == s.dev.queue && s'.dev.settings == s.dev.settings && s'.dev.streams == s.dev.streams
    && s'.log.passed == s.log.passed && s'.log.dropped == s.log.dropped
    && s'.log.lost == s.log.lost + HeldBy(s.dev.tasks[t])
                      + if t != s.dev.handle.value then HeldBy(s.dev.tasks[s.dev.handle.value]) else []
  }

  /** The sniffer has a length for every frame, so a held record is always written. */
  ghost predicate HoldsFrame(s: State, t: nat)
    requires t < |s.dev.tasks|
  {
    s.dev.tasks[t].Holding? ==> s.dev.tasks[t].rec.header.origLen > 0
  }

  lemma RefusalEndsSession(cfg: Config, s: State, t: nat)
    requires WellFormed(s) && HandleWhileLive(s) && Writing(s, t) && HoldsFrame(s, t)
    ensures SessionEnded(s, Step(cfg, s, Refuse(s, t)), t)
  {
    hide ChunkBytes, FitsFilters;
    assert Live(s, t);
    assert s.log.lost + [] == s.log.lost;
  }

  lemma EndedIsDone(s: State, s': State, t: nat)
    requires WellFormed(s) && Writing(s, t) && SessionEnded(s, s', t)
    ensures Done(s', s.dev.sock.value)
  {
    hide FitsFilters;
  }

  lemma HeldIsFrame(cfg: Config, fl: Flash, es: seq<Event>, t: nat)
    requires FitsFilters(fl) && ValidEvents(cfg, es) && t < |Run(cfg, fl, es).dev.tasks|
    ensures HoldsFrame(Run(cfg, fl, es), t)
  {
    hide Run, Consistent, FitsFilters, ValidArrival;
    var s := Run(cfg, fl, es);
    RunConsistent(cfg, fl, es);
    if s.dev.tasks[t].Holding? {
      assert Live(s, t);
      var a := HeldWasBuilt(cfg, s, t);
    }
  }

  /**
   In every run, a refused write ends the session of the client, and the client is sent nothing more in any
   continuation.
   */
  lemma RefusedWrite(cfg: Config, fl: Flash, es: seq<Event>, t: nat, more: seq<Event>)
    requires FitsFilters(fl) && ValidEvents(cfg, es) && ValidEvents(cfg, more)
    requires Writing(Run(cfg, fl, es), t)
    ensures var s := Run(cfg, fl, es);
            var refused := es + [Refuse(s, t)];
            && ValidEvents(cfg, refused) && ValidEvents(cfg, refused + more)
            && SessionEnded(s, Run(cfg, fl, refused), t)
            && s.dev.sock.value < |s.dev.streams| && s.dev.sock.value < |Run(cfg, fl, refused + more).dev.streams|
            && Run(cfg, fl, refused + more).dev.streams[s.dev.sock.value] == s.dev.streams[s.dev.sock.value]
  {
    hide Run, Step, FitsFilters, HandleWhileLive;
    var s := Run(cfg, fl, es);
    RunHandle(cfg, fl, es);
    HeldIsFrame(cfg, fl, es, t);
    hide HoldsFrame;
    RefusalEndsSession(cfg, s, t);
    RunSnoc(cfg, fl, es, Refuse(s, t));
    var refused := es + [Refuse(s, t)];
    EndedIsDone(s, Run(cfg, fl, refused), t);
    hide ValidEvent;
    DoneForever(cfg, fl, refused, more, s.dev.sock.value);
  }

  /** With one client at a time, exactly the refused record is lost and no task is left. */
  lemma GuardedRefusal(cfg: Config, fl: Flash, es: seq<Event>, t: nat)
    requires FitsFilters(fl) && ValidEvents(cfg, es) && Guarded(cfg, fl, es) && Writing(Run(cfg, fl, es), t)
    ensures var s := Run(cfg, fl, es);
            && ValidEvents(cfg, es + [Refuse(s, t)])
            && Run(cfg, fl, es + [Refuse(s, t)]).log.lost == s.log.lost + HeldBy(s.dev.tasks[t])
            && forall u: nat :: !Live(Run(cfg, fl, es + [Refuse(s, t)]), u)
  {
    var s := Run(cfg, fl, es);
    RunOrderly(cfg, fl, es);
    RefusedWrite(cfg, fl, es, t, []);
    hide Run, Step, FitsFilters, InOrder, HeaderInTime, ListensWhileServing, AllFramed;
    var s' := Run(cfg, fl, es + [Refuse(s, t)]);
    assert Live(s, t);
    assert s.log.lost + HeldBy(s.dev.tasks[t]) + [] == s.log.lost + HeldBy(s.dev.tasks[t]);
    forall u: nat ensures !Live(s', u) {
      assert Live(s, u) ==> u == t;
    }
  }

  // ---- Accepts and restarts ----

  /**
   In every run an accept connects the new client, with an empty stream, and starts a task if it can; every older
   client is sent nothing more in any continuation.
   */
  lemma AcceptReplaces(cfg: Config, fl: Flash, es: seq<Event>, created: bool, more: seq<Event>, c: nat)
    requires FitsFilters(fl) && ValidEvents(cfg, es) && ValidEvents(cfg, more)
    requires c < |Run(cfg, fl, es).dev.streams|
    ensures ValidEvents(cfg, es + [Accept(created)]) && ValidEvents(cfg, es + [Accept(created)] + more)
    ensures var s, s' := Run(cfg, fl, es), Run(cfg, fl, es + [Accept(created)]);
            && s'.dev == s.dev.(sock := Some(|s.dev.streams|), streams := s.dev.streams + [[]],
                                tasks := s.dev.tasks + (if created then [Created] else []),
                                handle := if created then Some(|s.dev.tasks|) else s.dev.handle)
            && s'.log == s.log.(clients := s.log.clients + [[]])
    ensures var later := Run(cfg, fl, es + [Accept(created)] + more).dev.streams;
            c < |later| && later[c] == Run(cfg, fl, es).dev.streams[c]
  {
    hide Run, FitsFilters;
    RunSnoc(cfg, fl, es, Accept(created));
    assert Run(cfg, fl, es).dev.tasks + [] == Run(cfg, fl, es).dev.tasks;
    hide ValidEvent;
    DoneForever(cfg, fl, es + [Accept(created)], more, c);
  }

  /**
   In every run a restart leaves no client, no task and no queue, the driver quiet, and every client of before
   without another byte in any continuation; the records that were in memory are lost.
   */
  lemma RestartEndsAll(cfg: Config, fl: Flash, es: seq<Event>, more: seq<Event>, c: nat)
    requires FitsFilters(fl) && ValidEvents(cfg, es) && ValidEvents(cfg, more)
    requires c < |Run(cfg, fl, es).dev.streams|
    ensures ValidEvents(cfg, es + [Reboot]) && ValidEvents(cfg, es + [Reboot] + more)
    ensures var s, s' := Run(cfg, fl, es), Run(cfg, fl, es + [Reboot]);
            && s'.dev.sock == None && s'.dev.queue == [] && !s'.dev.promiscuous && s'.dev.streams == s.dev.streams
            && (forall t: nat :: !Live(s', t))
            && s'.log == s.log.(lost := s.log.lost + Held(s.dev.tasks) + s.dev.queue)
    ensures var later := Run(cfg, fl, es + [Reboot] + more).dev.streams;
            c < |later| && later[c] == Run(cfg, fl, es).dev.streams[c]
  {
    hide Run, FitsFilters, Held, InitConfig;
    RunSnoc(cfg, fl, es, Reboot);
    hide ValidEvent;
    DoneForever(cfg, fl, es + [Reboot], more, c);
  }

  // ---- The filter of a run ----

  /** The setter calls of a run, in order. */
  function Calls(es: seq<Event>): seq<Setter> {
    if es == [] then []
    else Calls(es[..|es| - 1]) + if es[|es| - 1].Configure? then [es[|es| - 1].c] else []
  }

  lemma CallsSnoc(prefix: seq<byte>, rssi: int8, calls: seq<Setter>, c: Setter)
    ensures LastAddr2(prefix, calls + [c]) == if c.Addr2? then c.f.addr[..c.f.size] else LastAddr2(prefix, calls)
    ensures LastRssi(rssi, calls + [c]) ==
            if c.Addr2? then LastRssi(rssi, calls) else if c.rssi == 0 then -96 else c.rssi
  {
    assert (calls + [c])[..|calls|] == calls;
  }

  lemma StepFilter(cfg: Config, s: State, e: Event)
    requires WellFormed(s) && ValidEvent(cfg, e) && InStep(s.dev.settings) && s.dev.settings.ram.own == cfg.own
    ensures var f, g := s.dev.settings.ram, Step(cfg, s, e).dev.settings.ram;
            InForce(g, cfg.own,
                    if e.Configure? && e.c.Addr2? then e.c.f.addr[..e.c.f.size] else f.addr2.addr[..f.addr2.size],
                    if e.Configure? && e.c.Rssi? then if e.c.rssi == 0 then -96 else e.c.rssi else f.rssi)
  {
    match e
    case Configure(c) => SetterFilter(s.dev.settings, c);
    case Reboot =>
      hide InitConfig, InStep, Held;
      RestartKeeps(s.dev.settings);
      InitInStep(s.dev.settings.flash, cfg.own);
    case _ => hide BuildRec, ValidArrival, Passes, ChunkBytes, FitsFilters, InStep;
  }

  /**
   In every reachable state, restarts included, the filter in force is the device's own address and the prefix and
   threshold last set in the run, or else those flash held at power-on.
   */
  lemma {:induction false} RunFilter(cfg: Config, fl: Flash, es: seq<Event>)
    requires FitsFilters(fl) && ValidEvents(cfg, es)
    ensures InForce(Run(cfg, fl, es).dev.settings.ram, cfg.own,
                    LastAddr2(StoredAddr2(fl), Calls(es)), LastRssi(StoredRssi(fl), Calls(es)))
    decreases |es|
  {
    hide Step, FitsFilters, ValidEvent, StoredAddr2, StoredRssi, LastAddr2, LastRssi, InitConfig;
    if es == [] {
      BootFilter(fl, cfg.own);
      NoCalls(StoredAddr2(fl), StoredRssi(fl));
    } else {
      var n := |es| - 1;
      RunFilter(cfg, fl, es[..n]);
      RunConsistent(cfg, fl, es[..n]);
      StepFilter(cfg, Run(cfg, fl, es[..n]), es[n]);
      if es[n].Configure? {
        CallsSnoc(StoredAddr2(fl), StoredRssi(fl), Calls(es[..n]), es[n].c);
      } else {
        assert Calls(es) == Calls(es[..n]);
      }
    }
  }

  lemma NoCalls(prefix: seq<byte>, rssi: int8)
    ensures LastAddr2(prefix, []) == prefix && LastRssi(rssi, []) == rssi
  {
  }

  // ---- The other turns, in every run ----

  /** With this own address, prefix and threshold the frame is one to record; said of its bytes. */
  predicate Wanted(own: AddrFilter, addr2: AddrFilter, rssi: int8, a: Arrival) {
    var p := a.pkt.payload;
    && a.kind != Misc && a.pkt.rx.rxState == 0 && |p| >= 2
    && (rssi == 0 || (rssi < 0 && rssi <= a.pkt.rx.rssi))
    && (a.lockOk ==> !OwnInHeader(a.kind, p, own) && PrefixInHeader(a.kind, p, addr2))
  }

  lemma PassesIffWanted(f: Filter, a: Arrival)
    requires Deliverable(a)
    ensures Passes(f, a) <==> Wanted(f.own, f.addr2, f.rssi, a)
  {
    hide OwnInHeader, PrefixInHeader, FrameControl, HeaderEnd, Inspect;
    DecidesByHeaderBytes(f, a.kind, WithoutFcs(a.pkt), a.lockOk);
  }

  /**
   In every run, while the driver calls back: a frame is recorded exactly when it is wanted by the settings last
   made; its record goes to the end of the queue, or is dropped when the queue is full. Else nothing changes.
   */
  lemma FrameTaken(cfg: Config, fl: Flash, es: seq<Event>, a: Arrival, addr2: AddrFilter)
    requires FitsFilters(fl) && ValidEvents(cfg, es) && ValidArrival(cfg, a) && Run(cfg, fl, es).dev.promiscuous
    requires addr2.addr[..addr2.size] == LastAddr2(StoredAddr2(fl), Calls(es))
    ensures ValidEvents(cfg, es + [Frame(a)])
    ensures var s, s' := Run(cfg, fl, es), Run(cfg, fl, es + [Frame(a)]);
            if Wanted(cfg.own, addr2, LastRssi(StoredRssi(fl), Calls(es)), a) then
              && s'.log.passed == s.log.passed + [Passed(a, BuildRec(cfg, a), s.dev.settings.ram)]
              && s'.log.lost == s.log.lost && s'.log.clients == s.log.clients
              && s'.dev == s.dev.(queue := s'.dev.queue)
              && s'.dev.queue + s'.log.dropped[|s.log.dropped|..] == s.dev.queue + [BuildRec(cfg, a)]
              && s.log.dropped <= s'.log.dropped
              && (|s'.log.dropped| == |s.log.dropped| <==> |s.dev.queue| < cfg.capacity)
            else s' == s
  {
    hide Run, FitsFilters, ValidArrival, BuildRec, Passes, LastAddr2, LastRssi, StoredAddr2, StoredRssi, Accepts, Wanted;
    RunSnoc(cfg, fl, es, Frame(a));
    RunFilter(cfg, fl, es);
    ArrivalDeliverable(cfg, a);
    var s := Run(cfg, fl, es);
    var rssi := LastRssi(StoredRssi(fl), Calls(es));
    PassesIffWanted(Filter(cfg.own, addr2, rssi), a);
    SamePasses(s.dev.settings.ram, Filter(cfg.own, addr2, rssi), a);
    assert s.dev.queue + [] == s.dev.queue;
  }

  lemma SamePasses(f: Filter, g: Filter, a: Arrival)
    requires Deliverable(a) && SameSettings(f, g)
    ensures Passes(f, a) <==> Passes(g, a)
  {
    hide Accepts, Readable;
    SameSettingsDecideAlike(f, g, a.kind, WithoutFcs(a.pkt), a.lockOk);
  }

  /** In every run an idle task takes the oldest record, whatever other tasks there are. */
  lemma OldestTaken(cfg: Config, fl: Flash, es: seq<Event>, t: nat)
    requires FitsFilters(fl) && ValidEvents(cfg, es) && t < |Run(cfg, fl, es).dev.tasks|
    requires Run(cfg, fl, es).dev.tasks[t].Idle? && Run(cfg, fl, es).dev.queue != []
    ensures ValidEvents(cfg, es + [Pop(t)])
    ensures var s, s' := Run(cfg, fl, es), Run(cfg, fl, es + [Pop(t)]);
            && s'.log == s.log && [s'.dev.tasks[t]] == [Holding(s.dev.queue[0])]
            && s'.dev == s.dev.(tasks := s.dev.tasks[t := s'.dev.tasks[t]], queue := s'.dev.queue)
            && [s.dev.queue[0]] + s'.dev.queue == s.dev.queue
  {
    hide Run, FitsFilters;
    RunSnoc(cfg, fl, es, Pop(t));
    assert Live(Run(cfg, fl, es), t);
  }

  /** What task t has to write: the file header, or the record it holds. */
  function Due(cfg: Config, s: State, t: nat): seq<byte>
    requires Writing(s, t)
  {
    if s.dev.tasks[t].Opened? then FileHeaderBytes(cfg) else SentBytes(s.dev.tasks[t].rec)
  }

  function Deliver(s: State, t: nat): Event
    requires Writing(s, t)
  {
    if s.dev.tasks[t].Opened? then SendHeader(t, true) else SendRecord(t, true)
  }

  /** In every run a write that succeeds puts exactly its bytes on the newest client's stream, and nothing is lost. */
  lemma WriteDelivers(cfg: Config, fl: Flash, es: seq<Event>, t: nat)
    requires FitsFilters(fl) && ValidEvents(cfg, es) && Writing(Run(cfg, fl, es), t)
    ensures var s := Run(cfg, fl, es);
            && ValidEvents(cfg, es + [Deliver(s, t)])
            && s.dev.sock == Some(|s.dev.streams| - 1)
            && Run(cfg, fl, es + [Deliver(s, t)]).dev
               == s.dev.(tasks := s.dev.tasks[t := Idle], streams := Init(s.dev.streams) + [Last(s.dev.streams) + Due(cfg, s, t)])
            && Run(cfg, fl, es + [Deliver(s, t)]).log == s.log.(clients := Run(cfg, fl, es + [Deliver(s, t)]).log.clients)
  {
    HeldIsFrame(cfg, fl, es, t);
    hide Run, FitsFilters, EncodeFileHeader, SentBytes;
    var s := Run(cfg, fl, es);
    assert Live(s, t);
    RunSnoc(cfg, fl, es, Deliver(s, t));
    var c := s.dev.sock.value;
    assert s.dev.streams[c := s.dev.streams[c] + Due(cfg, s, t)] == Init(s.dev.streams) + [Last(s.dev.streams) + Due(cfg, s, t)];
  }

  /** In every run a task without a client goes on: the header is skipped, a held record is lost, nothing else changes. */
  lemma WriteWithoutClient(cfg: Config, fl: Flash, es: seq<Event>, t: nat, ok: bool)
    requires FitsFilters(fl) && ValidEvents(cfg, es) && Run(cfg, fl, es).dev.sock.None?
    requires t < |Run(cfg, fl, es).dev.tasks| && (Run(cfg, fl, es).dev.tasks[t].Opened? || Run(cfg, fl, es).dev.tasks[t].Holding?)
    ensures var s := Run(cfg, fl, es);
            var e := if s.dev.tasks[t].Opened? then SendHeader(t, ok) else SendRecord(t, ok);
            && ValidEvents(cfg, es + [e])
            && Run(cfg, fl, es + [e]).dev == s.dev.(tasks := s.dev.tasks[t := Idle])
            && Run(cfg, fl, es + [e]).log == s.log.(lost := s.log.lost + HeldBy(s.dev.tasks[t]))
  {
    hide Run, FitsFilters;
    var s := Run(cfg, fl, es);
    assert Live(s, t);
    RunSnoc(cfg, fl, es, if s.dev.tasks[t].Opened? then SendHeader(t, ok) else SendRecord(t, ok));
    assert s.log.lost + [] == s.log.lost;
  }
}
