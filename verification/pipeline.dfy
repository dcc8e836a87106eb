/**
 The ESP32 capture pipeline as a step system: the driver callback, the TCP accept callback, the sniffer tasks,
 the setters and a reboot, interleaved in any order. Each callback and each task action is one atomic step.
 */
module Pipeline {
  import opened Bytes
  import opened Sequences
  import opened Pcap
  import opened Capture
  import opened Frames
  import opened FilterTraces
  import opened Nvs
  import opened FilterStore

  datatype Config = Config(snaplen: SnapLen, capacity: nat, own: AddrFilter)

  /** A record whose write stays inside the packed struct. */
  type QueuedRec = r: PcapRec | Sendable(r)
    witness PcapRec(RecHeader(0, 0, 0, 0), TapHeader(0, 0, 0, 0), TapData(0, 0, 0, 0, 0, 0, 0, 0), [])

  /** Where a sniffer task stands; the index of a task is its place in the order of creation. */
  datatype Phase = Created | Opened | Idle | Holding(rec: QueuedRec) | Deleted

  /** One successful write to a client. */
  datatype Chunk = HeaderChunk | RecordChunk(rec: QueuedRec)

  /** sock names the connection most recently accepted, or none; streams holds the bytes each client was sent. */
  datatype Device = Device(
    sock: Option<nat>, tasks: seq<Phase>, handle: Option<nat>, promiscuous: bool,
    queue: seq<QueuedRec>, settings: Settings, streams: seq<seq<byte>>)

  /** A frame the handler let through, the record it made of it, and the filter in force. */
  datatype Passed = Passed(a: Arrival, rec: QueuedRec, f: Filter)

  /** The history of a run. */
  datatype Log = Log(passed: seq<Passed>, dropped: seq<QueuedRec>, lost: seq<QueuedRec>, clients: seq<seq<Chunk>>)

  datatype State = State(dev: Device, log: Log)

  datatype Event =
    | Frame(a: Arrival)
    | Accept(taskCreated: bool)
    | Start
    | Open(t: nat)
    | SendHeader(t: nat, ok: bool)
    | Pop(t: nat)
    | SendRecord(t: nat, ok: bool)
    | Configure(c: Setter)
    | Reboot

  /** The driver hands over buffers in which the header fields and incl_len bytes can be read. */
  predicate ValidArrival(cfg: Config, a: Arrival) {
    Deliverable(a) && Copyable(cfg.snaplen, WithoutFcs(a.pkt))
  }

  predicate ValidEvent(cfg: Config, e: Event) {
    e.Frame? ==> ValidArrival(cfg, e.a)
  }

  predicate ValidEvents(cfg: Config, es: seq<Event>) {
    forall i :: 0 <= i < |es| ==> ValidEvent(cfg, es[i])
  }

  predicate WellFormed(s: State) {
    && |s.dev.streams| == |s.log.clients|
    && (s.dev.sock.Some? ==> s.dev.sock.value + 1 == |s.log.clients|)
    && (s.dev.handle.Some? ==> s.dev.handle.value < |s.dev.tasks|)
    && FitsFilters(s.dev.settings.flash)
  }

  function BuildRec(cfg: Config, a: Arrival): QueuedRec
    requires ValidArrival(cfg, a)
  {
    CreateRecord(cfg.snaplen, WithoutFcs(a.pkt))
  }

  // ---- The steps ----

  /** wifi_sniffer_packet_handler and sniffer_add_queue; the driver calls back in promiscuous mode only. */
  function StepFrame(cfg: Config, s: State, a: Arrival): (s': State)
    requires ValidArrival(cfg, a)
    ensures WellFormed(s) ==> WellFormed(s')
  {
    if !s.dev.promiscuous || !Passes(s.dev.settings.ram, a) then s
    else
      var rec := BuildRec(cfg, a);
      var passed := s.log.passed + [Passed(a, rec, s.dev.settings.ram)];
      if |s.dev.queue| < cfg.capacity then
        State(s.dev.(queue := s.dev.queue + [rec]), s.log.(passed := passed))
      else
        State(s.dev, s.log.(passed := passed, dropped := s.log.dropped + [rec]))
  }

  /** sniffer_start: a new task, and the handle of the newest one. */
  function StepStart(s: State): (s': State)
    ensures WellFormed(s) ==> WellFormed(s')
  {
    s.(dev := s.dev.(tasks := s.dev.tasks + [Created], handle := Some(|s.dev.tasks|)))
  }

  /** on_socket_accept_handler: whatever client there was is replaced and a task is started. */
  function StepAccept(s: State, taskCreated: bool): (s': State)
    ensures WellFormed(s) ==> WellFormed(s')
  {
    var connected := State(s.dev.(sock := Some(|s.log.clients|), streams := s.dev.streams + [[]]),
                           s.log.(clients := s.log.clients + [[]]));
    if taskCreated then StepStart(connected) else connected
  }

  function HeldBy(p: Phase): seq<QueuedRec> {
    if p.Holding? then [p.rec] else []
  }

  predicate Live(s: State, t: nat) {
    t < |s.dev.tasks| && s.dev.tasks[t] != Deleted
  }

  function SetPhase(s: State, t: nat, p: Phase): State
    requires t < |s.dev.tasks|
  {
    s.(dev := s.dev.(tasks := s.dev.tasks[t := p]))
  }

  /** sniffer_stop, called by task t: the task named by the handle goes, with the record it may hold. */
  function StepStop(s: State, t: nat): (s': State)
    requires t < |s.dev.tasks| && WellFormed(s)
    ensures WellFormed(s')
  {
    var victim := if s.dev.handle.Some? then s.dev.handle.value else t;
    var deaf := SetPhase(s.(dev := s.dev.(promiscuous := false)), victim, Deleted);
    deaf.(log := s.log.(lost := s.log.lost + HeldBy(s.dev.tasks[victim])))
  }

  /** The write failed: the client is forgotten and the sniffer stopped. */
  function FailSend(s: State, t: nat): (s': State)
    requires t < |s.dev.tasks| && WellFormed(s)
    ensures WellFormed(s')
  {
    StepStop(s.(dev := s.dev.(sock := None)), t)
  }

  /** A whole write of bs to the connected client. */
  function Write(s: State, bs: seq<byte>, chunk: Chunk): (s': State)
    requires WellFormed(s) && s.dev.sock.Some?
    ensures WellFormed(s')
  {
    var c := s.dev.sock.value;
    State(s.dev.(streams := s.dev.streams[c := s.dev.streams[c] + bs]),
          s.log.(clients := s.log.clients[c := s.log.clients[c] + [chunk]]))
  }

  function ChunkBytes(cfg: Config, chunk: Chunk): seq<byte> {
    match chunk
    case HeaderChunk => EncodeFileHeader(FileHeaderOf(cfg.snaplen))
    case RecordChunk(rec) => SentBytes(rec)
  }

  function StepOpen(s: State, t: nat): (s': State)
    ensures WellFormed(s) ==> WellFormed(s')
  {
    if Live(s, t) && s.dev.tasks[t].Created? then
      SetPhase(s.(dev := s.dev.(promiscuous := true)), t, Opened)
    else s
  }

  /** capture_start and on_start_capture */
  function StepSendHeader(cfg: Config, s: State, t: nat, ok: bool): (s': State)
    requires WellFormed(s)
    ensures WellFormed(s')
  {
    if !Live(s, t) || !s.dev.tasks[t].Opened? then s
    else
      var running := SetPhase(s, t, Idle);
      if s.dev.sock.None? then running
      else if ok then Write(running, ChunkBytes(cfg, HeaderChunk), HeaderChunk)
      else FailSend(running, t)
  }

  function StepPop(s: State, t: nat): (s': State)
    ensures WellFormed(s) ==> WellFormed(s')
  {
    if Live(s, t) && s.dev.tasks[t].Idle? && s.dev.queue != [] then
      SetPhase(s.(dev := s.dev.(queue := s.dev.queue[1..])), t, Holding(s.dev.queue[0]))
    else s
  }

  function Lose(s: State, rec: QueuedRec): State {
    s.(log := s.log.(lost := s.log.lost + [rec]))
  }

  /** capture_on_send and on_capture */
  function StepSendRecord(cfg: Config, s: State, t: nat, ok: bool): (s': State)
    requires WellFormed(s)
    ensures WellFormed(s')
  {
    if !Live(s, t) || !s.dev.tasks[t].Holding? then s
    else
      var rec := s.dev.tasks[t].rec;
      var idle := SetPhase(s, t, Idle);
      if s.dev.sock.None? || rec.header.origLen == 0 then Lose(idle, rec)
      else if ok then Write(idle, ChunkBytes(cfg, RecordChunk(rec)), RecordChunk(rec))
      else FailSend(Lose(idle, rec), t)
  }

  function Held(tasks: seq<Phase>): seq<QueuedRec> {
    if tasks == [] then [] else Held(tasks[..|tasks| - 1]) + HeldBy(tasks[|tasks| - 1])
  }

  function AllDeleted(tasks: seq<Phase>): seq<Phase> {
    seq(|tasks|, i => Deleted)
  }

  /** RAM is lost: tasks, queue and connection go, the filters are read back from flash. */
  function StepReboot(cfg: Config, s: State): (s': State)
    requires WellFormed(s)
    ensures WellFormed(s')
  {
    State(Device(None, AllDeleted(s.dev.tasks), None, false, [],
                 InitConfig(s.dev.settings.flash, cfg.own), s.dev.streams),
          s.log.(lost := s.log.lost + Held(s.dev.tasks) + s.dev.queue))
  }

  function Step(cfg: Config, s: State, e: Event): (s': State)
    requires WellFormed(s) && ValidEvent(cfg, e)
    ensures WellFormed(s')
  {
    match e
    case Frame(a) => StepFrame(cfg, s, a)
    case Accept(taskCreated) => StepAccept(s, taskCreated)
    case Start => StepStart(s)
    case Open(t) => StepOpen(s, t)
    case SendHeader(t, ok) => StepSendHeader(cfg, s, t, ok)
    case Pop(t) => StepPop(s, t)
    case SendRecord(t, ok) => StepSendRecord(cfg, s, t, ok)
    case Configure(c) => s.(dev := s.dev.(settings := Apply(s.dev.settings, c)))
    case Reboot => StepReboot(cfg, s)
  }

  // ---- Runs ----

  function Boot(cfg: Config, fl: Flash): (s: State)
    requires FitsFilters(fl)
    ensures WellFormed(s)
  {
    State(Device(None, [], None, false, [], InitConfig(fl, cfg.own), []), Log([], [], [], []))
  }

  function Run(cfg: Config, fl: Flash, es: seq<Event>): (s: State)
    requires FitsFilters(fl) && ValidEvents(cfg, es)
    ensures WellFormed(s)
    decreases |es|
  {
    if es == [] then Boot(cfg, fl) else Step(cfg, Run(cfg, fl, es[..|es| - 1]), es[|es| - 1])
  }

  /** The step adds no task while a client is connected and starts none without a client. */
  predicate GuardedStep(s: State, e: Event) {
    && (e.Accept? ==> s.dev.sock.None?)
    && !e.Start?
  }

  predicate Guarded(cfg: Config, fl: Flash, es: seq<Event>)
    requires FitsFilters(fl) && ValidEvents(cfg, es)
    decreases |es|
  {
    es == [] || (Guarded(cfg, fl, es[..|es| - 1]) && GuardedStep(Run(cfg, fl, es[..|es| - 1]), es[|es| - 1]))
  }

  // ---- Reading a state ----

  function Built(passed: seq<Passed>): seq<QueuedRec> {
    if passed == [] then [] else Built(passed[..|passed| - 1]) + [passed[|passed| - 1].rec]
  }

  function RecordOf(chunk: Chunk): seq<QueuedRec> {
    if chunk.RecordChunk? then [chunk.rec] else []
  }

  function RecordsOf(chunks: seq<Chunk>): seq<QueuedRec> {
    if chunks == [] then [] else RecordsOf(chunks[..|chunks| - 1]) + RecordOf(chunks[|chunks| - 1])
  }

  function Delivered(clients: seq<seq<Chunk>>): seq<QueuedRec> {
    if clients == [] then [] else Delivered(clients[..|clients| - 1]) + RecordsOf(clients[|clients| - 1])
  }

  function ClientBytes(cfg: Config, chunks: seq<Chunk>): seq<byte> {
    if chunks == [] then [] else ClientBytes(cfg, chunks[..|chunks| - 1]) + ChunkBytes(cfg, chunks[|chunks| - 1])
  }
}
