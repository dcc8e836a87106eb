/**
 The ESP32 firmware as the object it is: the static variables of main.c and wifi_sniffer.c, and the callbacks
 and task actions that change them. Every method is proved to do exactly one step of the step system.
 */
module Firmware {
  import opened Bytes
  import opened Sequences
  import opened Pcap
  import opened Capture
  import opened Frames
  import opened FilterTraces
  import opened Nvs
  import opened FilterStore
  import opened Pipeline

  class Sniffer {
    const cfg: Config
    const nvs: NvsFlash
    var sock: Option<nat>
    var tasks: seq<Phase>
    var handle: Option<nat>
    var promiscuous: bool
    var queue: seq<QueuedRec>
    var own: AddrFilter
    var addr2: AddrFilter
    var rssi: int8
    var streams: seq<seq<byte>>
    ghost var log: Log

    ghost function Model(): State
      reads this, nvs
    {
      State(Device(sock, tasks, handle, promiscuous, queue, Settings(Filter(own, addr2, rssi), nvs.Image()), streams), log)
    }

    ghost predicate Valid()
      reads this, nvs
    {
      WellFormed(Model())
    }

    /** Power-on, up to the end of setup without CONFIG_LILIGO_S3. */
    constructor (cfg: Config, nvs: NvsFlash)
      requires FitsFilters(nvs.Image())
      modifies nvs
      ensures Valid() && this.cfg == cfg && this.nvs == nvs
      ensures Model() == Boot(cfg, old(nvs.Image()))
    {
      this.cfg, this.nvs := cfg, nvs;
      sock, tasks, handle, promiscuous, queue, streams := None, [], None, false, [], [];
      own, addr2, rssi := AddrFilter(NO_BYTES, 0), AddrFilter(NO_BYTES, 0), RSSI_DEFAULT;
      log := Log([], [], [], []);
      new;
      SnifferInitConfig();
    }

    // ---- Settings ----

    method SnifferSetOwnMacFilter(f: AddrFilter)
      requires FitsFilters(nvs.Image())
      modifies this`own, nvs
      ensures own == f && nvs.Image() == SaveMac(old(nvs.Image()), OWN_KEY, f)
    {
      own := f;
      SetFilterMac(nvs, OWN_KEY, f);
    }

    method SnifferSetAddr2Filter(f: AddrFilter)
      requires Valid()
      modifies this`addr2, nvs
      ensures Valid() && Model() == Step(cfg, old(Model()), Configure(Addr2(f)))
    {
      addr2 := f;
      SetFilterMac(nvs, ADDR2_KEY, f);
    }

    method SnifferSetRssiFilter(value: int8)
      requires Valid()
      modifies this`rssi, nvs
      ensures Valid() && Model() == Step(cfg, old(Model()), Configure(Rssi(value)))
    {
      var r := value;
      if r == 0 {
        r := RSSI_DEFAULT;
      }
      rssi := r;
      SetFilterRssi(nvs, r);
    }

    method SnifferInitConfig()
      requires Valid()
      modifies this`own, this`addr2, this`rssi, nvs
      ensures Valid()
      ensures Settings(Filter(own, addr2, rssi), nvs.Image()) == InitConfig(old(nvs.Image()), cfg.own)
    {
      hide SaveMac, LoadMac, SaveRssi, LoadRssi, FitsFilters;
      SnifferSetOwnMacFilter(cfg.own);
      var storedRssi := GetFilterRssi(nvs);
      SnifferSetRssiFilter(storedRssi);
      var storedAddr2 := GetFilterMac(nvs, ADDR2_KEY);
      SnifferSetAddr2Filter(storedAddr2);
    }

    /** RAM is lost and the firmware starts again. */
    method Restart()
      requires Valid()
      modifies this, nvs
      ensures Valid() && streams == old(streams) && Model() == Step(cfg, old(Model()), Reboot)
    {
      hide InitConfig, Held, FitsFilters, AllDeleted;
      log := log.(lost := log.lost + Held(tasks) + queue);
      sock, handle, promiscuous, queue := None, None, false, [];
      tasks := AllDeleted(tasks);
      SnifferInitConfig();
    }

    // ---- The driver callback ----

    method SnifferAddQueue(rec: QueuedRec) returns (ok: bool)
      modifies this`queue, this`log
      ensures ok == (|old(queue)| < cfg.capacity)
      ensures queue == if ok then old(queue) + [rec] else old(queue)
      ensures log == if ok then old(log) else old(log).(dropped := old(log).dropped + [rec])
    {
      if |queue| < cfg.capacity {
        queue := queue + [rec];
        ok := true;
      } else {
        log := log.(dropped := log.dropped + [rec]);
        ok := false;
      }
    }

    /** The driver calls back only in promiscuous mode. */
    method PacketHandler(a: Arrival)
      requires Valid() && ValidArrival(cfg, a) && promiscuous
      modifies this`queue, this`log
      ensures Valid() && Model() == Step(cfg, old(Model()), Frame(a))
    {
      var pkt := a.pkt;
      if a.kind != Misc && pkt.rx.rxState == 0 {
        pkt := WithoutFcs(pkt);
        var rssiFilter := rssi == 0 || (rssi < 0 && pkt.rx.rssi >= rssi);
        var isOwnAddress, macFilter := false, false;
        if a.lockOk {
          var i := Inspect(Filter(own, addr2, rssi), a.kind, pkt.payload);
          isOwnAddress, macFilter := i.isOwnAddress, i.macFilter;
        } else {
          macFilter := true;
        }
        if rssiFilter && !isOwnAddress && macFilter {
          var rec := CreateRecord(cfg.snaplen, pkt);
          log := log.(passed := log.passed + [Passed(a, rec, Filter(own, addr2, rssi))]);
          var ok := SnifferAddQueue(rec);
        }
      }
    }

    // ---- Clients ----

    method SnifferStart(created: bool)
      requires Valid()
      modifies this`tasks, this`handle
      ensures Valid() && Model() == if created then StepStart(old(Model())) else old(Model())
    {
      if created {
        handle := Some(|tasks|);
        tasks := tasks + [Created];
      }
    }

    method OnSocketAccept(taskCreated: bool)
      requires Valid()
      modifies this`sock, this`streams, this`tasks, this`handle, this`log
      ensures Valid() && Model() == Step(cfg, old(Model()), Accept(taskCreated))
    {
      sock := Some(|streams|);
      streams := streams + [[]];
      log := log.(clients := log.clients + [[]]);
      SnifferStart(taskCreated);
    }

    /** All bytes or an error. */
    method OnSend(bs: seq<byte>, ghost chunk: Chunk, ok: bool) returns (sent: bool)
      requires Valid() && sock.Some?
      modifies this`streams, this`log
      ensures Valid() && sent == ok
      ensures Model() == if ok then Write(old(Model()), bs, chunk) else old(Model())
    {
      if ok {
        streams := streams[sock.value := streams[sock.value] + bs];
        log := log.(clients := log.clients[sock.value := log.clients[sock.value] + [chunk]]);
      }
      sent := ok;
    }

    /** Called by task t. */
    method SnifferStop(t: nat)
      requires Valid() && t < |tasks|
      modifies this`promiscuous, this`tasks, this`log
      ensures Valid() && Model() == StepStop(old(Model()), t)
    {
      promiscuous := false;
      var victim := if handle.Some? then handle.value else t;
      log := log.(lost := log.lost + HeldBy(tasks[victim]));
      tasks := tasks[victim := Deleted];
    }

    // ---- The sniffer task ----

    method TaskOpen(t: nat)
      requires Valid() && t < |tasks| && tasks[t].Created?
      modifies this`promiscuous, this`tasks
      ensures Valid() && Model() == Step(cfg, old(Model()), Open(t))
    {
      promiscuous := true;
      tasks := tasks[t := Opened];
    }

    method OnStartCapture(t: nat, ok: bool)
      requires Valid() && t < |tasks| && tasks[t].Opened?
      modifies this`sock, this`streams, this`promiscuous, this`tasks, this`log
      ensures Valid() && Model() == Step(cfg, old(Model()), SendHeader(t, ok))
    {
      tasks := tasks[t := Idle];
      if sock.Some? {
        var sent := OnSend(EncodeFileHeader(FileHeaderOf(cfg.snaplen)), HeaderChunk, ok);
        if !sent {
          sock := None;
          SnifferStop(t);
        }
      }
    }

    method TaskReceive(t: nat)
      requires Valid() && t < |tasks| && tasks[t].Idle?
      modifies this`queue, this`tasks
      ensures Valid() && Model() == Step(cfg, old(Model()), Pop(t))
    {
      if queue != [] {
        tasks := tasks[t := Holding(queue[0])];
        queue := queue[1..];
      }
    }

    method OnCapture(t: nat, ok: bool)
      requires Valid() && t < |tasks| && tasks[t].Holding?
      modifies this`sock, this`streams, this`promiscuous, this`tasks, this`log
      ensures Valid() && Model() == Step(cfg, old(Model()), SendRecord(t, ok))
    {
      var rec := tasks[t].rec;
      tasks := tasks[t := Idle];
      if sock.Some? && rec.header.origLen > 0 {
        var sent := OnSend(SentBytes(rec), RecordChunk(rec), ok);
        if !sent {
          log := log.(lost := log.lost + [rec]);
          sock := None;
          SnifferStop(t);
        }
      } else {
        log := log.(lost := log.lost + [rec]);
      }
    }
  }
}
