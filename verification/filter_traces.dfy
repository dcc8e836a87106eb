/** What the filter settings mean for whole sequences of frames. */
module FilterTraces {
  import opened Bytes
  import opened Sequences
  import opened Capture
  import opened Frames

  /** One call of the packet handler by the driver. */
  datatype Arrival = Arrival(kind: PktType, pkt: Packet, lockOk: bool)

  predicate Deliverable(a: Arrival) {
    Readable(a.kind, WithoutFcs(a.pkt))
  }

  /** The handler first takes the frame check sequence off, then decides. */
  predicate Passes(f: Filter, a: Arrival)
    requires Deliverable(a)
  {
    Accepts(f, a.kind, WithoutFcs(a.pkt), a.lockOk)
  }

  /** The frames of a trace that one filter lets through. */
  ghost function Passing(f: Filter, trace: seq<Arrival>): seq<Arrival>
    requires forall a :: a in trace ==> Deliverable(a)
    decreases |trace|
  {
    if trace == [] then []
    else Passing(f, Init(trace)) + (if Passes(f, Last(trace)) then [Last(trace)] else [])
  }

  /** g asks for a longer prefix that begins with f's. */
  predicate Extends(g: AddrFilter, f: AddrFilter) {
    f.addr[..f.size] <= g.addr[..g.size]
  }

  /** g keeps the own address, extends the addr2 prefix and raises a negative threshold. */
  predicate Narrower(g: Filter, f: Filter) {
    && g.own == f.own
    && Extends(g.addr2, f.addr2)
    && f.rssi <= g.rssi < 0
  }

  lemma PrefixMatchMonotone(addr: seq<byte>, g: AddrFilter, f: AddrFilter)
    requires |addr| == ADDR_SIZE && Extends(g, f) && IsAddrEqual(addr, g)
    ensures IsAddrEqual(addr, f)
  {
    EqualIffPrefix(addr, g);
    EqualIffPrefix(addr, f);
  }

  lemma InspectMonotone(g: Filter, f: Filter, kind: PktType, p: seq<byte>)
    requires |p| >= 2 && |p| >= HeaderEnd(kind, FrameControl(p))
    requires g.own == f.own && Extends(g.addr2, f.addr2)
    ensures Inspect(g, kind, p).isOwnAddress == Inspect(f, kind, p).isOwnAddress
    ensures Inspect(g, kind, p).macFilter ==> Inspect(f, kind, p).macFilter
  {
    hide FrameControl, IsAddrEqual;
    forall addr: seq<byte> | |addr| == ADDR_SIZE && IsAddrEqual(addr, g.addr2)
      ensures IsAddrEqual(addr, f.addr2)
    {
      PrefixMatchMonotone(addr, g.addr2, f.addr2);
    }
  }

  lemma PassesMonotone(g: Filter, f: Filter, a: Arrival)
    requires Deliverable(a) && Narrower(g, f) && Passes(g, a)
    ensures Passes(f, a)
  {
    hide Inspect, FrameControl, HeaderEnd;
    if a.lockOk {
      InspectMonotone(g, f, a.kind, WithoutFcs(a.pkt).payload);
    }
  }

  /** A narrower filter keeps a subsequence of what the wider one keeps, on every trace. */
  lemma {:induction false} PassingMonotone(g: Filter, f: Filter, trace: seq<Arrival>)
    requires forall a :: a in trace ==> Deliverable(a)
    requires Narrower(g, f)
    ensures Subsequence(Passing(g, trace), Passing(f, trace))
    decreases |trace|
  {
    hide Passes, Deliverable;
    if trace != [] {
      var a := Last(trace);
      PassingMonotone(g, f, Init(trace));
      SubsequenceSnoc(Passing(g, Init(trace)), Passing(f, Init(trace)), a);
      if Passes(g, a) {
        PassesMonotone(g, f, a);
      }
      assert Passing(g, Init(trace)) + [] == Passing(g, Init(trace));
      assert Passing(f, Init(trace)) + [] == Passing(f, Init(trace));
    }
  }

  // ---- The condition is exact ----

  /** An ad-hoc data frame from one station to another. */
  function IbssFrame(sa: seq<byte>, da: seq<byte>): (p: seq<byte>)
    requires |sa| == ADDR_SIZE && |da| == ADDR_SIZE
    ensures |p| == 24
  {
    [0x08, 0, 0, 0] + da + sa + [0, 0, 0, 0, 0, 0, 0, 0]
  }

  function IbssArrival(sa: seq<byte>, da: seq<byte>, rssi: int8): (a: Arrival)
    requires |sa| == ADDR_SIZE && |da| == ADDR_SIZE
  {
    Arrival(Data, Packet(RxCtrl(rssi, 0, 0, 0, 0, 28, 0), IbssFrame(sa, da)), true)
  }

  lemma IbssDecision(f: Filter, sa: seq<byte>, da: seq<byte>, rssi: int8)
    requires |sa| == ADDR_SIZE && |da| == ADDR_SIZE
    ensures Deliverable(IbssArrival(sa, da, rssi))
    ensures Passes(f, IbssArrival(sa, da, rssi)) <==>
            RssiPass(f.rssi, rssi) && IsAddrEqual(sa, f.addr2) && !IsAddrEqual(sa, f.own) && !IsAddrEqual(da, f.own)
  {
    var p := IbssFrame(sa, da);
    assert p[0] == 8 && p[1] == 0;
    assert FrameControl(p) == 8;
    assert p[4..10] == da && p[10..16] == sa;
    assert Deliverable(IbssArrival(sa, da, rssi));
  }

  /** A byte different from two given ones. */
  function OtherByte(a: byte, b: byte): (c: byte)
    ensures c != a && c != b
  {
    if a != 0 && b != 0 then 0 else if a != 1 && b != 1 then 1 else 2
  }

  /** Some station address begins with g's prefix, but neither is the own address nor begins with f's. */
  lemma SeparatingAddress(g: AddrFilter, f: AddrFilter, own: seq<byte>) returns (a: seq<byte>)
    requires |own| == ADDR_SIZE && !Extends(g, f) && !(g.size == ADDR_SIZE && g.addr == own)
    ensures |a| == ADDR_SIZE && a != own && IsAddrEqual(a, g) && !IsAddrEqual(a, f)
  {
    var k := g.size;
    if k == ADDR_SIZE {
      a := g.addr;
      assert a[..k] == a;
    } else {
      a := g.addr[..k] + [OtherByte(f.addr[k], own[k])] + seq(ADDR_SIZE - k - 1, i => 0);
      assert a[k] != own[k] && a[k] != f.addr[k];
    }
    assert a[..k] == g.addr[..k];
    if f.size <= k {
      assert a[..f.size] == g.addr[..k][..f.size];
    } else {
      assert a[..f.size][k] == a[k] && f.addr[..f.size][k] == f.addr[k];
    }
  }

  ghost predicate PassesNoMore(g: Filter, f: Filter) {
    forall a :: Deliverable(a) && Passes(g, a) ==> Passes(f, a)
  }

  /** An addr2 filter that names the own address in full. */
  predicate NamesOwn(f: Filter) {
    f.own.size == ADDR_SIZE && f.addr2 == f.own
  }

  lemma FullFilterIsAddress(addr: seq<byte>, f: AddrFilter)
    requires |addr| == ADDR_SIZE && f.size == ADDR_SIZE
    ensures IsAddrEqual(addr, f) <==> addr == f.addr
  {
    assert addr[..f.size] == addr && f.addr[..f.size] == f.addr;
  }

  /** Such a filter matches only addresses that the own-address test refuses. */
  lemma OwnMatchesNothing(f: Filter, a: Arrival)
    requires Deliverable(a) && NamesOwn(f) && a.lockOk
    ensures !Passes(f, a)
  {
    hide FrameControl, IsAddrEqual;
  }

  /** With the semaphore not had only the signal decides. */
  lemma UnlockedDecision(f: Filter, sa: seq<byte>, da: seq<byte>, rssi: int8)
    requires |sa| == ADDR_SIZE && |da| == ADDR_SIZE
    ensures Deliverable(IbssArrival(sa, da, rssi).(lockOk := false))
    ensures Passes(f, IbssArrival(sa, da, rssi).(lockOk := false)) <==> RssiPass(f.rssi, rssi)
  {
    IbssDecision(f, sa, da, rssi);
    hide FrameControl, Inspect;
  }

  /** When no threshold is crossed downwards but g is not narrower, some address tells the two filters apart. */
  lemma Separated(g: Filter, f: Filter) returns (a: Arrival)
    requires g.own == f.own && f.own.size == ADDR_SIZE && f.rssi <= g.rssi < 0
    requires !Narrower(g, f) && !NamesOwn(g)
    ensures Deliverable(a) && Passes(g, a) && !Passes(f, a)
  {
    var da := [OtherByte(f.own.addr[0], f.own.addr[0]), 0, 0, 0, 0, 0];
    FullFilterIsAddress(da, f.own);
    var sa := SeparatingAddress(g.addr2, f.addr2, f.own.addr);
    FullFilterIsAddress(sa, f.own);
    hide Passes, Deliverable;
    a := IbssArrival(sa, da, 0);
    IbssDecision(g, sa, da, 0);
    IbssDecision(f, sa, da, 0);
  }

  /**
   For two settings of one device, with thresholds as the setter stores them and a full own address, passing
   no further frame is exactly being narrower, or naming the own address without lowering the threshold.
   */
  lemma NarrowerIff(g: Filter, f: Filter)
    requires g.own == f.own && f.own.size == ADDR_SIZE && f.rssi < 0 && g.rssi < 0
    ensures PassesNoMore(g, f) <==> Narrower(g, f) || (NamesOwn(g) && f.rssi <= g.rssi)
  {
    hide Passes, Deliverable, NamesOwn;
    if Narrower(g, f) {
      forall a | Deliverable(a) && Passes(g, a) ensures Passes(f, a) {
        PassesMonotone(g, f, a);
      }
    } else if f.rssi > g.rssi {
      UnlockedDecision(g, [0, 0, 0, 0, 0, 0], [0, 0, 0, 0, 0, 0], g.rssi);
      UnlockedDecision(f, [0, 0, 0, 0, 0, 0], [0, 0, 0, 0, 0, 0], g.rssi);
    } else if NamesOwn(g) {
      forall a | Deliverable(a) && Passes(g, a) ensures Passes(f, a) {
        OwnPassesUnlocked(g, f, a);
      }
    } else {
      var a := Separated(g, f);
    }
  }

  lemma OwnPassesUnlocked(g: Filter, f: Filter, a: Arrival)
    requires Deliverable(a) && Passes(g, a) && NamesOwn(g) && f.rssi <= g.rssi < 0
    ensures Passes(f, a)
  {
    if a.lockOk {
      OwnMatchesNothing(g, a);
    }
    hide Inspect, FrameControl, HeaderEnd;
  }

  // ---- The sniffer never records itself ----

  /** The addresses of a frame, by the role table, in which the sniffer must not appear. */
  function InspectedAddresses(kind: PktType, p: seq<byte>): set<seq<byte>>
    requires |p| >= 2
  {
    var fc := FrameControl(p);
    set role | role in OwnRoles(kind, fc) && AddressField(kind, Subtype(fc), ToDs(fc), FromDs(fc), role).Some?
               && FieldOffset(AddressField(kind, Subtype(fc), ToDs(fc), FromDs(fc), role).value) + ADDR_SIZE <= |p| ::
      var at := FieldOffset(AddressField(kind, Subtype(fc), ToDs(fc), FromDs(fc), role).value);
      p[at..at + ADDR_SIZE]
  }

  lemma OwnFramesRejected(f: Filter, a: Arrival)
    requires Deliverable(a) && Passes(f, a) && a.lockOk && f.own.size == ADDR_SIZE
    ensures |a.pkt.payload| >= 2
    ensures f.own.addr !in InspectedAddresses(a.kind, a.pkt.payload)
    ensures !OwnInHeader(a.kind, a.pkt.payload, f.own)
  {
    DecidesByHeaderBytes(f, a.kind, WithoutFcs(a.pkt), a.lockOk);
    hide FrameControl, HeaderEnd, Inspect, OwnRoles, MatchRoles, AddressField, OwnInHeader, PrefixInHeader;
    var pkt := WithoutFcs(a.pkt);
    HandlerRefinesRoles(f, a.kind, pkt);
    assert f.own.addr[..f.own.size] == f.own.addr;
  }
}
