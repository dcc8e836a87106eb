/**
 The packet handler's accept decision: the branch tree over overlaid 802.11 headers, and the table of
 address roles (IEEE 802.11-2016, sections 9.2.4.1, 9.3.1 and 9.3.2.1) it has to agree with.
 */
module Frames {
  import opened Bytes
  import opened Sequences
  import opened Capture

  const ADDR_SIZE := 6

  datatype AddrFilter_Raw = AddrFilter(addr: seq<byte>, size: nat)
  type AddrFilter = f: AddrFilter_Raw | |f.addr| == ADDR_SIZE && f.size <= ADDR_SIZE
    witness AddrFilter([0, 0, 0, 0, 0, 0], 0)

  /** The static filter variables: own MAC, addr2 prefix, RSSI threshold. */
  datatype Filter = Filter(own: AddrFilter, addr2: AddrFilter, rssi: int8)

  datatype PktType = Mgmt | Ctrl | Data | Misc

  // ---- Frame control ----

  const SUBTYPE_BAR := 0x8
  const SUBTYPE_BA := 0x9
  const SUBTYPE_PS_POLL := 0xA
  const SUBTYPE_RTS := 0xB
  const SUBTYPE_CTS := 0xC
  const SUBTYPE_ACK := 0xD

  function FrameControl(payload: seq<byte>): uint16
    requires |payload| >= 2
  {
    ReadLe16(payload, 0)
  }

  function Subtype(fc: uint16): nat {
    fc / 0x10 % 0x10
  }

  predicate ToDs(fc: uint16) {
    fc / 0x100 % 2 == 1
  }

  predicate FromDs(fc: uint16) {
    fc / 0x200 % 2 == 1
  }

  // ---- The overlaid header structs, as far as the handler reads them ----

  datatype ManagementHdr = ManagementHdr(da: seq<byte>, sa: seq<byte>, bssid: seq<byte>)
  datatype IbssHdr = IbssHdr(da: seq<byte>, sa: seq<byte>)
  datatype FromApHdr = FromApHdr(da: seq<byte>, ta: seq<byte>, sa: seq<byte>)
  datatype ToApHdr = ToApHdr(ra: seq<byte>, sa: seq<byte>, da: seq<byte>)
  datatype WdsHdr = WdsHdr(ra: seq<byte>, ta: seq<byte>)
  datatype RaTaHdr = RaTaHdr(ra: seq<byte>, ta: seq<byte>)
  datatype PsPollHdr = PsPollHdr(bssid: seq<byte>, ta: seq<byte>)
  datatype RaHdr = RaHdr(ra: seq<byte>)

  function OverlayManagement(p: seq<byte>): ManagementHdr
    requires |p| >= 22
  {
    ManagementHdr(p[4..10], p[10..16], p[16..22])
  }

  function OverlayIbss(p: seq<byte>): IbssHdr
    requires |p| >= 16
  {
    IbssHdr(p[4..10], p[10..16])
  }

  function OverlayFromAp(p: seq<byte>): FromApHdr
    requires |p| >= 22
  {
    FromApHdr(p[4..10], p[10..16], p[16..22])
  }

  function OverlayToAp(p: seq<byte>): ToApHdr
    requires |p| >= 22
  {
    ToApHdr(p[4..10], p[10..16], p[16..22])
  }

  function OverlayWds(p: seq<byte>): WdsHdr
    requires |p| >= 16
  {
    WdsHdr(p[4..10], p[10..16])
  }

  function OverlayRaTa(p: seq<byte>): RaTaHdr
    requires |p| >= 16
  {
    RaTaHdr(p[4..10], p[10..16])
  }

  function OverlayPsPoll(p: seq<byte>): PsPollHdr
    requires |p| >= 16
  {
    PsPollHdr(p[4..10], p[10..16])
  }

  function OverlayRa(p: seq<byte>): RaHdr
    requires |p| >= 10
  {
    RaHdr(p[4..10])
  }

  /** The end of the last header field the handler may read for this frame. */
  function HeaderEnd(kind: PktType, fc: uint16): nat {
    match kind
    case Mgmt => 22
    case Data => if ToDs(fc) == FromDs(fc) then 16 else 22
    case Ctrl =>
      if Subtype(fc) in {SUBTYPE_BAR, SUBTYPE_BA, SUBTYPE_PS_POLL, SUBTYPE_RTS} then 16
      else if Subtype(fc) in {SUBTYPE_CTS, SUBTYPE_ACK} then 10
      else 2
    case Misc => 2
  }

  /** The payload memory covers every field the handler reads. */
  predicate Readable(kind: PktType, pkt: Packet) {
    kind != Misc && pkt.rx.rxState == 0 ==>
      |pkt.payload| >= 2 && |pkt.payload| >= HeaderEnd(kind, FrameControl(pkt.payload))
  }

  // ---- The handler's decision ----

  /** memcmp over the filter's size; an empty filter matches every address. */
  predicate IsAddrEqual(addr: seq<byte>, filter: AddrFilter)
    requires |addr| == ADDR_SIZE
  {
    filter.size == 0 || addr[..filter.size] == filter.addr[..filter.size]
  }

  datatype Inspection = Inspection(isOwnAddress: bool, macFilter: bool)

  function Inspect(f: Filter, kind: PktType, p: seq<byte>): Inspection
    requires |p| >= 2 && |p| >= HeaderEnd(kind, FrameControl(p))
  {
    var fc := FrameControl(p);
    match kind
    case Mgmt =>
      var h := OverlayManagement(p);
      Inspection(IsAddrEqual(h.sa, f.own) || IsAddrEqual(h.da, f.own) || IsAddrEqual(h.bssid, f.own),
                 IsAddrEqual(h.sa, f.addr2) || IsAddrEqual(h.da, f.addr2))
    case Data =>
      if !FromDs(fc) && !ToDs(fc) then
        var h := OverlayIbss(p);
        Inspection(IsAddrEqual(h.sa, f.own) || IsAddrEqual(h.da, f.own), IsAddrEqual(h.sa, f.addr2))
      else if FromDs(fc) && !ToDs(fc) then
        var h := OverlayFromAp(p);
        Inspection(IsAddrEqual(h.sa, f.own) || IsAddrEqual(h.da, f.own), IsAddrEqual(h.sa, f.addr2))
      else if !FromDs(fc) && ToDs(fc) then
        var h := OverlayToAp(p);
        Inspection(IsAddrEqual(h.sa, f.own) || IsAddrEqual(h.da, f.own), IsAddrEqual(h.sa, f.addr2))
      else
        var h := OverlayWds(p);
        Inspection(IsAddrEqual(h.ta, f.own) || IsAddrEqual(h.ra, f.own), IsAddrEqual(h.ta, f.addr2))
    case Ctrl =>
      var subtype := Subtype(fc);
      if subtype == SUBTYPE_BAR || subtype == SUBTYPE_BA || subtype == SUBTYPE_RTS then
        var h := OverlayRaTa(p);
        Inspection(IsAddrEqual(h.ta, f.own) || IsAddrEqual(h.ra, f.own), IsAddrEqual(h.ta, f.addr2))
      else if subtype == SUBTYPE_PS_POLL then
        var h := OverlayPsPoll(p);
        Inspection(IsAddrEqual(h.ta, f.own), IsAddrEqual(h.ta, f.addr2))
      else if subtype == SUBTYPE_CTS || subtype == SUBTYPE_ACK then
        var h := OverlayRa(p);
        Inspection(IsAddrEqual(h.ra, f.own), IsAddrEqual(h.ra, f.addr2))
      else
        Inspection(false, false)
    case Misc => Inspection(false, false)
  }

  predicate RssiPass(threshold: int8, rssi: int8) {
    threshold == 0 || (threshold < 0 && rssi >= threshold)
  }

  /**
   Whether the handler builds a record. lockOk is false when taking or giving the filter semaphore
   fails; the handler then lets every address through.
   */
  predicate Accepts(f: Filter, kind: PktType, pkt: Packet, lockOk: bool)
    requires Readable(kind, pkt)
  {
    && kind != Misc
    && pkt.rx.rxState == 0
    && RssiPass(f.rssi, pkt.rx.rssi)
    && (lockOk ==>
          var i := Inspect(f, kind, pkt.payload);
          !i.isOwnAddress && i.macFilter)
  }

  // ---- The role table ----

  datatype Role = Receiver | Transmitter | Source | Destination | Bssid

  /** Which of the address fields 1 to 4 carries a role. */
  function AddressField(kind: PktType, subtype: nat, toDs: bool, fromDs: bool, role: Role): Option<nat> {
    match kind
    case Mgmt =>
      (match role
       case Receiver => Some(1)
       case Destination => Some(1)
       case Transmitter => Some(2)
       case Source => Some(2)
       case Bssid => Some(3))
    case Data =>
      (match role
       case Receiver => Some(1)
       case Transmitter => Some(2)
       case Destination => Some(if toDs then 3 else 1)
       case Source => Some(if fromDs then (if toDs then 4 else 3) else 2)
       case Bssid => if toDs && fromDs then None else Some(if toDs then 1 else if fromDs then 2 else 3))
    case Ctrl =>
      if subtype in {SUBTYPE_BAR, SUBTYPE_BA, SUBTYPE_RTS, SUBTYPE_PS_POLL} then
        (match role
         case Receiver => Some(1)
         case Transmitter => Some(2)
         case Bssid => if subtype == SUBTYPE_PS_POLL then Some(1) else None
         case _ => None)
      else if subtype in {SUBTYPE_CTS, SUBTYPE_ACK} && role == Receiver then Some(1)
      else None
    case Misc => None
  }

  /** Where an address field starts: three addresses after the 4-byte base header, the fourth behind sequence control. */
  function FieldOffset(field: nat): nat {
    if field == 1 then 4 else if field == 2 then 10 else if field == 3 then 16 else 24
  }

  predicate IsWds(kind: PktType, fc: uint16) {
    kind == Data && ToDs(fc) && FromDs(fc)
  }

  /** The roles in which the sniffer must not recognise itself. */
  function OwnRoles(kind: PktType, fc: uint16): set<Role> {
    match kind
    case Mgmt => {Source, Destination, Bssid}
    case Data => if IsWds(kind, fc) then {Transmitter, Receiver} else {Source, Destination}
    case Ctrl => if Subtype(fc) == SUBTYPE_PS_POLL then {Transmitter} else {Transmitter, Receiver}
    case Misc => {}
  }

  /** The roles in which the addr2 filter looks for its prefix. */
  function MatchRoles(kind: PktType, fc: uint16): set<Role> {
    match kind
    case Mgmt => {Source, Destination}
    case Data => if IsWds(kind, fc) then {Transmitter} else {Source}
    case Ctrl => if Subtype(fc) in {SUBTYPE_CTS, SUBTYPE_ACK} then {Receiver} else {Transmitter}
    case Misc => {}
  }

  /** The frame carries, in the given role, an address that begins with the filter's prefix. */
  predicate RoleMatches(kind: PktType, p: seq<byte>, role: Role, filter: AddrFilter)
    requires |p| >= 2
  {
    var fc := FrameControl(p);
    match AddressField(kind, Subtype(fc), ToDs(fc), FromDs(fc), role)
    case None => false
    case Some(field) =>
      && FieldOffset(field) + ADDR_SIZE <= |p|
      && filter.addr[..filter.size] <= p[FieldOffset(field)..FieldOffset(field) + ADDR_SIZE]
  }

  predicate AcceptsByRoles(f: Filter, kind: PktType, pkt: Packet)
    requires Readable(kind, pkt)
  {
    && kind != Misc
    && pkt.rx.rxState == 0
    && RssiPass(f.rssi, pkt.rx.rssi)
    && (forall role :: role in OwnRoles(kind, FrameControl(pkt.payload)) ==> !RoleMatches(kind, pkt.payload, role, f.own))
    && (exists role :: role in MatchRoles(kind, FrameControl(pkt.payload)) && RoleMatches(kind, pkt.payload, role, f.addr2))
  }

  lemma EqualIffPrefix(addr: seq<byte>, filter: AddrFilter)
    requires |addr| == ADDR_SIZE
    ensures IsAddrEqual(addr, filter) <==> filter.addr[..filter.size] <= addr
  {
  }

  /** A role's field, read through the table, is compared exactly as the overlay compares it. */
  lemma RoleIsOverlay(kind: PktType, p: seq<byte>, role: Role, filter: AddrFilter, field: nat)
    requires |p| >= 2
    requires var fc := FrameControl(p);
             AddressField(kind, Subtype(fc), ToDs(fc), FromDs(fc), role) == Some(field)
    requires FieldOffset(field) + ADDR_SIZE <= |p|
    ensures RoleMatches(kind, p, role, filter) <==> IsAddrEqual(p[FieldOffset(field)..FieldOffset(field) + ADDR_SIZE], filter)
  {
    EqualIffPrefix(p[FieldOffset(field)..FieldOffset(field) + ADDR_SIZE], filter);
  }

  predicate SomeRole(roles: set<Role>, kind: PktType, p: seq<byte>, filter: AddrFilter)
    requires |p| >= 2
  {
    exists role :: role in roles && RoleMatches(kind, p, role, filter)
  }

  /** The branch tree's two flags are the role table's two questions. */
  ghost predicate TreeAgreesWithTable(f: Filter, kind: PktType, p: seq<byte>)
    requires |p| >= 2 && |p| >= HeaderEnd(kind, FrameControl(p))
  {
    && (Inspect(f, kind, p).isOwnAddress <==> SomeRole(OwnRoles(kind, FrameControl(p)), kind, p, f.own))
    && (Inspect(f, kind, p).macFilter <==> SomeRole(MatchRoles(kind, FrameControl(p)), kind, p, f.addr2))
  }

  lemma ManagementAgrees(f: Filter, p: seq<byte>)
    requires |p| >= 2 && |p| >= HeaderEnd(Mgmt, FrameControl(p))
    ensures TreeAgreesWithTable(f, Mgmt, p)
  {
    hide FrameControl, IsAddrEqual, RoleMatches;
    RoleIsOverlay(Mgmt, p, Source, f.own, 2);
    RoleIsOverlay(Mgmt, p, Destination, f.own, 1);
    RoleIsOverlay(Mgmt, p, Bssid, f.own, 3);
    RoleIsOverlay(Mgmt, p, Source, f.addr2, 2);
    RoleIsOverlay(Mgmt, p, Destination, f.addr2, 1);
    assert Source in OwnRoles(Mgmt, FrameControl(p)) && Source in MatchRoles(Mgmt, FrameControl(p));
    assert Destination in OwnRoles(Mgmt, FrameControl(p)) && Bssid in OwnRoles(Mgmt, FrameControl(p));
  }

  lemma DataAgrees(f: Filter, p: seq<byte>)
    requires |p| >= 2 && |p| >= HeaderEnd(Data, FrameControl(p))
    ensures TreeAgreesWithTable(f, Data, p)
  {
    hide FrameControl, ToDs, FromDs, IsAddrEqual, RoleMatches;
    var fc := FrameControl(p);
    if ToDs(fc) && FromDs(fc) {
      RoleIsOverlay(Data, p, Receiver, f.own, 1);
      RoleIsOverlay(Data, p, Transmitter, f.own, 2);
      RoleIsOverlay(Data, p, Transmitter, f.addr2, 2);
      assert Transmitter in OwnRoles(Data, fc) && Receiver in OwnRoles(Data, fc);
    } else {
      var source, destination := if FromDs(fc) then 3 else 2, if ToDs(fc) then 3 else 1;
      RoleIsOverlay(Data, p, Source, f.own, source);
      RoleIsOverlay(Data, p, Destination, f.own, destination);
      RoleIsOverlay(Data, p, Source, f.addr2, source);
      assert Source in OwnRoles(Data, fc) && Destination in OwnRoles(Data, fc);
    }
  }

  lemma ControlAgrees(f: Filter, p: seq<byte>)
    requires |p| >= 2 && |p| >= HeaderEnd(Ctrl, FrameControl(p))
    ensures TreeAgreesWithTable(f, Ctrl, p)
  {
    hide FrameControl, ToDs, FromDs, Subtype, IsAddrEqual;
    var fc := FrameControl(p);
    var subtype := Subtype(fc);
    if subtype in {SUBTYPE_BAR, SUBTYPE_BA, SUBTYPE_RTS, SUBTYPE_PS_POLL} {
      RoleIsOverlay(Ctrl, p, Receiver, f.own, 1);
      RoleIsOverlay(Ctrl, p, Transmitter, f.own, 2);
      RoleIsOverlay(Ctrl, p, Transmitter, f.addr2, 2);
      hide RoleMatches;
      assert Transmitter in OwnRoles(Ctrl, fc) && Transmitter in MatchRoles(Ctrl, fc);
      assert subtype != SUBTYPE_PS_POLL ==> Receiver in OwnRoles(Ctrl, fc);
    } else if subtype in {SUBTYPE_CTS, SUBTYPE_ACK} {
      RoleIsOverlay(Ctrl, p, Receiver, f.own, 1);
      RoleIsOverlay(Ctrl, p, Receiver, f.addr2, 1);
      assert !RoleMatches(Ctrl, p, Transmitter, f.own);
      hide RoleMatches;
      assert Receiver in OwnRoles(Ctrl, fc) && Receiver in MatchRoles(Ctrl, fc);
    }
  }

  lemma InspectRefinesRoles(f: Filter, kind: PktType, p: seq<byte>)
    requires |p| >= 2 && |p| >= HeaderEnd(kind, FrameControl(p))
    ensures TreeAgreesWithTable(f, kind, p)
  {
    match kind
    case Mgmt => ManagementAgrees(f, p);
    case Data => DataAgrees(f, p);
    case Ctrl => ControlAgrees(f, p);
    case Misc =>
  }

  /** The branch tree decides every frame as the role table does. */
  lemma HandlerRefinesRoles(f: Filter, kind: PktType, pkt: Packet)
    requires Readable(kind, pkt)
    ensures Accepts(f, kind, pkt, true) <==> AcceptsByRoles(f, kind, pkt)
  {
    hide FrameControl, HeaderEnd, Inspect, RoleMatches, OwnRoles, MatchRoles;
    if kind != Misc && pkt.rx.rxState == 0 {
      InspectRefinesRoles(f, kind, pkt.payload);
    }
  }

  // ---- The decision on the bytes of the header ----

  /** The six bytes at an offset begin with the filter's bytes. */
  predicate AddressAt(p: seq<byte>, at: nat, filter: AddrFilter) {
    at + 6 <= |p| && p[at..at + filter.size] == filter.addr[..filter.size]
  }

  /** The buffer reaches to the end of the last address the handler looks at. */
  predicate HoldsHeader(kind: PktType, p: seq<byte>) {
    |p| >= 2 &&
    match kind
    case Mgmt => |p| >= 22
    case Data => |p| >= 16 && (p[1] % 4 in {1, 2} ==> |p| >= 22)
    case Ctrl => (p[0] / 0x10 in {8, 9, 10, 11} ==> |p| >= 16) && (p[0] / 0x10 in {12, 13} ==> |p| >= 10)
    case Misc => true
  }

  /**
   The own address, by frame type and the low two bits of the second byte (1: to the distribution system, 2: from
   it, 3: both) or the high half of the first byte (8, 9: block ack request and block ack, 10: power-save poll,
   11: RTS, 12: CTS, 13: ACK).
   */
  predicate OwnInHeader(kind: PktType, p: seq<byte>, own: AddrFilter)
    requires |p| >= 2
  {
    match kind
    case Mgmt => AddressAt(p, 4, own) || AddressAt(p, 10, own) || AddressAt(p, 16, own)
    case Data =>
      (match p[1] % 4
       case 0 => AddressAt(p, 4, own) || AddressAt(p, 10, own)
       case 1 => AddressAt(p, 10, own) || AddressAt(p, 16, own)
       case 2 => AddressAt(p, 4, own) || AddressAt(p, 16, own)
       case _ => AddressAt(p, 4, own) || AddressAt(p, 10, own))
    case Ctrl =>
      if p[0] / 0x10 in {8, 9, 11} then AddressAt(p, 4, own) || AddressAt(p, 10, own)
      else if p[0] / 0x10 == 10 then AddressAt(p, 10, own)
      else p[0] / 0x10 in {12, 13} && AddressAt(p, 4, own)
    case Misc => false
  }

  /** The addr2 prefix, where it is looked for. */
  predicate PrefixInHeader(kind: PktType, p: seq<byte>, addr2: AddrFilter)
    requires |p| >= 2
  {
    match kind
    case Mgmt => AddressAt(p, 4, addr2) || AddressAt(p, 10, addr2)
    case Data => AddressAt(p, if p[1] % 4 == 2 then 16 else 10, addr2)
    case Ctrl =>
      if p[0] / 0x10 in {8, 9, 10, 11} then AddressAt(p, 10, addr2)
      else p[0] / 0x10 in {12, 13} && AddressAt(p, 4, addr2)
    case Misc => false
  }

  lemma FrameControlBits(p: seq<byte>)
    requires |p| >= 2
    ensures Subtype(FrameControl(p)) == p[0] / 0x10
    ensures ToDs(FrameControl(p)) <==> p[1] % 4 in {1, 3}
    ensures FromDs(FrameControl(p)) <==> p[1] % 4 in {2, 3}
  {
    var fc: int := FrameControl(p);
    var low, high: int := p[0], p[1];
    assert fc == low + 0x100 * high;
    assert fc / 0x10 == low / 0x10 + 0x10 * high;
    assert fc / 0x100 == high;
    assert fc / 0x200 == high / 2;
  }

  lemma EqualIsAddressAt(p: seq<byte>, at: nat, filter: AddrFilter)
    requires at + ADDR_SIZE <= |p|
    ensures IsAddrEqual(p[at..at + ADDR_SIZE], filter) <==> AddressAt(p, at, filter)
  {
    assert p[at..at + ADDR_SIZE][..filter.size] == p[at..at + filter.size];
  }

  lemma InspectsHeaderBytes(f: Filter, kind: PktType, p: seq<byte>)
    requires |p| >= 2
    ensures HoldsHeader(kind, p) <==> |p| >= HeaderEnd(kind, FrameControl(p))
    ensures HoldsHeader(kind, p) ==> Inspect(f, kind, p) == Inspection(OwnInHeader(kind, p, f.own), PrefixInHeader(kind, p, f.addr2))
  {
    FrameControlBits(p);
    hide FrameControl, Subtype, ToDs, FromDs, IsAddrEqual, AddressAt;
    forall at: nat, filter: AddrFilter | at + ADDR_SIZE <= |p|
      ensures IsAddrEqual(p[at..at + ADDR_SIZE], filter) <==> AddressAt(p, at, filter)
    {
      EqualIsAddressAt(p, at, filter);
    }
  }

  /**
   Which buffers the handler can read, and which frames it takes, said of the bytes alone: signal at or above the
   threshold, no inspected field with the own address, and a matching field with the addr2 prefix.
   */
  lemma DecidesByHeaderBytes(f: Filter, kind: PktType, pkt: Packet, lockOk: bool)
    ensures Readable(kind, pkt) <==> kind == Misc || pkt.rx.rxState != 0 || HoldsHeader(kind, pkt.payload)
    ensures Readable(kind, pkt) ==>
              (Accepts(f, kind, pkt, lockOk) <==>
               && kind != Misc && pkt.rx.rxState == 0
               && (f.rssi == 0 || (f.rssi < 0 && f.rssi <= pkt.rx.rssi))
               && (lockOk ==> !OwnInHeader(kind, pkt.payload, f.own) && PrefixInHeader(kind, pkt.payload, f.addr2)))
  {
    hide FrameControl, HeaderEnd, Inspect, OwnInHeader, PrefixInHeader;
    if |pkt.payload| >= 2 {
      InspectsHeaderBytes(f, kind, pkt.payload);
    }
  }
}
