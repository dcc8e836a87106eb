/**
 nvs_lib: the flash key-value store, reduced to the one namespace the sniffer uses. Store operations
 succeed; a missing namespace and a missing key both give the caller's default.
 */
module Nvs {
  import opened Bytes

  /** The persistent contents, with a count of the writes made so far. */
  datatype Flash = Flash(blobs: map<string, seq<byte>>, nums: map<string, int32>, writes: nat)

  class NvsFlash {
    var blobs: map<string, seq<byte>>
    var nums: map<string, int32>
    var writes: nat

    ghost function Image(): Flash
      reads this
    {
      Flash(blobs, nums, writes)
    }

    constructor (image: Flash)
      ensures Image() == image
    {
      blobs, nums, writes := image.blobs, image.nums, image.writes;
    }

    method SetArray(key: string, value: seq<byte>)
      modifies this
      ensures Image() == Flash(old(blobs)[key := value], old(nums), old(writes) + 1)
    {
      blobs := blobs[key := value];
      writes := writes + 1;
    }

    /** Fills the front of the caller's buffer and leaves the bytes behind it alone. */
    method GetArray(key: string, value: array<byte>, defaultValue: seq<byte>) returns (sz: nat)
      requires |defaultValue| <= value.Length
      requires key in blobs ==> |blobs[key]| <= value.Length
      modifies value
      ensures sz == |if key in blobs then blobs[key] else defaultValue|
      ensures value[..] == (if key in blobs then blobs[key] else defaultValue) + old(value[..])[sz..]
    {
      var stored := if key in blobs then blobs[key] else defaultValue;
      sz := |stored|;
      forall i | 0 <= i < sz {
        value[i] := stored[i];
      }
    }

    method SetNum32i(key: string, value: int32)
      modifies this
      ensures Image() == Flash(old(blobs), old(nums)[key := value], old(writes) + 1)
    {
      nums := nums[key := value];
      writes := writes + 1;
    }

    method GetNum32i(key: string, defaultValue: int32) returns (value: int32)
      ensures value == if key in nums then nums[key] else defaultValue
    {
      value := if key in nums then nums[key] else defaultValue;
    }
  }
}

/** wifi_sniffer_nvs and the setters of wifi_sniffer.c: filters in RAM, kept in flash, written only when changed. */
module FilterStore {
  import opened Bytes
  import opened Capture
  import opened Frames
  import opened Nvs

  const OWN_KEY := "filter.own"
  const ADDR2_KEY := "filter.addr2"
  const RSSI_KEY := "rssi"
  const RSSI_DEFAULT: int8 := -96
  const NO_BYTES: seq<byte> := [0, 0, 0, 0, 0, 0]

  /** Assigning an int32_t to an rssi_t. */
  function ToRssi(n: int32): int8 {
    SignedByte(n % 0x100)
  }

  /** No blob under a filter key is longer than the address buffer it is read into. */
  predicate FitsFilters(fl: Flash) {
    && (OWN_KEY in fl.blobs ==> |fl.blobs[OWN_KEY]| <= ADDR_SIZE)
    && (ADDR2_KEY in fl.blobs ==> |fl.blobs[ADDR2_KEY]| <= ADDR_SIZE)
  }

  // ---- What the methods compute ----

  function LoadMac(fl: Flash, key: string): AddrFilter
    requires FitsFilters(fl) && key in {OWN_KEY, ADDR2_KEY}
  {
    if key in fl.blobs then AddrFilter(fl.blobs[key] + NO_BYTES[|fl.blobs[key]|..], |fl.blobs[key]|)
    else AddrFilter(NO_BYTES, 0)
  }

  /** Two filters that decide every address alike: the bytes past size do not matter. */
  predicate SameFilter(a: AddrFilter, b: AddrFilter) {
    a.addr[..a.size] == b.addr[..b.size]
  }

  function SaveMac(fl: Flash, key: string, f: AddrFilter): (fl': Flash)
    requires FitsFilters(fl) && key in {OWN_KEY, ADDR2_KEY}
    ensures FitsFilters(fl')
  {
    if SameFilter(f, LoadMac(fl, key)) then fl
    else Flash(fl.blobs[key := f.addr[..f.size]], fl.nums, fl.writes + 1)
  }

  function LoadRssi(fl: Flash): int8 {
    ToRssi(if RSSI_KEY in fl.nums then fl.nums[RSSI_KEY] else RSSI_DEFAULT)
  }

  function SaveRssi(fl: Flash, rssi: int8): Flash {
    if LoadRssi(fl) == rssi then fl else Flash(fl.blobs, fl.nums[RSSI_KEY := rssi], fl.writes + 1)
  }

  // ---- The code ----

  method GetFilterMac(nvs: NvsFlash, key: string) returns (f: AddrFilter)
    requires FitsFilters(nvs.Image()) && key in {OWN_KEY, ADDR2_KEY}
    ensures f == LoadMac(nvs.Image(), key)
  {
    var addr := new byte[ADDR_SIZE](i => 0);
    assert addr[..] == NO_BYTES;
    var size := nvs.GetArray(key, addr, []);
    f := AddrFilter(addr[..], size);
  }

  method SetFilterMac(nvs: NvsFlash, key: string, f: AddrFilter)
    requires FitsFilters(nvs.Image()) && key in {OWN_KEY, ADDR2_KEY}
    modifies nvs
    ensures nvs.Image() == SaveMac(old(nvs.Image()), key, f)
  {
    var prev := GetFilterMac(nvs, key);
    if f.size != prev.size || f.addr[..f.size] != prev.addr[..f.size] {
      nvs.SetArray(key, f.addr[..f.size]);
    }
  }

  method GetFilterRssi(nvs: NvsFlash) returns (rssi: int8)
    ensures rssi == LoadRssi(nvs.Image())
  {
    var stored := nvs.GetNum32i(RSSI_KEY, RSSI_DEFAULT);
    rssi := ToRssi(stored);
  }

  method SetFilterRssi(nvs: NvsFlash, rssi: int8)
    modifies nvs
    ensures nvs.Image() == SaveRssi(old(nvs.Image()), rssi)
  {
    var prev := GetFilterRssi(nvs);
    if prev != rssi {
      nvs.SetNum32i(RSSI_KEY, rssi);
    }
  }

  // ---- RAM and flash together ----

  datatype Settings = Settings(ram: Filter, flash: Flash)

  function SetAddr2(s: Settings, f: AddrFilter): (s': Settings)
    requires FitsFilters(s.flash)
    ensures FitsFilters(s'.flash)
  {
    Settings(s.ram.(addr2 := f), SaveMac(s.flash, ADDR2_KEY, f))
  }

  /** Zero stands for the default threshold. */
  function SetRssi(s: Settings, rssi: int8): (s': Settings)
    requires FitsFilters(s.flash)
    ensures FitsFilters(s'.flash)
  {
    var stored := if rssi == 0 then RSSI_DEFAULT else rssi;
    Settings(s.ram.(rssi := stored), SaveRssi(s.flash, stored))
  }

  /** sniffer_init_config: the RAM contents are lost, the own address is set, the rest is read back. */
  function InitConfig(fl: Flash, own: AddrFilter): (s: Settings)
    requires FitsFilters(fl)
    ensures FitsFilters(s.flash)
  {
    var s0 := Settings(Filter(own, AddrFilter(NO_BYTES, 0), RSSI_DEFAULT), SaveMac(fl, OWN_KEY, own));
    var s1 := SetRssi(s0, LoadRssi(s0.flash));
    SetAddr2(s1, LoadMac(s1.flash, ADDR2_KEY))
  }

  /** Reading flash back would give the filters in RAM. */
  predicate InStep(s: Settings) {
    && FitsFilters(s.flash)
    && SameFilter(s.ram.own, LoadMac(s.flash, OWN_KEY))
    && SameFilter(s.ram.addr2, LoadMac(s.flash, ADDR2_KEY))
    && s.ram.rssi == LoadRssi(s.flash)
    && s.ram.rssi != 0
  }

  predicate SameSettings(f: Filter, g: Filter) {
    SameFilter(f.own, g.own) && SameFilter(f.addr2, g.addr2) && f.rssi == g.rssi
  }

  lemma LoadSaved(fl: Flash, key: string, f: AddrFilter)
    requires FitsFilters(fl) && key in {OWN_KEY, ADDR2_KEY}
    ensures SameFilter(f, LoadMac(SaveMac(fl, key, f), key))
    ensures forall k :: k in {OWN_KEY, ADDR2_KEY} && k != key ==> LoadMac(SaveMac(fl, key, f), k) == LoadMac(fl, k)
    ensures LoadRssi(SaveMac(fl, key, f)) == LoadRssi(fl)
    ensures SaveMac(fl, key, f).writes == fl.writes + if SameFilter(f, LoadMac(fl, key)) then 0 else 1
  {
    var loaded := LoadMac(SaveMac(fl, key, f), key);
    if !SameFilter(f, LoadMac(fl, key)) {
      assert loaded.addr[..loaded.size] == f.addr[..f.size];
    }
  }

  lemma LoadSavedRssi(fl: Flash, rssi: int8)
    requires FitsFilters(fl)
    ensures FitsFilters(SaveRssi(fl, rssi))
    ensures LoadRssi(SaveRssi(fl, rssi)) == rssi
    ensures forall k :: k in {OWN_KEY, ADDR2_KEY} ==> LoadMac(SaveRssi(fl, rssi), k) == LoadMac(fl, k)
    ensures SaveRssi(fl, rssi).writes == fl.writes + if LoadRssi(fl) == rssi then 0 else 1
  {
  }

  /** Whatever flash holds, start-up brings RAM and flash in step. */
  lemma InitInStep(fl: Flash, own: AddrFilter)
    requires FitsFilters(fl)
    ensures InStep(InitConfig(fl, own)) && InitConfig(fl, own).ram.own == own
  {
    hide SaveMac, LoadMac, SaveRssi, LoadRssi, SameFilter;
    var s0 := Settings(Filter(own, AddrFilter(NO_BYTES, 0), RSSI_DEFAULT), SaveMac(fl, OWN_KEY, own));
    LoadSaved(fl, OWN_KEY, own);
    var rssi := LoadRssi(s0.flash);
    LoadSavedRssi(s0.flash, if rssi == 0 then RSSI_DEFAULT else rssi);
    var s1 := SetRssi(s0, rssi);
    LoadSaved(s1.flash, ADDR2_KEY, LoadMac(s1.flash, ADDR2_KEY));
  }

  lemma SetAddr2InStep(s: Settings, f: AddrFilter)
    requires InStep(s)
    ensures InStep(SetAddr2(s, f))
  {
    hide SaveMac, LoadMac, SameFilter;
    LoadSaved(s.flash, ADDR2_KEY, f);
  }

  lemma SetRssiInStep(s: Settings, rssi: int8)
    requires InStep(s)
    ensures InStep(SetRssi(s, rssi))
  {
    hide SaveRssi, LoadMac, LoadRssi, SameFilter;
    LoadSavedRssi(s.flash, if rssi == 0 then RSSI_DEFAULT else rssi);
  }

  /** In step, a restart finds the same filters and writes nothing. */
  lemma RestartKeeps(s: Settings)
    requires InStep(s)
    ensures SameSettings(InitConfig(s.flash, s.ram.own).ram, s.ram)
    ensures InitConfig(s.flash, s.ram.own).flash == s.flash
  {
  }

  lemma SameSettingsDecideAlike(f: Filter, g: Filter, kind: PktType, pkt: Packet, lockOk: bool)
    requires Readable(kind, pkt) && SameSettings(f, g)
    ensures Accepts(f, kind, pkt, lockOk) <==> Accepts(g, kind, pkt, lockOk)
  {
    hide FrameControl, IsAddrEqual;
    forall addr: seq<byte> | |addr| == ADDR_SIZE
      ensures IsAddrEqual(addr, f.own) == IsAddrEqual(addr, g.own) && IsAddrEqual(addr, f.addr2) == IsAddrEqual(addr, g.addr2)
    {
      EqualIffPrefix(addr, f.own);
      EqualIffPrefix(addr, g.own);
      EqualIffPrefix(addr, f.addr2);
      EqualIffPrefix(addr, g.addr2);
    }
  }

  // ---- Any sequence of setter calls ----

  datatype Setter = Addr2(f: AddrFilter) | Rssi(rssi: int8)

  function Apply(s: Settings, c: Setter): (s': Settings)
    requires FitsFilters(s.flash)
    ensures FitsFilters(s'.flash)
  {
    match c
    case Addr2(f) => SetAddr2(s, f)
    case Rssi(rssi) => SetRssi(s, rssi)
  }

  function ApplyAll(s: Settings, calls: seq<Setter>): (s': Settings)
    requires FitsFilters(s.flash)
    ensures FitsFilters(s'.flash)
    decreases |calls|
  {
    if calls == [] then s else ApplyAll(Apply(s, calls[0]), calls[1..])
  }

  lemma {:induction false} ApplyAllInStep(s: Settings, calls: seq<Setter>)
    requires InStep(s)
    ensures InStep(ApplyAll(s, calls)) && ApplyAll(s, calls).ram.own == s.ram.own
    decreases |calls|
  {
    hide InStep;
    if calls != [] {
      assert FitsFilters(s.flash) by { InStepFits(s); }
      match calls[0] {
        case Addr2(f) => SetAddr2InStep(s, f);
        case Rssi(rssi) => SetRssiInStep(s, rssi);
      }
      ApplyAllInStep(Apply(s, calls[0]), calls[1..]);
    }
  }

  lemma InStepFits(s: Settings)
    requires InStep(s)
    ensures FitsFilters(s.flash)
  {
  }

  /**
   Restart equivalence: start from any flash, call the setters in any way, lose RAM and start again; every
   frame is decided as before and the restart does not write flash.
   */
  lemma RestartEquivalence(fl: Flash, own: AddrFilter, calls: seq<Setter>)
    requires FitsFilters(fl)
    ensures var before := ApplyAll(InitConfig(fl, own), calls);
            var after := InitConfig(before.flash, own);
            && after.flash == before.flash
            && forall kind, pkt, lockOk :: Readable(kind, pkt) ==>
                 (Accepts(after.ram, kind, pkt, lockOk) <==> Accepts(before.ram, kind, pkt, lockOk))
  {
    hide Accepts, Readable, InStep;
    InitInStep(fl, own);
    ApplyAllInStep(InitConfig(fl, own), calls);
    var before := ApplyAll(InitConfig(fl, own), calls);
    RestartKeeps(before);
    var after := InitConfig(before.flash, own);
    forall kind, pkt, lockOk | Readable(kind, pkt)
      ensures Accepts(after.ram, kind, pkt, lockOk) <==> Accepts(before.ram, kind, pkt, lockOk)
    {
      SameSettingsDecideAlike(after.ram, before.ram, kind, pkt, lockOk);
    }
  }

  /** Setting what is already set does not write; setting anything else writes once. */
  lemma WritesOnlyChanges(s: Settings, c: Setter)
    requires InStep(s)
    ensures Apply(s, c).flash.writes == s.flash.writes +
            (match c
             case Addr2(f) => if SameFilter(f, s.ram.addr2) then 0 else 1
             case Rssi(rssi) => if (if rssi == 0 then RSSI_DEFAULT else rssi) == s.ram.rssi then 0 else 1)
  {
    match c
    case Addr2(f) => LoadSaved(s.flash, ADDR2_KEY, f);
    case Rssi(rssi) => LoadSavedRssi(s.flash, if rssi == 0 then RSSI_DEFAULT else rssi);
  }

  // ---- The filter in force ----

  /** The prefix last asked for, or the one there was. */
  function LastAddr2(initial: seq<byte>, calls: seq<Setter>): seq<byte> {
    if calls == [] then initial
    else match calls[|calls| - 1]
      case Addr2(f) => f.addr[..f.size]
      case Rssi(_) => LastAddr2(initial, calls[..|calls| - 1])
  }

  /** The threshold last asked for, zero meaning -96, or the one there was. */
  function LastRssi(initial: int8, calls: seq<Setter>): int8 {
    if calls == [] then initial
    else match calls[|calls| - 1]
      case Addr2(_) => LastRssi(initial, calls[..|calls| - 1])
      case Rssi(r) => if r == 0 then -96 else r
  }

  /** What flash holds at power-on, as the source's keys name it. */
  function StoredAddr2(fl: Flash): seq<byte> {
    if "filter.addr2" in fl.blobs then fl.blobs["filter.addr2"] else []
  }

  function StoredRssi(fl: Flash): int8 {
    if "rssi" !in fl.nums || fl.nums["rssi"] % 0x100 == 0 then -96
    else if fl.nums["rssi"] % 0x100 < 0x80 then fl.nums["rssi"] % 0x100
    else fl.nums["rssi"] % 0x100 - 0x100
  }

  /** The RAM filter has this own address, addr2 prefix and threshold. */
  predicate InForce(f: Filter, own: AddrFilter, prefix: seq<byte>, rssi: int8) {
    f.own == own && f.addr2.addr[..f.addr2.size] == prefix && f.rssi == rssi
  }

  lemma BootFilter(fl: Flash, own: AddrFilter)
    requires FitsFilters(fl)
    ensures InForce(InitConfig(fl, own).ram, own, StoredAddr2(fl), StoredRssi(fl))
  {
    hide SaveMac, SaveRssi;
    var saved := SaveMac(fl, OWN_KEY, own);
    LoadSaved(fl, OWN_KEY, own);
    var rssi := LoadRssi(saved);
    LoadSavedRssi(saved, if rssi == 0 then RSSI_DEFAULT else rssi);
  }

  lemma SetterFilter(s: Settings, c: Setter)
    requires FitsFilters(s.flash)
    ensures c.Addr2? ==> InForce(Apply(s, c).ram, s.ram.own, c.f.addr[..c.f.size], s.ram.rssi)
    ensures c.Rssi? ==> InForce(Apply(s, c).ram, s.ram.own, s.ram.addr2.addr[..s.ram.addr2.size], if c.rssi == 0 then -96 else c.rssi)
  {
  }

  lemma {:induction false} ApplyAllSnoc(s: Settings, calls: seq<Setter>, c: Setter)
    requires FitsFilters(s.flash)
    ensures ApplyAll(s, calls + [c]) == Apply(ApplyAll(s, calls), c)
    decreases |calls|
  {
    hide Apply, FitsFilters;
    if calls == [] {
      assert [c][1..] == [];
    } else {
      assert (calls + [c])[1..] == calls[1..] + [c];
      ApplyAllSnoc(Apply(s, calls[0]), calls[1..], c);
    }
  }

  lemma {:induction false} CallsFilter(fl: Flash, own: AddrFilter, calls: seq<Setter>)
    requires FitsFilters(fl)
    ensures InForce(ApplyAll(InitConfig(fl, own), calls).ram, own, LastAddr2(StoredAddr2(fl), calls), LastRssi(StoredRssi(fl), calls))
    decreases |calls|
  {
    hide InitConfig, Apply, StoredAddr2, StoredRssi;
    if calls == [] {
      BootFilter(fl, own);
    } else {
      var n := |calls| - 1;
      CallsFilter(fl, own, calls[..n]);
      assert calls == calls[..n] + [calls[n]];
      ApplyAllSnoc(InitConfig(fl, own), calls[..n], calls[n]);
      SetterFilter(ApplyAll(InitConfig(fl, own), calls[..n]), calls[n]);
    }
  }

  /**
   After any calls of the setters, and again after losing RAM, the filter in force is the own address, the prefix
   and the threshold that were asked for last, or else those flash held at power-on.
   */
  lemma LastSettingInForce(fl: Flash, own: AddrFilter, calls: seq<Setter>)
    requires FitsFilters(fl)
    ensures var prefix, rssi := LastAddr2(StoredAddr2(fl), calls), LastRssi(StoredRssi(fl), calls);
            var before := ApplyAll(InitConfig(fl, own), calls);
            InForce(before.ram, own, prefix, rssi) && InForce(InitConfig(before.flash, own).ram, own, prefix, rssi)
  {
    hide InitConfig, Apply, StoredAddr2, StoredRssi, InStep;
    CallsFilter(fl, own, calls);
    InitInStep(fl, own);
    ApplyAllInStep(InitConfig(fl, own), calls);
    var before := ApplyAll(InitConfig(fl, own), calls);
    RestartKeeps(before);
    InitInStep(before.flash, own);
  }

  /** So every frame is decided as by any filter made of those settings, before and after the restart. */
  lemma LastSettingDecides(fl: Flash, own: AddrFilter, calls: seq<Setter>, g: Filter, kind: PktType, pkt: Packet, lockOk: bool)
    requires FitsFilters(fl) && Readable(kind, pkt)
    requires InForce(g, own, LastAddr2(StoredAddr2(fl), calls), LastRssi(StoredRssi(fl), calls))
    ensures var before := ApplyAll(InitConfig(fl, own), calls);
            && (Accepts(before.ram, kind, pkt, lockOk) <==> Accepts(g, kind, pkt, lockOk))
            && (Accepts(InitConfig(before.flash, own).ram, kind, pkt, lockOk) <==> Accepts(g, kind, pkt, lockOk))
  {
    hide InitConfig, Apply, StoredAddr2, StoredRssi, Readable, Accepts, FitsFilters, LastAddr2, LastRssi;
    LastSettingInForce(fl, own, calls);
    var before := ApplyAll(InitConfig(fl, own), calls);
    SameSettingsDecideAlike(before.ram, g, kind, pkt, lockOk);
    SameSettingsDecideAlike(InitConfig(before.flash, own).ram, g, kind, pkt, lockOk);
  }
}
