/**
 The host: reading framed messages from the serial port and forwarding capture records to the pipe
 (Main.main_232, SerialCtrl.read and the packet parsers). The byte order of the buffers is a parameter; the
 shipped code leaves Java's default, big-endian.
 */
module Forwarder {
  import opened Bytes
  import opened Sequences
  import opened Pcap

  datatype Order = LittleEndian | BigEndian

  const MIN_PAYLOAD := 28
  const JAVA_MAGIC: int32 := Wrap32(MAGIC)

  /** ByteBuffer.getInt */
  function IntAt(bs: seq<byte>, at: nat, order: Order): int32
    requires at + 4 <= |bs|
  {
    Wrap32(if order == LittleEndian then ReadLe32(bs, at) else ReadBe32(bs, at))
  }

  /** ByteBuffer.getShort */
  function ShortAt(bs: seq<byte>, at: nat, order: Order): int
    requires at + 2 <= |bs|
  {
    var n: int := if order == LittleEndian then Word(bs[at], bs[at + 1], 0, 0) else Word(bs[at + 1], bs[at], 0, 0);
    if n < 0x8000 then n else n - 0x1_0000
  }

  class ByteBuffer {
    const data: seq<byte>
    const order: Order
    var position: nat

    constructor (data: seq<byte>, order: Order)
      ensures this.data == data && this.order == order && position == 0
    {
      this.data, this.order, position := data, order, 0;
    }

    method GetInt() returns (n: int32)
      requires position + 4 <= |data|
      modifies this
      ensures position == old(position) + 4 && n == IntAt(data, old(position), order)
    {
      n := IntAt(data, position, order);
      position := position + 4;
    }

    method GetShort() returns (n: int)
      requires position + 2 <= |data|
      modifies this
      ensures position == old(position) + 2 && n == ShortAt(data, old(position), order)
    {
      n := ShortAt(data, position, order);
      position := position + 2;
    }

    method GetBytes(n: nat) returns (bs: seq<byte>)
      requires position + n <= |data|
      modifies this
      ensures position == old(position) + n && bs == data[old(position)..position]
    {
      bs := data[position..position + n];
      position := position + n;
    }
  }

  // ---- The parsers: a buffer that is too short gives no packet ----

  datatype CaptureHeader = CaptureHeader(
    magicNum: int32, majorV: int, minorV: int, timezone: int32, sigfigs: int32, snapLen: int32, networkType: int32)
  datatype PayloadHeader = PayloadHeader(timeStamp: int32, microSeconds: int32, inclLen: int32, origLen: int32)
  datatype PayloadPacket = PayloadPacket(
    frameControl: int, duration: int, da: seq<byte>, sa: seq<byte>, bssid: seq<byte>, seqControl: int, data: seq<byte>)

  function CaptureHeaderAt(bs: seq<byte>, order: Order): CaptureHeader
    requires |bs| >= FILE_HEADER_SIZE
  {
    CaptureHeader(IntAt(bs, 0, order), ShortAt(bs, 4, order), ShortAt(bs, 6, order), IntAt(bs, 8, order),
                  IntAt(bs, 12, order), IntAt(bs, 16, order), IntAt(bs, 20, order))
  }

  function PayloadHeaderAt(bs: seq<byte>, order: Order): PayloadHeader
    requires |bs| >= RECORD_HEADER_SIZE
  {
    PayloadHeader(IntAt(bs, 0, order), IntAt(bs, 4, order), IntAt(bs, 8, order), IntAt(bs, 12, order))
  }

  /** The 16 bits as a Java short. */
  function Wrap16(n: uint16): int {
    if n < 0x8000 then n else n - 0x1_0000
  }

  /** With the writer's byte order the host parses the headers that were printed, every field in Java's signed form. */
  lemma ParsesPrintedHeaders(h: FileHeader, r: Record, tail: seq<byte>)
    requires Encodable(r)
    ensures CaptureHeaderAt(EncodeFileHeader(h) + tail, LittleEndian) ==
            CaptureHeader(Wrap32(h.magic), Wrap16(h.versionMajor), Wrap16(h.versionMinor), Wrap32(h.thiszone),
                          Wrap32(h.sigfigs), Wrap32(h.snaplen), Wrap32(h.network))
    ensures PayloadHeaderAt(EncodeRecord(r) + tail, LittleEndian) ==
            PayloadHeader(Wrap32(r.tsSec), Wrap32(r.tsUsec), Wrap32(|r.data|), Wrap32(r.origLen))
  {
    FileHeaderReadBack(h, tail);
    assert EncodeRecord(r) + tail == EncodeRecordHeader(r.tsSec, r.tsUsec, |r.data|, r.origLen) + (r.data + tail);
    RecordHeaderReadBack(r.tsSec, r.tsUsec, |r.data|, r.origLen, r.data + tail);
    hide EncodeFileHeader, EncodeRecordHeader, ReadLe32, Wrap32;
  }

  method GetCaptureHeader(buf: ByteBuffer) returns (h: Option<CaptureHeader>)
    requires buf.position == 0
    modifies buf
    ensures h.Some? <==> |buf.data| >= FILE_HEADER_SIZE
    ensures h.Some? ==> h.value == CaptureHeaderAt(buf.data, buf.order)
  {
    if |buf.data| < FILE_HEADER_SIZE {
      return None;
    }
    var magic := buf.GetInt();
    var major := buf.GetShort();
    var minor := buf.GetShort();
    var zone := buf.GetInt();
    var sigfigs := buf.GetInt();
    var snap := buf.GetInt();
    var network := buf.GetInt();
    h := Some(CaptureHeader(magic, major, minor, zone, sigfigs, snap, network));
  }

  method GetPayloadHeader(buf: ByteBuffer) returns (h: Option<PayloadHeader>)
    requires buf.position == 0
    modifies buf
    ensures h.Some? <==> |buf.data| >= RECORD_HEADER_SIZE
    ensures h.Some? ==> h.value == PayloadHeaderAt(buf.data, buf.order)
  {
    if |buf.data| < RECORD_HEADER_SIZE {
      return None;
    }
    var time := buf.GetInt();
    var micros := buf.GetInt();
    var incl := buf.GetInt();
    var orig := buf.GetInt();
    h := Some(PayloadHeader(time, micros, incl, orig));
  }

  method GetPayloadPacket(buf: ByteBuffer) returns (p: Option<PayloadPacket>)
    requires buf.position == 0
    modifies buf
    ensures p.Some? <==> |buf.data| >= MIN_PAYLOAD
    ensures p.Some? ==> p.value == PayloadPacket(
              ShortAt(buf.data, 0, buf.order), ShortAt(buf.data, 2, buf.order),
              buf.data[4..10], buf.data[10..16], buf.data[16..22],
              ShortAt(buf.data, 22, buf.order) % 0x100, buf.data[24..])
  {
    if |buf.data| < MIN_PAYLOAD {
      return None;
    }
    var control := buf.GetShort();
    var duration := buf.GetShort();
    var da := buf.GetBytes(6);
    var sa := buf.GetBytes(6);
    var bssid := buf.GetBytes(6);
    var seqControl := buf.GetShort();
    var data := buf.GetBytes(|buf.data| - buf.position);
    p := Some(PayloadPacket(control, duration, da, sa, bssid, seqControl % 0x100, data));
  }

  // ---- Serial port and pipe ----

  /** A read that gets anything gives a buffer of the full length, zeros behind what came; else an empty one. */
  function ReadResult(unread: seq<byte>, length: nat): seq<byte> {
    if length == 0 || unread == [] then []
    else if |unread| < length then unread + seq(length - |unread|, i => 0)
    else unread[..length]
  }

  function AfterRead(unread: seq<byte>, length: nat): (rest: seq<byte>)
    ensures |rest| <= |unread|
  {
    if |unread| < length then [] else unread[length..]
  }

  class SerialCtrl {
    const order: Order
    var unread: seq<byte>

    constructor (stream: seq<byte>, order: Order)
      ensures unread == stream && this.order == order
    {
      unread, this.order := stream, order;
    }

    method Read(length: nat) returns (buf: ByteBuffer)
      modifies this
      ensures fresh(buf) && buf.position == 0 && buf.order == order
      ensures buf.data == ReadResult(old(unread), length) && unread == AfterRead(old(unread), length)
    {
      buf := new ByteBuffer(ReadResult(unread, length), order);
      unread := AfterRead(unread, length);
    }
  }

  class Pipe {
    var written: seq<byte>

    constructor ()
      ensures written == []
    {
      written := [];
    }

    method Write(bs: seq<byte>)
      modifies this
      ensures written == old(written) + bs
    {
      written := written + bs;
    }
  }

  // ---- What the loop computes ----

  /** crashed: an incl_len that is negative as a Java int makes the array allocation throw. */
  datatype Outcome = Outcome(out: seq<byte>, crashed: bool)

  /** One turn of the loop: what it writes, what it leaves unread, whether it throws. */
  datatype Turn = Turn(written: seq<byte>, rest: seq<byte>, crashed: bool)

  function OneTurn(unread: seq<byte>, order: Order): (t: Turn)
    ensures unread == [] ==> t == Turn([], [], false)
    ensures unread != [] ==> |t.rest| < |unread|
  {
    var head := ReadResult(unread, RECORD_HEADER_SIZE);
    var rest := AfterRead(unread, RECORD_HEADER_SIZE);
    if |head| < RECORD_HEADER_SIZE then Turn([], rest, false)
    else
      var (incl, orig) := (IntAt(head, 8, order), IntAt(head, 12, order));
      var written := if orig > 0 then head else [];
      if incl < 0 then Turn(written, rest, true)
      else
        var payload := ReadResult(rest, incl);
        Turn(written + (if orig > 0 && |payload| >= MIN_PAYLOAD then payload else []), AfterRead(rest, incl), false)
  }

  function ForwardRecords(bs: seq<byte>, order: Order): Outcome
    decreases |bs|
  {
    if bs == [] then Outcome([], false)
    else
      var t := OneTurn(bs, order);
      if t.crashed then Outcome(t.written, true)
      else
        var more := ForwardRecords(t.rest, order);
        Outcome(t.written + more.out, more.crashed)
  }

  function ForwardStream(bs: seq<byte>, order: Order): Outcome {
    var head := ReadResult(bs, FILE_HEADER_SIZE);
    if head == [] || IntAt(head, 0, order) != JAVA_MAGIC then Outcome([], false)
    else
      var more := ForwardRecords(AfterRead(bs, FILE_HEADER_SIZE), order);
      Outcome(head + more.out, more.crashed)
  }

  lemma TurnCases(unread: seq<byte>, order: Order)
    ensures var head, rest := ReadResult(unread, RECORD_HEADER_SIZE), AfterRead(unread, RECORD_HEADER_SIZE);
            if |head| < RECORD_HEADER_SIZE then OneTurn(unread, order) == Turn([], rest, false)
            else
              var (incl, orig) := (IntAt(head, 8, order), IntAt(head, 12, order));
              if incl < 0 then OneTurn(unread, order) == Turn(if orig > 0 then head else [], rest, true)
              else if orig <= 0 || |ReadResult(rest, incl)| < MIN_PAYLOAD then
                OneTurn(unread, order) == Turn(if orig > 0 then head else [], AfterRead(rest, incl), false)
              else OneTurn(unread, order) == Turn(head + ReadResult(rest, incl), AfterRead(rest, incl), false)
  {
    var head := ReadResult(unread, RECORD_HEADER_SIZE);
    assert head + [] == head;
  }

  /** The part of a turn after the header: the announced bytes, forwarded if they are a parsable frame. */
  method ForwardBody(serial: SerialCtrl, pipe: Pipe, length: nat, frame: bool)
    modifies serial, pipe
    ensures serial.unread == AfterRead(old(serial.unread), length)
    ensures var payload := ReadResult(old(serial.unread), length);
            pipe.written == old(pipe.written) + if frame && |payload| >= MIN_PAYLOAD then payload else []
  {
    hide ReadResult, AfterRead, ShortAt;
    if frame {
      var payload := serial.Read(length);
      var packet := GetPayloadPacket(payload);
      if packet.Some? {
        pipe.Write(payload.data);
      }
    } else {
      var message := serial.Read(length);
    }
  }

  method ForwardOne(serial: SerialCtrl, pipe: Pipe) returns (crashed: bool)
    modifies serial, pipe
    ensures var t := OneTurn(old(serial.unread), serial.order);
            pipe.written == old(pipe.written) + t.written && serial.unread == t.rest && crashed == t.crashed
  {
    hide IntAt, ReadResult, AfterRead, OneTurn;
    ghost var before := pipe.written;
    TurnCases(serial.unread, serial.order);
    crashed := false;
    var headerBytes := serial.Read(RECORD_HEADER_SIZE);
    var header := GetPayloadHeader(headerBytes);
    ghost var head := headerBytes.data;
    if header.Some? {
      var h := header.value;
      var frame := h.origLen > 0;
      if frame {
        pipe.Write(headerBytes.data);
      }
      if h.inclLen < 0 {
        return true;
      }
      ghost var rest := serial.unread;
      ForwardBody(serial, pipe, h.inclLen, frame);
      assert frame ==> before + (head + ReadResult(rest, h.inclLen)) == before + head + ReadResult(rest, h.inclLen);
    }
  }

  /** What the loop will have written, once it has written out and has unread before it. */
  function Continued(out: seq<byte>, unread: seq<byte>, order: Order, crashed: bool): Outcome {
    if crashed then Outcome(out, true)
    else
      var more := ForwardRecords(unread, order);
      Outcome(out + more.out, more.crashed)
  }

  lemma TurnContinues(out: seq<byte>, unread: seq<byte>, order: Order)
    requires unread != []
    ensures var t := OneTurn(unread, order);
            Continued(out, unread, order, false) == Continued(out + t.written, t.rest, order, t.crashed)
  {
    hide OneTurn;
    var t := OneTurn(unread, order);
    if !t.crashed {
      var more := ForwardRecords(t.rest, order);
      assert out + (t.written + more.out) == out + t.written + more.out;
    }
  }

  lemma NothingContinues(out: seq<byte>, order: Order, crashed: bool)
    ensures Continued(out, [], order, crashed) == Outcome(out, crashed)
  {
  }

  lemma CrashEnds(out: seq<byte>, unread: seq<byte>, order: Order)
    ensures Continued(out, unread, order, true) == Outcome(out, true)
  {
  }

  /** The stream function begins with the file header, or rejects it. */
  lemma StreamCases(bs: seq<byte>, order: Order)
    ensures var head := ReadResult(bs, FILE_HEADER_SIZE);
            ForwardStream(bs, order) ==
            if |head| >= FILE_HEADER_SIZE && IntAt(head, 0, order) == JAVA_MAGIC
            then Continued(head, AfterRead(bs, FILE_HEADER_SIZE), order, false)
            else Outcome([], false)
  {
    hide IntAt, AfterRead, ForwardRecords;
  }

  /** main_232 after the connection is up, run until the stream is used up: then every further turn is idle. */
  method Forward(serial: SerialCtrl, pipe: Pipe) returns (crashed: bool)
    requires pipe.written == []
    modifies serial, pipe
    ensures Outcome(pipe.written, crashed) == ForwardStream(old(serial.unread), serial.order)
  {
    hide IntAt, ShortAt, ReadResult, AfterRead, OneTurn, Continued, ForwardRecords, ForwardStream;
    ghost var stream := serial.unread;
    StreamCases(stream, serial.order);
    crashed := false;
    var headerBytes := serial.Read(FILE_HEADER_SIZE);
    var header := GetCaptureHeader(headerBytes);
    if header.Some? && header.value.magicNum == JAVA_MAGIC {
      pipe.Write(headerBytes.data);
      assert pipe.written == headerBytes.data;
      while !crashed && serial.unread != []
        invariant ForwardStream(stream, serial.order) == Continued(pipe.written, serial.unread, serial.order, crashed)
        decreases |serial.unread|, !crashed
      {
        TurnContinues(pipe.written, serial.unread, serial.order);
        crashed := ForwardOne(serial, pipe);
      }
      if crashed {
        CrashEnds(pipe.written, serial.unread, serial.order);
      } else {
        NothingContinues(pipe.written, serial.order, false);
      }
    }
  }

  // ---- Streams a firmware writes ----

  /** incl_len is a non-negative Java int. */
  predicate JavaSized(rs: seq<Record>) {
    forall i :: 0 <= i < |rs| ==> |rs[i].data| < 0x8000_0000
  }

  /** orig_len is a positive Java int: a captured frame and not a message. */
  predicate IsFrame(r: Record) {
    0 < r.origLen < 0x8000_0000
  }

  function FramesOf(rs: seq<Record>): (fs: seq<Record>)
    ensures AllEncodable(rs) ==> AllEncodable(fs)
    ensures forall f :: f in fs ==> f in rs && IsFrame(f)
  {
    if rs == [] then [] else (if IsFrame(rs[0]) then [rs[0]] else []) + FramesOf(rs[1..])
  }

  /** The bytes one record leaves on the pipe: a payload shorter than 28 bytes is lost behind its header. */
  function Forwarded(r: Record): seq<byte>
    requires Encodable(r)
  {
    if !IsFrame(r) then []
    else if |r.data| < MIN_PAYLOAD then EncodeRecord(r)[..RECORD_HEADER_SIZE]
    else EncodeRecord(r)
  }

  function ForwardedAll(rs: seq<Record>): seq<byte>
    requires AllEncodable(rs)
  {
    if rs == [] then [] else Forwarded(rs[0]) + ForwardedAll(rs[1..])
  }

  lemma IntsOfRecord(r: Record, tail: seq<byte>)
    requires Encodable(r)
    ensures var bs := EncodeRecord(r) + tail;
            IntAt(bs, 8, LittleEndian) == Wrap32(|r.data|) && IntAt(bs, 12, LittleEndian) == Wrap32(r.origLen)
  {
    var bs := EncodeRecord(r) + tail;
    assert bs == EncodeRecordHeader(r.tsSec, r.tsUsec, |r.data|, r.origLen) + (r.data + tail);
    RecordHeaderReadBack(r.tsSec, r.tsUsec, |r.data|, r.origLen, r.data + tail);
  }

  /** The loop's turn over a printed record. */
  lemma RecordTurn(r: Record, tail: seq<byte>)
    requires |r.data| < 0x8000_0000
    ensures OneTurn(EncodeRecord(r) + tail, LittleEndian) == Turn(Forwarded(r), tail, false)
  {
    hide EncodeRecordHeader, ReadLe32, ReadBe32, IntAt;
    var bs := EncodeRecord(r) + tail;
    var head, rest := ReadResult(bs, RECORD_HEADER_SIZE), AfterRead(bs, RECORD_HEADER_SIZE);
    assert rest == r.data + tail;
    assert EncodeRecord(r) == head + r.data;
    IntsOfRecord(r, tail);
    HeadInts(bs);
    PositiveInts(r);
    assert AfterRead(rest, |r.data|) == tail;
    assert ReadResult(rest, |r.data|) == r.data;
    assert EncodeRecord(r)[..RECORD_HEADER_SIZE] == head;
    assert head + [] == head;
  }

  lemma PositiveInts(r: Record)
    requires |r.data| < 0x8000_0000
    ensures Wrap32(|r.data|) == |r.data| && (Wrap32(r.origLen) > 0 <==> IsFrame(r))
  {
  }

  lemma RecordForwarded(r: Record, tail: seq<byte>)
    requires |r.data| < 0x8000_0000
    ensures var more := ForwardRecords(tail, LittleEndian);
            ForwardRecords(EncodeRecord(r) + tail, LittleEndian) == Outcome(Forwarded(r) + more.out, more.crashed)
  {
    RecordTurn(r, tail);
    hide EncodeRecordHeader, OneTurn, Forwarded;
  }

  lemma HeadInts(bs: seq<byte>)
    requires |bs| >= RECORD_HEADER_SIZE
    ensures IntAt(ReadResult(bs, RECORD_HEADER_SIZE), 8, LittleEndian) == IntAt(bs, 8, LittleEndian)
    ensures IntAt(ReadResult(bs, RECORD_HEADER_SIZE), 12, LittleEndian) == IntAt(bs, 12, LittleEndian)
  {
  }

  lemma {:induction false} RecordsForwarded(rs: seq<Record>)
    requires AllEncodable(rs) && JavaSized(rs)
    ensures ForwardRecords(EncodeRecords(rs), LittleEndian) == Outcome(ForwardedAll(rs), false)
    decreases |rs|
  {
    hide Forwarded, EncodeRecord, ForwardRecords;
    if rs == [] {
      NothingForwarded();
    } else {
      RecordsForwarded(rs[1..]);
      RecordForwarded(rs[0], EncodeRecords(rs[1..]));
    }
  }

  lemma NothingForwarded()
    ensures ForwardRecords([], LittleEndian) == Outcome([], false)
  {
  }

  /** No frame has a payload that is too short for the packet parser and not empty. */
  predicate NoShortFrames(rs: seq<Record>) {
    forall r :: r in rs && IsFrame(r) ==> r.data == [] || |r.data| >= MIN_PAYLOAD
  }

  /** What is forwarded is never longer than the frames, and as long only when no payload was lost. */
  lemma {:induction false} ForwardedAllIsFrames(rs: seq<Record>)
    requires AllEncodable(rs)
    ensures |ForwardedAll(rs)| <= |EncodeRecords(FramesOf(rs))|
    ensures ForwardedAll(rs) == EncodeRecords(FramesOf(rs)) <==> NoShortFrames(rs)
    ensures |ForwardedAll(rs)| == |EncodeRecords(FramesOf(rs))| ==> NoShortFrames(rs)
    decreases |rs|
  {
    hide EncodeRecord;
    if rs != [] {
      var r, more := rs[0], rs[1..];
      ForwardedAllIsFrames(more);
      assert FramesOf(rs) == (if IsFrame(r) then [r] else []) + FramesOf(more);
      if IsFrame(r) {
        assert FramesOf(rs)[1..] == FramesOf(more);
        assert EncodeRecords(FramesOf(rs)) == EncodeRecord(r) + EncodeRecords(FramesOf(more));
        if |r.data| == 0 {
          assert EncodeRecord(r)[..RECORD_HEADER_SIZE] == EncodeRecord(r);
        }
      } else {
        assert FramesOf(rs) == FramesOf(more);
      }
      assert NoShortFrames(rs) <==> NoShortFrames(more) && (IsFrame(r) ==> r.data == [] || |r.data| >= MIN_PAYLOAD);
    }
  }

  /**
   With the writer's byte order, the host forwards exactly the file header and the frames, messages left
   out, if and only if no frame carries between 1 and 27 bytes.
   */
  lemma ForwardsExactlyFrames(h: FileHeader, rs: seq<Record>)
    requires h.magic == MAGIC && AllEncodable(rs) && JavaSized(rs)
    ensures !ForwardStream(EncodeFile(h, rs), LittleEndian).crashed
    ensures ForwardStream(EncodeFile(h, rs), LittleEndian).out == EncodeFile(h, FramesOf(rs)) <==> NoShortFrames(rs)
  {
    hide EncodeFileHeader, EncodeRecords, ReadLe32, ReadBe32, ForwardRecords, ForwardedAll;
    var bs := EncodeFile(h, rs);
    FileHeaderReadBack(h, EncodeRecords(rs));
    var head := ReadResult(bs, FILE_HEADER_SIZE);
    assert head == EncodeFileHeader(h) && AfterRead(bs, FILE_HEADER_SIZE) == EncodeRecords(rs);
    FileHeaderReadBack(h, []);
    assert head + [] == head;
    RecordsForwarded(rs);
    ForwardedAllIsFrames(rs);
    SamePrefixCancels(head, ForwardedAll(rs), EncodeRecords(FramesOf(rs)));
  }

  lemma SamePrefixCancels(a: seq<byte>, b: seq<byte>, c: seq<byte>)
    ensures a + b == a + c <==> b == c
  {
    if a + b == a + c {
      assert b == (a + b)[|a|..] && c == (a + c)[|a|..];
    }
  }

  /** The reader at the other end of the pipe gets the frames under the same condition. */
  lemma ForwardedReadsBack(h: FileHeader, rs: seq<Record>)
    requires h.magic == MAGIC && AllEncodable(rs) && JavaSized(rs)
    ensures ReadFile(ForwardStream(EncodeFile(h, rs), LittleEndian).out) == Some(Capture(h, FramesOf(rs), []))
            <==> NoShortFrames(rs)
  {
    hide EncodeFile, ReadFile, ForwardStream;
    ForwardsExactlyFrames(h, rs);
    FileReadBack(h, FramesOf(rs));
    var out := ForwardStream(EncodeFile(h, rs), LittleEndian).out;
    if ReadFile(out) == Some(Capture(h, FramesOf(rs), [])) {
      FilePrintBack(out);
      assert EncodeFile(h, FramesOf(rs)) + [] == EncodeFile(h, FramesOf(rs));
    }
  }

  /** With Java's default order, which the shipped code uses, nothing any firmware writes is forwarded. */
  lemma BigEndianForwardsNothing(h: FileHeader, tail: seq<byte>)
    requires h.magic == MAGIC
    ensures ForwardStream(EncodeFileHeader(h) + tail, BigEndian) == Outcome([], false)
  {
    var bs := EncodeFileHeader(h) + tail;
    var head := ReadResult(bs, FILE_HEADER_SIZE);
    assert head[..4] == Le32(MAGIC);
    assert head[0] == head[..4][0] == 0xd4 && head[1] == head[..4][1] == 0xc3;
    assert head[2] == head[..4][2] == 0xb2 && head[3] == head[..4][3] == 0xa1;
    assert ReadBe32(head, 0) == 0xd4c3b2a1;
  }

  // ---- Lengths Java cannot hold, and streams that break off ----

  lemma RecordThrows(r: Record, tail: seq<byte>)
    requires Encodable(r) && |r.data| >= 0x8000_0000
    ensures ForwardRecords(EncodeRecord(r) + tail, LittleEndian)
         == Outcome(if IsFrame(r) then EncodeRecord(r)[..RECORD_HEADER_SIZE] else [], true)
  {
    hide EncodeRecordHeader, ReadLe32, ReadBe32, IntAt;
    var bs := EncodeRecord(r) + tail;
    IntsOfRecord(r, tail);
    HeadInts(bs);
    assert ReadResult(bs, RECORD_HEADER_SIZE) == EncodeRecord(r)[..RECORD_HEADER_SIZE];
    assert Wrap32(|r.data|) < 0 && (Wrap32(r.origLen) > 0 <==> IsFrame(r));
  }

  /** The host throws on a well-framed stream exactly when some incl_len is negative as a Java int. */
  lemma {:induction false} RecordsThrowIff(rs: seq<Record>)
    requires AllEncodable(rs)
    ensures ForwardRecords(EncodeRecords(rs), LittleEndian).crashed <==> !JavaSized(rs)
    decreases |rs|
  {
    hide Forwarded, EncodeRecord, ForwardRecords;
    if rs == [] {
      NothingForwarded();
    } else if |rs[0].data| < 0x8000_0000 {
      RecordsThrowIff(rs[1..]);
      RecordForwarded(rs[0], EncodeRecords(rs[1..]));
      assert JavaSized(rs) <==> JavaSized(rs[1..]);
    } else {
      RecordThrows(rs[0], EncodeRecords(rs[1..]));
    }
  }

  lemma {:induction false} RecordsThen(rs: seq<Record>, tail: seq<byte>)
    requires AllEncodable(rs) && JavaSized(rs)
    ensures var more := ForwardRecords(tail, LittleEndian);
            ForwardRecords(EncodeRecords(rs) + tail, LittleEndian) == Outcome(ForwardedAll(rs) + more.out, more.crashed)
    decreases |rs|
  {
    hide Forwarded, EncodeRecord, ForwardRecords;
    var more := ForwardRecords(tail, LittleEndian);
    if rs == [] {
      assert EncodeRecords(rs) + tail == tail && ForwardedAll(rs) + more.out == more.out;
    } else {
      RecordsThen(rs[1..], tail);
      RecordForwarded(rs[0], EncodeRecords(rs[1..]) + tail);
      assert EncodeRecords(rs) + tail == EncodeRecord(rs[0]) + (EncodeRecords(rs[1..]) + tail);
      assert ForwardedAll(rs) + more.out == Forwarded(rs[0]) + (ForwardedAll(rs[1..]) + more.out);
    }
  }

  /** The record with zeros for the bytes from k on. */
  function ZeroedFrom(r: Record, k: nat): (z: Record)
    requires k <= |r.data|
    ensures |z.data| == |r.data|
  {
    r.(data := r.data[..k] + seq(|r.data| - k, i => 0))
  }

  lemma CutTurn(r: Record, k: nat)
    requires 0 < k < |r.data| < 0x8000_0000
    ensures OneTurn(EncodeRecord(r)[..RECORD_HEADER_SIZE + k], LittleEndian) == OneTurn(EncodeRecord(ZeroedFrom(r, k)), LittleEndian)
  {
    hide EncodeRecordHeader, ReadLe32, ReadBe32, IntAt;
    var z := ZeroedFrom(r, k);
    var cut, whole := EncodeRecord(r)[..RECORD_HEADER_SIZE + k], EncodeRecord(z);
    var head := EncodeRecordHeader(r.tsSec, r.tsUsec, |r.data|, r.origLen);
    assert ReadResult(cut, RECORD_HEADER_SIZE) == head && ReadResult(whole, RECORD_HEADER_SIZE) == head;
    assert AfterRead(cut, RECORD_HEADER_SIZE) == r.data[..k] && AfterRead(whole, RECORD_HEADER_SIZE) == z.data;
    IntsOfRecord(z, []);
    assert whole + [] == whole;
    HeadInts(whole);
    PositiveInts(z);
    assert ReadResult(r.data[..k], |r.data|) == z.data && ReadResult(z.data, |r.data|) == z.data;
  }

  /** The bytes of r up to k bytes of its data. */
  function CutRecord(r: Record, k: nat): (bs: seq<byte>)
    requires Encodable(r) && k <= |r.data|
    ensures |bs| == RECORD_HEADER_SIZE + k
  {
    EncodeRecord(r)[..RECORD_HEADER_SIZE + k]
  }

  lemma CutForwards(r: Record, k: nat)
    requires 0 < k < |r.data| < 0x8000_0000
    ensures ForwardRecords(CutRecord(r, k), LittleEndian) == ForwardRecords(EncodeRecord(ZeroedFrom(r, k)), LittleEndian)
  {
    hide EncodeRecord, ForwardRecords, OneTurn, ZeroedFrom;
    CutTurn(r, k);
    SameTurn(CutRecord(r, k), EncodeRecord(ZeroedFrom(r, k)));
  }

  lemma CutRecordsForward(rs: seq<Record>, r: Record, k: nat)
    requires AllEncodable(rs) && JavaSized(rs) && 0 < k < |r.data| < 0x8000_0000
    ensures AllEncodable(rs + [ZeroedFrom(r, k)])
    ensures ForwardRecords(EncodeRecords(rs) + CutRecord(r, k), LittleEndian)
         == ForwardRecords(EncodeRecords(rs + [ZeroedFrom(r, k)]), LittleEndian)
  {
    hide EncodeRecord, EncodeRecords, ForwardRecords, ForwardedAll, ZeroedFrom, CutRecord;
    var z := ZeroedFrom(r, k);
    OneRecordEncoded(z);
    EncodeRecordsConcat(rs, [z]);
    CutForwards(r, k);
    RecordsThen(rs, CutRecord(r, k));
    RecordsThen(rs, EncodeRecord(z));
  }

  /**
   A stream that breaks off inside the bytes of a record is forwarded as if the missing bytes had been zeros: the
   reader behind the pipe cannot tell.
   */
  lemma CutReadsAsZeros(h: FileHeader, rs: seq<Record>, r: Record, k: nat)
    requires AllEncodable(rs) && JavaSized(rs) && 0 < k < |r.data| < 0x8000_0000
    ensures AllEncodable(rs + [ZeroedFrom(r, k)])
    ensures ForwardStream(EncodeFile(h, rs) + CutRecord(r, k), LittleEndian)
         == ForwardStream(EncodeFile(h, rs + [ZeroedFrom(r, k)]), LittleEndian)
  {
    hide EncodeFileHeader, EncodeRecords, ForwardRecords, ForwardStream, ZeroedFrom, CutRecord, JavaSized;
    CutRecordsForward(rs, r, k);
    var head, cut := EncodeFileHeader(h), CutRecord(r, k);
    SameRest(head, EncodeRecords(rs) + cut, EncodeRecords(rs + [ZeroedFrom(r, k)]));
    assert EncodeFile(h, rs) + cut == head + (EncodeRecords(rs) + cut);
  }

  lemma SameTurn(a: seq<byte>, b: seq<byte>)
    requires a != [] && b != [] && OneTurn(a, LittleEndian) == OneTurn(b, LittleEndian)
    ensures ForwardRecords(a, LittleEndian) == ForwardRecords(b, LittleEndian)
  {
    hide OneTurn;
  }

  lemma SameRest(head: seq<byte>, a: seq<byte>, b: seq<byte>)
    requires |head| == FILE_HEADER_SIZE && ForwardRecords(a, LittleEndian) == ForwardRecords(b, LittleEndian)
    ensures ForwardStream(head + a, LittleEndian) == ForwardStream(head + b, LittleEndian)
  {
    HeaderThen(head, a);
    HeaderThen(head, b);
    hide ReadResult, AfterRead, ForwardRecords, IntAt;
  }

  lemma HeaderThen(head: seq<byte>, tail: seq<byte>)
    requires |head| == FILE_HEADER_SIZE
    ensures ReadResult(head + tail, FILE_HEADER_SIZE) == head && AfterRead(head + tail, FILE_HEADER_SIZE) == tail
  {
  }
}
