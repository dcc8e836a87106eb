# WifiSniffer, modelled and proved in Dafny

The repository is a Wi-Fi capture pipeline. An ESP32 firmware receives 802.11 frames in a driver callback,
filters them by address prefix and signal strength, wraps them as radiotap/pcap records, queues them, and sends
them to whichever TCP client is connected. An Arduino firmware does the same over a serial line, steered by
two-letter commands. A Java host reads a capture stream and forwards it to a pipe.

This project models the four cores and proves, for all inputs and all runs, what the byte streams can be, where
every record ends up, which frames are recorded, and that every encoder has a decoder that undoes it.

| file | what it holds |
|---|---|
| `bytes.dfy`, `sequences.dfy` | widths, wrap-around and byte orders; subsequences, recursively and as embeddings (`Sequences.SubsequenceIffEmbedding`) |
| `pcap.dfy` | pcap printers, a reference reader written from sections 4 and 5 of draft-ietf-opsawg-pcap, cuts |
| `capture.dfy` | the packed ESP32 record and the bytes of it that are sent; a radiotap reader (radiotap.org alignment rules) |
| `frames.dfy`, `filter_traces.dfy` | the handler's branch tree against a role table (IEEE 802.11-2016, sections 9.2.4.1, 9.3.1, 9.3.2.1); filters over traces |
| `sequence_control.dfy` | sequence numbers, on machine words |
| `filter_store.dfy` | the flash store and the filters kept in it |
| `pipeline.dfy` | the ESP32 pipeline as a step system: frames, accepts, task actions, failures, settings, reboot |
| `pipeline_runs.dfy`, `guarded_runs.dfy`, `delivery.dfy` | what all runs keep; what runs with one client at a time keep; what a client can read |
| `outcomes.dfy` | what the steps of any run do to clients: refused writes, replaced clients, restarts, the filter in force |
| `complete_sessions.dfy` | a session without failures delivers every frame that passes |
| `overlap.dfy` | what goes wrong when clients overlap, with runs that get there |
| `firmware.dfy` | the ESP32 code as a class whose methods are each proved to do one step of the step system |
| `hex_text.dfy`, `java_packet.dfy` | hexadecimal text and integer folding, in C and in Java |
| `forwarder.dfy` | the Java reading and forwarding loop |
| `arduino.dfy`, `arduino_runs.dfy` | the Arduino code as a class; its byte stream over whole runs |
| `arduino_history.dfy` | the same stream said of the history of commands and frames alone |

`dafny verify dfyconfig.toml` checks the project.

## How the code is read

- Each callback and each task action is one atomic step, taken in any order. In particular the packet handler is
  one step: the code gives the filter semaphore back before it reads the filters, so the lock does not provide
  this. When the semaphore cannot be had, the handler lets every address through; that branch is modelled.
- A socket write sends all bytes or fails. Queue and flash operations do what they say. Deleting a task that is
  already gone has no effect. A connection is named by its place in the order of accepts.
- `wifi_pkt_rx_ctrl_t` is declared by ESP-IDF, outside the repository. `sig_len` is taken as its 12-bit unsigned
  field, so that removing the check sequence wraps; no frame length is excluded.
- A serial read of the host waits until all the bytes it asked for have come, except at the end of the stream. The
  port is opened with a time-out of 2000 ms (`SerialCtrl.java:35`): a read that times out in mid-record also returns
  the full length padded with zeros, and the framing is lost from there on. The host's claims assume that no read
  times out while the stream goes on.
- The host reads `orig_len` as a signed int, so 2^31 and more is taken for a message like 0. An Arduino management
  frame with `sig_len` below 4 produces such a length, because 4 is taken off in an unsigned variable.
- The flash store is a map from keys to values with the contracts of `Nvs.NvsFlash`; a missing key gives the default.
- The driver hands over buffers in which the header fields of the frame's kind and `incl_len` bytes can be read.

## What turned out false, and the exact condition

- "At most one sniffer task": every accept starts a task without stopping the old one. It holds throughout a run
  exactly when clients are accepted only while none is connected (`Delivery.OneTaskIffGuarded`). After any run two
  accepts in a row make two live tasks, and the second client is sent two file headers
  (`Overlap.OverlapSendsTwoHeaders`), which a pcap reader takes for a header and a record that was never captured
  (`Overlap.TwoHeadersReadBogus`). A client accepted while a task holds a record can get a stream no reader opens;
  `Overlap.UnreadableStreamReached` is such a run from power-on.
- "The host forwards what it reads": exactly when no frame carries between 1 and 27 bytes, because a shorter payload
  is lost behind its forwarded header (`Forwarder.ForwardsExactlyFrames`); a 16-byte data frame after S1 is such an
  input (`ArduinoRuns.LocalFrameLosesPayload`). With the byte order the code ships with (the little-endian call is
  commented out) nothing is forwarded (`Forwarder.BigEndianForwardsNothing`).
- "The Arduino stream starts with a capture header": the header written at power-on is lost, because no writer is
  installed yet. It holds exactly when no frame passes the filters before the first S0, S1, OT or OB
  (`ArduinoRuns.HeaderFirstIff`); one frame from 00:0C:CC:00:00:01 heard first breaks it
  (`ArduinoRuns.LocalFrameBeforeHeader`). From the first of these commands on, every run's stream is a sequence of
  capture files (`ArduinoRuns.StreamIsFiles`).
- "bytesToHex undoes hexStringToByteArray": on texts of even length exactly when every character is a digit, because
  the parser does not look for -1 (`JavaPacket.EncodeUndoesDecode`).
- `capture_lib.h:8` notes 2500 beside the snap length; the length is configured from 200 to 2500 with default 1000
  (`Kconfig.projbuild:17-22`), and the model takes any length in that range.

## Model

| member | source | states |
|---|---|---|
| Delivery.ClientReadsPassedFrames | Esp32Sniffer/main/main.c:46-79 | in every run with one client at a time, including failures and reboots, a client's bytes are nothing or one file header and whole records, which a pcap reader reads to the end as frames that arrived and passed, in arrival order; each record holds its frame's time, length and leading bytes |
| CompleteSessions.SessionIsComplete | Esp32Sniffer/components/wifi_sniffer/wifi_sniffer.c:465-491 | for every interleaving of frames and task turns without a refused write or a drop, once the queue is drained the client's stream reads back as exactly the arrived frames that pass the filter, all of them, in order |
| CompleteSessions.FewFramesNotDropped | Esp32Sniffer/components/wifi_sniffer/wifi_sniffer.c:181-194 | nothing is dropped in a session as long as no more frames pass than the queue has room for |
| CompleteSessions.NothingLost | Esp32Sniffer/main/main.c:54-79 | with one client at a time, no restart and no refused write, no record is lost |
| Outcomes.RefusedWrite | Esp32Sniffer/main/main.c:54-79 | in every run a refused write of a header or a record forgets the client, stops the driver's calls, deletes the task of the handle and loses the refused record and one the deleted task held; the client is sent nothing in any continuation |
| Outcomes.GuardedRefusal | Esp32Sniffer/main/main.c:54-79 | with one client at a time exactly the refused record is lost and no task is left |
| Outcomes.WriteDelivers | Esp32Sniffer/main/main.c:54-79 | in every run a write that succeeds puts exactly the header or the held record on the newest client's stream and loses nothing |
| Outcomes.WriteWithoutClient | Esp32Sniffer/main/main.c:54-79 | in every run a task without a client skips the header or loses the record it holds, and goes on |
| Outcomes.AcceptReplaces | Esp32Sniffer/main/main.c:47-52 | in every run an accept connects a client with an empty stream, starts a task if it can, and no older client is sent anything in any continuation |
| Outcomes.RestartEndsAll | Esp32Sniffer/components/wifi_sniffer/wifi_sniffer.c:515-533 | in every run a restart leaves no client, task or queue, the driver quiet, and every stream of before final; what was in memory is lost |
| Outcomes.OldestTaken | Esp32Sniffer/components/wifi_sniffer/wifi_sniffer.c:474-485 | in every run an idle task takes the oldest queued record |
| Outcomes.FrameTaken | Esp32Sniffer/components/wifi_sniffer/wifi_sniffer.c:243-382 | in every run while the driver calls back, a frame is recorded exactly when its header bytes and signal agree with the settings last made; the record is queued, or dropped when the queue is full |
| Outcomes.RunFilter | Esp32Sniffer/components/wifi_sniffer/wifi_sniffer.c:78-115 | in every reachable state, restarts included, the filter in force is the own address and the prefix and threshold last set, or those flash held at power-on |
| Delivery.OneTaskIffGuarded | Esp32Sniffer/main/main.c:47-52 | at most one sniffer task is live at every point of a run if and only if every accept happens while no client is connected (each accept getting its task) |
| Overlap.OverlapSendsTwoHeaders | Esp32Sniffer/main/main.c:47-52 | after any run, two accepts make two live tasks, and once both tasks have started the second client has been sent two file headers |
| Overlap.TwoHeadersReadBogus | Esp32Sniffer/components/wifi_sniffer/wifi_sniffer.c:465-473 | a pcap reader opens such a stream and reads an empty record stamped with the magic number, with 8 bytes left over |
| Overlap.OverlapBreaksStream | Esp32Sniffer/main/main.c:47-79 | whenever a task holds a record, a client accepted then can be sent that record before any header and no pcap reader opens its stream |
| Overlap.HoldingIsReached | Esp32Sniffer/components/wifi_sniffer/wifi_sniffer.c:465-491 | from power-on one client, its task started and any one frame that passes bring the task to hold that frame's record |
| Overlap.UnreadableStreamReached | Esp32Sniffer/main/main.c:47-79 | a concrete run from power-on that ends with a client whose stream no pcap reader opens |
| Delivery.ClientReadsInTimeOrder | Esp32Sniffer/components/wifi_sniffer/capture_lib.c:90 | when arrival times do not decrease, every client reads its records in lexicographic time order |
| GuardedRuns.RunOrderly | Esp32Sniffer/main/main.c:46-79 | with one client at a time: a live task is the one the handle names and has a client, headers come first and once, the driver calls back exactly while a task is past its start, and sent, held and queued records are in the order they were built |
| GuardedRuns.DeafWithoutClient | Esp32Sniffer/components/wifi_sniffer/wifi_sniffer.c:438-448 | with one client at a time, a frame that arrives while no client is connected changes nothing |
| GuardedRuns.LosslessIsComplete | Esp32Sniffer/components/wifi_sniffer/wifi_sniffer.c:465-491 | when nothing was dropped or lost, what was sent, held and queued is exactly the records built, once each and in order |
| PipelineRuns.RunConsistent | Esp32Sniffer/components/wifi_sniffer/wifi_sniffer.c:465-551 | in every run, overlapping clients included: the queue is bounded, records are conserved, every stream is a sequence of whole headers and records, every record comes from a frame that passed, RAM and flash agree |
| PipelineRuns.StepConserves | Esp32Sniffer/components/wifi_sniffer/wifi_sniffer.c:465-491 | every step keeps: records built, as a multiset, are the dropped, queued, held, delivered and lost ones |
| PipelineRuns.DropsOnlyWhenFull | Esp32Sniffer/components/wifi_sniffer/wifi_sniffer.c:181-194 | a record is dropped exactly when a passing frame finds the queue full |
| PipelineRuns.PassedAreForeign | Esp32Sniffer/main/main.c:333-339 | in every run every frame that passed with the semaphore had carries the 6-byte own address in no inspected field |
| PipelineRuns.NeverDeliversOwnFrames | Esp32Sniffer/main/main.c:333-339 | every frame that passed and makes a delivered record, and there is one, is foreign in that sense, the semaphore being had |
| PipelineRuns.RebootKeepsDecisions | Esp32Sniffer/components/wifi_sniffer/wifi_sniffer.c:515-533 | in every reachable state a reboot changes no decision of the handler and writes nothing to flash |
| PipelineRuns.StepConsistent | Esp32Sniffer/components/wifi_sniffer/wifi_sniffer.c:465-551 | every step keeps the queue bound, the conservation of records, whole chunks on every stream, the justification of every record and RAM in step with flash |
| Firmware.Sniffer.PacketHandler | Esp32Sniffer/components/wifi_sniffer/wifi_sniffer.c:243-382 | one call of the handler is one Frame step |
| Firmware.Sniffer.SnifferAddQueue | Esp32Sniffer/components/wifi_sniffer/wifi_sniffer.c:181-194 | a record goes to the end of the queue, or is dropped and reported when the queue is full |
| Firmware.Sniffer.OnSocketAccept | Esp32Sniffer/main/main.c:47-52 | replaces the client and starts a task: one Accept step |
| Firmware.Sniffer.SnifferStart | Esp32Sniffer/components/wifi_sniffer/wifi_sniffer.c:536-544 | a new task and the handle of the newest one, or nothing when memory is short |
| Firmware.Sniffer.SnifferStop | Esp32Sniffer/components/wifi_sniffer/wifi_sniffer.c:546-551 | promiscuous mode ends and the task the handle names is deleted, whichever task calls |
| Firmware.Sniffer.OnSend | Esp32Sniffer/components/tcp_server/tcp_server.c:51-65 | all bytes are appended to the client's stream, or none and false |
| Firmware.Sniffer.OnStartCapture | Esp32Sniffer/main/main.c:54-67 | sends the file header to the client if there is one; a failure forgets the client and stops the sniffer |
| Firmware.Sniffer.OnCapture | Esp32Sniffer/main/main.c:69-79 | sends one record; a failure loses it, forgets the client and stops the sniffer |
| Firmware.Sniffer.TaskOpen | Esp32Sniffer/components/wifi_sniffer/wifi_sniffer.c:465-473 | the task's first action turns promiscuous mode on |
| Firmware.Sniffer.TaskReceive | Esp32Sniffer/components/wifi_sniffer/wifi_sniffer.c:474-485 | takes the oldest queued record, if any |
| Firmware.Sniffer.SnifferSetAddr2Filter | Esp32Sniffer/components/wifi_sniffer/wifi_sniffer.c:108-115 | sets the filter in RAM and, if changed, in flash |
| Firmware.Sniffer.SnifferSetRssiFilter | Esp32Sniffer/components/wifi_sniffer/wifi_sniffer.c:227-236 | sets the threshold, zero meaning the default, in RAM and, if changed, in flash |
| Firmware.Sniffer.SnifferInitConfig | Esp32Sniffer/components/wifi_sniffer/wifi_sniffer.c:515-533 | sets the own address and reads the other filters back from flash |
| Firmware.Sniffer.constructor | Esp32Sniffer/main/main.c:309-349 | power-on reaches the boot state for any flash contents |
| FilterStore.RestartEquivalence | Esp32Sniffer/components/wifi_sniffer/wifi_sniffer.c:515-533 | after any setter calls from any flash, losing RAM and starting again decides every frame as before and writes nothing |
| FilterStore.LastSettingInForce | Esp32Sniffer/components/wifi_sniffer/wifi_sniffer.c:78-115 | after any setter calls, and again after a restart, the filter in force is the prefix and threshold asked for last (0 meaning -96), or those flash held |
| FilterStore.LastSettingDecides | Esp32Sniffer/components/wifi_sniffer/wifi_sniffer.c:515-533 | so every frame is decided as by any filter made of those settings, before and after the restart |
| FilterStore.WritesOnlyChanges | Esp32Sniffer/components/wifi_sniffer/wifi_sniffer_nvs.c:24-56 | a setter call writes flash once if it changes the filter, ignoring bytes past its size, and not at all otherwise |
| FilterStore.InitInStep | Esp32Sniffer/components/wifi_sniffer/wifi_sniffer.c:515-533 | start-up brings RAM and flash in step whatever flash holds |
| FilterStore.SameSettingsDecideAlike | Esp32Sniffer/components/wifi_sniffer/wifi_sniffer.c:131-135 | filters that agree up to their size decide every frame alike |
| FilterStore.GetFilterMac | Esp32Sniffer/components/wifi_sniffer/wifi_sniffer_nvs.c:17-23 | the stored bytes in front of zeros, with their number as size, or an empty filter |
| FilterStore.SetFilterMac | Esp32Sniffer/components/wifi_sniffer/wifi_sniffer_nvs.c:24-36 | writes the first size bytes unless they are stored already |
| FilterStore.GetFilterRssi | Esp32Sniffer/components/wifi_sniffer/wifi_sniffer_nvs.c:38-43 | the stored number truncated to 8 bits, or the default |
| FilterStore.SetFilterRssi | Esp32Sniffer/components/wifi_sniffer/wifi_sniffer_nvs.c:45-56 | writes unless the stored number already reads as the value |
| Nvs.NvsFlash.GetArray | Esp32Sniffer/components/nvs_lib/nvs_lib.c:468-513 | fills the front of the caller's buffer with the blob or the default and reports its size |
| Frames.HandlerRefinesRoles | Esp32Sniffer/components/wifi_sniffer/wifi_sniffer.c:243-382 | the handler accepts a frame exactly when signal and state allow, no inspected role carries the own address and a matching role carries the filter's prefix |
| Frames.InspectRefinesRoles | Esp32Sniffer/components/wifi_sniffer/wifi_sniffer.c:265-359 | both flags of the type/subtype/ToDS/FromDS branch tree are the role table's questions |
| Frames.InspectsHeaderBytes | Esp32Sniffer/components/wifi_sniffer/wifi_sniffer.c:265-359 | both flags and the readable length, by the low two bits of byte 1 for data and the high half of byte 0 for control frames, as prefix tests at offsets 4, 10 and 16 |
| Frames.DecidesByHeaderBytes | Esp32Sniffer/components/wifi_sniffer/wifi_sniffer.c:243-372 | the whole decision on the bytes: signal at or above the threshold, no own address in an inspected field, the prefix in a matching one; every address when the semaphore could not be had |
| FilterTraces.PassingMonotone | Esp32Sniffer/components/wifi_sniffer/wifi_sniffer.c:252-372 | on every trace a narrower filter passes a subsequence of the frames the wider one passes |
| FilterTraces.NarrowerIff | Esp32Sniffer/components/wifi_sniffer/wifi_sniffer.c:131-135 | for settings as the setters store them, passing no further frame is exactly extending the prefix and not lowering the threshold, or naming the own address in full and not lowering the threshold |
| FilterTraces.OwnFramesRejected | Esp32Sniffer/components/wifi_sniffer/wifi_sniffer.c:270-372 | with a 6-byte own address, a frame that passes has it in none of its inspected address fields, by the role table and by header offsets |
| SequenceControl.GetSeq | Esp32Sniffer/components/wifi_sniffer/wifi_sniffer.c:196-208 | sequence number below 4096 and fragment below 16 that put together are the 16-bit field, whatever its sign |
| SequenceControl.RotateBack | Esp32Sniffer/components/wifi_sniffer/wifi_sniffer.c:196-201 | rotating by k and then by 16-k, cut to 16 bits, gives every word back for 0 < k < 16 |
| Capture.CreateRecord | Esp32Sniffer/components/wifi_sniffer/capture_lib.c:83-99 | 20 <= incl_len <= min(orig_len, snaplen), the sent size stays inside the struct, seconds and microseconds are exactly the source time |
| Capture.WireRecordOfFrame | Esp32Sniffer/components/wifi_sniffer/capture_lib.c:83-99 | a frame's record in numbers: orig_len is sig_len - 4 + 20, the data are the literal radiotap bytes and min(snaplen - 20, sig_len - 4) leading bytes of the frame, the time is split into seconds and microseconds; the buffer must be 20 bytes longer |
| Capture.FileHeaderLiteral | Esp32Sniffer/components/wifi_sniffer/capture_lib.c:11 | the 24 header bytes, literally |
| Capture.SentIsWireRecord | Esp32Sniffer/components/wifi_sniffer/capture_lib.c:56-99 | the bytes sent for a frame are one pcap record: its radiotap header and the first incl_len-20 frame bytes |
| Capture.SentIgnoresBytesPastFrame | Esp32Sniffer/components/wifi_sniffer/capture_lib.c:88-92 | no byte past the frame is sent, although the copy reads 20 bytes past it |
| Radiotap.WalkerReadsBack | Esp32Sniffer/components/wifi_sniffer/include/capture_lib.h:31-56 | a reader that follows present bits and alignment finds signal, noise, antenna and XChannel, reads the driver's values and stops at it_len |
| Radiotap.EmittedFields | Esp32Sniffer/components/wifi_sniffer/include/capture_lib.h:47-56 | the offsets the present word implies are those of the packed struct |
| Pcap.FileReadBack | ArduinoWifiSniffer/lib/Sniffer/Sniffer.h:131-173 | reading a printed capture file gives its header and records and leaves nothing over |
| Pcap.FilePrintBack | ArduinoWifiSniffer/lib/Sniffer/Sniffer.h:131-173 | printing what was read from any stream gives the stream |
| Pcap.CutStream | Esp32Sniffer/components/wifi_sniffer/capture_lib.c:56-81 | a file cut anywhere past its header reads as exactly the records wholly there, with less than one record left over |
| Pcap.WholeRecordsIsLargest | Esp32Sniffer/components/wifi_sniffer/capture_lib.c:56-61 | the records wholly in a cut are the most whose bytes fit |
| HexText.HexToByteArray | Esp32Sniffer/components/wifi_sniffer/capture_lib.c:26-45 | the decoded bytes in front of the buffer, and their number or (size_t)-1; bytes before a bad pair stay written |
| HexText.ParsesIffHex | Esp32Sniffer/components/wifi_sniffer/capture_lib.c:14-45 | a text is accepted exactly when all its pairs are hexadecimal digits |
| HexText.NvsBytesToHex | Esp32Sniffer/components/nvs_lib/nvs_lib.c:15-36 | for any buffer and delimiter no write leaves the buffer, which then holds the joined text and a terminator, or is untouched |
| HexText.PrintedIsLongest | Esp32Sniffer/components/nvs_lib/nvs_lib.c:25-35 | exactly the longest prefix passing the space check is printed |
| HexText.PrintedFits | Esp32Sniffer/components/nvs_lib/nvs_lib.c:25-35 | the text and its terminator fit into the buffer |
| HexText.MacPrintedInFull | Esp32Sniffer/components/wifi_sniffer/wifi_sniffer_nvs.c:10-16 | a 6-byte address is printed in full, 17 characters, exactly from 19 bytes of buffer on |
| HexText.ParseUndoesPrint | Esp32Sniffer/components/nvs_lib/nvs_lib.c:15-36 | taking the delimiters out and parsing gives the printed bytes back |
| JavaPacket.ShiftInAdds | WifiSnifferCtrl/src/main/java/org/wifisniff/capture/AbstractPacket.java:44-63 | shifting eight bits in and or-ing a byte is, on 32 bits, multiplying by 256 and adding it |
| JavaPacket.BytesToIntLE | WifiSnifferCtrl/src/main/java/org/wifisniff/capture/AbstractPacket.java:44-52 | the signed little-endian number the bytes spell, wrapped to 32 bits, for any nonempty range |
| JavaPacket.BytesToIntBE | WifiSnifferCtrl/src/main/java/org/wifisniff/capture/AbstractPacket.java:55-63 | the signed big-endian number the bytes spell, wrapped to 32 bits, for any nonempty range |
| JavaPacket.ValueLeIsTwosComplement | WifiSnifferCtrl/src/main/java/org/wifisniff/capture/AbstractPacket.java:44-52 | that number is the unsigned value less the modulus when the top bit is set |
| JavaPacket.LeIsBeReversed | WifiSnifferCtrl/src/main/java/org/wifisniff/capture/AbstractPacket.java:44-63 | little-endian is big-endian of the reversed bytes |
| JavaPacket.ReadsBackWrite32 | ArduinoWifiSniffer/lib/Sniffer/Sniffer.h:139-147 | reading back what write32 wrote gives the same 32 bits |
| JavaPacket.BytesToHex | WifiSnifferCtrl/src/main/java/org/wifisniff/capture/AbstractPacket.java:20-28 | the upper-case hexadecimal text of the bytes |
| JavaPacket.HexStringToByteArray | WifiSnifferCtrl/src/main/java/org/wifisniff/capture/AbstractPacket.java:30-38 | the decoded pairs, or an exception for odd length |
| JavaPacket.ParsersAgree | WifiSnifferCtrl/src/main/java/org/wifisniff/capture/AbstractPacket.java:30-38 | where the C parser accepts, the Java parser gives the same bytes; where it rejects there is a character that is no digit |
| JavaPacket.DecodeUndoesEncode | WifiSnifferCtrl/src/main/java/org/wifisniff/capture/AbstractPacket.java:20-38 | hexStringToByteArray undoes bytesToHex on every Java array |
| JavaPacket.EncodeUndoesDecode | WifiSnifferCtrl/src/main/java/org/wifisniff/capture/AbstractPacket.java:20-38 | on texts of even length, bytesToHex undoes hexStringToByteArray up to letter case if and only if every character is a hexadecimal digit |
| Forwarder.GetCaptureHeader | WifiSnifferCtrl/src/main/java/org/wifisniff/capture/CaptureHeader.java:19-32 | a header from 24 bytes or more, field by field in the buffer's byte order, else none |
| Forwarder.GetPayloadHeader | WifiSnifferCtrl/src/main/java/org/wifisniff/capture/PayloadHeader.java:15-25 | a record header from 16 bytes or more, else none |
| Forwarder.ParsesPrintedHeaders | WifiSnifferCtrl/src/main/java/org/wifisniff/capture/CaptureHeader.java:19-32 | with the writer's byte order both header parsers give every printed field in Java's signed form |
| Forwarder.GetPayloadPacket | WifiSnifferCtrl/src/main/java/org/wifisniff/capture/PayloadPacket.java:22-38 | a packet from 28 bytes or more, else none |
| Forwarder.SerialCtrl.Read | WifiSnifferCtrl/src/main/java/org/wifisniff/SerialCtrl.java:48-59 | a buffer of the asked length, zeros behind a short read, or an empty one when nothing came |
| Forwarder.ForwardOne | WifiSnifferCtrl/src/main/java/org/wifisniff/Main.java:380-403 | what one turn of the loop reads and writes and when it throws |
| Forwarder.ForwardBody | WifiSnifferCtrl/src/main/java/org/wifisniff/Main.java:387-401 | the announced bytes are consumed either way, and written only for a frame of 28 bytes or more |
| Forwarder.Forward | WifiSnifferCtrl/src/main/java/org/wifisniff/Main.java:369-410 | the loop uses up any finite stream and writes exactly what the stream function says |
| Forwarder.ForwardsExactlyFrames | WifiSnifferCtrl/src/main/java/org/wifisniff/Main.java:369-410 | with the writer's byte order it forwards exactly header and frames, consuming messages, if and only if no frame carries 1 to 27 bytes |
| Forwarder.ForwardedReadsBack | WifiSnifferCtrl/src/main/java/org/wifisniff/Main.java:369-410 | the pcap reader behind the pipe gets exactly header and frames if and only if no frame carries 1 to 27 bytes |
| Forwarder.BigEndianForwardsNothing | WifiSnifferCtrl/src/main/java/org/wifisniff/SerialCtrl.java:48-59 | with Java's default order the header is rejected and nothing is forwarded |
| Forwarder.RecordsThrowIff | WifiSnifferCtrl/src/main/java/org/wifisniff/Main.java:380-403 | on a well-framed stream the loop throws if and only if some incl_len is negative as a Java int |
| Forwarder.CutReadsAsZeros | WifiSnifferCtrl/src/main/java/org/wifisniff/SerialCtrl.java:48-59 | a stream that breaks off inside a record's bytes is forwarded as if the missing bytes were zeros |
| Arduino.Sniffer.constructor | ArduinoWifiSniffer/src/main.cpp:143-153 | power-on leaves the sniffer started in binary mode with nothing on the line |
| Arduino.Sniffer.PacketCb | ArduinoWifiSniffer/src/main.cpp:91-108 | a frame that passes both filters puts one pcap record on the line, when started and binary |
| Arduino.Sniffer.SignalStart | ArduinoWifiSniffer/src/main.cpp:110-124 | starts, with a file header in binary mode |
| Arduino.Sniffer.FilterAddr | ArduinoWifiSniffer/src/main.cpp:221-239 | the filter an argument stands for, or size -1 |
| Arduino.Sniffer.Read | ArduinoWifiSniffer/src/main.cpp:254-311 | one command: the new state and what it puts on the line |
| Arduino.Sniffer.NewPacket | ArduinoWifiSniffer/lib/Sniffer/Sniffer.h:149-163 | the written words and bytes are one pcap record cut at 2500 bytes |
| Arduino.Sniffer.CaptureStart | ArduinoWifiSniffer/lib/Sniffer/Sniffer.h:164-173 | the written words are the file header |
| ArduinoRuns.RecordFollowsHeader | ArduinoWifiSniffer/src/main.cpp:91-124 | behind every record the last of S0, S1, OT, OB wrote a header, except before the first of them |
| ArduinoRuns.SilentAfterStop | ArduinoWifiSniffer/src/main.cpp:254-271 | nothing is written between S0 and the next start |
| ArduinoRuns.SessionReads | ArduinoWifiSniffer/src/main.cpp:254-311 | from a command that writes a header to the next switch the bytes are one capture file that reads back as its records |
| ArduinoRuns.HeaderFirstIff | ArduinoWifiSniffer/src/main.cpp:130-153 | the stream from power-on starts with a header if and only if no frame passes the filters before the first switch |
| ArduinoRuns.StreamFromSwitchIsFiles | ArduinoWifiSniffer/src/main.cpp:91-124 | from any S0, S1, OT or OB on, in any state and for any interleaving, the bytes are a sequence of capture files |
| ArduinoRuns.StreamIsFiles | ArduinoWifiSniffer/src/main.cpp:91-124 | every run's stream from power-on is the records that passed before the first switch, empty exactly when no frame slipped out, and then a sequence of capture files |
| ArduinoHistory.WrittenFromHistory | ArduinoWifiSniffer/src/main.cpp:91-124 | in every run from any state: a header for every OB and every S1 in binary mode, a record for every frame heard while started and in binary mode whose addresses begin with the filters in force, and nothing else |
| ArduinoHistory.StateFromHistory | ArduinoWifiSniffer/src/main.cpp:254-311 | after any run the sniffer is started unless the last of S0, S1, OT, OB was S0, in binary mode unless the last of OT, OB was OT, and each filter is its last well-formed argument |
| ArduinoHistory.SessionRecordsHeard | ArduinoWifiSniffer/src/main.cpp:254-311 | every S1 in binary mode and every OB opens a capture file that up to the next switch has exactly one record for each matching frame, in order |
| ArduinoHistory.HeardIsRecordOf | ArduinoWifiSniffer/lib/Sniffer/Sniffer.h:149-163 | the record has the clock readings in their places, the length less 4 for management frames in 32 bits, and at most 2500 bytes |
| ArduinoHistory.HeaderLiteral | ArduinoWifiSniffer/lib/Sniffer/Sniffer.h:164-173 | the 24 header bytes, literally |
| ArduinoRuns.LocalFrameBeforeHeader | ArduinoWifiSniffer/src/main.cpp:143-153 | one frame heard before any command goes out without a header and no pcap reader opens the stream |
| ArduinoRuns.LocalFrameLosesPayload | WifiSnifferCtrl/src/main/java/org/wifisniff/Main.java:386-394 | a 16-byte frame after S1 is recorded, and the host does not forward it whole |
| ArduinoRuns.FilterIsLastArgument | ArduinoWifiSniffer/src/main.cpp:289-309 | after any run a filter is the last well-formed argument it was given, or its initial value |
| ArduinoRuns.ArgumentMeaning | ArduinoWifiSniffer/src/main.cpp:221-239 | well-formed means even length and hexadecimal; the filter has half as many bytes, and is empty exactly for an empty argument |
| ArduinoRuns.SessionThroughHost | WifiSnifferCtrl/src/main/java/org/wifisniff/Main.java:369-410 | a session read by the host with the writer's byte order reaches the pcap reader behind the pipe if and only if no recorded frame carries 1 to 27 bytes |

## Left out

- FreeRTOS, ESP-IDF, lwIP and the flash library: queue, task, socket write and key-value store are small abstract objects with the assumptions listed above; failing flash operations and short writes are not modelled.
- Interleavings inside one callback, such as an accept between the two uses of `_sock` in `on_capture`: steps are atomic.
- Liveness: that a queued record is ever sent. The claims are about every state a run can reach.
- Firmware.Sniffer.OnSend: a write sends all bytes or fails; a short write, which the code reports as success, is not modelled.
- Firmware.Sniffer.constructor: does not model an accept between the start of the TCP server and `sniffer_init_config`, nor the start at boot of CONFIG_LILIGO_S3; the step system has it as the step Start, covered by the theorems about all runs.
- Nvs.NvsFlash.GetArray: a stored blob must fit the caller's buffer, which holds for the blobs the filter setters store.
- Forwarder.SerialCtrl.Read: does not model a read that times out while the stream goes on.
- Arduino.Sniffer.Read: does not model the channel argument of FC, the channel switch and the reply it prints.
- ArduinoRuns.SessionReads: text output, the reply of the FC command and log messages share the serial line but are not part of the modelled stream.
- HexText.HexToByteArray: the caller's buffer must hold half the text's length; the console command does not check this, and its argument handling is not modelled.
- JavaPacket.HexStringToByteArray: digits outside ASCII, which Character.digit also knows, are taken as no digits.
- Forwarder.Forward: once the stream is used up the Java loop goes on reading nothing; the model stops there. Exceptions of the pipe are not modelled.
- The driver's packet-type filter (`sniffer_set_filter_data`, `sniffer_set_no_filter`), the addr3 filter and channel switching: not used by the live handler.
- Displays, LEDs, buttons, console, form, Python scripts and the Wireshark launcher: input and output only.
- `wifi_lib.c` and `wifi_lib_nvs.c`: almost only library calls.
- `nvs_get_num` and `nvs_set_num_from_string`: no caller, and dependent on `errno`.
