# N3T1R communication core, modelled in Dafny

N3T1R exchanges short binary messages (frames of at most 255 bytes) with a
remote infrared-control peer. An `IRCommunicationHandler` owns exactly one
backend out of a closed set — Disabled, Serial, RendezVous, Network — and
forwards `enable`, `disable`, `send` and `receive` to it. The serial
backend frames each message as a one-byte length header followed by the
payload. Its receive side is a polling loop that reassembles one frame and
gives up on an idle line, on a timeout after a partial payload, or on an
overshooting burst. A separate file-based rendezvous lets two processes
swap a UDP port: each writes its port into a file named after its process
id, and each consumes the first other such file it finds.

The model is functional. Backends, handles, the handler and the rendezvous
directory are immutable datatypes. Every answer of the environment is a
parameter of the operation that asks for it:

- the serial device's answers: open, write, flush, and the sequence of
  polls a receive call sees;
- the clock, in integer milliseconds, carried by each poll;
- the platform's port listing;
- the file system's answers: directory creation, file write, the order in
  which `read_dir` lists entries, and which entries cannot be read.

Modules, leaves first:

- `Wrappers`, `Ints`: `Option`/`Result`/`Outcome` and the `u8`/`u16`/`u32` ranges.
- `Text`: decimal text (`to_string`), UTF-8 bytes, and the `u16` parse.
- `Constants`: `MAXIMUM_DATA_LEN` = 255, `SERIAL_RX_TIMEOUT` = 10 ms, baud rate 115200.
- `Framing`: the frame encoding and the reassembly loop of `do_receive`.
- `SerialLink`: the serial backend's gating of enable/disable/send/receive, and port enumeration.
- `Placeholders`: the placeholder room and network backends.
- `IO`: the backend enum and its dispatch.
- `Core`: the handler façade and the room catalogue.
- `Rendezvous`: the advertiser (`new`, `try_to_meet`, `cleanup`, `Drop`).

Two behaviours of the code a reader might not expect:

- A header byte of 0 does not yield an empty frame
  (src/core/io/serial.rs:78-86 and 115). `expected_len` stays 0, so the
  loop treats the next byte as a header again. An empty frame is never
  returned, and the round trip holds for payloads of 1 to 255 bytes, not
  0 to 255.
- The receive timer starts when the call starts and is reset only by
  payload reads, never by the header read (src/core/io/serial.rs:71 and 98).

## Model

| member | source | states |
|---|---|---|
| `Text.Decimal` | src/core/rendezvous.rs:53 | the decimal text of a number is non-empty, all digits, with no leading zero |
| `Text.ParseU16` | src/core/rendezvous.rs:38-41 | a parse succeeds only on digits, optionally after one leading `+`; a run of digits, signed or not, gives its decimal value when that is below 65536 and nothing otherwise |
| `Text.ParseLeadingZero` | src/core/rendezvous.rs:38-41 | a leading zero before a run of digits does not change the parse, as `u16::from_str` accepts `0080` |
| `Text.ParsePlusSign` | src/core/rendezvous.rs:38-41 | one leading `+` does not change the parse of a text that does not itself start with a sign |
| `Text.ParseBounds` | src/core/rendezvous.rs:38-41 | `65535` parses, `65536` is refused, and `+0080` reads as 80 |
| `Text.DecimalRoundTrip` | src/core/rendezvous.rs:23-41 | parsing the advertised text of any `u16` port gives that port back |
| `Text.DecimalInjective` | src/core/rendezvous.rs:53 | distinct process ids give distinct advertisement file names |
| `Framing.Encode` | src/core/io/serial.rs:46-48 | the wire is one header byte equal to the length mod 256 (the length itself up to 255), then the payload unchanged |
| `Framing.FillContents` | src/core/io/serial.rs:90-96 | a read fills the zeroed space it was given with the delivered bytes, leaving zeros past a short read |
| `Framing.Verdict` | src/core/io/serial.rs:115-119 | the final check never fails; it returns the buffer exactly when the buffer is non-empty and as long as declared, and no message otherwise |
| `Framing.StepOf` | src/core/io/serial.rs:73-113 | one iteration of the loop ends the call with an error exactly when its `bytes_to_read` or `read` failed |
| `Framing.StepErrors` | src/core/io/serial.rs:74-111 | a failing `bytes_to_read` ends the call at once with `Fail on bytes_to_read: ` and its error, and a failing `read` with `Fail on read: ` and its error, whatever the state |
| `Framing.StepFacts` | src/core/io/serial.rs:73-113 | one iteration ends the call with an error exactly when `bytes_to_read` or `read` failed; it returns a frame only of the declared length extending the buffer, and otherwise only appends to the buffer and keeps a declared length |
| `Framing.Reassemble` | src/core/io/serial.rs:73-113 | the loop always makes progress: a finished call consumed at least one poll |
| `Framing.HeaderStep` | src/core/io/serial.rs:76-86 | while no header is read, only a successful read continues the loop, and it sets the declared length to the byte read; any other iteration ends the call without a message |
| `Framing.ReassembleFacts` | src/core/io/serial.rs:67-119 | a finished call consumed at least one poll and left a suffix unseen; an error comes only from a failing `bytes_to_read` or `read` in the last poll consumed; a returned frame has 1 to 255 bytes, extends the buffer it started from, and matches the declared length |
| `Framing.FirstPollFails` | src/core/io/serial.rs:74-111 | in either phase, a failing poll ends the call at once with that call's error and leaves the later polls unseen |
| `Framing.HeaderPhaseFailure` | src/core/io/serial.rs:78-86 | while waiting for a header, a failure after any number of skipped zero headers ends the call with the failing call's error |
| `Framing.PayloadPhaseFailure` | src/core/io/serial.rs:89-111 | in the payload phase, a failure after timely polls that leave the payload incomplete ends the call with the failing call's error; the partial payload is dropped and later polls are left unseen |
| `Framing.FailureAfterHeader` | src/core/io/serial.rs:67-113 | a whole call that reads a non-zero header, then polls short of the payload, then meets a failing poll returns that poll's error |
| `Framing.Continues` | src/core/io/serial.rs:73-113 | polls that arrive in time and do not complete the payload leave the loop running, with their bytes appended and the timer at the last payload read |
| `Framing.PayloadAssembly` | src/core/io/serial.rs:89-103 | however the payload is chunked, chunks that arrive in time and reach the declared length exactly are returned as their concatenation, and the polls after them are left unseen |
| `Framing.RoundTrip` | src/core/io/serial.rs:67-119 | when the loop reads exactly `Encode(P)`, header first and then chunks in time, it returns `P` for every `P` of 1 to 255 bytes |
| `Framing.PayloadFromWire` | src/core/io/serial.rs:89-103 | in the payload phase, a returned frame is the starting buffer followed by exactly the bytes the consumed polls read |
| `Framing.ReceivedFrameWasOnWire` | src/core/io/serial.rs:78-119 | a returned frame was on the wire as a header equal to its length followed by its bytes, after nothing but zero headers |
| `Framing.IdleLineYieldsNothing` | src/core/io/serial.rs:105-106 | with no bytes available and no header read, the call returns no message at once |
| `Framing.ZeroHeaderSkipped` | src/core/io/serial.rs:78-86 | a zero header leaves the loop exactly as if it had not been read |
| `Framing.OvershootDiscards` | src/core/io/serial.rs:90-119 | a read that takes the buffer past the declared length ends the call with no message: no truncation and no resynchronisation |
| `Framing.StallDiscards` | src/core/io/serial.rs:98-119 | after a partial payload, an idle poll more than 10 ms after the last payload read ends the call with no message, not an error |
| `Framing.HeaderDoesNotResetTimer` | src/core/io/serial.rs:71-106 | after a header, an idle poll more than 10 ms after the call started ends it with no message |
| `Framing.OversizedHeaderTruncates` | src/core/io/serial.rs:47 | a 256-byte payload is announced with header 0 |
| `Framing.BurstScenario` | src/core/io/serial.rs:46-119 | `[0x41, 0x42]` is sent as `[0x02, 0x41, 0x42]`, and those three bytes arriving in one burst are received as `[0x41, 0x42]` |
| `Framing.GapScenario` | src/core/io/serial.rs:67-119 | header `0x02` followed by an 11 ms gap gives no message, and the late byte is left for the next call |
| `SerialLink.New` | src/core/io/serial.rs:16-18 | a new serial backend has the given port name and no open handle |
| `SerialLink.Enable` | src/core/io/serial.rs:124-138 | enable succeeds exactly when the port is open afterwards; a closed port is opened on the named device at 115200 baud; an open one is left as it is; a failed open returns the platform's error and leaves the port closed |
| `SerialLink.Disable` | src/core/io/serial.rs:140-146 | after disable the port is closed and the name is kept |
| `SerialLink.DoSend` | src/core/io/serial.rs:43-65 | writes exactly `Encode(data)`; flush is attempted only after a successful write; the result is `Ok` exactly when both succeed, otherwise the error of the first failure |
| `SerialLink.Send` | src/core/io/serial.rs:148-153 | on a closed port a send is `Ok` and writes nothing; on an open one it writes the encoded frame |
| `SerialLink.DoReceive` | src/core/io/serial.rs:67-120 | a received frame has 1 to 255 bytes |
| `SerialLink.Receive` | src/core/io/serial.rs:155-160 | on a closed port a receive returns no message and polls nothing; on an open one it runs the reassembly loop |
| `SerialLink.EnableIdempotent` | src/core/io/serial.rs:124-137 | enabling an already enabled backend succeeds and changes nothing, whatever the platform would answer |
| `SerialLink.DisableIdempotent` | src/core/io/serial.rs:140-146 | disabling twice is the same as disabling once |
| `SerialLink.SendThenReceive` | src/core/io/serial.rs:43-120 | when an open sender's written bytes reach an open receiver as a header followed by chunks in time, the receiver returns the payload |
| `SerialLink.CollectKeys` | src/core/io/serial.rs:23-35 | the port map has exactly one key per listed port name |
| `SerialLink.CollectValue` | src/core/io/serial.rs:23-35 | a name maps to the description of its last entry in the listing |
| `SerialLink.CollectFacts` | src/core/io/serial.rs:23-35 | the keys are the listed names, and each maps to the description of its last entry |
| `SerialLink.Collect` | src/core/io/serial.rs:23-35 | the port map has at most one entry per listed port, and the last listed port always maps to its own description |
| `SerialLink.AvailablePorts` | src/core/io/serial.rs:20-41 | a listing error is returned as an error; otherwise one key per listed name, mapped to its USB product string or to the empty string |
| `IO.New` | src/core/io.rs:15-17 | a new backend is Disabled |
| `IO.NewSerial` | src/core/io.rs:19-21 | the new serial backend has the given name and a closed port |
| `IO.NewRendezVous` | src/core/io.rs:23-25 | the new rendezvous backend keeps the room name |
| `IO.NewNetwork` | src/core/io.rs:27-29 | the new network backend keeps its three parameters |
| `IO.Enable` | src/core/io.rs:33-40 | enable keeps the variant; Disabled and the placeholders succeed unchanged; Serial returns exactly the serial backend's state and result |
| `IO.Disable` | src/core/io.rs:42-49 | disable keeps the variant and changes only a serial backend, by closing its port |
| `IO.Send` | src/core/io.rs:51-58 | Serial returns the serial backend's send effect unchanged; every other variant succeeds without writing to the device |
| `IO.Receive` | src/core/io.rs:60-67 | Disabled returns no message; Serial returns the serial backend's outcome unchanged; the placeholders return exactly their own receive (the greeting) without polling |
| `IO.DisabledIsInert` | src/core/io.rs:35-62 | on Disabled, enable, send and receive succeed and change nothing, and disable does nothing |
| `Core.New` | src/core.rs:39-41 | a new handler holds the Disabled backend |
| `Core.AvailableRooms` | src/core.rs:47-50 | the room query always succeeds with "Room A", "Room B", "Room C", in that order |
| `Core.AvailableSerialPorts` | src/core.rs:43-45 | the port query is the serial backend's enumeration |
| `Core.SelectSerialBackend` | src/core.rs:52-54 | the held backend becomes a closed serial backend for the named device |
| `Core.SelectRendezVousBackend` | src/core.rs:56-58 | the held backend becomes a rendezvous backend for the named room |
| `Core.SelectNetworkBackend` | src/core.rs:60-62 | the held backend becomes a network backend with the given ports and host |
| `Core.Enable` | src/core.rs:66-68 | the handler's enable keeps the variant and returns exactly the held backend's result |
| `Core.Disable` | src/core.rs:70-72 | the handler's disable keeps the variant and is the held backend's disable |
| `Core.Send` | src/core.rs:74-77 | the handler's send returns exactly the held backend's send |
| `Core.Receive` | src/core.rs:79-87 | the handler returns the held backend's receive outcome unchanged, and a serial frame has 1 to 255 bytes |
| `Core.SelectForgetsPrevious` | src/core.rs:52-62 | after any `select_*`, the handler does not depend on the backend held before |
| `Core.SelectedSerialIsClosed` | src/core.rs:52-54 | right after selecting serial, send succeeds without writing, receive returns no message, and disable does nothing; enable opens the device at 115200 baud or returns the open error and leaves it closed |
| `Core.NewHandlerIsInert` | src/core.rs:39-41 | on a new handler, enable, send and receive succeed and change nothing |
| `Placeholders.RendezVousBackend.Enable` | src/core/io/rendezvous.rs:14-17 | enabling a room backend always succeeds |
| `Placeholders.RendezVousBackend.Disable` | src/core/io/rendezvous.rs:19-21 | disabling a room backend keeps its room |
| `Placeholders.RendezVousBackend.Send` | src/core/io/rendezvous.rs:23-26 | sending on a room backend always succeeds, whatever the data |
| `Placeholders.RendezVousBackend.Receive` | src/core/io/rendezvous.rs:28-31 | receiving on a room backend always yields a message |
| `Placeholders.RoomGreeting` | src/core/io/rendezvous.rs:30 | the room backend's message is `Hello back from '`, the room name's UTF-8 bytes verbatim, then `'` |
| `Placeholders.NetworkBackend.Enable` | src/core/io/network.rs:16-19 | enabling a network backend always succeeds |
| `Placeholders.NetworkBackend.Disable` | src/core/io/network.rs:21-23 | disabling a network backend keeps its ports and host |
| `Placeholders.NetworkBackend.Send` | src/core/io/network.rs:25-28 | sending on a network backend always succeeds, whatever the data |
| `Placeholders.NetworkBackend.Receive` | src/core/io/network.rs:30-33 | receiving on a network backend always yields a message |
| `Placeholders.NetworkGreeting` | src/core/io/network.rs:32 | the network backend's message is `Hello back from '`, the host's UTF-8 bytes, `:`, the destination port in decimal digits that read back as that port, then `'` |
| `Rendezvous.Advertise` | src/core/rendezvous.rs:18-25 | succeeds exactly when the directory exists or is created and the write succeeds; on success the caller's file holds the decimal port and nothing else changes |
| `Rendezvous.New` | src/core/rendezvous.rs:51-58 | on success the advertiser is named after the process id and its file holds the port; on failure no other entry changes, and an entry left under the caller's name is one it already had, a directory or a dangling link |
| `Rendezvous.Scan` | src/core/rendezvous.rs:29-41 | with no readable regular file of another process listed, nothing changes and no port is found; otherwise exactly the first such file is removed and its content is parsed |
| `Rendezvous.LookForPeer` | src/core/rendezvous.rs:27-49 | a missing directory or a failed listing finds no peer and changes nothing; otherwise the first listed readable regular file of another process is removed and its parsed content returned, and with no such file nothing changes |
| `Rendezvous.TryToMeet` | src/core/rendezvous.rs:60-66 | when the directory or its listing is missing, or no other readable regular file is listed, the result is no peer and the directory is unchanged; otherwise the first such file is consumed and its content is parsed as the port |
| `Rendezvous.ScanConsumesAtMostOne` | src/core/rendezvous.rs:29-41 | a scan either changes nothing and finds no port, or removes exactly one candidate and returns its parsed content |
| `Rendezvous.TryToMeetConsumesAtMostOne` | src/core/rendezvous.rs:27-49 | `try_to_meet` removes at most one entry, never the caller's own, and returns a port only from the removed file |
| `Rendezvous.Cleanup` | src/core/rendezvous.rs:68-72 | cleanup removes the caller's own entry unless it is a directory (which `remove_file` cannot unlink) or a dangling link (for which `exists()` is false), keeps those unchanged, and never touches another entry |
| `Rendezvous.CleanupIdempotent` | src/core/rendezvous.rs:68-72 | cleaning up twice is the same as cleaning up once |
| `Rendezvous.Drop` | src/core/rendezvous.rs:75-79 | dropping an advertiser is its cleanup: only the caller's own entry can go, and what remains under its name is a directory or a dangling link |
| `Rendezvous.NewThenDrop` | src/core/rendezvous.rs:51-79 | when the caller had no entry before, advertising and then dropping, or a failed advertisement, leaves the directory's entries as they were |
| `Rendezvous.ScanOnlyCandidate` | src/core/rendezvous.rs:29-41 | a listed entry that is the only candidate is consumed, whatever else is listed |
| `Rendezvous.TwoPeersMeet` | src/core/rendezvous.rs:27-58 | with two advertisers alone in the directory, A's first `try_to_meet` returns B's port and removes only B's file; a second call finds no peer and changes nothing |

## Left out

- Device and file-system I/O are not performed. Opening the port, `bytes_to_read`, `read`, `write_all`, `flush`, `available_ports`, `create_dir`, `fs::write`, `read_dir` and `fs::read` are answers passed in as parameters.
- `Instant` and `Duration`: the clock is an integer number of milliseconds carried by each poll. A single reading per loop iteration serves both the timeout check and the timestamp update.
- A receive call whose polls run out before the loop ends returns `Polling`. The real call would still be busy-polling; the model has no unbounded blocking.
- The rendezvous directory path (`ntir11-rdv` under `env::temp_dir()`) is not resolved. The model is that one directory, keyed by file name.
- File names are compared as names, not as full paths. All entries share one directory, so the two comparisons agree.
- Removing an entry other than a directory always succeeds in the model. The source ignores the result of `remove_file`, so an entry that cannot be removed (for lack of permission, say) would survive a `try_to_meet` or a cleanup; that case is not modelled.
- Rendezvous.Advertise: a successful write is modelled as leaving a regular file under the caller's name. Writing through a link or into a FIFO already there, which leaves that entry in place, is not modelled.
- A failed `fs::write` leaves the directory as it was. A partially written file is not modelled; on that path `new`'s drop would remove it anyway.
- Races between processes over the shared directory, and more than two participants, are not modelled. The model is sequential.
- `read_dir` entry errors and `file_type` errors are merged with unreadable content into the `unreadable` name set. The source skips all three in the same way.
- UTF-8 lossy decoding is not modelled. The parse works on the bytes, which is equivalent because only ASCII digits and `+` can succeed.
- Replacing a backend drops the previous one, which closes an open serial port. In the model the replaced value is discarded; there is no device state to release.
- Logging (`println!`) is not modelled; it does not affect any result.
- The `IOHandler` trait's default bodies (`unimplemented!()`) are not modelled: every backend overrides all four methods.
- The FFI export layer (`src/lib.rs`, `includes/n3t1r.h`), the interactive test program (`src/main.rs`) and the build scripts are not part of this model.
- The placeholder backends are modelled exactly as they behave: every call succeeds, and receive returns the UTF-8 bytes of the greeting. Their logging is not modelled.
