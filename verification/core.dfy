/** The communication handler: owns exactly one backend, replaces it
    wholesale on `select_*`, and forwards every other operation to it.
    It also answers the two discovery queries. */
module Core {
  import opened Ints
  import opened Wrappers
  import opened Framing
  import SerialLink
  import IO
  import Constants

  datatype Handler = Handler(backend: IO.Backend)

  /** A new handler holds the Disabled backend. */
  function New(): (h: Handler)
    ensures h.backend.Disabled?
  {
    Handler(IO.New())
  }

  /** The fixed catalogue of rooms. */
  function AvailableRooms(): (r: Result<seq<string>>)
    ensures r.Ok? && |r.value| == 3
    ensures r.value[0] == "Room A" && r.value[1] == "Room B" && r.value[2] == "Room C"
  {
    Ok(["Room A", "Room B", "Room C"])
  }

  function AvailableSerialPorts(listing: Result<seq<SerialLink.PortInfo>>): (r: Result<map<string, string>>)
    ensures r == SerialLink.AvailablePorts(listing)
  {
    SerialLink.AvailablePorts(listing)
  }

  /** Selecting replaces the backend by a closed serial one for the named
      device, whatever was held before. */
  function SelectSerialBackend(h: Handler, portName: string): (r: Handler)
    ensures r.backend.Serial? && r.backend.serial == SerialLink.SerialBackend(portName, None)
  {
    Handler(IO.NewSerial(portName))
  }

  function SelectRendezVousBackend(h: Handler, roomName: string): (r: Handler)
    ensures r.backend.RendezVous? && r.backend.room.roomName == roomName
  {
    Handler(IO.NewRendezVous(roomName))
  }

  function SelectNetworkBackend(h: Handler, sourcePort: u16, destinationHost: string, destinationPort: u16): (r: Handler)
    ensures r.backend.Network?
    ensures r.backend.network.sourcePort == sourcePort
    ensures r.backend.network.destinationHost == destinationHost
    ensures r.backend.network.destinationPort == destinationPort
  {
    Handler(IO.NewNetwork(sourcePort, destinationHost, destinationPort))
  }

  function Enable(h: Handler, open: Outcome): (r: (Handler, Result<()>))
    ensures IO.SameVariant(r.0.backend, h.backend)
    ensures r == (Handler(IO.Enable(h.backend, open).0), IO.Enable(h.backend, open).1)
  {
    var (b, res) := IO.Enable(h.backend, open);
    (Handler(b), res)
  }

  function Disable(h: Handler): (r: Handler)
    ensures IO.SameVariant(r.backend, h.backend)
    ensures r.backend == IO.Disable(h.backend)
  {
    Handler(IO.Disable(h.backend))
  }

  function Send(h: Handler, data: seq<byte>, write: Outcome, flush: Outcome): (r: SerialLink.SendEffect)
    ensures r == IO.Send(h.backend, data, write, flush)
  {
    IO.Send(h.backend, data, write, flush)
  }

  /** The result is returned unchanged; the source only logs a received
      message before returning it. */
  function Receive(h: Handler, t0: nat, polls: seq<Poll>): (r: RxOutcome)
    ensures r == IO.Receive(h.backend, t0, polls)
    ensures h.backend.Serial? && r.HasFrame() ==> 0 < |r.Frame()| <= Constants.MaximumDataLen
  {
    IO.Receive(h.backend, t0, polls)
  }

  /** The handler after selection does not depend on the handler before. */
  lemma SelectForgetsPrevious(h1: Handler, h2: Handler, portName: string, roomName: string,
                              sourcePort: u16, destinationHost: string, destinationPort: u16)
    ensures SelectSerialBackend(h1, portName) == SelectSerialBackend(h2, portName)
    ensures SelectRendezVousBackend(h1, roomName) == SelectRendezVousBackend(h2, roomName)
    ensures SelectNetworkBackend(h1, sourcePort, destinationHost, destinationPort)
         == SelectNetworkBackend(h2, sourcePort, destinationHost, destinationPort)
  {
  }

  /** Right after `select_serial_backend`, and until an enable succeeds,
      sends succeed without writing and receives return no message; an
      enable opens the named device at the fixed baud rate, or fails and
      leaves it closed. */
  lemma SelectedSerialIsClosed(h: Handler, portName: string, data: seq<byte>, write: Outcome, flush: Outcome,
                               open: Outcome, t0: nat, polls: seq<Poll>)
    ensures var s := SelectSerialBackend(h, portName);
      && Send(s, data, write, flush) == SerialLink.SendEffect(Ok(()), None, false)
      && Receive(s, t0, polls) == Finished(Ok(None), polls)
      && Disable(s) == s
    ensures var (e, res) := Enable(SelectSerialBackend(h, portName), open);
      && (open.Pass? ==> res == Ok(()) && e.backend.serial.port == Some(SerialLink.Handle(portName, Constants.BaudRate)))
      && (open.Fail? ==> res == Err(open.error) && e == SelectSerialBackend(h, portName))
  {
  }

  /** A new handler is inert: enabling, sending and receiving succeed and
      do nothing. */
  lemma NewHandlerIsInert(data: seq<byte>, open: Outcome, write: Outcome, flush: Outcome, t0: nat, polls: seq<Poll>)
    ensures Enable(New(), open) == (New(), Ok(()))
    ensures Disable(New()) == New()
    ensures Send(New(), data, write, flush) == SerialLink.SendEffect(Ok(()), None, false)
    ensures Receive(New(), t0, polls) == Finished(Ok(None), polls)
  {
  }
}
