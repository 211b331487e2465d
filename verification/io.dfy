/** The closed set of backends and the uniform dispatch of
    enable / disable / send / receive over it. */
module IO {
  import opened Ints
  import opened Wrappers
  import opened Framing
  import SerialLink
  import opened Placeholders

  datatype Backend =
    | Disabled
    | Serial(serial: SerialLink.SerialBackend)
    | RendezVous(room: RendezVousBackend)
    | Network(network: NetworkBackend)

  /** Both values are the same variant of the enum. */
  predicate SameVariant(a: Backend, b: Backend) {
    && (a.Disabled? <==> b.Disabled?)
    && (a.Serial? <==> b.Serial?)
    && (a.RendezVous? <==> b.RendezVous?)
    && (a.Network? <==> b.Network?)
  }

  function New(): (b: Backend)
    ensures b.Disabled?
  {
    Disabled
  }

  function NewSerial(portName: string): (b: Backend)
    ensures b.Serial? && b.serial.portName == portName && b.serial.port.None?
  {
    Serial(SerialLink.New(portName))
  }

  function NewRendezVous(roomName: string): (b: Backend)
    ensures b.RendezVous? && b.room.roomName == roomName
  {
    RendezVous(RendezVousBackend(roomName))
  }

  function NewNetwork(sourcePort: u16, destinationHost: string, destinationPort: u16): (b: Backend)
    ensures b.Network? && b.network == NetworkBackend(sourcePort, destinationHost, destinationPort)
  {
    Network(NetworkBackend(sourcePort, destinationHost, destinationPort))
  }

  /** `open` is the platform's answer should a serial device be opened. */
  function Enable(b: Backend, open: Outcome): (r: (Backend, Result<()>))
    ensures SameVariant(r.0, b)
    ensures !b.Serial? ==> r == (b, Ok(()))
    ensures b.Serial? ==> r == (Serial(SerialLink.Enable(b.serial, open).0), SerialLink.Enable(b.serial, open).1)
  {
    match b
    case Disabled => (b, Ok(()))
    case Serial(s) => var (s', res) := SerialLink.Enable(s, open); (Serial(s'), res)
    case RendezVous(room) => (b, room.Enable())
    case Network(net) => (b, net.Enable())
  }

  function Disable(b: Backend): (r: Backend)
    ensures SameVariant(r, b)
    ensures b.Serial? ==> r.serial == SerialLink.Disable(b.serial)
    ensures !b.Serial? ==> r == b
  {
    match b
    case Disabled => b
    case Serial(s) => Serial(SerialLink.Disable(s))
    case RendezVous(room) => RendezVous(room.Disable())
    case Network(net) => Network(net.Disable())
  }

  /** `write` and `flush` are the serial device's answers, consulted only
      when a frame is written. */
  function Send(b: Backend, data: seq<byte>, write: Outcome, flush: Outcome): (r: SerialLink.SendEffect)
    ensures b.Serial? ==> r == SerialLink.Send(b.serial, data, write, flush)
    ensures !b.Serial? ==> r == SerialLink.SendEffect(Ok(()), None, false)
  {
    match b
    case Disabled => SerialLink.SendEffect(Ok(()), None, false)
    case Serial(s) => SerialLink.Send(s, data, write, flush)
    case RendezVous(room) => SerialLink.SendEffect(room.Send(data), None, false)
    case Network(net) => SerialLink.SendEffect(net.Send(data), None, false)
  }

  /** `t0` and `polls` are the serial device's clock and answers, consulted
      only by an open serial backend. */
  function Receive(b: Backend, t0: nat, polls: seq<Poll>): (r: RxOutcome)
    ensures b.Serial? ==> r == SerialLink.Receive(b.serial, t0, polls)
    ensures b.Disabled? ==> r == Finished(Ok(None), polls)
    ensures b.RendezVous? || b.Network? ==> r.HasFrame() && r.rest == polls
    ensures b.RendezVous? ==> r == Finished(b.room.Receive(), polls)
    ensures b.Network? ==> r == Finished(b.network.Receive(), polls)
  {
    match b
    case Disabled => Finished(Ok(None), polls)
    case Serial(s) => SerialLink.Receive(s, t0, polls)
    case RendezVous(room) => Finished(room.Receive(), polls)
    case Network(net) => Finished(net.Receive(), polls)
  }

  /** Every operation on the Disabled backend is a no-op that succeeds. */
  lemma DisabledIsInert(data: seq<byte>, open: Outcome, write: Outcome, flush: Outcome, t0: nat, polls: seq<Poll>)
    ensures Enable(Disabled, open) == (Disabled, Ok(()))
    ensures Disable(Disabled) == Disabled
    ensures Send(Disabled, data, write, flush) == SerialLink.SendEffect(Ok(()), None, false)
    ensures Receive(Disabled, t0, polls) == Finished(Ok(None), polls)
  {
  }
}
