/** The serial backend: a device name and, once enabled, an open handle.
    Every environment answer (the open, the write, the flush, the polls
    of a receive call, the platform's port listing) is a parameter. */
module SerialLink {
  import opened Ints
  import opened Wrappers
  import Constants
  import opened Framing

  /** An open serial device. */
  datatype Handle = Handle(device: string, baudRate: nat)

  datatype SerialBackend = SerialBackend(portName: string, port: Option<Handle>)

  /** A backend for the named device, not yet open. */
  function New(portName: string): (b: SerialBackend)
    ensures b.portName == portName && b.port.None?
  {
    SerialBackend(portName, None)
  }

  /** Opens the device when it is closed, at the fixed baud rate; `open`
      is the platform's answer to that attempt and is not consulted when
      the device is already open. */
  function Enable(b: SerialBackend, open: Outcome): (r: (SerialBackend, Result<()>))
    ensures r.0.portName == b.portName
    ensures r.1.Ok? <==> r.0.port.Some?
    ensures b.port.Some? ==> r == (b, Ok(()))
    ensures b.port.None? && r.0.port.Some? ==> r.0.port.value == Handle(b.portName, Constants.BaudRate)
    ensures r.1.Err? ==> r.0 == b && open == Fail(r.1.error)
    ensures b.port.None? && open.Fail? ==> r == (b, Err(open.error))
    ensures open.Pass? ==> r.1.Ok?
  {
    if b.port.None? then
      match open
      case Pass => (b.(port := Some(Handle(b.portName, Constants.BaudRate))), Ok(()))
      case Fail(e) => (b, Err(e))
    else
      (b, Ok(()))
  }

  /** Closes the device, if open. */
  function Disable(b: SerialBackend): (r: SerialBackend)
    ensures r.portName == b.portName && r.port.None?
  {
    b.(port := None)
  }

  /** What a send did: its result, the bytes handed to `write_all` (none
      when nothing was written) and whether `flush` was called. */
  datatype SendEffect = SendEffect(result: Result<()>, written: Option<seq<byte>>, flushed: bool)

  /** `do_send`: writes the encoded frame, then flushes; `write` and
      `flush` are the device's answers. */
  function DoSend(data: seq<byte>, write: Outcome, flush: Outcome): (r: SendEffect)
    ensures r.written == Some(Encode(data))
    ensures r.flushed <==> write.Pass?
    ensures r.result.Ok? <==> write.Pass? && flush.Pass?
    ensures write.Fail? ==> r.result == Err("Fail on write_all: " + write.error)
    ensures write.Pass? && flush.Fail? ==> r.result == Err("Fail on flush: " + flush.error)
  {
    var wire := Encode(data);
    match write
    case Fail(e) => SendEffect(Err("Fail on write_all: " + e), Some(wire), false)
    case Pass =>
      match flush
      case Fail(e) => SendEffect(Err("Fail on flush: " + e), Some(wire), true)
      case Pass => SendEffect(Ok(()), Some(wire), true)
  }

  /** Sending on a closed backend succeeds and writes nothing. */
  function Send(b: SerialBackend, data: seq<byte>, write: Outcome, flush: Outcome): (r: SendEffect)
    ensures b.port.None? ==> r == SendEffect(Ok(()), None, false)
    ensures b.port.Some? ==> r.written == Some(Encode(data)) && (r.flushed <==> write.Pass?)
    ensures r.result.Ok? <==> b.port.None? || (write.Pass? && flush.Pass?)
  {
    if b.port.Some? then DoSend(data, write, flush) else SendEffect(Ok(()), None, false)
  }

  /** `do_receive`: one reassembly loop from a fresh state, the clock
      reading `t0` when the call starts. */
  function DoReceive(t0: nat, polls: seq<Poll>): (r: RxOutcome)
    ensures r.HasFrame() ==> 0 < |r.Frame()| <= Constants.MaximumDataLen
  {
    ReassembleFacts(polls, Start(t0));
    Reassemble(polls, Start(t0))
  }

  /** Receiving on a closed backend returns no message and polls nothing. */
  function Receive(b: SerialBackend, t0: nat, polls: seq<Poll>): (r: RxOutcome)
    ensures b.port.None? ==> r == Finished(Ok(None), polls)
    ensures b.port.Some? ==> r == DoReceive(t0, polls)
    ensures r.HasFrame() ==> 0 < |r.Frame()| <= Constants.MaximumDataLen
  {
    if b.port.Some? then DoReceive(t0, polls) else Finished(Ok(None), polls)
  }

  /** Enabling an open backend changes nothing. */
  lemma EnableIdempotent(b: SerialBackend, first: Outcome, second: Outcome)
    requires Enable(b, first).1.Ok?
    ensures Enable(Enable(b, first).0, second) == (Enable(b, first).0, Ok(()))
  {
  }

  lemma DisableIdempotent(b: SerialBackend)
    ensures Disable(Disable(b)) == Disable(b)
  {
  }

  /** End to end: what an open sender writes for a payload of 1 to 255
      bytes, read back by an open receiver as a header followed by timely
      chunks, is received as that payload. */
  lemma SendThenReceive(sender: SerialBackend, receiver: SerialBackend, payload: seq<byte>,
                        t0: nat, header: Poll, init: seq<Poll>, last: Poll, rest: seq<Poll>)
    requires sender.port.Some? && receiver.port.Some?
    requires 0 < |payload| <= Constants.MaximumDataLen
    requires DataPoll(header) && Timely(init, t0) && DataPoll(last)
    requires Send(sender, payload, Pass, Pass).written == Some([HeaderByte(header)] + Gathered(init) + Chunk(last))
    ensures Send(sender, payload, Pass, Pass).result == Ok(())
    ensures Receive(receiver, t0, [header] + init + [last] + rest) == Finished(Ok(Some(payload)), rest)
  {
    RoundTrip(payload, t0, header, init, last, rest);
  }

  /** The kind of a port, as the platform reports it. */
  datatype PortType = UsbPort(product: Option<string>) | PciPort | BluetoothPort | UnknownPort

  datatype PortInfo = PortInfo(name: string, kind: PortType)

  /** The USB product string when there is one, otherwise empty. */
  function Description(p: PortInfo): string {
    match p.kind
    case UsbPort(Some(product)) => product
    case _ => ""
  }

  /** The map built from the listing, entry by entry, a later entry for a
      name replacing an earlier one. */
  function Collect(ports: seq<PortInfo>): (m: map<string, string>)
    ensures |m| <= |ports|
    ensures ports != [] ==> ports[|ports| - 1].name in m && m[ports[|ports| - 1].name] == Description(ports[|ports| - 1])
    decreases |ports|
  {
    if ports == [] then map[]
    else
      var last := ports[|ports| - 1];
      Collect(ports[..|ports| - 1])[last.name := Description(last)]
  }

  /** The names listed. */
  function Names(ports: seq<PortInfo>): set<string> {
    set i | 0 <= i < |ports| :: ports[i].name
  }

  /** No later entry of the listing has the name of entry `i`. */
  predicate LastOfItsName(ports: seq<PortInfo>, i: nat)
    requires i < |ports|
  {
    forall j | i < j < |ports| :: ports[j].name != ports[i].name
  }

  lemma NamesSnoc(ports: seq<PortInfo>)
    requires ports != []
    ensures Names(ports) == Names(ports[..|ports| - 1]) + {ports[|ports| - 1].name}
  {
    var n := |ports| - 1;
    var init := ports[..n];
    forall x | x in Names(ports) ensures x in Names(init) + {ports[n].name} {
      var i :| 0 <= i < |ports| && ports[i].name == x;
      if i < n { assert init[i] == ports[i]; }
    }
    forall x | x in Names(init) ensures x in Names(ports) {
      var i :| 0 <= i < |init| && init[i].name == x;
      assert ports[i] == init[i];
    }
  }

  /** Every listed name is a key, and nothing else is. */
  lemma {:induction false} CollectKeys(ports: seq<PortInfo>)
    ensures Collect(ports).Keys == Names(ports)
    decreases |ports|
  {
    if ports != [] {
      CollectKeys(ports[..|ports| - 1]);
      NamesSnoc(ports);
    }
  }

  /** A name's value is the description of its last entry. */
  lemma {:induction false} CollectValue(ports: seq<PortInfo>, i: nat)
    requires i < |ports| && LastOfItsName(ports, i)
    ensures ports[i].name in Collect(ports) && Collect(ports)[ports[i].name] == Description(ports[i])
    decreases |ports|
  {
    var n := |ports| - 1;
    if i < n {
      var init := ports[..n];
      assert ports[n].name != ports[i].name;
      assert init[i] == ports[i];
      assert LastOfItsName(init, i) by {
        forall j | i < j < |init| ensures init[j].name != init[i].name {
          assert init[j] == ports[j];
        }
      }
      CollectValue(init, i);
    }
  }

  lemma CollectFacts(ports: seq<PortInfo>)
    ensures Collect(ports).Keys == Names(ports)
    ensures forall i | 0 <= i < |ports| && LastOfItsName(ports, i) :: Collect(ports)[ports[i].name] == Description(ports[i])
  {
    CollectKeys(ports);
    forall i | 0 <= i < |ports| && LastOfItsName(ports, i)
      ensures Collect(ports)[ports[i].name] == Description(ports[i])
    {
      CollectValue(ports, i);
    }
  }

  /** `get_available_serial_ports`: the name to description map of the
      platform's listing, one key per listed name, or the listing's error. */
  function AvailablePorts(listing: Result<seq<PortInfo>>): (r: Result<map<string, string>>)
    ensures listing.Err? ==> r == Err(listing.error)
    ensures listing.Ok? ==> r.Ok? && r.value.Keys == Names(listing.value)
    ensures listing.Ok? ==> forall i | 0 <= i < |listing.value| && LastOfItsName(listing.value, i)
              :: r.value[listing.value[i].name] == Description(listing.value[i])
  {
    match listing
    case Err(e) => Err(e)
    case Ok(ports) => CollectFacts(ports); Ok(Collect(ports))
  }
}
