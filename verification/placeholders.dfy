/** The rendezvous-room and network backends. Both are placeholders in
    the system: they only log, succeed, and answer every receive with a
    fabricated greeting naming their peer. */
module Placeholders {
  import opened Ints
  import opened Wrappers
  import Text

  /** The fixed opening of every greeting. */
  function OpeningText(): string {
    "Hello back from '"
  }

  /** The UTF-8 bytes of the greeting's opening. */
  function Opening(): seq<byte> {
    Text.Utf8(OpeningText())
  }

  const Quote: byte := 0x27
  const Colon: byte := 0x3A

  /** An ASCII character is one UTF-8 byte, its code. */
  lemma AsciiUtf8(c: char)
    requires c as int < 0x80
    ensures Text.Utf8([c]) == [c as int]
  {
    assert [c][1..] == [];
  }

  /** The bytes of `pre + name + "'"` are those of `pre`, then those of
      `name`, then the quote. */
  lemma QuotedUtf8(pre: string, name: string)
    ensures Text.Utf8(pre + name + "'") == Text.Utf8(pre) + Text.Utf8(name) + [Quote]
  {
    Text.Utf8Append(pre + name, "'");
    Text.Utf8Append(pre, name);
    AsciiUtf8('\'');
  }

  /** The bytes of `pre + host + ":" + port + "'"`, piece by piece. */
  lemma AddressUtf8(pre: string, host: string, port: string)
    ensures Text.Utf8(pre + host + ":" + port + "'")
         == Text.Utf8(pre) + Text.Utf8(host) + [Colon] + Text.Utf8(port) + [Quote]
  {
    QuotedUtf8(pre + host + ":", port);
    Text.Utf8Append(pre + host, ":");
    AsciiUtf8(':');
    Text.Utf8Append(pre, host);
  }

  datatype RendezVousBackend = RendezVousBackend(roomName: string) {

    /** Enabling always succeeds. */
    function Enable(): (r: Result<()>)
      ensures r.Ok?
    {
      Ok(())
    }

    /** Disabling keeps the room. */
    function Disable(): (b: RendezVousBackend)
      ensures b.roomName == roomName
    {
      this
    }

    /** Sending always succeeds, whatever the data. */
    function Send(data: seq<byte>): (r: Result<()>)
      ensures r.Ok?
    {
      Ok(())
    }

    /** Receiving always yields a message: a greeting naming the room. */
    function Receive(): (r: Result<Option<seq<byte>>>)
      ensures r.Ok? && r.value.Some?
    {
      Ok(Some(Text.Utf8(OpeningText() + roomName + "'")))
    }
  }

  datatype NetworkBackend = NetworkBackend(sourcePort: u16, destinationHost: string, destinationPort: u16) {

    /** Enabling always succeeds. */
    function Enable(): (r: Result<()>)
      ensures r.Ok?
    {
      Ok(())
    }

    /** Disabling keeps the ports and the host. */
    function Disable(): (b: NetworkBackend)
      ensures b.sourcePort == sourcePort && b.destinationHost == destinationHost
      ensures b.destinationPort == destinationPort
    {
      this
    }

    /** Sending always succeeds, whatever the data. */
    function Send(data: seq<byte>): (r: Result<()>)
      ensures r.Ok?
    {
      Ok(())
    }

    /** Receiving always yields a message: a greeting naming the peer's
        address. */
    function Receive(): (r: Result<Option<seq<byte>>>)
      ensures r.Ok? && r.value.Some?
    {
      var port := Text.Decimal(destinationPort);
      Ok(Some(Text.Utf8(OpeningText() + destinationHost + ":" + port + "'")))
    }
  }

  /** The room greeting is the opening, the room name's UTF-8 bytes
      verbatim, then the closing quote. */
  lemma RoomGreeting(b: RendezVousBackend)
    ensures b.Receive().Ok? && b.Receive().value.Some?
    ensures b.Receive().value.value == Opening() + Text.Utf8(b.roomName) + [Quote]
  {
    QuotedUtf8(OpeningText(), b.roomName);
  }

  /** The network greeting is the opening, the host's UTF-8 bytes, a colon,
      the destination port in decimal digits, then the closing quote; the
      digits read back as the port. */
  lemma NetworkGreeting(b: NetworkBackend)
    ensures b.Receive().Ok? && b.Receive().value.Some?
    ensures b.Receive().value.value == Opening() + Text.Utf8(b.destinationHost) + [Colon]
                                       + Text.Utf8(Text.Decimal(b.destinationPort)) + [Quote]
    ensures Text.ParseU16(Text.Utf8(Text.Decimal(b.destinationPort))) == Some(b.destinationPort)
  {
    AddressUtf8(OpeningText(), b.destinationHost, Text.Decimal(b.destinationPort));
    Text.DecimalRoundTrip(b.destinationPort);
  }
}
