/** Constants of the communication core. */
module Constants {

  /** Largest payload one frame can carry: its length must fit the one-byte header. */
  const MaximumDataLen: nat := 255

  /** Receive-side inter-byte timeout, in milliseconds. */
  const SerialRxTimeoutMs: nat := 10

  /** Baud rate at which the serial device is opened. */
  const BaudRate: nat := 115200
}
