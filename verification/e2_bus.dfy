/** The E2 bus as the EE894 driver sees it: status codes, the sensor's control
    bytes (register addresses), the two read transactions, and the transport
    that answers them.

    The bit-level e2Interface library is not part of this model. It is
    replaced by a scripted oracle: the reply to a transaction is a pure
    function of the transaction's position in the session and of the
    addresses it names, so a test script, a faulty bus or a sensor whose
    readings change over time are all instances of `Transport`.
 */
module E2Bus {

  newtype uint8 = x: int | 0 <= x < 0x100
  newtype uint16 = x: int | 0 <= x < 0x1_0000

  /** Status of an E2 exchange. The four named codes are the header's E2_OK,
      E2_ERR_NAK, E2_ERR_CKSUM and E2_ERR_MEAS; `Other` stands for any status
      byte that is none of them. */
  datatype Status = Ok | ErrNak | ErrCksum | ErrMeas | Other(code: uint8)

  /** The control bytes the driver addresses (the header's CB_* constants),
      kept abstract and pairwise distinct. */
  datatype ControlByte =
    | CbStatus
    | CbMv1Lo | CbMv1Hi   // measurement value 1: relative humidity
    | CbMv2Lo | CbMv2Hi   // measurement value 2: temperature
    | CbMv3Lo | CbMv3Hi   // measurement value 3: ambient pressure
    | CbMv4Lo | CbMv4Hi   // measurement value 4: CO2 mean
    | CbTypeLo | CbTypeHi
    | CbTypeSub
    | CbAvPhMes

  /** One request on the bus: a single byte, or a 16-bit value assembled from
      a low and a high control byte. */
  datatype Transaction = ReadByte(addr: ControlByte) | ReadShort(lo: ControlByte, hi: ControlByte)

  /** The transport's (status, data) pair. */
  datatype Reply<T> = Reply(status: Status, data: T)

  /** The transport oracle: the reply to the n-th transaction of a session
      (counting from 0). */
  datatype Transport = Transport(
    byteReply: (nat, ControlByte) -> Reply<uint8>,
    shortReply: (nat, ControlByte, ControlByte) -> Reply<uint16>)

  /** Sends `ReadByte(addr)` as the next transaction after `trace`. */
  function ReadByteFromSlave(t: Transport, trace: seq<Transaction>, addr: ControlByte): (Reply<uint8>, seq<Transaction>)
  {
    (t.byteReply(|trace|, addr), trace + [ReadByte(addr)])
  }

  /** Sends `ReadShort(lo, hi)` as the next transaction after `trace`. */
  function ReadShortFromSlave(t: Transport, trace: seq<Transaction>, lo: ControlByte, hi: ControlByte): (Reply<uint16>, seq<Transaction>)
  {
    (t.shortReply(|trace|, lo, hi), trace + [ReadShort(lo, hi)])
  }

  /** The status register read at position n reported no fault: the bus
      transaction succeeded and the sensor's status byte is zero. */
  predicate StatusClear(t: Transport, n: nat)
  {
    t.byteReply(n, CbStatus) == Reply(Ok, 0)
  }
}
