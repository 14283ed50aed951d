/** The EE894 driver's request/response layer: every read is a pure function
    of the transport oracle and the transactions issued so far, returning the
    status code, the value of the caller's output parameter after the call,
    and the extended transaction trace.

    An output parameter is modelled by passing its value before the call
    (`prior`); an operation that fails hands `prior` back unchanged.
 */
module Ee894 {
  import opened E2Bus

  /** Status, output parameter and trace after one driver call. */
  datatype Outcome<T> = Outcome(status: Status, value: T, trace: seq<Transaction>)

  /** Status and trace after `readStatus`, which has no output parameter. */
  datatype StatusRead = StatusRead(status: Status, trace: seq<Transaction>)

  /** Reads the status register once. A successful transaction whose status
      byte is non-zero signals a sensor-side fault and becomes `ErrMeas`;
      otherwise the transport's own status is returned and, when it is not
      `Ok`, the data byte is ignored. */
  function ReadStatus(t: Transport, trace: seq<Transaction>): (r: StatusRead)
    ensures r.trace == trace + [ReadByte(CbStatus)]
    ensures t.byteReply(|trace|, CbStatus).status != Ok ==> r.status == t.byteReply(|trace|, CbStatus).status
    ensures r.status == Ok <==> StatusClear(t, |trace|)
    ensures r.status == ErrMeas <==>
              t.byteReply(|trace|, CbStatus).status == ErrMeas
              || (t.byteReply(|trace|, CbStatus).status == Ok && t.byteReply(|trace|, CbStatus).data != 0)
  {
    var (reply, trace') := ReadByteFromSlave(t, trace, CbStatus);
    if reply.status == Ok && reply.data != 0 then StatusRead(ErrMeas, trace')
    else StatusRead(reply.status, trace')
  }

  /** What a measured-value read must produce, stated on the replies alone:
      the status read comes first; any failure there or in the register-pair
      read is returned verbatim with the output untouched; the register pair
      is read only after a clear status; on success the output times the
      scale factor is the raw 16-bit reading. */
  ghost predicate MeasuredAs(t: Transport, trace: seq<Transaction>, prior: real,
                             lo: ControlByte, hi: ControlByte, scale: int, r: Outcome<real>)
  {
    var statusReply := t.byteReply(|trace|, CbStatus);
    var measReply := t.shortReply(|trace| + 1, lo, hi);
    var statusOnly := trace + [ReadByte(CbStatus)];
    var both := statusOnly + [ReadShort(lo, hi)];
    && (statusReply.status != Ok ==> r == Outcome(statusReply.status, prior, statusOnly))
    && (statusReply.status == Ok && statusReply.data != 0 ==> r == Outcome(ErrMeas, prior, statusOnly))
    && (StatusClear(t, |trace|) && measReply.status != Ok ==> r == Outcome(measReply.status, prior, both))
    && (r.status == Ok <==> StatusClear(t, |trace|) && measReply.status == Ok)
    && (r.status == Ok ==> r.trace == both && r.value * scale as real == measReply.data as real)
  }

  /** The shared status-then-value read: `readStatus` first, the register
      pair only if it returned `Ok`, then `raw / scaleFactor`. */
  function ReadMeasValue(t: Transport, trace: seq<Transaction>, value: real,
                         lo: ControlByte, hi: ControlByte, scaleFactor: int): (r: Outcome<real>)
    requires 0 < scaleFactor
    ensures MeasuredAs(t, trace, value, lo, hi, scaleFactor, r)
    ensures 0 < |r.trace| - |trace| <= 2 && r.trace[..|trace|] == trace
    ensures r.status == Ok ==> 0.0 <= r.value && r.value * scaleFactor as real < 65536.0
  {
    var status := ReadStatus(t, trace);
    if status.status != Ok then
      Outcome(status.status, value, status.trace)
    else
      var (reply, trace') := ReadShortFromSlave(t, status.trace, lo, hi);
      if reply.status != Ok then
        Outcome(reply.status, value, trace')
      else
        var scaled := reply.data as real / scaleFactor as real;
        assert scaled * scaleFactor as real == reply.data as real;
        Outcome(Ok, scaled, trace')
  }

  /** Relative humidity [%RH]: register pair MV1, scale 100. */
  function ReadRh(t: Transport, trace: seq<Transaction>, humidity: real): (r: Outcome<real>)
    ensures MeasuredAs(t, trace, humidity, CbMv1Lo, CbMv1Hi, 100, r)
    ensures r.status == Ok ==> 0.0 <= r.value <= 655.35
  {
    ReadMeasValue(t, trace, humidity, CbMv1Lo, CbMv1Hi, 100)
  }

  /** Temperature [K]: register pair MV2, scale 100. */
  function ReadTemp(t: Transport, trace: seq<Transaction>, temperature: real): (r: Outcome<real>)
    ensures MeasuredAs(t, trace, temperature, CbMv2Lo, CbMv2Hi, 100, r)
    ensures r.status == Ok ==> 0.0 <= r.value <= 655.35
  {
    ReadMeasValue(t, trace, temperature, CbMv2Lo, CbMv2Hi, 100)
  }

  /** Ambient pressure [mbar]: register pair MV3, scale 10. */
  function ReadPres(t: Transport, trace: seq<Transaction>, pressure: real): (r: Outcome<real>)
    ensures MeasuredAs(t, trace, pressure, CbMv3Lo, CbMv3Hi, 10, r)
    ensures r.status == Ok ==> 0.0 <= r.value <= 6553.5
  {
    ReadMeasValue(t, trace, pressure, CbMv3Lo, CbMv3Hi, 10)
  }

  /** CO2 mean [ppm]: register pair MV4, scale 1, so the value is the raw
      reading itself. */
  function ReadCo2Mean(t: Transport, trace: seq<Transaction>, co2: real): (r: Outcome<real>)
    ensures MeasuredAs(t, trace, co2, CbMv4Lo, CbMv4Hi, 1, r)
    ensures r.status == Ok ==> r.value == t.shortReply(|trace| + 1, CbMv4Lo, CbMv4Hi).data as real
  {
    ReadMeasValue(t, trace, co2, CbMv4Lo, CbMv4Hi, 1)
  }

  /** What a single-transaction metadata read must produce: exactly the one
      transaction `tx` is issued, its status is returned verbatim, and the
      output changes only on success. */
  ghost predicate ReadOnceAs<T>(trace: seq<Transaction>, prior: T, tx: Transaction, reply: Reply<T>, r: Outcome<T>)
  {
    && r.trace == trace + [tx]
    && r.status == reply.status
    && r.value == (if reply.status == Ok then reply.data else prior)
  }

  /** Sensor type: one 16-bit read of the TYPE register pair, with no status
      pre-check and no scaling. */
  function ReadSensorType(t: Transport, trace: seq<Transaction>, sensorType: nat): (r: Outcome<nat>)
    ensures ReadOnceAs(trace, sensorType, ReadShort(CbTypeLo, CbTypeHi),
                       var reply := t.shortReply(|trace|, CbTypeLo, CbTypeHi); Reply(reply.status, reply.data as nat), r)
    ensures r.status == Ok ==> r.value < 0x1_0000
  {
    var (reply, trace') := ReadShortFromSlave(t, trace, CbTypeLo, CbTypeHi);
    if reply.status != Ok then Outcome(reply.status, sensorType, trace')
    else Outcome(Ok, reply.data as nat, trace')
  }

  /** Sensor subtype: one byte read at CB_TYPESUB. */
  function ReadSensorSubType(t: Transport, trace: seq<Transaction>, sensorSubType: uint8): (r: Outcome<uint8>)
    ensures ReadOnceAs(trace, sensorSubType, ReadByte(CbTypeSub), t.byteReply(|trace|, CbTypeSub), r)
  {
    var (reply, trace') := ReadByteFromSlave(t, trace, CbTypeSub);
    if reply.status != Ok then Outcome(reply.status, sensorSubType, trace')
    else Outcome(Ok, reply.data, trace')
  }

  /** Available physical measurements: one byte read at CB_AVPHMES. */
  function ReadAvailablePhysicalMeasurements(t: Transport, trace: seq<Transaction>, available: uint8): (r: Outcome<uint8>)
    ensures ReadOnceAs(trace, available, ReadByte(CbAvPhMes), t.byteReply(|trace|, CbAvPhMes), r)
  {
    var (reply, trace') := ReadByteFromSlave(t, trace, CbAvPhMes);
    if reply.status != Ok then Outcome(reply.status, available, trace')
    else Outcome(Ok, reply.data, trace')
  }
}
