/** Worked examples: concrete sessions against fixed transport scripts (a
    clean humidity read, a status read that is not acknowledged, and a sensor
    that reports a fault in its status byte). Each is one instance of what
    `Ee894.MeasuredAs` and `Ee894.ReadStatus` state for all inputs.
 */
module Scenarios {
  import opened E2Bus
  import Ee894

  /** A bus on which every transaction succeeds, the status byte is zero and
      every register pair reads `raw`. */
  function Healthy(raw: uint16): Transport
  {
    Transport((n, addr) => Reply(Ok, 0), (n, lo, hi) => Reply(Ok, raw))
  }

  /** A raw humidity reading of 4567 with a clear status gives 45.67 %RH
      after one status read and one MV1 pair read. */
  lemma HumidityFromRaw()
    ensures Ee894.ReadRh(Healthy(4567), [], 0.0)
         == Ee894.Outcome(Ok, 45.67, [ReadByte(CbStatus), ReadShort(CbMv1Lo, CbMv1Hi)])
  {
  }

  /** A status read that is not acknowledged is returned as is; the
      humidity register pair is never read and the output keeps its value. */
  lemma NakStopsHumidity(prior: real)
    ensures var nak := Transport((n, addr) => Reply(ErrNak, 0), (n, lo, hi) => Reply(Ok, 4567));
            Ee894.ReadRh(nak, [], prior) == Ee894.Outcome(ErrNak, prior, [ReadByte(CbStatus)])
  {
  }

  /** A status byte of 1 on a successful transaction is a measurement error,
      both for `readStatus` and for a temperature read, which then does not
      read the temperature register pair. */
  lemma FaultByteStopsTemperature(prior: real)
    ensures var faulty := Transport((n, addr) => Reply(Ok, 1), (n, lo, hi) => Reply(Ok, 29315));
            && Ee894.ReadStatus(faulty, []).status == ErrMeas
            && Ee894.ReadTemp(faulty, [], prior) == Ee894.Outcome(ErrMeas, prior, [ReadByte(CbStatus)])
  {
  }
}
