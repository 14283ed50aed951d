/** The status-then-value interlock over a whole session: whatever sequence
    of driver calls a caller makes, every read of a measurement register pair
    on the bus comes directly after a status-register read that reported no
    fault. The sensor-type pair is deliberately not covered, since
    `readSensorType` has no status pre-check.
 */
module Interlock {
  import opened E2Bus
  import Ee894

  /** One public driver call. */
  datatype Call =
    | ReadRh | ReadTemp | ReadPres | ReadCo2Mean
    | ReadStatus
    | ReadSensorType | ReadSensorSubType | ReadAvailablePhysicalMeasurements

  /** A transaction that reads one of the four measurement register pairs. */
  predicate IsMeasurementRead(tx: Transaction)
  {
    tx.ReadShort? && tx.lo in {CbMv1Lo, CbMv2Lo, CbMv3Lo, CbMv4Lo}
  }

  /** Every measurement read in `trace` is directly preceded by a status read
      whose reply was (Ok, 0). */
  ghost predicate Interlocked(t: Transport, trace: seq<Transaction>)
  {
    forall i :: 0 <= i < |trace| && IsMeasurementRead(trace[i]) ==>
      0 < i && trace[i - 1] == ReadByte(CbStatus) && StatusClear(t, i - 1)
  }

  /** The trace after making `call` once. The output parameters' prior
      values are irrelevant here (`PriorDoesNotChangeTrace`). */
  function Perform(t: Transport, trace: seq<Transaction>, call: Call): (r: seq<Transaction>)
    ensures |trace| < |r| <= |trace| + 2 && r[..|trace|] == trace
  {
    match call
    case ReadRh => Ee894.ReadRh(t, trace, 0.0).trace
    case ReadTemp => Ee894.ReadTemp(t, trace, 0.0).trace
    case ReadPres => Ee894.ReadPres(t, trace, 0.0).trace
    case ReadCo2Mean => Ee894.ReadCo2Mean(t, trace, 0.0).trace
    case ReadStatus => Ee894.ReadStatus(t, trace).trace
    case ReadSensorType => Ee894.ReadSensorType(t, trace, 0).trace
    case ReadSensorSubType => Ee894.ReadSensorSubType(t, trace, 0).trace
    case ReadAvailablePhysicalMeasurements => Ee894.ReadAvailablePhysicalMeasurements(t, trace, 0).trace
  }

  /** The value an output parameter holds before a call does not influence
      which transactions the call issues. */
  lemma PriorDoesNotChangeTrace(t: Transport, trace: seq<Transaction>, p1: real, p2: real, n1: nat, n2: nat, b1: uint8, b2: uint8)
    ensures Ee894.ReadRh(t, trace, p1).trace == Ee894.ReadRh(t, trace, p2).trace
    ensures Ee894.ReadTemp(t, trace, p1).trace == Ee894.ReadTemp(t, trace, p2).trace
    ensures Ee894.ReadPres(t, trace, p1).trace == Ee894.ReadPres(t, trace, p2).trace
    ensures Ee894.ReadCo2Mean(t, trace, p1).trace == Ee894.ReadCo2Mean(t, trace, p2).trace
    ensures Ee894.ReadSensorType(t, trace, n1).trace == Ee894.ReadSensorType(t, trace, n2).trace
    ensures Ee894.ReadSensorSubType(t, trace, b1).trace == Ee894.ReadSensorSubType(t, trace, b2).trace
    ensures Ee894.ReadAvailablePhysicalMeasurements(t, trace, b1).trace
         == Ee894.ReadAvailablePhysicalMeasurements(t, trace, b2).trace
  {
  }

  /** The trace after making `calls` in order. */
  function Session(t: Transport, trace: seq<Transaction>, calls: seq<Call>): seq<Transaction>
    decreases |calls|
  {
    if |calls| == 0 then trace
    else Session(t, Perform(t, trace, calls[0]), calls[1..])
  }

  /** Appending `ext` to an interlocked trace keeps it interlocked when the
      extension itself respects the interlock. */
  lemma ExtendInterlocked(t: Transport, trace: seq<Transaction>, ext: seq<Transaction>)
    requires Interlocked(t, trace)
    requires forall j :: 0 <= j < |ext| && IsMeasurementRead(ext[j]) ==>
      0 < j && ext[j - 1] == ReadByte(CbStatus) && StatusClear(t, |trace| + j - 1)
    ensures Interlocked(t, trace + ext)
  {
    var full := trace + ext;
    forall i | 0 <= i < |full| && IsMeasurementRead(full[i])
      ensures 0 < i && full[i - 1] == ReadByte(CbStatus) && StatusClear(t, i - 1)
    {
      if i < |trace| {
        assert full[i] == trace[i];
        assert full[i - 1] == trace[i - 1];
      } else {
        var j := i - |trace|;
        assert full[i] == ext[j];
        if j == 0 {
          assert false;
        }
        assert full[i - 1] == ext[j - 1];
      }
    }
  }

  /** Every single driver call keeps the trace interlocked. */
  lemma PerformKeepsInterlock(t: Transport, trace: seq<Transaction>, call: Call)
    requires Interlocked(t, trace)
    ensures Interlocked(t, Perform(t, trace, call))
  {
    match call
    case ReadRh => MeasuredKeepsInterlock(t, trace, CbMv1Lo, CbMv1Hi, 100, Ee894.ReadRh(t, trace, 0.0));
    case ReadTemp => MeasuredKeepsInterlock(t, trace, CbMv2Lo, CbMv2Hi, 100, Ee894.ReadTemp(t, trace, 0.0));
    case ReadPres => MeasuredKeepsInterlock(t, trace, CbMv3Lo, CbMv3Hi, 10, Ee894.ReadPres(t, trace, 0.0));
    case ReadCo2Mean => MeasuredKeepsInterlock(t, trace, CbMv4Lo, CbMv4Hi, 1, Ee894.ReadCo2Mean(t, trace, 0.0));
    case ReadStatus => ExtendInterlocked(t, trace, [ReadByte(CbStatus)]);
    case ReadSensorType => ExtendInterlocked(t, trace, [ReadShort(CbTypeLo, CbTypeHi)]);
    case ReadSensorSubType => ExtendInterlocked(t, trace, [ReadByte(CbTypeSub)]);
    case ReadAvailablePhysicalMeasurements => ExtendInterlocked(t, trace, [ReadByte(CbAvPhMes)]);
  }

  /** A measured-value read keeps the trace interlocked. */
  lemma MeasuredKeepsInterlock(t: Transport, trace: seq<Transaction>, lo: ControlByte, hi: ControlByte,
                               scale: int, r: Ee894.Outcome<real>)
    requires Interlocked(t, trace)
    requires Ee894.MeasuredAs(t, trace, 0.0, lo, hi, scale, r)
    ensures Interlocked(t, r.trace)
  {
    if StatusClear(t, |trace|) {
      ExtendInterlocked(t, trace, [ReadByte(CbStatus), ReadShort(lo, hi)]);
      assert trace + [ReadByte(CbStatus)] + [ReadShort(lo, hi)] == trace + [ReadByte(CbStatus), ReadShort(lo, hi)];
    } else {
      ExtendInterlocked(t, trace, [ReadByte(CbStatus)]);
    }
  }

  /** The interlock holds after any sequence of driver calls that starts from
      an interlocked trace, in particular from an empty one. */
  lemma {:induction false} SessionKeepsInterlock(t: Transport, trace: seq<Transaction>, calls: seq<Call>)
    requires Interlocked(t, trace)
    ensures Interlocked(t, Session(t, trace, calls))
    decreases |calls|
  {
    if |calls| > 0 {
      PerformKeepsInterlock(t, trace, calls[0]);
      SessionKeepsInterlock(t, Perform(t, trace, calls[0]), calls[1..]);
    }
  }

  /** A session only ever appends to the trace, one or two transactions per
      call. */
  lemma {:induction false} SessionExtendsTrace(t: Transport, trace: seq<Transaction>, calls: seq<Call>)
    ensures |trace| + |calls| <= |Session(t, trace, calls)| <= |trace| + 2 * |calls|
    ensures Session(t, trace, calls)[..|trace|] == trace
    decreases |calls|
  {
    if |calls| > 0 {
      var next := Perform(t, trace, calls[0]);
      SessionExtendsTrace(t, next, calls[1..]);
      assert Session(t, trace, calls)[..|trace|] == Session(t, next, calls[1..])[..|next|][..|trace|];
    }
  }
}
