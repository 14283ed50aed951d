# EE894 E2 driver — Dafny model

This project models the request/response layer of the E+E EE894 sensor
driver (`ee894E2`). The driver reads humidity, temperature, pressure and CO2
over the two-wire E2 bus. Each measured value is read with a status-then-value
interlock: the driver reads the status register, and reads the 16-bit
measurement register pair only when the status is clear. It then divides the
raw reading by a fixed scale factor. Three metadata reads (sensor type,
subtype, available measurements) issue a single transaction each.
`getErrorString` renders a status code into a caller's character buffer.

Modules:

- `E2Bus` (`e2_bus.dfy`) defines the status codes, the control bytes, the
  two transaction kinds and the transport. The transport is a scripted
  oracle: the reply to a transaction is a pure function of its position in
  the session and of the addresses it names. The numeric values of the status
  codes and `CB_*` control bytes come from ee894E2.h and are not fixed
  here, so they are kept as pairwise distinct abstract constructors.
  `Other(code)` stands for every other status byte.
- `Ee894` (`ee894.dfy`) models the driver's reads as pure functions. Each
  one takes the transport and the trace of transactions issued so far. A
  C++ output parameter becomes an input holding its value before the call.
  Each read returns the status, the output's value after the call, and the
  extended trace. `MeasuredAs` and `ReadOnceAs` state what a read must
  produce in terms of the transport's replies alone.
- `Interlock` (`interlock.dfy`) runs any sequence of driver calls. It proves
  that every measurement-register read on the bus comes directly after a
  status read that returned `(E2_OK, 0)`.
- `ErrorString` (`error_string.dfy`) models the message table, the
  `memset` and the 30-byte `strncpy`. It also models how a C caller reads
  the NUL-terminated result back.
- `Scenarios` (`scenarios.dfy`) holds worked examples: concrete sessions
  against fixed bus scripts, each a single instance of the general contracts.

The message keeps the source's spelling, "Measurment error" (src/ee894E2.cpp:165).

## Model

| member | source | states |
|---|---|---|
| `Ee894.ReadStatus` | src/ee894E2.cpp:94-106 | Issues exactly one byte read, at CB_STATUS. Returns OK iff that read succeeded with a zero byte. Returns E2_ERR_MEAS iff the read succeeded with a non-zero byte or the transport itself reported E2_ERR_MEAS. A non-OK transport status is returned unchanged, whatever the data byte. |
| `Ee894.ReadMeasValue` | src/ee894E2.cpp:49-64 | Reads the status first. A failed status leaves a trace of that single transaction and is returned verbatim. The register-pair read is issued only after a clear status, and its failure is also returned verbatim. The output is unchanged on every failure. On success the status is OK and output × scale equals the raw 16-bit reading, so 0 ≤ output < 65536 / scale. |
| `Ee894.ReadRh` | src/ee894E2.cpp:66-70 | Is a measured read of the pair (CB_MV1LO, CB_MV1HI) with scale 100, so the humidity lies in [0, 655.35]. |
| `Ee894.ReadTemp` | src/ee894E2.cpp:73-77 | Is a measured read of the pair (CB_MV2LO, CB_MV2HI) with scale 100, so the temperature lies in [0, 655.35]. |
| `Ee894.ReadPres` | src/ee894E2.cpp:80-84 | Is a measured read of the pair (CB_MV3LO, CB_MV3HI) with scale 10, so the pressure lies in [0, 6553.5]. |
| `Ee894.ReadCo2Mean` | src/ee894E2.cpp:87-91 | Is a measured read of the pair (CB_MV4LO, CB_MV4HI) with scale 1. On success the value equals the raw reading. |
| `Ee894.ReadSensorType` | src/ee894E2.cpp:109-121 | Has no status pre-check. Issues exactly one short read, at (CB_TYPELO, CB_TYPEHI), and returns its status verbatim. The output becomes the raw value (below 2^16) on OK and is unchanged otherwise. |
| `Ee894.ReadSensorSubType` | src/ee894E2.cpp:124-134 | Issues exactly one byte read, at CB_TYPESUB, and returns its status. The output becomes the byte on OK and is unchanged otherwise. |
| `Ee894.ReadAvailablePhysicalMeasurements` | src/ee894E2.cpp:137-147 | Issues exactly one byte read, at CB_AVPHMES, and returns its status. The output becomes the byte on OK and is unchanged otherwise. |
| `Interlock.Perform` | src/ee894E2.cpp:49-147 | Every public read appends one or two transactions and leaves the earlier trace intact. |
| `Interlock.PriorDoesNotChangeTrace` | src/ee894E2.cpp:49-147 | The value an output parameter held before a call never changes which transactions that call issues. |
| `Interlock.SessionKeepsInterlock` | src/ee894E2.cpp:51-56 | Take any sequence of driver calls, starting from an interlocked trace such as the empty one. Every read of a measurement register pair is then directly preceded by a CB_STATUS read whose reply was (E2_OK, 0). |
| `Interlock.SessionExtendsTrace` | src/ee894E2.cpp:49-147 | A session of k calls only appends to the trace, with between k and 2k transactions. |
| `ErrorString.Message` | src/ee894E2.cpp:153-170 | Every status code has a message, so the mapping is total. Every message is non-empty, NUL-free and shorter than the 30-byte strncpy bound. "unknown error" is the message of exactly the codes outside the four named ones. |
| `ErrorString.MessageSeparatesCodes` | src/ee894E2.cpp:153-170 | Two codes share a message iff they are equal or both outside the four named codes. |
| `ErrorString.Memset` | src/ee894E2.cpp:152 | Clears exactly the first n bytes and leaves the rest unchanged. |
| `ErrorString.StrNCpy` | src/ee894E2.cpp:156-168 | The first n bytes become the source, cut or NUL-padded to n. Bytes from n on are unchanged. |
| `ErrorString.GetErrorString` | src/ee894E2.cpp:150-171 | The buffer reads back as a C string equal to the status's message, NUL-padded up to byte 30. Past byte 30 only the pointer-size bytes cleared by memset change. |
| `Scenarios.HumidityFromRaw` | src/ee894E2.cpp:62-69 | Raw humidity 4567 with a clear status gives OK and 45.67, after exactly a status read and an MV1 pair read. |
| `Scenarios.NakStopsHumidity` | src/ee894E2.cpp:51-60 | A NAK on the status read returns E2_ERR_NAK and leaves the humidity unchanged. The trace holds only the status read. |
| `Scenarios.FaultByteStopsTemperature` | src/ee894E2.cpp:94-106 | A status byte of 1 makes readStatus return E2_ERR_MEAS. readTemp then returns the same code without reading the temperature pair. |

## Left out

- The e2Interface transport (bit timing, ACK/NAK handling, checksum computation) is an external library. It is replaced by the `Transport` oracle, which can return any (status, data) reply for each transaction.
- The constructors and the pin selection (src/ee894E2.cpp:36-46), including the global `e2` transport object. They configure hardware and have no behaviour to state.
- The unused `ACK`/`NAK` macros (src/ee894E2.cpp:33-34).
- Float arithmetic. `(float)raw / scaleFactor` is modelled as exact real division, so IEEE rounding is not modelled.
- Ee894.ReadMeasValue: requires a positive scale factor. This private helper is only ever called with 100, 10 and 1, and a zero divisor would need IEEE infinities, which the real-valued model does not have.
- Ee894.ReadSensorType: `unsigned int` is modelled as an unbounded `nat`. The raw 16-bit value fits on every target, so no truncation arises.
- ErrorString.GetErrorString: `sizeof(errorString)` is the size of a pointer, not of the buffer. It is modelled as the parameter `pointerSize`. On the usual targets (2, 4 or 8 bytes) the strncpy padding overwrites the cleared bytes, so this latent bug has no visible effect within the 30 bytes. C buffers smaller than 30 bytes are undefined behaviour and are excluded by the precondition.
