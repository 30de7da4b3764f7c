# piweather sensor core in Dafny

This project models the core of piweather, a Raspberry Pi weather station. It covers three parts:

- **PMSA003 frame decoder** (`PmsA003::read`). The particulate sensor answers an I2C read with a 32-byte frame. The decoder checks, in this order:
  - the magic header `'B','M'`;
  - the big-endian length field, which must be 28;
  - the checksum: the `u16` sum of bytes 0..29 must equal the big-endian word in bytes 30..31.

  A frame that passes all three yields exactly twelve readouts: six concentrations and six particle counts.
- **Edge polling engine** (`PiWeatherEngine`). `register_sensor` appends a sensor. Each tick of `run` reads every sensor in order, drops `Err` and `Ok(None)`, concatenates the remaining readouts into one batch and sends that batch. A transmitter error ends `run` with `Err`. The termination flag, checked at the head of the loop, ends it with `Ok(())`.
- **Measurement model** (`piweather-common`'s modality module). Temperature unit tagging through `to_celsius`/`to_fahrenheit`, and the fixed-length `ModalityArray<N>`. The array serialises as an N-tuple, and `visit_seq` reads it back with a length check.

Files:

- `wrappers.dfy`: `Option`, `Result`.
- `bytes.dfy`: `u8`/`u16` and `from_be_bytes`. Also the wrapping `u16` checksum fold, which is proved never to wrap on 30 bytes.
- `pmsa003.dfy`: the decoder, the frame layout, and an encoder that is its partner.
- `modality.dfy`: temperatures, the `Modality` union, serialisation and deserialisation.
- `engine.dfy`: registration, the tick batch and the run loop.

External behaviour enters the model as parameters:

- **Device read:** the result of reading the I2C device is a `DeviceRead`, either a failure or a 32-byte frame.
- **Engine environment:** what the engine sees on each loop iteration is an `Observation`. It holds the termination flag read at the loop head, each sensor's answer by registration position, and the transmitter's answer to a batch. A finite script of observations stands in for the unbounded loop. `Running` means the script ran out before `run` returned.
- **Serialiser:** the serde serialiser is a function saying which of its calls fail. The deserialiser's `SeqAccess` is the sequence of `next_element` answers; the end of that sequence is `None`.
- **Float formulas:** `f32` values are kept as opaque bit patterns. The two unit-conversion formulas are passed in as functions.

Behaviour of the code worth knowing up front:

- The code has no read-caching/debounce policy and no AM2315 decoder.
- `run` sends every tick's batch, including an empty one (`Engine.SilentTickStillSends`).
- A transmitter error always ends `run`.
- Every decoder failure is `PiWeatherError::I2CError(String)`, modelled as one constructor per message.

## Model

| member | source | states |
|---|---|---|
| `Bytes.FromBeBytes` | piweather-agent/src/sensors/pmsa003.rs:76 | `u16::from_be_bytes([hi, lo])` puts `hi` in the high byte and `lo` in the low byte |
| `Bytes.ToBeBytes` | piweather-agent/src/sensors/pmsa003.rs:84 | splitting a word into big-endian bytes and reassembling it gives back the word |
| `Bytes.FromBeBytesInjective` | piweather-agent/src/sensors/pmsa003.rs:76 | two byte pairs give the same big-endian word exactly when the pairs are equal |
| `Bytes.WrappingAdd` | piweather-agent/src/sensors/pmsa003.rs:85 | `u16` addition: exact below 2^16, reduced by 2^16 above |
| `Bytes.FoldSum16` | piweather-agent/src/sensors/pmsa003.rs:85 | the `fold` of wrapping `u16` additions over the bytes, from a start value, is that start value plus the byte sum, reduced modulo 2^16 |
| `Bytes.FoldSum16NoWrap` | piweather-agent/src/sensors/pmsa003.rs:85 | while the running total stays below 2^16, the wrapping `u16` fold equals the mathematical sum |
| `Bytes.ChecksumNeverWraps` | piweather-agent/src/sensors/pmsa003.rs:84-85 | bytes 0..29 sum to at most 7650, so the checksum fold never wraps and equals the plain sum |
| `Bytes.SumUpdate` | piweather-agent/src/sensors/pmsa003.rs:85 | replacing one byte changes the sum by exactly the difference of the old and new values |
| `Bytes.SumConcat` | piweather-agent/src/sensors/pmsa003.rs:85 | the sum of a concatenation is the sum of the parts |
| `PmsA003.Read` | piweather-agent/src/sensors/pmsa003.rs:62-149 | a failed device read is an error and no frame check runs; a bad header, then a length other than 28, then a checksum different from the sum of bytes 0..29, each give their own error (in that order, iff the earlier checks pass); otherwise the result is `Ok(Some)` of exactly 12 readouts, readout i being the slot-i tag with value BE(data[4+2i], data[5+2i]) |
| `PmsA003.Validate` | piweather-agent/src/sensors/pmsa003.rs:69-91 | the three frame checks run in source order: a frame passes iff header, length word and checksum are all right; the header error is reported iff the header is wrong, the size error iff the header is right and the length word is not 28, the checksum error iff both are right and the checksum is not; a device error never comes from here |
| `PmsA003.ChecksumComparison` | piweather-agent/src/sensors/pmsa003.rs:84-91 | comparing the 16-bit fold over bytes 0..29 with the big-endian word in bytes 30..31 is the same as comparing the exact byte sum with that word, since the sum cannot wrap |
| `PmsA003.ReadoutKinds` | piweather-agent/src/sensors/pmsa003.rs:93-147 | readouts 0-2 are standard concentrations, 3-5 environmental concentrations, 6-11 counts, each with its own slot's big-endian value |
| `PmsA003.ToParticle` | piweather-agent/src/sensors/pmsa003.rs:19-30 | the mapping to the common `Particle` keeps the size class (the inverse mapping recovers it) |
| `PmsA003.ParticleMappingBijective` | piweather-agent/src/sensors/pmsa003.rs:19-30 | the mapping from `PmsA003Particle` to `Particle` is a bijection |
| `PmsA003.EncodeLayout` | piweather-agent/src/sensors/pmsa003.rs:69-91 | a frame the sensor builds from twelve values has a valid header, length and checksum, and carries each value in its slot |
| `PmsA003.EncodeThenRead` | piweather-agent/src/sensors/pmsa003.rs:62-149 | round trip: every frame the sensor can build decodes to its twelve values in layout order, whatever its reserved bytes hold |
| `PmsA003.ValidFrameDeterminedByFields` | piweather-agent/src/sensors/pmsa003.rs:69-147 | two valid frames with equal fields and reserved bytes are byte-for-byte equal |
| `PmsA003.ReadThenEncode` | piweather-agent/src/sensors/pmsa003.rs:62-149 | round trip the other way: a frame that decodes is exactly the frame built from its decoded values and its own bytes 28..29 |
| `PmsA003.ReservedBytesOnlyFeedChecksum` | piweather-agent/src/sensors/pmsa003.rs:84-147 | bytes 28..29 never reach a readout: two decodable frames that agree on bytes 0..27 decode alike |
| `PmsA003.SingleByteCorruptionDetected` | piweather-agent/src/sensors/pmsa003.rs:84-91 | changing any one byte of 0..29 of a decodable frame, with header and length still valid, gives the checksum error |
| `PmsA003.TestVectorDecodes` | piweather-agent/src/sensors/pmsa003.rs:185-279 | the unit test's frame decodes to twelve readouts of 257 with the listed particle and unit tags |
| `Modalities.ToCelsius` | piweather-common/src/modality.rs:33-38 | `to_celsius` always returns `Celsius`; a Celsius value comes back unchanged, and a Fahrenheit value is converted |
| `Modalities.ToFahrenheit` | piweather-common/src/modality.rs:50-55 | `to_fahrenheit` always returns `Fahrenheit`; a Fahrenheit value comes back unchanged, and a Celsius value is converted |
| `Modalities.ToCelsiusIdempotent` | piweather-common/src/modality.rs:33-38 | converting to Celsius twice is the same as converting once |
| `Modalities.ToFahrenheitIdempotent` | piweather-common/src/modality.rs:50-55 | converting to Fahrenheit twice is the same as converting once |
| `Modalities.ConversionLandsOnFixedPoint` | piweather-common/src/modality.rs:152-184 | a conversion is the identity exactly on values already in the target unit, and its result is always such a value |
| `Modalities.Serialize` | piweather-common/src/modality.rs:88-100 | succeeds iff no serialiser call fails; then it emits `serialize_tuple(N)`, exactly N elements in index order, then `end`; otherwise it reports the first failing call |
| `Modalities.VisitFrom` | piweather-common/src/modality.rs:114-120 | from iteration i of the loop: success iff elements i..N-1 are all present, `invalid_length(N)` iff the input ends early with no element error, otherwise the first element error |
| `Modalities.VisitSeq` | piweather-common/src/modality.rs:110-130 | `visit_seq` succeeds iff the first N answers are all elements, and then element i of the array is the i-th element consumed; a short input gives `invalid_length(N)`; an element error is passed on, and it is the first one |
| `Modalities.VisitSeqIgnoresSurplus` | piweather-common/src/modality.rs:115-119 | nothing after the N-th element is consumed |
| `Modalities.ElementsOfConcat` | piweather-common/src/modality.rs:93-98 | the elements of a concatenated token stream are the elements of each part |
| `Modalities.SerializeThenVisit` | piweather-common/src/modality.rs:88-130 | round trip: the elements a `ModalityArray<N>` serialises, read back with the same N, give back the array |
| `Engine.New` | piweather-edge/src/engine.rs:21-32 | a new engine keeps the interval it was given and has no sensors |
| `Engine.RegisterSensor` | piweather-edge/src/engine.rs:35-38 | the new sensor goes last; earlier registrations stay unchanged and in order, and the interval is kept |
| `Engine.RegisterAllAppends` | piweather-edge/src/engine.rs:35-38 | registering a list of sensors one by one appends them in list order |
| `Engine.RegisteredInOrder` | piweather-edge/src/engine.rs:21-38 | a new engine given sensors one by one holds exactly that list |
| `Engine.Kept` | piweather-edge/src/engine.rs:50-55 | the `filter_map` closure keeps a sensor's answer iff it was `Ok(Some(readouts))`, and then keeps exactly those readouts; `Ok(None)` and `Err(_)` are dropped |
| `Engine.FilterMap` | piweather-edge/src/engine.rs:47-56 | no more lists than sensors; every kept list is some `Ok(Some(_))` sensor's readouts, and every such sensor's readouts are among them (order and multiplicity: `Engine.FilterMapConcat` with `Engine.FilterMapOfOne`) |
| `Engine.Flatten` | piweather-edge/src/engine.rs:57-58 | every element of the flattened sequence comes from one of the lists, and every element of every list is in it |
| `Engine.Batch` | piweather-edge/src/engine.rs:47-58 | every readout a sensor returned in `Ok(Some(_))` during the tick is in the batch handed to the transmitter |
| `Engine.FilterMapConcat` | piweather-edge/src/engine.rs:47-56 | filter-mapping two groups of sensors is filter-mapping each group |
| `Engine.FilterMapOfOne` | piweather-edge/src/engine.rs:50-56 | one sensor contributes exactly one list, its readouts, on `Ok(Some(_))`, and no list on `Ok(None)` or `Err(_)`; with `FilterMapConcat` this gives one list per such sensor, in sensor order |
| `Engine.FlattenConcat` | piweather-edge/src/engine.rs:57-58 | flattening distributes over concatenation |
| `Engine.BatchConcat` | piweather-edge/src/engine.rs:47-58 | polling two groups of sensors in turn batches their readouts in turn |
| `Engine.BatchOfOne` | piweather-edge/src/engine.rs:50-55 | one sensor adds its readouts on `Ok(Some(_))` and nothing on `Ok(None)` or `Err` |
| `Engine.SkippedSensorContributesNothing` | piweather-edge/src/engine.rs:50-55 | a failing or silent sensor contributes nothing, and the sensors around it contribute as if it were absent |
| `Engine.BatchMembership` | piweather-edge/src/engine.rs:47-58 | a readout is in the batch iff some sensor returned it in `Ok(Some(_))` |
| `Engine.NothingKeptEmptyBatch` | piweather-edge/src/engine.rs:47-58 | when no sensor returns `Ok(Some(_))`, the batch is empty |
| `Engine.PollSensors` | piweather-edge/src/engine.rs:47-58 | every registered sensor is read exactly once, in registration order; an `Err` does not stop later reads; the batch is the in-order concatenation of the `Ok(Some(_))` lists |
| `Engine.TickEvents` | piweather-edge/src/engine.rs:47-62 | a tick reads each sensor once, in order, then sends exactly once |
| `Engine.SilentTickStillSends` | piweather-edge/src/engine.rs:60-62 | the transmitter is called even when the batch is empty |
| `Engine.Tick` | piweather-edge/src/engine.rs:47-62 | one tick's events and transmitter answer are those of the tick definition |
| `Engine.Run` | piweather-edge/src/engine.rs:40-76 | `Ok(())` comes only from a set flag observed at a loop head; `Err` carries exactly the error the last tick's send returned; a run still going has used every observation; it never runs more ticks than observations |
| `Engine.RunTicksOnlyWhileFlagClear` | piweather-edge/src/engine.rs:43-62 | the flag is clear before every tick that runs; every tick sent successfully except a last one whose failure ended the run |
| `Engine.RunStatusExact` | piweather-edge/src/engine.rs:43-75 | `run` fails iff the last tick's send failed, and returns `Ok(())` iff it stopped early without failing, i.e. on the flag |
| `Engine.RunTraceIsTicks` | piweather-edge/src/engine.rs:43-72 | every event belongs to a complete tick: the trace is the ticks' events back to back |
| `Engine.FlagSetBeforeFirstTick` | piweather-edge/src/engine.rs:43-75 | a flag set at the first check means no read, no send, and `Ok(())` |
| `Engine.RunEndsForGood` | piweather-edge/src/engine.rs:43-75 | once `run` has returned, by the flag or a transmitter error, later observations change nothing: no further ticks, reads or sends |
| `Engine.RunningMeansEveryTickSent` | piweather-edge/src/engine.rs:43-72 | a run still going when the script ends saw no flag and had every send succeed |
| `Engine.RunUnfold` | piweather-edge/src/engine.rs:43-72 | one loop iteration with the flag clear: a failed send ends the run after this tick, a successful one continues it |
| `Engine.RunLoop` | piweather-edge/src/engine.rs:40-76 | the imperative flag-check, tick, send loop computes the same status, tick count and event trace as `Run` |

## Left out

- Bytes.WrappingAdd: models release-build `u16` addition, which wraps. A debug build panics on overflow instead; that panic is not modelled, because the 30-byte checksum sum is at most 7650 (`Bytes.ChecksumNeverWraps`), so it never happens.
- Build status of the PMSA003 driver: piweather-agent/src/sensors/mod.rs:1 declares only `mod am2315;`. The driver's `Sensor<D, 12>` impl (pmsa003.rs:152) does not match the `Sensor<T>` trait at sensors/mod.rs:5-10. `Particle`, imported at pmsa003.rs:5, is not re-exported by piweather-common/src/lib.rs:5. So pmsa003.rs and its unit test sit outside the crate's module tree and are not compiled as the tree stands. The model follows the file's text as written.
- Unit-conversion formulas: `(t - 32) / 1.8` and `t * 1.8 + 32` are floating-point arithmetic. `f32` values stay opaque bit patterns and the formulas are parameters.
- `Modalities.ToCelsius`, `Modalities.ToFahrenheit`: the identities are structural, meaning the same bits come back. Rust's `PartialEq` on `f32` would still call `Celsius(NaN) == Celsius(NaN)` false.
- `impl From<PmsA003Readout> for Modality` calls itself through `value.into()`, which is unbounded recursion. So `PmsA003::probe`, which maps readouts through it, has no faithful meaning and is not modelled. Only `read` is.
- `PmsA003::with_i2c_factory` and the I2C device factory open an OS device. That is I/O, so it is not modelled. The slave address `0x12` is recorded as a constant only.
- The engine's timing (the busy-wait on `yield_now`, `sleep`, `Instant`) is not modelled. Neither is the `Arc<AtomicBool>` sharing: the flag is one boolean observed per loop head.
- `Engine.Run`: the source loop may run forever. The model runs over a finite script of observations and reports `Running` when the script ends.
- The engine's interval is held as a plain number and never used: the busy-wait and `sleep` between ticks (engine.rs:64-71) are timing only. The `terminated` flag and the transmitter are not engine state here; each tick's `Observation` supplies the flag read and the `send` answer. Logging (`tracing` macros, the `Debug`/`Display` impls) is not modelled, and the HTTP transmitter's wire behaviour comes down to its `send` answer.
- `DummySensor` (random values), `Readout::now`, `Payload::now` (the Unix epoch via `DateTime::default()`) and `PiWeatherSensor` dispatch are not modelled. Readouts are an opaque type parameter of the engine.
- The AM2315 driver is a non-compiling stub with no decoding logic, and there is no caching/debounce policy in the code. Neither is modelled.
- `ArrayVisitor::expecting` (an error message) and `Deserialize::deserialize`, which only hands the visitor to `deserialize_tuple`, are not modelled. The `unsafe` cast that reinterprets the filled buffer as the array is modelled as returning the consumed elements.
- The `Wind`, `Pressure`, `Humidity` and `AirQuality` modalities appear only as data.
- The HTTP server, the CLI entry points and the signal-hook setup are process plumbing and are not modelled.
