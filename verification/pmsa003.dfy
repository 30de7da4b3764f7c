/** The PMSA003 particulate sensor driver's frame decoder (`PmsA003::read`).
    The sensor answers an I2C read with a fixed 32-byte frame:

      bytes 0..1    magic header 'B', 'M'
      bytes 2..3    big-endian frame length, always 28
      bytes 4..15   six big-endian concentrations (PM1.0, PM2.5, PM10; standard, then environmental)
      bytes 16..27  six big-endian particle counts (PM0.3, PM0.5, PM1.0, PM2.5, PM5.0, PM10)
      bytes 28..29  reserved: part of the checksum, never of a readout
      bytes 30..31  big-endian checksum: the sum of bytes 0..29

    The device read itself is I/O; it enters the model as a `DeviceRead`. */
module PmsA003 {
  import opened Wrappers
  import opened Bytes
  import Modalities

  const FRAME_SIZE: nat := 32
  const HEADER_B: Byte := 0x42        // 'B' as u8
  const HEADER_M: Byte := 0x4D        // 'M' as u8
  const FRAME_LENGTH: U16 := 28       // the declared length of the rest of the frame
  const CHECKSUM_OFFSET: nat := 30    // the checksum covers data[0..30]
  const READOUT_COUNT: nat := 12
  const I2C_SLAVE_ADDRESS: U16 := 0x12

  type Frame = s: seq<Byte> | |s| == FRAME_SIZE witness seq(32, _ => 0)

  /** The outcome of `self.device.read(&mut data)` on the 32-byte buffer. */
  datatype DeviceRead = ReadFailed(cause: string) | ReadFrame(data: Frame)

  /** The four `PiWeatherError::I2CError` messages `read` can return, one constructor each. */
  datatype PmsError =
    | DeviceFailure(cause: string)   // "Failed to read data from PmsA003: .."
    | InvalidHeader                  // "Invalid header received from PmsA003"
    | InvalidFrameSize               // "Invalid decoded frame size received from PmsA003"
    | InvalidChecksum                // "Invalid checksum data received from PmsA003"

  /** `PmsA003Particle`, with its explicit discriminants. */
  datatype PmsA003Particle = PM0_3 | PM0_5 | PM1_0 | PM2_5 | PM5_0 | PM10_0
  {
    /** The enum's discriminant: the particle diameter in tenths of a micrometre.
        Kept as data; neither the decoder nor the mapping below reads it. */
    function Discriminant(): nat
    {
      match this
      case PM0_3 => 3
      case PM0_5 => 5
      case PM1_0 => 10
      case PM2_5 => 25
      case PM5_0 => 50
      case PM10_0 => 100
    }
  }

  datatype ConcentrationUnit = Standard | Environmental

  datatype PmsA003Readout =
    | Concentration(particle: PmsA003Particle, unit: ConcentrationUnit, value: U16)
    | Count(particle: PmsA003Particle, value: U16)

  /** `impl From<PmsA003Particle> for Particle`. */
  function ToParticle(p: PmsA003Particle): (r: Modalities.Particle)
    ensures FromParticle(r) == p
  {
    match p
    case PM0_3 => Modalities.PM0_3
    case PM0_5 => Modalities.PM0_5
    case PM1_0 => Modalities.PM1_0
    case PM2_5 => Modalities.PM2_5
    case PM5_0 => Modalities.PM5_0
    case PM10_0 => Modalities.PM10_0
  }

  /** The inverse mapping, which the source does not define; it shows `ToParticle` is a bijection. */
  function FromParticle(q: Modalities.Particle): PmsA003Particle
  {
    match q
    case PM0_3 => PM0_3
    case PM0_5 => PM0_5
    case PM1_0 => PM1_0
    case PM2_5 => PM2_5
    case PM5_0 => PM5_0
    case PM10_0 => PM10_0
  }

  lemma ParticleMappingBijective(p: PmsA003Particle, q: Modalities.Particle)
    ensures FromParticle(ToParticle(p)) == p
    ensures ToParticle(FromParticle(q)) == q
    ensures ToParticle(p) == q <==> p == FromParticle(q)
  {
  }

  // ---------------------------------------------------------------------
  // Frame validity, stated independently of the decoder
  // ---------------------------------------------------------------------

  predicate HeaderOk(data: Frame)
  {
    data[0] == HEADER_B && data[1] == HEADER_M
  }

  predicate LengthOk(data: Frame)
  {
    FromBeBytes(data[2], data[3]) == FRAME_LENGTH
  }

  /** The mathematical sum of bytes 0..29 equals the trailing big-endian word. */
  predicate ChecksumOk(data: Frame)
  {
    Sum(data[..CHECKSUM_OFFSET]) == FromBeBytes(data[30], data[31])
  }

  predicate ValidFrame(data: Frame)
  {
    HeaderOk(data) && LengthOk(data) && ChecksumOk(data)
  }

  /** The `u16` fold of the source and the mathematical sum agree on a frame, so
      comparing either against the trailing word gives the same answer. */
  lemma ChecksumComparison(data: Frame)
    ensures FoldSum16(0, data[0..CHECKSUM_OFFSET]) == FromBeBytes(data[30], data[31]) <==> ChecksumOk(data)
  {
    ChecksumNeverWraps(data[0..CHECKSUM_OFFSET]);
  }

  /** The big-endian word in readout slot `i`: bytes 4 + 2i and 5 + 2i. */
  function Field(data: Frame, i: nat): U16
    requires i < READOUT_COUNT
  {
    FromBeBytes(data[4 + 2 * i], data[5 + 2 * i])
  }

  /** The frame layout as a table: which readout slot `i` of the result holds. */
  function SlotReadout(i: nat, value: U16): PmsA003Readout
    requires i < READOUT_COUNT
  {
    if i < 6 then
      Concentration([PM1_0, PM2_5, PM10_0][i % 3], if i < 3 then Standard else Environmental, value)
    else
      Count([PM0_3, PM0_5, PM1_0, PM2_5, PM5_0, PM10_0][i - 6], value)
  }

  // ---------------------------------------------------------------------
  // The decoder
  // ---------------------------------------------------------------------

  /** The three checks of `read`, in the source's order: header, then
      declared length, then checksum; the first that fails is reported. */
  function Validate(data: Frame): (r: Result<(), PmsError>)
    ensures r.Success? <==> ValidFrame(data)
    ensures r == Failure(InvalidHeader) <==> !HeaderOk(data)
    ensures r == Failure(InvalidFrameSize) <==> HeaderOk(data) && !LengthOk(data)
    ensures r == Failure(InvalidChecksum) <==> HeaderOk(data) && LengthOk(data) && !ChecksumOk(data)
    ensures r.Failure? ==> !r.error.DeviceFailure?
  {
    if data[0] != HEADER_B || data[1] != HEADER_M then
      Failure(InvalidHeader)
    else if FromBeBytes(data[2], data[3]) != FRAME_LENGTH then
      Failure(InvalidFrameSize)
    else
      var checksum := FromBeBytes(data[30], data[31]);
      var sum := FoldSum16(0, data[0..CHECKSUM_OFFSET]);
      ChecksumComparison(data);
      if sum != checksum then Failure(InvalidChecksum) else Success(())
  }

  /** `PmsA003::read`, given what the device read returned. The checks run in
      order: device read, header, length, checksum; only a frame that passes
      all of them yields readouts, and then always exactly twelve. */
  function Read(device: DeviceRead): (r: Result<Option<seq<PmsA003Readout>>, PmsError>)
    ensures device.ReadFailed? ==> r == Failure(DeviceFailure(device.cause))
    ensures device.ReadFrame? ==> (r.Success? <==> ValidFrame(device.data))
    ensures r == Failure(InvalidHeader) <==> device.ReadFrame? && !HeaderOk(device.data)
    ensures r == Failure(InvalidFrameSize) <==>
              device.ReadFrame? && HeaderOk(device.data) && !LengthOk(device.data)
    ensures r == Failure(InvalidChecksum) <==>
              device.ReadFrame? && HeaderOk(device.data) && LengthOk(device.data) && !ChecksumOk(device.data)
    ensures r.Success? ==> r.value.Some? && |r.value.value| == READOUT_COUNT
    ensures r.Success? ==>
              forall i :: 0 <= i < READOUT_COUNT ==> r.value.value[i] == SlotReadout(i, Field(device.data, i))
  {
    match device
    case ReadFailed(cause) => Failure(DeviceFailure(cause))
    case ReadFrame(data) =>
      match Validate(data)
      case Failure(e) => Failure(e)
      case Success(_) =>
        Success(Some([
          Concentration(PM1_0, Standard, FromBeBytes(data[4], data[5])),
            Concentration(PM2_5, Standard, FromBeBytes(data[6], data[7])),
            Concentration(PM10_0, Standard, FromBeBytes(data[8], data[9])),
            Concentration(PM1_0, Environmental, FromBeBytes(data[10], data[11])),
            Concentration(PM2_5, Environmental, FromBeBytes(data[12], data[13])),
            Concentration(PM10_0, Environmental, FromBeBytes(data[14], data[15])),
            Count(PM0_3, FromBeBytes(data[16], data[17])),
            Count(PM0_5, FromBeBytes(data[18], data[19])),
            Count(PM1_0, FromBeBytes(data[20], data[21])),
            Count(PM2_5, FromBeBytes(data[22], data[23])),
            Count(PM5_0, FromBeBytes(data[24], data[25])),
            Count(PM10_0, FromBeBytes(data[26], data[27]))
          ]))
  }

  /** The first six readouts are concentrations (standard, then environmental),
      the last six are counts; each carries the value of its own slot. */
  lemma ReadoutKinds(data: Frame)
    requires Read(ReadFrame(data)).Success?
    ensures var rs := Read(ReadFrame(data)).value.value;
      && (forall i :: 0 <= i < 3 ==> rs[i].Concentration? && rs[i].unit == Standard)
      && (forall i :: 3 <= i < 6 ==> rs[i].Concentration? && rs[i].unit == Environmental)
      && (forall i :: 6 <= i < 12 ==> rs[i].Count?)
      && (forall i :: 0 <= i < 12 ==> rs[i].value == FromBeBytes(data[4 + 2 * i], data[5 + 2 * i]))
  {
  }

  // ---------------------------------------------------------------------
  // The sensor side: building a frame, and the round trip through `Read`
  // ---------------------------------------------------------------------

  /** The 24 payload bytes carrying twelve big-endian words. */
  function FieldBytes(values: seq<U16>): (p: seq<Byte>)
    requires |values| == READOUT_COUNT
    ensures |p| == 24
  {
    seq(24, i requires 0 <= i < 24 => if i % 2 == 0 then ToBeBytes(values[i / 2]).0 else ToBeBytes(values[i / 2]).1)
  }

  /** The frame a sensor sends for twelve readout values and two reserved bytes. */
  function Encode(values: seq<U16>, reserved0: Byte, reserved1: Byte): (f: Frame)
    requires |values| == READOUT_COUNT
  {
    var body := [HEADER_B, HEADER_M] + [ToBeBytes(FRAME_LENGTH).0, ToBeBytes(FRAME_LENGTH).1]
                + FieldBytes(values) + [reserved0, reserved1];
    ChecksumNeverWraps(body);
    var checksum := ToBeBytes(Sum(body));
    body + [checksum.0, checksum.1]
  }

  /** The readout values, in slot order. */
  function Values(rs: seq<PmsA003Readout>): (vs: seq<U16>)
    ensures |vs| == |rs|
  {
    seq(|rs|, i requires 0 <= i < |rs| => rs[i].value)
  }

  lemma EncodeLayout(values: seq<U16>, reserved0: Byte, reserved1: Byte)
    requires |values| == READOUT_COUNT
    ensures var f := Encode(values, reserved0, reserved1);
      && HeaderOk(f) && LengthOk(f) && f[28] == reserved0 && f[29] == reserved1
      && (forall i :: 0 <= i < READOUT_COUNT ==> Field(f, i) == values[i])
      && Sum(f[..CHECKSUM_OFFSET]) == FromBeBytes(f[30], f[31])
  {
  }

  /** Round trip: every frame the sensor can send decodes to the twelve
      values it carries, in layout order, whatever the reserved bytes hold. */
  lemma EncodeThenRead(values: seq<U16>, reserved0: Byte, reserved1: Byte)
    requires |values| == READOUT_COUNT
    ensures Read(ReadFrame(Encode(values, reserved0, reserved1)))
            == Success(Some(seq(READOUT_COUNT, i requires 0 <= i < READOUT_COUNT => SlotReadout(i, values[i]))))
  {
    EncodeLayout(values, reserved0, reserved1);
    var r := Read(ReadFrame(Encode(values, reserved0, reserved1)));
    assert r.value.value == seq(READOUT_COUNT, i requires 0 <= i < READOUT_COUNT => SlotReadout(i, values[i]));
  }

  /** Two valid frames with the same fields and reserved bytes are the same frame. */
  lemma ValidFrameDeterminedByFields(f: Frame, g: Frame)
    requires ValidFrame(f) && ValidFrame(g)
    requires forall i :: 0 <= i < READOUT_COUNT ==> Field(f, i) == Field(g, i)
    requires f[28] == g[28] && f[29] == g[29]
    ensures f == g
  {
    FromBeBytesInjective(f[2], f[3], g[2], g[3]);
    forall k | 4 <= k < 28
      ensures f[k] == g[k]
    {
      var i := (k - 4) / 2;
      assert 0 <= i < READOUT_COUNT && (k == 4 + 2 * i || k == 5 + 2 * i);
      assert Field(f, i) == Field(g, i);
      FromBeBytesInjective(f[4 + 2 * i], f[5 + 2 * i], g[4 + 2 * i], g[5 + 2 * i]);
      assert k == 4 + 2 * i || k == 5 + 2 * i;
    }
    assert f[..CHECKSUM_OFFSET] == g[..CHECKSUM_OFFSET];
    FromBeBytesInjective(f[30], f[31], g[30], g[31]);
    assert forall k :: 0 <= k < FRAME_SIZE ==> f[k] == g[k];
  }

  /** The other direction: a frame that decodes is exactly the frame the sensor
      would build from the decoded values and the frame's own reserved bytes. */
  lemma ReadThenEncode(data: Frame)
    requires Read(ReadFrame(data)).Success?
    ensures data == Encode(Values(Read(ReadFrame(data)).value.value), data[28], data[29])
  {
    var rs := Read(ReadFrame(data)).value.value;
    var values := Values(rs);
    assert forall i :: 0 <= i < READOUT_COUNT ==> values[i] == Field(data, i);
    var f := Encode(values, data[28], data[29]);
    EncodeLayout(values, data[28], data[29]);
    ValidFrameDeterminedByFields(data, f);
  }

  /** Bytes 28 and 29 only feed the checksum: two frames that decode and agree
      on bytes 0..27 yield the same readouts. */
  lemma ReservedBytesOnlyFeedChecksum(data: Frame, data': Frame)
    requires Read(ReadFrame(data)).Success? && Read(ReadFrame(data')).Success?
    requires data[..28] == data'[..28]
    ensures Read(ReadFrame(data)) == Read(ReadFrame(data'))
  {
  }

  /** Checksum rejection: changing any one byte of 0..29 of a frame that
      decodes, while header and length stay valid, makes `Read` report a bad
      checksum, because the sum moves by a nonzero amount and cannot wrap. */
  lemma SingleByteCorruptionDetected(data: Frame, k: nat, b: Byte)
    requires Read(ReadFrame(data)).Success?
    requires k < CHECKSUM_OFFSET && b != data[k]
    requires HeaderOk(data[k := b]) && LengthOk(data[k := b])
    ensures Read(ReadFrame(data[k := b])) == Failure(InvalidChecksum)
  {
    var data' := data[k := b];
    assert data'[..CHECKSUM_OFFSET] == data[..CHECKSUM_OFFSET][k := b];
    SumUpdate(data[..CHECKSUM_OFFSET], k, b);
    assert data'[30] == data[30] && data'[31] == data[31];
  }

  /** The frame of the unit test in pmsa003.rs: 'B', 'M', 0, 28, twenty-six
      bytes of 1, then the checksum 0, 197 (66 + 77 + 28 + 26). */
  function TestFrame(): Frame
  {
    [HEADER_B, HEADER_M, 0, 28] + seq(26, _ => 1) + [0, 26 + 28 + 66 + 77]
  }

  lemma {:induction false} SumOfOnes(n: nat)
    ensures Sum(seq(n, _ => 1)) == n
  {
    if n > 0 {
      assert seq(n, _ => 1)[1..] == seq(n - 1, _ => 1);
      SumOfOnes(n - 1);
    }
  }

  /** The test vector decodes to twelve readouts of 257, with the particle and
      unit tags the test lists. */
  lemma TestVectorDecodes()
    ensures Read(ReadFrame(TestFrame())) == Success(Some([
      Concentration(PM1_0, Standard, 257),
      Concentration(PM2_5, Standard, 257),
      Concentration(PM10_0, Standard, 257),
      Concentration(PM1_0, Environmental, 257),
      Concentration(PM2_5, Environmental, 257),
      Concentration(PM10_0, Environmental, 257),
      Count(PM0_3, 257),
      Count(PM0_5, 257),
      Count(PM1_0, 257),
      Count(PM2_5, 257),
      Count(PM5_0, 257),
      Count(PM10_0, 257)
    ]))
  {
    var f := TestFrame();
    var header: seq<Byte> := [HEADER_B, HEADER_M, 0, 28];
    assert f[..CHECKSUM_OFFSET] == header + seq(26, _ => 1);
    SumConcat(header, seq(26, _ => 1));
    SumOfOnes(26);
    assert Sum(header[3..]) == 28;
    assert Sum(header[2..]) == 28 by { assert header[2..][1..] == header[3..]; }
    assert Sum(header[1..]) == 105 by { assert header[1..][1..] == header[2..]; }
    assert Sum(header) == 171;
    assert ChecksumOk(f);
    assert forall i :: 0 <= i < READOUT_COUNT ==> Field(f, i) == 257;
  }
}
