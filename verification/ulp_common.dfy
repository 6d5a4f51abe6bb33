/**
 * The sample record the low-power core hands to the main core
 * (main/ulp/common.h): a 64-bit flags word packing a 48-bit timer value
 * with the error bytes of the two sensors, the raw SHT4x sample and the
 * CO2 reading.
 */
module UlpCommon {
  const TimestampMask: bv64 := 0xFFFF_FFFF_FFFF
  const ShtShift: bv64 := 48
  const ScdShift: bv64 := 56

  /** ulp_sample_flags_from: scd4x_err in bits 56-63, sht4x_err in 48-55, the timestamp OR'ed in. */
  function FlagsFrom(timestamp: bv64, shtErr: bv8, scdErr: bv8): (flags: bv64)
    ensures timestamp <= TimestampMask ==> flags & TimestampMask == timestamp
    ensures timestamp <= TimestampMask ==> flags >> ShtShift == ((scdErr as bv64) << 8) | (shtErr as bv64)
  {
    ((scdErr as bv64) << ScdShift) | ((shtErr as bv64) << ShtShift) | timestamp
  }

  /** The low byte of a flags word, the narrowing to `uint8_t` of a return statement. */
  function Narrow(x: bv64): bv8 {
    (x & 0xFF) as bv8
  }

  /** ulp_sample_flags_timestamp as written: masks 48 bits, then returns `uint8_t`. */
  function FlagsTimestamp(flags: bv64): bv8 {
    Narrow(flags & TimestampMask)
  }

  /** The accessor the mask evidently intends: the whole 48-bit timestamp. */
  function FlagsTimestamp48(flags: bv64): (t: bv64)
    ensures t <= TimestampMask
  {
    flags & TimestampMask
  }

  /** ulp_sample_flags_sht4x */
  function FlagsSht4x(flags: bv64): bv8 {
    Narrow((flags >> ShtShift) & 0xFF)
  }

  /** ulp_sample_flags_scd4x */
  function FlagsScd4x(flags: bv64): bv8 {
    Narrow((flags >> ScdShift) & 0xFF)
  }

  /** For a timestamp that fits 48 bits the SHT4x error byte comes back out ... */
  lemma Sht4xRoundTrip(timestamp: bv64, shtErr: bv8, scdErr: bv8)
    requires timestamp <= TimestampMask
    ensures FlagsSht4x(FlagsFrom(timestamp, shtErr, scdErr)) == shtErr
  {
    ShtField(timestamp, shtErr as bv64, scdErr as bv64);
    NarrowWidened(shtErr);
  }

  /** ... and so does the SCD4x error byte. */
  lemma Scd4xRoundTrip(timestamp: bv64, shtErr: bv8, scdErr: bv8)
    requires timestamp <= TimestampMask
    ensures FlagsScd4x(FlagsFrom(timestamp, shtErr, scdErr)) == scdErr
  {
    ScdField(timestamp, shtErr as bv64, scdErr as bv64);
    NarrowWidened(scdErr);
  }

  lemma ShtField(timestamp: bv64, sht: bv64, scd: bv64)
    requires timestamp <= TimestampMask && sht <= 0xFF && scd <= 0xFF
    ensures (((scd << ScdShift) | (sht << ShtShift) | timestamp) >> ShtShift) & 0xFF == sht
  {
  }

  lemma ScdField(timestamp: bv64, sht: bv64, scd: bv64)
    requires timestamp <= TimestampMask && sht <= 0xFF && scd <= 0xFF
    ensures (((scd << ScdShift) | (sht << ShtShift) | timestamp) >> ScdShift) & 0xFF == scd
  {
  }

  lemma NarrowWidened(b: bv8)
    ensures Narrow(b as bv64) == b
  {
    assert (b as bv64) & 0xFF == b as bv64;
  }

  /** The corrected accessor returns the timestamp the flags were built from. */
  lemma Timestamp48RoundTrip(timestamp: bv64, shtErr: bv8, scdErr: bv8)
    requires timestamp <= TimestampMask
    ensures FlagsTimestamp48(FlagsFrom(timestamp, shtErr, scdErr)) == timestamp
  {
  }

  /** The accessor as written keeps only the low 8 bits: timer value 0x100 reads back as 0. */
  lemma TimestampTruncated()
    ensures FlagsTimestamp(FlagsFrom(0x100, 0, 0)) == 0
    ensures FlagsTimestamp48(FlagsFrom(0x100, 0, 0)) == 0x100
  {
    assert FlagsFrom(0x100, 0, 0) == 0x100;
    assert 0x100 & TimestampMask == 0x100;
    assert (0x100 as bv64) & 0xFF == 0;
  }

  /** A timer value of 2^48 or more lands in the error bytes: 2^48 reads as an SHT4x error of 1. */
  lemma WideTimestampCorruptsErrors()
    ensures FlagsSht4x(FlagsFrom(0x1_0000_0000_0000, 0, 0)) == 1
  {
    var flags := FlagsFrom(0x1_0000_0000_0000, 0, 0);
    assert flags == 0x1_0000_0000_0000;
    assert (flags >> ShtShift) & 0xFF == 1;
    NarrowWidened(1);
  }

  /** ulp_sample_t: packed, 14 bytes. */
  datatype Sample = Sample(flags: bv64, rawTemperature: bv16, rawHumidity: bv16, co2Ppm: bv16)

  /** The packed size of a field list: 8 + 2 + 2 + 2. */
  const SampleBytes: nat := 8 + 2 + 2 + 2
  /** ulp_sample_ringbuf_t holds 32 samples. */
  const SampleRingCapacity: nat := 32
}
