/**
 * What the DMP writer and the DMP reader promise each other: the header
 * the writer makes is accepted with the writer's rate, and the data
 * buffers of a chain call, taken together, decode to the pulses written.
 */
module DmpRoundTrips {
  import opened Bytes
  import DmpEnc
  import DmpDec

  /**
   * The field values `f` are found one after another from byte `at`, each
   * `bps` bytes wide, and the last of them ends at byte `end`.
   */
  ghost predicate FieldsAt(bps: nat, s: seq<uint8>, at: nat, end: nat, f: seq<nat>)
    decreases |f|
  {
    if f == [] then at == end
    else at + bps <= end <= |s| && FieldAt(s, at, bps) == f[0] && FieldsAt(bps, s, at + bps, end, f[1..])
  }

  /** Field values written as `bps` little-endian bytes each are found there as fields. */
  lemma {:induction false} FieldsAtBytes(bps: nat, s: seq<uint8>, at: nat, f: seq<nat>)
    requires forall i :: 0 <= i < |f| ==> f[i] < Pow256(bps)
    requires at + |DmpEnc.FieldBytes(bps, f)| <= |s|
    requires s[at..at + |DmpEnc.FieldBytes(bps, f)|] == DmpEnc.FieldBytes(bps, f)
    ensures FieldsAt(bps, s, at, at + |DmpEnc.FieldBytes(bps, f)|, f)
    decreases |f|
  {
    if f != [] {
      var rest := DmpEnc.FieldBytes(bps, f[1..]);
      assert DmpEnc.FieldBytes(bps, f) == Le(f[0], bps) + rest;
      SliceSplit(s, at, Le(f[0], bps), rest);
      FieldAtLe(s, at, bps, f[0]);
      FieldsAtBytes(bps, s, at + bps, f[1..]);
    }
  }

  /** Every field of a pulse is at most the overflow value. */
  lemma {:induction false} FieldsAtMost(ov: nat, pulse: nat)
    requires ov >= 1
    ensures forall i :: 0 <= i < |DmpEnc.Fields(ov, pulse)| ==> DmpEnc.Fields(ov, pulse)[i] <= ov
    decreases pulse
  {
    if pulse >= ov {
      FieldsAtMost(ov, pulse - ov);
      assert DmpEnc.Fields(ov, pulse)[1..] == DmpEnc.Fields(ov, pulse - ov);
    }
  }

  /**
   * The fields of one pulse, found from byte `at`, are read back as that
   * pulse added to what came before it: the overflow fields carry the
   * pulse on and the final field, below the overflow value, ends it.
   */
  lemma {:induction false} ScanPulse(bps: nat, ov: nat, s: seq<uint8>, at: nat, end: nat, acc: uint32, pulse: nat)
    requires 1 <= bps && 1 <= ov
    requires FieldsAt(bps, s, at, end, DmpEnc.Fields(ov, pulse))
    ensures DmpDec.Scan(bps, ov, s, at, acc) == Some((U32(acc + pulse), end))
    decreases pulse
  {
    var f := DmpEnc.Fields(ov, pulse);
    if pulse >= ov {
      assert f[1..] == DmpEnc.Fields(ov, pulse - ov);
      ScanPulse(bps, ov, s, at + bps, end, U32(acc + ov), pulse - ov);
      U32Carry(acc, ov, pulse);
    } else {
      assert f[1..] == [];
    }
  }

  /** A pulse's fields, read from the start of a pulse, give back the pulse. */
  lemma ScanWhole(bps: nat, ov: nat, s: seq<uint8>, at: nat, end: nat, pulse: uint32)
    requires 1 <= bps && 1 <= ov
    requires FieldsAt(bps, s, at, end, DmpEnc.Fields(ov, pulse))
    ensures DmpDec.Scan(bps, ov, s, at, 0) == Some((pulse, end))
  {
    ScanPulse(bps, ov, s, at, end, 0, pulse);
    assert U32(0 + pulse) == pulse;
  }

  /** The fields of a pulse are none of them above the overflow value. */
  lemma {:induction false} NoneOverPulse(bps: nat, ov: nat, s: seq<uint8>, at: nat, end: nat, pulse: nat)
    requires 1 <= bps && 1 <= ov
    requires FieldsAt(bps, s, at, end, DmpEnc.Fields(ov, pulse))
    requires !DmpDec.AnyOverFrom(bps, ov, s, end)
    ensures !DmpDec.AnyOverFrom(bps, ov, s, at)
    decreases pulse
  {
    var f := DmpEnc.Fields(ov, pulse);
    if pulse >= ov {
      assert f[1..] == DmpEnc.Fields(ov, pulse - ov);
      NoneOverPulse(bps, ov, s, at + bps, end, pulse - ov);
    } else {
      assert f[1..] == [];
    }
  }

  /**
   * The bytes of the first of the pulses, found at `at`, are its fields
   * and are read back as that pulse, and the bytes of the others follow.
   */
  lemma FirstPulse(bits: nat, s: seq<uint8>, at: nat, pulses: seq<uint32>)
    requires 1 <= bits <= 31 && at <= |s| && pulses != []
    requires s[at..] == DmpEnc.PulsesBytes(bits, pulses)
    ensures var bps, ov := DmpEnc.BytesPerSample(bits), DmpEnc.Overflow(bits);
      var end := at + |DmpEnc.PulseBytes(bits, pulses[0])|;
      && end <= |s|
      && s[end..] == DmpEnc.PulsesBytes(bits, pulses[1..])
      && FieldsAt(bps, s, at, end, DmpEnc.Fields(ov, pulses[0]))
      && DmpDec.Scan(bps, ov, s, at, 0) == Some((pulses[0], end))
  {
    var bps, ov := DmpEnc.BytesPerSample(bits), DmpEnc.Overflow(bits);
    DmpEnc.OverflowFits(bits);
    var first := DmpEnc.FieldBytes(bps, DmpEnc.Fields(ov, pulses[0]));
    var end := at + |first|;
    SuffixSplit(s, at, first, DmpEnc.PulsesBytes(bits, pulses[1..]));
    FieldsAtMost(ov, pulses[0]);
    FieldsAtBytes(bps, s, at, DmpEnc.Fields(ov, pulses[0]));
    ScanWhole(bps, ov, s, at, end, pulses[0]);
  }

  /**
   * The bytes the writer makes of a list of pulses, found from byte `at`
   * to the end, decode to exactly those pulses, use up every byte and hold
   * no field above the overflow value.
   */
  lemma {:induction false} DecodePulses(bits: nat, s: seq<uint8>, at: nat, pulses: seq<uint32>)
    requires 1 <= bits <= 31 && at <= |s|
    requires s[at..] == DmpEnc.PulsesBytes(bits, pulses)
    ensures var bps, ov := DmpEnc.BytesPerSample(bits), DmpEnc.Overflow(bits);
      && DmpDec.DecodeFrom(bps, ov, s, at) == (pulses, |s|)
      && !DmpDec.AnyOverFrom(bps, ov, s, at)
    decreases |pulses|
  {
    if pulses == [] {
      assert at == |s|;
    } else {
      var end := at + |DmpEnc.PulseBytes(bits, pulses[0])|;
      FirstPulse(bits, s, at, pulses);
      DecodePulses(bits, s, end, pulses[1..]);
      NoneOverPulse(DmpEnc.BytesPerSample(bits), DmpEnc.Overflow(bits), s, at, end, pulses[0]);
      assert [pulses[0]] + pulses[1..] == pulses;
    }
  }

  /** A rate taken from the caps reads back from the header as the same rate. */
  lemma Rate(samplerate: int)
    requires -0x8000_0000 <= samplerate < 0x8000_0000
    ensures DmpDec.Int32(DmpEnc.RateOf(samplerate)) == samplerate
  {
  }

  /**
   * The file the DMP writer makes, its header and then every data buffer
   * one chain call pushes, read back by the DMP reader: the header is
   * accepted with the writer's rate, the field width is the writer's, and
   * the data decodes to the pulses written, with nothing left over and no
   * field above the overflow value.
   */
  lemma RoundTrip(machine: uint8, video: uint8, bits: uint8, rate: uint32, pulses: seq<uint32>)
    requires 1 <= bits <= 31
    ensures var a := DmpEnc.Header(machine, video, bits, rate) + Concat(DmpEnc.ChainBuffers(bits, pulses));
      var bps, ov := DmpEnc.BytesPerSample(bits), DmpEnc.Overflow(bits);
      && |a| >= DmpDec.HEADER_SIZE && a[15] == bits
      && DmpDec.ParseHeader(a[..DmpDec.HEADER_SIZE]) == Some(DmpDec.Int32(rate))
      && DmpDec.Decode(bps, ov, a[DmpDec.HEADER_SIZE..]) == (pulses, |a| - DmpDec.HEADER_SIZE)
      && !DmpDec.AnyOver(bps, ov, a[DmpDec.HEADER_SIZE..])
  {
    var h := DmpEnc.Header(machine, video, bits, rate);
    var body := Concat(DmpEnc.ChainBuffers(bits, pulses));
    var a := h + body;
    DmpEnc.HeaderLayout(machine, video, bits, rate);
    DmpEnc.ChainBuffersShape(bits, pulses);
    assert a[..DmpDec.HEADER_SIZE] == h;
    assert a[DmpDec.HEADER_SIZE..] == body;
    assert a[15] == h[15];
    assert body[0..] == DmpEnc.PulsesBytes(bits, pulses);
    DecodePulses(bits, body, 0, pulses);
  }
}
