/**
 * The DMP writer (`src/gstdmpenc.c`): every pulse becomes a chain of
 * little-endian fields of `bytes_per_sample` bytes, one field equal to the
 * overflow value 2^bits - 1 for every whole overflow the pulse holds and
 * then the remainder, which is always below the overflow value. Fields go
 * into output buffers that are pushed as soon as one more field would take
 * them past 128 bytes. A 20-byte "DC2N-TAP-RAW" header goes first, once.
 */
module DmpEnc {
  import opened Bytes
  import TapFileEnc

  const HEADER_SIZE: nat := 20
  const OUTPUT_SIZE: nat := 128

  /** "DC2N-TAP-RAW" */
  const DMP_SIGNATURE: seq<uint8> := [0x44, 0x43, 0x32, 0x4E, 0x2D, 0x54, 0x41, 0x50, 0x2D, 0x52, 0x41, 0x57]

  function Pow2(n: nat): (r: nat)
    ensures r >= 1
  {
    if n == 0 then 1 else 2 * Pow2(n - 1)
  }

  lemma {:induction false} Pow2Add(a: nat, b: nat)
    ensures Pow2(a + b) == Pow2(a) * Pow2(b)
    decreases b
  {
    if b > 0 {
      Pow2Add(a, b - 1);
      assert Pow2(a + b) == 2 * Pow2(a + b - 1);
    }
  }

  lemma {:induction false} Pow2Bytes(m: nat)
    ensures Pow2(8 * m) == Pow256(m)
  {
    if m > 0 {
      Pow2Bytes(m - 1);
      Pow2Add(8 * (m - 1), 8);
      assert Pow2(8) == 256 by {
        assert Pow2(1) == 2 && Pow2(2) == 4 && Pow2(3) == 8 && Pow2(4) == 16;
        assert Pow2(5) == 32 && Pow2(6) == 64 && Pow2(7) == 128;
      }
    }
  }

  lemma {:induction false} Pow2Mono(a: nat, b: nat)
    requires a <= b
    ensures Pow2(a) <= Pow2(b)
  {
    Pow2Add(a, b - a);
  }

  /** The bytes of one field: the bits rounded up to whole bytes. */
  function BytesPerSample(bits: nat): nat
  {
    (bits + 7) / 8
  }

  /** The largest value a field of `bits` bits holds, which marks an overflow field. */
  function Overflow(bits: nat): (r: nat)
    ensures bits >= 1 ==> r >= 1
  {
    Pow2(bits) - 1
  }

  /**
   * For 1 to 31 bits a field takes 1 to 4 bytes, and the overflow value is
   * at least 1, fits in the field and fits in 32 bits.
   */
  lemma OverflowFits(bits: nat)
    requires 1 <= bits <= 31
    ensures 1 <= BytesPerSample(bits) <= 4
    ensures 1 <= Overflow(bits) < Pow256(BytesPerSample(bits))
    ensures Overflow(bits) < TWO_TO_THE_32
  {
    var bps := BytesPerSample(bits);
    Pow2Mono(bits, 8 * bps);
    Pow2Bytes(bps);
    Pow2Mono(8 * bps, 32);
    Pow2Bytes(4);
    Pow256Four();
  }

  function Header(machine: uint8, video: uint8, bits: uint8, rate: uint32): seq<uint8>
  {
    DMP_SIGNATURE + [0, machine, video, bits] + Le(rate, 4)
  }

  /**
   * The header is 20 bytes: the signature, format version 0, the machine,
   * video and bits settings, and the rate as a 32-bit field that reads back
   * unchanged.
   */
  lemma HeaderLayout(machine: uint8, video: uint8, bits: uint8, rate: uint32)
    ensures var h := Header(machine, video, bits, rate);
      && |h| == HEADER_SIZE
      && h[..12] == DMP_SIGNATURE
      && h[12] == 0 && h[13] == machine && h[14] == video && h[15] == bits
      && FromLe(h[16..20]) == rate
  {
    var h := Header(machine, video, bits, rate);
    FromLeLe(rate, 4);
    assert h[16..20] == Le(rate, 4);
  }

  /** Fills a 20-byte header buffer field by field. */
  method WriteHeader(machine: uint8, video: uint8, bits: uint8, rate: uint32) returns (h: seq<uint8>)
    ensures h == Header(machine, video, bits, rate)
  {
    var buf := new uint8[HEADER_SIZE];
    CopyInto(buf, 0, DMP_SIGNATURE);
    CopyInto(buf, 12, [0, machine, video, bits]);
    CopyInto(buf, 16, Le(rate, 4));
    h := buf[..];
  }

  /** The field values a pulse is written as, in order: the subtract loop of the chain function. */
  function Fields(overflow: nat, pulse: nat): seq<nat>
    requires overflow >= 1
    decreases pulse
  {
    if pulse >= overflow then [overflow] + Fields(overflow, pulse - overflow) else [pulse]
  }

  function Sum(s: seq<nat>): nat
  {
    if s == [] then 0 else s[0] + Sum(s[1..])
  }

  /** k overflow fields and then r, for a remainder r below the overflow value. */
  lemma {:induction false} FieldsChunks(overflow: nat, k: nat, r: nat)
    requires overflow >= 1 && r < overflow
    ensures Fields(overflow, k * overflow + r) == Repeat([overflow], k) + [r]
  {
    if k > 0 {
      assert k * overflow + r - overflow == (k - 1) * overflow + r;
      FieldsChunks(overflow, k - 1, r);
    }
  }

  /** The fields add up to the pulse, every one but the last equals the overflow value and the last is below it. */
  lemma {:induction false} FieldsSum(overflow: nat, pulse: nat)
    requires overflow >= 1
    ensures var f := Fields(overflow, pulse);
      && Sum(f) == pulse
      && f[|f| - 1] < overflow
      && forall i :: 0 <= i < |f| - 1 ==> f[i] == overflow
    decreases pulse
  {
    var f := Fields(overflow, pulse);
    if pulse >= overflow {
      var g := Fields(overflow, pulse - overflow);
      FieldsSum(overflow, pulse - overflow);
      assert f[1..] == g;
      assert forall i :: 1 <= i < |f| ==> f[i] == g[i - 1];
    }
  }

  /** A pulse is pulse / overflow overflow fields followed by one field pulse % overflow. */
  lemma FieldsShape(overflow: nat, pulse: nat)
    requires overflow >= 1
    ensures Fields(overflow, pulse) == Repeat([overflow], pulse / overflow) + [pulse % overflow]
  {
    var k, r := pulse / overflow, pulse % overflow;
    assert pulse == k * overflow + r;
    FieldsChunks(overflow, k, r);
  }

  /** Fields written back to back, each as `bps` little-endian bytes. */
  function FieldBytes(bps: nat, fields: seq<nat>): (r: seq<uint8>)
  {
    if fields == [] then [] else Le(fields[0], bps) + FieldBytes(bps, fields[1..])
  }

  /** The bytes a pulse contributes to the file, buffers aside. */
  function PulseBytes(bits: nat, pulse: nat): seq<uint8>
    requires bits >= 1
  {
    FieldBytes(BytesPerSample(bits), Fields(Overflow(bits), pulse))
  }

  function PulsesBytes(bits: nat, pulses: seq<uint32>): seq<uint8>
    requires bits >= 1
  {
    if pulses == [] then [] else PulseBytes(bits, pulses[0]) + PulsesBytes(bits, pulses[1..])
  }

  /** The output side of a chain call: the buffers already handed on and the bytes of the open one. */
  datatype Packing = Packing(done: seq<seq<uint8>>, cur: seq<uint8>)

  /** One field, written first and then, if another would not fit in 128 bytes, handed on with its buffer. */
  function PutField(bps: nat, p: Packing, field: nat): Packing
  {
    var c := p.cur + Le(field, bps);
    if |c| + bps > OUTPUT_SIZE then Packing(p.done + [c], []) else Packing(p.done, c)
  }

  /** One pulse, field by field, as the subtract loop writes it. */
  function PutPulse(bps: nat, overflow: nat, p: Packing, pulse: nat): Packing
    requires overflow >= 1
    decreases pulse
  {
    if pulse >= overflow then PutPulse(bps, overflow, PutField(bps, p, overflow), pulse - overflow)
    else PutField(bps, p, pulse)
  }

  function PutPulses(bps: nat, overflow: nat, p: Packing, pulses: seq<uint32>): Packing
    requires overflow >= 1
    decreases |pulses|
  {
    if pulses == [] then p else PutPulses(bps, overflow, PutPulse(bps, overflow, p, pulses[0]), pulses[1..])
  }

  /** The last buffer is pushed only when it holds something. */
  function Finish(p: Packing): seq<seq<uint8>>
  {
    p.done + (if |p.cur| > 0 then [p.cur] else [])
  }

  /** The data buffers one chain call pushes. */
  function ChainBuffers(bits: nat, pulses: seq<uint32>): seq<seq<uint8>>
    requires bits >= 1
  {
    Finish(PutPulses(BytesPerSample(bits), Overflow(bits), Packing([], []), pulses))
  }

  function Flat(p: Packing): seq<uint8>
  {
    Concat(p.done) + p.cur
  }

  lemma PutFieldFlat(bps: nat, p: Packing, field: nat)
    ensures Flat(PutField(bps, p, field)) == Flat(p) + Le(field, bps)
  {
    var c := p.cur + Le(field, bps);
    if |c| + bps > OUTPUT_SIZE {
      ConcatAppend(p.done, c);
    }
  }

  lemma {:induction false} PutPulseFlat(bps: nat, ov: nat, p: Packing, pulse: nat)
    requires ov >= 1
    ensures Flat(PutPulse(bps, ov, p, pulse)) == Flat(p) + FieldBytes(bps, Fields(ov, pulse))
    decreases pulse
  {
    if pulse >= ov {
      PutFieldFlat(bps, p, ov);
      PutPulseFlat(bps, ov, PutField(bps, p, ov), pulse - ov);
      var f := Fields(ov, pulse);
      assert f[0] == ov && f[1..] == Fields(ov, pulse - ov);
      AppendAssoc(Flat(p), Le(ov, bps), FieldBytes(bps, Fields(ov, pulse - ov)));
    } else {
      PutFieldFlat(bps, p, pulse);
    }
  }

  lemma {:induction false} PutPulsesFlat(bits: nat, p: Packing, pulses: seq<uint32>)
    requires bits >= 1
    ensures Flat(PutPulses(BytesPerSample(bits), Overflow(bits), p, pulses)) == Flat(p) + PulsesBytes(bits, pulses)
    decreases |pulses|
  {
    if pulses != [] {
      var bps, ov := BytesPerSample(bits), Overflow(bits);
      PutPulseFlat(bps, ov, p, pulses[0]);
      PutPulsesFlat(bits, PutPulse(bps, ov, p, pulses[0]), pulses[1..]);
      AppendAssoc(Flat(p), PulseBytes(bits, pulses[0]), PulsesBytes(bits, pulses[1..]));
    }
  }

  /**
   * The open buffer always has room for one more field, and every buffer
   * handed on holds more than 128 - bps and at most 128 bytes.
   */
  ghost predicate Fits(bps: nat, p: Packing)
  {
    && |p.cur| + bps <= OUTPUT_SIZE
    && forall i :: 0 <= i < |p.done| ==> OUTPUT_SIZE - bps < |p.done[i]| <= OUTPUT_SIZE
  }

  lemma PutFieldFits(bps: nat, p: Packing, field: nat)
    requires Fits(bps, p)
    ensures Fits(bps, PutField(bps, p, field))
  {
    var q := PutField(bps, p, field);
    var c := p.cur + Le(field, bps);
    if |c| + bps > OUTPUT_SIZE {
      assert forall i :: 0 <= i < |q.done| ==> q.done[i] == if i < |p.done| then p.done[i] else c;
    }
  }

  lemma {:induction false} PutPulseFits(bps: nat, ov: nat, p: Packing, pulse: nat)
    requires ov >= 1 && Fits(bps, p)
    ensures Fits(bps, PutPulse(bps, ov, p, pulse))
    decreases pulse
  {
    if pulse >= ov {
      PutFieldFits(bps, p, ov);
      PutPulseFits(bps, ov, PutField(bps, p, ov), pulse - ov);
    } else {
      PutFieldFits(bps, p, pulse);
    }
  }

  lemma {:induction false} PutPulsesFits(bps: nat, ov: nat, p: Packing, pulses: seq<uint32>)
    requires ov >= 1 && Fits(bps, p)
    ensures Fits(bps, PutPulses(bps, ov, p, pulses))
    decreases |pulses|
  {
    if pulses != [] {
      PutPulseFits(bps, ov, p, pulses[0]);
      PutPulsesFits(bps, ov, PutPulse(bps, ov, p, pulses[0]), pulses[1..]);
    }
  }

  /** Closing a packing that fits: the buffers laid end to end are its bytes, and none is empty or over 128 bytes. */
  lemma FinishFits(bps: nat, p: Packing)
    requires 1 <= bps <= 4 && Fits(bps, p)
    ensures var bufs := Finish(p);
      && Concat(bufs) == Flat(p)
      && (forall i :: 0 <= i < |bufs| ==> 0 < |bufs[i]| <= OUTPUT_SIZE)
      && (forall i :: 0 <= i < |bufs| - 1 ==> OUTPUT_SIZE - bps < |bufs[i]|)
  {
    if |p.cur| > 0 {
      ConcatAppend(p.done, p.cur);
    } else {
      assert p.cur == [] && Finish(p) == p.done;
    }
  }

  /**
   * The buffers of a chain call, laid end to end, are the fields of its
   * pulses; none is empty, none holds more than 128 bytes, and every one
   * but the last holds more than 128 - bps.
   */
  lemma ChainBuffersShape(bits: nat, pulses: seq<uint32>)
    requires 1 <= bits <= 31
    ensures var bufs := ChainBuffers(bits, pulses);
      && Concat(bufs) == PulsesBytes(bits, pulses)
      && (forall i :: 0 <= i < |bufs| ==> 0 < |bufs[i]| <= OUTPUT_SIZE)
      && (forall i :: 0 <= i < |bufs| - 1 ==> OUTPUT_SIZE - BytesPerSample(bits) < |bufs[i]|)
  {
    OverflowFits(bits);
    var bps, ov, p0 := BytesPerSample(bits), Overflow(bits), Packing([], []);
    PutPulsesFits(bps, ov, p0, pulses);
    PutPulsesFlat(bits, p0, pulses);
    FinishFits(bps, PutPulses(bps, ov, p0, pulses));
  }

  /** A caps rate (a C `gint`) stored into the writer's 32-bit rate. */
  function RateOf(samplerate: int): (r: uint32)
    requires -0x8000_0000 <= samplerate < 0x8000_0000
    ensures samplerate >= 0 ==> r == samplerate
    ensures samplerate < 0 ==> r == samplerate + TWO_TO_THE_32
  {
    samplerate % TWO_TO_THE_32
  }

  class DmpEnc {
    var machine: uint8
    var video: uint8
    var bits: uint8
    var rate: uint32
    var sentHeader: bool
    /** The buffers pushed on the source pad, in order. */
    var pushed: seq<TapFileEnc.Pushed>

    /** Something has been pushed exactly when the header has. */
    ghost predicate Valid()
      reads this
    {
      && 1 <= bits <= 31
      && (sentHeader <==> pushed != [])
      && (sentHeader ==> pushed[0].HeaderBuffer?)
    }

    constructor (machine: uint8, video: uint8, bits: uint8)
      requires 1 <= bits <= 31
      ensures Valid()
      ensures this.machine == machine && this.video == video && this.bits == bits
      ensures rate == 0 && !sentHeader && pushed == []
    {
      this.machine := machine;
      this.video := video;
      this.bits := bits;
      rate := 0;
      sentHeader := false;
      pushed := [];
    }

    /** The caps handler: takes the rate when the caps carry one, and refuses them otherwise. */
    method SetCaps(samplerate: Option<int>) returns (ok: bool)
      requires samplerate.Some? ==> -0x8000_0000 <= samplerate.value < 0x8000_0000
      requires Valid()
      modifies this`rate
      ensures Valid()
      ensures ok == samplerate.Some?
      ensures rate == if ok then RateOf(samplerate.value) else old(rate)
    {
      ok := samplerate.Some?;
      if ok {
        rate := RateOf(samplerate.value);
      }
    }

    /** Pushes one data buffer. */
    method PushBuffer(b: seq<uint8>)
      requires Valid() && sentHeader
      modifies this`pushed
      ensures Valid()
      ensures pushed == old(pushed) + [TapFileEnc.DataBuffer(b)]
    {
      pushed := pushed + [TapFileEnc.DataBuffer(b)];
    }

    /**
     * Writes one field at the end of the open buffer; when another field
     * would then take it past 128 bytes, pushes it and opens a new one.
     */
    method AddPulseToOutbuf(ghost base: seq<TapFileEnc.Pushed>, ghost done: seq<seq<uint8>>,
                            out: array<uint8>, size: nat, field: nat, bps: nat)
      returns (ghost ndone: seq<seq<uint8>>, nout: array<uint8>, nsize: nat)
      requires Valid() && sentHeader && pushed == base + TapFileEnc.AsData(done)
      requires bps >= 1 && out.Length == OUTPUT_SIZE * bps && size + bps <= OUTPUT_SIZE
      modifies this`pushed, out
      ensures Valid() && pushed == base + TapFileEnc.AsData(ndone)
      ensures nout.Length == OUTPUT_SIZE * bps && nsize + bps <= OUTPUT_SIZE
      ensures nout == out || fresh(nout)
      ensures Packing(ndone, nout[..nsize]) == PutField(bps, Packing(done, old(out[..size])), field)
    {
      CopyInto(out, size, Le(field, bps));
      ndone, nout, nsize := done, out, size + bps;
      if nsize + bps > OUTPUT_SIZE {
        ghost var full := out[..nsize];
        PushBuffer(out[..nsize]);
        TapFileEnc.AsDataAppend(done, full);
        ndone := done + [full];
        nout := new uint8[OUTPUT_SIZE * bps];
        nsize := 0;
      }
    }

    /** The end of a chain call: the open buffer is pushed when it holds anything. */
    method PushLast(ghost base: seq<TapFileEnc.Pushed>, ghost done: seq<seq<uint8>>, out: array<uint8>, size: nat)
      requires Valid() && sentHeader && pushed == base + TapFileEnc.AsData(done)
      requires size <= out.Length
      modifies this`pushed
      ensures Valid() && pushed == base + TapFileEnc.AsData(Finish(Packing(done, out[..size])))
    {
      if size > 0 {
        ghost var last := out[..size];
        PushBuffer(out[..size]);
        TapFileEnc.AsDataAppend(done, last);
      } else {
        assert Finish(Packing(done, out[..size])) == done;
      }
    }

    /** Sends the header, built from the current settings, unless it has been sent. */
    method SendHeaderOnce()
      requires Valid()
      modifies this`pushed, this`sentHeader
      ensures Valid() && sentHeader
      ensures pushed == old(pushed)
                        + (if old(sentHeader) then [] else [TapFileEnc.HeaderBuffer(Header(machine, video, bits, rate))])
    {
      if !sentHeader {
        var h := WriteHeader(machine, video, bits, rate);
        pushed := pushed + [TapFileEnc.HeaderBuffer(h)];
        sentHeader := true;
      }
    }

    /** One pulse: an overflow field for every whole overflow it holds, then the remainder. */
    method AddPulseFields(ghost base: seq<TapFileEnc.Pushed>, ghost done: seq<seq<uint8>>,
                          out: array<uint8>, size: nat, pulse: uint32, bps: nat, overflow: nat)
      returns (ghost ndone: seq<seq<uint8>>, nout: array<uint8>, nsize: nat)
      requires Valid() && sentHeader && pushed == base + TapFileEnc.AsData(done)
      requires bps >= 1 && out.Length == OUTPUT_SIZE * bps && size + bps <= OUTPUT_SIZE && overflow >= 1
      modifies this`pushed, out
      ensures Valid() && pushed == base + TapFileEnc.AsData(ndone)
      ensures nout.Length == OUTPUT_SIZE * bps && nsize + bps <= OUTPUT_SIZE
      ensures nout == out || fresh(nout)
      ensures Packing(ndone, nout[..nsize]) == PutPulse(bps, overflow, Packing(done, old(out[..size])), pulse)
    {
      ghost var target := PutPulse(bps, overflow, Packing(done, out[..size]), pulse);
      ndone, nout, nsize := done, out, size;
      var rest: nat := pulse;
      while rest >= overflow
        invariant Valid() && sentHeader && pushed == base + TapFileEnc.AsData(ndone)
        invariant nout.Length == OUTPUT_SIZE * bps && nsize + bps <= OUTPUT_SIZE
        invariant nout == out || fresh(nout)
        invariant PutPulse(bps, overflow, Packing(ndone, nout[..nsize]), rest) == target
      {
        ndone, nout, nsize := AddPulseToOutbuf(base, ndone, nout, nsize, overflow, bps);
        rest := rest - overflow;
      }
      ndone, nout, nsize := AddPulseToOutbuf(base, ndone, nout, nsize, rest, bps);
    }

    /**
     * The chain function: the header before the first data, then every
     * pulse field by field, and at the end the open buffer if it holds
     * anything.
     */
    method Chain(data: seq<uint32>)
      requires Valid()
      modifies this`pushed, this`sentHeader
      ensures Valid() && sentHeader
      ensures pushed == old(pushed)
                        + (if old(sentHeader) then [] else [TapFileEnc.HeaderBuffer(Header(machine, video, bits, rate))])
                        + TapFileEnc.AsData(ChainBuffers(bits, data))
    {
      SendHeaderOnce();
      var bps := (bits + 7) / 8;
      var overflow := Overflow(bits);
      var out := new uint8[OUTPUT_SIZE * bps];
      var size: nat := 0;
      ghost var base := pushed;
      ghost var done: seq<seq<uint8>> := [];
      var i := 0;
      while i < |data|
        invariant 0 <= i <= |data|
        invariant Valid() && sentHeader && pushed == base + TapFileEnc.AsData(done)
        invariant fresh(out) && out.Length == OUTPUT_SIZE * bps && size + bps <= OUTPUT_SIZE
        invariant PutPulses(bps, overflow, Packing(done, out[..size]), data[i..])
                  == PutPulses(bps, overflow, Packing([], []), data)
      {
        assert data[i..][1..] == data[i + 1..];
        done, out, size := AddPulseFields(base, done, out, size, data[i], bps, overflow);
        i := i + 1;
      }
      assert data[i..] == [];
      PushLast(base, done, out, size);
    }
  }
}
