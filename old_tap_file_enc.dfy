/**
 * The first-generation TAP writer (`src/gsttapfileenc.c`): the same
 * pulse-to-record rules as the current writer, but the bytes go into
 * output buffers of at most 128 bytes, a new one opened whenever the next
 * record would not fit, and an input buffer always ends with a push of the
 * buffer still open. A pulse of exactly a multiple of the overflow value
 * ends with a 4-byte zero record in versions 1 and 2 and with nothing in
 * version 0, where every overflow is a zero byte of its own.
 */
module OldTapFileEnc {
  import opened Bytes
  import TapFileEnc

  /** The capacity of every output buffer but the first of a chain call. */
  const OUTPUT_SIZE: nat := 128

  /** "C64-FILE-RAW", the only signature this writer produces. */
  const FILE_SIGNATURE: seq<uint8> := [0x43, 0x36, 0x34, 0x2D, 0x46, 0x49, 0x4C, 0x45, 0x2D, 0x52, 0x41, 0x57]

  function Header(version: uint8, machine: uint8, video: uint8, len: uint32): seq<uint8>
  {
    FILE_SIGNATURE + [version, machine, video, 0] + Le(len, 4)
  }

  /**
   * The header is 20 bytes: the file signature whatever the machine, the
   * three settings, a zero byte, and the length as a 32-bit field that
   * reads back unchanged.
   */
  lemma HeaderLayout(version: uint8, machine: uint8, video: uint8, len: uint32)
    ensures var h := Header(version, machine, video, len);
      && |h| == TapFileEnc.HEADER_SIZE
      && h[..12] == FILE_SIGNATURE
      && h[12] == version && h[13] == machine && h[14] == video && h[15] == 0
      && FromLe(h[16..20]) == len
  {
    var h := Header(version, machine, video, len);
    FromLeLe(len, 4);
    assert h[16..20] == Le(len, 4);
  }

  /** The value subtracted from a pulse for every overflow record. */
  function Overflow(version: uint8): nat
  {
    if version != 0 then TapFileEnc.OVERFLOW_HI else TapFileEnc.OVERFLOW_LO
  }

  /** The value written for every overflow record: in version 0 a zero, which becomes the byte 0. */
  function OverflowToWrite(version: uint8): nat
  {
    if version != 0 then TapFileEnc.OVERFLOW_HI else 0
  }

  /** A zero byte and the low 24 bits of the value. */
  function FourBytes(pulse: nat): seq<uint8>
  {
    [0] + Le(pulse, 3)
  }

  /** The record written for a value: four bytes from OVERFLOW_LO up, else the value divided by 8 as one byte. */
  function PulseRecord(pulse: nat): (r: seq<uint8>)
    ensures 1 <= |r| <= 4
  {
    if pulse >= TapFileEnc.OVERFLOW_LO then FourBytes(pulse) else [(pulse / 8) % 256]
  }

  /**
   * The output side of a chain call: the buffers already handed on, the
   * bytes of the buffer still open and its capacity, and whether some
   * write went past the capacity of the buffer it went into.
   */
  datatype Packing = Packing(done: seq<seq<uint8>>, cur: seq<uint8>, cap: nat, overrun: bool)

  /** One record: a new 128-byte buffer first when the record would take the open one past 128 bytes. */
  function Put(p: Packing, rec: seq<uint8>): Packing
  {
    if |p.cur| + |rec| > OUTPUT_SIZE then Packing(p.done + [p.cur], rec, OUTPUT_SIZE, p.overrun || |rec| > OUTPUT_SIZE)
    else Packing(p.done, p.cur + rec, p.cap, p.overrun || |p.cur| + |rec| > p.cap)
  }

  /** One pulse, record by record, as the chain function's subtract loop writes it. */
  function PutPulse(version: uint8, p: Packing, pulse: nat): Packing
    decreases pulse
  {
    if pulse >= Overflow(version) then PutPulse(version, Put(p, PulseRecord(OverflowToWrite(version))), pulse - Overflow(version))
    else if pulse == 0 then (if version != 0 then Put(p, FourBytes(0)) else p)
    else Put(p, PulseRecord(pulse))
  }

  function PutPulses(version: uint8, p: Packing, pulses: seq<uint32>): Packing
    decreases |pulses|
  {
    if pulses == [] then p else PutPulses(version, PutPulse(version, p, pulses[0]), pulses[1..])
  }

  /** Every byte written so far, in order, whichever buffer holds it. */
  function Flat(p: Packing): seq<uint8>
  {
    Concat(p.done) + p.cur
  }

  /** The bytes a pulse contributes to the file, buffers aside. */
  function PulseBytes(version: uint8, pulse: nat): seq<uint8>
    decreases pulse
  {
    if pulse >= Overflow(version) then PulseRecord(OverflowToWrite(version)) + PulseBytes(version, pulse - Overflow(version))
    else if pulse == 0 then (if version != 0 then FourBytes(0) else [])
    else PulseRecord(pulse)
  }

  function PulsesBytes(version: uint8, pulses: seq<uint32>): seq<uint8>
    decreases |pulses|
  {
    if pulses == [] then [] else PulseBytes(version, pulses[0]) + PulsesBytes(version, pulses[1..])
  }

  /** A record goes on at the end of the bytes written, whether or not a new buffer is opened for it. */
  lemma PutFlat(p: Packing, rec: seq<uint8>)
    ensures Flat(Put(p, rec)) == Flat(p) + rec
  {
    if |p.cur| + |rec| > OUTPUT_SIZE {
      ConcatAppend(p.done, p.cur);
    }
  }

  lemma {:induction false} PutPulseFlat(version: uint8, p: Packing, pulse: nat)
    ensures Flat(PutPulse(version, p, pulse)) == Flat(p) + PulseBytes(version, pulse)
    decreases pulse
  {
    if pulse >= Overflow(version) {
      var rec := PulseRecord(OverflowToWrite(version));
      PutFlat(p, rec);
      PutPulseFlat(version, Put(p, rec), pulse - Overflow(version));
      AppendAssoc(Flat(p), rec, PulseBytes(version, pulse - Overflow(version)));
    } else if pulse == 0 {
      if version != 0 {
        PutFlat(p, FourBytes(0));
      }
    } else {
      PutFlat(p, PulseRecord(pulse));
    }
  }

  /** Splitting the output into buffers loses, adds and reorders no byte. */
  lemma {:induction false} PutPulsesFlat(version: uint8, p: Packing, pulses: seq<uint32>)
    ensures Flat(PutPulses(version, p, pulses)) == Flat(p) + PulsesBytes(version, pulses)
    decreases |pulses|
  {
    if pulses != [] {
      PutPulseFlat(version, p, pulses[0]);
      PutPulsesFlat(version, PutPulse(version, p, pulses[0]), pulses[1..]);
      AppendAssoc(Flat(p), PulseBytes(version, pulses[0]), PulsesBytes(version, pulses[1..]));
    }
  }

  /**
   * In version 0 a pulse is one zero byte per whole OVERFLOW_LO it holds,
   * then the remainder divided by 8 as one byte, or nothing when the
   * remainder is 0.
   */
  lemma {:induction false} PulseBytesV0(pulse: nat)
    ensures PulseBytes(0, pulse) == Repeat([0], pulse / TapFileEnc.OVERFLOW_LO)
                                    + (if pulse % TapFileEnc.OVERFLOW_LO == 0 then [] else [pulse % TapFileEnc.OVERFLOW_LO / 8])
    decreases pulse
  {
    if pulse >= TapFileEnc.OVERFLOW_LO {
      var rest := pulse - TapFileEnc.OVERFLOW_LO;
      PulseBytesV0(rest);
      assert rest / TapFileEnc.OVERFLOW_LO == pulse / TapFileEnc.OVERFLOW_LO - 1;
      assert rest % TapFileEnc.OVERFLOW_LO == pulse % TapFileEnc.OVERFLOW_LO;
    }
  }

  /**
   * In versions 1 and 2 a pulse is written as the current writer writes
   * it, except that a pulse that is a whole number of overflows (zero
   * included) ends with the record `00 00 00 00` instead of a zero byte.
   */
  lemma {:induction false} PulseBytesV12(version: uint8, pulse: nat)
    requires version != 0
    ensures pulse % TapFileEnc.OVERFLOW_HI != 0 ==> PulseBytes(version, pulse) == TapFileEnc.EncodeV12(pulse)
    ensures pulse % TapFileEnc.OVERFLOW_HI == 0 ==>
      PulseBytes(version, pulse) == Repeat(TapFileEnc.OVERFLOW_RECORD, pulse / TapFileEnc.OVERFLOW_HI) + [0, 0, 0, 0]
    decreases pulse
  {
    assert PulseRecord(TapFileEnc.OVERFLOW_HI) == TapFileEnc.OVERFLOW_RECORD;
    if pulse >= TapFileEnc.OVERFLOW_HI {
      var rest := pulse - TapFileEnc.OVERFLOW_HI;
      PulseBytesV12(version, rest);
      assert rest / TapFileEnc.OVERFLOW_HI == pulse / TapFileEnc.OVERFLOW_HI - 1;
      assert rest % TapFileEnc.OVERFLOW_HI == pulse % TapFileEnc.OVERFLOW_HI;
      if pulse % TapFileEnc.OVERFLOW_HI == 0 {
        AppendAssoc(TapFileEnc.OVERFLOW_RECORD, Repeat(TapFileEnc.OVERFLOW_RECORD, rest / TapFileEnc.OVERFLOW_HI), [0, 0, 0, 0]);
      }
    } else if pulse == 0 {
      assert FourBytes(0) == [0, 0, 0, 0];
    }
  }

  /**
   * The open buffer has capacity 128 and was never overrun, and every
   * buffer handed on holds between 125 and 128 bytes: a buffer is only
   * closed when a record of at most 4 bytes no longer fits.
   */
  ghost predicate Fits(p: Packing)
  {
    && |p.cur| <= OUTPUT_SIZE && p.cap == OUTPUT_SIZE && !p.overrun
    && forall i :: 0 <= i < |p.done| ==> OUTPUT_SIZE - 4 < |p.done[i]| <= OUTPUT_SIZE
  }

  lemma PutFits(p: Packing, rec: seq<uint8>)
    requires Fits(p) && 1 <= |rec| <= 4
    ensures Fits(Put(p, rec))
  {
    var q := Put(p, rec);
    if |p.cur| + |rec| > OUTPUT_SIZE {
      assert forall i :: 0 <= i < |q.done| ==> q.done[i] == if i < |p.done| then p.done[i] else p.cur;
    }
  }

  lemma {:induction false} PutPulseFits(version: uint8, p: Packing, pulse: nat)
    requires Fits(p)
    ensures Fits(PutPulse(version, p, pulse))
    decreases pulse
  {
    if pulse >= Overflow(version) {
      PutFits(p, PulseRecord(OverflowToWrite(version)));
      PutPulseFits(version, Put(p, PulseRecord(OverflowToWrite(version))), pulse - Overflow(version));
    } else if pulse == 0 {
      if version != 0 {
        PutFits(p, FourBytes(0));
      }
    } else {
      PutFits(p, PulseRecord(pulse));
    }
  }

  lemma {:induction false} PutPulsesFits(version: uint8, p: Packing, pulses: seq<uint32>)
    requires Fits(p)
    ensures Fits(PutPulses(version, p, pulses))
    decreases |pulses|
  {
    if pulses != [] {
      PutPulseFits(version, p, pulses[0]);
      PutPulsesFits(version, PutPulse(version, p, pulses[0]), pulses[1..]);
    }
  }

  /**
   * The chain function as written: its first output buffer is allocated
   * with the size of the input buffer, 4 bytes per pulse, while the
   * fullness test always compares with 128.
   */
  function ChainAsWritten(version: uint8, pulses: seq<uint32>): Packing
  {
    PutPulses(version, Packing([], [], 4 * |pulses|, false), pulses)
  }

  /**
   * A single version-0 pulse of 5 * 0x800 cycles writes five zero bytes
   * into the first buffer, which has room for four.
   */
  lemma AsWrittenOverruns()
    ensures ChainAsWritten(0, [0x2800]).overrun
  {
    var p0 := Packing([], [], 4, false);
    var p1 := Put(p0, [0]);
    var p2 := Put(p1, [0]);
    var p3 := Put(p2, [0]);
    var p4 := Put(p3, [0]);
    var p5 := Put(p4, [0]);
    assert PulseRecord(OverflowToWrite(0)) == [0];
    assert PutPulse(0, p5, 0) == p5;
    assert PutPulse(0, p4, 0x800) == p5;
    assert PutPulse(0, p3, 0x1000) == p5;
    assert PutPulse(0, p2, 0x1800) == p5;
    assert PutPulse(0, p1, 0x2000) == p5;
    assert PutPulse(0, p0, 0x2800) == p5;
    assert PutPulses(0, p5, []) == p5;
    assert p5.overrun;
  }

  /** The chain function with its first buffer given the intended 128 bytes. */
  function ChainPacking(version: uint8, pulses: seq<uint32>): Packing
  {
    PutPulses(version, Packing([], [], OUTPUT_SIZE, false), pulses)
  }

  /**
   * With a first buffer of 128 bytes no write overruns a buffer, every
   * buffer closed before the last holds 125 to 128 bytes, and the buffers
   * laid end to end are the bytes of the pulses.
   */
  lemma ChainPackingFits(version: uint8, pulses: seq<uint32>)
    ensures var p := ChainPacking(version, pulses);
      && Fits(p)
      && Flat(p) == PulsesBytes(version, pulses)
  {
    var p0 := Packing([], [], OUTPUT_SIZE, false);
    PutPulsesFits(version, p0, pulses);
    PutPulsesFlat(version, p0, pulses);
  }

  class OldTapFileEnc {
    var machine: uint8
    var video: uint8
    var forceVersion0: bool
    var version: uint8
    var length: uint32
    var sentHeader: bool
    /** The buffers pushed on the source pad, in order. */
    var pushed: seq<TapFileEnc.Pushed>

    /** `length` counts the pulse-data bytes pushed, modulo 2^32, never a header. */
    ghost predicate Valid()
      reads this
    {
      && machine < 3 && video < 2 && version <= 2
      && length == U32(|TapFileEnc.DataOf(pushed)|)
      && (sentHeader ==> pushed != [])
    }

    constructor (machine: uint8, video: uint8, forceVersion0: bool)
      requires machine < 3 && video < 2
      ensures Valid()
      ensures this.machine == machine && this.video == video && this.forceVersion0 == forceVersion0
      ensures version == 0 && length == 0 && !sentHeader && pushed == []
    {
      this.machine := machine;
      this.video := video;
      this.forceVersion0 := forceVersion0;
      version := 0;
      length := 0;
      sentHeader := false;
      pushed := [];
    }

    /** The caps handler: the same acceptance and version rules as the current writer. */
    method SetCaps(rate: Option<int>, semiwaves: Option<bool>) returns (ok: bool)
      requires Valid()
      modifies this`version
      ensures Valid()
      ensures var v := TapFileEnc.CapsVersion(rate, semiwaves, machine, video, forceVersion0);
        ok == v.Some? && version == if ok then v.value else old(version)
    {
      ok := rate.Some? && rate.value == TapFileEnc.TAP_CLOCKS[machine][video];
      if ok {
        ok := semiwaves.Some?;
        if ok {
          if semiwaves.value {
            version := 2;
          } else {
            version := if forceVersion0 then 0 else 1;
          }
        }
      }
    }

    /** Pushes one header, without counting it. */
    method PushHeader(len: uint32)
      requires Valid()
      modifies this`pushed
      ensures Valid()
      ensures pushed == old(pushed) + [TapFileEnc.HeaderBuffer(Header(version, machine, video, len))]
    {
      var h := Header(version, machine, video, len);
      TapFileEnc.DataOfAppend(pushed, TapFileEnc.HeaderBuffer(h));
      pushed := pushed + [TapFileEnc.HeaderBuffer(h)];
    }

    /**
     * The end-of-stream event: the header is written again with the real
     * length, whatever became of the seek to the start of the file.
     */
    method SinkEventEos()
      requires Valid()
      modifies this`pushed
      ensures Valid()
      ensures pushed == old(pushed) + [TapFileEnc.HeaderBuffer(Header(version, machine, video, length))]
    {
      PushHeader(length);
    }

    /** Pushes one output buffer, even an empty one, and counts its bytes. */
    method PushBuffer(b: seq<uint8>)
      requires Valid()
      modifies this`pushed, this`length
      ensures Valid()
      ensures pushed == old(pushed) + [TapFileEnc.DataBuffer(b)]
      ensures length == U32(old(length) + |b|)
    {
      var before := |TapFileEnc.DataOf(pushed)|;
      TapFileEnc.DataOfAppend(pushed, TapFileEnc.DataBuffer(b));
      U32Add(before, |b|);
      pushed := pushed + [TapFileEnc.DataBuffer(b)];
      length := U32(length + |b|);
    }

    /**
     * Makes room for n more bytes: when they would take the open buffer
     * past 128 bytes, it is pushed and a new empty 128-byte buffer opened.
     */
    method PushIfNeeded(ghost base: seq<TapFileEnc.Pushed>, ghost done: seq<seq<uint8>>,
                        out: array<uint8>, size: nat, n: nat)
      returns (ghost ndone: seq<seq<uint8>>, nout: array<uint8>, nsize: nat)
      requires Valid() && pushed == base + TapFileEnc.AsData(done)
      requires out.Length == OUTPUT_SIZE && size <= OUTPUT_SIZE && n <= 4
      modifies this`pushed, this`length
      ensures Valid() && pushed == base + TapFileEnc.AsData(ndone)
      ensures nout.Length == OUTPUT_SIZE && nsize + n <= OUTPUT_SIZE && (nout == out || fresh(nout))
      ensures if size + n > OUTPUT_SIZE then ndone == done + [out[..size]] && nsize == 0
              else ndone == done && nout == out && nsize == size
    {
      ndone, nout, nsize := done, out, size;
      if size + n > OUTPUT_SIZE {
        PushBuffer(out[..size]);
        ndone := done + [out[..size]];
        TapFileEnc.AsDataAppend(done, out[..size]);
        nout := new uint8[OUTPUT_SIZE];
        nsize := 0;
      }
    }

    /** A zero byte and the low 24 bits of the value, after making room for 4 bytes. */
    method AddFourBytes(ghost base: seq<TapFileEnc.Pushed>, ghost done: seq<seq<uint8>>,
                        out: array<uint8>, size: nat, pulse: nat)
      returns (ghost ndone: seq<seq<uint8>>, nout: array<uint8>, nsize: nat)
      requires Valid() && pushed == base + TapFileEnc.AsData(done)
      requires out.Length == OUTPUT_SIZE && size <= OUTPUT_SIZE
      modifies this`pushed, this`length, out
      ensures Valid() && pushed == base + TapFileEnc.AsData(ndone)
      ensures nout.Length == OUTPUT_SIZE && nsize <= OUTPUT_SIZE && (nout == out || fresh(nout))
      ensures Packing(ndone, nout[..nsize], OUTPUT_SIZE, false)
              == Put(Packing(done, old(out[..size]), OUTPUT_SIZE, false), FourBytes(pulse))
    {
      ndone, nout, nsize := PushIfNeeded(base, done, out, size, 4);
      CopyInto(nout, nsize, [0] + Le(pulse, 3));
      nsize := nsize + 4;
    }

    /** One byte, after making room for it. */
    method AddByte(ghost base: seq<TapFileEnc.Pushed>, ghost done: seq<seq<uint8>>,
                   out: array<uint8>, size: nat, b: uint8)
      returns (ghost ndone: seq<seq<uint8>>, nout: array<uint8>, nsize: nat)
      requires Valid() && pushed == base + TapFileEnc.AsData(done)
      requires out.Length == OUTPUT_SIZE && size <= OUTPUT_SIZE
      modifies this`pushed, this`length, out
      ensures Valid() && pushed == base + TapFileEnc.AsData(ndone)
      ensures nout.Length == OUTPUT_SIZE && nsize <= OUTPUT_SIZE && (nout == out || fresh(nout))
      ensures Packing(ndone, nout[..nsize], OUTPUT_SIZE, false)
              == Put(Packing(done, old(out[..size]), OUTPUT_SIZE, false), [b])
    {
      ndone, nout, nsize := PushIfNeeded(base, done, out, size, 1);
      CopyInto(nout, nsize, [b]);
      nsize := nsize + 1;
    }

    /** The record of a value: four bytes from OVERFLOW_LO up, else one byte. */
    method AddPulse(ghost base: seq<TapFileEnc.Pushed>, ghost done: seq<seq<uint8>>,
                    out: array<uint8>, size: nat, pulse: nat)
      returns (ghost ndone: seq<seq<uint8>>, nout: array<uint8>, nsize: nat)
      requires Valid() && pushed == base + TapFileEnc.AsData(done)
      requires out.Length == OUTPUT_SIZE && size <= OUTPUT_SIZE
      modifies this`pushed, this`length, out
      ensures Valid() && pushed == base + TapFileEnc.AsData(ndone)
      ensures nout.Length == OUTPUT_SIZE && nsize <= OUTPUT_SIZE && (nout == out || fresh(nout))
      ensures Packing(ndone, nout[..nsize], OUTPUT_SIZE, false)
              == Put(Packing(done, old(out[..size]), OUTPUT_SIZE, false), PulseRecord(pulse))
    {
      if pulse >= TapFileEnc.OVERFLOW_LO {
        ndone, nout, nsize := AddFourBytes(base, done, out, size, pulse);
      } else {
        ndone, nout, nsize := AddByte(base, done, out, size, (pulse / 8) % 256);
      }
    }

    /**
     * One pulse of the chain function: an overflow record for every whole
     * overflow the pulse holds, then the record of the remainder, which in
     * version 0 is left out when the remainder is 0.
     */
    method AddPulseRecords(ghost base: seq<TapFileEnc.Pushed>, ghost done: seq<seq<uint8>>,
                           out: array<uint8>, size: nat, pulse: uint32)
      returns (ghost ndone: seq<seq<uint8>>, nout: array<uint8>, nsize: nat)
      requires Valid() && pushed == base + TapFileEnc.AsData(done)
      requires out.Length == OUTPUT_SIZE && size <= OUTPUT_SIZE
      modifies this`pushed, this`length, out
      ensures Valid() && pushed == base + TapFileEnc.AsData(ndone)
      ensures nout.Length == OUTPUT_SIZE && nsize <= OUTPUT_SIZE && (nout == out || fresh(nout))
      ensures Packing(ndone, nout[..nsize], OUTPUT_SIZE, false)
              == PutPulse(version, Packing(done, old(out[..size]), OUTPUT_SIZE, false), pulse)
    {
      var overflow := if version != 0 then TapFileEnc.OVERFLOW_HI else TapFileEnc.OVERFLOW_LO;
      var overflowToWrite := if version != 0 then TapFileEnc.OVERFLOW_HI else 0;
      ndone, nout, nsize := done, out, size;
      var rest: nat := pulse;
      while rest >= overflow
        invariant Valid() && pushed == base + TapFileEnc.AsData(ndone)
        invariant nout.Length == OUTPUT_SIZE && nsize <= OUTPUT_SIZE && (nout == out || fresh(nout))
        invariant PutPulse(version, Packing(ndone, nout[..nsize], OUTPUT_SIZE, false), rest)
                  == PutPulse(version, Packing(done, old(out[..size]), OUTPUT_SIZE, false), pulse)
      {
        ndone, nout, nsize := AddPulse(base, ndone, nout, nsize, overflowToWrite);
        rest := rest - overflow;
      }
      if rest == 0 {
        if version != 0 {
          ndone, nout, nsize := AddFourBytes(base, ndone, nout, nsize, 0);
        }
      } else {
        ndone, nout, nsize := AddPulse(base, ndone, nout, nsize, rest);
      }
    }

    /**
     * The chain function: the header with length 0 before the first data,
     * then every pulse record by record into 128-byte buffers, and at the
     * end the open buffer, pushed even when empty. The first buffer is
     * given the capacity of every other one; the capacity the source gives
     * it is ChainAsWritten's.
     */
    method Chain(data: seq<uint32>)
      requires Valid()
      modifies this`pushed, this`length, this`sentHeader
      ensures Valid() && sentHeader
      ensures var p := ChainPacking(version, data);
        pushed == old(pushed)
                  + (if old(sentHeader) then [] else [TapFileEnc.HeaderBuffer(Header(version, machine, video, 0))])
                  + TapFileEnc.AsData(p.done + [p.cur])
    {
      if !sentHeader {
        PushHeader(0);
        sentHeader := true;
      }
      var out := new uint8[OUTPUT_SIZE];
      var size: nat := 0;
      ghost var base := pushed;
      ghost var done: seq<seq<uint8>> := [];
      var i := 0;
      while i < |data|
        invariant 0 <= i <= |data|
        invariant Valid() && sentHeader && pushed == base + TapFileEnc.AsData(done)
        invariant fresh(out) && out.Length == OUTPUT_SIZE && size <= OUTPUT_SIZE
        invariant PutPulses(version, Packing(done, out[..size], OUTPUT_SIZE, false), data[i..])
                  == ChainPacking(version, data)
      {
        assert data[i..][1..] == data[i + 1..];
        done, out, size := AddPulseRecords(base, done, out, size, data[i]);
        i := i + 1;
      }
      assert data[i..] == [];
      ghost var last := out[..size];
      PushBuffer(out[..size]);
      TapFileEnc.AsDataAppend(done, last);
    }
  }
}
