/**
 * The TAP file writer (`tapfileenc`): frames a stream of 32-bit pulse
 * lengths, measured at the clock of a Commodore machine, as a TAP file.
 * Versions 1 and 2 write long pulses as chains of 4-byte overflow records;
 * version 0 has a single-byte field whose zero value marks one overflow.
 */
module TapFileEnc {
  import opened Bytes

  const HEADER_SIZE: nat := 20
  /** A pulse at least this long is written as a `00 FF FF FF` record first. */
  const OVERFLOW_HI: nat := 0xFFFFFF
  /** A pulse at least this long does not fit the one-byte field. */
  const OVERFLOW_LO: nat := 0x800

  /** "C64-TAPE-RAW" */
  const C64_SIGNATURE: seq<uint8> := [0x43, 0x36, 0x34, 0x2D, 0x54, 0x41, 0x50, 0x45, 0x2D, 0x52, 0x41, 0x57]
  /** "C16-TAPE-RAW" */
  const C16_SIGNATURE: seq<uint8> := [0x43, 0x31, 0x36, 0x2D, 0x54, 0x41, 0x50, 0x45, 0x2D, 0x52, 0x41, 0x57]

  /** The machine clocks, indexed by machine (C64, VIC-20, C16) and video standard (PAL, NTSC). */
  const TAP_CLOCKS: seq<seq<nat>> := [[985248, 1022727], [1108405, 1022727], [886724, 894886]]

  function TapClock(machine: nat, video: nat): nat
    requires machine < 3 && video < 2
  {
    TAP_CLOCKS[machine][video]
  }

  /**
   * The caps branch of the sink event handler: the version the incoming
   * stream selects, or None when the caps are refused (no rate, a rate
   * other than the clock of the configured machine, no halfwaves flag).
   */
  function CapsVersion(rate: Option<int>, halfwaves: Option<bool>, machine: nat, video: nat,
                       forceVersion0: bool): (r: Option<uint8>)
    requires machine < 3 && video < 2
    ensures r.Some? <==> rate == Some(TapClock(machine, video)) && halfwaves.Some?
    ensures r.Some? ==> r.value <= 2
    ensures r.Some? ==> (r.value == 2 <==> halfwaves.value)
    ensures r.Some? ==> (r.value == 0 <==> !halfwaves.value && forceVersion0)
  {
    if rate.None? then None
    else if rate.value != TapClock(machine, video) then None
    else if halfwaves.None? then None
    else if halfwaves.value then Some(2)
    else if forceVersion0 then Some(0)
    else Some(1)
  }

  /** The 20-byte TAP header: signature, version, machine, video standard, a zero, the data length. */
  function Header(version: uint8, machine: uint8, video: uint8, len: uint32): seq<uint8>
  {
    (if machine != 2 then C64_SIGNATURE else C16_SIGNATURE) + [version, machine, video, 0] + Le(len, 4)
  }

  /**
   * The header is 20 bytes: the C16 signature for machine 2 and the C64
   * one otherwise, the three settings, a zero byte, and the length as a
   * little-endian 32-bit field that reads back unchanged.
   */
  lemma HeaderLayout(version: uint8, machine: uint8, video: uint8, len: uint32)
    ensures var h := Header(version, machine, video, len);
      && |h| == HEADER_SIZE
      && h[..12] == (if machine == 2 then C16_SIGNATURE else C64_SIGNATURE)
      && h[12] == version && h[13] == machine && h[14] == video && h[15] == 0
      && FromLe(h[16..20]) == len
  {
    var h := Header(version, machine, video, len);
    FromLeLe(len, 4);
    assert h[16..20] == Le(len, 4);
  }

  /** Fills a fresh 20-byte buffer with the header, field by field. */
  method WriteHeader(version: uint8, machine: uint8, video: uint8, len: uint32) returns (h: seq<uint8>)
    ensures h == Header(version, machine, video, len)
  {
    var buf := new uint8[HEADER_SIZE];
    CopyInto(buf, 0, if machine != 2 then C64_SIGNATURE else C16_SIGNATURE);
    CopyInto(buf, 12, [version, machine, video, 0]);
    CopyInto(buf, 16, Le(len, 4));
    h := buf[..];
  }

  /**
   * One pulse in version 0: the overflow byte 0 for a long pulse unless the
   * previous pulse already wrote one, otherwise the pulse divided by 8 and
   * truncated to a byte. The flag says whether this pulse wrote the overflow byte.
   */
  function EncodeV0(pulse: uint32, lastWasOverflow: bool): (r: (seq<uint8>, bool))
  {
    if pulse >= OVERFLOW_LO && !lastWasOverflow then ([0], true)
    else ([(pulse / 8) % 256], false)
  }

  const OVERFLOW_RECORD: seq<uint8> := [0] + Le(OVERFLOW_HI, 3)

  /** The record that ends a pulse of versions 1 and 2, for a remainder below OVERFLOW_HI. */
  function FinalRecord(rest: nat): seq<uint8>
    requires rest < OVERFLOW_HI
  {
    if rest >= OVERFLOW_LO then [0] + Le(rest, 3) else [rest / 8]
  }

  /** One pulse in versions 1 and 2, as the writer's subtract loop produces it. */
  function EncodeV12(pulse: nat): (r: seq<uint8>)
    decreases pulse
  {
    if pulse >= OVERFLOW_HI then OVERFLOW_RECORD + EncodeV12(pulse - OVERFLOW_HI)
    else FinalRecord(pulse)
  }

  /** One pulse in the given version, with the version-0 overflow flag threaded through. */
  function EncodePulse(version: uint8, pulse: uint32, lastWasOverflow: bool): (seq<uint8>, bool)
  {
    if version == 0 then EncodeV0(pulse, lastWasOverflow) else (EncodeV12(pulse), lastWasOverflow)
  }

  /** A whole input buffer of pulses: the bytes written and the final overflow flag. */
  function EncodePulses(version: uint8, pulses: seq<uint32>, lastWasOverflow: bool): (seq<uint8>, bool)
    decreases |pulses|
  {
    if pulses == [] then ([], lastWasOverflow)
    else
      var prev := EncodePulses(version, pulses[..|pulses| - 1], lastWasOverflow);
      var step := EncodePulse(version, pulses[|pulses| - 1], prev.1);
      (prev.0 + step.0, step.1)
  }

  lemma {:induction false} EncodeV12Chunks(k: nat, rest: nat)
    requires rest < OVERFLOW_HI
    ensures EncodeV12(k * OVERFLOW_HI + rest) == Repeat(OVERFLOW_RECORD, k) + FinalRecord(rest)
  {
    if k > 0 {
      assert k * OVERFLOW_HI + rest - OVERFLOW_HI == (k - 1) * OVERFLOW_HI + rest;
      EncodeV12Chunks(k - 1, rest);
      AppendAssoc(OVERFLOW_RECORD, Repeat(OVERFLOW_RECORD, k - 1), FinalRecord(rest));
    }
  }

  /**
   * In versions 1 and 2 a pulse p is p div OVERFLOW_HI overflow records
   * followed by the record of the remainder: 4k + 4 or 4k + 1 bytes.
   */
  lemma EncodeV12Shape(pulse: nat)
    ensures EncodeV12(pulse) == Repeat(OVERFLOW_RECORD, pulse / OVERFLOW_HI) + FinalRecord(pulse % OVERFLOW_HI)
    ensures |EncodeV12(pulse)| == 4 * (pulse / OVERFLOW_HI) + (if pulse % OVERFLOW_HI >= OVERFLOW_LO then 4 else 1)
  {
    EncodeV12Chunks(pulse / OVERFLOW_HI, pulse % OVERFLOW_HI);
  }

  /**
   * A remainder below 8 ends the pulse with a lone zero byte, the value
   * that also opens every overflow record.
   */
  lemma SmallRemainderWritesZero(pulse: nat)
    requires pulse % OVERFLOW_HI < 8
    ensures EncodeV12(pulse)[|EncodeV12(pulse)| - 1] == 0
    ensures EncodeV12(pulse)[|EncodeV12(pulse)| - 1] == OVERFLOW_RECORD[0]
  {
    EncodeV12Shape(pulse);
  }

  /**
   * Version 0 writes exactly one byte per pulse, and the flag left behind
   * says whether the last pulse wrote the overflow byte: it did exactly
   * when it was long and the pulse before it had not.
   */
  lemma {:induction false} EncodeV0OneBytePerPulse(pulses: seq<uint32>, lastWasOverflow: bool)
    ensures |EncodePulses(0, pulses, lastWasOverflow).0| == |pulses|
    ensures pulses != [] ==>
      var prev := EncodePulses(0, pulses[..|pulses| - 1], lastWasOverflow).1;
      EncodePulses(0, pulses, lastWasOverflow).1 == (pulses[|pulses| - 1] >= OVERFLOW_LO && !prev)
  {
    if pulses != [] {
      EncodeV0OneBytePerPulse(pulses[..|pulses| - 1], lastWasOverflow);
    }
  }

  /** The writer's subtract loop for one pulse of versions 1 and 2, appending to the byte writer. */
  method PutPulseV12(written: seq<uint8>, pulse: nat) returns (out: seq<uint8>)
    ensures out == written + EncodeV12(pulse)
  {
    out := written;
    var rest: nat := pulse;
    while rest >= OVERFLOW_HI
      invariant written + EncodeV12(pulse) == out + EncodeV12(rest)
    {
      AppendAssoc(out, OVERFLOW_RECORD, EncodeV12(rest - OVERFLOW_HI));
      out := out + OVERFLOW_RECORD;
      rest := rest - OVERFLOW_HI;
    }
    assert EncodeV12(rest) == FinalRecord(rest);
    if rest >= OVERFLOW_LO {
      out := out + ([0] + Le(rest, 3));
    } else {
      out := out + [rest / 8];
    }
  }

  /**
   * The chain function's loop over the input buffer: every pulse appended
   * to the byte writer, the version-0 overflow flag carried from pulse to pulse.
   */
  method EncodeBuffer(version: uint8, data: seq<uint32>, lastWasOverflow: bool)
    returns (written: seq<uint8>, last: bool)
    ensures (written, last) == EncodePulses(version, data, lastWasOverflow)
  {
    written, last := [], lastWasOverflow;
    var i := 0;
    while i < |data|
      invariant 0 <= i <= |data|
      invariant (written, last) == EncodePulses(version, data[..i], lastWasOverflow)
    {
      var pulse: nat := data[i];
      assert data[..i + 1][..i] == data[..i];
      if version == 0 {
        if pulse >= OVERFLOW_LO && !last {
          written := written + [0];
          last := true;
        } else {
          written := written + [(pulse / 8) % 256];
          last := false;
        }
      } else {
        written := PutPulseV12(written, pulse);
      }
      i := i + 1;
    }
    assert data[..i] == data;
  }

  /** Everything pushed on the source pad, in order. */
  datatype Pushed = HeaderBuffer(header: seq<uint8>) | DataBuffer(data: seq<uint8>)

  /** The pulse-data bytes pushed so far, headers left out. */
  function DataOf(pushed: seq<Pushed>): seq<uint8>
  {
    if pushed == [] then []
    else DataOf(pushed[..|pushed| - 1]) + (match pushed[|pushed| - 1]
                                            case HeaderBuffer(_) => []
                                            case DataBuffer(d) => d)
  }

  lemma DataOfAppend(pushed: seq<Pushed>, p: Pushed)
    ensures DataOf(pushed + [p]) == DataOf(pushed) + (if p.DataBuffer? then p.data else [])
  {
    assert (pushed + [p])[..|pushed|] == pushed;
  }

  /** Output buffers as pushed on the source pad. */
  function AsData(bufs: seq<seq<uint8>>): seq<Pushed>
  {
    if bufs == [] then [] else AsData(bufs[..|bufs| - 1]) + [DataBuffer(bufs[|bufs| - 1])]
  }

  lemma AsDataAppend(bufs: seq<seq<uint8>>, b: seq<uint8>)
    ensures AsData(bufs + [b]) == AsData(bufs) + [DataBuffer(b)]
  {
    assert (bufs + [b])[..|bufs|] == bufs;
  }

  class TapFileEnc {
    var machine: uint8
    var video: uint8
    var forceVersion0: bool
    var version: uint8
    var lastWasOverflow: bool
    var length: uint32
    var sentHeader: bool
    /** The buffers pushed on the source pad, in order. */
    var pushed: seq<Pushed>

    /** `length` counts the pulse-data bytes pushed, modulo 2^32, never a header. */
    ghost predicate Valid()
      reads this
    {
      && machine < 3 && video < 2 && version <= 2
      && length == U32(|DataOf(pushed)|)
      && (sentHeader ==> pushed != [])
    }

    constructor (machine: uint8, video: uint8, forceVersion0: bool)
      requires machine < 3 && video < 2
      ensures Valid()
      ensures this.machine == machine && this.video == video && this.forceVersion0 == forceVersion0
      ensures version == 0 && !lastWasOverflow && length == 0 && !sentHeader && pushed == []
    {
      this.machine := machine;
      this.video := video;
      this.forceVersion0 := forceVersion0;
      version := 0;
      lastWasOverflow := false;
      length := 0;
      sentHeader := false;
      pushed := [];
    }

    /** The caps event: accepts the stream and chooses the version, or refuses it. */
    method SinkEventCaps(rate: Option<int>, halfwaves: Option<bool>) returns (ok: bool)
      requires Valid()
      modifies this`version
      ensures Valid()
      ensures var v := CapsVersion(rate, halfwaves, machine, video, forceVersion0);
        ok == v.Some? && version == if ok then v.value else old(version)
    {
      if rate.None? {
        ok := false;
      } else if rate.value != TAP_CLOCKS[machine][video] {
        ok := false;
      } else if halfwaves.None? {
        ok := false;
      } else {
        if halfwaves.value {
          version := 2;
        } else {
          version := if forceVersion0 then 0 else 1;
        }
        ok := true;
      }
    }

    /**
     * The end-of-stream event: once downstream accepts the seek to the start
     * of the file, the header is written again, now with the real length.
     */
    method SinkEventEos(seekAccepted: bool) returns (ok: bool)
      requires Valid()
      modifies this`pushed
      ensures Valid()
      ensures ok == seekAccepted
      ensures pushed == old(pushed) + if ok then [HeaderBuffer(Header(version, machine, video, length))] else []
      ensures sentHeader == old(sentHeader)
    {
      ok := seekAccepted;
      if ok {
        var h := WriteHeader(version, machine, video, length);
        DataOfAppend(pushed, HeaderBuffer(h));
        pushed := pushed + [HeaderBuffer(h)];
      }
    }

    /** The header, with length 0, before the first data of the stream. */
    method SendHeaderOnce()
      requires Valid()
      modifies this`pushed, this`sentHeader
      ensures Valid() && sentHeader
      ensures pushed == old(pushed) + (if old(sentHeader) then [] else [HeaderBuffer(Header(version, machine, video, 0))])
    {
      if !sentHeader {
        var h := WriteHeader(version, machine, video, 0);
        DataOfAppend(pushed, HeaderBuffer(h));
        pushed := pushed + [HeaderBuffer(h)];
        sentHeader := true;
      }
    }

    /** Pushes the bytes written for one input buffer, when there are any, and counts them. */
    method PushData(written: seq<uint8>)
      requires Valid() && sentHeader
      modifies this`pushed, this`length
      ensures Valid()
      ensures pushed == old(pushed) + (if written == [] then [] else [DataBuffer(written)])
      ensures length == U32(old(length) + |written|) && sentHeader
    {
      if |written| > 0 {
        var before := |DataOf(pushed)|;
        DataOfAppend(pushed, DataBuffer(written));
        U32Add(before, |written|);
        pushed := pushed + [DataBuffer(written)];
        length := U32(length + |written|);
        assert |DataOf(pushed)| == before + |written|;
      }
    }

    /**
     * The chain function: the header with length 0 before the first data,
     * then every pulse of the buffer, pushed as one buffer when not empty.
     */
    method Chain(data: seq<uint32>)
      requires Valid()
      modifies this
      ensures Valid()
      ensures var enc := EncodePulses(version, data, old(lastWasOverflow));
        && pushed == old(pushed)
                     + (if old(sentHeader) then [] else [HeaderBuffer(Header(version, machine, video, 0))])
                     + (if enc.0 == [] then [] else [DataBuffer(enc.0)])
        && lastWasOverflow == enc.1
      ensures sentHeader
      ensures machine == old(machine) && video == old(video) && version == old(version)
      ensures forceVersion0 == old(forceVersion0)
    {
      SendHeaderOnce();
      var written, last := EncodeBuffer(version, data, lastWasOverflow);
      lastWasOverflow := last;
      PushData(written);
    }
  }
}
