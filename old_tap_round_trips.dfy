/**
 * The first-generation TAP writer read back by the first-generation
 * reader: the bytes one chain call of the writer produces, after the
 * writer's header, decode to every pulse in units of 8 clock cycles, as
 * long as no pulse leaves the writer a remainder the reader cannot tell
 * apart from an overflow marker.
 */
module OldTapRoundTrips {
  import opened Bytes
  import TapFileEnc
  import TapFileDec
  import OldTapFileEnc
  import OldTapFileDec
  import TapRoundTrips

  /** What the reader adds for one overflow record: 0x800/8 in version 0, 0xFFFFFF/8 otherwise. */
  function OverflowValue(version: uint8): nat
  {
    if version == 0 then TapFileDec.ONE_BYTE_OVERFLOW else TapFileDec.THREE_BYTE_OVERFLOW / 8
  }

  /**
   * A pulse the reader gets back on its own: what is left after the
   * overflow records is 8 cycles or more, or, in versions 1 and 2, nothing
   * at all (written as the record `00 00 00 00`). A remainder of 1 to 7
   * cycles is written as a zero byte, and so is nothing in version 0:
   * both run into the next pulse.
   */
  predicate ReadableOne(version: uint8, p: nat)
    decreases p
  {
    var ov := OldTapFileEnc.Overflow(version);
    if p >= ov then ReadableOne(version, p - ov) else p >= 8 || (version != 0 && p == 0)
  }

  predicate Readable(version: uint8, pulses: seq<uint32>)
  {
    forall i :: 0 <= i < |pulses| ==> ReadableOne(version, pulses[i])
  }

  /** The sum the reader makes of a written pulse, record by record. */
  function Value(version: uint8, p: nat): nat
    decreases p
  {
    var ov := OldTapFileEnc.Overflow(version);
    if p >= ov then OverflowValue(version) + Value(version, p - ov) else p / 8
  }

  /** In version 0 every overflow byte stands for exactly 0x800 cycles: the pulse comes back as p/8. */
  lemma {:induction false} ValueV0(p: nat)
    ensures Value(0, p) == p / 8
    decreases p
  {
    if p >= TapFileEnc.OVERFLOW_LO {
      ValueV0(p - TapFileEnc.OVERFLOW_LO);
    }
  }

  /** In versions 1 and 2 the sum is what the current reader makes of the current writer's records. */
  lemma {:induction false} ValueV12(version: uint8, p: uint32)
    requires version != 0
    ensures Value(version, p) == TapRoundTrips.Decoded(p)
    decreases p
  {
    var m := TapFileEnc.OVERFLOW_HI;
    if p >= m {
      var q := p - m;
      ValueV12(version, q);
      assert p / m == q / m + 1 && p % m == q % m;
    }
  }

  /** What the reader gives back for a pulse written in the version. */
  function Decoded(version: uint8, p: uint32): uint32
  {
    if version == 0 then p / 8 else TapRoundTrips.Decoded(p)
  }

  lemma {:induction false} ValueIsDecoded(version: uint8, p: uint32)
    ensures Value(version, p) == Decoded(version, p)
    ensures U32(Value(version, p)) == Decoded(version, p)
  {
    if version == 0 {
      ValueV0(p);
    } else {
      ValueV12(version, p);
    }
  }

  /**
   * Where a readable pulse's bytes stand at index `at`, the scan from
   * there finds the pulse: the running sum grows by the pulse's value and
   * the scan ends just past its bytes.
   */
  lemma {:induction false} ScanPulse(version: uint8, p: nat, s: seq<uint8>, at: nat, acc: uint32)
    requires ReadableOne(version, p)
    requires var b := OldTapFileEnc.PulseBytes(version, p);
      at + |b| <= |s| && s[at..at + |b|] == b
    ensures var b := OldTapFileEnc.PulseBytes(version, p);
      OldTapFileDec.Scan(version, s, at, acc) == Some((U32(acc + Value(version, p)), at + |b|))
    decreases p
  {
    // Every step below is a lemma call: the definitions are not needed here.
    hide *;
    var ov := OldTapFileEnc.Overflow(version);
    if p >= ov {
      var rest := p - ov;
      var rec := OldTapFileEnc.PulseRecord(OldTapFileEnc.OverflowToWrite(version));
      var more := OldTapFileEnc.PulseBytes(version, rest);
      OverflowSplit(version, p);
      SliceSplit(s, at, rec, more);
      ScanPulse(version, rest, s, at + |rec|, U32(acc + OverflowValue(version)));
      ScanOverflowRecord(version, s, at, acc);
      ScanThrough(OldTapFileDec.Scan(version, s, at, acc),
        OldTapFileDec.Scan(version, s, at + |rec|, U32(acc + OverflowValue(version))),
        acc, OverflowValue(version), Value(version, rest), Value(version, p),
        at + |rec| + |more|, at + |OldTapFileEnc.PulseBytes(version, p)|);
    } else {
      ScanFinalRecord(version, p, s, at, acc);
    }
  }

  /**
   * A pulse of at least one overflow is written as an overflow record and
   * then the rest, reads as the overflow value plus the rest's value, and
   * is readable exactly when the rest is.
   */
  lemma OverflowSplit(version: uint8, p: nat)
    requires p >= OldTapFileEnc.Overflow(version)
    ensures var rest := p - OldTapFileEnc.Overflow(version);
      var rec := OldTapFileEnc.PulseRecord(OldTapFileEnc.OverflowToWrite(version));
      && OldTapFileEnc.PulseBytes(version, p) == rec + OldTapFileEnc.PulseBytes(version, rest)
      && |OldTapFileEnc.PulseBytes(version, p)| == |rec| + |OldTapFileEnc.PulseBytes(version, rest)|
      && Value(version, p) == OverflowValue(version) + Value(version, rest)
      && ReadableOne(version, rest) == ReadableOne(version, p)
  {
  }

  /**
   * A scan that goes on past an overflow record (`x == y`) and then finds
   * the rest of the pulse finds the whole pulse, its sum truncated once.
   */
  lemma ScanThrough(x: Option<(uint32, nat)>, y: Option<(uint32, nat)>, acc: uint32, ov: nat, rest: nat, v: nat, mid: nat, end: nat)
    requires v == ov + rest && mid == end
    requires x == y && y == Some((U32(U32(acc + ov) + rest), mid))
    ensures x == Some((U32(acc + v), end))
  {
    U32Carry(acc, ov, v);
  }

  /** An overflow record at `at`: the scan goes on behind it with the overflow value added. */
  lemma ScanOverflowRecord(version: uint8, s: seq<uint8>, at: nat, acc: uint32)
    requires var rec := OldTapFileEnc.PulseRecord(OldTapFileEnc.OverflowToWrite(version));
      at + |rec| <= |s| && s[at..at + |rec|] == rec
    ensures var rec := OldTapFileEnc.PulseRecord(OldTapFileEnc.OverflowToWrite(version));
      OldTapFileDec.Scan(version, s, at, acc) == OldTapFileDec.Scan(version, s, at + |rec|, U32(acc + OverflowValue(version)))
  {
    var rec := OldTapFileEnc.PulseRecord(OldTapFileEnc.OverflowToWrite(version));
    assert s[at] == rec[0] == 0;
    if version != 0 {
      assert rec == [0] + Le(TapFileDec.THREE_BYTE_OVERFLOW, 3);
      assert s[at + 1..at + 4] == rec[1..];
      FieldAtLe(s, at + 1, 3, TapFileDec.THREE_BYTE_OVERFLOW);
    }
  }

  /** The last record of a readable pulse at `at` ends the scan with the pulse's remaining value. */
  lemma ScanFinalRecord(version: uint8, p: nat, s: seq<uint8>, at: nat, acc: uint32)
    requires p < OldTapFileEnc.Overflow(version) && ReadableOne(version, p)
    requires var b := OldTapFileEnc.PulseBytes(version, p);
      at + |b| <= |s| && s[at..at + |b|] == b
    ensures var b := OldTapFileEnc.PulseBytes(version, p);
      OldTapFileDec.Scan(version, s, at, acc) == Some((U32(acc + Value(version, p)), at + |b|))
  {
    var b := OldTapFileEnc.PulseBytes(version, p);
    assert s[at] == b[0];
    if p == 0 || p >= TapFileEnc.OVERFLOW_LO {
      assert b == [0] + Le(p, 3);
      assert s[at + 1..at + 4] == b[1..];
      FieldAtLe(s, at + 1, 3, p);
    }
  }

  /** The bytes the writer produces for a list of pulses decode to the list. */
  function DecodedAll(version: uint8, pulses: seq<uint32>): (r: seq<uint32>)
    ensures |r| == |pulses|
    ensures forall i :: 0 <= i < |pulses| ==> r[i] == Decoded(version, pulses[i])
  {
    if pulses == [] then [] else [Decoded(version, pulses[0])] + DecodedAll(version, pulses[1..])
  }

  /**
   * Where the writer's bytes for readable pulses fill the input from
   * `at` to its end, decoding from `at` gives those pulses, one for one,
   * and consumes every byte.
   */
  lemma {:induction false} DecodeFromPulses(version: uint8, s: seq<uint8>, at: nat, pulses: seq<uint32>)
    requires Readable(version, pulses) && at <= |s|
    requires s[at..] == OldTapFileEnc.PulsesBytes(version, pulses)
    ensures OldTapFileDec.DecodeFrom(version, s, at) == (DecodedAll(version, pulses), |s|)
    decreases |pulses|
  {
    hide *;
    if pulses == [] {
      DecodeFromEnd(version, s, at);
    } else {
      var first := OldTapFileEnc.PulseBytes(version, pulses[0]);
      var others := OldTapFileEnc.PulsesBytes(version, pulses[1..]);
      var pulse := Decoded(version, pulses[0]);
      ValueIsDecoded(version, pulses[0]);
      FirstPulse(version, pulses);
      SuffixSplit(s, at, first, others);
      ScanPulse(version, pulses[0], s, at, 0);
      assert 0 + Value(version, pulses[0]) == Value(version, pulses[0]);
      DecodeFromPulses(version, s, at + |first|, pulses[1..]);
      DecodeFromFirst(version, s, at, pulse, at + |first|);
      var tail := OldTapFileDec.DecodeFrom(version, s, at + |first|);
      assert tail.0 == DecodedAll(version, pulses[1..]) && tail.1 == |s|;
      assert [pulse] + tail.0 == DecodedAll(version, pulses);
    }
  }

  /** The first pulse of a list, written, read and decoded ahead of the others. */
  lemma FirstPulse(version: uint8, pulses: seq<uint32>)
    requires Readable(version, pulses) && pulses != []
    ensures ReadableOne(version, pulses[0]) && Readable(version, pulses[1..])
    ensures OldTapFileEnc.PulsesBytes(version, pulses)
      == OldTapFileEnc.PulseBytes(version, pulses[0]) + OldTapFileEnc.PulsesBytes(version, pulses[1..])
    ensures DecodedAll(version, pulses) == [Decoded(version, pulses[0])] + DecodedAll(version, pulses[1..])
  {
    forall i | 0 <= i < |pulses[1..]|
      ensures ReadableOne(version, pulses[1..][i])
    {
      assert pulses[1..][i] == pulses[i + 1];
    }
  }

  /** Where the bytes of no pulses fill the input from `at` on, nothing is decoded from there. */
  lemma DecodeFromEnd(version: uint8, s: seq<uint8>, at: nat)
    requires at <= |s| && s[at..] == OldTapFileEnc.PulsesBytes(version, [])
    ensures OldTapFileDec.DecodeFrom(version, s, at) == (DecodedAll(version, []), |s|)
  {
    assert |s[at..]| == 0;
  }

  /** A pulse found at `at` is the first pulse decoded from there, and decoding goes on behind it. */
  lemma DecodeFromFirst(version: uint8, s: seq<uint8>, at: nat, pulse: uint32, end: nat)
    requires at <= |s| && OldTapFileDec.Scan(version, s, at, 0) == Some((pulse, end))
    ensures end <= |s|
    ensures OldTapFileDec.DecodeFrom(version, s, at)
      == ([pulse] + OldTapFileDec.DecodeFrom(version, s, end).0, OldTapFileDec.DecodeFrom(version, s, end).1)
  {
  }

  /**
   * The writer's bytes for readable pulses decode to exactly those pulses,
   * and every byte is consumed: nothing is left in the adapter.
   */
  lemma DecodePulses(version: uint8, pulses: seq<uint32>)
    requires Readable(version, pulses)
    ensures var b := OldTapFileEnc.PulsesBytes(version, pulses);
      OldTapFileDec.DecodeAll(version, b) == (DecodedAll(version, pulses), |b|)
  {
    var b := OldTapFileEnc.PulsesBytes(version, pulses);
    assert b[0..] == b;
    DecodeFromPulses(version, b, 0, pulses);
  }

  /**
   * A whole file of one chain call: the reader accepts the writer's header
   * for any known version, machine and video standard, takes the version
   * and rate from it, and decodes the rest to every pulse with no byte
   * left over.
   */
  lemma {:induction false} RoundTrip(version: uint8, machine: uint8, video: uint8, len: uint32, pulses: seq<uint32>)
    requires version <= 2 && machine <= 2 && video <= 1 && Readable(version, pulses)
    ensures var file := OldTapFileEnc.Header(version, machine, video, len) + OldTapFileEnc.PulsesBytes(version, pulses);
      var rest := file[TapFileDec.HEADER_SIZE..];
      && file[12] == version
      && OldTapFileDec.ParseHeader(file[..TapFileDec.HEADER_SIZE])
         == Some(TapFileDec.StreamInfo(version, TapFileDec.TAP_CLOCKS[machine][video], version == 2))
      && OldTapFileDec.DecodeAll(version, rest) == (DecodedAll(version, pulses), |rest|)
  {
    var h := OldTapFileEnc.Header(version, machine, video, len);
    var file := h + OldTapFileEnc.PulsesBytes(version, pulses);
    OldTapFileEnc.HeaderLayout(version, machine, video, len);
    assert file[..TapFileDec.HEADER_SIZE] == h;
    assert file[TapFileDec.HEADER_SIZE..] == OldTapFileEnc.PulsesBytes(version, pulses);
    DecodePulses(version, pulses);
  }
}
