/**
 * What the TAP writer and the TAP reader promise each other in versions 1
 * and 2: the header is accepted with the writer's settings and the
 * machine clock divided by 8 as the rate, and the bytes of the pulses read
 * back as the pulses in units of 8 clock cycles, where each overflow
 * record and the final record of a pulse are divided by 8 on their own.
 */
module TapRoundTrips {
  import opened Bytes
  import TapFileEnc
  import TapFileDec

  /** The reader's rates are the writer's clocks divided by 8. */
  lemma Clocks(machine: nat, video: nat)
    requires machine < 3 && video < 2
    ensures TapFileDec.TAP_CLOCKS[machine][video] == TapFileEnc.TapClock(machine, video) / 8
  {
  }

  /**
   * The header the writer makes is accepted exactly when its version,
   * machine and video values are known ones, and then gives the writer's
   * version, the clock divided by 8 as the rate, and half waves for version 2.
   */
  lemma HeaderRoundTrip(version: uint8, machine: uint8, video: uint8, len: uint32)
    ensures |TapFileEnc.Header(version, machine, video, len)| == TapFileDec.HEADER_SIZE
    ensures TapFileDec.ParseHeader(TapFileEnc.Header(version, machine, video, len))
      == if version <= 2 && machine <= 2 && video <= 1
         then Some(TapFileDec.StreamInfo(version, TapFileEnc.TapClock(machine, video) / 8, version == 2))
         else None
  {
    TapFileEnc.HeaderLayout(version, machine, video, len);
    if version <= 2 && machine <= 2 && video <= 1 {
      Clocks(machine, video);
    }
  }

  /** The bytes a cursor has yet to read. */
  function Rest(c: TapFileDec.Cursor): seq<uint8>
    requires c.Valid()
  {
    c.bytes[c.offset..]
  }

  /** A 4-byte record `00 x` is read as x divided by 8, and continues the pulse when x is the overflow value. */
  lemma ReadLongRecord(version: uint8, c: TapFileDec.Cursor, x: nat, t: seq<uint8>)
    requires version != 0 && c.Valid() && x < Pow256(3)
    requires Rest(c) == [0] + Le(x, 3) + t
    ensures var r := TapFileDec.ReadRecord(version, c);
      && r.Full? && r.value == x / 8 && r.more == (x == TapFileDec.THREE_BYTE_OVERFLOW)
      && Rest(r.cur) == t
  {
    var o := c.offset;
    assert c.bytes[o..o + 1] == Rest(c)[..1] == [0];
    assert c.bytes[o + 1..o + 4] == Rest(c)[1..4] == Le(x, 3);
    assert c.bytes[o + 4..] == Rest(c)[4..] == t;
    FromLeLe(x, 3);
  }

  /** A non-zero byte is a record of its own, read as its value, and ends the pulse. */
  lemma ReadShortRecord(version: uint8, c: TapFileDec.Cursor, b: uint8, t: seq<uint8>)
    requires c.Valid() && b != 0
    requires Rest(c) == [b] + t
    ensures var r := TapFileDec.ReadRecord(version, c);
      r.Full? && r.value == b && !r.more && Rest(r.cur) == t
  {
    var o := c.offset;
    assert c.bytes[o..o + 1] == Rest(c)[..1] == [b];
    assert c.bytes[o + 1..] == Rest(c)[1..] == t;
  }

  /**
   * In version 0 a zero byte is a whole record of its own: it adds 0x100
   * and ends the pulse, so the next byte starts the next pulse.
   */
  lemma ReadZeroByteV0(c: TapFileDec.Cursor, t: seq<uint8>)
    requires c.Valid() && Rest(c) == [0] + t
    ensures var r := TapFileDec.ReadRecord(0, c);
      r.Full? && r.value == TapFileDec.ONE_BYTE_OVERFLOW && !r.more && Rest(r.cur) == t
  {
    var o := c.offset;
    assert c.bytes[o..o + 1] == Rest(c)[..1] == [0];
    assert c.bytes[o + 1..] == Rest(c)[1..] == t;
  }

  /** With nothing left to read, no record is read and the cursor stays. */
  lemma ReadAtEnd(version: uint8, c: TapFileDec.Cursor)
    requires c.Valid() && Rest(c) == []
    ensures TapFileDec.ReadRecord(version, c) == TapFileDec.Short(c)
  {
    assert |Rest(c)| == |c.bytes| - c.offset;
  }

  /**
   * What the reader makes of a pulse the writer wrote in version 1 or 2:
   * every overflow record and the final record divided by 8 on its own.
   * It is the pulse divided by 8, short by less than one unit per
   * overflow record.
   */
  function Decoded(pulse: uint32): (r: uint32)
    ensures pulse / 8 - pulse / 0xFF_FFFF <= r <= pulse / 8
  {
    var k, rest := pulse / 0xFF_FFFF, pulse % 0xFF_FFFF;
    DecodedBounds(k, rest);
    k * 0x1F_FFFF + rest / 8
  }

  /** k overflow records and a remainder, read 8 clock cycles to the unit. */
  lemma DecodedBounds(k: nat, rest: nat)
    ensures var p := k * 0xFF_FFFF + rest;
      p / 8 - k <= k * 0x1F_FFFF + rest / 8 <= p / 8
  {
    var p := k * 0xFF_FFFF + rest;
    assert p == 8 * (k * 0x1F_FFFF) + (7 * k + rest);
    assert p / 8 == k * 0x1F_FFFF + (7 * k + rest) / 8;
  }

  /** The loop's running sum after k overflow records and a final value v, step by step. */
  function Chunks(acc: uint32, k: nat, v: nat): uint32
    decreases k
  {
    if k == 0 then U32(acc + v) else Chunks(U32(acc + 0x1F_FFFF), k - 1, v)
  }

  /** Adding k overflow chunks one at a time, each wrapped to 32 bits, is adding them all at once. */
  lemma {:induction false} ChunksSum(acc: uint32, k: nat, v: nat)
    ensures Chunks(acc, k, v) == U32(acc + k * 0x1F_FFFF + v)
    decreases k
  {
    if k >= 1 {
      ChunksSum(U32(acc + 0x1F_FFFF), k - 1, v);
      U32Add(acc + 0x1F_FFFF, (k - 1) * 0x1F_FFFF + v);
      assert acc + 0x1F_FFFF + ((k - 1) * 0x1F_FFFF + v) == acc + k * 0x1F_FFFF + v;
    }
  }

  /**
   * b is k overflow records, then the final record of the remainder rest,
   * then t: the layout of one pulse in versions 1 and 2, a record at a time.
   */
  ghost predicate Records(b: seq<uint8>, k: nat, rest: nat, t: seq<uint8>)
    requires rest < TapFileEnc.OVERFLOW_HI
    decreases k
  {
    if k == 0 then b == TapFileEnc.FinalRecord(rest) + t
    else |b| >= 4 && b[..4] == TapFileEnc.OVERFLOW_RECORD && Records(b[4..], k - 1, rest, t)
  }

  /** The writer's k overflow records and final record, followed by t, have that layout. */
  lemma {:induction false} RecordsLayout(k: nat, rest: nat, t: seq<uint8>)
    requires rest < TapFileEnc.OVERFLOW_HI
    ensures Records(Repeat(TapFileEnc.OVERFLOW_RECORD, k) + TapFileEnc.FinalRecord(rest) + t, k, rest, t)
    decreases k
  {
    var r := TapFileEnc.OVERFLOW_RECORD;
    var b := Repeat(r, k) + TapFileEnc.FinalRecord(rest) + t;
    if k >= 1 {
      var more := Repeat(r, k - 1) + TapFileEnc.FinalRecord(rest) + t;
      AppendAssoc(r, Repeat(r, k - 1), TapFileEnc.FinalRecord(rest));
      AppendAssoc(r, Repeat(r, k - 1) + TapFileEnc.FinalRecord(rest), t);
      assert b == r + more;
      assert b[..4] == r && b[4..] == more;
      RecordsLayout(k - 1, rest, t);
    } else {
      assert Repeat(r, k) == [];
    }
  }

  /** An overflow record at the cursor: the loop adds 0x1FFFFF and goes on right after it. */
  lemma OverflowRecordStep(d: TapFileDec.Dec, acc: uint32, more: seq<uint8>)
    requires d.Valid() && d.version != 0
    requires Rest(d.cur) == TapFileEnc.OVERFLOW_RECORD + more
    ensures var c := TapFileDec.ReadRecord(d.version, d.cur).cur;
      && c.Valid()
      && Rest(c) == more
      && TapFileDec.PulseLoop(d, acc) == TapFileDec.PulseLoop(d.(cur := c), U32(acc + 0x1F_FFFF))
  {
    ReadLongRecord(d.version, d.cur, TapFileEnc.OVERFLOW_HI, more);
    var r := TapFileDec.ReadRecord(d.version, d.cur);
    assert r.value == 0x1F_FFFF && r.more;
    TapFileDec.PulseLoopUnfold(d, acc);
  }

  /** The final record of a pulse at the cursor: the loop adds the remainder divided by 8 and stops right after it. */
  lemma FinalRecordStep(d: TapFileDec.Dec, acc: uint32, rest: nat, t: seq<uint8>)
    requires d.Valid() && d.version != 0 && 8 <= rest < TapFileEnc.OVERFLOW_HI
    requires Records(Rest(d.cur), 0, rest, t)
    ensures var r := TapFileDec.PulseLoop(d, acc);
      r.ok && r.pulse == Chunks(acc, 0, rest / 8) && Rest(r.dec.cur) == t
  {
    TapFileDec.PulseLoopUnfold(d, acc);
    if rest >= TapFileEnc.OVERFLOW_LO {
      ReadLongRecord(d.version, d.cur, rest, t);
    } else {
      ReadShortRecord(d.version, d.cur, rest / 8, t);
    }
  }

  /** An overflow record first: reading it leaves k - 1 overflow records and the final record. */
  lemma PeelRecord(d: TapFileDec.Dec, acc: uint32, k: nat, rest: nat, t: seq<uint8>)
    requires d.Valid() && d.version != 0 && k >= 1 && rest < TapFileEnc.OVERFLOW_HI
    requires Records(Rest(d.cur), k, rest, t)
    ensures var c := TapFileDec.ReadRecord(d.version, d.cur).cur;
      && c.Valid()
      && Records(Rest(c), k - 1, rest, t)
      && TapFileDec.PulseLoop(d, acc) == TapFileDec.PulseLoop(d.(cur := c), U32(acc + 0x1F_FFFF))
  {
    var more := Rest(d.cur)[4..];
    assert Rest(d.cur) == TapFileEnc.OVERFLOW_RECORD + more;
    OverflowRecordStep(d, acc, more);
  }

  /** A loop that goes on as another, which reads k - 1 chunks from the sum after one more, reads k chunks. */
  lemma StepCarry(x: TapFileDec.Step, y: TapFileDec.Step, acc: uint32, k: nat, v: nat, t: seq<uint8>)
    requires k >= 1 && x == y && y.dec.Valid()
    requires y.ok && y.pulse == Chunks(U32(acc + 0x1F_FFFF), k - 1, v) && Rest(y.dec.cur) == t
    ensures x.ok && x.pulse == Chunks(acc, k, v) && Rest(x.dec.cur) == t
  {
  }

  /**
   * k overflow records and then the final record of a remainder of at
   * least 8 cycles, at the cursor: the loop adds k times 0x1FFFFF and the
   * remainder divided by 8, and stops right after them.
   */
  lemma {:induction false} RecordsRead(d: TapFileDec.Dec, acc: uint32, k: nat, rest: nat, t: seq<uint8>)
    requires d.Valid() && d.version != 0 && 8 <= rest < TapFileEnc.OVERFLOW_HI
    requires Records(Rest(d.cur), k, rest, t)
    ensures var r := TapFileDec.PulseLoop(d, acc);
      r.ok && r.pulse == Chunks(acc, k, rest / 8) && Rest(r.dec.cur) == t
    decreases k
  {
    if k >= 1 {
      PeelRecord(d, acc, k, rest, t);
      var c := TapFileDec.ReadRecord(d.version, d.cur).cur;
      RecordsRead(d.(cur := c), U32(acc + 0x1F_FFFF), k - 1, rest, t);
      StepCarry(TapFileDec.PulseLoop(d, acc), TapFileDec.PulseLoop(d.(cur := c), U32(acc + 0x1F_FFFF)), acc, k, rest / 8, t);
    } else {
      FinalRecordStep(d, acc, rest, t);
    }
  }

  /**
   * The records of one pulse, at the cursor of a version 1 or 2 reader,
   * are read by the accumulation loop as the pulse in the reader's units,
   * added to what came before, and the loop stops right after them. This
   * holds when the pulse leaves a remainder of at least 8 cycles; a
   * smaller remainder ends the pulse with a lone zero byte.
   */
  lemma PulseLoopReads(d: TapFileDec.Dec, acc: uint32, pulse: uint32, t: seq<uint8>)
    requires d.Valid() && d.version != 0 && pulse % 0xFF_FFFF >= 8
    requires Rest(d.cur) == TapFileEnc.EncodeV12(pulse) + t
    ensures var r := TapFileDec.PulseLoop(d, acc);
      r.ok && r.pulse == U32(acc + Decoded(pulse)) && Rest(r.dec.cur) == t
  {
    var k, rest := pulse / 0xFF_FFFF, pulse % 0xFF_FFFF;
    TapFileEnc.EncodeV12Shape(pulse);
    RecordsLayout(k, rest, t);
    RecordsRead(d, acc, k, rest, t);
    ChunksSum(acc, k, rest / 8);
    assert acc + k * 0x1F_FFFF + rest / 8 == acc + Decoded(pulse);
  }

  /** The bytes of a list of pulses in versions 1 and 2, pulse after pulse. */
  function V12Bytes(pulses: seq<uint32>): seq<uint8>
  {
    if pulses == [] then [] else TapFileEnc.EncodeV12(pulses[0]) + V12Bytes(pulses[1..])
  }

  /** Appending a pulse appends its records. */
  lemma {:induction false} V12BytesSnoc(pulses: seq<uint32>, p: uint32)
    ensures V12Bytes(pulses + [p]) == V12Bytes(pulses) + TapFileEnc.EncodeV12(p)
    decreases |pulses|
  {
    if pulses == [] {
      assert [p][1..] == [];
    } else {
      assert (pulses + [p])[1..] == pulses[1..] + [p];
      V12BytesSnoc(pulses[1..], p);
      AppendAssoc(TapFileEnc.EncodeV12(pulses[0]), V12Bytes(pulses[1..]), TapFileEnc.EncodeV12(p));
    }
  }

  /** In versions 1 and 2 the writer's bytes for a buffer are the records of its pulses in order, whatever the flag. */
  lemma {:induction false} EncodePulsesV12(version: uint8, pulses: seq<uint32>, lastWasOverflow: bool)
    requires version != 0
    ensures TapFileEnc.EncodePulses(version, pulses, lastWasOverflow) == (V12Bytes(pulses), lastWasOverflow)
    decreases |pulses|
  {
    if pulses != [] {
      var init := pulses[..|pulses| - 1];
      EncodePulsesV12(version, init, lastWasOverflow);
      assert init + [pulses[|pulses| - 1]] == pulses;
      V12BytesSnoc(init, pulses[|pulses| - 1]);
    }
  }

  /** The pulses a version 1 or 2 reader gives for the pulses written. */
  function DecodedAll(pulses: seq<uint32>): (r: seq<uint32>)
    ensures |r| == |pulses|
    ensures forall i :: 0 <= i < |pulses| ==> r[i] == Decoded(pulses[i])
  {
    if pulses == [] then [] else [Decoded(pulses[0])] + DecodedAll(pulses[1..])
  }

  /** No pulse's remainder is below 8 clock cycles. */
  predicate Readable(pulses: seq<uint32>)
  {
    forall i :: 0 <= i < |pulses| ==> pulses[i] % 0xFF_FFFF >= 8
  }

  /**
   * A reader past a valid header, with the records of the pulses and
   * nothing else to read, gives back every pulse in its units and then
   * stops, the version unchanged.
   */
  lemma {:induction false} DrainReads(d: TapFileDec.Dec, pulses: seq<uint32>)
    requires d.Valid() && d.readHeader && d.version != 0 && Readable(pulses)
    requires Rest(d.cur) == V12Bytes(pulses)
    ensures TapFileDec.Drain(d).0 == DecodedAll(pulses)
    ensures TapFileDec.Drain(d).1.readHeader && TapFileDec.Drain(d).1.version == d.version
    decreases |pulses|
  {
    TapFileDec.DrainUnfold(d);
    TapFileDec.PulseLoopUnfold(d, 0);
    if pulses == [] {
      ReadAtEnd(d.version, d.cur);
    } else {
      PulseLoopReads(d, 0, pulses[0], V12Bytes(pulses[1..]));
      var g := TapFileDec.GetPulse(d);
      assert g.pulse == Decoded(pulses[0]);
      DrainReads(g.dec, pulses[1..]);
    }
  }

  /**
   * A whole version 1 or 2 file: the writer's header (with any length)
   * and the bytes of one chain call, read from the start by a fresh
   * reader, push or pull, give back every pulse in the reader's units.
   */
  lemma RoundTrip(version: uint8, machine: uint8, video: uint8, len: uint32, pulses: seq<uint32>, flushes: bool)
    requires 1 <= version <= 2 && machine <= 2 && video <= 1 && Readable(pulses)
    ensures var file := TapFileEnc.Header(version, machine, video, len)
                        + TapFileEnc.EncodePulses(version, pulses, false).0;
      var out := TapFileDec.Drain(TapFileDec.Dec(false, false, 0, TapFileDec.Cursor(file, 0, flushes)));
      out.0 == DecodedAll(pulses) && out.1.readHeader && out.1.version == version
  {
    var h := TapFileEnc.Header(version, machine, video, len);
    EncodePulsesV12(version, pulses, false);
    var file := h + V12Bytes(pulses);
    var d := TapFileDec.Dec(false, false, 0, TapFileDec.Cursor(file, 0, flushes));
    HeaderRoundTrip(version, machine, video, len);
    assert file[..TapFileDec.HEADER_SIZE] == h;
    assert file[TapFileDec.HEADER_SIZE..] == V12Bytes(pulses);
    var d1 := TapFileDec.HeaderStep(d).1;
    assert TapFileDec.HeaderStep(d) == (true, d1) && d1.readHeader && d1.version == version;
    assert Rest(d1.cur) == V12Bytes(pulses);
    assert TapFileDec.GetPulse(d) == TapFileDec.GetPulse(d1);
    TapFileDec.DrainUnfold(d);
    TapFileDec.DrainUnfold(d1);
    DrainReads(d1, pulses);
  }
}
