/**
 * The TAP file reader (`tapfiledec`): validates the 20-byte TAP header and
 * turns the pulse bytes back into 32-bit pulse lengths, in units of 8 clock
 * cycles. Bytes come either from an adapter filled by upstream pushes (push
 * mode) or from the upstream file pulled at an offset (pull mode); both are
 * read through the byte cursor `in_offset`.
 */
module TapFileDec {
  import opened Bytes

  const HEADER_SIZE: nat := 20
  /** What a version-0 zero byte stands for. */
  const ONE_BYTE_OVERFLOW: nat := 0x100
  /** The 24-bit value that marks a version 1/2 record as an overflow record. */
  const THREE_BYTE_OVERFLOW: nat := 0xFFFFFF
  /** Decoded pulses are pushed in buffers of this many bytes. */
  const OUTPUT_SIZE: nat := 128

  /** "C64-TAPE-RAW" */
  const C64_SIGNATURE: seq<uint8> := [0x43, 0x36, 0x34, 0x2D, 0x54, 0x41, 0x50, 0x45, 0x2D, 0x52, 0x41, 0x57]
  /** "C16-TAPE-RAW" */
  const C16_SIGNATURE: seq<uint8> := [0x43, 0x31, 0x36, 0x2D, 0x54, 0x41, 0x50, 0x45, 0x2D, 0x52, 0x41, 0x57]

  /** The output rates (machine clock divided by 8), indexed by machine and video standard. */
  const TAP_CLOCKS: seq<seq<nat>> := [[123156, 127840], [138550, 127840], [110840, 111860]]

  /** What a valid header tells the source pad: the rate and whether pulses are half waves. */
  datatype StreamInfo = StreamInfo(version: uint8, rate: nat, semiwaves: bool)

  /**
   * Header validation: signature, then version, machine and video standard.
   * A header is accepted exactly when it carries one of the two signatures
   * and known version, machine and video values; the rate is the clock of
   * that machine and standard divided by 8, and version 2 means half waves.
   */
  function ParseHeader(h: seq<uint8>): (r: Option<StreamInfo>)
    requires |h| == HEADER_SIZE
    ensures r.Some? <==>
      (h[..12] == C64_SIGNATURE || h[..12] == C16_SIGNATURE) && h[12] <= 2 && h[13] <= 2 && h[14] <= 1
    ensures r.Some? ==> r.value == StreamInfo(h[12], TAP_CLOCKS[h[13]][h[14]], h[12] == 2)
    ensures r.Some? ==> r.value.rate in {110840, 111860, 123156, 127840, 138550}
  {
    var invalid := h[..12] != C64_SIGNATURE && h[..12] != C16_SIGNATURE;
    var version := h[12];
    var invalid := invalid || (version != 0 && version != 1 && version != 2);
    var machine := h[13];
    var invalid := invalid || (machine != 0 && machine != 1 && machine != 2);
    var video := h[14];
    var invalid := invalid || (video != 0 && video != 1);
    if invalid then None
    else Some(StreamInfo(version, TAP_CLOCKS[machine][video], version == 2))
  }

  /**
   * The byte cursor: the bytes reachable (the adapter's contents, or the whole
   * upstream file in pull mode), the read offset `in_offset`, and whether a
   * flush drops the bytes read so far (push mode) or does nothing (pull mode).
   */
  datatype Cursor = Cursor(bytes: seq<uint8>, offset: nat, flushes: bool) {
    predicate Valid() { offset <= |bytes| }
    function Remaining(): nat requires Valid() { |bytes| - offset }
  }

  /** `read_from_adapter` / `read_from_peer`: n bytes at the offset, or nothing and no move. */
  function Read(c: Cursor, n: nat): Option<(seq<uint8>, Cursor)>
    requires c.Valid()
  {
    if |c.bytes| < c.offset + n then None
    else Some((c.bytes[c.offset..c.offset + n], c.(offset := c.offset + n)))
  }

  /** `flush_adapter` / `flush_peer`. */
  function Flush(c: Cursor): (r: Cursor)
    requires c.Valid()
    ensures r.Valid() && r.Remaining() == c.Remaining()
    ensures r.bytes[r.offset..] == c.bytes[c.offset..] && r.flushes == c.flushes
    ensures r.flushes ==> r.offset == 0
  {
    if c.flushes then Cursor(c.bytes[c.offset..], 0, true) else c
  }

  /** The decoder's state as `get_pulse_from_tap` sees it. */
  datatype Dec = Dec(readHeader: bool, invalidHeader: bool, version: uint8, cur: Cursor) {
    /** A header is never both accepted and rejected. */
    predicate Valid() { cur.Valid() && (readHeader ==> !invalidHeader) }
  }

  /** The outcome of one `get_pulse_from_tap` call: success, the pulse, the new state. */
  datatype Step = Step(ok: bool, pulse: uint32, dec: Dec)

  /**
   * One record read at the cursor: a record cut short by the end of the
   * input (the cursor is left wherever the failed read left it), or the
   * amount the record adds to the pulse, whether it is an overflow record
   * that the next one continues, and the cursor after the record, flushed.
   */
  datatype Record = Short(cur: Cursor) | Full(value: nat, more: bool, cur: Cursor)

  function ReadRecord(version: uint8, c: Cursor): (r: Record)
    requires c.Valid()
    ensures r.cur.Valid() && r.cur.Remaining() <= c.Remaining()
    ensures r.Full? ==> r.cur.Remaining() < c.Remaining()
  {
    var r1 := Read(c, 1);
    if r1.None? then Short(c)
    else
      var b := r1.value.0[0];
      var c1 := r1.value.1;
      if b == 0 && version != 0 then
        var r3 := Read(c1, 3);
        if r3.None? then Short(c1)
        else
          var v := FromLe(r3.value.0);
          Full(v / 8, v == THREE_BYTE_OVERFLOW, Flush(r3.value.1))
      else
        Full(if b == 0 then ONE_BYTE_OVERFLOW else b, false, Flush(c1))
  }

  /**
   * The accumulation loop: one record per iteration, flushed as soon as it
   * is read; an overflow record (`00 FF FF FF`) adds 0xFFFFFF/8 and goes on.
   */
  function PulseLoop(d: Dec, acc: uint32): (r: Step)
    requires d.Valid()
    ensures r.dec.Valid() && r.dec == d.(cur := r.dec.cur)
    ensures r.dec.cur.Remaining() <= d.cur.Remaining()
    ensures r.ok ==> r.dec.cur.Remaining() < d.cur.Remaining()
    decreases d.cur.Remaining()
  {
    match ReadRecord(d.version, d.cur)
    case Short(c) => Step(false, acc, d.(cur := c))
    case Full(v, more, c) =>
      if more then PulseLoop(d.(cur := c), U32(acc + v))
      else Step(true, U32(acc + v), d.(cur := c))
  }

  /** One turn of the accumulation loop. */
  lemma PulseLoopUnfold(d: Dec, acc: uint32)
    requires d.Valid()
    ensures var r := ReadRecord(d.version, d.cur);
      && (r.Short? ==> PulseLoop(d, acc) == Step(false, acc, d.(cur := r.cur)))
      && (r.Full? && !r.more ==> PulseLoop(d, acc) == Step(true, U32(acc + r.value), d.(cur := r.cur)))
      && (r.Full? && r.more ==> PulseLoop(d, acc) == PulseLoop(d.(cur := r.cur), U32(acc + r.value)))
  {
  }

  /**
   * The header part of `get_pulse_from_tap`: read, validated and flushed
   * once; whether pulse decoding may go on, and the new state.
   */
  function HeaderStep(d: Dec): (r: (bool, Dec))
    requires d.Valid()
    ensures r.1.Valid() && r.1.cur.Remaining() <= d.cur.Remaining()
    ensures r.0 == r.1.readHeader
  {
    if !d.readHeader && !d.invalidHeader then
      var r := Read(d.cur, HEADER_SIZE);
      if r.None? then (false, d)
      else
        var h := r.value.0;
        var invalid := ParseHeader(h).None?;
        var d' := d.(invalidHeader := invalid, version := h[12], cur := Flush(r.value.1));
        if invalid then (false, d') else (true, d'.(readHeader := true))
    else (d.readHeader, d)
  }

  /** `get_pulse_from_tap`: the header first (once), then one pulse. */
  function GetPulse(d: Dec): (r: Step)
    requires d.Valid()
    ensures r.dec.Valid() && r.dec.cur.Remaining() <= d.cur.Remaining()
    ensures r.ok ==> r.dec.cur.Remaining() < d.cur.Remaining()
  {
    var (go, d') := HeaderStep(d);
    if !go then Step(false, 0, d') else PulseLoop(d', 0)
  }

  /**
   * No pulse comes out of a stream whose header has not been read and
   * found valid; once a header is rejected nothing moves any more; while
   * fewer than 20 bytes are there, nothing is consumed; and every pulse
   * consumes input.
   */
  lemma GetPulseNeedsHeader(d: Dec)
    requires d.Valid()
    ensures GetPulse(d).ok ==> GetPulse(d).dec.readHeader && !GetPulse(d).dec.invalidHeader
    ensures d.invalidHeader ==> GetPulse(d) == Step(false, 0, d)
    ensures !d.readHeader && d.cur.Remaining() < HEADER_SIZE ==> GetPulse(d) == Step(false, 0, d)
    ensures d.readHeader ==> GetPulse(d).dec.readHeader && GetPulse(d).dec.version == d.version
  {
  }

  /** Calling `get_pulse_from_tap` until it fails: the pulses and the final state. */
  function Drain(d: Dec): (r: (seq<uint32>, Dec))
    requires d.Valid()
    ensures r.1.Valid()
    decreases d.cur.Remaining()
  {
    var g := GetPulse(d);
    if !g.ok then ([], g.dec)
    else
      var rest := Drain(g.dec);
      ([g.pulse] + rest.0, rest.1)
  }

  /**
   * The loop of `get_range`: at most k more calls of `get_pulse_from_tap`,
   * the pulses collected so far in acc; the pulses, the final state, and
   * whether the loop stopped on a rejected header.
   */
  function PullLoop(d: Dec, k: nat, acc: seq<uint32>): (r: (seq<uint32>, Dec, bool))
    requires d.Valid()
    ensures r.1.Valid() && |r.0| <= |acc| + k
    decreases k
  {
    if k == 0 then (acc, d, false)
    else
      var g := GetPulse(d);
      if !g.ok then (acc, g.dec, g.dec.invalidHeader)
      else PullLoop(g.dec, k - 1, acc + [g.pulse])
  }

  /** One turn of the `get_range` loop. */
  lemma PullLoopUnfold(d: Dec, k: nat, acc: seq<uint32>)
    requires d.Valid() && k > 0
    ensures var g := GetPulse(d);
      && (!g.ok ==> PullLoop(d, k, acc) == (acc, g.dec, g.dec.invalidHeader))
      && (g.ok ==> PullLoop(d, k, acc) == PullLoop(g.dec, k - 1, acc + [g.pulse]))
  {
  }

  /** The first call of a drain, separated from the rest. */
  lemma DrainUnfold(d: Dec)
    requires d.Valid()
    ensures var g := GetPulse(d);
      && (g.ok ==> Drain(d).0 == [g.pulse] + Drain(g.dec).0 && Drain(d).1 == Drain(g.dec).1)
      && (!g.ok ==> Drain(d) == ([], g.dec))
  {
  }

  /**
   * Pull mode and push mode decode the same pulses: with room for more
   * pulses than the bytes hold, the `get_range` loop collects exactly the
   * pulses a drain of the same state decodes, ends in the same state, and
   * reports a rejected header exactly when that state has one.
   */
  lemma {:induction false} PullLoopDrains(d: Dec, k: nat, acc: seq<uint32>)
    requires d.Valid() && |Drain(d).0| < k
    ensures PullLoop(d, k, acc) == (acc + Drain(d).0, Drain(d).1, Drain(d).1.invalidHeader)
    decreases k
  {
    // Every step below is a lemma call: the definitions are not needed here.
    hide *;
    var g := GetPulse(d);
    DrainUnfold(d);
    PullLoopUnfold(d, k, acc);
    if g.ok {
      PullLoopDrains(g.dec, k - 1, acc + [g.pulse]);
      assert acc + [g.pulse] + Drain(g.dec).0 == acc + Drain(d).0;
    } else {
      assert acc + Drain(d).0 == acc;
    }
  }

  /** Every buffer of the list holds exactly `OUTPUT_SIZE` bytes of pulses. */
  predicate AllFull(bufs: seq<seq<uint32>>)
  {
    bufs == [] || (AllFull(bufs[..|bufs| - 1]) && 4 * |bufs[|bufs| - 1]| == OUTPUT_SIZE)
  }

  class TapFileDec {
    var readHeader: bool
    var invalidHeader: bool
    var version: uint8
    var inOffset: nat
    /** The bytes pushed by upstream and not yet flushed (push mode). */
    var adapter: seq<uint8>
    /** The upstream file, read at `inOffset` (pull mode). */
    var file: seq<uint8>
    /** Whether the source pad is driven by pulls (`get_range`) rather than by pushes (`chain`). */
    var pullMode: bool
    /** Decoded pulses waiting in the output adapter. */
    var outAdapter: seq<uint32>
    /** The buffers of pulses pushed downstream, in order. */
    var pushed: seq<seq<uint32>>

    function Cur(): Cursor
      reads this`pullMode, this`file, this`inOffset, this`adapter
    {
      if pullMode then Cursor(file, inOffset, false) else Cursor(adapter, inOffset, true)
    }

    function State(): Dec
      reads this`readHeader, this`invalidHeader, this`version, this`pullMode, this`file, this`inOffset, this`adapter
    {
      Dec(readHeader, invalidHeader, version, Cur())
    }

    /** Pushed buffers are exactly `OUTPUT_SIZE` bytes; the output adapter holds less. */
    ghost predicate Valid()
      reads this
    {
      && inOffset <= (if pullMode then |file| else |adapter|)
      && (readHeader ==> !invalidHeader)
      && 4 * |outAdapter| < OUTPUT_SIZE
      && AllFull(pushed)
    }

    constructor (pullMode: bool, file: seq<uint8>)
      ensures Valid() && this.pullMode == pullMode && this.file == file
      ensures !readHeader && !invalidHeader && inOffset == 0 && adapter == [] && outAdapter == [] && pushed == []
    {
      readHeader, invalidHeader, version := false, false, 0;
      inOffset := 0;
      adapter, this.file, this.pullMode := [], file, pullMode;
      outAdapter, pushed := [], [];
    }

    /** `read_from_adapter`: NULL and no move when fewer than n bytes remain past the offset. */
    method ReadFromAdapter(n: nat) returns (r: Option<seq<uint8>>)
      requires Valid() && !pullMode
      modifies this`inOffset
      ensures Valid()
      ensures old(inOffset) + n > |adapter| ==> r.None? && inOffset == old(inOffset)
      ensures old(inOffset) + n <= |adapter| ==>
        r == Some(adapter[old(inOffset)..old(inOffset) + n]) && inOffset == old(inOffset) + n
    {
      if |adapter| < inOffset + n {
        return None;
      }
      r := Some(adapter[inOffset..inOffset + n]);
      inOffset := inOffset + n;
    }

    /** `read_from_peer`: a pull of n bytes of the file at the offset. */
    method ReadFromPeer(n: nat) returns (r: Option<seq<uint8>>)
      requires Valid() && pullMode
      modifies this`inOffset
      ensures Valid()
      ensures old(inOffset) + n > |file| ==> r.None? && inOffset == old(inOffset)
      ensures old(inOffset) + n <= |file| ==>
        r == Some(file[old(inOffset)..old(inOffset) + n]) && inOffset == old(inOffset) + n
    {
      if |file| < inOffset + n {
        return None;
      }
      r := Some(file[inOffset..inOffset + n]);
      inOffset := inOffset + n;
    }

    /** The read function of the current mode. */
    method ReadData(n: nat) returns (r: Option<seq<uint8>>)
      requires Valid()
      modifies this`inOffset
      ensures Valid()
      ensures var x := Read(old(Cur()), n);
        && (x.None? ==> r.None? && Cur() == old(Cur()))
        && (x.Some? ==> r == Some(x.value.0) && Cur() == x.value.1)
    {
      if pullMode {
        r := ReadFromPeer(n);
      } else {
        r := ReadFromAdapter(n);
      }
    }

    /** `flush_adapter` drops the bytes read and restarts the offset; `flush_peer` does nothing. */
    method FlushData()
      requires Valid()
      modifies this`adapter, this`inOffset
      ensures Valid() && Cur() == Flush(old(Cur()))
    {
      if !pullMode {
        adapter := adapter[inOffset..];
        inOffset := 0;
      }
    }

    /** The header part of `get_pulse_from_tap`. */
    method ReadTapHeader() returns (go: bool)
      requires Valid()
      modifies this`readHeader, this`invalidHeader, this`version, this`inOffset, this`adapter
      ensures Valid()
      ensures (go, State()) == HeaderStep(old(State()))
    {
      if !readHeader && !invalidHeader {
        var headerBuf := ReadData(HEADER_SIZE);
        if headerBuf.None? {
          return false;
        }
        var h := headerBuf.value;
        invalidHeader := ParseHeader(h).None?;
        version := h[12];
        FlushData();
        if invalidHeader {
          return false;
        }
        readHeader := true;
      }
      go := readHeader;
    }

    /** One iteration of the accumulation loop: read a record and flush it. */
    method ReadOneRecord() returns (r: Record)
      requires Valid()
      modifies this`inOffset, this`adapter
      ensures Valid() && r == ReadRecord(version, old(Cur())) && Cur() == r.cur
    {
      var inbuf := ReadData(1);
      if inbuf.None? {
        return Short(Cur());
      }
      var b := inbuf.value[0];
      if b == 0 && version != 0 {
        var inbuf2 := ReadData(3);
        if inbuf2.None? {
          return Short(Cur());
        }
        var inpulse := FromLe(inbuf2.value);
        FlushData();
        r := Full(inpulse / 8, inpulse == THREE_BYTE_OVERFLOW, Cur());
      } else {
        FlushData();
        r := Full(if b == 0 then ONE_BYTE_OVERFLOW else b, false, Cur());
      }
    }

    /** One turn of the accumulation loop, with acc accumulated so far. */
    method AccumulateOne(ghost acc: uint32) returns (r: Record)
      requires Valid()
      modifies this`inOffset, this`adapter
      ensures Valid() && State() == old(State()).(cur := r.cur)
      ensures r.Short? ==> PulseLoop(old(State()), acc) == Step(false, acc, State())
      ensures r.Full? && !r.more ==> PulseLoop(old(State()), acc) == Step(true, U32(acc + r.value), State())
      ensures r.Full? && r.more ==> PulseLoop(old(State()), acc) == PulseLoop(State(), U32(acc + r.value))
      ensures r.Full? ==> r.cur.Remaining() < old(Cur().Remaining())
    {
      PulseLoopUnfold(State(), acc);
      r := ReadOneRecord();
    }

    /** The accumulation loop of `get_pulse_from_tap`, once the header is read. */
    method AccumulatePulse() returns (ok: bool, pulse: uint32)
      requires Valid() && readHeader
      modifies this`inOffset, this`adapter
      ensures Valid()
      ensures var s := PulseLoop(old(State()), 0);
        ok == s.ok && (ok ==> pulse == s.pulse) && State() == s.dec
    {
      pulse := 0;
      ghost var d := State();
      while true
        invariant Valid() && d == State()
        invariant PulseLoop(old(State()), 0) == PulseLoop(d, pulse)
        decreases d.cur.Remaining()
      {
        var r := AccumulateOne(pulse);
        if r.Short? {
          return false, pulse;
        }
        pulse := U32(pulse + r.value);
        if !r.more {
          return true, pulse;
        }
        d := State();
      }
    }

    /** `get_pulse_from_tap`. */
    method GetPulseFromTap() returns (ok: bool, pulse: uint32)
      requires Valid()
      modifies this`readHeader, this`invalidHeader, this`version, this`inOffset, this`adapter
      ensures Valid()
      ensures var s := GetPulse(old(State()));
        ok == s.ok && (ok ==> pulse == s.pulse) && State() == s.dec
    {
      var go := ReadTapHeader();
      if !go {
        return false, 0;
      }
      ok, pulse := AccumulatePulse();
    }

    /** Queues a pulse; the output adapter is pushed once it holds `OUTPUT_SIZE` bytes. */
    method AddToOutAdapter(pulse: uint32)
      requires Valid()
      modifies this`outAdapter, this`pushed
      ensures Valid()
      ensures Concat(pushed) + outAdapter == old(Concat(pushed) + outAdapter) + [pulse]
    {
      AppendAssoc(Concat(pushed), outAdapter, [pulse]);
      outAdapter := outAdapter + [pulse];
      if 4 * |outAdapter| >= OUTPUT_SIZE {
        ConcatAppend(pushed, outAdapter);
        AppendEmpty(Concat(pushed + [outAdapter]));
        assert (pushed + [outAdapter])[..|pushed|] == pushed;
        pushed := pushed + [outAdapter];
        outAdapter := [];
      }
    }

    /**
     * What the chain loop keeps: the pulses queued so far, followed by the
     * pulses a drain from here gives, are the pulses of the drain from
     * where the loop started, and the output holds exactly the pulses
     * queued.
     */
    ghost predicate Draining(total: (seq<uint32>, Dec), out0: seq<uint32>, emitted: seq<uint32>)
      reads this
    {
      && Valid() && !pullMode
      && total.0 == emitted + Drain(State()).0 && total.1 == Drain(State()).1
      && Concat(pushed) + outAdapter == out0 + emitted
    }

    /** One turn of the chain loop: a pulse is decoded and queued, or decoding stops. */
    method DecodeOne(ghost total: (seq<uint32>, Dec), ghost out0: seq<uint32>, ghost emitted: seq<uint32>)
      returns (got: bool, ghost nemitted: seq<uint32>)
      requires Draining(total, out0, emitted)
      modifies this`readHeader, this`invalidHeader, this`version, this`inOffset, this`adapter, this`outAdapter, this`pushed
      ensures Valid() && !pullMode && Concat(pushed) + outAdapter == out0 + nemitted
      ensures got ==> Draining(total, out0, nemitted) && Cur().Remaining() < old(Cur().Remaining())
      ensures !got ==> total == (nemitted, State())
    {
      ghost var d0 := State();
      DrainUnfold(d0);
      var pulse;
      got, pulse := GetPulseFromTap();
      ghost var d1 := State();
      nemitted := emitted;
      if got {
        AddToOutAdapter(pulse);
        assert State() == d1;
        AppendAssoc(emitted, [pulse], Drain(State()).0);
        AppendAssoc(out0, emitted, [pulse]);
        nemitted := emitted + [pulse];
      } else {
        AppendEmpty(emitted);
      }
    }

    /** The loop of the chain function: decode and queue pulses until decoding stops. */
    method DecodeAll()
      requires Valid() && !pullMode
      modifies this`readHeader, this`invalidHeader, this`version, this`inOffset, this`adapter, this`outAdapter, this`pushed
      ensures Valid() && !pullMode
      ensures State() == Drain(old(State())).1
      ensures Concat(pushed) + outAdapter == old(Concat(pushed) + outAdapter) + Drain(old(State())).0
    {
      ghost var total := Drain(State());
      ghost var out0 := Concat(pushed) + outAdapter;
      ghost var emitted: seq<uint32> := [];
      while true
        invariant Draining(total, out0, emitted)
        decreases Cur().Remaining()
      {
        var got;
        got, emitted := DecodeOne(total, out0, emitted);
        if !got {
          break;
        }
      }
    }

    /**
     * The chain function: the new bytes join the adapter, pulses are decoded
     * while possible and collected in the output adapter, which is pushed
     * whenever it holds `OUTPUT_SIZE` bytes. Fails once the header is invalid.
     */
    method Chain(buf: seq<uint8>) returns (ok: bool)
      requires Valid() && !pullMode
      modifies this
      ensures Valid() && !pullMode && file == old(file)
      ensures var dr := Drain(old(State()).(cur := Cursor(old(adapter) + buf, old(inOffset), true)));
        && State() == dr.1
        && Concat(pushed) + outAdapter == old(Concat(pushed) + outAdapter) + dr.0
      ensures ok == !invalidHeader
    {
      adapter := adapter + buf;
      DecodeAll();
      ok := !invalidHeader;
    }

    /** One turn of the `get_range` loop, k turns being left and acc pulled so far. */
    method PullOne(ghost k: nat, ghost acc: seq<uint32>) returns (got: bool, pulse: uint32)
      requires Valid() && pullMode && k > 0
      modifies this`readHeader, this`invalidHeader, this`version, this`inOffset, this`adapter
      ensures Valid() && pullMode
      ensures got ==> PullLoop(old(State()), k, acc) == PullLoop(State(), k - 1, acc + [pulse])
      ensures !got ==> PullLoop(old(State()), k, acc) == (acc, State(), invalidHeader)
    {
      PullLoopUnfold(State(), k, acc);
      got, pulse := GetPulseFromTap();
    }

    /**
     * `get_range`: pulls as many pulses as fit in `length` bytes; fails only
     * when the header turned out to be invalid.
     */
    method GetRange(length: uint32) returns (ok: bool, out: seq<uint32>)
      requires Valid() && pullMode
      modifies this`readHeader, this`invalidHeader, this`version, this`inOffset, this`adapter
      ensures Valid()
      ensures 4 * |out| <= length
      ensures var r := PullLoop(old(State()), length / 4, []);
        State() == r.1 && out == r.0 && ok == !r.2
    {
      out := [];
      ghost var d := State();
      ghost var n: nat := length / 4;
      ghost var k: nat := n;
      assert 4 * n <= length < 4 * n + 4;
      while 4 * |out| + 4 <= length
        invariant Valid() && pullMode && d == State()
        invariant k + |out| == n && 4 * n <= length < 4 * n + 4
        invariant PullLoop(old(State()), n, []) == PullLoop(d, k, out)
        decreases k
      {
        var got, pulse := PullOne(k, out);
        if !got {
          if invalidHeader {
            return false, out;
          }
          return true, out;
        }
        out := out + [pulse];
        d := State();
        k := k - 1;
      }
      ok := true;
    }
  }
}
