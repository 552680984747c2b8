/**
 * The first-generation TAP reader (`src/gsttapfiledec.c`): every chain
 * call adds its bytes to the adapter, takes the 20-byte header once 20
 * bytes are there, and then decodes whole pulses by peeking ahead,
 * dropping a pulse's bytes from the adapter only once the pulse is
 * complete. A version-0 zero byte adds 0x100 to the pulse and the pulse
 * goes on into the next byte. Pulses go out 32 to a 128-byte buffer.
 */
module OldTapFileDec {
  import opened Bytes
  import TapFileDec

  /** "C64-FILE-RAW" */
  const C64_FILE_SIGNATURE: seq<uint8> := [0x43, 0x36, 0x34, 0x2D, 0x46, 0x49, 0x4C, 0x45, 0x2D, 0x52, 0x41, 0x57]
  /** "C16-FILE-RAW" */
  const C16_FILE_SIGNATURE: seq<uint8> := [0x43, 0x31, 0x36, 0x2D, 0x46, 0x49, 0x4C, 0x45, 0x2D, 0x52, 0x41, 0x57]

  /** Pulses per 128-byte output buffer. */
  const PULSES_PER_BUFFER: nat := TapFileDec.OUTPUT_SIZE / 4

  /**
   * Header validation: accepted exactly when it carries one of the two
   * file signatures and known version, machine and video values; the rate
   * is the clock divided by 8, and version 2 means half waves.
   */
  function ParseHeader(h: seq<uint8>): (r: Option<TapFileDec.StreamInfo>)
    requires |h| == TapFileDec.HEADER_SIZE
    ensures r.Some? <==>
      (h[..12] == C64_FILE_SIGNATURE || h[..12] == C16_FILE_SIGNATURE) && h[12] <= 2 && h[13] <= 2 && h[14] <= 1
    ensures r.Some? ==> r.value == TapFileDec.StreamInfo(h[12], TapFileDec.TAP_CLOCKS[h[13]][h[14]], h[12] == 2)
  {
    var valid := h[..12] == C64_FILE_SIGNATURE || h[..12] == C16_FILE_SIGNATURE;
    var version := h[12];
    var valid := valid && (version == 0 || version == 1 || version == 2);
    var machine := h[13];
    var valid := valid && (machine == 0 || machine == 1 || machine == 2);
    var video := h[14];
    var valid := valid && (video == 0 || video == 1);
    if !valid then None
    else Some(TapFileDec.StreamInfo(version, TapFileDec.TAP_CLOCKS[machine][video], version == 2))
  }

  /**
   * The pulse that starts at byte `at`, `acc` being what its earlier
   * records added (modulo 2^32): the pulse and the index just past it, or
   * None when the bytes end before the pulse does. A non-zero byte ends
   * the pulse with its value; a version-0 zero byte adds 0x100 and goes on;
   * in versions 1 and 2 a zero byte and a 24-bit field add the field
   * divided by 8, and go on only when the field is 0xFFFFFF.
   */
  function Scan(version: uint8, s: seq<uint8>, at: nat, acc: uint32): (r: Option<(uint32, nat)>)
    requires at <= |s|
    ensures r.Some? ==> at < r.value.1 <= |s|
    decreases |s| - at
  {
    if at == |s| then None
    else if s[at] != 0 then Some((U32(acc + s[at]), at + 1))
    else if version == 0 then Scan(version, s, at + 1, U32(acc + TapFileDec.ONE_BYTE_OVERFLOW))
    else if at + 4 > |s| then None
    else
      var field := FieldAt(s, at + 1, 3);
      if field == TapFileDec.THREE_BYTE_OVERFLOW then Scan(version, s, at + 4, U32(acc + field / 8))
      else Some((U32(acc + field / 8), at + 4))
  }

  /**
   * In version 0 a zero byte does not end the pulse: it adds 0x100 and
   * the next byte is part of the same pulse.
   */
  lemma ZeroByteContinues(b: uint8, t: seq<uint8>, acc: uint32)
    requires b != 0
    ensures Scan(0, [0, b] + t, 0, acc) == Some((U32(acc + TapFileDec.ONE_BYTE_OVERFLOW + b), 2))
  {
    var s := [0, b] + t;
    assert s[0] == 0 && s[1] == b;
    U32Add(acc + TapFileDec.ONE_BYTE_OVERFLOW, b);
  }

  /** The same from within: after a version-0 zero byte the pulse goes on at the next byte with 0x100 more. */
  lemma ZeroByteOverflowV0(t: seq<uint8>, acc: uint32)
    ensures Scan(0, [0] + t, 0, acc) == Shifted(Scan(0, t, 0, U32(acc + TapFileDec.ONE_BYTE_OVERFLOW)), 1)
  {
    var s := [0] + t;
    assert s[0] == 0 && s[1..] == t;
    ScanShift(0, s, 1, 0, U32(acc + TapFileDec.ONE_BYTE_OVERFLOW));
  }

  /**
   * In versions 1 and 2 a zero byte opens a 4-byte record: a 24-bit field
   * below the overflow value ends the pulse with the field divided by 8.
   */
  lemma ZeroByteFinalRecord(version: uint8, x: nat, t: seq<uint8>, acc: uint32)
    requires version != 0 && x < TapFileDec.THREE_BYTE_OVERFLOW
    ensures Scan(version, [0] + Le(x, 3) + t, 0, acc) == Some((U32(acc + x / 8), 4))
  {
    var s := [0] + Le(x, 3) + t;
    assert s[0] == 0 && s[1..4] == Le(x, 3);
    FieldAtLe(s, 1, 3, x);
  }

  /** The field 0xFFFFFF makes it an overflow record: 0x1FFFFF is added and the pulse goes on past it. */
  lemma ZeroByteOverflowRecord(version: uint8, t: seq<uint8>, acc: uint32)
    requires version != 0
    ensures var s := [0] + Le(TapFileDec.THREE_BYTE_OVERFLOW, 3) + t;
      Scan(version, s, 0, acc) == Shifted(Scan(version, t, 0, U32(acc + 0x1F_FFFF)), 4)
  {
    var s := [0] + Le(TapFileDec.THREE_BYTE_OVERFLOW, 3) + t;
    assert s[0] == 0 && s[1..4] == Le(TapFileDec.THREE_BYTE_OVERFLOW, 3) && s[4..] == t;
    FieldAtLe(s, 1, 3, TapFileDec.THREE_BYTE_OVERFLOW);
    ScanShift(version, s, 4, 0, U32(acc + 0x1F_FFFF));
  }

  /** Every complete pulse from byte `at` on, and the index just past the last of them. */
  function DecodeFrom(version: uint8, s: seq<uint8>, at: nat): (r: (seq<uint32>, nat))
    requires at <= |s|
    ensures at <= r.1 <= |s|
    decreases |s| - at
  {
    var first := Scan(version, s, at, 0);
    if first.None? then ([], at)
    else
      var rest := DecodeFrom(version, s, first.value.1);
      ([first.value.0] + rest.0, rest.1)
  }

  /** Every complete pulse at the start of the bytes, and how many bytes they take. */
  function DecodeAll(version: uint8, s: seq<uint8>): (seq<uint32>, nat)
  {
    DecodeFrom(version, s, 0)
  }

  /** A pulse complete within some bytes is the same pulse when more bytes follow. */
  lemma {:induction false} ScanExtend(version: uint8, s: seq<uint8>, t: seq<uint8>, at: nat, acc: uint32)
    requires at <= |s| && Scan(version, s, at, acc).Some?
    ensures Scan(version, s + t, at, acc) == Scan(version, s, at, acc)
    decreases |s| - at
  {
    var st := s + t;
    assert st[at] == s[at];
    if s[at] == 0 {
      if version == 0 {
        ScanExtend(version, s, t, at + 1, U32(acc + TapFileDec.ONE_BYTE_OVERFLOW));
      } else {
        FieldAtExtend(s, t, at + 1, 3);
        var field := FieldAt(s, at + 1, 3);
        if field == TapFileDec.THREE_BYTE_OVERFLOW {
          ScanExtend(version, s, t, at + 4, U32(acc + field / 8));
        }
      }
    }
  }

  /** A scan result with its end index moved k bytes on. */
  function Shifted(r: Option<(uint32, nat)>, k: nat): Option<(uint32, nat)>
  {
    if r.None? then None else Some((r.value.0, k + r.value.1))
  }

  /** Scanning the bytes left after dropping k of them is scanning the whole k bytes further on. */
  lemma {:induction false} ScanShift(version: uint8, s: seq<uint8>, k: nat, at: nat, acc: uint32)
    requires k + at <= |s|
    ensures Scan(version, s, k + at, acc) == Shifted(Scan(version, s[k..], at, acc), k)
    decreases |s| - k - at
  {
    var sk := s[k..];
    if k + at < |s| && s[k + at] == 0 {
      assert sk[at] == 0;
      if version == 0 {
        ScanShift(version, s, k, at + 1, U32(acc + TapFileDec.ONE_BYTE_OVERFLOW));
      } else if k + at + 4 <= |s| {
        ScanShiftField(version, s, k, at, acc);
      }
    }
  }

  /** The versions 1 and 2 case of ScanShift: a zero byte with its 24-bit field all there. */
  lemma {:induction false} ScanShiftField(version: uint8, s: seq<uint8>, k: nat, at: nat, acc: uint32)
    requires version != 0 && k + at + 4 <= |s| && s[k + at] == 0
    ensures Scan(version, s, k + at, acc) == Shifted(Scan(version, s[k..], at, acc), k)
    decreases |s| - k - at, 1
  {
    assert s[k..][at] == 0;
    FieldAtShift(s, k, at + 1, 3);
    if FieldAt(s, k + at + 1, 3) == TapFileDec.THREE_BYTE_OVERFLOW {
      ScanShiftOverflow(version, s, k, at, acc);
    }
  }

  /** ScanShiftField when the field is the overflow value and the pulse goes on. */
  lemma {:induction false} ScanShiftOverflow(version: uint8, s: seq<uint8>, k: nat, at: nat, acc: uint32)
    requires version != 0 && k + at + 4 <= |s| && s[k + at] == 0
    requires FieldAt(s, k + at + 1, 3) == TapFileDec.THREE_BYTE_OVERFLOW
    requires FieldAt(s[k..], at + 1, 3) == TapFileDec.THREE_BYTE_OVERFLOW
    ensures Scan(version, s, k + at, acc) == Shifted(Scan(version, s[k..], at, acc), k)
    decreases |s| - k - at, 0
  {
    var next := U32(acc + TapFileDec.THREE_BYTE_OVERFLOW / 8);
    assert s[k..][at] == 0;
    ScanShift(version, s, k, at + 4, next);
  }

  lemma {:induction false} DecodeShift(version: uint8, s: seq<uint8>, k: nat, at: nat)
    requires k + at <= |s|
    ensures DecodeFrom(version, s[k..], at).0 == DecodeFrom(version, s, k + at).0
    ensures k + DecodeFrom(version, s[k..], at).1 == DecodeFrom(version, s, k + at).1
    decreases |s| - k - at
  {
    ScanShift(version, s, k, at, 0);
    var r := Scan(version, s[k..], at, 0);
    if r.Some? {
      DecodeShift(version, s, k, r.value.1);
    }
  }

  /** Decoding on after more bytes arrive: the pulses complete before, then the pulses from there on. */
  lemma {:induction false} DecodeFromExtend(version: uint8, s: seq<uint8>, t: seq<uint8>, at: nat)
    requires at <= |s|
    ensures var (ps, n) := DecodeFrom(version, s, at);
      var more := DecodeFrom(version, s + t, n);
      DecodeFrom(version, s + t, at) == (ps + more.0, more.1)
    decreases |s| - at
  {
    var r := Scan(version, s, at, 0);
    if r.None? {
      var whole := DecodeFrom(version, s + t, at);
      assert [] + whole.0 == whole.0;
    } else {
      ScanExtend(version, s, t, at, 0);
      DecodeFromExtend(version, s, t, r.value.1);
      var (ps', n) := DecodeFrom(version, s, r.value.1);
      var more := DecodeFrom(version, s + t, n);
      assert [r.value.0] + (ps' + more.0) == ([r.value.0] + ps') + more.0;
    }
  }

  /**
   * Decoding does not depend on where the input was split: the pulses of
   * s followed by t are the pulses complete within s, then the pulses of
   * the bytes s leaves undecoded followed by t.
   */
  lemma DecodeAllAppend(version: uint8, s: seq<uint8>, t: seq<uint8>)
    ensures var (ps, n) := DecodeAll(version, s);
      var more := DecodeAll(version, s[n..] + t);
      DecodeAll(version, s + t) == (ps + more.0, n + more.1)
  {
    var n := DecodeAll(version, s).1;
    DecodeFromExtend(version, s, t, 0);
    assert s[n..] + t == (s + t)[n..];
    DecodeShift(version, s + t, n, 0);
  }

  /** Nothing complete is left behind: the undecoded bytes hold no whole pulse. */
  lemma {:induction false} DecodeFromLeavesPartial(version: uint8, s: seq<uint8>, at: nat)
    requires at <= |s|
    ensures Scan(version, s, DecodeFrom(version, s, at).1, 0).None?
    decreases |s| - at
  {
    var r := Scan(version, s, at, 0);
    if r.Some? {
      DecodeFromLeavesPartial(version, s, r.value.1);
    }
  }

  /**
   * Taking the first pulse off the bytes left to decode: what was decoded
   * before it, the pulse itself and what follows it still make up the
   * decoding of the whole.
   */
  lemma DecodeStep(version: uint8, s: seq<uint8>, at: nat, len: nat, pulse: uint32, emitted: seq<uint32>)
    requires at + len <= |s|
    requires Scan(version, s, at, 0) == Some((pulse, at + len))
    requires emitted + DecodeFrom(version, s, at).0 == DecodeAll(version, s).0
    requires DecodeFrom(version, s, at).1 == DecodeAll(version, s).1
    ensures (emitted + [pulse]) + DecodeFrom(version, s, at + len).0 == DecodeAll(version, s).0
    ensures DecodeFrom(version, s, at + len).1 == DecodeAll(version, s).1
  {
    AppendAssoc(emitted, [pulse], DecodeFrom(version, s, at + len).0);
  }

  /** The output side: the buffers pushed and the buffer being filled, if any. */
  datatype OutState = OutState(pushed: seq<seq<uint32>>, open: Option<seq<uint32>>)

  /** One pulse: the open buffer is pushed first when a fifth 4-byte word would take it past 128 bytes. */
  function AddPulse(o: OutState, pulse: uint32): OutState
  {
    if o.open.Some? && 4 * |o.open.value| + 4 > TapFileDec.OUTPUT_SIZE then OutState(o.pushed + [o.open.value], Some([pulse]))
    else if o.open.None? then OutState(o.pushed, Some([pulse]))
    else OutState(o.pushed, Some(o.open.value + [pulse]))
  }

  function AddPulses(o: OutState, ps: seq<uint32>): OutState
    decreases |ps|
  {
    if ps == [] then o else AddPulse(AddPulses(o, ps[..|ps| - 1]), ps[|ps| - 1])
  }

  /** The buffers a chain call pushes for its pulses: the full ones, then the one still open. */
  function Batches(ps: seq<uint32>): seq<seq<uint32>>
  {
    var o := AddPulses(OutState([], None), ps);
    o.pushed + (if o.open.Some? then [o.open.value] else [])
  }

  lemma {:induction false} AddPulsesFrom(prior: seq<seq<uint32>>, ps: seq<uint32>)
    ensures var o := AddPulses(OutState([], None), ps);
      AddPulses(OutState(prior, None), ps) == OutState(prior + o.pushed, o.open)
    decreases |ps|
  {
    if ps != [] {
      AddPulsesFrom(prior, ps[..|ps| - 1]);
      var o := AddPulses(OutState([], None), ps[..|ps| - 1]);
      if o.open.Some? && 4 * |o.open.value| + 4 > TapFileDec.OUTPUT_SIZE {
        AppendAssoc(prior, o.pushed, [o.open.value]);
      }
    }
  }

  /** Pushing the open buffer at the end of a chain call completes its batches. */
  lemma CloseBatches(prior: seq<seq<uint32>>, ps: seq<uint32>, pushed: seq<seq<uint32>>, open: Option<seq<uint32>>)
    requires OutState(pushed, open) == AddPulses(OutState(prior, None), ps)
    ensures pushed + (if open.Some? then [open.value] else []) == prior + Batches(ps)
  {
    AddPulsesFrom(prior, ps);
    var o := AddPulses(OutState([], None), ps);
    if open.Some? {
      AppendAssoc(prior, o.pushed, [o.open.value]);
    }
  }

  /**
   * The pushed buffers of a chain call hold its pulses in order, exactly
   * 32 to every buffer but the last, which holds 1 to 32; no pulse means
   * no buffer.
   */
  ghost predicate BatchedAs(o: OutState, ps: seq<uint32>)
  {
    && Concat(o.pushed) + (if o.open.Some? then o.open.value else []) == ps
    && (forall i :: 0 <= i < |o.pushed| ==> |o.pushed[i]| == PULSES_PER_BUFFER)
    && (o.open.Some? ==> 1 <= |o.open.value| <= PULSES_PER_BUFFER)
    && (o.open.None? <==> ps == [])
  }

  lemma {:induction false} AddPulsesBatched(ps: seq<uint32>)
    ensures BatchedAs(AddPulses(OutState([], None), ps), ps)
    decreases |ps|
  {
    if ps != [] {
      var init := ps[..|ps| - 1];
      var p := ps[|ps| - 1];
      AddPulsesBatched(init);
      var o := AddPulses(OutState([], None), init);
      var o' := AddPulse(o, p);
      assert init + [p] == ps;
      if o.open.Some? && 4 * |o.open.value| + 4 > TapFileDec.OUTPUT_SIZE {
        ConcatAppend(o.pushed, o.open.value);
        assert forall i :: 0 <= i < |o'.pushed| ==> o'.pushed[i] == if i < |o.pushed| then o.pushed[i] else o.open.value;
      } else if o.open.Some? {
        AppendAssoc(Concat(o.pushed), o.open.value, [p]);
      }
    }
  }

  lemma BatchesShape(ps: seq<uint32>)
    ensures Concat(Batches(ps)) == ps
    ensures forall i :: 0 <= i < |Batches(ps)| ==> 1 <= |Batches(ps)[i]| <= PULSES_PER_BUFFER
    ensures forall i :: 0 <= i < |Batches(ps)| - 1 ==> |Batches(ps)[i]| == PULSES_PER_BUFFER
    ensures Batches(ps) == [] <==> ps == []
  {
    var o := AddPulses(OutState([], None), ps);
    AddPulsesBatched(ps);
    if o.open.Some? {
      ConcatAppend(o.pushed, o.open.value);
      assert forall i :: 0 <= i < |o.pushed| ==> Batches(ps)[i] == o.pushed[i];
    }
  }

  class OldTapFileDec {
    var readHeader: bool
    var version: uint8
    /** The bytes received and not yet dropped. */
    var adapter: seq<uint8>
    /** The rate and wave shape set on the source pad once a header is accepted. */
    var caps: Option<TapFileDec.StreamInfo>
    /** The pulse buffers pushed on the source pad, in order. */
    var pushed: seq<seq<uint32>>

    ghost predicate Valid()
      reads this
    {
      readHeader ==> caps.Some? && caps.value.version == version
    }

    constructor ()
      ensures Valid()
      ensures !readHeader && adapter == [] && caps.None? && pushed == []
    {
      readHeader := false;
      version := 0;
      adapter := [];
      caps := None;
      pushed := [];
    }

    /** add_pulse_to_outbuf: the pulse goes into the open buffer, a full one being pushed first. */
    method AddPulseToOutbuf(open: Option<seq<uint32>>, pulse: uint32) returns (nopen: Option<seq<uint32>>)
      modifies this`pushed
      ensures OutState(pushed, nopen) == AddPulse(OutState(old(pushed), open), pulse)
    {
      nopen := open;
      if nopen.Some? && 4 * |nopen.value| + 4 > TapFileDec.OUTPUT_SIZE {
        pushed := pushed + [nopen.value];
        nopen := None;
      }
      if nopen.None? {
        nopen := Some([pulse]);
      } else {
        nopen := Some(nopen.value + [pulse]);
      }
    }

    /**
     * One record at byte `at` of the adapter, added to the pulse so far:
     * `short` when its bytes are not all there, `more` when it is an
     * overflow record and the pulse goes on. The adapter holds the bytes
     * of a0 from `consumed` on.
     */
    method ReadRecord(ghost a0: seq<uint8>, ghost consumed: nat, at: nat, pulse: uint32)
      returns (short: bool, more: bool, next: nat, npulse: uint32)
      requires consumed <= |a0| && adapter == a0[consumed..] && at < |adapter|
      ensures short ==> Scan(version, a0, consumed + at, pulse).None?
      ensures !short ==> at < next <= |adapter|
      ensures !short && more ==> Scan(version, a0, consumed + next, npulse) == Scan(version, a0, consumed + at, pulse)
      ensures !short && !more ==> Scan(version, a0, consumed + at, pulse) == Some((npulse, consumed + next))
    {
      var b := adapter[at];
      next, npulse := at + 1, pulse;
      var inpulse: nat := b;
      short, more := false, false;
      if b == 0 {
        if version == 0 {
          inpulse := TapFileDec.ONE_BYTE_OVERFLOW;
          more := true;
        } else {
          if |adapter| < next + 3 {
            short := true;
            return;
          }
          assert adapter[next..next + 3] == a0[consumed + next..consumed + next + 3];
          inpulse := FromLe(adapter[next..next + 3]);
          FieldAtIsFromLe(a0, consumed + next, 3);
          next := next + 3;
          if inpulse == TapFileDec.THREE_BYTE_OVERFLOW {
            more := true;
          }
          inpulse := inpulse / 8;
        }
      }
      npulse := U32(pulse + inpulse);
    }

    /** A complete pulse: its bytes are dropped from the adapter and the pulse queued for output. */
    method Emit(ghost a0: seq<uint8>, ghost p0: seq<seq<uint32>>, ghost consumed: nat, ghost emitted: seq<uint32>,
                open: Option<seq<uint32>>, len: nat, pulse: uint32)
      returns (ghost nconsumed: nat, ghost nemitted: seq<uint32>, nopen: Option<seq<uint32>>)
      requires consumed + len <= |a0| && adapter == a0[consumed..]
      requires Scan(version, a0, consumed, 0) == Some((pulse, consumed + len))
      requires emitted + DecodeFrom(version, a0, consumed).0 == DecodeAll(version, a0).0
      requires DecodeFrom(version, a0, consumed).1 == DecodeAll(version, a0).1
      requires OutState(pushed, open) == AddPulses(OutState(p0, None), emitted)
      modifies this`adapter, this`pushed
      ensures nconsumed == consumed + len
      ensures Decoding(a0, p0, nconsumed, 0, nconsumed, 0, nemitted, nopen)
    {
      assert adapter[len..] == a0[consumed + len..];
      assert (emitted + [pulse])[..|emitted|] == emitted;
      ghost var v := version;
      DecodeStep(v, a0, consumed, len, pulse, emitted);
      adapter := adapter[len..];
      nconsumed := consumed + len;
      nopen := AddPulseToOutbuf(open, pulse);
      nemitted := emitted + [pulse];
      assert version == v;
    }

    /**
     * What the decoding loop keeps: the adapter holds a0 from `consumed` on,
     * the pulse under way started there and has read up to `pos`, the
     * pulses queued and the decoding of what is left make up the decoding
     * of a0, and the buffers pushed are those the queued pulses fill.
     */
    ghost predicate Decoding(a0: seq<uint8>, p0: seq<seq<uint32>>, consumed: nat, peeked: nat, pos: nat,
                             pulse: uint32, emitted: seq<uint32>, open: Option<seq<uint32>>)
      reads this
    {
      && consumed <= |a0| && adapter == a0[consumed..] && peeked <= |adapter|
      && pos == consumed + peeked
      && Scan(version, a0, pos, pulse) == Scan(version, a0, consumed, 0)
      && emitted + DecodeFrom(version, a0, consumed).0 == DecodeAll(version, a0).0
      && DecodeFrom(version, a0, consumed).1 == DecodeAll(version, a0).1
      && OutState(pushed, open) == AddPulses(OutState(p0, None), emitted)
    }

    /**
     * One pass of the decoding loop: a record is read, and a pulse it
     * completes is emitted; `short` when the record's bytes are not all
     * there yet, which leaves everything as it was.
     */
    method Step(ghost a0: seq<uint8>, ghost p0: seq<seq<uint32>>, ghost consumed: nat, peeked: nat,
                ghost pos: nat, pulse: uint32, ghost emitted: seq<uint32>, open: Option<seq<uint32>>)
      returns (short: bool, ghost nconsumed: nat, npeeked: nat, ghost npos: nat, npulse: uint32,
               ghost nemitted: seq<uint32>, nopen: Option<seq<uint32>>)
      requires Decoding(a0, p0, consumed, peeked, pos, pulse, emitted, open)
      requires |adapter| > peeked
      modifies this`adapter, this`pushed
      ensures Decoding(a0, p0, nconsumed, npeeked, npos, npulse, nemitted, nopen)
      ensures short ==> Scan(version, a0, nconsumed, 0).None?
      ensures !short ==> |adapter| - npeeked < old(|adapter|) - peeked
    {
      var more, next;
      short, more, next, npulse := ReadRecord(a0, consumed, peeked, pulse);
      if short {
        nconsumed, npeeked, npos, npulse, nemitted, nopen := consumed, peeked, pos, pulse, emitted, open;
      } else if more {
        nconsumed, npeeked, npos, nemitted, nopen := consumed, next, consumed + next, emitted, open;
      } else {
        nconsumed, nemitted, nopen := Emit(a0, p0, consumed, emitted, open, next, npulse);
        npeeked, npos, npulse := 0, nconsumed, 0;
      }
    }

    /**
     * The decoding loop of the chain function: the bytes of every complete
     * pulse are dropped and the pulse queued for output; the bytes of an
     * incomplete pulse stay in the adapter, and the open buffer is pushed
     * at the end.
     */
    method DecodeAvailable()
      modifies this`adapter, this`pushed
      ensures var (ps, n) := DecodeAll(version, old(adapter));
        && adapter == old(adapter)[n..]
        && pushed == old(pushed) + Batches(ps)
    {
      ghost var a0 := adapter;
      ghost var p0 := pushed;
      ghost var consumed: nat := 0;
      ghost var emitted: seq<uint32> := [];
      ghost var pos: nat := 0;
      var peeked: nat := 0;
      var pulse: uint32 := 0;
      var open: Option<seq<uint32>> := None;
      while |adapter| > peeked
        invariant Decoding(a0, p0, consumed, peeked, pos, pulse, emitted, open)
        decreases |adapter| - peeked
      {
        var short;
        short, consumed, peeked, pos, pulse, emitted, open := Step(a0, p0, consumed, peeked, pos, pulse, emitted, open);
        if short {
          break;
        }
      }
      assert Scan(version, a0, consumed, 0).None?;
      assert emitted + [] == emitted;
      CloseBatches(p0, emitted, pushed, open);
      if open.Some? {
        pushed := pushed + [open.value];
      }
    }

    /**
     * The chain function: the bytes join the adapter; without a header yet,
     * the first 20 bytes are taken as the header once they are there (and
     * are gone even when refused, which ends the call in error); no pulse
     * is decoded until a header has been accepted.
     */
    method Chain(buf: seq<uint8>) returns (ok: bool)
      requires Valid()
      modifies this
      ensures Valid()
      ensures var a := old(adapter) + buf;
        if old(readHeader) then
          ok && readHeader && version == old(version) && caps == old(caps)
          && adapter == a[DecodeAll(version, a).1..]
          && pushed == old(pushed) + Batches(DecodeAll(version, a).0)
        else if |a| < TapFileDec.HEADER_SIZE then
          ok && !readHeader && adapter == a && pushed == old(pushed) && caps == old(caps)
          && version == old(version)
        else
          var info := ParseHeader(a[..TapFileDec.HEADER_SIZE]);
          var rest := a[TapFileDec.HEADER_SIZE..];
          && version == a[12]
          && ok == info.Some? && readHeader == ok
          && (!ok ==> adapter == rest && pushed == old(pushed) && caps == old(caps))
          && (ok ==> caps == info
                     && adapter == rest[DecodeAll(version, rest).1..]
                     && pushed == old(pushed) + Batches(DecodeAll(version, rest).0))
    {
      adapter := adapter + buf;
      if !readHeader && |adapter| >= TapFileDec.HEADER_SIZE {
        var h := adapter[..TapFileDec.HEADER_SIZE];
        adapter := adapter[TapFileDec.HEADER_SIZE..];
        version := h[12];
        var info := ParseHeader(h);
        if info.None? {
          return false;
        }
        caps := info;
        readHeader := true;
      }
      if !readHeader {
        return true;
      }
      DecodeAvailable();
      ok := true;
    }
  }

  /**
   * Two chain calls after the header decode what one call with both
   * buffers would: the bytes the first leaves in the adapter are picked
   * up by the second.
   */
  lemma ChainSplit(version: uint8, adapter: seq<uint8>, b1: seq<uint8>, b2: seq<uint8>)
    ensures var (ps1, n1) := DecodeAll(version, adapter + b1);
      var (ps2, _) := DecodeAll(version, (adapter + b1)[n1..] + b2);
      ps1 + ps2 == DecodeAll(version, adapter + b1 + b2).0
  {
    DecodeAllAppend(version, adapter + b1, b2);
  }
}
