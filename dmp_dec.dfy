/**
 * The DMP reader (`tap/gstdmpdec.c`): the 20-byte header gives the field
 * width and the overflow value; then fields are read little-endian, as
 * many as there are whole fields in the adapter. A field below the
 * overflow value ends a pulse, which is the sum of the fields since the
 * last one that did, and only then are the pulse's bytes dropped from the
 * adapter. A field equal to the overflow value carries the pulse on; a
 * field above it marks the call as failed, but is added in and the pulse
 * carries on just the same.
 */
module DmpDec {
  import opened Bytes
  import DmpEnc
  import OldTapFileDec

  const HEADER_SIZE: nat := 20

  /** A 32-bit field stored into a C `gint`: values from 2^31 up become negative. */
  function Int32(x: uint32): (r: int)
    ensures -0x8000_0000 <= r < 0x8000_0000
    ensures r % TWO_TO_THE_32 == x
  {
    if x >= 0x8000_0000 then x - TWO_TO_THE_32 else x
  }

  /**
   * Header validation: accepted exactly when it starts with "DC2N-TAP-RAW"
   * and format version 0; the caps rate is the 32-bit field at byte 16,
   * read as a signed value. Bytes 13 and 14 are not looked at.
   */
  function ParseHeader(h: seq<uint8>): (r: Option<int>)
    requires |h| == HEADER_SIZE
    ensures r.Some? <==> h[..12] == DmpEnc.DMP_SIGNATURE && h[12] == 0
    ensures r.Some? ==> FromLe(h[16..20]) < TWO_TO_THE_32 && r.value == Int32(FromLe(h[16..20]))
  {
    Pow256Four();
    var valid := h[..12] == DmpEnc.DMP_SIGNATURE;
    var valid := valid && h[12] == 0;
    if valid then Some(Int32(FromLe(h[16..20]))) else None
  }

  /**
   * The pulse whose fields start at byte `at`, `acc` being what its
   * earlier fields added (modulo 2^32): the pulse and the index just past
   * it, or None when the bytes end before a field below the overflow value.
   */
  function Scan(bps: nat, overflow: nat, s: seq<uint8>, at: nat, acc: uint32): (r: Option<(uint32, nat)>)
    requires bps >= 1 && at <= |s|
    ensures r.Some? ==> at + bps <= r.value.1 <= |s|
    decreases |s| - at
  {
    if at + bps > |s| then None
    else
      var field := FieldAt(s, at, bps);
      if field < overflow then Some((U32(acc + field), at + bps))
      else Scan(bps, overflow, s, at + bps, U32(acc + field))
  }

  /** Every whole pulse from byte `at` on, and the index just past the last of them. */
  function DecodeFrom(bps: nat, overflow: nat, s: seq<uint8>, at: nat): (r: (seq<uint32>, nat))
    requires bps >= 1 && at <= |s|
    ensures at <= r.1 <= |s|
    decreases |s| - at
  {
    var first := Scan(bps, overflow, s, at, 0);
    if first.None? then ([], at)
    else
      var rest := DecodeFrom(bps, overflow, s, first.value.1);
      ([first.value.0] + rest.0, rest.1)
  }

  /** Every whole pulse at the start of the bytes, and how many bytes they take. */
  function Decode(bps: nat, overflow: nat, s: seq<uint8>): (seq<uint32>, nat)
    requires bps >= 1
  {
    DecodeFrom(bps, overflow, s, 0)
  }

  /** Some whole field from byte `at` on, the bytes being cut into fields from `at`, is above the overflow value. */
  function AnyOverFrom(bps: nat, overflow: nat, s: seq<uint8>, at: nat): bool
    requires bps >= 1 && at <= |s|
    decreases |s| - at
  {
    at + bps <= |s| && (FieldAt(s, at, bps) > overflow || AnyOverFrom(bps, overflow, s, at + bps))
  }

  function AnyOver(bps: nat, overflow: nat, s: seq<uint8>): bool
    requires bps >= 1
  {
    AnyOverFrom(bps, overflow, s, 0)
  }

  /**
   * The bytes a decode leaves over never hold a whole pulse: decoding
   * stops only where the bytes end inside a pulse.
   */
  lemma {:induction false} DecodeLeavesPartial(bps: nat, overflow: nat, s: seq<uint8>, at: nat)
    requires bps >= 1 && at <= |s|
    ensures Scan(bps, overflow, s, DecodeFrom(bps, overflow, s, at).1, 0).None?
    decreases |s| - at
  {
    var first := Scan(bps, overflow, s, at, 0);
    if first.Some? {
      DecodeLeavesPartial(bps, overflow, s, first.value.1);
    }
  }

  /**
   * Taking the first pulse off the bytes left to decode: what was decoded
   * before it, the pulse itself and what follows it still make up the
   * decoding of the whole.
   */
  lemma DecodeStep(bps: nat, overflow: nat, s: seq<uint8>, at: nat, len: nat, pulse: uint32, emitted: seq<uint32>)
    requires bps >= 1 && at + len <= |s|
    requires Scan(bps, overflow, s, at, 0) == Some((pulse, at + len))
    requires emitted + DecodeFrom(bps, overflow, s, at).0 == Decode(bps, overflow, s).0
    requires DecodeFrom(bps, overflow, s, at).1 == Decode(bps, overflow, s).1
    ensures (emitted + [pulse]) + DecodeFrom(bps, overflow, s, at + len).0 == Decode(bps, overflow, s).0
    ensures DecodeFrom(bps, overflow, s, at + len).1 == Decode(bps, overflow, s).1
  {
    AppendAssoc(emitted, [pulse], DecodeFrom(bps, overflow, s, at + len).0);
  }

  class DmpDec {
    var readHeader: bool
    var bytesPerSample: uint8
    var overflow: uint32
    /** The bytes received and not yet dropped. */
    var adapter: seq<uint8>
    /** The rate set on the source pad once a header is accepted. */
    var caps: Option<int>
    /** The pulse buffers pushed on the source pad, in order. */
    var pushed: seq<seq<uint32>>

    /** Once a header is accepted, caps are set and a field is 1 to 4 bytes. */
    ghost predicate Valid()
      reads this
    {
      readHeader ==> caps.Some? && 1 <= bytesPerSample <= 4
    }

    constructor ()
      ensures Valid()
      ensures !readHeader && adapter == [] && caps.None? && pushed == []
    {
      readHeader := false;
      bytesPerSample := 0;
      overflow := 0;
      adapter := [];
      caps := None;
      pushed := [];
    }

    /** add_pulse_to_outbuf: the pulse goes into the open buffer, a full one being pushed first. */
    method AddPulseToOutbuf(open: Option<seq<uint32>>, pulse: uint32) returns (nopen: Option<seq<uint32>>)
      modifies this`pushed
      ensures OldTapFileDec.OutState(pushed, nopen) == OldTapFileDec.AddPulse(OldTapFileDec.OutState(old(pushed), open), pulse)
    {
      nopen := open;
      if nopen.Some? && 4 * |nopen.value| + 4 > OldTapFileDec.TapFileDec.OUTPUT_SIZE {
        pushed := pushed + [nopen.value];
        nopen := None;
      }
      if nopen.None? {
        nopen := Some([pulse]);
      } else {
        nopen := Some(nopen.value + [pulse]);
      }
    }

    /**
     * The field at byte `at` of the adapter, added to the pulse so far. The
     * adapter holds the bytes of a0 from `consumed` on.
     */
    method ReadField(ghost a0: seq<uint8>, ghost consumed: nat, bps: nat, ov: nat, at: nat, pulse: uint32)
      returns (more: bool, over: bool, next: nat, npulse: uint32)
      requires bps >= 1 && consumed <= |a0| && adapter == a0[consumed..] && at + bps <= |adapter|
      ensures at < next <= |adapter|
      ensures !more ==> Scan(bps, ov, a0, consumed + at, pulse) == Some((npulse, consumed + next))
      ensures more ==> Scan(bps, ov, a0, consumed + next, npulse) == Scan(bps, ov, a0, consumed + at, pulse)
      ensures AnyOverFrom(bps, ov, a0, consumed + at) == (over || AnyOverFrom(bps, ov, a0, consumed + next))
    {
      assert adapter[at..at + bps] == a0[consumed + at..consumed + at + bps];
      var inpulse := FromLe(adapter[at..at + bps]);
      FieldAtIsFromLe(a0, consumed + at, bps);
      npulse := U32(pulse + inpulse);
      next := at + bps;
      more := inpulse >= ov;
      over := inpulse > ov;
    }

    /** A complete pulse: its bytes are dropped from the adapter and the pulse queued for output. */
    method Emit(ghost a0: seq<uint8>, ghost p0: seq<seq<uint32>>, ghost consumed: nat, ghost emitted: seq<uint32>,
                bps: nat, ov: nat, open: Option<seq<uint32>>, len: nat, pulse: uint32)
      returns (ghost nconsumed: nat, ghost nemitted: seq<uint32>, nopen: Option<seq<uint32>>)
      requires bps >= 1 && consumed + len <= |a0| && adapter == a0[consumed..]
      requires Scan(bps, ov, a0, consumed, 0) == Some((pulse, consumed + len))
      requires emitted + DecodeFrom(bps, ov, a0, consumed).0 == Decode(bps, ov, a0).0
      requires DecodeFrom(bps, ov, a0, consumed).1 == Decode(bps, ov, a0).1
      requires OldTapFileDec.OutState(pushed, open) == OldTapFileDec.AddPulses(OldTapFileDec.OutState(p0, None), emitted)
      modifies this`adapter, this`pushed
      ensures nconsumed == consumed + len
      ensures Decoding(a0, p0, bps, ov, nconsumed, 0, nconsumed, 0, nemitted, nopen)
    {
      assert adapter[len..] == a0[consumed + len..];
      DecodeStep(bps, ov, a0, consumed, len, pulse, emitted);
      assert (emitted + [pulse])[..|emitted|] == emitted;
      adapter := adapter[len..];
      nconsumed := consumed + len;
      nopen := AddPulseToOutbuf(open, pulse);
      nemitted := emitted + [pulse];
    }

    /**
     * What the decoding loop keeps: the adapter holds a0 from `consumed` on,
     * the pulse under way started there and has read up to `pos`, the
     * pulses queued and the decoding of what is left make up the decoding
     * of a0, and the buffers pushed are those the queued pulses fill.
     */
    ghost predicate Decoding(a0: seq<uint8>, p0: seq<seq<uint32>>, bps: nat, ov: nat, consumed: nat, peeked: nat,
                             pos: nat, pulse: uint32, emitted: seq<uint32>, open: Option<seq<uint32>>)
      reads this
    {
      && bps >= 1 && consumed <= |a0| && adapter == a0[consumed..] && peeked <= |adapter|
      && pos == consumed + peeked
      && Scan(bps, ov, a0, pos, pulse) == Scan(bps, ov, a0, consumed, 0)
      && emitted + DecodeFrom(bps, ov, a0, consumed).0 == Decode(bps, ov, a0).0
      && DecodeFrom(bps, ov, a0, consumed).1 == Decode(bps, ov, a0).1
      && OldTapFileDec.OutState(pushed, open) == OldTapFileDec.AddPulses(OldTapFileDec.OutState(p0, None), emitted)
    }

    /** One pass of the decoding loop: a field is read, and a pulse it completes is emitted. */
    method Step(ghost a0: seq<uint8>, ghost p0: seq<seq<uint32>>, bps: nat, ov: nat, ghost consumed: nat, peeked: nat,
                ghost pos: nat, pulse: uint32, ghost emitted: seq<uint32>, open: Option<seq<uint32>>)
      returns (over: bool, ghost nconsumed: nat, npeeked: nat, ghost npos: nat, npulse: uint32,
               ghost nemitted: seq<uint32>, nopen: Option<seq<uint32>>)
      requires Decoding(a0, p0, bps, ov, consumed, peeked, pos, pulse, emitted, open)
      requires |adapter| >= peeked + bps
      modifies this`adapter, this`pushed
      ensures Decoding(a0, p0, bps, ov, nconsumed, npeeked, npos, npulse, nemitted, nopen)
      ensures |adapter| - npeeked < old(|adapter|) - peeked
      ensures AnyOverFrom(bps, ov, a0, pos) == (over || AnyOverFrom(bps, ov, a0, npos))
    {
      var more, next;
      more, over, next, npulse := ReadField(a0, consumed, bps, ov, peeked, pulse);
      if more {
        nconsumed, npeeked, npos, nemitted, nopen := consumed, next, consumed + next, emitted, open;
      } else {
        nconsumed, nemitted, nopen := Emit(a0, p0, consumed, emitted, bps, ov, open, next, npulse);
        npeeked, npos, npulse := 0, nconsumed, 0;
      }
    }

    /**
     * The decoding loop of the chain function: every whole field is read
     * once; the bytes of every complete pulse are dropped and the pulse
     * queued for output, the bytes of an incomplete pulse stay in the
     * adapter, and the result is a failure exactly when some field read
     * was above the overflow value.
     */
    method DecodeAvailable() returns (failed: bool)
      requires Valid() && readHeader
      modifies this`adapter, this`pushed
      ensures var (ps, n) := Decode(bytesPerSample, overflow, old(adapter));
        && adapter == old(adapter)[n..]
        && pushed == old(pushed) + OldTapFileDec.Batches(ps)
        && failed == AnyOver(bytesPerSample, overflow, old(adapter))
    {
      var bps: nat := bytesPerSample;
      var ov: nat := overflow;
      ghost var a0 := adapter;
      ghost var p0 := pushed;
      ghost var consumed: nat := 0;
      ghost var emitted: seq<uint32> := [];
      ghost var pos: nat := 0;
      var peeked: nat := 0;
      var pulse: uint32 := 0;
      var open: Option<seq<uint32>> := None;
      failed := false;
      while |adapter| >= peeked + bps
        invariant Decoding(a0, p0, bps, ov, consumed, peeked, pos, pulse, emitted, open)
        invariant AnyOver(bps, ov, a0) == (failed || AnyOverFrom(bps, ov, a0, pos))
        decreases |adapter| - peeked
      {
        var over;
        over, consumed, peeked, pos, pulse, emitted, open := Step(a0, p0, bps, ov, consumed, peeked, pos, pulse, emitted, open);
        failed := failed || over;
      }
      assert emitted + [] == emitted;
      OldTapFileDec.CloseBatches(p0, emitted, pushed, open);
      if open.Some? {
        pushed := pushed + [open.value];
      }
    }

    /**
     * The chain function: the bytes join the adapter; without a header yet,
     * the first 20 bytes are taken as the header once they are there. Its
     * bits byte sets the field width and overflow value whether or not the
     * header is accepted; a refused header is gone all the same and ends
     * the call in failure. No field is read until a header has been
     * accepted; after that, the call fails exactly when a field read is
     * above the overflow value.
     */
    method Chain(buf: seq<uint8>) returns (ok: bool)
      requires Valid()
      requires var a := adapter + buf;
        !readHeader && |a| >= HEADER_SIZE ==>
          a[15] <= 31 && (ParseHeader(a[..HEADER_SIZE]).Some? ==> 1 <= a[15])
      modifies this
      ensures Valid()
      ensures var a := old(adapter) + buf;
        if old(readHeader) then
          && readHeader && bytesPerSample == old(bytesPerSample) && overflow == old(overflow) && caps == old(caps)
          && adapter == a[Decode(bytesPerSample, overflow, a).1..]
          && pushed == old(pushed) + OldTapFileDec.Batches(Decode(bytesPerSample, overflow, a).0)
          && ok == !AnyOver(bytesPerSample, overflow, a)
        else if |a| < HEADER_SIZE then
          && ok && !readHeader && adapter == a && pushed == old(pushed) && caps == old(caps)
          && bytesPerSample == old(bytesPerSample) && overflow == old(overflow)
        else
          var info := ParseHeader(a[..HEADER_SIZE]);
          var rest := a[HEADER_SIZE..];
          && bytesPerSample == DmpEnc.BytesPerSample(a[15]) && overflow == DmpEnc.Overflow(a[15])
          && readHeader == info.Some?
          && (info.None? ==> !ok && adapter == rest && pushed == old(pushed) && caps == old(caps))
          && (info.Some? ==>
                && caps == info
                && adapter == rest[Decode(bytesPerSample, overflow, rest).1..]
                && pushed == old(pushed) + OldTapFileDec.Batches(Decode(bytesPerSample, overflow, rest).0)
                && ok == !AnyOver(bytesPerSample, overflow, rest))
    {
      adapter := adapter + buf;
      if !readHeader && |adapter| >= HEADER_SIZE {
        var h := adapter[..HEADER_SIZE];
        adapter := adapter[HEADER_SIZE..];
        var bits := h[15];
        if bits >= 1 {
          DmpEnc.OverflowFits(bits);
        }
        bytesPerSample := (bits + 7) / 8;
        overflow := DmpEnc.Overflow(bits);
        var info := ParseHeader(h);
        if info.None? {
          return false;
        }
        caps := info;
        readHeader := true;
      }
      if !readHeader {
        return true;
      }
      var failed := DecodeAvailable();
      ok := !failed;
    }
  }
}
