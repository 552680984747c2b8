/**
 * The base class of the container readers (`basetapcontainerdec`): it
 * owns the byte cursor `in_offset` over the bytes at hand (the adapter
 * filled by upstream pushes, or the upstream file pulled at an offset),
 * the commit point `to_flush`, the three-valued header status and the
 * running timestamp. How a header and how a pulse are read is left to
 * the concrete reader; here both are parameters of the element: the
 * header size, a header reader and a pulse reader.
 */
module BaseTapContainerDec {
  import opened Bytes

  const TWO_TO_THE_64: nat := 0x1_0000_0000_0000_0000
  const MAX_UINT64: nat := 0xFFFF_FFFF_FFFF_FFFF
  /** Nanoseconds in a second (`GST_SECOND`). */
  const SECOND: nat := 1_000_000_000
  /** Bytes a decoded pulse takes in the output (`sizeof (guint32)`). */
  const PULSE_SIZE: nat := 4

  datatype HeaderStatus = NoHeaderYet | ValidHeader | NoValidHeader

  /** What the concrete header reader leaves behind: the status and the caps it sets. */
  datatype HeaderInfo = HeaderInfo(status: HeaderStatus, rate: nat, halfwaves: bool)

  /**
   * What the concrete pulse reader gives back when called at an offset of
   * the bytes at hand: a pulse and the offset just past its last byte, or
   * failure and the offset where its reads left the cursor.
   */
  datatype PulseRead = Got(pulse: uint32, next: nat) | NotYet(next: nat)

  type HeaderReader = seq<uint8> -> HeaderInfo
  type PulseReader = (seq<uint8>, nat) -> PulseRead

  /** A flow return of a pad function. */
  datatype Flow = Ok | Error | Eos | NotLinked | Flushing

  /** A state transition of the element. */
  datatype Transition = ReadyToPaused | PausedToReady | OtherTransition

  /** What a run of `get_pulse_from_tap` calls decodes: the pulses and the commit point after them. */
  datatype Decoded = Decoded(pulses: seq<uint32>, commit: nat)

  /** What the `get_range` loop pulls: the pulses, the cursor and the commit point after it. */
  datatype Pulled = Pulled(pulses: seq<uint32>, cursor: nat, commit: nat)

  /** A buffer pushed downstream: the pulses' bytes, its decoding timestamp and its duration. */
  datatype Buffer = Buffer(data: seq<uint8>, dts: nat, duration: nat)

  /**
   * A pulse reader that reads only through the cursor: it never moves the
   * cursor back or past the bytes at hand, and a pulse takes at least one byte.
   */
  ghost predicate Moves(f: PulseReader)
  {
    forall s: seq<uint8>, o: nat {:trigger f(s, o)} :: o <= |s| ==>
      && o <= f(s, o).next <= |s|
      && (f(s, o).Got? ==> o < f(s, o).next)
  }

  /**
   * A pulse reader whose reads either all succeed or stop at a missing
   * byte: a pulse found stays the same pulse when more bytes arrive.
   */
  ghost predicate Stable(f: PulseReader)
  {
    forall s: seq<uint8>, t: seq<uint8>, o: nat {:trigger f(s + t, o)} ::
      o <= |s| && f(s, o).Got? ==> f(s + t, o) == f(s, o)
  }

  /** The outcome of a read on bytes that start k bytes later. */
  function Shifted(r: PulseRead, k: nat): PulseRead
  {
    var n := if r.next >= k then r.next - k else 0;
    if r.Got? then Got(r.pulse, n) else NotYet(n)
  }

  /**
   * A pulse reader that sees only the bytes from the cursor on: dropping
   * bytes before the cursor changes nothing but the offsets.
   */
  ghost predicate Relative(f: PulseReader)
  {
    forall s: seq<uint8>, k: nat, o: nat {:trigger f(s[k..], o)} ::
      k <= |s| && o <= |s| - k ==> f(s[k..], o) == Shifted(f(s, k + o), k)
  }

  /** `read_from_adapter` / `read_from_peer`: n bytes at the offset and the offset past them, or nothing. */
  function Read(s: seq<uint8>, off: nat, n: nat): (r: Option<(seq<uint8>, nat)>)
    ensures r.None? <==> |s| < off + n
    ensures r.Some? ==> r.value.1 == off + n && |r.value.0| == n && s[off..off + n] == r.value.0
  {
    if |s| < off + n then None else Some((s[off..off + n], off + n))
  }

  /**
   * Calling `get_pulse_from_tap` from offset o until it fails: the pulses,
   * and the commit point, the offset just past the last of them.
   */
  function Pulses(f: PulseReader, s: seq<uint8>, o: nat): (r: Decoded)
    requires Moves(f) && o <= |s|
    ensures o <= r.commit <= |s|
    ensures r.pulses == [] <==> r.commit == o
    decreases |s| - o
  {
    match f(s, o)
    case NotYet(_) => Decoded([], o)
    case Got(p, n) =>
      var rest := Pulses(f, s, n);
      Decoded([p] + rest.pulses, rest.commit)
  }

  /** One call of `get_pulse_from_tap` separated from the rest. */
  lemma PulsesUnfold(f: PulseReader, s: seq<uint8>, o: nat)
    requires Moves(f) && o <= |s|
    ensures f(s, o).NotYet? ==> Pulses(f, s, o) == Decoded([], o)
    ensures f(s, o).Got? ==> (
      && o < f(s, o).next <= |s|
      && var rest := Pulses(f, s, f(s, o).next);
        Pulses(f, s, o) == Decoded([f(s, o).pulse] + rest.pulses, rest.commit))
  {
  }

  /** Decoding stops at a commit point where no whole pulse starts. */
  lemma {:induction false} PulsesStop(f: PulseReader, s: seq<uint8>, o: nat)
    requires Moves(f) && o <= |s|
    ensures f(s, Pulses(f, s, o).commit).NotYet?
    decreases |s| - o
  {
    match f(s, o)
    case NotYet(_) =>
    case Got(_, n) =>
      PulsesStop(f, s, n);
  }

  /** The bytes a byte writer holds after `put_data` of each pulse in turn (a little-endian host). */
  function Written(ps: seq<uint32>): (r: seq<uint8>)
    ensures |r| == 4 * |ps|
  {
    if ps == [] then [] else Written(ps[..|ps| - 1]) + Le(ps[|ps| - 1], 4)
  }

  /** Every four bytes of the writer read back, little-endian, as the pulse put there. */
  lemma {:induction false} WrittenReadsBack(ps: seq<uint32>, i: nat)
    requires i < |ps|
    ensures 4 * i + 4 <= |Written(ps)|
    ensures FromLe(Written(ps)[4 * i..4 * i + 4]) == ps[i]
  {
    var n := |ps| - 1;
    var w := Written(ps[..n]);
    if i == n {
      assert Written(ps)[4 * i..4 * i + 4] == Le(ps[n], 4);
      Pow256Four();
      FromLeLe(ps[n], 4);
    } else {
      WrittenReadsBack(ps[..n], i);
      assert Written(ps)[4 * i..4 * i + 4] == w[4 * i..4 * i + 4];
      assert ps[..n][i] == ps[i];
    }
  }

  lemma WrittenAppend(ps: seq<uint32>, p: uint32)
    ensures Written(ps + [p]) == Written(ps) + Le(p, 4)
  {
    assert (ps + [p])[..|ps|] == ps;
  }

  /** The total length of the pulses. */
  function Sum(ps: seq<uint32>): nat
  {
    if ps == [] then 0 else Sum(ps[..|ps| - 1]) + ps[|ps| - 1]
  }

  /** The duration `get_pulse_from_tap` accumulates: each pulse added to a 64-bit `GstClockTime`. */
  function Duration(ps: seq<uint32>): (r: nat)
    ensures r < TWO_TO_THE_64
  {
    if ps == [] then 0 else (Duration(ps[..|ps| - 1]) + ps[|ps| - 1]) % TWO_TO_THE_64
  }

  lemma DurationAppend(ps: seq<uint32>, p: uint32)
    ensures Duration(ps + [p]) == (Duration(ps) + p) % TWO_TO_THE_64
  {
    assert (ps + [p])[..|ps|] == ps;
  }

  /** Adding to a 64-bit accumulator that has wrapped gives the wrapped total. */
  lemma AddMod64(a: nat, b: nat)
    ensures (a % TWO_TO_THE_64 + b) % TWO_TO_THE_64 == (a + b) % TWO_TO_THE_64
  {
  }

  /** The accumulated duration is the total length of the pulses, kept to 64 bits. */
  lemma {:induction false} DurationIsSum(ps: seq<uint32>)
    ensures Duration(ps) == Sum(ps) % TWO_TO_THE_64
  {
    if ps != [] {
      var n := |ps| - 1;
      DurationIsSum(ps[..n]);
      AddMod64(Sum(ps[..n]), ps[n]);
    }
  }

  /**
   * `gst_util_uint64_scale (duration, GST_SECOND, rate)`: the duration in
   * nanoseconds, rounded down; the largest 64-bit value when the rate is 0
   * or the result does not fit.
   */
  function Nanoseconds(duration: nat, rate: nat): (r: nat)
    ensures r <= MAX_UINT64
  {
    if rate == 0 then MAX_UINT64
    else
      var t := duration * SECOND / rate;
      if t > MAX_UINT64 then MAX_UINT64 else t
  }

  /**
   * The loop of `get_range`: a pulse is read only while 4 more bytes fit in
   * the room left, and the loop stops at the first failure, with the cursor
   * where the reads left it; each pulse moves the commit point past it.
   */
  function Pull(f: PulseReader, s: seq<uint8>, o: nat, flushed: nat, room: nat): (r: Pulled)
    requires Moves(f) && o <= |s|
    ensures 4 * |r.pulses| <= room
    ensures o <= r.cursor <= |s|
    decreases room
  {
    if room < PULSE_SIZE then Pulled([], o, flushed)
    else
      match f(s, o)
      case NotYet(n) => Pulled([], n, flushed)
      case Got(p, n) =>
        var rest := Pull(f, s, n, n, room - PULSE_SIZE);
        Pulled([p] + rest.pulses, rest.cursor, rest.commit)
  }

  /** One turn of the `get_range` loop separated from the rest. */
  lemma PullUnfold(f: PulseReader, s: seq<uint8>, o: nat, flushed: nat, room: nat)
    requires Moves(f) && o <= |s| && room >= PULSE_SIZE
    ensures f(s, o).NotYet? ==> Pull(f, s, o, flushed, room) == Pulled([], f(s, o).next, flushed)
    ensures f(s, o).Got? ==> (
      && o < f(s, o).next <= |s|
      && var rest := Pull(f, s, f(s, o).next, f(s, o).next, room - PULSE_SIZE);
        Pull(f, s, o, flushed, room) == Pulled([f(s, o).pulse] + rest.pulses, rest.cursor, rest.commit))
  {
  }

  /**
   * What `get_range` pulls is what the chain loop would decode from the
   * same offset, cut after as many pulses as the room holds.
   */
  lemma {:induction false} PullIsPrefix(f: PulseReader, s: seq<uint8>, o: nat, flushed: nat, room: nat)
    requires Moves(f) && o <= |s|
    ensures var all := Pulses(f, s, o).pulses;
      Pull(f, s, o, flushed, room).pulses == all[..if |all| < room / 4 then |all| else room / 4]
    decreases room
  {
    var all := Pulses(f, s, o).pulses;
    if room >= PULSE_SIZE {
      match f(s, o)
      case NotYet(_) =>
      case Got(p, n) =>
        PullIsPrefix(f, s, n, n, room - PULSE_SIZE);
        var rest := Pulses(f, s, n).pulses;
        assert all == [p] + rest;
        var k := if |rest| < (room - 4) / 4 then |rest| else (room - 4) / 4;
        assert (room - 4) / 4 == room / 4 - 1;
        assert all[..k + 1] == [p] + rest[..k];
    }
  }

  /**
   * Part way through the chain loop, started at `start`: the pulses `ps`
   * decoded so far and the pulses still to come from the cursor `o` make
   * up what the whole loop decodes.
   */
  ghost predicate DecodedSoFar(f: PulseReader, s: seq<uint8>, start: nat, ps: seq<uint32>, o: nat)
    requires Moves(f)
  {
    && start <= o <= |s|
    && var rest := Pulses(f, s, o);
      Pulses(f, s, start) == Decoded(ps + rest.pulses, rest.commit)
  }

  lemma DecodedSoFarStart(f: PulseReader, s: seq<uint8>, o: nat)
    requires Moves(f) && o <= |s|
    ensures DecodedSoFar(f, s, o, [], o)
  {
    assert [] + Pulses(f, s, o).pulses == Pulses(f, s, o).pulses;
  }

  /** A pulse read at the cursor moves it to the part of the loop after that pulse. */
  lemma DecodedSoFarStep(f: PulseReader, s: seq<uint8>, start: nat, ps: seq<uint32>, o: nat)
    requires Moves(f) && DecodedSoFar(f, s, start, ps, o) && f(s, o).Got?
    ensures DecodedSoFar(f, s, start, ps + [f(s, o).pulse], f(s, o).next)
  {
    var x := f(s, o);
    PulsesUnfold(f, s, o);
    AppendAssoc(ps, [x.pulse], Pulses(f, s, x.next).pulses);
  }

  /** A failed read at the cursor ends the loop with the pulses decoded so far, committed up to the cursor. */
  lemma DecodedSoFarEnd(f: PulseReader, s: seq<uint8>, start: nat, ps: seq<uint32>, o: nat)
    requires Moves(f) && DecodedSoFar(f, s, start, ps, o) && f(s, o).NotYet?
    ensures Pulses(f, s, start) == Decoded(ps, o)
  {
    PulsesUnfold(f, s, o);
    AppendEmpty(ps);
  }

  /**
   * Part way through the `get_range` loop, started at `start` with the
   * commit point at `flush0`: the pulses `ps` pulled so far and what is
   * still to come from the cursor `o` and the commit point `flush`, in
   * the room left, make up what the whole loop pulls.
   */
  ghost predicate PulledSoFar(f: PulseReader, s: seq<uint8>, start: nat, flush0: nat, length: nat,
                              ps: seq<uint32>, o: nat, flush: nat)
    requires Moves(f)
  {
    && start <= o <= |s| && 4 * |ps| <= length
    && var rest := Pull(f, s, o, flush, length - 4 * |ps|);
      Pull(f, s, start, flush0, length) == Pulled(ps + rest.pulses, rest.cursor, rest.commit)
  }

  lemma PulledSoFarStart(f: PulseReader, s: seq<uint8>, o: nat, flush: nat, length: nat)
    requires Moves(f) && o <= |s|
    ensures PulledSoFar(f, s, o, flush, length, [], o, flush)
  {
    assert [] + Pull(f, s, o, flush, length).pulses == Pull(f, s, o, flush, length).pulses;
  }

  /** A pulse read at the cursor, with room for it, moves it and the commit point past that pulse. */
  lemma PulledSoFarStep(f: PulseReader, s: seq<uint8>, start: nat, flush0: nat, length: nat,
                        ps: seq<uint32>, o: nat, flush: nat)
    requires Moves(f) && PulledSoFar(f, s, start, flush0, length, ps, o, flush)
    requires 4 * |ps| + PULSE_SIZE <= length && f(s, o).Got?
    ensures PulledSoFar(f, s, start, flush0, length, ps + [f(s, o).pulse], f(s, o).next, f(s, o).next)
  {
    var x := f(s, o);
    PullUnfold(f, s, o, flush, length - 4 * |ps|);
    AppendAssoc(ps, [x.pulse], Pull(f, s, x.next, x.next, length - 4 * |ps| - PULSE_SIZE).pulses);
  }

  /** With no room left, the loop ends with the pulses pulled so far, the cursor and the commit point. */
  lemma PulledSoFarFull(f: PulseReader, s: seq<uint8>, start: nat, flush0: nat, length: nat,
                        ps: seq<uint32>, o: nat, flush: nat)
    requires Moves(f) && PulledSoFar(f, s, start, flush0, length, ps, o, flush)
    requires 4 * |ps| + PULSE_SIZE > length
    ensures Pull(f, s, start, flush0, length) == Pulled(ps, o, flush)
  {
    AppendEmpty(ps);
  }

  /** A failed read ends the loop with the pulses pulled so far, the cursor where the read left it. */
  lemma PulledSoFarFail(f: PulseReader, s: seq<uint8>, start: nat, flush0: nat, length: nat,
                        ps: seq<uint32>, o: nat, flush: nat)
    requires Moves(f) && PulledSoFar(f, s, start, flush0, length, ps, o, flush)
    requires 4 * |ps| + PULSE_SIZE <= length && f(s, o).NotYet?
    ensures Pull(f, s, start, flush0, length) == Pulled(ps, f(s, o).next, flush)
  {
    PullUnfold(f, s, o, flush, length - 4 * |ps|);
    AppendEmpty(ps);
  }

  /**
   * Bytes arriving after a chain call do not change the pulses it found:
   * decoding all the bytes in one go is decoding the first ones, then
   * going on from their commit point.
   */
  lemma {:induction false} PulsesResume(f: PulseReader, s: seq<uint8>, t: seq<uint8>, o: nat)
    requires Moves(f) && Stable(f) && o <= |s|
    ensures var a := Pulses(f, s, o);
      var b := Pulses(f, s + t, a.commit);
      Pulses(f, s + t, o) == Decoded(a.pulses + b.pulses, b.commit)
    decreases |s| - o
  {
    var x := f(s, o);
    if x.NotYet? {
      assert [] + Pulses(f, s + t, o).pulses == Pulses(f, s + t, o).pulses;
    } else {
      assert f(s + t, o) == x;
      PulsesResume(f, s, t, x.next);
      var a' := Pulses(f, s, x.next);
      var b := Pulses(f, s + t, a'.commit);
      AppendAssoc([x.pulse], a'.pulses, b.pulses);
    }
  }

  /** Decoding bytes k on is decoding the whole from k on, the offsets moved back by k. */
  lemma {:induction false} PulsesShift(f: PulseReader, s: seq<uint8>, k: nat, o: nat)
    requires Moves(f) && Relative(f) && k <= |s| && o <= |s| - k
    ensures Pulses(f, s[k..], o).pulses == Pulses(f, s, k + o).pulses
    ensures Pulses(f, s[k..], o).commit + k == Pulses(f, s, k + o).commit
    decreases |s| - k - o
  {
    assert f(s[k..], o) == Shifted(f(s, k + o), k);
    match f(s, k + o)
    case NotYet(_) =>
    case Got(p, n) =>
      PulsesShift(f, s, k, n - k);
  }

  /**
   * Bytes are committed only with a whole pulse, so decoding a stream in
   * two chain calls, the second one on the uncommitted bytes of the first
   * and the bytes that arrived since, gives the pulses of decoding it in one.
   */
  lemma PulsesSplit(f: PulseReader, s: seq<uint8>, t: seq<uint8>, o: nat)
    requires Moves(f) && Stable(f) && Relative(f) && o <= |s|
    ensures var a := Pulses(f, s, o);
      var b := Pulses(f, s[a.commit..] + t, 0);
      Pulses(f, s + t, o) == Decoded(a.pulses + b.pulses, a.commit + b.commit)
  {
    var a := Pulses(f, s, o);
    PulsesResume(f, s, t, o);
    assert s[a.commit..] + t == (s + t)[a.commit..];
    PulsesShift(f, s + t, a.commit, 0);
  }

  /**
   * Where pulse decoding starts in a chain call, given the header status
   * and the bytes at hand: after the header when it is still to be read
   * and is valid, at the start when it was read before, and nowhere when
   * the header is missing or is not valid.
   */
  function DecodeStart(headerSize: nat, readHeader: HeaderReader, status: HeaderStatus, s: seq<uint8>): (r: Option<nat>)
    ensures r.Some? ==> r.value <= |s|
    ensures r.None? <==> status == NoHeaderYet && (|s| < headerSize || readHeader(s[..headerSize]).status != ValidHeader)
  {
    if status != NoHeaderYet then Some(0)
    else if |s| < headerSize then None
    else if readHeader(s[..headerSize]).status != ValidHeader then None
    else Some(headerSize)
  }

  /**
   * As written, the chain function fails on a first buffer shorter than
   * the header even when the bytes still to come make a valid header:
   * with a 20-byte header that the reader accepts whatever it holds, one
   * byte gives no start, so `Chain` returns `Error`, while the same byte
   * followed by 19 more gives a start.
   */
  lemma ShortFirstBufferFails()
    ensures var h: HeaderReader := (b: seq<uint8>) => HeaderInfo(ValidHeader, 985248, false);
      && DecodeStart(20, h, NoHeaderYet, [0]).None?
      && DecodeStart(20, h, NoHeaderYet, [0] + seq(19, i => 0)).Some?
  {
  }

  /** Where a chain call stands with the header: waiting for more bytes, failed on it, or decoding from an offset. */
  datatype HeaderStage = Waiting | Rejected | StartAt(offset: nat)

  /**
   * The header stage of a chain call as evidently intended (the header is
   * finished before anything else, and the bytes stay in the adapter): a
   * header whose bytes are not all there yet is waited for, and only a
   * header the reader rejects fails.
   */
  function IntendedStart(headerSize: nat, readHeader: HeaderReader, status: HeaderStatus, s: seq<uint8>): (r: HeaderStage)
    ensures r.StartAt? ==> r.offset <= |s|
  {
    if status != NoHeaderYet then StartAt(0)
    else if |s| < headerSize then Waiting
    else if readHeader(s[..headerSize]).status != ValidHeader then Rejected
    else StartAt(headerSize)
  }

  /**
   * The intended header stage fails only for good: once it rejects the
   * bytes at hand, it rejects them whatever bytes follow; while it waits,
   * nothing is decided about the header. It starts exactly where the
   * code as written starts, and fails or waits exactly where the code as
   * written fails.
   */
  lemma IntendedStartFailsForGood(headerSize: nat, readHeader: HeaderReader, status: HeaderStatus,
                                  s: seq<uint8>, t: seq<uint8>)
    ensures IntendedStart(headerSize, readHeader, status, s).Rejected? ==>
      && IntendedStart(headerSize, readHeader, status, s + t).Rejected?
      && DecodeStart(headerSize, readHeader, status, s + t).None?
    ensures IntendedStart(headerSize, readHeader, status, s).Waiting? ==>
      status == NoHeaderYet && |s| < headerSize
    ensures var d := DecodeStart(headerSize, readHeader, status, s);
      && (d.None? <==> !IntendedStart(headerSize, readHeader, status, s).StartAt?)
      && (d.Some? ==> IntendedStart(headerSize, readHeader, status, s) == StartAt(d.value))
  {
    if status == NoHeaderYet && |s| >= headerSize {
      assert (s + t)[..headerSize] == s[..headerSize];
    }
  }

  class BaseTapContainerDec {
    /** The concrete reader's `get_header_size`. */
    const headerSize: nat
    /** The concrete reader's `read_header`. */
    const readHeaderHook: HeaderReader
    /** The concrete reader's `read_pulse`. */
    const readPulse: PulseReader

    var headerStatus: HeaderStatus
    var rate: nat
    var halfwaves: bool
    var timestamp: nat
    /** The bytes pushed by upstream and not yet flushed. */
    var adapter: seq<uint8>
    /** The adapter's bytes as mapped by the chain function (`bytes_from_adapter`). */
    var bytesFromAdapter: seq<uint8>
    /** The upstream file, read at `inOffset` in pull mode. */
    var peer: seq<uint8>
    var inOffset: nat
    var initialOffset: nat
    var toFlush: nat
    /** The buffers pushed downstream, in order. */
    var pushed: seq<Buffer>

    ghost predicate Valid()
      reads this
    {
      Moves(readPulse) && timestamp < TWO_TO_THE_64
    }

    constructor (headerSize: nat, readHeaderHook: HeaderReader, readPulse: PulseReader, peer: seq<uint8>)
      requires Moves(readPulse)
      ensures Valid()
      ensures this.headerSize == headerSize && this.readHeaderHook == readHeaderHook && this.readPulse == readPulse
      ensures this.peer == peer && headerStatus == NoHeaderYet && adapter == [] && pushed == [] && timestamp == 0
    {
      this.headerSize, this.readHeaderHook, this.readPulse := headerSize, readHeaderHook, readPulse;
      headerStatus, rate, halfwaves, timestamp := NoHeaderYet, 0, false, 0;
      adapter, bytesFromAdapter, this.peer := [], [], peer;
      inOffset, initialOffset, toFlush := 0, 0, 0;
      pushed := [];
    }

    /** The bytes the reads see: the mapped adapter, or the upstream file in pull mode. */
    function Source(fromPeer: bool): seq<uint8>
      reads this
    {
      if fromPeer then peer else bytesFromAdapter
    }

    /** `change_state`: going between READY and PAUSED forgets the header, the time and the buffered bytes. */
    method ChangeState(t: Transition)
      requires Valid()
      modifies this`headerStatus, this`timestamp, this`adapter
      ensures Valid()
      ensures t != OtherTransition ==> headerStatus == NoHeaderYet && timestamp == 0 && adapter == []
      ensures t == OtherTransition ==> unchanged(this)
    {
      if t == ReadyToPaused || t == PausedToReady {
        headerStatus := NoHeaderYet;
        timestamp := 0;
        adapter := [];
      }
    }

    /**
     * `read_from_adapter` (and, on the upstream file, `read_from_peer`):
     * nothing, and no move, when fewer than n bytes remain past the offset;
     * otherwise the n bytes at the old offset, which moves on by n.
     */
    method ReadData(fromPeer: bool, n: nat) returns (r: Option<seq<uint8>>)
      modifies this`inOffset
      ensures var x := Read(Source(fromPeer), old(inOffset), n);
        && (x.None? ==> r.None? && inOffset == old(inOffset))
        && (x.Some? ==> r == Some(x.value.0) && inOffset == x.value.1)
    {
      var s := if fromPeer then peer else bytesFromAdapter;
      if |s| < inOffset + n {
        return None;
      }
      r := Some(s[inOffset..inOffset + n]);
      inOffset := inOffset + n;
    }

    /**
     * `read_header`: false when the header's bytes are not there yet;
     * otherwise the concrete reader decides the status and the caps, and
     * a valid header commits its bytes.
     */
    method ReadHeader(fromPeer: bool) returns (ok: bool)
      requires Valid()
      modifies this`inOffset, this`headerStatus, this`rate, this`halfwaves, this`toFlush
      ensures Valid()
      ensures var x := Read(Source(fromPeer), old(inOffset), headerSize);
        && ok == x.Some?
        && (!ok ==> && inOffset == old(inOffset) && toFlush == old(toFlush)
                    && headerStatus == old(headerStatus) && rate == old(rate) && halfwaves == old(halfwaves))
        && (ok ==> var info := readHeaderHook(x.value.0);
              && inOffset == x.value.1
              && headerStatus == info.status && rate == info.rate && halfwaves == info.halfwaves
              && toFlush == (if info.status == ValidHeader then inOffset else old(toFlush)))
    {
      var headerData := ReadData(fromPeer, headerSize);
      if headerData.None? {
        return false;
      }
      var info := readHeaderHook(headerData.value);
      headerStatus := info.status;
      rate, halfwaves := info.rate, info.halfwaves;
      if headerStatus == ValidHeader {
        toFlush := inOffset;
      }
      ok := true;
    }

    /**
     * `get_pulse_from_tap`: the concrete reader reads one pulse through the
     * cursor; a pulse is put in the writer as 4 bytes, added to the
     * duration, and commits the bytes read so far.
     */
    method GetPulseFromTap(fromPeer: bool, writer: seq<uint8>, duration: nat)
      returns (ok: bool, writer': seq<uint8>, duration': nat)
      requires Valid() && inOffset <= |Source(fromPeer)|
      modifies this`inOffset, this`initialOffset, this`toFlush
      ensures Valid() && inOffset <= |Source(fromPeer)|
      ensures var x := readPulse(Source(fromPeer), old(inOffset));
        && inOffset == x.next && initialOffset == old(inOffset)
        && ok == x.Got?
        && (!ok ==> writer' == writer && duration' == duration && toFlush == old(toFlush))
        && (ok ==> (&& writer' == writer + Le(x.pulse, 4)
                    && duration' == (duration + x.pulse) % TWO_TO_THE_64
                    && toFlush == inOffset && inOffset > old(inOffset)))
    {
      initialOffset := inOffset;
      var x := readPulse(if fromPeer then peer else bytesFromAdapter, inOffset);
      inOffset := x.next;
      if x.NotYet? {
        return false, writer, duration;
      }
      writer' := writer + Le(x.pulse, 4);
      toFlush := inOffset;
      duration' := (duration + x.pulse) % TWO_TO_THE_64;
      ok := true;
    }

    /** The state part way through the chain loop started at `start`. */
    ghost predicate ChainLoop(start: nat, writer: seq<uint8>, duration: nat, ps: seq<uint32>)
      reads this
    {
      && Valid() && toFlush == inOffset
      && DecodedSoFar(readPulse, bytesFromAdapter, start, ps, inOffset)
      && writer == Written(ps) && duration == Duration(ps)
    }

    /** One turn of the chain loop: a pulse decoded and kept, or the end of the loop. */
    method DecodeNext(ghost start: nat, writer: seq<uint8>, duration: nat, ghost ps: seq<uint32>)
      returns (ok: bool, writer': seq<uint8>, duration': nat, ghost ps': seq<uint32>)
      requires ChainLoop(start, writer, duration, ps)
      modifies this`inOffset, this`initialOffset, this`toFlush
      ensures Valid()
      ensures ok ==> ChainLoop(start, writer', duration', ps') && inOffset > old(inOffset)
      ensures !ok ==> (&& ps' == ps && writer' == Written(ps) && duration' == Duration(ps)
                       && Pulses(readPulse, bytesFromAdapter, start) == Decoded(ps, toFlush))
    {
      ghost var o := inOffset;
      ghost var x := readPulse(bytesFromAdapter, o);
      ok, writer', duration' := GetPulseFromTap(false, writer, duration);
      if !ok {
        DecodedSoFarEnd(readPulse, bytesFromAdapter, start, ps, o);
        return ok, writer', duration', ps;
      }
      DecodedSoFarStep(readPulse, bytesFromAdapter, start, ps, o);
      WrittenAppend(ps, x.pulse);
      DurationAppend(ps, x.pulse);
      ps' := ps + [x.pulse];
    }

    /**
     * The loop of the chain function: pulses are decoded until one is not
     * whole, each committing its bytes.
     */
    method DecodeAll() returns (writer: seq<uint8>, duration: nat, ghost ps: seq<uint32>)
      requires Valid() && inOffset <= |bytesFromAdapter| && toFlush == inOffset
      modifies this`inOffset, this`initialOffset, this`toFlush
      ensures Valid()
      ensures var r := Pulses(readPulse, bytesFromAdapter, old(inOffset));
        && ps == r.pulses && toFlush == r.commit
        && writer == Written(ps) && duration == Duration(ps)
    {
      ghost var start := inOffset;
      writer, duration, ps := [], 0, [];
      DecodedSoFarStart(readPulse, bytesFromAdapter, start);
      while true
        invariant ChainLoop(start, writer, duration, ps)
        decreases |bytesFromAdapter| - inOffset
      {
        var ok;
        ok, writer, duration, ps := DecodeNext(start, writer, duration, ps);
        if !ok {
          break;
        }
      }
    }

    /**
     * The chain function after the header: pulses are decoded from the
     * cursor while whole, the committed bytes are dropped from the adapter,
     * and the pulses go downstream in one buffer stamped with the running
     * timestamp and their duration, which the timestamp then grows by.
     * With a rejected header the pulses are dropped and the call fails.
     * The result of pushing downstream is `downstream`.
     */
    method DecodeAndPush(downstream: Flow) returns (ret: Flow)
      requires Valid() && headerStatus != NoHeaderYet
      requires bytesFromAdapter == adapter && inOffset <= |adapter| && toFlush == inOffset
      modifies this`adapter, this`inOffset, this`initialOffset, this`toFlush, this`timestamp, this`pushed
      ensures Valid()
      ensures var r := Pulses(readPulse, old(adapter), old(inOffset));
        && toFlush == r.commit && adapter == old(adapter)[r.commit..]
        && (headerStatus == NoValidHeader ==>
              ret == Error && pushed == old(pushed) && timestamp == old(timestamp))
        && (headerStatus == ValidHeader && r.pulses == [] ==>
              ret == Ok && pushed == old(pushed) && timestamp == old(timestamp))
        && (headerStatus == ValidHeader && r.pulses != [] ==>
              var d := Nanoseconds(Duration(r.pulses), rate);
              && ret == downstream
              && pushed == old(pushed) + [Buffer(Written(r.pulses), old(timestamp), d)]
              && timestamp == (old(timestamp) + d) % TWO_TO_THE_64)
    {
      var writer, duration, ps := DecodeAll();
      adapter := adapter[toFlush..];
      ret := Ok;
      var size := 0;
      if headerStatus == NoValidHeader {
        ret := Error;
      } else {
        size := |writer|;
      }
      if size > 0 {
        var d := Nanoseconds(duration, rate);
        pushed := pushed + [Buffer(writer, timestamp, d)];
        timestamp := (timestamp + d) % TWO_TO_THE_64;
        ret := downstream;
      }
    }

    /**
     * The chain function up to the pulses: the buffer joins the adapter,
     * the cursor and the commit point restart at 0, and a header still to
     * come is read from the start of the bytes when they are all there.
     * Decoding goes on exactly when `DecodeStart` gives where it starts.
     */
    method TakeBuffer(buf: seq<uint8>) returns (go: bool)
      requires Valid()
      modifies this`adapter, this`bytesFromAdapter, this`inOffset, this`toFlush,
        this`headerStatus, this`rate, this`halfwaves
      ensures Valid()
      ensures var s := old(adapter) + buf;
        && adapter == s && bytesFromAdapter == s
        && (old(headerStatus) != NoHeaderYet ==>
              headerStatus == old(headerStatus) && rate == old(rate) && halfwaves == old(halfwaves))
        && (old(headerStatus) == NoHeaderYet && |s| < headerSize ==>
              headerStatus == NoHeaderYet && rate == old(rate) && halfwaves == old(halfwaves))
        && (old(headerStatus) == NoHeaderYet && |s| >= headerSize ==>
              var info := readHeaderHook(s[..headerSize]);
              headerStatus == info.status && rate == info.rate && halfwaves == info.halfwaves)
      ensures var start := DecodeStart(headerSize, readHeaderHook, old(headerStatus), old(adapter) + buf);
        && go == start.Some?
        && (!go ==> toFlush == 0 && inOffset == (if |adapter| < headerSize then 0 else headerSize))
        && (go ==> && inOffset == start.value && toFlush == inOffset
                   && headerStatus == (if old(headerStatus) == NoHeaderYet then ValidHeader else old(headerStatus)))
    {
      adapter := adapter + buf;
      bytesFromAdapter := adapter;
      inOffset := 0;
      toFlush := 0;
      go := true;
      if headerStatus == NoHeaderYet {
        var readHeaderRet := ReadHeader(false);
        if !readHeaderRet || headerStatus != ValidHeader {
          go := false;
        }
      }
    }

    /**
     * The chain function: the buffer joins the adapter and the cursor and
     * the commit point restart at 0. A header still to come is read from
     * the start of the bytes when they are all there, and sets the status
     * and the caps; it must be whole and valid, or the call fails with
     * every byte kept; then the pulses are decoded and pushed as by
     * `DecodeAndPush`.
     */
    method Chain(buf: seq<uint8>, downstream: Flow) returns (ret: Flow)
      requires Valid()
      modifies this`adapter, this`bytesFromAdapter, this`inOffset, this`initialOffset, this`toFlush,
        this`headerStatus, this`rate, this`halfwaves, this`timestamp, this`pushed
      ensures Valid()
      ensures var s := old(adapter) + buf;
        && bytesFromAdapter == s
        && (old(headerStatus) != NoHeaderYet ==>
              headerStatus == old(headerStatus) && rate == old(rate) && halfwaves == old(halfwaves))
        && (old(headerStatus) == NoHeaderYet && |s| < headerSize ==>
              headerStatus == NoHeaderYet && rate == old(rate) && halfwaves == old(halfwaves))
        && (old(headerStatus) == NoHeaderYet && |s| >= headerSize ==>
              var info := readHeaderHook(s[..headerSize]);
              headerStatus == info.status && rate == info.rate && halfwaves == info.halfwaves)
      ensures var s := old(adapter) + buf;
        var start := DecodeStart(headerSize, readHeaderHook, old(headerStatus), s);
        && (start.None? ==>
              && ret == Error && adapter == s && pushed == old(pushed) && timestamp == old(timestamp)
              && toFlush == 0 && inOffset == (if |s| < headerSize then 0 else headerSize))
        && (start.Some? ==>
              var r := Pulses(readPulse, s, start.value);
              && headerStatus == (if old(headerStatus) == NoHeaderYet then ValidHeader else old(headerStatus))
              && toFlush == r.commit && adapter == s[r.commit..]
              && (headerStatus == NoValidHeader ==>
                    ret == Error && pushed == old(pushed) && timestamp == old(timestamp))
              && (headerStatus == ValidHeader && r.pulses == [] ==>
                    ret == Ok && pushed == old(pushed) && timestamp == old(timestamp))
              && (headerStatus == ValidHeader && r.pulses != [] ==>
                    var d := Nanoseconds(Duration(r.pulses), rate);
                    && ret == downstream
                    && pushed == old(pushed) + [Buffer(Written(r.pulses), old(timestamp), d)]
                    && timestamp == (old(timestamp) + d) % TWO_TO_THE_64))
    {
      var go := TakeBuffer(buf);
      if !go {
        return Error;
      }
      ret := DecodeAndPush(downstream);
    }

    /**
     * The loop of `get_range`: pulses are pulled from the upstream file
     * while another 4 bytes fit in `length`, until one is not whole.
     */
    method PullPulses(length: uint32) returns (writer: seq<uint8>)
      requires Valid() && inOffset <= |peer|
      modifies this`inOffset, this`initialOffset, this`toFlush
      ensures Valid() && inOffset <= |peer|
      ensures var r := Pull(readPulse, peer, old(inOffset), old(toFlush), length);
        writer == Written(r.pulses) && inOffset == r.cursor && toFlush == r.commit
    {
      ghost var start, flush0 := inOffset, toFlush;
      ghost var ps: seq<uint32> := [];
      writer := [];
      var duration := 0;
      PulledSoFarStart(readPulse, peer, start, flush0, length);
      while |writer| + PULSE_SIZE <= length
        invariant Valid() && writer == Written(ps)
        invariant PulledSoFar(readPulse, peer, start, flush0, length, ps, inOffset, toFlush)
        decreases length - |writer|
      {
        ghost var o, flush := inOffset, toFlush;
        ghost var x := readPulse(peer, o);
        var ok;
        ok, writer, duration := GetPulseFromTap(true, writer, duration);
        if !ok {
          PulledSoFarFail(readPulse, peer, start, flush0, length, ps, o, flush);
          return;
        }
        PulledSoFarStep(readPulse, peer, start, flush0, length, ps, o, flush);
        WrittenAppend(ps, x.pulse);
        ps := ps + [x.pulse];
      }
      PulledSoFarFull(readPulse, peer, start, flush0, length, ps, inOffset, toFlush);
    }

    /**
     * `get_range`: the header is read first if it has not been; with a
     * valid header, pulses are pulled from the upstream file while another
     * 4 bytes fit in `length`, moving the cursor and the commit point as
     * `Pull` says. Whatever was pulled is returned, and the call succeeds
     * exactly when the header is valid.
     */
    method GetRange(length: uint32) returns (ret: Flow, buf: seq<uint8>)
      requires Valid() && inOffset <= |peer|
      modifies this`inOffset, this`initialOffset, this`toFlush, this`headerStatus, this`rate, this`halfwaves
      ensures Valid() && inOffset <= |peer|
      ensures |buf| <= length && |buf| % PULSE_SIZE == 0
      ensures ret == (if headerStatus == ValidHeader then Ok else Error)
      ensures headerStatus != ValidHeader ==> buf == []
      ensures old(headerStatus) != NoHeaderYet ==>
        && headerStatus == old(headerStatus) && rate == old(rate) && halfwaves == old(halfwaves)
        && (headerStatus == NoValidHeader ==> inOffset == old(inOffset) && toFlush == old(toFlush))
      ensures old(headerStatus) == ValidHeader ==>
        var p := Pull(readPulse, peer, old(inOffset), old(toFlush), length);
        buf == Written(p.pulses) && inOffset == p.cursor && toFlush == p.commit
      ensures old(headerStatus) == NoHeaderYet ==>
        var x := Read(peer, old(inOffset), headerSize);
        && (x.None? ==>
              && headerStatus == NoHeaderYet && rate == old(rate) && halfwaves == old(halfwaves)
              && inOffset == old(inOffset) && toFlush == old(toFlush))
        && (x.Some? ==>
              var info := readHeaderHook(x.value.0);
              && headerStatus == info.status && rate == info.rate && halfwaves == info.halfwaves
              && (headerStatus != ValidHeader ==> inOffset == x.value.1 && toFlush == old(toFlush))
              && (headerStatus == ValidHeader ==>
                    var p := Pull(readPulse, peer, x.value.1, x.value.1, length);
                    buf == Written(p.pulses) && inOffset == p.cursor && toFlush == p.commit))
    {
      ret := Error;
      buf := [];
      if headerStatus == NoHeaderYet {
        var _ := ReadHeader(true);
      }
      if headerStatus == ValidHeader {
        buf := PullPulses(length);
        ret := Ok;
      }
    }
  }
}
