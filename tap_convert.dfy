/**
 * The pulse converter (`tapconvert`): rescales every pulse from the input
 * clock rate to the output clock rate and, when the two sides disagree on
 * whether pulses are half waves, splits every full wave into two half
 * waves or joins every pair of half waves into one full wave. Pulses are
 * 32-bit words; the rescaling multiplies in 64 bits before it divides.
 */
module TapConvert {
  import opened Bytes

  /** A `gint`: the rates come from the caps as signed 32-bit values. */
  type int32 = x: int | -0x8000_0000 <= x < 0x8000_0000

  const TWO_TO_THE_64: nat := 0x1_0000_0000_0000_0000

  /** The element's wave mode, chosen when the caps are set. */
  datatype Waves = Unchanged | HalfToFull | FullToHalf

  /** A `gint` converted to `guint64`, as C does for a mixed operation. */
  function Wide(r: int32): (w: nat)
    ensures w < TWO_TO_THE_64
    ensures r >= 0 ==> w == r
    ensures r < 0 ==> w == TWO_TO_THE_64 + r
  {
    if r >= 0 then r else TWO_TO_THE_64 + r
  }

  /** A `gint` converted to `guint` (32 bits). */
  function Narrow(r: int32): (w: uint32)
    ensures r >= 0 ==> w == r
    ensures r < 0 ==> w == TWO_TO_THE_32 + r
  {
    if r >= 0 then r else TWO_TO_THE_32 + r
  }

  /** `(guint64) p * rate`: the product in 64 bits, wrapping at 2^64. */
  function Product64(p: uint32, rate: int32): nat
  {
    (p * Wide(rate)) % TWO_TO_THE_64
  }

  /** a <= A and b <= B bound the product of naturals. */
  lemma MulBound(a: nat, b: nat, bigA: nat, bigB: nat)
    requires a <= bigA && b <= bigB
    ensures a * b <= bigA * bigB
  {
    assert a * b <= bigA * b;
    assert bigA * b <= bigA * bigB;
  }

  /** For a non-negative rate the 64-bit product of a pulse is exact. */
  lemma Product64Exact(p: uint32, rate: int32)
    ensures rate >= 0 ==> Product64(p, rate) == p * rate
  {
    if rate >= 0 {
      MulBound(p, rate, 0xFFFF_FFFF, 0x7FFF_FFFF);
    }
  }

  /** The sum of two pulses times a non-negative rate stays below 2^64. */
  lemma PairProductExact(a: uint32, b: uint32, rate: int32)
    ensures rate >= 0 ==> (Product64(a, rate) + Product64(b, rate)) % TWO_TO_THE_64 == (a + b) * rate
  {
    if rate >= 0 {
      Product64Exact(a, rate);
      Product64Exact(b, rate);
      MulBound(a + b, rate, 0x1_FFFF_FFFE, 0x7FFF_FFFF);
      assert a * rate + b * rate == (a + b) * rate;
    }
  }

  /** A non-zero multiple of a positive d is at least d away from zero. */
  lemma MulSign(x: int, d: int)
    requires d > 0
    ensures x >= 1 ==> x * d >= d
    ensures x <= -1 ==> x * d <= -d
  {
  }

  /** q * d <= n < q * d + d pins n / d to q. */
  lemma DivUnique(n: int, d: int, q: int)
    requires d > 0 && q * d <= n < q * d + d
    ensures n / d == q
  {
    var q' := n / d;
    assert n == q' * d + n % d;
    assert (q' - q) * d == q' * d - q * d;
    MulSign(q' - q, d);
  }

  /** Multiplying by a rate and dividing by the same rate gives the value back. */
  lemma MulDivCancel(a: nat, b: nat)
    requires b > 0
    ensures a * b / b == a
  {
    DivUnique(a * b, b, a);
  }

  /**
   * One rescaled pulse of `transform_ip`: the pulse times the output rate
   * in 64 bits, divided by the input rate and stored back into 32 bits.
   */
  function Scale(p: uint32, inrate: int32, outrate: int32): uint32
    requires inrate != 0
  {
    U32(Product64(p, outrate) / Wide(inrate))
  }

  /**
   * For positive rates a rescaled pulse is the pulse times the output rate
   * over the input rate, rounded down, kept to its low 32 bits.
   */
  lemma ScaleMeaning(p: uint32, inrate: int32, outrate: int32)
    requires 0 < inrate && 0 <= outrate
    ensures Scale(p, inrate, outrate) == (p * outrate / inrate) % TWO_TO_THE_32
  {
    Product64Exact(p, outrate);
    U32IsMod(Product64(p, outrate) / Wide(inrate));
  }

  /** The same rate on both sides leaves a pulse as it is. */
  lemma ScaleSameRate(p: uint32, rate: int32)
    requires rate > 0
    ensures Scale(p, rate, rate) == p
  {
    ScaleMeaning(p, rate, rate);
    MulDivCancel(p, rate);
  }

  /** Every pulse of a buffer rescaled: what the in-place mode leaves in the buffer. */
  function ScaleAll(s: seq<uint32>, inrate: int32, outrate: int32): (r: seq<uint32>)
    requires inrate != 0
    ensures |r| == |s|
    ensures forall i :: 0 <= i < |s| ==> r[i] == Scale(s[i], inrate, outrate)
  {
    seq(|s|, i requires 0 <= i < |s| => Scale(s[i], inrate, outrate))
  }

  /** A full wave split into two half waves: the first is the smaller half. */
  function Halves(c: uint32): (r: (uint32, uint32))
    ensures r.0 as int + r.1 == c
    ensures r.0 <= r.1 <= r.0 + 1
  {
    (c / 2, c - c / 2)
  }

  /** The output of the full-to-half mode: two half waves per rescaled pulse. */
  function FullToHalfAll(s: seq<uint32>, inrate: int32, outrate: int32): (r: seq<uint32>)
    requires inrate != 0
    ensures |r| == 2 * |s|
  {
    if s == [] then []
    else
      var h := Halves(Scale(s[0], inrate, outrate));
      [h.0, h.1] + FullToHalfAll(s[1..], inrate, outrate)
  }

  /** Pulse i of the input becomes half waves 2i and 2i + 1 of the output. */
  lemma {:induction false} FullToHalfAt(s: seq<uint32>, inrate: int32, outrate: int32, i: nat)
    requires inrate != 0 && i < |s|
    ensures FullToHalfAll(s, inrate, outrate)[2 * i] == Halves(Scale(s[i], inrate, outrate)).0
    ensures FullToHalfAll(s, inrate, outrate)[2 * i + 1] == Halves(Scale(s[i], inrate, outrate)).1
  {
    if i > 0 {
      FullToHalfAt(s[1..], inrate, outrate, i - 1);
      assert s[1..][i - 1] == s[i];
    }
  }

  /** An output holding the two halves of each rescaled pulse at 2i and 2i + 1 is the full-to-half output. */
  lemma FullToHalfPointwise(s: seq<uint32>, out: seq<uint32>, inrate: int32, outrate: int32)
    requires inrate != 0 && |out| == 2 * |s|
    requires forall j :: 0 <= j < |s| ==>
      && out[2 * j] == Halves(Scale(s[j], inrate, outrate)).0
      && out[2 * j + 1] == Halves(Scale(s[j], inrate, outrate)).1
    ensures out == FullToHalfAll(s, inrate, outrate)
  {
    var r := FullToHalfAll(s, inrate, outrate);
    forall k | 0 <= k < |out|
      ensures out[k] == r[k]
    {
      var j := k / 2;
      FullToHalfAt(s, inrate, outrate, j);
      assert k == 2 * j || k == 2 * j + 1;
    }
  }

  /**
   * One full wave from two half waves, as tap/gsttapconvert.c:220-222
   * writes it: the first product is taken in 64 bits but the second in
   * 32 bits (`guint` times `gint`), so it wraps before it is added.
   */
  function PairAsWritten(a: uint32, b: uint32, inrate: int32, outrate: int32): uint32
    requires inrate != 0
  {
    U32(((Product64(a, outrate) + (b * Narrow(outrate)) % TWO_TO_THE_32) % TWO_TO_THE_64) / Wide(inrate))
  }

  /**
   * One full wave from two half waves with both products in 64 bits: the
   * two half waves together, rescaled and rounded down.
   */
  function Pair(a: uint32, b: uint32, inrate: int32, outrate: int32): uint32
    requires inrate != 0
  {
    U32(((Product64(a, outrate) + Product64(b, outrate)) % TWO_TO_THE_64) / Wide(inrate))
  }

  /**
   * For positive rates a joined wave is the two half waves together times
   * the output rate over the input rate, rounded down, kept to 32 bits.
   */
  lemma PairMeaning(a: uint32, b: uint32, inrate: int32, outrate: int32)
    requires 0 < inrate && 0 <= outrate
    ensures Pair(a, b, inrate, outrate) == ((a as int + b) * outrate / inrate) % TWO_TO_THE_32
  {
    PairProductExact(a, b, outrate);
    U32IsMod(((Product64(a, outrate) + Product64(b, outrate)) % TWO_TO_THE_64) / Wide(inrate));
  }

  /**
   * Half waves of 5000 cycles each at 985248 Hz on both sides: the full
   * wave is 10000 cycles, but the wrapped second product makes the
   * written formula give 5640.
   */
  lemma PairWrapsSecondProduct()
    ensures Pair(5000, 5000, 985248, 985248) == 10000
    ensures PairAsWritten(5000, 5000, 985248, 985248) == 5640
  {
    PairMeaning(5000, 5000, 985248, 985248);
    assert 10000 * 985248 / 985248 == 10000;
    Product64Exact(5000, 985248);
    assert 5000 * 985248 == 4926240000;
    U32IsMod(5000 * 985248);
    assert U32(5000 * Narrow(985248)) == 631272704;
    assert (4926240000 + 631272704) % TWO_TO_THE_64 == 5557512704;
    assert 5557512704 / 985248 == 5640;
  }

  /**
   * While the second product fits in 32 bits (a non-negative output rate
   * and b times it below 2^32), the written formula is the intended one.
   */
  lemma PairAgrees(a: uint32, b: uint32, inrate: int32, outrate: int32)
    requires inrate != 0 && 0 <= outrate && b * outrate < TWO_TO_THE_32
    ensures PairAsWritten(a, b, inrate, outrate) == Pair(a, b, inrate, outrate)
  {
    Product64Exact(b, outrate);
    assert (b * Narrow(outrate)) % TWO_TO_THE_32 == b * outrate;
  }

  /**
   * The output of the half-to-full mode as tap/gsttapconvert.c:217-223
   * computes it: one full wave per pair of half waves, joined by the
   * written formula.
   */
  function HalfToFullAll(s: seq<uint32>, inrate: int32, outrate: int32): (r: seq<uint32>)
    requires inrate != 0 && |s| % 2 == 0
    ensures |r| == |s| / 2
    ensures forall i :: 0 <= i < |r| ==> r[i] == PairAsWritten(s[2 * i], s[2 * i + 1], inrate, outrate)
  {
    seq(|s| / 2, i requires 0 <= i < |s| / 2 => PairAsWritten(s[2 * i], s[2 * i + 1], inrate, outrate))
  }

  /** The intended half-to-full output: every pair joined with both products in 64 bits. */
  function HalfToFullIntended(s: seq<uint32>, inrate: int32, outrate: int32): (r: seq<uint32>)
    requires inrate != 0 && |s| % 2 == 0
    ensures |r| == |s| / 2
    ensures forall i :: 0 <= i < |r| ==> r[i] == Pair(s[2 * i], s[2 * i + 1], inrate, outrate)
  {
    seq(|s| / 2, i requires 0 <= i < |s| / 2 => Pair(s[2 * i], s[2 * i + 1], inrate, outrate))
  }

  /**
   * The half-to-full output agrees with the intended one whenever every
   * second half wave times the output rate fits in 32 bits.
   */
  lemma HalfToFullAgrees(s: seq<uint32>, inrate: int32, outrate: int32)
    requires inrate != 0 && |s| % 2 == 0 && 0 <= outrate
    requires forall i :: 0 <= i < |s| / 2 ==> s[2 * i + 1] * outrate < TWO_TO_THE_32
    ensures HalfToFullAll(s, inrate, outrate) == HalfToFullIntended(s, inrate, outrate)
  {
    var r := HalfToFullAll(s, inrate, outrate);
    var q := HalfToFullIntended(s, inrate, outrate);
    forall i | 0 <= i < |r|
      ensures r[i] == q[i]
    {
      PairAgrees(s[2 * i], s[2 * i + 1], inrate, outrate);
    }
  }

  /** Two half waves that split a wave evenly join back into it at an unchanged rate. */
  lemma JoinHalves(c: uint32, rate: int32)
    requires rate > 0
    ensures Pair(Halves(c).0, Halves(c).1, rate, rate) == c
  {
    var h := Halves(c);
    PairMeaning(h.0, h.1, rate, rate);
    assert h.0 as int + h.1 == c;
    MulDivCancel(c, rate);
  }

  /**
   * Splitting into half waves while rescaling, then joining them back at
   * an unchanged rate, is rescaling in place.
   */
  lemma {:induction false} SplitThenJoin(s: seq<uint32>, inrate: int32, rate: int32)
    requires inrate != 0 && rate > 0
    ensures HalfToFullIntended(FullToHalfAll(s, inrate, rate), rate, rate) == ScaleAll(s, inrate, rate)
  {
    var h := FullToHalfAll(s, inrate, rate);
    var r := HalfToFullIntended(h, rate, rate);
    forall i | 0 <= i < |s|
      ensures r[i] == Scale(s[i], inrate, rate)
    {
      FullToHalfAt(s, inrate, rate, i);
      JoinHalves(Scale(s[i], inrate, rate), rate);
    }
  }

  /**
   * The written join undoes the split too, as long as every larger half
   * wave times the rate fits in 32 bits.
   */
  lemma SplitThenJoinAsWritten(s: seq<uint32>, inrate: int32, rate: int32)
    requires inrate != 0 && rate > 0
    requires forall i :: 0 <= i < |s| ==> Halves(Scale(s[i], inrate, rate)).1 * rate < TWO_TO_THE_32
    ensures HalfToFullAll(FullToHalfAll(s, inrate, rate), rate, rate) == ScaleAll(s, inrate, rate)
  {
    var h := FullToHalfAll(s, inrate, rate);
    forall i | 0 <= i < |h| / 2
      ensures h[2 * i + 1] * rate < TWO_TO_THE_32
    {
      FullToHalfAt(s, inrate, rate, i);
    }
    HalfToFullAgrees(h, rate, rate);
    SplitThenJoin(s, inrate, rate);
  }

  /**
   * The mode `set_caps` picks from the two `halfwaves` flags: unchanged
   * (in place) when they agree, otherwise by the input's wave shape.
   */
  function ModeOf(inHalf: bool, outHalf: bool): (w: Waves)
    ensures w == Unchanged <==> inHalf == outHalf
    ensures w == HalfToFull <==> inHalf && !outHalf
    ensures w == FullToHalf <==> !inHalf && outHalf
  {
    if inHalf == outHalf then Unchanged
    else if inHalf then HalfToFull
    else FullToHalf
  }

  /**
   * `get_unit_size`: no size without a `halfwaves` field; otherwise one
   * pulse, or two on the half-wave side when the mode changes the shape.
   */
  function UnitSize(waves: Waves, halfwaves: Option<bool>): (r: Option<nat>)
    ensures r.None? <==> halfwaves.None?
    ensures r.Some? ==> r.value == 4 || r.value == 8
    ensures r.Some? ==> (r.value == 8 <==> halfwaves.value && waves != Unchanged)
  {
    match halfwaves
    case None => None
    case Some(h) => Some(if h && (waves == FullToHalf || waves == HalfToFull) then 8 else 4)
  }

  /**
   * In a mode picked from two caps, one unit on either side is one full
   * wave: one pulse on the full-wave side, two on the half-wave side.
   */
  lemma UnitsAreFullWaves(inHalf: bool, outHalf: bool)
    ensures var w := ModeOf(inHalf, outHalf);
      && UnitSize(w, Some(inHalf)) == Some(if inHalf && !outHalf then 8 else 4)
      && UnitSize(w, Some(outHalf)) == Some(if outHalf && !inHalf then 8 else 4)
  {
  }

  /** The element: the two rates, the wave mode and whether it works in place. */
  class Converter {
    var inrate: int32
    var outrate: int32
    var waves: Waves
    var inPlace: bool

    /** A new element: zero-filled, so no rates yet and the unchanged mode. */
    constructor ()
      ensures inrate == 0 && outrate == 0 && waves == Unchanged && !inPlace
    {
      inrate, outrate, waves, inPlace := 0, 0, Unchanged, false;
    }

    /**
     * `set_caps`: a rate missing from the caps leaves the old one; a
     * missing `halfwaves` flag leaves its variable uninitialised, given
     * here as the values `junkIn` and `junkOut`. The mode is picked
     * whatever is missing; the caps are accepted only when nothing is.
     */
    method SetCaps(inRate: Option<int32>, outRate: Option<int32>, inHalf: Option<bool>, outHalf: Option<bool>,
                   junkIn: bool, junkOut: bool) returns (ok: bool)
      modifies this
      ensures ok == (inRate.Some? && outRate.Some? && inHalf.Some? && outHalf.Some?)
      ensures inrate == (if inRate.Some? then inRate.value else old(inrate))
      ensures outrate == (if outRate.Some? then outRate.value else old(outrate))
      ensures waves == ModeOf(if inHalf.Some? then inHalf.value else junkIn, if outHalf.Some? then outHalf.value else junkOut)
      ensures inPlace == (waves == Unchanged)
    {
      if inRate.Some? {
        inrate := inRate.value;
      }
      if outRate.Some? {
        outrate := outRate.value;
      }
      var inHalfwaves := if inHalf.Some? then inHalf.value else junkIn;
      var outHalfwaves := if outHalf.Some? then outHalf.value else junkOut;
      ok := inRate.Some? && outRate.Some? && inHalf.Some? && outHalf.Some?;
      if inHalfwaves == outHalfwaves {
        inPlace := true;
        waves := Unchanged;
      } else {
        inPlace := false;
        waves := if inHalfwaves then HalfToFull else FullToHalf;
      }
    }

    /** `transform_ip`: every pulse of the buffer rescaled where it is. */
    method TransformIp(data: array<uint32>)
      requires inrate != 0
      modifies data
      ensures data[..] == ScaleAll(old(data[..]), inrate, outrate)
    {
      ghost var before := data[..];
      var i := 0;
      while i < data.Length
        invariant 0 <= i <= data.Length
        invariant forall j :: 0 <= j < i ==> data[j] == Scale(before[j], inrate, outrate)
        invariant forall j :: i <= j < data.Length ==> data[j] == before[j]
      {
        var pulse := Product64(data[i], outrate);
        data[i] := U32(pulse / Wide(inrate));
        i := i + 1;
      }
      assert data[..] == ScaleAll(before, inrate, outrate);
    }

    /**
     * `transform`: in the full-to-half mode every input pulse becomes two
     * output half waves; in the half-to-full mode every output pulse is
     * made of two input half waves by the written formula, whose second
     * product wraps at 32 bits; in the
     * unchanged mode nothing is written and the call fails.
     */
    method Transform(inp: array<uint32>, outp: array<uint32>) returns (ok: bool)
      requires inp != outp
      requires waves != Unchanged ==> inrate != 0
      requires waves == FullToHalf ==> 2 * inp.Length <= outp.Length
      requires waves == HalfToFull ==> 2 * outp.Length <= inp.Length
      modifies outp
      ensures ok == (waves != Unchanged)
      ensures waves == Unchanged ==> outp[..] == old(outp[..])
      ensures waves == FullToHalf ==>
        && outp[..2 * inp.Length] == FullToHalfAll(inp[..], inrate, outrate)
        && outp[2 * inp.Length..] == old(outp[2 * inp.Length..])
      ensures waves == HalfToFull ==> outp[..] == HalfToFullAll(inp[..2 * outp.Length], inrate, outrate)
    {
      ok := false;
      if waves == FullToHalf {
        SplitInto(inp, outp);
        ok := true;
      } else if waves == HalfToFull {
        JoinInto(inp, outp);
        ok := true;
      }
    }

    /** The full-to-half loop of `transform`: two output half waves per input pulse. */
    method SplitInto(inp: array<uint32>, outp: array<uint32>)
      requires inp != outp && inrate != 0 && 2 * inp.Length <= outp.Length
      modifies outp
      ensures outp[..2 * inp.Length] == FullToHalfAll(inp[..], inrate, outrate)
      ensures outp[2 * inp.Length..] == old(outp[2 * inp.Length..])
    {
      var i := 0;
      while i < inp.Length
        invariant 0 <= i <= inp.Length
        invariant forall j :: 0 <= j < i ==>
          && outp[2 * j] == Halves(Scale(inp[j], inrate, outrate)).0
          && outp[2 * j + 1] == Halves(Scale(inp[j], inrate, outrate)).1
        invariant forall k :: 2 * i <= k < outp.Length ==> outp[k] == old(outp[k])
      {
        var converted := Scale(inp[i], inrate, outrate);
        outp[2 * i] := converted / 2;
        outp[2 * i + 1] := converted - outp[2 * i];
        i := i + 1;
      }
      FullToHalfPointwise(inp[..], outp[..2 * inp.Length], inrate, outrate);
    }

    /** The half-to-full loop of `transform`: one output wave per two input half waves. */
    method JoinInto(inp: array<uint32>, outp: array<uint32>)
      requires inp != outp && inrate != 0 && 2 * outp.Length <= inp.Length
      modifies outp
      ensures outp[..] == HalfToFullAll(inp[..2 * outp.Length], inrate, outrate)
    {
      var o := 0;
      while o < outp.Length
        invariant 0 <= o <= outp.Length
        invariant forall j :: 0 <= j < o ==> outp[j] == PairAsWritten(inp[2 * j], inp[2 * j + 1], inrate, outrate)
      {
        outp[o] := PairAsWritten(inp[2 * o], inp[2 * o + 1], inrate, outrate);
        o := o + 1;
      }
      assert outp[..] == HalfToFullAll(inp[..2 * outp.Length], inrate, outrate);
    }
  }
}
