/**
 * The per-region loop of `do_drop1` (jpegtran.c): a fold over the parsed
 * integer list in groups of six. Each group aligns a fixed 32x32 source
 * window, then the destination region, and then calls `do_drop`. The call is
 * recorded as a `DropCall`; `do_drop` itself is not part of this model. The
 * target image's header does not change inside the loop (`do_drop` only
 * rewrites coefficients), so one `Image` serves every group.
 */
module Batch {
  import opened Wrappers
  import opened Transform
  import opened Geometry
  import opened Axis
  import opened Aligner

  /** One group of six integers, named by the order `do_drop1` reads them in. */
  datatype Region = Region(destX: int, destY: int, srcX: int, srcY: int, width: int, height: int)

  /** The group starting at index `i`: `[i]` and `[i+1]` are destX/destY, `[i+2]` and `[i+3]` srcX/srcY, then width and height. */
  function RegionAt(vals: seq<int>, i: nat): Region
    requires i + 6 <= |vals|
  {
    Region(vals[i], vals[i + 1], vals[i + 2], vals[i + 3], vals[i + 4], vals[i + 5])
  }

  /**
   * The order `do_drop1` reads a group in: the first two values become the
   * destination's `"+X+Y"`, the next two the source window's, and the last
   * two the destination's width and height.
   */
  lemma GroupFieldOrder(vals: seq<int>, i: nat, parse: OffsetParser)
    requires i + 6 <= |vals|
    ensures SourceSpec(parse, RegionAt(vals, i)).crop == parse(vals[i + 2], vals[i + 3]).crop
    ensures SourceSpec(parse, RegionAt(vals, i)).x.offset == parse(vals[i + 2], vals[i + 3]).x.offset
    ensures SourceSpec(parse, RegionAt(vals, i)).y.offset == parse(vals[i + 2], vals[i + 3]).y.offset
    ensures DestSpec(parse, RegionAt(vals, i)).crop == parse(vals[i], vals[i + 1]).crop
    ensures DestSpec(parse, RegionAt(vals, i)).x.offset == parse(vals[i], vals[i + 1]).x.offset
    ensures DestSpec(parse, RegionAt(vals, i)).y.offset == parse(vals[i], vals[i + 1]).y.offset
    ensures DestSpec(parse, RegionAt(vals, i)).x.size == ToDim(vals[i + 4])
    ensures DestSpec(parse, RegionAt(vals, i)).y.size == ToDim(vals[i + 5])
  {
  }

  /** The arguments of one `do_drop` call that the loop decides. */
  datatype DropCall = DropCall(
    xOffset: nat,        // destination x_crop_offset, in iMCUs
    yOffset: nat,
    dropWidth: nat,      // in iMCUs
    dropHeight: nat,
    srcXOffset: nat,     // crop1: the source alignment's x offset, in iMCUs
    srcYOffset: nat)     // crop2

  /** `jtransform_parse_crop_spec` applied to the text `"+X+Y"`, defined outside this file. */
  type OffsetParser = (int, int) -> CropSpec

  /** Side of the window the source alignment always uses. */
  const SourceWindow: nat := 32

  const DimModulus: int := 0x1_0000_0000

  /** Assignment of a C `int` to an unsigned 32-bit `JDIMENSION`. */
  function ToDim(x: int): (d: nat)
    ensures d < DimModulus
    ensures 0 <= x < DimModulus ==> d == x
    ensures x < 0 && -DimModulus <= x ==> d == x + DimModulus
  {
    x % DimModulus
  }

  /** A size given explicitly (`JCROP_POS`) on one axis of a parsed spec. */
  function WithSize(ax: AxisRequest, size: nat): AxisRequest {
    ax.(size := size, sizeSet := Pos)
  }

  /** The spec of the source alignment: the parsed source offsets with a 32x32 window. */
  function SourceSpec(parse: OffsetParser, g: Region): (spec: CropSpec)
    ensures spec.x.size == SourceWindow && spec.x.sizeSet == Pos
    ensures spec.y.size == SourceWindow && spec.y.sizeSet == Pos
    ensures spec.crop == parse(g.srcX, g.srcY).crop
    ensures spec.x.offset == parse(g.srcX, g.srcY).x.offset && spec.x.offsetSet == parse(g.srcX, g.srcY).x.offsetSet
    ensures spec.y.offset == parse(g.srcX, g.srcY).y.offset && spec.y.offsetSet == parse(g.srcX, g.srcY).y.offsetSet
  {
    var p := parse(g.srcX, g.srcY);
    p.(x := WithSize(p.x, SourceWindow), y := WithSize(p.y, SourceWindow))
  }

  /** The spec of the destination alignment: the parsed destination offsets with the region's size. */
  function DestSpec(parse: OffsetParser, g: Region): (spec: CropSpec)
    ensures spec.x.size == ToDim(g.width) && spec.x.sizeSet == Pos
    ensures spec.y.size == ToDim(g.height) && spec.y.sizeSet == Pos
    ensures spec.crop == parse(g.destX, g.destY).crop
    ensures spec.x.offset == parse(g.destX, g.destY).x.offset && spec.x.offsetSet == parse(g.destX, g.destY).x.offsetSet
    ensures spec.y.offset == parse(g.destX, g.destY).y.offset && spec.y.offsetSet == parse(g.destX, g.destY).y.offsetSet
  {
    var p := parse(g.destX, g.destY);
    p.(x := WithSize(p.x, ToDim(g.width)), y := WithSize(p.y, ToDim(g.height)))
  }

  /**
   * One trip round the loop: align the source window, then the destination
   * region starting from the options the first alignment left, then record
   * the `do_drop` call. A failed alignment ends `do_drop1` with no call. The
   * options keep their transform, perfect flag and component count.
   */
  function Step(src: Image, drop: Image, st: Options, g: Region, parse: OffsetParser, perfect: PerfectTest)
    : (r: Option<(DropCall, Options)>)
    requires Ready(src, st)
    ensures r.Some? ==>
              && Ready(src, r.value.1)
              && r.value.1.transform == st.transform
              && r.value.1.perfect == st.perfect
              && r.value.1.numComponents == st.numComponents
  {
    match Align(src, drop, st, SourceSpec(parse, g), perfect)
    case None => None
    case Some(first) =>
      match Align(src, drop, first, DestSpec(parse, g), perfect)
      case None => None
      case Some(second) =>
        Some((DropCall(second.xCropOffset, second.yCropOffset, second.dropWidth, second.dropHeight,
                       first.xCropOffset, first.yCropOffset),
              second))
  }

  /**
   * Both alignments run against the same target image, the second one
   * starting from the options the first left behind. The call carries the
   * second alignment's offsets and drop sizes and the first one's offsets;
   * the step succeeds exactly when both alignments do.
   */
  lemma StepAligns(src: Image, drop: Image, st: Options, g: Region, parse: OffsetParser, perfect: PerfectTest)
    requires Ready(src, st)
    ensures var first := Align(src, drop, st, SourceSpec(parse, g), perfect);
            && (first.None? ==> Step(src, drop, st, g, parse, perfect).None?)
            && (first.Some? ==>
                  var second := Align(src, drop, first.value, DestSpec(parse, g), perfect);
                  && (second.None? ==> Step(src, drop, st, g, parse, perfect).None?)
                  && (second.Some? ==>
                        Step(src, drop, st, g, parse, perfect) ==
                          Some((DropCall(second.value.xCropOffset, second.value.yCropOffset,
                                         second.value.dropWidth, second.value.dropHeight,
                                         first.value.xCropOffset, first.value.yCropOffset),
                                second.value))))
  {
  }

  /** The loop body as a total function of the options and the group; `None` ends the loop. */
  type Stepper = (Options, Region) -> Option<(DropCall, Options)>

  /**
   * The loop body of `do_drop1` for a fixed pair of images. `Ready` holds at
   * every group of a run that starts `Ready` (`Step` keeps the component
   * count), so the guard only makes the body total.
   */
  function Body(src: Image, drop: Image, parse: OffsetParser, perfect: PerfectTest): Stepper {
    (st: Options, g: Region) => if Ready(src, st) then Step(src, drop, st, g, parse, perfect) else None
  }

  /** Either every group ran, or the loop returned early after the calls listed. */
  datatype BatchResult =
    | Finished(calls: seq<DropCall>, state: Options)
    | Aborted(calls: seq<DropCall>)

  /** A call made before the rest of the batch ran. */
  function Prepend(c: DropCall, rest: BatchResult): BatchResult {
    match rest
    case Finished(cs, s) => Finished([c] + cs, s)
    case Aborted(cs) => Aborted([c] + cs)
  }

  /** The calls `cs` made before the run `rest`. */
  function Concat(cs: seq<DropCall>, rest: BatchResult): BatchResult {
    match rest
    case Finished(more, s) => Finished(cs + more, s)
    case Aborted(more) => Aborted(cs + more)
  }

  /**
   * The loop `while (number < a.size) { ...; number += 6; }` with loop body
   * `step`. A finished run made one call per group; an aborted run made
   * fewer.
   */
  function Fold(step: Stepper, st: Options, vals: seq<int>): (r: BatchResult)
    requires |vals| % 6 == 0
    ensures r.Finished? ==> |r.calls| * 6 == |vals|
    ensures r.Aborted? ==> |r.calls| * 6 < |vals|
    decreases |vals|
  {
    if |vals| == 0 then Finished([], st)
    else
      match step(st, RegionAt(vals, 0))
      case None => Aborted([])
      case Some((call, next)) => Prepend(call, Fold(step, next, vals[6..]))
  }

  /** The groups of one batch run against one pair of images. */
  function Run(src: Image, drop: Image, st: Options, vals: seq<int>, parse: OffsetParser, perfect: PerfectTest)
    : (r: BatchResult)
    requires Ready(src, st)
    requires |vals| % 6 == 0
    ensures r.Finished? ==> |r.calls| * 6 == |vals|
    ensures r.Aborted? ==> |r.calls| * 6 < |vals|
  {
    Fold(Body(src, drop, parse, perfect), st, vals)
  }

  /**
   * The part of `do_drop1` this model covers: the options record after
   * `jtransform_request_workspace` (`st`) with the transform forced to DROP
   * and the perfect flag set, then the loop.
   */
  function DoDrop1(src: Image, drop: Image, st: Options, vals: seq<int>, parse: OffsetParser, perfect: PerfectTest)
    : (r: BatchResult)
    requires Ready(src, st)
    requires |vals| % 6 == 0
    ensures r.Finished? ==> |r.calls| * 6 == |vals|
    ensures r.Aborted? ==> |r.calls| * 6 < |vals|
  {
    Run(src, drop, st.(transform := Drop, perfect := true), vals, parse, perfect)
  }

  /** Two batches of whole groups make a batch of whole groups. */
  lemma GroupsAppend(a: seq<int>, b: seq<int>)
    requires |a| % 6 == 0 && |b| % 6 == 0
    ensures |a + b| % 6 == 0
  {
    assert |a + b| == 6 * (|a| / 6 + |b| / 6);
  }

  /** Groups after the first failing one never run: appending groups to an aborted batch changes nothing. */
  lemma {:induction false} AbortIsFinal(step: Stepper, st: Options, vals: seq<int>, more: seq<int>)
    requires |vals| % 6 == 0 && |more| % 6 == 0
    requires Fold(step, st, vals).Aborted?
    ensures |vals + more| % 6 == 0 && Fold(step, st, vals + more) == Fold(step, st, vals)
    decreases |vals|
  {
    var all := vals + more;
    GroupsAppend(vals, more);
    assert RegionAt(all, 0) == RegionAt(vals, 0);
    match step(st, RegionAt(vals, 0))
    case None =>
    case Some((call, next)) =>
      assert all[6..] == vals[6..] + more;
      AbortIsFinal(step, next, vals[6..], more);
  }

  /** Running two batches back to back is running their concatenation: each group sees the options the previous one left. */
  lemma {:induction false} FoldAppend(step: Stepper, st: Options, vals: seq<int>, more: seq<int>)
    requires |vals| % 6 == 0 && |more| % 6 == 0
    requires Fold(step, st, vals).Finished?
    ensures |vals + more| % 6 == 0
    ensures Fold(step, st, vals + more) ==
              Concat(Fold(step, st, vals).calls, Fold(step, Fold(step, st, vals).state, more))
    decreases |vals|
  {
    var all := vals + more;
    GroupsAppend(vals, more);
    if |vals| == 0 {
      assert all == more;
      ConcatEmpty(Fold(step, st, more));
    } else {
      assert RegionAt(all, 0) == RegionAt(vals, 0);
      match step(st, RegionAt(vals, 0))
      case None =>
      case Some((call, next)) =>
        assert all[6..] == vals[6..] + more;
        FoldAppend(step, next, vals[6..], more);
        var rest := Fold(step, next, vals[6..]);
        PrependConcat(call, rest.calls, Fold(step, rest.state, more));
    }
  }

  /** No earlier calls leave a run as it is. */
  lemma ConcatEmpty(r: BatchResult)
    ensures Concat([], r) == r
  {
    assert [] + r.calls == r.calls;
  }

  /** A call made before a concatenated run is the first of the concatenated calls. */
  lemma PrependConcat(c: DropCall, cs: seq<DropCall>, r: BatchResult)
    ensures Prepend(c, Concat(cs, r)) == Concat([c] + cs, r)
  {
    assert [c] + (cs + r.calls) == ([c] + cs) + r.calls;
  }

  /**
   * The k-th `do_drop` call is the one the k-th group makes, starting from
   * the options the first k groups left behind; all of those groups ran.
   */
  lemma {:induction false} CallAt(step: Stepper, st: Options, vals: seq<int>, k: nat)
    requires |vals| % 6 == 0
    requires k < |Fold(step, st, vals).calls|
    ensures 6 * k + 6 <= |vals| && |vals[..6 * k]| % 6 == 0
    ensures var before := Fold(step, st, vals[..6 * k]);
            && before.Finished?
            && step(before.state, RegionAt(vals, 6 * k)).Some?
            && Fold(step, st, vals).calls[k] == step(before.state, RegionAt(vals, 6 * k)).value.0
    decreases |vals|
  {
    match step(st, RegionAt(vals, 0))
    case None =>
    case Some((call, next)) =>
      var rest := vals[6..];
      if k == 0 {
        assert vals[..0] == [];
      } else {
        CallAt(step, next, rest, k - 1);
        var pre := vals[..6 * k];
        assert RegionAt(pre, 0) == RegionAt(vals, 0);
        assert pre[6..] == rest[..6 * (k - 1)];
        assert RegionAt(rest, 6 * (k - 1)) == RegionAt(vals, 6 * k);
      }
  }

  /**
   * An aborted run made exactly the calls of the groups before the failing
   * one, and the failing group's loop body returned.
   */
  lemma {:induction false} AbortAt(step: Stepper, st: Options, vals: seq<int>)
    requires |vals| % 6 == 0
    requires Fold(step, st, vals).Aborted?
    ensures var n := |Fold(step, st, vals).calls|;
            && 6 * n + 6 <= |vals| && |vals[..6 * n]| % 6 == 0
            && var before := Fold(step, st, vals[..6 * n]);
            && before.Finished?
            && before.calls == Fold(step, st, vals).calls
            && step(before.state, RegionAt(vals, 6 * n)).None?
    decreases |vals|
  {
    match step(st, RegionAt(vals, 0))
    case None =>
      assert vals[..0] == [];
    case Some((call, next)) =>
      var rest := vals[6..];
      AbortAt(step, next, rest);
      var n := |Fold(step, next, rest).calls|;
      var pre := vals[..6 * (n + 1)];
      assert RegionAt(pre, 0) == RegionAt(vals, 0);
      assert pre[6..] == rest[..6 * n];
      assert RegionAt(rest, 6 * n) == RegionAt(vals, 6 * (n + 1));
  }

  /** A property of the options that every loop iteration keeps holds when the loop finishes. */
  lemma {:induction false} FoldKeeps(step: Stepper, inv: Options -> bool, st: Options, vals: seq<int>)
    requires |vals| % 6 == 0
    requires inv(st)
    requires forall s: Options, g: Region :: inv(s) && step(s, g).Some? ==> inv(step(s, g).value.1)
    requires Fold(step, st, vals).Finished?
    ensures inv(Fold(step, st, vals).state)
    decreases |vals|
  {
    if |vals| > 0 {
      match step(st, RegionAt(vals, 0))
      case None =>
      case Some((call, next)) =>
        FoldKeeps(step, inv, next, vals[6..]);
    }
  }

  /** On options the alignment can work with, the loop body is `Step`. */
  lemma BodyIsStep(src: Image, drop: Image, parse: OffsetParser, perfect: PerfectTest, st: Options, g: Region)
    requires Ready(src, st)
    ensures Body(src, drop, parse, perfect)(st, g) == Step(src, drop, st, g, parse, perfect)
  {
  }

  /** A run that starts `Ready` stays `Ready`, with the same transform, perfect flag and component count. */
  lemma RunKeepsReady(src: Image, drop: Image, st: Options, vals: seq<int>,
                      parse: OffsetParser, perfect: PerfectTest)
    requires Ready(src, st)
    requires |vals| % 6 == 0
    requires Run(src, drop, st, vals, parse, perfect).Finished?
    ensures var s := Run(src, drop, st, vals, parse, perfect).state;
            && Ready(src, s)
            && s.transform == st.transform && s.perfect == st.perfect && s.numComponents == st.numComponents
  {
    var body := Body(src, drop, parse, perfect);
    var inv := (s: Options) =>
      Ready(src, s) && s.transform == st.transform && s.perfect == st.perfect && s.numComponents == st.numComponents;
    forall s: Options, g: Region | inv(s) && body(s, g).Some?
      ensures inv(body(s, g).value.1)
    {
      BodyIsStep(src, drop, parse, perfect, s, g);
    }
    FoldKeeps(body, inv, st, vals);
  }

  /**
   * In a run that starts `Ready`, the k-th `do_drop` call is what `Step`
   * makes of the k-th group, starting from the options the first k groups
   * left behind.
   */
  lemma RunCallAt(src: Image, drop: Image, st: Options, vals: seq<int>, k: nat,
                  parse: OffsetParser, perfect: PerfectTest)
    requires Ready(src, st)
    requires |vals| % 6 == 0
    requires k < |Run(src, drop, st, vals, parse, perfect).calls|
    ensures 6 * k + 6 <= |vals| && |vals[..6 * k]| % 6 == 0
    ensures var before := Run(src, drop, st, vals[..6 * k], parse, perfect);
            && before.Finished?
            && Ready(src, before.state)
            && var step := Step(src, drop, before.state, RegionAt(vals, 6 * k), parse, perfect);
            && step.Some?
            && Run(src, drop, st, vals, parse, perfect).calls[k] == step.value.0
  {
    RunBodyAt(src, drop, st, vals, k, parse, perfect);
    var before := Run(src, drop, st, vals[..6 * k], parse, perfect);
    BodyIsStep(src, drop, parse, perfect, before.state, RegionAt(vals, 6 * k));
  }

  /** `CallAt` for a run: the k-th call is what the loop body makes of group k, from usable options. */
  lemma RunBodyAt(src: Image, drop: Image, st: Options, vals: seq<int>, k: nat,
                  parse: OffsetParser, perfect: PerfectTest)
    requires Ready(src, st)
    requires |vals| % 6 == 0
    requires k < |Run(src, drop, st, vals, parse, perfect).calls|
    ensures 6 * k + 6 <= |vals| && |vals[..6 * k]| % 6 == 0
    ensures var before := Run(src, drop, st, vals[..6 * k], parse, perfect);
            && before.Finished?
            && Ready(src, before.state)
            && var b := Body(src, drop, parse, perfect)(before.state, RegionAt(vals, 6 * k));
            && b.Some?
            && Run(src, drop, st, vals, parse, perfect).calls[k] == b.value.0
  {
    var body := Body(src, drop, parse, perfect);
    CallAt(body, st, vals, k);
    assert Fold(body, st, vals[..6 * k]) == Run(src, drop, st, vals[..6 * k], parse, perfect);
    RunKeepsReady(src, drop, st, vals[..6 * k], parse, perfect);
  }

  /**
   * In a run that starts `Ready`, an abort happens at the first group whose
   * alignments do not both succeed, after the calls of all earlier groups.
   */
  lemma RunAbortAt(src: Image, drop: Image, st: Options, vals: seq<int>,
                   parse: OffsetParser, perfect: PerfectTest)
    requires Ready(src, st)
    requires |vals| % 6 == 0
    requires Run(src, drop, st, vals, parse, perfect).Aborted?
    ensures var n := |Run(src, drop, st, vals, parse, perfect).calls|;
            && 6 * n + 6 <= |vals| && |vals[..6 * n]| % 6 == 0
            && var before := Run(src, drop, st, vals[..6 * n], parse, perfect);
            && before.Finished?
            && before.calls == Run(src, drop, st, vals, parse, perfect).calls
            && Ready(src, before.state)
            && Step(src, drop, before.state, RegionAt(vals, 6 * n), parse, perfect).None?
  {
    var body := Body(src, drop, parse, perfect);
    AbortAt(body, st, vals);
    var n := |Run(src, drop, st, vals, parse, perfect).calls|;
    var before := Fold(body, st, vals[..6 * n]);
    assert before == Run(src, drop, st, vals[..6 * n], parse, perfect);
    RunKeepsReady(src, drop, st, vals[..6 * n], parse, perfect);
    BodyIsStep(src, drop, parse, perfect, before.state, RegionAt(vals, 6 * n));
  }

  /**
   * What a drop call means in pixels. With both offsets parsed as a crop,
   * the destination's iMCU offset is the first iMCU boundary at or after the
   * resolved destination offset and its drop size is `DropSnap`'s; the
   * source window is placed on the first boundary at or after its own
   * offset; and the region's size reaches the aligner unchanged when it is a
   * non-negative 32-bit value.
   */
  lemma StepDropPlacement(src: Image, drop: Image, st: Options, g: Region, parse: OffsetParser, perfect: PerfectTest)
    requires Ready(src, st) && st.transform == Drop
    requires parse(g.srcX, g.srcY).crop && parse(g.destX, g.destY).crop
    ensures Step(src, drop, st, g, parse, perfect).Some? ==>
            var f := ImcuFrame(src, Drop, st.numComponents);
            var call := Step(src, drop, st, g, parse, perfect).value.0;
            var sx := ResolveAxis(SourceSpec(parse, g).x, f.outputWidth, Drop);
            var sy := ResolveAxis(SourceSpec(parse, g).y, f.outputHeight, Drop);
            var dx := ResolveAxis(DestSpec(parse, g).x, f.outputWidth, Drop);
            var dy := ResolveAxis(DestSpec(parse, g).y, f.outputHeight, Drop);
            && sx.Some? && sy.Some? && dx.Some? && dy.Some?
            && sx.value.size == SourceWindow && sy.value.size == SourceWindow
            && (0 <= g.width < DimModulus ==> dx.value.size == g.width)
            && (0 <= g.height < DimModulus ==> dy.value.size == g.height)
            && sx.value.offset <= call.srcXOffset * f.unitW < sx.value.offset + f.unitW
            && sy.value.offset <= call.srcYOffset * f.unitH < sy.value.offset + f.unitH
            && dx.value.offset <= call.xOffset * f.unitW < dx.value.offset + f.unitW
            && dy.value.offset <= call.yOffset * f.unitH < dy.value.offset + f.unitH
            && call.dropWidth == DropSnap(dx.value, f.outputWidth, f.unitW).size
            && call.dropHeight == DropSnap(dy.value, f.outputHeight, f.unitH).size
  {
    StepAligns(src, drop, st, g, parse, perfect);
    if Step(src, drop, st, g, parse, perfect).Some? {
      var first := Align(src, drop, st, SourceSpec(parse, g), perfect).value;
      var second := Align(src, drop, first, DestSpec(parse, g), perfect).value;
      assert first.numComponents == st.numComponents && first.transform == Drop;
    }
  }

  /**
   * What a `do_drop` call made for group `g` means in pixels, with `n`
   * components: the destination starts at the first iMCU boundary at or
   * after its resolved offset and drops `DropSnap`'s number of iMCUs; the
   * source window starts at the first boundary at or after its own offset.
   */
  predicate PlacedInPixels(src: Image, n: nat, g: Region, parse: OffsetParser, call: DropCall) {
    && Valid(src)
    && var f := ImcuFrame(src, Drop, n);
       var sx := ResolveAxis(SourceSpec(parse, g).x, f.outputWidth, Drop);
       var sy := ResolveAxis(SourceSpec(parse, g).y, f.outputHeight, Drop);
       var dx := ResolveAxis(DestSpec(parse, g).x, f.outputWidth, Drop);
       var dy := ResolveAxis(DestSpec(parse, g).y, f.outputHeight, Drop);
       && sx.Some? && sy.Some? && dx.Some? && dy.Some?
       && sx.value.offset <= call.srcXOffset * f.unitW < sx.value.offset + f.unitW
       && sy.value.offset <= call.srcYOffset * f.unitH < sy.value.offset + f.unitH
       && dx.value.offset <= call.xOffset * f.unitW < dx.value.offset + f.unitW
       && dy.value.offset <= call.yOffset * f.unitH < dy.value.offset + f.unitH
       && call.dropWidth == DropSnap(dx.value, f.outputWidth, f.unitW).size
       && call.dropHeight == DropSnap(dy.value, f.outputHeight, f.unitH).size
  }

  /** Both offsets of a group parse as a crop. */
  predicate CropsBoth(g: Region, parse: OffsetParser) {
    parse(g.srcX, g.srcY).crop && parse(g.destX, g.destY).crop
  }

  /**
   * A property every loop iteration gives its call holds of every call made:
   * if the body keeps `inv` and relates each group to its call by `prop`, so
   * does the whole loop.
   */
  lemma {:induction false} FoldCallsHold(step: Stepper, inv: Options -> bool, prop: (Region, DropCall) -> bool,
                                         st: Options, vals: seq<int>, k: nat)
    requires |vals| % 6 == 0
    requires inv(st)
    requires forall s: Options, g: Region :: inv(s) && step(s, g).Some? ==>
               inv(step(s, g).value.1) && prop(g, step(s, g).value.0)
    requires k < |Fold(step, st, vals).calls|
    ensures 6 * k + 6 <= |vals| && |vals[..6 * k]| % 6 == 0
    ensures prop(RegionAt(vals, 6 * k), Fold(step, st, vals).calls[k])
    decreases |vals|
  {
    match step(st, RegionAt(vals, 0))
    case None =>
    case Some((call, next)) =>
      if k > 0 {
        FoldCallsHold(step, inv, prop, next, vals[6..], k - 1);
        assert RegionAt(vals[6..], 6 * (k - 1)) == RegionAt(vals, 6 * k);
      }
  }

  /** The options the loop of `do_drop1` runs with: usable, set to DROP, with `n` components. */
  predicate DropState(src: Image, n: nat, s: Options) {
    Ready(src, s) && s.transform == Drop && s.numComponents == n
  }

  /** One iteration of `do_drop1`'s loop keeps `DropState` and makes a call that means what `PlacedInPixels` says. */
  lemma BodyPlaces(src: Image, drop: Image, parse: OffsetParser, perfect: PerfectTest, n: nat, s: Options, g: Region)
    requires DropState(src, n, s)
    requires Body(src, drop, parse, perfect)(s, g).Some?
    ensures DropState(src, n, Body(src, drop, parse, perfect)(s, g).value.1)
    ensures CropsBoth(g, parse) ==> PlacedInPixels(src, n, g, parse, Body(src, drop, parse, perfect)(s, g).value.0)
  {
    BodyIsStep(src, drop, parse, perfect, s, g);
    if CropsBoth(g, parse) {
      StepDropPlacement(src, drop, s, g, parse, perfect);
    }
  }

  /** What the k-th `do_drop` call of `do_drop1` means in pixels, for a group whose offsets both parse as a crop. */
  lemma DoDrop1CallAt(src: Image, drop: Image, st: Options, vals: seq<int>, k: nat,
                      parse: OffsetParser, perfect: PerfectTest)
    requires Ready(src, st)
    requires |vals| % 6 == 0
    requires k < |DoDrop1(src, drop, st, vals, parse, perfect).calls|
    ensures 6 * k + 6 <= |vals| && |vals[..6 * k]| % 6 == 0
    ensures CropsBoth(RegionAt(vals, 6 * k), parse) ==>
              PlacedInPixels(src, st.numComponents, RegionAt(vals, 6 * k), parse,
                             DoDrop1(src, drop, st, vals, parse, perfect).calls[k])
  {
    var n := st.numComponents;
    var body := Body(src, drop, parse, perfect);
    var inv := (s: Options) => DropState(src, n, s);
    var prop := (g: Region, c: DropCall) => CropsBoth(g, parse) ==> PlacedInPixels(src, n, g, parse, c);
    forall s: Options, g: Region | inv(s) && body(s, g).Some?
      ensures inv(body(s, g).value.1) && prop(g, body(s, g).value.0)
    {
      BodyPlaces(src, drop, parse, perfect, n, s, g);
    }
    var start := st.(transform := Drop, perfect := true);
    assert DoDrop1(src, drop, st, vals, parse, perfect) == Fold(body, start, vals);
    FoldCallsHold(body, inv, prop, start, vals, k);
  }

  /**
   * A negative width or height (as `atoi` may produce) turns into a huge
   * unsigned size, which is crop extension, so a drop region that has one
   * ends the batch when the destination offsets parse as a crop, provided
   * the image is narrower than 2^31 pixels. Without a crop the destination
   * alignment never looks at the size.
   */
  lemma NegativeSizeAborts(src: Image, drop: Image, st: Options, g: Region, parse: OffsetParser, perfect: PerfectTest)
    requires Ready(src, st) && st.transform == Drop
    requires parse(g.destX, g.destY).crop
    requires src.outputWidth < 0x8000_0000 && src.outputHeight < 0x8000_0000
    requires -0x8000_0000 <= g.width < 0 || -0x8000_0000 <= g.height < 0
    ensures Step(src, drop, st, g, parse, perfect).None?
  {
    StepAligns(src, drop, st, g, parse, perfect);
    var first := Align(src, drop, st, SourceSpec(parse, g), perfect);
    if first.Some? {
      var st1 := first.value;
      assert st1.transform == Drop && st1.numComponents == st.numComponents;
      var f := ImcuFrame(src, Drop, st.numComponents);
      assert f.outputWidth == src.outputWidth && f.outputHeight == src.outputHeight;
      var spec := DestSpec(parse, g);
      assert spec.crop;
      if -0x8000_0000 <= g.width < 0 {
        assert spec.x.size == g.width + DimModulus;
        assert !Admissible(spec.x, f.outputWidth, Drop);
      } else {
        assert spec.y.size == g.height + DimModulus;
        assert !Admissible(spec.y, f.outputHeight, Drop);
      }
      assert Align(src, drop, st1, spec, perfect).None?;
    }
  }

}
