/**
 * The alignment block of `do_drop1` (jpegtran.c), which appears twice in the
 * source, once per region side. It reads and updates the process-wide
 * `transformoption` record; here that record is `Options`, passed in and
 * returned, so that what one call leaves behind is visible to the next.
 */
module Aligner {
  import opened Wrappers
  import opened Transform
  import opened Geometry
  import opened Axis
  import opened Sampling

  /** The result of `jtransform_parse_crop_spec`: whether a crop was given, and its two axes. */
  datatype CropSpec = CropSpec(crop: bool, x: AxisRequest, y: AxisRequest)

  /** The fields of `transformoption` the alignment reads or writes. */
  datatype Options = Options(
    transform: XForm,
    perfect: bool,
    numComponents: nat,
    outputWidth: nat,
    outputHeight: nat,
    unitW: nat,          // iMCU_sample_width
    unitH: nat,          // iMCU_sample_height
    xCropOffset: nat,    // in iMCUs
    yCropOffset: nat,
    dropWidth: nat,      // in iMCUs
    dropHeight: nat)

  /** `jtransform_perfect_transform(width, height, mcuWidth, mcuHeight, transform)`, defined outside this file. */
  type PerfectTest = (nat, nat, nat, nat, XForm) -> bool

  /**
   * The `-perfect` gate. With a single component the code passes the
   * width left in the options record by the previous alignment rather than
   * the image's own width.
   */
  predicate PerfectOk(src: Image, st: Options, perfect: PerfectTest) {
    !st.perfect ||
    if st.numComponents == 1 then
      perfect(st.outputWidth, src.outputHeight, src.minDctH, src.minDctV, st.transform)
    else
      perfect(src.outputWidth, src.outputHeight,
              src.maxHSamp * src.minDctH, src.maxVSamp * src.minDctV, st.transform)
  }

  /** What the alignment may assume of its inputs: a valid header and a component count it can index. */
  predicate Ready(src: Image, st: Options) {
    Valid(src) && st.numComponents <= |src.comps|
  }

  /** Both axes of a drop keep at least one iMCU, which is when the sampling check runs. */
  predicate DropsSomething(src: Image, st: Options, spec: CropSpec)
    requires Valid(src)
  {
    var f := ImcuFrame(src, st.transform, st.numComponents);
    var px := PlaceAxis(spec.x, f.outputWidth, f.unitW, st.transform);
    var py := PlaceAxis(spec.y, f.outputHeight, f.unitH, st.transform);
    && px.Some? && px.value.Dropped? && px.value.dropSize != 0
    && py.Some? && py.value.Dropped? && py.value.dropSize != 0
  }

  /**
   * One alignment. `None` is an early `return` from `do_drop1`. It succeeds
   * exactly when the perfect test passes and, if a crop was requested, both
   * axes are admissible and a non-empty drop has matching sampling ratios.
   * Transform, perfect flag and component count are never changed; the
   * frame is the transform's; without a crop both offsets are zero and the
   * drop size is left as it was; with a crop each axis is placed by
   * `PlaceAxis`, drop sizes being written only for a drop and output sizes
   * being widened only for other transforms.
   */
  function Align(src: Image, drop: Image, st: Options, spec: CropSpec, perfect: PerfectTest): (r: Option<Options>)
    requires Ready(src, st)
    ensures r.Some? <==>
              && PerfectOk(src, st, perfect)
              && (spec.crop ==>
                    var f := ImcuFrame(src, st.transform, st.numComponents);
                    && Admissible(spec.x, f.outputWidth, st.transform)
                    && Admissible(spec.y, f.outputHeight, st.transform)
                    && (DropsSomething(src, st, spec) ==> SamplingCompatible(src, drop, st.numComponents)))
    ensures r.Some? ==>
              && r.value.transform == st.transform
              && r.value.perfect == st.perfect
              && r.value.numComponents == st.numComponents
              && r.value.unitW == ImcuFrame(src, st.transform, st.numComponents).unitW
              && r.value.unitH == ImcuFrame(src, st.transform, st.numComponents).unitH
    ensures r.Some? && !spec.crop ==>
              && r.value.xCropOffset == 0 && r.value.yCropOffset == 0
              && r.value.dropWidth == st.dropWidth && r.value.dropHeight == st.dropHeight
              && r.value.outputWidth == ImcuFrame(src, st.transform, st.numComponents).outputWidth
              && r.value.outputHeight == ImcuFrame(src, st.transform, st.numComponents).outputHeight
    ensures r.Some? && spec.crop ==>
              var f := ImcuFrame(src, st.transform, st.numComponents);
              var px := PlaceAxis(spec.x, f.outputWidth, f.unitW, st.transform).value;
              var py := PlaceAxis(spec.y, f.outputHeight, f.unitH, st.transform).value;
              && r.value.xCropOffset == px.imcuOffset
              && r.value.yCropOffset == py.imcuOffset
              && (st.transform == Drop ==>
                    && r.value.dropWidth == px.dropSize && r.value.dropHeight == py.dropSize
                    && r.value.outputWidth == f.outputWidth && r.value.outputHeight == f.outputHeight)
              && (st.transform != Drop ==>
                    && r.value.dropWidth == st.dropWidth && r.value.dropHeight == st.dropHeight
                    && r.value.outputWidth == px.outDim && r.value.outputHeight == py.outDim)
  {
    if !PerfectOk(src, st, perfect) then None
    else
      var f := ImcuFrame(src, st.transform, st.numComponents);
      var framed := st.(outputWidth := f.outputWidth, outputHeight := f.outputHeight,
                        unitW := f.unitW, unitH := f.unitH);
      if !spec.crop then
        Some(framed.(xCropOffset := 0, yCropOffset := 0))
      else
        var px := PlaceAxis(spec.x, f.outputWidth, f.unitW, st.transform);
        var py := PlaceAxis(spec.y, f.outputHeight, f.unitH, st.transform);
        if px.None? || py.None? then None
        else if st.transform == Drop then
          var w, h := px.value.dropSize, py.value.dropSize;
          if w != 0 && h != 0 && !SamplingCompatible(src, drop, st.numComponents) then None
          else Some(framed.(xCropOffset := px.value.imcuOffset, yCropOffset := py.value.imcuOffset,
                            dropWidth := w, dropHeight := h))
        else
          Some(framed.(xCropOffset := px.value.imcuOffset, yCropOffset := py.value.imcuOffset,
                       outputWidth := px.value.outDim, outputHeight := py.value.outDim))
  }

  /**
   * The `-perfect` gate reads the previous `output_width` only with a single
   * component: with several, the width the options record holds has no
   * effect on the alignment, while with one, an alignment without a crop
   * succeeds exactly when the external test accepts that previous width.
   * Without the flag the gate always passes.
   */
  lemma PerfectGate(src: Image, drop: Image, st: Options, width: nat, spec: CropSpec, perfect: PerfectTest)
    requires Ready(src, st)
    ensures !st.perfect ==> PerfectOk(src, st, perfect)
    ensures st.numComponents != 1 ==>
              Align(src, drop, st, spec, perfect) == Align(src, drop, st.(outputWidth := width), spec, perfect)
    ensures st.perfect && st.numComponents == 1 && !spec.crop ==>
              (Align(src, drop, st, spec, perfect).Some? <==>
                 perfect(st.outputWidth, src.outputHeight, src.minDctH, src.minDctV, st.transform))
  {
    var other := st.(outputWidth := width);
    var f := ImcuFrame(src, st.transform, st.numComponents);
    assert other.(outputWidth := f.outputWidth, outputHeight := f.outputHeight, unitW := f.unitW, unitH := f.unitH)
        == st.(outputWidth := f.outputWidth, outputHeight := f.outputHeight, unitW := f.unitW, unitH := f.unitH);
  }
}
