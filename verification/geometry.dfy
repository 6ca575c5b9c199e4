/**
 * The parts of a decompressed image's header that the alignment code reads
 * (`srcinfo` / `dropinfo` in jpegtran.c), and the iMCU frame the code derives
 * from them for a given transform.
 */
module Geometry {
  import opened Transform

  /** Sampling factors of one colour component (`comp_info[ci]`). */
  datatype Component = Component(hSamp: nat, vSamp: nat)

  datatype Image = Image(
    outputWidth: nat,
    outputHeight: nat,
    minDctH: nat,      // min_DCT_h_scaled_size
    minDctV: nat,      // min_DCT_v_scaled_size
    maxHSamp: nat,     // max_h_samp_factor
    maxVSamp: nat,     // max_v_samp_factor
    comps: seq<Component>)

  /** What libjpeg guarantees of any header it has read: non-empty image, positive block sizes and factors. */
  predicate Valid(img: Image) {
    && img.outputWidth >= 1 && img.outputHeight >= 1
    && img.minDctH >= 1 && img.minDctV >= 1
    && img.maxHSamp >= 1 && img.maxVSamp >= 1
  }

  /** Output size in pixels and iMCU size in samples, in the transformed image's orientation. */
  datatype Frame = Frame(outputWidth: nat, outputHeight: nat, unitW: nat, unitH: nat)

  /** The frame with its two axes exchanged. */
  function Swap(f: Frame): Frame {
    Frame(f.outputHeight, f.outputWidth, f.unitH, f.unitW)
  }

  /** iMCU width before any axis exchange: one DCT block for a single component, else a whole MCU. */
  function UnitH(img: Image, numComponents: nat): nat {
    if numComponents == 1 then img.minDctH else img.maxHSamp * img.minDctH
  }

  /** iMCU height before any axis exchange. */
  function UnitV(img: Image, numComponents: nat): nat {
    if numComponents == 1 then img.minDctV else img.maxVSamp * img.minDctV
  }

  /**
   * The `switch (transformoption.transform)` that sets `output_width`,
   * `output_height` and `iMCU_sample_width/height`.
   */
  function ImcuFrame(img: Image, t: XForm, numComponents: nat): (f: Frame)
    requires Valid(img)
    ensures f.unitW >= 1 && f.unitH >= 1
    ensures f.outputWidth >= 1 && f.outputHeight >= 1
  {
    if SwapsAxes(t) then
      Frame(img.outputHeight, img.outputWidth, UnitV(img, numComponents), UnitH(img, numComponents))
    else
      Frame(img.outputWidth, img.outputHeight, UnitH(img, numComponents), UnitV(img, numComponents))
  }

  /**
   * Transposing transforms see the untransformed frame with width and
   * height exchanged, for the image size and the iMCU size alike; every
   * other transform sees the image as stored. The iMCU is one DCT block for
   * a single output component and a whole MCU otherwise.
   */
  lemma FrameOrientation(img: Image, t: XForm, numComponents: nat)
    requires Valid(img)
    ensures SwapsAxes(t) ==> ImcuFrame(img, t, numComponents) == Swap(ImcuFrame(img, Identity, numComponents))
    ensures !SwapsAxes(t) ==> ImcuFrame(img, t, numComponents) == ImcuFrame(img, Identity, numComponents)
    ensures ImcuFrame(img, Identity, numComponents).outputWidth == img.outputWidth
    ensures ImcuFrame(img, Identity, numComponents).outputHeight == img.outputHeight
    ensures numComponents == 1 ==>
              ImcuFrame(img, Identity, numComponents).unitW == img.minDctH &&
              ImcuFrame(img, Identity, numComponents).unitH == img.minDctV
    ensures numComponents != 1 ==>
              ImcuFrame(img, Identity, numComponents).unitW == img.maxHSamp * img.minDctH &&
              ImcuFrame(img, Identity, numComponents).unitH == img.maxVSamp * img.minDctV
  {
  }
}
