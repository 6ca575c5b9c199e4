/**
 * The sampling-factor check that guards a drop (the `for (ci = 0; ...)` loop
 * in `do_drop1`, jpegtran.c): the dropped image's components must be sampled
 * in the same proportions, relative to each image's maximum factors, as the
 * target image's.
 */
module Sampling {
  import opened Geometry

  /**
   * Component `ci` has the same horizontal and vertical sampling ratio in
   * both images: `drop.h / drop.maxH == src.h / src.maxH`, cross-multiplied.
   */
  predicate ComponentMatches(src: Image, drop: Image, ci: nat)
    requires ci < |src.comps| && ci < |drop.comps|
  {
    && drop.comps[ci].hSamp * src.maxHSamp == src.comps[ci].hSamp * drop.maxHSamp
    && drop.comps[ci].vSamp * src.maxVSamp == src.comps[ci].vSamp * drop.maxVSamp
  }

  /**
   * The loop from component `ci` on, over the components both images have
   * (at most `n` of the target's): it gives up at the first mismatch.
   */
  function CheckFrom(src: Image, drop: Image, n: nat, ci: nat): (ok: bool)
    requires n <= |src.comps|
    ensures ok <==> forall k :: ci <= k < n && k < |drop.comps| ==> ComponentMatches(src, drop, k)
    decreases n - ci
  {
    if ci >= n || ci >= |drop.comps| then true
    else if drop.comps[ci].hSamp * src.maxHSamp != src.comps[ci].hSamp * drop.maxHSamp then
      assert !ComponentMatches(src, drop, ci);
      false
    else if drop.comps[ci].vSamp * src.maxVSamp != src.comps[ci].vSamp * drop.maxVSamp then
      assert !ComponentMatches(src, drop, ci);
      false
    else CheckFrom(src, drop, n, ci + 1)
  }

  /** The whole check over the first `n` components. */
  function SamplingCompatible(src: Image, drop: Image, n: nat): (ok: bool)
    requires n <= |src.comps|
    ensures ok <==> forall k :: 0 <= k < n && k < |drop.comps| ==> ComponentMatches(src, drop, k)
  {
    CheckFrom(src, drop, n, 0)
  }

  /**
   * The check does not depend on which image is the target: with both
   * images holding the components it inspects, swapping them gives the same
   * verdict. An image always matches itself.
   */
  lemma CompatibleSymmetric(a: Image, b: Image, n: nat)
    requires n <= |a.comps| && n <= |b.comps|
    ensures SamplingCompatible(a, b, n) == SamplingCompatible(b, a, n)
    ensures SamplingCompatible(a, a, n)
  {
    forall k | 0 <= k < n
      ensures ComponentMatches(a, b, k) <==> ComponentMatches(b, a, k)
    {
    }
  }
}
