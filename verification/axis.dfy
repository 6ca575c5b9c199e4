/**
 * One axis of the crop/drop alignment performed inline in `do_drop1`
 * (jpegtran.c). The code treats the horizontal and the vertical axis with
 * the same statements, so they are modelled once: defaults and bounds,
 * conversion of offsets measured from the far edge, and the snap to the iMCU
 * grid (drop) or the widening of the output so that it covers the request
 * (every other transform).
 */
module Axis {
  import opened Wrappers
  import opened Transform

  /** JCROP_UNSET, JCROP_POS, JCROP_NEG, JCROP_FORCE. */
  datatype CropFlag = Unset | Pos | Neg | Force

  /** `crop_xoffset`, `crop_width` and their flags (or the `y`/`height` ones). */
  datatype AxisRequest = AxisRequest(offset: nat, offsetSet: CropFlag, size: nat, sizeSet: CropFlag)

  /** A resolved crop along one axis, in pixels, measured from the near edge. */
  datatype Span = Span(offset: nat, size: nat)

  /** The requested offset, with an unset offset standing for `+0`. */
  function StartOffset(ax: AxisRequest): nat {
    if ax.offsetSet == Unset then 0 else ax.offset
  }

  /** The crop `[offset, offset + size)` is non-empty and lies within `[0, dim)`. */
  predicate Within(offset: nat, size: nat, dim: nat) {
    0 < size && offset + size <= dim
  }

  /** Crop extension: the image side `[offset, offset + dim)` lies within a larger canvas `[0, size)`. */
  predicate Encloses(offset: nat, size: nat, dim: nat) {
    dim < size && offset + dim <= size
  }

  /**
   * When the alignment accepts a request: with the size unset, the offset
   * must fall inside the image; a size beyond the image is crop extension,
   * allowed only without a transform and only if the image fits in the
   * enlarged canvas; any other size must give a non-empty crop inside the
   * image.
   */
  predicate Admissible(ax: AxisRequest, dim: nat, t: XForm) {
    var off := StartOffset(ax);
    if ax.sizeSet == Unset then off < dim
    else if ax.size > dim then t == Identity && Encloses(off, ax.size, dim)
    else Within(off, ax.size, dim)
  }

  /** The conversion of an offset flagged NEG (measured from the far edge) into an ordinary one. */
  function FromNearEdge(offsetSet: CropFlag, off: nat, size: nat, dim: nat): (r: nat)
    requires size > dim ==> off + dim <= size
    requires size <= dim ==> off + size <= dim
    ensures offsetSet != Neg ==> r == off
    ensures offsetSet == Neg && size <= dim ==> r + size <= dim && dim - (r + size) == off
    ensures offsetSet == Neg && size > dim ==> r + dim <= size && size - (r + dim) == off
  {
    if offsetSet != Neg then off
    else if size > dim then size - dim - off    // crop extension
    else dim - size - off
  }

  /**
   * Defaults, bounds checks and NEG conversion for one axis. `None` is one of
   * the early returns. On success the crop lies inside the image (or, under
   * crop extension, which only `Identity` permits, the image lies inside the
   * crop), and a NEG offset keeps its distance from the far edge.
   */
  function ResolveAxis(ax: AxisRequest, dim: nat, t: XForm): (r: Option<Span>)
    requires dim >= 1
    ensures r.Some? <==> Admissible(ax, dim, t)
    ensures r.Some? ==> r.value.size == (if ax.sizeSet == Unset then dim - StartOffset(ax) else ax.size)
    ensures r.Some? ==>
              Within(r.value.offset, r.value.size, dim) ||
              (t == Identity && Encloses(r.value.offset, r.value.size, dim))
    ensures r.Some? && ax.offsetSet != Neg ==> r.value.offset == StartOffset(ax)
    ensures r.Some? && ax.offsetSet == Neg && r.value.size <= dim ==>
              r.value.offset + r.value.size + ax.offset == dim
    ensures r.Some? && ax.offsetSet == Neg && r.value.size > dim ==>
              r.value.offset + ax.offset + dim == r.value.size
  {
    var off := StartOffset(ax);
    if ax.sizeSet == Unset then
      if off >= dim then None
      else Some(Span(FromNearEdge(ax.offsetSet, off, dim - off, dim), dim - off))
    else if ax.size > dim then
      if t != Identity || off >= ax.size || off > ax.size - dim then None
      else Some(Span(FromNearEdge(ax.offsetSet, off, ax.size, dim), ax.size))
    else
      if off >= dim || ax.size <= 0 || off > dim - ax.size then None
      else Some(Span(FromNearEdge(ax.offsetSet, off, ax.size, dim), ax.size))
  }

  /** Euclidean division by a positive unit brackets its numerator. */
  lemma FloorBounds(n: nat, unit: nat)
    requires unit >= 1
    ensures (n / unit) * unit <= n < (n / unit) * unit + unit
  {
    assert n == (n / unit) * unit + n % unit;
  }

  /** Rounding a positive numerator up to whole units. */
  lemma CeilBounds(n: nat, unit: nat)
    requires unit >= 1 && n >= 1
    ensures (n + unit - 1) / unit >= 1
    ensures ((n + unit - 1) / unit - 1) * unit < n <= ((n + unit - 1) / unit) * unit
  {
    var c := (n + unit - 1) / unit;
    FloorBounds(n + unit - 1, unit);
    assert c * unit <= n + unit - 1 < c * unit + unit;
    assert (c - 1) * unit == c * unit - unit;
  }

  /** A multiple of the unit divides exactly. */
  lemma ExactDivision(m: nat, unit: nat)
    requires unit >= 1 && m % unit == 0
    ensures (m / unit) * unit == m
  {
    assert m == (m / unit) * unit + m % unit;
  }

  /**
   * `dtemp`: how far `offset` is from the next iMCU boundary at or after it.
   * Being below one unit and landing on a boundary, it picks the smallest
   * boundary that is not before `offset`.
   */
  function Lead(offset: nat, unit: nat): (d: nat)
    requires unit >= 1
    ensures d < unit
    ensures (offset + d) % unit == 0
  {
    var k := offset + unit - 1;
    LeadLandsOnBoundary(offset, unit);
    unit - 1 - (k % unit)
  }

  /** Multiplying by a unit keeps the order of the factors. */
  lemma MulMono(x: nat, y: nat, unit: nat)
    ensures x <= y ==> x * unit + (y - x) * unit == y * unit
    ensures x <= y ==> x * unit <= y * unit
  {
  }

  /** A whole number of units leaves no remainder. */
  lemma ModOfMultiple(q: nat, unit: nat)
    requires unit >= 1
    ensures (q * unit) % unit == 0
  {
    var m := q * unit;
    var a, b := m / unit, m % unit;
    assert m == a * unit + b;
    MulMono(a + 1, q, unit);
    MulMono(q + 1, a, unit);
    assert (a + 1) * unit == a * unit + unit;
    assert (q + 1) * unit == q * unit + unit;
  }

  /** Moving `offset` forward by the lead lands on a multiple of the unit. */
  lemma LeadLandsOnBoundary(offset: nat, unit: nat)
    requires unit >= 1
    ensures (offset + (unit - 1 - (offset + unit - 1) % unit)) % unit == 0
  {
    var k := offset + unit - 1;
    var q := k / unit;
    assert k == q * unit + k % unit;
    assert offset + (unit - 1 - k % unit) == q * unit;
    ModOfMultiple(q, unit);
  }

  /** The number of whole units that cover `n`: the last one is needed, none is spare. */
  function CeilUnits(n: nat, unit: nat): (c: nat)
    requires unit >= 1 && n >= 1
    ensures c >= 1 && (c - 1) * unit < n <= c * unit
  {
    CeilBounds(n, unit);
    (n + unit - 1) / unit
  }

  /** The number of whole units that fit in `n`, leaving less than one unit over. */
  function FloorUnits(n: nat, unit: nat): (q: nat)
    requires unit >= 1
    ensures q * unit <= n < q * unit + unit
  {
    FloorBounds(n, unit);
    n / unit
  }

  /** A drop snapped to the grid: a pixel offset on an iMCU boundary and a size in whole iMCUs. */
  datatype Snap = Snap(offset: nat, size: nat)

  /**
   * The JXFORM_DROP case. The offset moves forward to the next iMCU
   * boundary. The size in iMCUs is zero when the request ends before that
   * boundary; it is rounded up when the request ends exactly at the image's
   * far edge (so the partial iMCU there is included); otherwise it is
   * rounded down, so the drop never leaves the requested region.
   */
  function DropSnap(s: Span, dim: nat, unit: nat): (r: Snap)
    requires unit >= 1
    ensures r.offset % unit == 0 && s.offset <= r.offset < s.offset + unit
    ensures s.offset + s.size <= r.offset ==> r.size == 0
    ensures s.offset + s.size > r.offset && s.offset + s.size == dim ==>
              r.size >= 1 && r.offset + (r.size - 1) * unit < dim <= r.offset + r.size * unit
    ensures s.offset + s.size > r.offset && s.offset + s.size != dim ==>
              r.offset + r.size * unit <= s.offset + s.size < r.offset + r.size * unit + unit
  {
    var d := Lead(s.offset, unit);
    var start := s.offset + d;
    if s.size <= d then Snap(start, 0)
    else if start + s.size - d == dim then
      Snap(start, CeilUnits(s.size - d, unit))
    else
      Snap(start, FloorUnits(s.size - d, unit))
  }

  /**
   * The non-drop case: the output dimension that, counted from the iMCU
   * boundary at or before the offset, reaches the requested far edge. A
   * forced size or crop extension keeps the requested size.
   */
  function CoverDim(s: Span, sizeSet: CropFlag, dim: nat, unit: nat): (w: nat)
    requires unit >= 1
    ensures s.size <= w < s.size + unit
    ensures sizeSet == Force || s.size > dim ==> w == s.size
    ensures !(sizeSet == Force || s.size > dim) ==> (s.offset / unit) * unit + w == s.offset + s.size
  {
    assert s.offset == (s.offset / unit) * unit + s.offset % unit;
    if sizeSet == Force || s.size > dim then s.size
    else s.size + s.offset % unit
  }

  /** Two iMCU boundaries less than one unit apart coincide. */
  lemma SameBoundary(m: nat, n: nat, unit: nat)
    requires unit >= 1 && m % unit == 0 && n % unit == 0 && m <= n < m + unit
    ensures m == n
  {
    ExactDivision(m, unit);
    ExactDivision(n, unit);
    SameCount(m / unit, n / unit, unit);
  }

  /**
   * `dtemp` picks the nearest boundary: no iMCU boundary at or after
   * `offset` comes before `offset + dtemp`.
   */
  lemma LeadIsNextBoundary(offset: nat, unit: nat, m: nat)
    requires unit >= 1 && m % unit == 0 && offset <= m
    ensures offset + Lead(offset, unit) <= m
  {
    var b := offset + Lead(offset, unit);
    if m <= b {
      SameBoundary(m, b, unit);
    }
  }

  /** A whole number of units that lies in `[a, a + 1)` units is `a` units. */
  lemma SameCount(a: nat, q: nat, unit: nat)
    requires unit >= 1
    requires a * unit <= q * unit < a * unit + unit
    ensures a == q
  {
    MulMono(a + 1, q, unit);
    MulMono(q + 1, a, unit);
    assert (a + 1) * unit == a * unit + unit;
    assert (q + 1) * unit == q * unit + unit;
  }

  /**
   * A request that is already on the grid is not snapped: an offset and a
   * size in whole iMCUs keep their position and give exactly `size / unit`
   * iMCUs, whether or not the request reaches the far edge.
   */
  lemma GridRequestUnchanged(s: Span, dim: nat, unit: nat)
    requires unit >= 1 && s.offset % unit == 0 && s.size % unit == 0
    ensures DropSnap(s, dim, unit) == Snap(s.offset, s.size / unit)
  {
    var r := DropSnap(s, dim, unit);
    SameBoundary(s.offset, r.offset, unit);
    var q := s.size / unit;
    ExactDivision(s.size, unit);
    if s.size == 0 {
      assert r.size == 0;
    } else if s.offset + s.size == dim {
      assert (r.size - 1) * unit == r.size * unit - unit;
      SameCount(q, r.size, unit);
    } else {
      SameCount(r.size, q, unit);
    }
  }

  /** Where one axis of a request lands, in iMCU units. */
  datatype Placement =
    | Dropped(imcuOffset: nat, dropSize: nat)   // x_crop_offset and drop_width
    | Covered(imcuOffset: nat, outDim: nat)     // x_crop_offset and output_width

  /** The drop placement of a resolved span: the snapped offset counted in iMCUs, and the snapped size. */
  function DropPlacement(s: Span, dim: nat, unit: nat): (p: Placement)
    requires unit >= 1
    ensures p.Dropped?
    ensures p.imcuOffset * unit == DropSnap(s, dim, unit).offset
    ensures s.offset <= p.imcuOffset * unit < s.offset + unit
    ensures p.dropSize == DropSnap(s, dim, unit).size
  {
    var sn := DropSnap(s, dim, unit);
    ExactDivision(sn.offset, unit);
    Dropped(sn.offset / unit, sn.size)
  }

  /** The cover placement of a resolved span: the iMCU holding its offset, and the widened output size. */
  function CoverPlacement(s: Span, sizeSet: CropFlag, dim: nat, unit: nat): (p: Placement)
    requires unit >= 1
    ensures p.Covered?
    ensures p.imcuOffset * unit <= s.offset < p.imcuOffset * unit + unit
    ensures p.outDim == CoverDim(s, sizeSet, dim, unit)
  {
    FloorBounds(s.offset, unit);
    Covered(s.offset / unit, CoverDim(s, sizeSet, dim, unit))
  }

  /**
   * One axis of the alignment, from the request to its placement. A drop
   * starts at the first iMCU boundary at or after the resolved offset and
   * carries `DropSnap`'s size; any other transform starts at the boundary at
   * or before it and widens the output to cover the request.
   */
  function PlaceAxis(ax: AxisRequest, dim: nat, unit: nat, t: XForm): (r: Option<Placement>)
    requires dim >= 1 && unit >= 1
    ensures r.Some? <==> Admissible(ax, dim, t)
    ensures r.Some? ==> (r.value.Dropped? <==> t == Drop)
    ensures r.Some? && t == Drop ==>
              var s := ResolveAxis(ax, dim, t).value;
              && s.offset <= r.value.imcuOffset * unit < s.offset + unit
              && r.value.imcuOffset * unit == DropSnap(s, dim, unit).offset
              && r.value.dropSize == DropSnap(s, dim, unit).size
    ensures r.Some? && t != Drop ==>
              var s := ResolveAxis(ax, dim, t).value;
              && r.value.imcuOffset * unit <= s.offset < r.value.imcuOffset * unit + unit
              && r.value.outDim == CoverDim(s, ax.sizeSet, dim, unit)
  {
    var resolved := ResolveAxis(ax, dim, t);
    if resolved.None? then None
    else if t == Drop then Some(DropPlacement(resolved.value, dim, unit))
    else Some(CoverPlacement(resolved.value, ax.sizeSet, dim, unit))
  }
}
