/**
 * Worked instances of the drop alignment and batch loop on small concrete
 * images.
 */
module Examples {
  import opened Wrappers
  import opened Transform
  import opened Geometry
  import opened Axis
  import opened Aligner
  import opened Batch

  /** A 128x128 image with 4:2:0 subsampling: 16x16 iMCUs. */
  const Img420: Image := Image(128, 128, 8, 8, 2, 2, [Component(2, 2), Component(1, 1), Component(1, 1)])

  /** The same size without subsampling: 8x8 iMCUs. */
  const Img444: Image := Image(128, 128, 8, 8, 1, 1, [Component(1, 1), Component(1, 1), Component(1, 1)])

  /** What `jtransform_parse_crop_spec` makes of `"+X+Y"` for non-negative X and Y. */
  function PlusOffsets(x: int, y: int): CropSpec {
    CropSpec(true, AxisRequest(ToDim(x), Pos, 0, Unset), AxisRequest(ToDim(y), Pos, 0, Unset))
  }

  /** A perfect test that accepts everything, as libjpeg's does for a drop. */
  function AlwaysPerfect(w: nat, h: nat, mw: nat, mh: nat, t: XForm): bool {
    true
  }

  /** Options after `jtransform_request_workspace` for a three-component image. */
  const Start: Options := Options(Drop, true, 3, 128, 128, 16, 16, 0, 0, 0, 0)

  /**
   * On a 100-pixel side with 16-pixel iMCUs, a request reaching the far edge
   * is rounded up to include the partial iMCU, one stopping a pixel short is
   * rounded down.
   */
  lemma EdgeRounding()
    ensures DropSnap(Span(0, 100), 100, 16) == Snap(0, 7)
    ensures DropSnap(Span(0, 99), 100, 16) == Snap(0, 6)
  {
    assert Lead(0, 16) == 0;
    assert CeilUnits(100, 16) == 7;
    assert FloorUnits(99, 16) == 6;
  }

  /** The same with an offset of 10, which first moves to the boundary at 16. */
  lemma OffsetEdgeRounding()
    ensures DropSnap(Span(10, 90), 100, 16) == Snap(16, 6)
    ensures DropSnap(Span(10, 89), 100, 16) == Snap(16, 5)
    ensures DropSnap(Span(10, 5), 100, 16) == Snap(16, 0)
  {
    assert Lead(10, 16) == 6;
    assert CeilUnits(84, 16) == 6;
    assert FloorUnits(83, 16) == 5;
  }

  /** The source window of the region `0 0 10 10 64 64`: 32x32 at pixel (10, 10). */
  lemma SourceWindowAligned()
    ensures Align(Img420, Img420, Start, SourceSpec(PlusOffsets, Region(0, 0, 10, 10, 64, 64)), AlwaysPerfect)
            == Some(Options(Drop, true, 3, 128, 128, 16, 16, 1, 1, 1, 1))
  {
    var src := SourceSpec(PlusOffsets, Region(0, 0, 10, 10, 64, 64));
    assert src == CropSpec(true, AxisRequest(10, Pos, 32, Pos), AxisRequest(10, Pos, 32, Pos));
    assert ImcuFrame(Img420, Drop, 3) == Frame(128, 128, 16, 16);
    assert ResolveAxis(src.x, 128, Drop) == Some(Span(10, 32));
    assert DropSnap(Span(10, 32), 128, 16) == Snap(16, 1);
    assert PlaceAxis(src.x, 128, 16, Drop) == Some(Dropped(1, 1));
    assert Sampling.SamplingCompatible(Img420, Img420, 3) by {
      Sampling.CompatibleSymmetric(Img420, Img420, 3);
    }
  }

  /** One axis of that destination: 64 pixels from pixel 0 are 4 whole iMCUs. */
  lemma DestinationAxis()
    ensures PlaceAxis(AxisRequest(0, Pos, 64, Pos), 128, 16, Drop) == Some(Dropped(0, 4))
  {
    assert ResolveAxis(AxisRequest(0, Pos, 64, Pos), 128, Drop) == Some(Span(0, 64));
    assert Lead(0, 16) == 0;
    assert FloorUnits(64, 16) == 4;
    assert DropSnap(Span(0, 64), 128, 16) == Snap(0, 4);
    assert DropPlacement(Span(0, 64), 128, 16) == Dropped(0, 4);
  }

  /** The destination of the region `0 0 10 10 64 64`: 64x64 at pixel (0, 0). */
  lemma DestinationAligned()
    ensures Align(Img420, Img420, Options(Drop, true, 3, 128, 128, 16, 16, 1, 1, 1, 1),
                  DestSpec(PlusOffsets, Region(0, 0, 10, 10, 64, 64)), AlwaysPerfect)
            == Some(Options(Drop, true, 3, 128, 128, 16, 16, 0, 0, 4, 4))
  {
    var dst := DestSpec(PlusOffsets, Region(0, 0, 10, 10, 64, 64));
    assert dst == CropSpec(true, AxisRequest(0, Pos, 64, Pos), AxisRequest(0, Pos, 64, Pos));
    assert ImcuFrame(Img420, Drop, 3) == Frame(128, 128, 16, 16);
    DestinationAxis();
    assert Sampling.SamplingCompatible(Img420, Img420, 3) by {
      Sampling.CompatibleSymmetric(Img420, Img420, 3);
    }
  }

  /**
   * The batch `0 0 10 10 64 64` on the 4:2:0 image: one call, dropping 4x4
   * iMCUs at iMCU (0, 0); the source window at pixel (10, 10) is moved to
   * the next boundary, iMCU (1, 1).
   */
  lemma SingleRegion()
    ensures DoDrop1(Img420, Img420, Start, [0, 0, 10, 10, 64, 64], PlusOffsets, AlwaysPerfect).calls
            == [DropCall(0, 0, 4, 4, 1, 1)]
  {
    var vals := [0, 0, 10, 10, 64, 64];
    var g := RegionAt(vals, 0);
    assert g == Region(0, 0, 10, 10, 64, 64);
    SourceWindowAligned();
    DestinationAligned();
    StepAligns(Img420, Img420, Start, g, PlusOffsets, AlwaysPerfect);
    assert Start.(transform := Drop, perfect := true) == Start;
    assert Step(Img420, Img420, Start, g, PlusOffsets, AlwaysPerfect).Some?;
    BodyIsStep(Img420, Img420, PlusOffsets, AlwaysPerfect, Start, g);
    assert vals[6..] == [];
  }

  /**
   * Dropping a 4:4:4 image onto the 4:2:0 one fails the sampling check, so
   * the batch ends before any call.
   */
  lemma SamplingMismatch()
    ensures DoDrop1(Img420, Img444, Start, [0, 0, 10, 10, 64, 64], PlusOffsets, AlwaysPerfect) == Aborted([])
  {
    var g := RegionAt([0, 0, 10, 10, 64, 64], 0);
    assert !Sampling.ComponentMatches(Img420, Img444, 1);
    StepAligns(Img420, Img444, Start, g, PlusOffsets, AlwaysPerfect);
  }
}
