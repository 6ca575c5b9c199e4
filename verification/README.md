# Drop-region alignment of a batch jpegtran

A model of the region-placement arithmetic in a modified `jpegtran.c`. The
program reads a batch of six-integer groups. For each group it places two
rectangles on a JPEG image's iMCU grid: a fixed 32x32 source window, then the
destination region. It then asks libjpeg's `do_drop` to copy coefficient
blocks. An iMCU is the minimum coded unit: the block-grid cell every lossless
operation must align to. The model covers:

- the growable integer list and the tokeniser `values` (`arraylist.dfy`);
- the "one transform at a time" rule of `select_transform` (`transform.dfy`);
- the iMCU frame picked from the component count, the sampling factors and
  the transform kind (`geometry.dfy`);
- per-axis defaults, bounds checks, conversion of NEG offsets (offsets
  measured from the far edge), drop snapping and non-drop covering
  (`axis.dfy`);
- the sampling-ratio check between the target image and the dropped image
  (`sampling.dfy`);
- the whole alignment block as one function over the options record
  (`aligner.dfy`);
- the per-group loop of `do_drop1` as a fold that records the `do_drop`
  calls, with its abort behaviour (`batch.dfy`);
- worked instances (`examples.dfy`).

The source contains the alignment block twice, at lines 823-1000 and
1022-1199. The two copies are identical, so `Aligner.Align` models both.
`transformoption` is a global record that both copies read and write. It is
modelled as the `Options` value, which each alignment takes and returns. Two
effects of this sharing are kept:

- When no crop is parsed, the drop size from the previous alignment is left
  in place.
- With a single component, the `-perfect` test reads the output width that
  the previous alignment left (`Aligner.PerfectOk`).

Points where the code behaves differently from what its comments or a reader might expect, modelled as the code has them:

- Both alignments in the loop run with the transform set to DROP (line 764).
  So the source window is also snapped forward to the next iMCU boundary, and
  it is also checked for matching sampling. A source window at pixel 10 on a
  16-pixel grid lands on iMCU 1, not 0 (`Examples.SingleRegion`).
- A group is read as destX, destY, srcX, srcY, width, height (lines 795-801),
  whatever the comments in `values` say.
- `values` never initialises its list `u` (jpegtran.c:87), so the first
  `realloc` receives an indeterminate pointer and the size starts at an
  indeterminate value. The model starts `ArrayList.Values` from
  `ArrayList.Initial()`, which is what the routine evidently means.
- A token count that is not a multiple of six is not reported as an error.
  The routine would then call `atoi(NULL)`, so it is a precondition of
  `ArrayList.Values`.
- Inside `do_drop1` the target image's header stays the same from one group
  to the next; only its coefficients change. One `Image` value therefore
  serves every group.

The following are function-typed parameters, because their code is not part
of this model:

- the crop-spec parser applied to `"+X+Y"` (`Batch.OffsetParser`);
- `jtransform_perfect_transform` (`Aligner.PerfectTest`);
- `atoi`.

All `JDIMENSION` values are `nat`. Each subtraction in the alignment is
guarded by the code's own checks, and the verifier confirms that none of them
goes below zero. `Batch.ToDim` models the assignment of a C `int` width to a
`JDIMENSION`, which is unsigned 32-bit.

## Model

| member | source | states |
|---|---|---|
| ArrayList.Initial | jpegtran.c:52-55 | a new list is empty |
| ArrayList.Add | jpegtran.c:69-82 | on a successful realloc the value is appended last and the earlier elements are unchanged; on failure the list is unchanged; the result is always 1 |
| ArrayList.AddSize | jpegtran.c:69-82 | the size `arraylist_get_size` reports grows by one exactly when the reallocation succeeds and stays the same when it fails, while the returned status is the same in both cases, so a caller cannot tell them apart |
| ArrayList.Values | jpegtran.c:85-113 | starting from an empty list, the result holds `atoi` of every token in token order, so its length is the token count and a multiple of six |
| Transform.Select | jpegtran.c:178-198 | a request is accepted exactly when no transform is recorded yet or the same one is requested, and it then becomes the recorded one; otherwise it is rejected, and without transform support it is always rejected |
| Transform.SelectAllSpec | jpegtran.c:178-198 | a sequence of requests from the initial state is accepted exactly when, after the first non-NONE request, every later request repeats it; the last request is then the selected transform |
| Transform.SelectAllFrom | jpegtran.c:178-198 | the same characterisation from any recorded transform |
| Geometry.ImcuFrame | jpegtran.c:846-876 | every output size and iMCU size the switch produces is at least 1, so the divisions by the iMCU size that follow are defined |
| Geometry.FrameOrientation | jpegtran.c:846-877 | for TRANSPOSE, TRANSVERSE, ROT_90 and ROT_270 the output size and the iMCU size have width and height exchanged; with one component the iMCU is `min_DCT_*_scaled_size`, otherwise `max_*_samp_factor * min_DCT_*_scaled_size` |
| Axis.FromNearEdge | jpegtran.c:925-937 | an offset not flagged NEG is kept; a NEG offset inside the image becomes the offset at which the crop ends that many pixels before the far edge; under crop extension it becomes the offset at which the image ends that many pixels before the crop's far edge |
| Axis.ResolveAxis | jpegtran.c:881-937 | fails exactly when the request is not admissible (unset size with offset past the image; extension under a transform or not enclosing the image; empty or overflowing crop); on success the crop lies in the image, or under extension the image lies in the crop; a NEG offset keeps its distance from the far edge; other offsets are unchanged and an unset size becomes the rest of the image |
| Axis.Lead | jpegtran.c:942-943 | `dtemp` is below one iMCU and moves the offset onto an iMCU boundary |
| Axis.LeadIsNextBoundary | jpegtran.c:942-943 | the boundary reached is the first one at or after the offset: no boundary in between is skipped |
| Axis.DropSnap | jpegtran.c:940-961 | the offset moves to the first iMCU boundary at or after it; the size is 0 when the request ends before that boundary, the smallest cover of the request's end when that end is the image edge, and the largest whole number of iMCUs inside the request otherwise |
| Axis.CoverDim | jpegtran.c:978-992 | the output size is never smaller than the crop and less than one iMCU larger; counted from the iMCU boundary at or before the offset, it reaches the crop's far edge; under FORCE or extension it is the crop size |
| Axis.PlaceAxis | jpegtran.c:938-996 | an axis is placed exactly when admissible; a drop's iMCU offset is the first boundary at or after the resolved offset, with DropSnap's size; otherwise the iMCU offset is the boundary at or before it, and the output is widened by CoverDim |
| Axis.GridRequestUnchanged | jpegtran.c:940-961 | a drop request whose offset and size are whole iMCUs is not moved and yields exactly size/unit iMCUs |
| Sampling.SamplingCompatible | jpegtran.c:962-976 | the check passes exactly when, for every component index both images have (up to the target's component count), the horizontal and the vertical sampling ratios agree once cross-multiplied |
| Sampling.CheckFrom | jpegtran.c:963-975 | the loop from component `ci` onward passes exactly when every remaining shared component matches |
| Sampling.CompatibleSymmetric | jpegtran.c:962-976 | the verdict does not depend on which image is the target, and an image always matches itself |
| Aligner.PerfectGate | jpegtran.c:823-839 | without `-perfect` the gate passes; with several components the output width left by the previous alignment has no effect on the alignment; with one component an alignment without a crop succeeds exactly when the external test accepts that previous width (not the image's own) |
| Aligner.Align | jpegtran.c:823-1000 | succeeds exactly when the perfect test passes and, for a crop, both axes are admissible and a drop with non-zero width and height has matching sampling; the transform, perfect flag and component count are kept; without a crop the offsets are 0 and the drop sizes are kept; with a crop each axis is placed as PlaceAxis places it, drop sizes are written only for DROP, and output sizes are widened only for other transforms |
| Batch.GroupFieldOrder | jpegtran.c:795-801 | of a group starting at index i, values i and i+1 become the destination's offsets, i+2 and i+3 the source window's, and i+4 and i+5 the destination's width and height (each as a `JDIMENSION`) |
| Batch.ToDim | jpegtran.c:1011-1014 | an `int` assigned to a `JDIMENSION` keeps its value when non-negative and wraps by 2^32 when negative |
| Batch.Step | jpegtran.c:804-1206 | a loop iteration that succeeds keeps the options usable, with the same transform, perfect flag and component count |
| Batch.StepDropPlacement | jpegtran.c:940-961 | under DROP with both offsets parsed as a crop, a successful iteration's destination and source iMCU offsets are the first boundaries at or after the resolved pixel offsets, its drop sizes are DropSnap's, and a non-negative width or height reaches the aligner unchanged |
| Batch.NegativeSizeAborts | jpegtran.c:1011-1014 | when the destination offsets parse as a crop, a negative width or height becomes crop extension, which a drop never allows, so the iteration returns (without a crop the size is never looked at) |
| Batch.Fold | jpegtran.c:791-1209 | a finished loop made one call per group of six; an aborted loop made fewer |
| Batch.Run | jpegtran.c:791-1209 | the same counts for the loop over one pair of images |
| Batch.DoDrop1 | jpegtran.c:764-1209 | with the transform forced to DROP and the perfect flag set, the same counts hold |
| Batch.DoDrop1CallAt | jpegtran.c:764-1206 | for a group whose offsets both parse as a crop, the k-th `do_drop` call of `do_drop1` starts the destination at the first iMCU boundary at or after its resolved pixel offset, drops `DropSnap`'s number of iMCUs, and starts the source window at the first boundary at or after its offset |
| Batch.FoldCallsHold | jpegtran.c:791-1209 | a relation between a group and its call that every loop iteration establishes, under an invariant of the options it keeps, holds of every call the loop makes |
| Batch.FoldKeeps | jpegtran.c:791-1209 | an invariant of the options that every iteration keeps holds when the loop finishes |
| Batch.AbortIsFinal | jpegtran.c:1204-1208 | once a group fails, appending further groups changes nothing: no later region runs |
| Batch.FoldAppend | jpegtran.c:791-1209 | running two batches one after the other equals running their concatenation; the options carry over |
| Batch.CallAt | jpegtran.c:1204-1208 | the k-th call is the one that group k makes, starting from the options the first k groups left, and all those groups ran |
| Batch.AbortAt | jpegtran.c:1204-1208 | an aborted loop made exactly the calls of the groups before the failing one, and the failing group's body returned early |
| Batch.RunKeepsReady | jpegtran.c:804-1208 | a run that starts with usable options keeps them usable, with the same transform, perfect flag and component count |
| Batch.RunCallAt | jpegtran.c:791-1208 | for the loop over real alignments, the k-th `do_drop` call is what Step makes of group k |
| Batch.RunAbortAt | jpegtran.c:791-1208 | for the loop over real alignments, an abort happens at the first group whose two alignments do not both succeed |
| Examples.EdgeRounding | jpegtran.c:940-951 | on a 100-pixel side with 16-pixel iMCUs, a request ending at the edge rounds up to 7 iMCUs, and one ending a pixel short rounds down to 6 |
| Examples.SingleRegion | jpegtran.c:791-1208 | the batch `0 0 10 10 64 64` on a 128x128 4:2:0 image makes one call: 4x4 iMCUs at iMCU (0,0), with the source window at iMCU (1,1) |
| Examples.SamplingMismatch | jpegtran.c:962-976 | dropping a 4:4:4 image onto a 4:2:0 image ends the batch before any call |

## Left out

- `parse_switches`, `usage` and `keymatch` (command-line parsing and help text). `select_transform` is kept as a pure transition that returns an error instead of calling `usage()` and exiting.
- `main`: file I/O, buffer lifetimes and the loop that leaves after the first group. This is memory and I/O plumbing around `do_drop1`.
- `do_crop`, and the libjpeg setup and teardown in `do_drop1` (reading headers and coefficients, `jtransform_request_workspace`, `jtransform_adjust_parameters`, the output destination, and the finish/destroy calls). These are library calls with no arithmetic of their own. The options record that `jtransform_request_workspace` leaves is an input of `Batch.DoDrop1`.
- `do_drop`, `jtransform_parse_crop_spec` and `jtransform_perfect_transform`: their code is not part of this model. `do_drop` is recorded as a `Batch.DropCall`, and the other two are function-typed parameters.
- `arraylist_get` and `arraylist_indexof`: declared but never defined in the source.
- `arraylist_get_data_collection` and `arraylist_set_data_collection`: direct access to the backing array, with no behaviour beyond the list itself.
- `strtok`, `atoi` and `sprintf` (libc string handling): tokens and `atoi` are abstract inputs.
- ArrayList.Values: assumes every `realloc` succeeds. `ArrayList.Add` models the failure case on its own. It also starts from an empty list, while the source never initialises `u` (jpegtran.c:87).
- Aligner.Align: sums such as `xoffset + itemp - 1` use unbounded integers, with no 32-bit unsigned wrap-around. This matches the source whenever image sides and offsets are far below 2^32, which holds for every valid JPEG (sides are at most 65500 pixels).
- Batch.Run: requires `Aligner.Ready` of the options it starts from (a valid header and a component count the header has), which `jtransform_request_workspace` establishes before the loop. The loop body is still guarded by `Aligner.Ready` so that the generic fold is total; `Batch.RunKeepsReady` shows the guard never fails in a run.
