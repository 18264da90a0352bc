# Vertex Color Selector — a verified model of its selection rules

The Vertex Color Selector is a Blender add-on. It selects mesh faces whose
averaged corner colour matches a reference colour. This project models the
part of it that does not depend on the host:

- the colour match `color_close`;
- the per-face average, rounded to 4 decimals;
- the Find Colors discovery of distinct face colours (labels `Col_1`, `Col_2`, …);
- the in-place selection passes of Select Faces By Face Color, Select This
  Color and Pick Vertex Color, with the Shift (add) and Ctrl (remove)
  modifiers.

A mesh is a class `Mesh`. It has a map from colour-attribute name to the
corner colours of every face (each face a non-empty sequence of RGB
colours), and one `array<bool>` of face selection flags, which the selection
operators update in place. Colours are integers in units of 1/10000, which
is the resolution the face averages are rounded to. The threshold 0.01 is
100 units. Distances are compared as squared distance against squared
threshold, so all arithmetic is exact.

Files, one module each:

- `colors.dfy` (`Colors`): colours, `Close` (color_close), round-half-even,
  `Average`, and the exact mean colour `Target` that Pick compares against.
- `face_colors.dfy` (`FaceColors`): first-occurrence deduplication
  `Distinct` and its properties, the labels, and the discovery loop
  `CollectFaceColors`.
- `selection.dfy` (`Selection`): the per-face modifier rule `NextFlag`, the
  whole-mesh pass `After`, its reading as set algebra, and Pick's modifier
  resolution.
- `operators.dfy` (`VertexColorSelector`): the `Mesh` class and the four
  operators, with their cancellation paths.

Find Colors and the selection passes round each face average to 4 decimals
(D31_VertexColorSelector.py:82, 127, 178, 415). Pick compares those against
the unrounded mean of the clicked face (D31_VertexColorSelector.py:398).
The model therefore carries Pick's colour as an exact fraction `Target(sum,
count)`.

## Model

| member | source | states |
|---|---|---|
| `Colors.Close` | D31_VertexColorSelector.py:32-34 | color_close: a colour matches itself exactly when the threshold is positive, and nothing matches under a zero threshold; `CloseIffDistanceBelow` proves it is the strict Euclidean-distance test |
| `Colors.SqDist` | D31_VertexColorSelector.py:33 | the squared RGB distance is non-negative and zero exactly for equal colours |
| `Colors.CloseIffDistanceBelow` | D31_VertexColorSelector.py:32-34 | for the true Euclidean distance d (d ≥ 0, d² = squared distance), `Close` holds iff d < threshold; at exactly the threshold distance the colours do not match |
| `Colors.CloseSymmetric` | D31_VertexColorSelector.py:32-34 | color_close is symmetric in its two colours |
| `Colors.ThresholdExamples` | D31_VertexColorSelector.py:21 | with threshold 0.01, (0.5,0.5,0.5) matches (0.505,0.505,0.505) and does not match (0.6,0.5,0.5) |
| `Colors.RoundHalfEven` | D31_VertexColorSelector.py:82 | round() of sum/len: the result is within half a unit of the exact quotient, and an exact half goes to the even neighbour |
| `Colors.RoundHalfEvenUnique` | D31_VertexColorSelector.py:82 | any integer with those two properties is the rounded value, so the rounding is fully determined |
| `Colors.Average` | D31_VertexColorSelector.py:81-82 | the rounded face average: corners with channels in [0, 1] give an average in [0, 1]; `AverageNearMean`, `AverageOrderIndependent` and `AverageUniform` give the rest of its meaning |
| `Colors.AverageNearMean` | D31_VertexColorSelector.py:81-82 | each channel of a face average is within half a unit (0.00005) of the exact corner mean |
| `Colors.AverageOrderIndependent` | D31_VertexColorSelector.py:81-82 | the face average does not depend on the order of the face's corners (any permutation gives the same average) |
| `Colors.AverageUniform` | D31_VertexColorSelector.py:81-82 | a face whose corners all have one colour averages to exactly that colour |
| `Colors.NearExactly` | D31_VertexColorSelector.py:128 | matching against an already rounded colour is color_close of the face average and that colour |
| `Colors.Near` | D31_VertexColorSelector.py:398-416 | color_close against a colour given as an exact mean (`MeanOf` a face, or `Exactly` a rounded colour); `NearIffMeanWithinThreshold` and `NearExactly` give its meaning |
| `Colors.NearIffMeanWithinThreshold` | D31_VertexColorSelector.py:398-416 | a face average matches Pick's unrounded mean iff its real squared distance to sum/count is below the squared threshold |
| `Colors.OwnFaceIsNear` | D31_VertexColorSelector.py:398-416 | the clicked face's rounded average always matches the unrounded mean picked from it, for any threshold of at least one unit |
| `FaceColors.Distinct` | D31_VertexColorSelector.py:76-90 | the reference for the seen-set loop: never longer than its input; `DistinctSameElements`, `DistinctNoDuplicates`, `DistinctFirstOccurrenceOrder` and `DistinctCardinality` give its meaning |
| `FaceColors.DistinctSameElements` | D31_VertexColorSelector.py:80-89 | the deduplicated list holds every face colour, and only face colours |
| `FaceColors.DistinctNoDuplicates` | D31_VertexColorSelector.py:83-85 | no colour appears twice in the deduplicated list |
| `FaceColors.DistinctFirstOccurrenceOrder` | D31_VertexColorSelector.py:80-89 | the deduplicated colours are in the order of their first face |
| `FaceColors.DistinctCardinality` | D31_VertexColorSelector.py:96 | the list is as long as the number of distinct face colours |
| `FaceColors.Decimal` | D31_VertexColorSelector.py:86 | the decimal text of k in `Col_{idx}`: non-empty, digits only, starting with `0` only for k = 0 |
| `FaceColors.LabelShape` | D31_VertexColorSelector.py:86 | the label `Col_{idx}` is `Col_` followed by digits that denote exactly idx, with no leading zero for the positions 1, 2, … used |
| `FaceColors.DecimalValue` | D31_VertexColorSelector.py:86 | the decimal text of k, read back digit by digit, denotes k |
| `FaceColors.LabelInjective` | D31_VertexColorSelector.py:86 | two different positions get different labels `Col_<k>` |
| `FaceColors.EnumerateLabelsDistinct` | D31_VertexColorSelector.py:86-88 | no two enumeration entries carry the same label |
| `FaceColors.CollectFaceColors` | D31_VertexColorSelector.py:76-90 | the seen-set loop yields exactly the first-occurrence dedup of the face averages, entry k labelled `Col_(k+1)` with empty description, and a preview (label, colour) per entry |
| `VertexColorSelector.ListedColours` | D31_VertexColorSelector.py:79-96 | an enumeration equal to that dedup lists no colour twice, lists every face's colour and nothing else, and has as many entries as distinct face colours |
| `VertexColorSelector.Matches` | D31_VertexColorSelector.py:176-185 | one match flag per face, the `Near` test of its rounded average (also the test Pick makes at :416); `MatchesExactly` and `OwnFaceIsNear` give its meaning |
| `VertexColorSelector.MatchesExactly` | D31_VertexColorSelector.py:179 | per face, matching a listed colour is color_close(face average, colour, threshold) |
| `VertexColorSelector.ListedColourMatchesItsFaces` | D31_VertexColorSelector.py:179-183 | the k-th listed colour matches every face whose average it is, so Select This Color on it reaches all those faces |
| `VertexColorSelector.Mesh.FindFaceColors` | D31_VertexColorSelector.py:55-105 | cancels outside Edit Mode and without the colour layer; otherwise lists distinct face colours in first-appearance order as `Col_1..Col_n` and reports their number |
| `VertexColorSelector.Mesh.UpdateSelection` | D31_VertexColorSelector.py:176-185 | after the pass the flags are `After(old flags, matches, modifiers)`: a match is deselected under Ctrl and selected otherwise; a non-match is deselected with no modifier held and kept otherwise |
| `VertexColorSelector.Mesh.SelectFacesByFaceColor` | D31_VertexColorSelector.py:111-143 | cancels (selection untouched) in an unsupported mode or without the layer; otherwise afterwards a face is selected iff its average is color_close to the target |
| `VertexColorSelector.Mesh.SelectThisColor` | D31_VertexColorSelector.py:161-206 | same cancellations; otherwise the selection becomes `After(old, matches of the colour, modifiers)` |
| `VertexColorSelector.Mesh.Pick` | D31_VertexColorSelector.py:354-443 | no hit or a negative index cancels; an index beyond the face count cancels; a missing layer cancels, each leaving the selection and the colour property unchanged; otherwise the picked colour is the clicked face's exact mean, the selection becomes `After(old, matches, Resolve(click, invoke))`, and the clicked face ends selected unless Ctrl is in effect |
| `Selection.NextFlag` | D31_VertexColorSelector.py:179-185 | the new flag of one face: under Ctrl, selected iff selected before and not a match; under Shift alone, selected before or a match; with no modifier, exactly the match |
| `Selection.After` | D31_VertexColorSelector.py:176-185 | one pass over all faces, flag by flag, keeping the face count; `AfterAsSets`, `CtrlWinsOverShift` and `PlainReplaces` give its meaning |
| `Selection.AfterAsSets` | D31_VertexColorSelector.py:179-185 | as sets of face indices: Ctrl gives old − matches (whatever Shift says), Shift alone gives old ∪ matches, no modifier gives exactly the matches |
| `Selection.CtrlWinsOverShift` | D31_VertexColorSelector.py:179-185 | Ctrl with Shift gives the same selection as Ctrl alone |
| `Selection.PlainReplaces` | D31_VertexColorSelector.py:179-185 | with no modifier the new selection is exactly the match flags, whatever it was before |
| `Selection.Resolve` | D31_VertexColorSelector.py:404-405 | the modifiers Pick acts under, field by field as the source writes it; `ResolveOverride` gives its meaning |
| `Selection.ResolveOverride` | D31_VertexColorSelector.py:404-405 | the click-time keys replace the invoke-time pair as a whole exactly when Shift or Ctrl is held at the click; otherwise the invoke-time pair is used unchanged |

## Left out

- Host mesh access (`bmesh.from_edit_mesh`, `update_edit_mesh`, `ensure_lookup_table`). It is host API. Edit Mode's bmesh faces and the paint modes' polygons are one face sequence with one selection array here. The propagation of `select_set` to vertices and edges is not modelled.
- The colour-layer lookups (`bm.loops.layers.color.get`, `vertex_colors.get`, `color_attributes.get`) become a lookup in the mesh's map of colour attributes. Pick's further attribute checks at D31_VertexColorSelector.py:380-391 (empty data, non-corner domain, non-colour type, loop index past the data) are host attribute metadata and are not modelled.
- Pick's `if not colors` cancellation (D31_VertexColorSelector.py:394) cannot happen: every face has at least one corner. The host guarantees this, and the source's averages divide by the corner count.
- Pick's modal event loop (Esc and right click cancel; other events keep running), the cursor and header text, and the "no mesh object" check. These are event-driven UI. Pick is modelled from the left click on.
- The ray cast (`region_2d_to_origin_3d`, `scene.ray_cast`) is host geometry. Its outcome is two parameters, `hit` and `faceIndex`. Like the source, the model does not check which object the ray hit.
- The `eval` of the enumeration identifier (D31_VertexColorSelector.py:116). The target colour is a parameter instead.
- Floating point. Channels are exact integers in units of 1/10000, for corner colours too. Rounding is round-half-even on the exact quotient. Binary float representation is not modelled. The single-precision storage of the operators' `color` properties is not modelled either. At the threshold boundary this can change a result: a listed colour 0.51 is stored as a float32 slightly below 0.51, so Select This Color matches a face averaging 0.5, exactly 0.01 away, where `Close` says no match. The min 0 / max 1 clamp of those properties (D31_VertexColorSelector.py:148, 313, 450) is not modelled; `Average` keeps corner colours in [0, 1] within [0, 1].
- The Find Colors scene state: clearing and refilling the preview collection, redefining the `EnumProperty`, the last-mesh-id bookkeeping and `clear_color_lists`. The model returns the enumeration items and previews that would be stored. The Clear Color List operator only calls `clear_color_lists` and is left out with it.
- The panel's `poll` and `draw`, `get_color_attribute_names`, `color_attr_items`, the `PropertyGroup` classes, and registration. These are UI and host plumbing.
- `linear_to_srgb` and `linear_to_srgb_channel`. They are floating-point power functions and nothing calls them.
- Report messages. Each cancellation is a `Reason`; Find Colors' "N face colors found" is the `found` out-parameter.
- Select This Color run without `invoke` reads Shift and Ctrl as false (`getattr` default). Callers express this by passing `NoModifiers`.
- Select Faces By Face Color reads its target from the property group's `face_colors` enum, declared with no items (D31_VertexColorSelector.py:116, 453-456). Find Colors fills a different property, `Scene.vc_selector_face_colors` (D31_VertexColorSelector.py:92-95). Read from the text, not executed: the `eval` at :116 then gets an empty identifier and fails before the mode check. The panel never offers this operator. The model takes the target colour as a parameter.
- Find Colors reads the last mesh id as `scene.vc_selector_last_mesh_id` (D31_VertexColorSelector.py:65) but writes `scene.vc_selector.last_mesh_id` (D31_VertexColorSelector.py:68). Read from the text, not executed: `clear_color_lists` then runs on every call, including one that goes on to cancel for a missing layer. That bookkeeping is scene state and is not modelled.
