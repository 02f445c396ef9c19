# RGBDImage composite — Dafny model

This project models Open3D's tensor-based `t::geometry::RGBDImage`. That class holds one
color image and one depth image (`color_`, `depth_`) and offers:

- a default constructor and a constructor that copies two images in;
- the 2D bound queries `GetMinBound` and `GetMaxBound`;
- conversion to the legacy `geometry::RGBDImage` pair;
- a destructor that clears both images.

Each `Image` is a record `Image<P>(rows, cols, content)`. The content type `P` is
uninterpreted, because the composite never looks at pixels. The per-image operations
`Image::Clear` and `Image::ToLegacyImage` belong to a collaborator. They are passed in as
function parameters, and the model assumes nothing about them. Bound results are
`Bound2(x, y)` pairs of mathematical integers.

Files:
- `images.dfy`: the abstract image and the default-constructed image.
- `rgbd.dfy`: the composite and its operations.
- `rgbd_properties.dfy`: lemmas about constructors, bounds, conversion and destructor.
- `layout.dfy`: an independent reference for the bounds, the picture with the two images side by side.
- `queries.dfy`: the const members as calls on a state. Each query is a function of an immutable state, so constness holds by construction; this module spells that out. Its real content is that every answer in a sequence of queries equals the same query on the initial state.
- `results.dfy`: the `Result` wrapper.

## Model

| member | source | states |
|---|---|---|
| Images.DefaultImage | cpp/open3d/t/geometry/RGBDImage.h:46 | the default-constructed Image that line 46 relies on has zero rows and zero columns (a property of Image.h, assumed here) |
| RGBD.Default | cpp/open3d/t/geometry/RGBDImage.h:45-46 | default construction gives two equal default images with zero rows and columns |
| RGBDProperties.DefaultBounds | cpp/open3d/t/geometry/RGBDImage.h:45-75 | a default-constructed composite has min bound (0, 0) and max bound (0, 0) |
| RGBD.Make | cpp/open3d/t/geometry/RGBDImage.h:47-54 | the parameterized constructor stores exactly the given color and depth images and accepts any pair, matched in resolution or not |
| RGBDProperties.ConstructorRoundTrip | cpp/open3d/t/geometry/RGBDImage.h:51-54 | every state is the constructor applied to its own fields, in order (color first, depth second) |
| RGBD.GetMinBound | cpp/open3d/t/geometry/RGBDImage.h:65-68 | the min bound is (0, 0) for every state, whatever the images' contents or sizes |
| RGBDProperties.MinBoundIndependentOfState | cpp/open3d/t/geometry/RGBDImage.h:65-68 | any two states have the same min bound |
| RGBD.GetMaxBound | cpp/open3d/t/geometry/RGBDImage.h:69-75 | the max bound is (color cols + depth cols, color rows): both widths side by side, the height of the color image only; it is componentwise at least the min bound |
| RGBDProperties.MaxBoundEqualIff | cpp/open3d/t/geometry/RGBDImage.h:70-75 | two states share a max bound iff their total widths agree and their color heights agree |
| RGBDProperties.MaxBoundIgnoresDepthRows | cpp/open3d/t/geometry/RGBDImage.h:72-73 | changing the depth image's rows with its columns fixed does not change the max bound |
| RGBDProperties.MaxBoundExamples | cpp/open3d/t/geometry/RGBDImage.h:70-75 | 640x480 plus 640x480 gives (1280, 480); 320x240 color plus 160x120 depth gives (480, 240) |
| RGBDProperties.MaxBoundFitsInt64 | cpp/open3d/t/geometry/RGBDImage.h:72 | with all counts below 2^62 both components fit in Int64, so the unbounded model matches the Int64 arithmetic there |
| Layout.MinBoundIsLayoutOrigin | cpp/open3d/t/geometry/RGBDImage.h:65-68 | the min bound is the top-left corner of the side-by-side picture |
| Layout.MaxBoundIsLayoutCornerIff | cpp/open3d/t/geometry/RGBDImage.h:69-75 | the max bound is the bottom-right corner of the side-by-side picture iff the depth image is no taller than the color image |
| Layout.BoundsCoverLayoutIff | cpp/open3d/t/geometry/RGBDImage.h:65-75 | the box between the bounds contains every pixel of the side-by-side picture iff depth is no taller than color or has no columns |
| RGBD.ToLegacyRGBDImage | cpp/open3d/t/geometry/RGBDImage.h:77-81 | the conversion succeeds iff both per-image conversions succeed; on success the color slot holds color's conversion and the depth slot holds depth's; on failure the error is one of the failing conversions' errors |
| RGBDProperties.LegacyNeverSwapped | cpp/open3d/t/geometry/RGBDImage.h:78-81 | when the two conversions differ, the result is never the pair with the slots exchanged |
| RGBD.ClearSlot | cpp/open3d/t/geometry/RGBDImage.h:57-58 | clearing one field applies Image::Clear to that field and leaves the other one unchanged |
| RGBD.ClearAll | cpp/open3d/t/geometry/RGBDImage.h:56-59 | clearing fields in a given order leaves a field that is never named with its original image |
| RGBDProperties.ClearAllCounts | cpp/open3d/t/geometry/RGBDImage.h:56-59 | clearing along any order of fields applies Image::Clear to each field as many times as that field is named |
| RGBDProperties.ClearOrderIrrelevant | cpp/open3d/t/geometry/RGBDImage.h:56-59 | two clearing orders that name each field equally often leave the same state |
| RGBD.DestructorOrder | cpp/open3d/t/geometry/RGBDImage.h:57-58 | the destructor names each field exactly once, color_ first |
| RGBD.Destroy | cpp/open3d/t/geometry/RGBDImage.h:56-59 | the destructor leaves Clear applied once to color_ and once to depth_ |
| RGBDProperties.DestroyClearsEachOnce | cpp/open3d/t/geometry/RGBDImage.h:56-59 | the destructor clears color_ once and depth_ once, and reversing the order would give the same state |
| Queries.Call | cpp/open3d/t/geometry/RGBDImage.h:66-81 | each const query returns the state it was given; only the legacy query gives a legacy answer |
| Queries.Run | cpp/open3d/t/geometry/RGBDImage.h:66-81 | any sequence of const queries leaves color_ and depth_ unchanged and gives one answer per call |
| Queries.RunAnswersFromInitialState | cpp/open3d/t/geometry/RGBDImage.h:66-81 | every answer in a sequence of const queries equals the same query on the initial state |
| Queries.MaxBoundStableAcrossRun | cpp/open3d/t/geometry/RGBDImage.h:70-75 | all GetMaxBound calls in a run of const queries return the same value, namely the max bound of the initial state |

## Left out

- `RGBDImage::Clear` and `RGBDImage::IsEmpty` (lines 62 and 64) are only declared in this header. Their definitions are not part of this model, so no emptiness rule and no clearing rule for the composite are given.
- `ToString` (line 84) is only declared, and it produces diagnostic text with no stated format.
- `Image` internals are left uninterpreted: tensor storage, dtype, device and the meaning of `Image::Clear`. That the default `Image` has zero rows and columns comes from `Image.h`, which is not part of this model; `Images.DefaultImage` states it as an assumption.
- `core::Tensor` construction of the bound vectors (lines 67 and 71-74) is replaced by the pair `Bound2`.
- Legacy `geometry::RGBDImage` and `Image::ToLegacyImage` internals are foreign types. They appear only as the pair `LegacyRGBDImage` and as a conversion parameter that may fail.
- The `Geometry2D` base class and the `GeometryType` tag (lines 43, 46 and 52) carry no observable logic here.
- RGBD.GetMaxBound: it uses unbounded integers and does not model Int64 wrap-around of `GetCols() + GetCols()`. `MaxBoundFitsInt64` shows that no overflow occurs while all counts stay below 2^62.
- RGBD.ToLegacyRGBDImage: when both conversions fail, it does not say which error surfaces. C++ leaves the evaluation order of the two constructor arguments unspecified.
