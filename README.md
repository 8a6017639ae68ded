# js_lib MMProcessor in Dafny

This project models `js_lib::MMProcessor`, the detect-then-classify processor of the
repository, and proves properties of the model. The processor does three things:

- `process_image` runs a detector on an image. For every detection, in the detector's
  order, it:
  - converts the box from corners to x/y/width/height;
  - keeps the detector's mask, resized to the image's size, when the detector gave one;
  - extracts a 224x224 region, mask-guided when there is a mask and box-cropped otherwise;
  - classifies the region and appends one result.
- `slice_tensor_by_mask` blacks out every pixel outside the mask, then resamples the
  masked image to the target size (224x224 by default).
- `format_results_table` / `format_results` render the results as a text table:
  - a header line and a separator line;
  - one row per result: the detection's label, score and box, two spaces, the
    classifications' labels and scores, a line break, then a separator line.

Modules:

- `Cv` (cv.dfy) is a value model of the parts of OpenCV's `cv::Mat` the processor uses.
  - A matrix is a grid of integer elements, one per pixel, and black is 0.
  - `resize` is kept abstract: the interpolation kernel is a `Sampler` parameter, and the
    model promises only the output's shape and type. When the sizes already agree the
    source comes back unchanged.
  - `convertTo` saturates each element to the new depth.
  - `copyTo` into a fresh matrix zero-fills it, then copies the source where the mask is
    non-zero.
  - A crop (`mat(rect).clone()`) copies the sub-grid under the rectangle.
- `Mmdeploy` (mmdeploy.dfy) holds the detector and classifier result records.
  - The two models are plain functions from an image to their outputs.
- `Text` (text.dfy) is the decimal text `std::ostream` writes for an `int`.
  - It comes with its read-back round trip and a generic in-order join of element texts.
- `JsLib` (mm_processor.dfy) is the processor itself:
  - the result records;
  - the box conversion;
  - `slice_tensor_by_mask` as a function;
  - region selection;
  - the table as a specification function plus the looping `FormatResultsTable` method
    proved equal to it;
  - the class `MMProcessor`, holding the two models, with the looping `ProcessImage`
    method and `FormatResults`.

The C++ code converts the float corners with `cv::Rect(int, int, int, int)`, which
truncates each argument toward zero. The width and height arguments are the differences
`right - left` and `bottom - top`, computed in `float`. The model's `ToRect` truncates the
exact differences instead, so it can differ from the C++ code by one pixel in width or
height when the `float` subtraction rounds (see "Left out"). For corners on whole pixels the
conversion is exactly `x = left`, `y = top`, `width = right - left`,
`height = bottom - top`; `ToRectWholePixels` proves this case.

## Model

| member | source | states |
|---|---|---|
| JsLib.MMProcessor.ProcessImage | js_lib/src/mm_processor.cpp:53-94 | One result per detection, in the detector's order, with no filtering: result i holds the conversion of detection i and exactly the classifier's output list for that detection's region. |
| JsLib.ConvertDetection | js_lib/src/mm_processor.cpp:61-75 | Label and score are copied. The box is `ToRect` of the corners: x and y are the truncated left and top, width and height the truncated differences `right - left` and `bottom - top`. The mask is non-empty exactly when the detector gave a mask with data. When present it is CV_8UC1 at the image's dimensions, and it is the detector's buffer unchanged when that already has the image's size. The result always meets what region extraction needs. |
| JsLib.Trunc | js_lib/src/mm_processor.cpp:66-68 | The float-to-int conversion of the box arguments rounds toward zero: the result is within one of the value, on its side of zero. |
| JsLib.ToRectWholePixels | js_lib/src/mm_processor.cpp:66-68 | For whole-pixel corners the box is x = left, y = top, width = right - left, height = bottom - top. |
| JsLib.MaskMat | js_lib/src/mm_processor.cpp:72 | Wrapping the detector's buffer gives a valid, non-empty CV_8UC1 matrix of the mask's height and width. |
| JsLib.MaskMatAllSet | js_lib/src/mm_processor.cpp:72 | A buffer that is non-zero everywhere wraps into a matrix that is non-zero at every element. |
| JsLib.Region | js_lib/src/mm_processor.cpp:77-84 | Whatever branch is taken, the classifier's input is 224x224 and keeps the image's type. What each branch gives is stated by RegionWithMask and RegionWithoutMask. |
| JsLib.RegionWithMask | js_lib/src/mm_processor.cpp:71-80 | A detection with mask data is classified on the image masked by its resized mask (black where the mask is 0, the pixel elsewhere), resampled to 224x224. |
| JsLib.RegionWithoutMask | js_lib/src/mm_processor.cpp:79-84 | A detection without mask data is classified on the crop under its converted box, resized to 224x224. |
| JsLib.RegionWithFullMask | js_lib/src/mm_processor.cpp:71-84 | A mask of the image's size that is set everywhere gives the whole image resized to 224x224, the same region as a whole-image box with no mask. |
| JsLib.BinaryMask | js_lib/src/mm_processor.cpp:99-113 | The mask is brought to the image's size and to CV_8UC1. It is returned untouched when it already has both. A CV_8UC1 mask of another size is only resampled, not converted. A mask of another type is converted: every element (of the resampled mask, when the size differs) is saturated to 8 bits, so a value below 0 becomes 0 and masks the pixel out, and one above 255 becomes 255. |
| JsLib.SliceTensorByMask | js_lib/src/mm_processor.cpp:96-121 | The region has exactly the target size and the image's type. |
| JsLib.SliceTensorByMaskFidelity | js_lib/src/mm_processor.cpp:115-119 | The region is the resampling of a masked image of the image's size: black wherever the 8-bit mask is 0, the source pixel wherever it is non-zero. |
| JsLib.SliceTensorByMaskIgnoresMaskedOut | js_lib/src/mm_processor.cpp:115-119 | Two images that agree wherever the mask is set give the same region: pixels outside the mask have no influence. |
| JsLib.SliceTensorByMaskAllClear | js_lib/src/mm_processor.cpp:101-119 | A size-matched 8-bit mask that is clear everywhere gives an all-black image resampled, whatever the image shows. |
| JsLib.SliceTensorByMaskAllSet | js_lib/src/mm_processor.cpp:101-119 | A size-matched 8-bit mask that is set everywhere gives the whole image resampled to the target size. |
| JsLib.FormatResultsTable | js_lib/src/mm_processor.cpp:7-32 | The accumulated text equals `Table`: the header line and separator (`Header`, `Separator`), then each result's `ResultRow` in order. A row is the `DetectionText` ("Label: id", "Score: s", "BBox: (x, y, w, h)"), two spaces, every candidate's `ClassificationText` ("Label: id", "Score: s") in order, a line break and `Separator`. No results give just the two header lines. |
| JsLib.MMProcessor.FormatResults | js_lib/src/mm_processor.cpp:123-125 | `format_results` is the table of its results. |
| JsLib.TableAppend | js_lib/src/mm_processor.cpp:14-29 | Appending a result appends exactly that result's row and nothing else to the table. |
| JsLib.RowAt | js_lib/src/mm_processor.cpp:14-29 | The table is the table of the results before i, then result i's row, then the rows of the results after i, so rows appear in result order. |
| JsLib.RowsStep | js_lib/src/mm_processor.cpp:14-29 | The rows of the first i + 1 results are the rows of the first i, then row i. |
| JsLib.ClassificationsStep | js_lib/src/mm_processor.cpp:22-25 | The classification column of the first j + 1 candidates is that of the first j, then candidate j's two lines. |
| JsLib.TableOfOne | js_lib/src/mm_processor.cpp:11-29 | The table of one result is the two header lines followed by its row. |
| JsLib.SmallIntTexts | js_lib/src/mm_processor.cpp:16-19 | 3, 7, 10 and 100 are written as "3", "7", "10" and "100". |
| JsLib.ExampleDetectionText | js_lib/src/mm_processor.cpp:16-19 | The detection column for label 3 and box (10, 10, 100, 100) reads "Label: 3", the score line, then "BBox: (10, 10, 100, 100)". |
| JsLib.ExampleClassificationsText | js_lib/src/mm_processor.cpp:22-25 | The classification column for a single candidate with label 7 is "Label: 7" followed by its score line. |
| JsLib.EndToEnd | native_app/src/main.cpp:28-31 | For a 640x480 image with one unmasked detection at (10, 10)-(110, 110), processing then formatting gives exactly one result with box (10, 10, 100, 100) and the classifier's single candidate. Its text is the header lines, that row and a separator. |
| JsLib.MMProcessor.constructor | js_lib/include/js_lib/mm_processor.h:41-42 | The processor holds the detector and classifier it is given. |
| Text.NatToString | js_lib/src/mm_processor.cpp:16-19 | A natural number is written as a non-empty run of digits with no leading zero. |
| Text.NatToStringRoundTrip | js_lib/src/mm_processor.cpp:16-19 | Reading the digits back gives the number. |
| Text.IntToStringShape | js_lib/src/mm_processor.cpp:16-23 | `IntToString`, the text `<<` writes for an `int`: a '-' comes first exactly for negative integers, followed by digits with no leading zero except for 0. |
| Text.IntToStringRoundTrip | js_lib/src/mm_processor.cpp:16-23 | The `IntToString` text parses back to the integer. |
| Text.IntToStringInjective | js_lib/src/mm_processor.cpp:16-19 | Distinct integers (label ids, box coordinates) get distinct texts. |
| Text.JoinConcat | js_lib/src/mm_processor.cpp:14-29 | Joining a concatenation of lists is joining each part, one after the other. |
| Cv.FromBuffer | js_lib/src/mm_processor.cpp:72 | `cv::Mat(h, w, CV_8UC1, data)` is a valid h x w matrix of that type. |
| Cv.FromBufferAt | js_lib/src/mm_processor.cpp:72 | Element (r, c) is buffer element r * w + c, which lies within the first h * w elements. |
| Cv.Resize | js_lib/src/mm_processor.cpp:73 | The output has exactly the requested size and the source's type. It is the source itself when the sizes already agree. |
| Cv.ConvertTo | js_lib/src/mm_processor.cpp:110 | Same shape and channel count. Every element is the source element saturated to the new depth (`Saturate`): it fits the depth, is kept when it already fits, and otherwise becomes the nearest bound. |
| Cv.Saturate | js_lib/src/mm_processor.cpp:110 | A representable value is kept. Any other value becomes the nearest bound of the depth. |
| Cv.Crop | js_lib/src/mm_processor.cpp:82 | The crop has the rectangle's size and the image's type, and element (r, c) is the image's element (y + r, x + c). |
| Cv.CropWhole | js_lib/src/mm_processor.cpp:82 | Cropping to the whole image gives the image. |
| Cv.CopyToMasked | js_lib/src/mm_processor.cpp:115-116 | The result has the source's size and type. It is 0 wherever the mask is 0 and the source element wherever the mask is non-zero. |
| Cv.CopyToMaskedAllSet | js_lib/src/mm_processor.cpp:115-116 | A mask set everywhere copies the whole source. |
| Cv.CopyToMaskedAllClear | js_lib/src/mm_processor.cpp:115-116 | A mask clear everywhere gives the all-black matrix of the source's shape and type. |
| Cv.SameElements | js_lib/src/mm_processor.cpp:115-116 | Matrices of the same type and shape that agree element-wise are equal. |

## Left out

- The constructor's model loading (js_lib/src/mm_processor.cpp:38-51) goes through mmdeploy, a foreign library. `MMProcessor.constructor` takes the loaded detector and classifier as functions instead.
- mmdeploy's detector and classifier are Dafny function values. Beyond their record types nothing is assumed about their outputs, except that they are deterministic and stateless: the same image always gives the same output. The C++ instances may keep state between calls; the model does not capture that.
- JsLib.MMProcessor.ProcessImage: a failing `Detector::Apply` or `Classifier::Apply` is not modelled, because the two models are total functions. In C++ such a failure throws out of `process_image`, which has no handler, so no result list at all comes back, not even a partial one. The model always returns the full list.
- OpenCV's interpolation numerics (INTER_LINEAR in `resize`) are a kernel parameter. `convertTo`'s rounding of floating-point elements is not modelled, because pixels are integers.
- Cv.Resize: states only the output's shape and type, plus identity when the size is unchanged. The values a kernel produces are left abstract, and they are not range-limited: OpenCV saturates resampled values to the destination depth, but a model kernel may return any integer. A resized CV_8UC1 matrix (such as the mask `ConvertDetection` produces) may therefore hold values outside 0..255. Likewise `Mat.Valid` does not tie element values to the depth. No lemma relies on the range, since every lemma holds for every kernel.
- Multi-channel pixels are a single integer each. Masks are single-channel.
- Scores are `real`. The `float` width of `DetectionResult::score` and the text `std::stringstream` writes for a float are left out; the score text is a `ScoreText` parameter.
- Errors OpenCV would raise are preconditions (`Processable`, `RegionDefined`), not modelled error paths, because the C++ code has no checks of its own. These are:
  - a box with non-positive width or height, or reaching outside the image;
  - a mask with a non-positive extent;
  - an empty image with a mask.
- A mask buffer shorter than height x width is excluded by `UsableMask`. OpenCV raises nothing there: `cv::Mat(h, w, CV_8UC1, data)` wraps the pointer unchecked, and reading past the buffer is undefined behaviour.
- JsLib.ConvertDetection: the box width and height are the exact differences of the corners, truncated. The C++ code subtracts the `float` corners in `float` first, which rounds. For left = 0.1f and right = 100.1f the `float` difference is 100.0f, so C++ gives width 100 where the model gives 99. The model also leaves out the undefined behaviour of converting a corner or difference outside the `int` range.
- JsLib.ToRect: the same gap; it is the conversion `ConvertDetection` uses.
- Aliasing of `cv::Mat` headers (`resized_mask = mask`, `binary_mask = resized_mask`) cannot be observed: `slice_tensor_by_mask` writes only freshly allocated matrices (`resized_mask` when resampled, `binary_mask` when converted, `masked` and `roi`), never `image` or `mask`. Matrices are therefore values, and the input image is unchanged by construction.
- Newline counts and line-by-line structure of the table are not stated as separate lemmas. The table is characterised exactly by `Table`, `TableAppend` and `RowAt` instead.
- The command-line program (native_app/src/main.cpp) is not part of this model: its argument handling, image I/O and drawing. `EndToEnd` only mirrors its call sequence (process, then format).
- The loggers, the Python bindings and the smoke tests are not part of this model.
