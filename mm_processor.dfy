/** The processor of js_lib: it runs a detector on an image, extracts one
    224x224 region per detection (mask-guided when the detector segments,
    box-cropped otherwise), classifies every region, and renders the results
    as a text table. */
module JsLib {
  import Cv
  import Mmdeploy
  import opened Text

  /** `MMProcessor::DetectionResult`. An empty `mask` means "no mask". */
  datatype DetectionResult = DetectionResult(mask: Cv.Mat, bbox: Cv.Rect, score: real, labelId: int)

  /** `MMProcessor::ProcessResult`: a detection and the classifier's candidates
      for its region, in the classifier's order. */
  datatype ProcessResult = ProcessResult(detection: DetectionResult, classifications: seq<Mmdeploy.Classification>)

  /** The classifier's input size: the default `target_size` of
      `slice_tensor_by_mask` and the size a box crop is resized to. */
  const RegionSize: Cv.Size := Cv.Size(224, 224)

  // ---------------------------------------------------------------------
  // Detection conversion

  /** C++ conversion of a floating-point value to `int`: truncation toward zero. */
  function Trunc(x: real): (n: int)
    ensures 0.0 <= x ==> 0 <= n && n as real <= x < n as real + 1.0
    ensures x < 0.0 ==> n <= 0 && n as real - 1.0 < x <= n as real
  {
    if x >= 0.0 then x.Floor else -((-x).Floor)
  }

  /** `cv::Rect(left, top, right - left, bottom - top)` over the detector's
      floating-point corners: each argument is truncated to `int` once. The
      differences are taken exactly here; the C++ code takes them in `float`,
      which rounds. */
  function ToRect(b: Mmdeploy.Rect): Cv.Rect {
    Cv.Rect(Trunc(b.left), Trunc(b.top), Trunc(b.right - b.left), Trunc(b.bottom - b.top))
  }

  /** For corners on whole pixels the conversion is exact: x = left, y = top,
      width = right - left, height = bottom - top. */
  lemma ToRectWholePixels(left: int, top: int, right: int, bottom: int)
    ensures ToRect(Mmdeploy.Rect(left as real, top as real, right as real, bottom as real))
         == Cv.Rect(left, top, right - left, bottom - top)
  {
  }

  /** The detector supplied a mask and the mask has data. */
  predicate HasMaskData(det: Mmdeploy.Detection) {
    det.mask.Some? && det.mask.value.data.Some?
  }

  /** A mask buffer OpenCV can wrap and resize: a positive extent that the
      buffer covers. */
  predicate UsableMask(m: Mmdeploy.InstanceMask) {
    m.data.Some? && m.height > 0 && m.width > 0 && m.height * m.width <= |m.data.value|
  }

  /** `cv::Mat(height, width, CV_8UC1, data)` over the detector's buffer. */
  function MaskMat(m: Mmdeploy.InstanceMask): (mat: Cv.Mat)
    requires UsableMask(m)
    ensures mat.Valid() && mat.typ == Cv.CV_8UC1 && !mat.Empty()
    ensures mat.rows == m.height && mat.cols == m.width
  {
    Cv.FromBuffer(Cv.CV_8UC1, m.height, m.width, m.data.value)
  }

  /** What `process_image` needs of a detection for OpenCV to accept it: the
      mask it uses has a usable buffer and the image has pixels; the box it
      crops to (when there is no mask) has a positive extent inside the image. */
  predicate Processable(det: Mmdeploy.Detection, image: Cv.Mat) {
    if HasMaskData(det) then UsableMask(det.mask.value) && !image.Empty()
    else
      var b := ToRect(det.bbox);
      b.width > 0 && b.height > 0 && Cv.Inside(b, image)
  }

  /** What region extraction needs of a converted detection. */
  predicate RegionDefined(image: Cv.Mat, d: DetectionResult) {
    image.Valid() &&
    if !d.mask.Empty() then d.mask.Valid() && d.mask.typ.channels == 1 && !image.Empty()
    else d.bbox.width > 0 && d.bbox.height > 0 && Cv.Inside(d.bbox, image)
  }

  /** The `DetectionResult` filled in for one detection: label and score
      copied, the box converted, and the mask kept, resampled to the image's
      size, only when the detector supplied one with data. */
  function ConvertDetection(det: Mmdeploy.Detection, image: Cv.Mat, linear: Cv.Sampler): (d: DetectionResult)
    requires image.Valid() && Processable(det, image)
    ensures d.labelId == det.labelId && d.score == det.score && d.bbox == ToRect(det.bbox)
    ensures !d.mask.Empty() <==> HasMaskData(det)
    ensures !HasMaskData(det) ==> d.mask == Cv.EmptyMat
    ensures HasMaskData(det) ==>
      d.mask.Valid() && d.mask.Dims() == image.Dims() && d.mask.typ == Cv.CV_8UC1 &&
      (MaskMat(det.mask.value).Dims() == image.Dims() ==> d.mask == MaskMat(det.mask.value))
    ensures RegionDefined(image, d)
  {
    var mask := if HasMaskData(det) then Cv.Resize(MaskMat(det.mask.value), image.Dims(), linear) else Cv.EmptyMat;
    DetectionResult(mask, ToRect(det.bbox), det.score, det.labelId)
  }

  // ---------------------------------------------------------------------
  // Mask-guided extraction (`slice_tensor_by_mask`)

  /** The mask brought to the image's size and to CV_8UC1: it is resampled
      only when its size differs from the image's and converted only when its
      type is not CV_8UC1. */
  function BinaryMask(image: Cv.Mat, mask: Cv.Mat, linear: Cv.Sampler): (bm: Cv.Mat)
    requires image.Valid() && !image.Empty()
    requires mask.Valid() && !mask.Empty() && mask.typ.channels == 1
    ensures bm.Valid() && bm.Dims() == image.Dims() && Cv.IsMask8U(bm)
    ensures mask.Dims() == image.Dims() && mask.typ == Cv.CV_8UC1 ==> bm == mask
    ensures mask.Dims() != image.Dims() && mask.typ == Cv.CV_8UC1 ==> bm == Cv.Resize(mask, image.Dims(), linear)
    ensures mask.Dims() == image.Dims() && mask.typ != Cv.CV_8UC1 ==>
      forall r, c | 0 <= r < image.rows && 0 <= c < image.cols ::
        bm.At(r, c) == Cv.Saturate(Cv.U8, mask.At(r, c))
    ensures mask.Dims() != image.Dims() && mask.typ != Cv.CV_8UC1 ==>
      var resized := Cv.Resize(mask, image.Dims(), linear);
      forall r, c | 0 <= r < image.rows && 0 <= c < image.cols ::
        bm.At(r, c) == Cv.Saturate(Cv.U8, resized.At(r, c))
  {
    var resizedMask := if mask.Dims() != image.Dims() then Cv.Resize(mask, image.Dims(), linear) else mask;
    if resizedMask.typ != Cv.CV_8UC1 then Cv.ConvertTo(resizedMask, Cv.U8) else resizedMask
  }

  /** `slice_tensor_by_mask`: the image with every pixel outside the mask
      blacked out, resampled as a whole to `targetSize`. */
  function SliceTensorByMask(image: Cv.Mat, mask: Cv.Mat, targetSize: Cv.Size, linear: Cv.Sampler): (roi: Cv.Mat)
    requires image.Valid() && !image.Empty()
    requires mask.Valid() && !mask.Empty() && mask.typ.channels == 1
    requires targetSize.HasArea()
    ensures roi.Valid() && roi.Dims() == targetSize && roi.typ == image.typ
  {
    var masked := Cv.CopyToMasked(image, BinaryMask(image, mask, linear));
    Cv.Resize(masked, targetSize, linear)
  }

  /** The masked image before resampling is black exactly where the 8-bit
      mask is zero and the source pixel elsewhere; this is the image
      `slice_tensor_by_mask` resamples. */
  lemma SliceTensorByMaskFidelity(image: Cv.Mat, mask: Cv.Mat, targetSize: Cv.Size, linear: Cv.Sampler)
    requires image.Valid() && !image.Empty()
    requires mask.Valid() && !mask.Empty() && mask.typ.channels == 1
    requires targetSize.HasArea()
    ensures var bm := BinaryMask(image, mask, linear);
      exists masked: Cv.Mat ::
        masked.Valid() && masked.Dims() == image.Dims() && masked.typ == image.typ &&
        !masked.Empty() &&
        SliceTensorByMask(image, mask, targetSize, linear) == Cv.Resize(masked, targetSize, linear) &&
        (forall r, c | 0 <= r < image.rows && 0 <= c < image.cols ::
          (bm.At(r, c) == 0 ==> masked.At(r, c) == 0) &&
          (bm.At(r, c) != 0 ==> masked.At(r, c) == image.At(r, c)))
  {
  }

  /** The extracted region depends only on the pixels under the mask: two
      images of the same size and type that agree wherever the 8-bit mask is
      set give the same region. */
  lemma SliceTensorByMaskIgnoresMaskedOut(image1: Cv.Mat, image2: Cv.Mat, mask: Cv.Mat, targetSize: Cv.Size, linear: Cv.Sampler)
    requires image1.Valid() && !image1.Empty() && image2.Valid()
    requires image2.Dims() == image1.Dims() && image2.typ == image1.typ
    requires mask.Valid() && !mask.Empty() && mask.typ.channels == 1
    requires targetSize.HasArea()
    requires var bm := BinaryMask(image1, mask, linear);
      forall r, c | 0 <= r < image1.rows && 0 <= c < image1.cols ::
        bm.At(r, c) != 0 ==> image1.At(r, c) == image2.At(r, c)
    ensures SliceTensorByMask(image1, mask, targetSize, linear) == SliceTensorByMask(image2, mask, targetSize, linear)
  {
    var bm := BinaryMask(image1, mask, linear);
    assert BinaryMask(image2, mask, linear) == bm;
    Cv.SameElements(Cv.CopyToMasked(image1, bm), Cv.CopyToMasked(image2, bm));
  }

  /** A CV_8UC1 mask of the image's own size that is set everywhere blacks out
      nothing: the region is the whole image resampled. */
  lemma SliceTensorByMaskAllSet(image: Cv.Mat, mask: Cv.Mat, targetSize: Cv.Size, linear: Cv.Sampler)
    requires image.Valid() && !image.Empty()
    requires mask.Valid() && mask.typ == Cv.CV_8UC1 && mask.Dims() == image.Dims()
    requires targetSize.HasArea()
    requires Cv.AllSet(mask)
    ensures SliceTensorByMask(image, mask, targetSize, linear) == Cv.Resize(image, targetSize, linear)
  {
    assert BinaryMask(image, mask, linear) == mask;
    Cv.CopyToMaskedAllSet(image, mask);
  }

  /** A CV_8UC1 mask of the image's own size that is clear everywhere blacks
      out everything: the region is an all-black image resampled, whatever the
      image shows. */
  lemma SliceTensorByMaskAllClear(image: Cv.Mat, mask: Cv.Mat, targetSize: Cv.Size, linear: Cv.Sampler)
    requires image.Valid() && !image.Empty()
    requires mask.Valid() && mask.typ == Cv.CV_8UC1 && mask.Dims() == image.Dims()
    requires targetSize.HasArea()
    requires Cv.AllClear(mask)
    ensures SliceTensorByMask(image, mask, targetSize, linear)
         == Cv.Resize(Cv.Zeros(image.typ, image.rows, image.cols), targetSize, linear)
  {
    assert BinaryMask(image, mask, linear) == mask;
    Cv.CopyToMaskedAllClear(image, mask);
  }

  // ---------------------------------------------------------------------
  // Region selection

  /** The classifier's input for one converted detection: the mask-guided
      region when the detection has a mask, otherwise the box crop resized to
      224x224. Either way it is 224x224 and of the image's type. */
  function Region(image: Cv.Mat, d: DetectionResult, linear: Cv.Sampler): (roi: Cv.Mat)
    requires RegionDefined(image, d)
    ensures roi.Valid() && roi.Dims() == RegionSize && roi.typ == image.typ
  {
    if !d.mask.Empty() then SliceTensorByMask(image, d.mask, RegionSize, linear)
    else Cv.Resize(Cv.Crop(image, d.bbox), RegionSize, linear)
  }

  /** Without a mask the region is the crop under the converted box, resized. */
  lemma RegionWithoutMask(det: Mmdeploy.Detection, image: Cv.Mat, linear: Cv.Sampler)
    requires image.Valid() && Processable(det, image) && !HasMaskData(det)
    ensures var d := ConvertDetection(det, image, linear);
      Region(image, d, linear) == Cv.Resize(Cv.Crop(image, ToRect(det.bbox)), RegionSize, linear)
  {
  }

  /** With mask data the classifier sees the image blacked out outside the
      resized mask and resampled to 224x224: the resized mask is already
      CV_8UC1 at the image's size, so it is used as it is. */
  lemma RegionWithMask(det: Mmdeploy.Detection, image: Cv.Mat, linear: Cv.Sampler)
    requires image.Valid() && Processable(det, image) && HasMaskData(det)
    ensures var d := ConvertDetection(det, image, linear);
      Region(image, d, linear) == Cv.Resize(Cv.CopyToMasked(image, d.mask), RegionSize, linear)
  {
  }

  /** A mask buffer whose every element is non-zero wraps into a matrix that
      is set everywhere. */
  lemma MaskMatAllSet(m: Mmdeploy.InstanceMask)
    requires UsableMask(m)
    requires forall k | 0 <= k < m.height * m.width :: m.data.value[k] != 0
    ensures Cv.AllSet(MaskMat(m))
  {
    var mat := MaskMat(m);
    forall r, c | 0 <= r < mat.rows && 0 <= c < mat.cols
      ensures mat.At(r, c) != 0
    {
      Cv.FromBufferAt(Cv.CV_8UC1, m.height, m.width, m.data.value, r, c);
      var k := r * m.width + c;
      assert m.data.value[k] != 0;
    }
  }

  /** A detection whose mask buffer has the image's own size and is non-zero
      everywhere yields the same region as a box covering the whole image
      without a mask: the whole image resized to 224x224. */
  lemma RegionWithFullMask(det: Mmdeploy.Detection, image: Cv.Mat, linear: Cv.Sampler)
    requires image.Valid() && Processable(det, image) && HasMaskData(det)
    requires det.mask.value.height == image.rows && det.mask.value.width == image.cols
    requires forall k | 0 <= k < image.rows * image.cols :: det.mask.value.data.value[k] != 0
    ensures Region(image, ConvertDetection(det, image, linear), linear) == Cv.Resize(image, RegionSize, linear)
    ensures Region(image, ConvertDetection(det, image, linear), linear)
         == Region(image, DetectionResult(Cv.EmptyMat, Cv.Rect(0, 0, image.cols, image.rows), det.score, det.labelId), linear)
  {
    var mat := MaskMat(det.mask.value);
    MaskMatAllSet(det.mask.value);
    var d := ConvertDetection(det, image, linear);
    assert d.mask == mat;
    SliceTensorByMaskAllSet(image, mat, RegionSize, linear);
    assert Region(image, d, linear) == Cv.Resize(image, RegionSize, linear);
    Cv.CropWhole(image);
  }

  // ---------------------------------------------------------------------
  // The results table (`format_results_table`)

  /** Text of a score; the floating-point formatting of `std::stringstream`
      is left abstract. */
  type ScoreText = real -> string

  const Header: string := "Detection                                  Classification\n"
  const Separator: string := "----------------------------------------  ----------------------------------------\n"

  /** The detection column of one row (three lines, the last without a break). */
  function DetectionText(d: DetectionResult, showScore: ScoreText): string {
    "Label: " + IntToString(d.labelId) + "\n" +
    "Score: " + showScore(d.score) + "\n" +
    "BBox: (" + IntToString(d.bbox.x) + ", " + IntToString(d.bbox.y) + ", " +
    IntToString(d.bbox.width) + ", " + IntToString(d.bbox.height) + ")"
  }

  /** Two lines for one classification candidate. */
  function ClassificationText(c: Mmdeploy.Classification, showScore: ScoreText): string {
    "Label: " + IntToString(c.labelId) + "\n" + "Score: " + showScore(c.score) + "\n"
  }

  /** The classification column: every candidate's lines, in order. */
  function ClassificationsText(cs: seq<Mmdeploy.Classification>, showScore: ScoreText): string {
    Join(cs, showScore, ClassificationText)
  }

  /** The line of one result: detection column, two spaces, classification
      column and a line break. */
  function ResultLine(r: ProcessResult, showScore: ScoreText): string {
    DetectionText(r.detection, showScore) + "  " + ClassificationsText(r.classifications, showScore) + "\n"
  }

  /** One result's row: its line, then a separator line. */
  function ResultRow(r: ProcessResult, showScore: ScoreText): string {
    ResultLine(r, showScore) + Separator
  }

  /** Every result's row, in order. */
  function Rows(rs: seq<ProcessResult>, showScore: ScoreText): string {
    Join(rs, showScore, ResultRow)
  }

  /** The whole table: the header line and a separator, then every row. An
      empty result list gives just the two header lines. */
  function Table(rs: seq<ProcessResult>, showScore: ScoreText): string {
    Header + Separator + Rows(rs, showScore)
  }

  /** Appending a result appends exactly its row to the table. */
  lemma TableAppend(rs: seq<ProcessResult>, r: ProcessResult, showScore: ScoreText)
    ensures Table(rs + [r], showScore) == Table(rs, showScore) + ResultRow(r, showScore)
  {
    RowsStep(rs + [r], |rs|, showScore);
    assert (rs + [r])[..|rs|] == rs;
    assert (rs + [r])[..|rs| + 1] == rs + [r];
    AppendAssoc(Header + Separator, Rows(rs, showScore), ResultRow(r, showScore));
  }

  /** Result i's row stands in the table right after the table of the
      results before it and right before the rows of the results after it, so
      the rows appear in the order of the results. */
  lemma RowAt(rs: seq<ProcessResult>, i: int, showScore: ScoreText)
    requires 0 <= i < |rs|
    ensures Table(rs, showScore) == Table(rs[..i], showScore) + ResultRow(rs[i], showScore) + Rows(rs[i + 1..], showScore)
  {
    assert rs == rs[..i + 1] + rs[i + 1..];
    JoinConcat(rs[..i + 1], rs[i + 1..], showScore, ResultRow);
    RowsStep(rs, i, showScore);
    var pre := Header + Separator;
    var before := Rows(rs[..i], showScore);
    var row := ResultRow(rs[i], showScore);
    var after := Rows(rs[i + 1..], showScore);
    AppendAssoc(pre, before + row, after);
    AppendAssoc(pre, before, row);
  }

  lemma RowsStep(rs: seq<ProcessResult>, i: int, showScore: ScoreText)
    requires 0 <= i < |rs|
    ensures Rows(rs[..i + 1], showScore) == Rows(rs[..i], showScore) + ResultRow(rs[i], showScore)
  {
    assert rs[..i + 1][..i] == rs[..i];
  }

  lemma ClassificationsStep(cs: seq<Mmdeploy.Classification>, j: int, showScore: ScoreText)
    requires 0 <= j < |cs|
    ensures ClassificationsText(cs[..j + 1], showScore) == ClassificationsText(cs[..j], showScore) + ClassificationText(cs[j], showScore)
  {
    assert cs[..j + 1][..j] == cs[..j];
  }

  /** `format_results_table`: the header, then for every result its detection
      text, two spaces, its classifications' text, a line break and a
      separator, accumulated in order. No results give just the two header
      lines. */
  method FormatResultsTable(results: seq<ProcessResult>, showScore: ScoreText) returns (output: string)
    ensures output == Table(results, showScore)
    ensures results == [] ==> output == Header + Separator
  {
    output := Header;
    output := output + Separator;
    for i := 0 to |results|
      invariant output == Header + Separator + Rows(results[..i], showScore)
    {
      var result := results[i];
      var detText := DetectionText(result.detection, showScore);
      var clsText := "";
      for j := 0 to |result.classifications|
        invariant clsText == ClassificationsText(result.classifications[..j], showScore)
      {
        var cls := result.classifications[j];
        var entry := "Label: " + IntToString(cls.labelId) + "\n" + "Score: " + showScore(cls.score) + "\n";
        ClassificationsStep(result.classifications, j, showScore);
        clsText := clsText + entry;
      }
      assert result.classifications[..|result.classifications|] == result.classifications;
      var line := detText + "  " + clsText + "\n";
      assert line == ResultLine(result, showScore);
      ghost var before := output;
      output := output + line;
      output := output + Separator;
      RowsStep(results, i, showScore);
      AppendAssoc(before, line, Separator);
      AppendAssoc(Header + Separator, Rows(results[..i], showScore), ResultRow(result, showScore));
    }
    assert results[..|results|] == results;
  }

  // ---------------------------------------------------------------------
  // The processor

  /** `js_lib::MMProcessor`: a loaded detector and classifier. */
  class MMProcessor {
    const detector: Mmdeploy.DetectorModel
    const classifier: Mmdeploy.ClassifierModel

    /** Holds the two loaded models. */
    constructor (detector: Mmdeploy.DetectorModel, classifier: Mmdeploy.ClassifierModel)
      ensures this.detector == detector && this.classifier == classifier
    {
      this.detector := detector;
      this.classifier := classifier;
    }

    /** `process_image`: one result per detection, in the detector's order;
      each holds the converted detection and the classifier's candidates for
      that detection's 224x224 region. */
    method ProcessImage(image: Cv.Mat, linear: Cv.Sampler) returns (results: seq<ProcessResult>)
      requires image.Valid()
      requires forall det | det in detector(image) :: Processable(det, image)
      ensures |results| == |detector(image)|
      ensures forall i | 0 <= i < |results| ::
        results[i].detection == ConvertDetection(detector(image)[i], image, linear) &&
        results[i].classifications == classifier(Region(image, results[i].detection, linear))
    {
      results := [];
      var detections := detector(image);
      for i := 0 to |detections|
        invariant |results| == i
        invariant forall k | 0 <= k < i ::
          results[k].detection == ConvertDetection(detections[k], image, linear) &&
          results[k].classifications == classifier(Region(image, results[k].detection, linear))
      {
        var det := detections[i];
        assert det in detections;
        var detection := DetectionResult(Cv.EmptyMat, ToRect(det.bbox), det.score, det.labelId);
        if det.mask.Some? && det.mask.value.data.Some? {
          var mask := MaskMat(det.mask.value);
          mask := Cv.Resize(mask, image.Dims(), linear);
          detection := detection.(mask := mask);
        }
        var roi;
        if !detection.mask.Empty() {
          roi := SliceTensorByMask(image, detection.mask, RegionSize, linear);
        } else {
          roi := Cv.Crop(image, detection.bbox);
          roi := Cv.Resize(roi, Cv.Size(224, 224), linear);
        }
        var classifications := classifier(roi);
        results := results + [ProcessResult(detection, classifications)];
      }
    }

    /** `format_results`: the results table. */
    method FormatResults(results: seq<ProcessResult>, showScore: ScoreText) returns (text: string)
      ensures text == Table(results, showScore)
    {
      text := FormatResultsTable(results, showScore);
    }
  }

  // ---------------------------------------------------------------------
  // End to end

  /** The texts of the integers in the example below. */
  lemma SmallIntTexts()
    ensures IntToString(3) == "3" && IntToString(7) == "7"
    ensures IntToString(10) == "10" && IntToString(100) == "100"
  {
  }

  /** The detection column of the example's row. */
  lemma ExampleDetectionText(showScore: ScoreText)
    ensures DetectionText(DetectionResult(Cv.EmptyMat, Cv.Rect(10, 10, 100, 100), 0.91, 3), showScore)
         == "Label: 3\nScore: " + showScore(0.91) + "\nBBox: (10, 10, 100, 100)"
  {
    SmallIntTexts();
  }

  /** The classification column of the example's row. */
  lemma ExampleClassificationsText(showScore: ScoreText)
    ensures ClassificationsText([Mmdeploy.Classification(7, 0.88)], showScore)
         == "Label: 7\nScore: " + showScore(0.88) + "\n"
  {
    SmallIntTexts();
  }

  /** The table of a single result: the header lines, then its row. */
  lemma TableOfOne(r: ProcessResult, showScore: ScoreText)
    ensures Table([r], showScore) == Header + Separator + ResultRow(r, showScore)
  {
    TableAppend([], r, showScore);
    assert [] + [r] == [r];
    assert Table([], showScore) == Header + Separator;
  }

  /** A 640x480 image, a detector reporting one unmasked object with label 3,
      score 0.91 and corners (10, 10)-(110, 110), and a classifier answering
      label 7 with score 0.88 for any region: processing gives exactly one
      result carrying those values, and its table is the header lines followed
      by one row and its separator. */
  method EndToEnd(linear: Cv.Sampler, showScore: ScoreText) returns (results: seq<ProcessResult>, text: string)
    ensures results == [ProcessResult(DetectionResult(Cv.EmptyMat, Cv.Rect(10, 10, 100, 100), 0.91, 3),
                                      [Mmdeploy.Classification(7, 0.88)])]
    ensures text == Header + Separator +
      (("Label: 3\nScore: " + showScore(0.91) + "\nBBox: (10, 10, 100, 100)") + "  " +
       ("Label: 7\nScore: " + showScore(0.88) + "\n") + "\n" + Separator)
  {
    var image := Cv.Mat(Cv.CV_8UC3, 480, 640, seq(480, _ => seq(640, _ => 0)));
    var det := Mmdeploy.Detection(Mmdeploy.Rect(10.0, 10.0, 110.0, 110.0), 3, 0.91, Mmdeploy.None);
    var cls := Mmdeploy.Classification(7, 0.88);
    var processor := new MMProcessor(_ => [det], _ => [cls]);
    assert ToRect(det.bbox) == Cv.Rect(10, 10, 100, 100) by {
      ToRectWholePixels(10, 10, 110, 110);
    }
    results := processor.ProcessImage(image, linear);
    text := processor.FormatResults(results, showScore);
    ExampleDetectionText(showScore);
    ExampleClassificationsText(showScore);
    TableOfOne(results[0], showScore);
  }
}
