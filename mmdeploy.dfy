/** The result records of the mmdeploy detector and classifier as the
    processor receives them. The models themselves are opaque: a detector is
    any function from an image to its detections, a classifier any function
    from a region to its ranked candidates. */
module Mmdeploy {
  import Cv

  /** A nullable pointer. */
  datatype Option<+T> = None | Some(value: T)

  /** An 8-bit buffer element. */
  type Byte = x: int | 0 <= x < 0x100

  /** `mmdeploy_rect_t`: box corners in image pixels, as floating-point values. */
  datatype Rect = Rect(left: real, top: real, right: real, bottom: real)

  /** `mmdeploy_instance_mask_t`: a row-major 8-bit buffer (possibly null)
      with its height and width. */
  datatype InstanceMask = InstanceMask(data: Option<seq<Byte>>, height: int, width: int)

  /** `mmdeploy_detection_t`: one detected object; `mask` is null when the
      model does not segment. */
  datatype Detection = Detection(bbox: Rect, labelId: int, score: real, mask: Option<InstanceMask>)

  /** `mmdeploy_classification_t`: one classification candidate. */
  datatype Classification = Classification(labelId: int, score: real)

  /** `mmdeploy::Detector::Apply`, in the detector's emission order. */
  type DetectorModel = Cv.Mat -> seq<Detection>

  /** `mmdeploy::Classifier::Apply`, in the classifier's ranking order. */
  type ClassifierModel = Cv.Mat -> seq<Classification>
}
