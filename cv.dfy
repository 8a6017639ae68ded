/** A value model of the parts of OpenCV's `cv::Mat` that the processor uses.
    A matrix is a grid of integer elements, one element per pixel (all channels
    of a pixel are one value and black is 0). Resampling is left abstract:
    every resize takes the interpolation kernel as a `Sampler`, and the model
    promises only what OpenCV promises about the output's shape. */
module Cv {

  /** Element depth of a matrix (OpenCV's CV_8U … CV_64F). */
  datatype Depth = U8 | S8 | U16 | S16 | S32 | F32 | F64

  /** Element type: a depth and a channel count (CV_8UC1, CV_8UC3, …). */
  datatype MatType = MatType(depth: Depth, channels: nat)

  const CV_8UC1: MatType := MatType(U8, 1)
  const CV_8UC3: MatType := MatType(U8, 3)

  /** `cv::Size`: width first, then height. */
  datatype Size = Size(width: nat, height: nat) {
    predicate HasArea() { width > 0 && height > 0 }
  }

  /** `cv::Rect` (integer coordinates): top-left corner and extent. */
  datatype Rect = Rect(x: int, y: int, width: int, height: int)

  /** A matrix of `rows` x `cols` elements of type `typ`, stored row by row. */
  datatype Mat = Mat(typ: MatType, rows: nat, cols: nat, data: seq<seq<int>>) {

    predicate Valid() {
      |data| == rows && forall r | 0 <= r < |data| :: |data[r]| == cols
    }

    /** `mat.size()` */
    function Dims(): Size { Size(cols, rows) }

    /** `mat.empty()`: a matrix with no elements. */
    predicate Empty() { rows == 0 || cols == 0 }

    /** `mat.at(r, c)` */
    function At(r: int, c: int): int
      requires Valid() && 0 <= r < rows && 0 <= c < cols
    {
      data[r][c]
    }
  }

  /** A default-constructed `cv::Mat`: no elements, type 0 (CV_8UC1). */
  const EmptyMat: Mat := Mat(CV_8UC1, 0, 0, [])

  /** An interpolation kernel: the value of destination element (r, c) when
      `src` is resampled to `dsize`. OpenCV's INTER_LINEAR is one such kernel. */
  type Sampler = (Mat, Size, int, int) -> int

  /** Values representable at a depth. Floating depths hold every value the
      model can express. */
  predicate Fits(depth: Depth, v: int) {
    match depth
    case U8 => 0 <= v < 0x100
    case S8 => -0x80 <= v < 0x80
    case U16 => 0 <= v < 0x1_0000
    case S16 => -0x8000 <= v < 0x8000
    case S32 => -0x8000_0000 <= v < 0x8000_0000
    case F32 => true
    case F64 => true
  }

  function Clamp(lo: int, hi: int, v: int): int
    requires lo <= hi
  {
    if v < lo then lo else if hi < v then hi else v
  }

  /** `saturate_cast` to a depth: a representable value is kept, any other is
      clamped to the nearest bound. */
  function Saturate(depth: Depth, v: int): (r: int)
    ensures Fits(depth, r)
    ensures Fits(depth, v) ==> r == v
    ensures !Fits(depth, v) ==> forall w | Fits(depth, w) :: (v < r ==> r <= w) && (r < v ==> w <= r)
  {
    match depth
    case U8 => Clamp(0, 0xFF, v)
    case S8 => Clamp(-0x80, 0x7F, v)
    case U16 => Clamp(0, 0xFFFF, v)
    case S16 => Clamp(-0x8000, 0x7FFF, v)
    case S32 => Clamp(-0x8000_0000, 0x7FFF_FFFF, v)
    case F32 => v
    case F64 => v
  }

  /** `cv::Mat(rows, cols, type, data)`: a matrix over a caller's row-major
      element buffer. */
  function FromBuffer(typ: MatType, rows: nat, cols: nat, buf: seq<int>): (m: Mat)
    requires rows * cols <= |buf|
    ensures m.Valid() && m.typ == typ && m.rows == rows && m.cols == cols
  {
    Mat(typ, rows, cols,
        seq(rows, r requires 0 <= r < rows =>
          seq(cols, c requires 0 <= c < cols =>
            FlatIndexBound(r, c, rows, cols); buf[r * cols + c])))
  }

  lemma FlatIndexBound(r: int, c: int, rows: int, cols: int)
    requires 0 <= r < rows && 0 <= c < cols
    ensures 0 <= r * cols + c < rows * cols
  {
    assert (r + 1) * cols <= rows * cols by {
      MulMonotone(r + 1, rows, cols);
    }
  }

  lemma MulMonotone(a: int, b: int, k: int)
    requires 0 <= a <= b && 0 <= k
    ensures a * k <= b * k
  {
  }

  /** Element (r, c) of a matrix over a buffer is buffer element r * cols + c. */
  lemma FromBufferAt(typ: MatType, rows: nat, cols: nat, buf: seq<int>, r: int, c: int)
    requires rows * cols <= |buf|
    requires 0 <= r < rows && 0 <= c < cols
    ensures 0 <= r * cols + c < rows * cols
    ensures FromBuffer(typ, rows, cols, buf).At(r, c) == buf[r * cols + c]
  {
    FlatIndexBound(r, c, rows, cols);
  }

  /** `cv::resize(src, dst, dsize)`. OpenCV rejects an empty source or an
      empty destination size; when the sizes already agree it copies the
      source unchanged, and otherwise every destination element is sampled by
      the kernel. The element type is kept. */
  function Resize(src: Mat, dsize: Size, kernel: Sampler): (dst: Mat)
    requires src.Valid() && !src.Empty() && dsize.HasArea()
    ensures dst.Valid() && dst.Dims() == dsize && dst.typ == src.typ
    ensures src.Dims() == dsize ==> dst == src
  {
    if src.Dims() == dsize then src
    else
      Mat(src.typ, dsize.height, dsize.width,
          seq(dsize.height, r => seq(dsize.width, c => kernel(src, dsize, r, c))))
  }

  /** `src.convertTo(dst, depth)`: same shape and channel count, every element
      saturated to the new depth. */
  function ConvertTo(src: Mat, depth: Depth): (dst: Mat)
    requires src.Valid()
    ensures dst.Valid() && dst.Dims() == src.Dims()
    ensures dst.typ == MatType(depth, src.typ.channels)
    ensures forall r, c | 0 <= r < src.rows && 0 <= c < src.cols ::
      Fits(depth, dst.At(r, c)) && (Fits(depth, src.At(r, c)) ==> dst.At(r, c) == src.At(r, c))
    ensures forall r, c | 0 <= r < src.rows && 0 <= c < src.cols ::
      dst.At(r, c) == Saturate(depth, src.At(r, c))
  {
    Mat(MatType(depth, src.typ.channels), src.rows, src.cols,
        seq(src.rows, r requires 0 <= r < src.rows =>
          seq(src.cols, c requires 0 <= c < src.cols => Saturate(depth, src.data[r][c]))))
  }

  /** The rectangle lies inside the matrix (what `mat(rect)` asserts). */
  predicate Inside(rect: Rect, m: Mat) {
    0 <= rect.x && 0 <= rect.y && 0 <= rect.width && 0 <= rect.height &&
    rect.x + rect.width <= m.cols && rect.y + rect.height <= m.rows
  }

  /** `src(rect).clone()`: a fresh copy of the sub-matrix under the rectangle. */
  function Crop(src: Mat, rect: Rect): (roi: Mat)
    requires src.Valid() && Inside(rect, src)
    ensures roi.Valid() && roi.typ == src.typ
    ensures roi.Dims() == Size(rect.width, rect.height)
    ensures forall r, c | 0 <= r < rect.height && 0 <= c < rect.width ::
      roi.At(r, c) == src.At(rect.y + r, rect.x + c)
  {
    Mat(src.typ, rect.height, rect.width,
        seq(rect.height, r requires 0 <= r < rect.height =>
          src.data[rect.y + r][rect.x .. rect.x + rect.width]))
  }

  /** A mask OpenCV accepts for `copyTo`: single-channel 8-bit. */
  predicate IsMask8U(mask: Mat) {
    mask.typ == CV_8UC1
  }

  /** `src.copyTo(dst, mask)` into a freshly allocated `dst`: OpenCV allocates
      `dst` with the source's shape and type, fills it with zeros, then copies
      the source elements whose mask element is non-zero. */
  function CopyToMasked(src: Mat, mask: Mat): (dst: Mat)
    requires src.Valid() && mask.Valid() && IsMask8U(mask) && mask.Dims() == src.Dims()
    ensures dst.Valid() && dst.Dims() == src.Dims() && dst.typ == src.typ
    ensures forall r, c | 0 <= r < src.rows && 0 <= c < src.cols ::
      (mask.At(r, c) == 0 ==> dst.At(r, c) == 0) &&
      (mask.At(r, c) != 0 ==> dst.At(r, c) == src.At(r, c))
  {
    Mat(src.typ, src.rows, src.cols,
        seq(src.rows, r requires 0 <= r < src.rows =>
          seq(src.cols, c requires 0 <= c < src.cols =>
            if mask.data[r][c] != 0 then src.data[r][c] else 0)))
  }

  /** Every element of the matrix is non-zero. */
  predicate AllSet(m: Mat)
    requires m.Valid()
  {
    forall r, c | 0 <= r < m.rows && 0 <= c < m.cols :: m.At(r, c) != 0
  }

  /** Every element of the matrix is zero. */
  predicate AllClear(m: Mat)
    requires m.Valid()
  {
    forall r, c | 0 <= r < m.rows && 0 <= c < m.cols :: m.At(r, c) == 0
  }

  /** Two valid matrices of the same type and shape that agree element-wise
      are the same matrix. */
  lemma SameElements(a: Mat, b: Mat)
    requires a.Valid() && b.Valid() && a.typ == b.typ && a.Dims() == b.Dims()
    requires forall r, c | 0 <= r < a.rows && 0 <= c < a.cols :: a.At(r, c) == b.At(r, c)
    ensures a == b
  {
    forall r | 0 <= r < a.rows
      ensures a.data[r] == b.data[r]
    {
      assert |a.data[r]| == a.cols == |b.data[r]|;
      assert forall c | 0 <= c < a.cols :: a.data[r][c] == a.At(r, c) == b.At(r, c) == b.data[r][c];
    }
  }

  /** A mask that is set everywhere copies the whole source. */
  lemma CopyToMaskedAllSet(src: Mat, mask: Mat)
    requires src.Valid() && mask.Valid() && IsMask8U(mask) && mask.Dims() == src.Dims()
    requires AllSet(mask)
    ensures CopyToMasked(src, mask) == src
  {
    SameElements(CopyToMasked(src, mask), src);
  }

  /** `cv::Mat::zeros(rows, cols, typ)`: an all-black matrix. */
  function Zeros(typ: MatType, rows: nat, cols: nat): (m: Mat)
    ensures m.Valid() && m.typ == typ && m.rows == rows && m.cols == cols
    ensures AllClear(m)
  {
    Mat(typ, rows, cols, seq(rows, _ => seq(cols, _ => 0)))
  }

  /** A mask that is clear everywhere yields an all-black matrix of the
      source's shape and type. */
  lemma CopyToMaskedAllClear(src: Mat, mask: Mat)
    requires src.Valid() && mask.Valid() && IsMask8U(mask) && mask.Dims() == src.Dims()
    requires AllClear(mask)
    ensures CopyToMasked(src, mask) == Zeros(src.typ, src.rows, src.cols)
  {
    SameElements(CopyToMasked(src, mask), Zeros(src.typ, src.rows, src.cols));
  }

  /** Cropping to the whole matrix is a plain copy. */
  lemma CropWhole(src: Mat)
    requires src.Valid()
    ensures Crop(src, Rect(0, 0, src.cols, src.rows)) == src
  {
    SameElements(Crop(src, Rect(0, 0, src.cols, src.rows)), src);
  }
}
