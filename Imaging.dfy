/** The images, features and matches the movement detector works on, and the
    image-processing library it calls, which this model treats as oracles. */
module Imaging {

  datatype Option<+T> = None | Some(value: T)

  /** An 8-bit sample. */
  type Byte = x: int | 0 <= x < 256

  /** One colour pixel, in the library's blue-green-red channel order. */
  datatype Bgr = Bgr(b: Byte, g: Byte, r: Byte)

  /** A colour frame: `pixels` holds its `height` rows of `width` pixels, row by row. */
  datatype Frame = Frame(width: nat, height: nat, pixels: seq<Bgr>)

  /** A single-channel intensity image, laid out like a Frame. */
  datatype Gray = Gray(width: nat, height: nat, pixels: seq<Byte>)

  /** Two frames whose pixel-wise difference is defined: the same grid, pixel for pixel. */
  predicate SameShape(a: Frame, b: Frame)
  {
    a.width == b.width && a.height == b.height && |a.pixels| == |b.pixels|
  }

  /** A keypoint, reduced to the one attribute the detector reads: its location. */
  datatype Point = Point(x: real, y: real)

  /** A binary feature vector. */
  type Descriptor = seq<Byte>

  /** What feature extraction yields for one image. The library reports
      "no features" by giving no descriptor array at all. */
  datatype Features = Features(keypoints: seq<Point>, descriptors: Option<seq<Descriptor>>)

  /** One candidate correspondence: a descriptor of the earlier frame
      (`queryIdx`), one of the later frame (`trainIdx`), and their distance. */
  datatype DMatch = DMatch(queryIdx: nat, trainIdx: nat, distance: real)

  /** A 3x3 projective transform; `hRC` is the entry in row R, column C. */
  datatype Homography = Homography(
    h00: real, h01: real, h02: real,
    h10: real, h11: real, h12: real,
    h20: real, h21: real, h22: real)

  /** The library operations the detector calls, which the model does not open up:
      - `luma`: the grayscale weight of one pixel (colour conversion works pixel by pixel);
      - `detectAndCompute`: keypoints and descriptors of a grayscale image;
      - `knnMatch`: for each descriptor of the first set, its nearest neighbours
        in the second set, nearest first (asked for k = 2);
      - `findHomography`: a robust fit from source to destination points with the
        given reprojection threshold, or None when the fit fails;
      - `degreesAtan2`: the angle of the vector (x, y), in degrees, given as (y, x). */
  datatype Vision = Vision(
    luma: Bgr -> Byte,
    detectAndCompute: Gray -> Features,
    knnMatch: (seq<Descriptor>, seq<Descriptor>) -> seq<seq<DMatch>>,
    findHomography: (seq<Point>, seq<Point>, real) -> Option<Homography>,
    degreesAtan2: (real, real) -> real)

  /** Colour-to-grayscale conversion: the same grid, one luminance sample per pixel. */
  function ToGray(v: Vision, f: Frame): Gray
  {
    Gray(f.width, f.height, seq<Byte>(|f.pixels|, k requires 0 <= k < |f.pixels| => v.luma(f.pixels[k])))
  }

  function Abs(x: real): real
  {
    if x < 0.0 then -x else x
  }
}
