/**
 * CameraFormat.java: an image size and a capture frame rate, a validity
 * predicate and the width-then-height ordering a TreeSet of formats uses.
 * The Java `double` frame rate is a `real` here.
 */
module CameraFormats {
  import opened Wrappers

  datatype CameraFormat = CameraFormat(width: int, height: int, frameRate: real)

  /** The no-argument constructor: size and frame rate zero. */
  function DefaultFormat(): (f: CameraFormat)
    ensures f.width == 0 && f.height == 0 && f.frameRate == 0.0
    ensures !IsValid(f)
  {
    CameraFormat(0, 0, 0.0)
  }

  /** `isValid()`: a usable format has a positive size and a positive frame rate. */
  predicate IsValid(f: CameraFormat) {
    f.width > 0 && f.height > 0 && f.frameRate > 0.0
  }

  /** Validity is exactly the three positivity tests; a negative size or a zero frame rate makes a format invalid. */
  lemma IsValidCases(w: int, h: int, rate: real)
    ensures IsValid(CameraFormat(w, h, rate)) <==> w > 0 && h > 0 && rate > 0.0
    ensures IsValid(CameraFormat(640, 480, 30.0))
    ensures !IsValid(CameraFormat(-640, -480, 30.0))
    ensures !IsValid(CameraFormat(w, h, 0.0)) && !IsValid(CameraFormat(w, h, -1.0))
  {
  }

  /** The two formats describe the same image size; the frame rate plays no part. */
  predicate SameResolution(a: CameraFormat, b: CameraFormat) {
    a.width == b.width && a.height == b.height
  }

  /** Lexicographic order on (width, height): the order the comparator is meant to implement. */
  predicate LexLess(a: CameraFormat, b: CameraFormat) {
    a.width < b.width || (a.width == b.width && a.height < b.height)
  }

  /** `a.compareTo(b)` for a non-null `b`. */
  function Compare(a: CameraFormat, b: CameraFormat): (r: int)
    ensures r == -1 || r == 0 || r == 1
    ensures r == 0 <==> SameResolution(a, b)
    ensures r < 0 <==> LexLess(a, b)
    ensures r > 0 <==> LexLess(b, a)
  {
    if a.width == b.width then
      if a.height > b.height then 1
      else if a.height < b.height then -1
      else 0
    else if a.width > b.width then 1
    else if a.width < b.width then -1
    else 0
  }

  /** `a.compareTo(o)` where `o` may be null: null compares equal to everything. */
  function CompareTo(a: CameraFormat, o: Option<CameraFormat>): (r: int)
    ensures o.None? ==> r == 0
    ensures o.Some? ==> r == Compare(a, o.value)
  {
    match o
    case None => 0
    case Some(b) => Compare(a, b)
  }

  /** The comparator is antisymmetric: swapping the arguments flips the sign. */
  lemma CompareAntisymmetric(a: CameraFormat, b: CameraFormat)
    ensures Compare(a, b) == -Compare(b, a)
  {
  }

  /** The comparator is transitive, for the strict and the non-strict order. */
  lemma CompareTransitive(a: CameraFormat, b: CameraFormat, c: CameraFormat)
    ensures Compare(a, b) < 0 && Compare(b, c) < 0 ==> Compare(a, c) < 0
    ensures Compare(a, b) <= 0 && Compare(b, c) <= 0 ==> Compare(a, c) <= 0
  {
  }

  /** Two formats that differ only in frame rate compare equal, in both directions. */
  lemma CompareIgnoresFrameRate(a: CameraFormat, rate: real)
    ensures Compare(a, a.(frameRate := rate)) == 0
    ensures Compare(a.(frameRate := rate), a) == 0
  {
  }
}
