/**
 * PictureFormat.java: an image size and pixel format. `equals` decides
 * whether a picture must go through the resampler before encoding.
 */
module PictureFormats {
  import opened Wrappers
  import opened JavaLang
  import opened MediaTypes

  datatype PictureFormat = PictureFormat(width: JInt, height: JInt, format: Option<PixelFormat>)

  /** `isValid()`: non-zero sizes (negative ones pass) and a format other than NONE; null passes too. */
  predicate IsValid(p: PictureFormat) {
    p.width != 0 && p.height != 0 && p.format != Some(PIX_NONE)
  }

  /** `p.equals(o)`: null is never equal; otherwise width, height and pixel format are compared. */
  function Equals(p: PictureFormat, o: Option<PictureFormat>): (r: bool)
    ensures r <==> o == Some(p)
  {
    match o
    case None => false
    case Some(q) => p.width == q.width && p.height == q.height && p.format == q.format
  }

  /** `equals` is reflexive, symmetric and transitive, and false for null. */
  lemma EqualsIsEquivalence(a: PictureFormat, b: PictureFormat, c: PictureFormat)
    ensures Equals(a, Some(a))
    ensures !Equals(a, None)
    ensures Equals(a, Some(b)) <==> Equals(b, Some(a))
    ensures Equals(a, Some(b)) && Equals(b, Some(c)) ==> Equals(a, Some(c))
  {
  }

  /** Validity is exactly the three field tests; in particular negative sizes and a null format are valid. */
  lemma IsValidCases(w: JInt, h: JInt, f: Option<PixelFormat>)
    ensures IsValid(PictureFormat(w, h, f)) <==> w != 0 && h != 0 && f != Some(PIX_NONE)
    ensures IsValid(PictureFormat(-1, -1, Some(RGB24)))
    ensures IsValid(PictureFormat(1, 1, None))
    ensures !IsValid(PictureFormat(0, h, f)) && !IsValid(PictureFormat(w, 0, f))
    ensures !IsValid(PictureFormat(w, h, Some(PIX_NONE)))
  {
  }
}

/**
 * AudioFormat.java: sample format, channel layout, channel count and
 * sample rate. `equals` decides whether audio must be resampled.
 */
module AudioFormats {
  import opened Wrappers
  import opened JavaLang
  import opened MediaTypes

  datatype AudioFormat = AudioFormat(
    sampleFormat: Option<SampleFormat>,
    channelLayout: Option<ChannelLayout>,
    channels: JInt,
    sampleRate: JInt)

  /** The no-argument constructor: null format and layout, zero channels, rate zero. */
  function DefaultAudioFormat(): (a: AudioFormat)
    ensures a.sampleFormat.None? && a.channelLayout.None?
    ensures a.channels == 0 && a.sampleRate == 0
  {
    AudioFormat(None, None, 0, 0)
  }

  /** `a.equals(o)`: null is never equal; otherwise all four fields are compared. */
  function Equals(a: AudioFormat, o: Option<AudioFormat>): (r: bool)
    ensures r <==> o == Some(a)
  {
    match o
    case None => false
    case Some(b) =>
      a.sampleFormat == b.sampleFormat && a.channelLayout == b.channelLayout &&
      a.channels == b.channels && a.sampleRate == b.sampleRate
  }

  /** `equals` is reflexive, symmetric and transitive, and false for null. */
  lemma EqualsIsEquivalence(a: AudioFormat, b: AudioFormat, c: AudioFormat)
    ensures Equals(a, Some(a))
    ensures !Equals(a, None)
    ensures Equals(a, Some(b)) <==> Equals(b, Some(a))
    ensures Equals(a, Some(b)) && Equals(b, Some(c)) ==> Equals(a, Some(c))
  {
  }

  /** Changing any single field makes two formats unequal, so every field matters to the resample decision. */
  lemma EveryFieldMatters(a: AudioFormat, f: Option<SampleFormat>, l: Option<ChannelLayout>, n: JInt, rate: JInt)
    ensures f != a.sampleFormat ==> !Equals(a, Some(a.(sampleFormat := f)))
    ensures l != a.channelLayout ==> !Equals(a, Some(a.(channelLayout := l)))
    ensures n != a.channels ==> !Equals(a, Some(a.(channels := n)))
    ensures rate != a.sampleRate ==> !Equals(a, Some(a.(sampleRate := rate)))
  {
  }
}

/** `Audio.getFormatDepth`: bytes per sample of a sample format. */
module Audios {
  import opened Wrappers
  import opened MediaTypes

  datatype Error = NullPointer

  /** The depth table; a null format makes the Java switch throw. */
  function FormatDepth(format: Option<SampleFormat>): (r: Result<int, Error>)
    ensures r.Failure? <==> format.None?
    ensures format.Some? ==> (r.value == 1 <==> format.value in {U8, U8P})
    ensures format.Some? ==> (r.value == 2 <==> format.value in {S16, S16P})
    ensures format.Some? ==> (r.value == 4 <==> format.value in {S32, S32P, FLT, FLTP})
    ensures format.Some? ==> (r.value == 8 <==> format.value in {DBL, DBLP})
    ensures format.Some? ==> (r.value == 0 <==> format.value == NONE)
  {
    match format
    case None => Failure(NullPointer)
    case Some(f) =>
      Success(match f
        case U8 | U8P => 1
        case S16 | S16P => 2
        case S32 | S32P => 4
        case FLT | FLTP => 4
        case DBL | DBLP => 8
        case _ => 0)
  }

  /** The planar variant of a packed sample format. */
  function Planar(f: SampleFormat): (r: Option<SampleFormat>)
    ensures r.Some? <==> f in {U8, S16, S32, FLT, DBL}
  {
    match f
    case U8 => Some(U8P)
    case S16 => Some(S16P)
    case S32 => Some(S32P)
    case FLT => Some(FLTP)
    case DBL => Some(DBLP)
    case _ => None
  }

  /** A packed format and its planar variant hold samples of the same size. */
  lemma PackedAndPlanarSameDepth(f: SampleFormat)
    requires Planar(f).Some?
    ensures FormatDepth(Some(f)) == FormatDepth(Planar(f))
  {
  }

  /** Every known format has a positive depth that is a power of two, at most eight bytes. */
  lemma DepthIsPowerOfTwo(f: SampleFormat)
    requires f != NONE
    ensures FormatDepth(Some(f)).value in {1, 2, 4, 8}
  {
  }
}
