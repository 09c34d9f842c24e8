/**
 * The Java enums of the binding that the model needs. Their numeric ids are
 * native header constants and are not modelled; Java compares enum constants
 * by identity, which is datatype equality here.
 */
module MediaTypes {

  datatype MediaType = UNKNOWN | VIDEO | AUDIO | DATA | SUBTITLE | ATTACHMENT | NB

  datatype SampleFormat = NONE | U8 | S16 | S32 | FLT | DBL | U8P | S16P | S32P | FLTP | DBLP

  /** The pixel format constants the model refers to by name. */
  const NamedPixelFormats: set<string> :=
    {"NONE", "YUV420P", "RGB24", "BGR24", "GRAY8", "ARGB", "ABGR", "GRAY16", "RGB565", "RGB555", "RGB444"}

  /** The name of any other constant of the Java enum; it never spells a named one, so no constant has two models. */
  type OtherPixelFormatName = s: string | s !in NamedPixelFormats witness "YUYV422"

  /**
   * Pixel formats. The constants the model refers to by name are spelled
   * out; every other constant of the Java enum is `Other(name)`.
   */
  datatype PixelFormat =
    | PIX_NONE | YUV420P | RGB24 | BGR24 | GRAY8 | ARGB | ABGR
    | GRAY16 | RGB565 | RGB555 | RGB444
    | Other(name: OtherPixelFormatName)

  datatype ChannelLayout =
    | MONO | STEREO | L2POINT1 | L2_1 | SURROUND | L3POINT1 | L4POINT0 | L4POINT1
    | L2_2 | QUAD | L5POINT0 | L5POINT1 | L5POINT0_BACK | L5POINT1_BACK | L6POINT0
    | L6POINT0_FRONT | HEXAGONAL | L6POINT1 | L6POINT1_BACK | L6POINT1_FRONT
    | L7POINT0 | L7POINT0_FRONT | L7POINT1 | L7POINT1_WIDE | L7POINT1_WIDE_BACK
    | OCTAGONAL | STEREO_DOWNMIX

  /** A codec flag; the model only stores flags, so each is an opaque constant. */
  datatype CodecFlag = CodecFlag(name: string)
}
