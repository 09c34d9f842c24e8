/**
 * Configurable.java: the property bag shared by encoders and decoders.
 * Every setter is a function from one bag to the next; its contract says
 * what the matching getter now returns and that every other getter
 * returns what it returned before. Java's null becomes `None`, its
 * doubles become reals.
 */
module Configurables {
  import opened Wrappers
  import opened JavaLang
  import opened MediaTypes

  datatype Config = Config(
    mediaType: Option<MediaType>,
    pixelFormat: Option<PixelFormat>,
    sampleFormat: Option<SampleFormat>,
    imageWidth: JInt,
    imageHeight: JInt,
    gopSize: JInt,
    audioChannels: JInt,
    sampleRate: JInt,
    bitrate: JInt,
    profile: JInt,
    frameRate: real,
    quality: real,
    flags: seq<CodecFlag>)

  /** The getters, one per field of the bag. */
  datatype Field =
    | MediaTypeField | PixelFormatField | SampleFormatField
    | ImageWidthField | ImageHeightField | GOPSizeField | AudioChannelsField
    | SampleRateField | BitrateField | ProfileField
    | FrameRateField | QualityField | FlagsField

  /** What a getter returns. */
  datatype Value =
    | MediaTypeValue(m: Option<MediaType>)
    | PixelFormatValue(p: Option<PixelFormat>)
    | SampleFormatValue(s: Option<SampleFormat>)
    | IntValue(i: int)
    | RealValue(r: real)
    | FlagsValue(flags: seq<CodecFlag>)

  /** The getters declared to return a Java `int`. */
  predicate IsIntField(f: Field) {
    f in {ImageWidthField, ImageHeightField, GOPSizeField, AudioChannelsField, SampleRateField, BitrateField, ProfileField}
  }

  /**
   * Calling the getter for `f`. Each getter returns the Java type it
   * declares: an `int` getter a 32-bit value, the two `double` getters a
   * real, the enum getters an enum constant or null.
   */
  function Get(c: Config, f: Field): (v: Value)
    ensures v.IntValue? <==> IsIntField(f)
    ensures v.IntValue? ==> -0x8000_0000 <= v.i < 0x8000_0000
    ensures v.RealValue? <==> f == FrameRateField || f == QualityField
    ensures v.MediaTypeValue? <==> f == MediaTypeField
    ensures v.PixelFormatValue? <==> f == PixelFormatField
    ensures v.SampleFormatValue? <==> f == SampleFormatField
  {
    match f
    case MediaTypeField => MediaTypeValue(c.mediaType)
    case PixelFormatField => PixelFormatValue(c.pixelFormat)
    case SampleFormatField => SampleFormatValue(c.sampleFormat)
    case ImageWidthField => IntValue(c.imageWidth)
    case ImageHeightField => IntValue(c.imageHeight)
    case GOPSizeField => IntValue(c.gopSize)
    case AudioChannelsField => IntValue(c.audioChannels)
    case SampleRateField => IntValue(c.sampleRate)
    case BitrateField => IntValue(c.bitrate)
    case ProfileField => IntValue(c.profile)
    case FrameRateField => RealValue(c.frameRate)
    case QualityField => RealValue(c.quality)
    case FlagsField => FlagsValue(c.flags)
  }

  /** Every getter other than the one for `f` returns the same in `c` and `d`. */
  predicate OnlyChanged(c: Config, d: Config, f: Field) {
    forall g: Field :: g != f ==> Get(c, g) == Get(d, g)
  }

  /** Two bags that agree on every getter are the same bag. */
  lemma GettersDetermineConfig(c: Config, d: Config)
    requires forall g: Field :: Get(c, g) == Get(d, g)
    ensures c == d
  {
    assert Get(c, MediaTypeField) == Get(d, MediaTypeField);
    assert Get(c, PixelFormatField) == Get(d, PixelFormatField);
    assert Get(c, SampleFormatField) == Get(d, SampleFormatField);
    assert Get(c, ImageWidthField) == Get(d, ImageWidthField);
    assert Get(c, ImageHeightField) == Get(d, ImageHeightField);
    assert Get(c, GOPSizeField) == Get(d, GOPSizeField);
    assert Get(c, AudioChannelsField) == Get(d, AudioChannelsField);
    assert Get(c, SampleRateField) == Get(d, SampleRateField);
    assert Get(c, BitrateField) == Get(d, BitrateField);
    assert Get(c, ProfileField) == Get(d, ProfileField);
    assert Get(c, FrameRateField) == Get(d, FrameRateField);
    assert Get(c, QualityField) == Get(d, QualityField);
    assert Get(c, FlagsField) == Get(d, FlagsField);
  }

  /** A freshly constructed bag: nulls, zeros, quality -1 and no flags. */
  function Initial(): (c: Config)
    ensures c.mediaType.None? && c.pixelFormat.None? && c.sampleFormat.None?
    ensures Get(c, ImageWidthField) == Get(c, ImageHeightField) == Get(c, GOPSizeField) == IntValue(0)
    ensures Get(c, AudioChannelsField) == Get(c, SampleRateField) == IntValue(0)
    ensures Get(c, BitrateField) == Get(c, ProfileField) == IntValue(0)
    ensures Get(c, FrameRateField) == RealValue(0.0)
    ensures Get(c, QualityField) == RealValue(-1.0)
    ensures Get(c, FlagsField) == FlagsValue([])
  {
    Config(None, None, None, 0, 0, 0, 0, 0, 0, 0, 0.0, -1.0, [])
  }

  function SetMediaType(c: Config, t: Option<MediaType>): (r: Config)
    ensures Get(r, MediaTypeField) == MediaTypeValue(t) && OnlyChanged(c, r, MediaTypeField)
  {
    c.(mediaType := t)
  }

  function SetImageWidth(c: Config, width: JInt): (r: Config)
    ensures Get(r, ImageWidthField) == IntValue(width) && OnlyChanged(c, r, ImageWidthField)
  {
    c.(imageWidth := width)
  }

  function SetImageHeight(c: Config, height: JInt): (r: Config)
    ensures Get(r, ImageHeightField) == IntValue(height) && OnlyChanged(c, r, ImageHeightField)
  {
    c.(imageHeight := height)
  }

  function SetGOPSize(c: Config, size: JInt): (r: Config)
    ensures Get(r, GOPSizeField) == IntValue(size) && OnlyChanged(c, r, GOPSizeField)
  {
    c.(gopSize := size)
  }

  function SetPixelFormat(c: Config, format: Option<PixelFormat>): (r: Config)
    ensures Get(r, PixelFormatField) == PixelFormatValue(format) && OnlyChanged(c, r, PixelFormatField)
  {
    c.(pixelFormat := format)
  }

  function SetSampleFormat(c: Config, format: Option<SampleFormat>): (r: Config)
    ensures Get(r, SampleFormatField) == SampleFormatValue(format) && OnlyChanged(c, r, SampleFormatField)
  {
    c.(sampleFormat := format)
  }

  function SetBitrate(c: Config, bitrate: JInt): (r: Config)
    ensures Get(r, BitrateField) == IntValue(bitrate) && OnlyChanged(c, r, BitrateField)
  {
    c.(bitrate := bitrate)
  }

  function SetFramerate(c: Config, frameRate: real): (r: Config)
    ensures Get(r, FrameRateField) == RealValue(frameRate) && OnlyChanged(c, r, FrameRateField)
  {
    c.(frameRate := frameRate)
  }

  function SetSamplerate(c: Config, sampleRate: JInt): (r: Config)
    ensures Get(r, SampleRateField) == IntValue(sampleRate) && OnlyChanged(c, r, SampleRateField)
  {
    c.(sampleRate := sampleRate)
  }

  function SetAudioChannels(c: Config, channels: JInt): (r: Config)
    ensures Get(r, AudioChannelsField) == IntValue(channels) && OnlyChanged(c, r, AudioChannelsField)
  {
    c.(audioChannels := channels)
  }

  function SetQuality(c: Config, quality: real): (r: Config)
    ensures Get(r, QualityField) == RealValue(quality) && OnlyChanged(c, r, QualityField)
  {
    c.(quality := quality)
  }

  /** `setProfile` as written: the argument is ignored and the current bitrate is copied in. */
  function SetProfile(c: Config, profile: JInt): (r: Config)
    ensures Get(r, ProfileField) == Get(c, BitrateField) && OnlyChanged(c, r, ProfileField)
  {
    c.(profile := c.bitrate)
  }

  /** `setProfile` as its name and its getter promise: the argument is stored. */
  function SetProfileCorrected(c: Config, profile: JInt): (r: Config)
    ensures Get(r, ProfileField) == IntValue(profile) && OnlyChanged(c, r, ProfileField)
  {
    c.(profile := profile)
  }

  /** With any bitrate other than the requested profile, `getProfile()` does not return what was set. */
  lemma SetProfileLosesArgument(c: Config, profile: JInt)
    requires c.bitrate != profile
    ensures Get(SetProfile(c, profile), ProfileField) != IntValue(profile)
    ensures Get(SetProfileCorrected(c, profile), ProfileField) == IntValue(profile)
  {
  }

  /** A concrete instance: bitrate 128000, then `setProfile(1)`, reads back 128000. */
  lemma SetProfileExample()
    ensures var c := SetBitrate(Initial(), 128000);
            SetProfile(c, 1).profile == 128000 && SetProfileCorrected(c, 1).profile == 1
  {
  }

  datatype Error = NullFlag

  /** `setFlag`: null is rejected and leaves the list alone; anything else is appended. */
  function SetFlag(c: Config, flag: Option<CodecFlag>): (r: Result<Config, Error>)
    ensures r.Failure? <==> flag.None?
    ensures r.Success? ==> Get(r.value, FlagsField) == FlagsValue(c.flags + [flag.value])
    ensures r.Success? ==> OnlyChanged(c, r.value, FlagsField)
  {
    match flag
    case None => Failure(NullFlag)
    case Some(f) => Success(c.(flags := c.flags + [f]))
  }

  /** `setFlag` called once per element of `fs`, in order, stopping at the first null. */
  function SetFlags(c: Config, fs: seq<Option<CodecFlag>>): (r: Result<Config, Error>)
    decreases |fs|
  {
    if |fs| == 0 then Success(c)
    else
      var d :- SetFlag(c, fs[0]);
      SetFlags(d, fs[1..])
  }

  /** No element of the flag list is null. */
  predicate AllPresent(fs: seq<Option<CodecFlag>>) {
    forall i :: 0 <= i < |fs| ==> fs[i].Some?
  }

  /** The values of a flag list without nulls. */
  function Present(fs: seq<Option<CodecFlag>>): (r: seq<CodecFlag>)
    requires AllPresent(fs)
    ensures |r| == |fs|
    ensures forall i :: 0 <= i < |fs| ==> r[i] == fs[i].value
  {
    if |fs| == 0 then [] else [fs[0].value] + Present(fs[1..])
  }

  /** A run of `setFlag` calls fails exactly when one of its arguments is null. */
  lemma {:induction false} SetFlagsFails(c: Config, fs: seq<Option<CodecFlag>>)
    ensures SetFlags(c, fs).Failure? <==> !AllPresent(fs)
    decreases |fs|
  {
    if |fs| > 0 && fs[0].Some? {
      SetFlagsFails(SetFlag(c, fs[0]).value, fs[1..]);
      if !AllPresent(fs) {
        var i :| 0 <= i < |fs| && fs[i].None?;
        assert fs[1..][i - 1].None?;
      }
      if !AllPresent(fs[1..]) {
        var i :| 0 <= i < |fs[1..]| && fs[1..][i].None?;
        assert fs[i + 1].None?;
      }
    }
  }

  /** Flags accumulate in call order, duplicates included, and nothing but the flag list changes. */
  lemma {:induction false} SetFlagsAppends(c: Config, fs: seq<Option<CodecFlag>>)
    requires AllPresent(fs)
    ensures SetFlags(c, fs) == Success(c.(flags := c.flags + Present(fs)))
    decreases |fs|
  {
    if |fs| > 0 {
      var d := c.(flags := c.flags + [fs[0].value]);
      assert SetFlag(c, fs[0]) == Success(d);
      assert SetFlags(c, fs) == SetFlags(d, fs[1..]);
      assert AllPresent(fs[1..]);
      SetFlagsAppends(d, fs[1..]);
      assert Present(fs) == [fs[0].value] + Present(fs[1..]);
      assert c.flags + Present(fs) == d.flags + Present(fs[1..]);
    } else {
      assert c.flags + Present(fs) == c.flags;
    }
  }

  /** A run of non-null `setFlag` calls changes only the protected `flags` list; every getter returns what it did before. */
  lemma SetFlagsOnlyChangesFlags(c: Config, fs: seq<Option<CodecFlag>>)
    requires AllPresent(fs)
    ensures SetFlags(c, fs).Success?
    ensures Get(SetFlags(c, fs).value, FlagsField) == FlagsValue(c.flags + Present(fs))
    ensures OnlyChanged(c, SetFlags(c, fs).value, FlagsField)
  {
    SetFlagsAppends(c, fs);
  }
}
