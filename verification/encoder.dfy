/**
 * The parameter setters and timestamp counter of Encoder.java. The codec
 * is reduced to what the setters read from it: its media type (null when
 * the native codec reports none) and its supported-value lists (null when
 * the native codec lists nothing). The native calls the setters make are
 * inputs: the default layout FFmpeg proposes for a channel count, and the
 * status and flags an encode call reports.
 */
module Encoders {
  import opened Wrappers
  import opened JavaLang
  import opened MediaTypes
  import Cfg = Configurables

  /** The Codec fields the setters consult. */
  datatype Codec = Codec(
    mediaType: Option<MediaType>,
    sampleFormats: Option<seq<SampleFormat>>,
    sampleRates: Option<seq<JInt>>,
    pixelFormats: Option<seq<PixelFormat>>,
    channelLayouts: Option<seq<ChannelLayout>>)

  /** An encoder with no native context: its codec, its property bag and `sync_opts`. */
  datatype Encoder = Encoder(codec: Codec, config: Cfg.Config, syncOpts: int)

  datatype Error =
    | WrongMediaType      // "Cannot set ... for non-audio/non-video codec."
    | NegativeValue       // "Image width/height, Group Of Pictures cannot be < 0."
    | NoFormatAvailable   // "Could not set sample format. No format available."
    | NullPointer         // Arrays.asList on a null supported list
    | IndexOutOfBounds    // get(...) on an empty supported list
    | EncodeFailed        // "Could not encode video/audio packet."

  predicate IsAudio(e: Encoder) {
    e.codec.mediaType == Some(AUDIO)
  }

  predicate IsVideo(e: Encoder) {
    e.codec.mediaType == Some(VIDEO)
  }

  /** The encoder with a new property bag. */
  function WithConfig(e: Encoder, c: Cfg.Config): (r: Encoder)
    ensures r.codec == e.codec && r.syncOpts == e.syncOpts && r.config == c
  {
    e.(config := c)
  }

  // ---------------------------------------------------------------------------
  // Sample rate
  // ---------------------------------------------------------------------------

  /** The rate `setSampleRate` stores: the requested one if supported, else the list's last element. */
  function ChooseSampleRate(supported: seq<JInt>, rate: JInt): (r: JInt)
    requires |supported| > 0
    ensures r in supported
    ensures rate in supported ==> r == rate
    ensures rate !in supported ==> r == supported[|supported| - 1]
  {
    if rate in supported then rate else supported[|supported| - 1]
  }

  /** The codec's rate list is ascending (Codec.java sorts it). */
  predicate Ascending(s: seq<int>) {
    forall i, j :: 0 <= i <= j < |s| ==> s[i] <= s[j]
  }

  /** `setSampleRate`. */
  function SetSampleRate(e: Encoder, rate: JInt): (r: Result<Encoder, Error>)
    ensures !IsAudio(e) ==> r == Failure(WrongMediaType)
    ensures IsAudio(e) && e.codec.sampleRates.None? ==> r == Failure(NullPointer)
    ensures IsAudio(e) && e.codec.sampleRates == Some([]) ==> r == Failure(IndexOutOfBounds)
    ensures r.Success? <==> IsAudio(e) && e.codec.sampleRates.Some? && |e.codec.sampleRates.value| > 0
    ensures r.Success? ==>
              var supported := e.codec.sampleRates.value;
              && r.value.codec == e.codec && r.value.syncOpts == e.syncOpts
              && r.value.config.sampleRate in supported
              && (rate in supported ==> r.value.config.sampleRate == rate)
              && (rate !in supported ==> r.value.config.sampleRate == supported[|supported| - 1])
              && Cfg.OnlyChanged(e.config, r.value.config, Cfg.SampleRateField)
  {
    if !IsAudio(e) then Failure(WrongMediaType)
    else match e.codec.sampleRates
      case None => Failure(NullPointer)
      case Some(supported) =>
        if |supported| == 0 then Failure(IndexOutOfBounds)
        else
          var chosen := ChooseSampleRate(supported, rate);
          Success(WithConfig(e, Cfg.SetSamplerate(e.config, chosen)))
  }

  /** On the ascending list the codec reports, an unsupported rate falls back to the highest supported one. */
  lemma SampleRateFallbackIsHighest(e: Encoder, rate: JInt)
    requires IsAudio(e) && e.codec.sampleRates.Some? && |e.codec.sampleRates.value| > 0
    requires Ascending(e.codec.sampleRates.value) && rate !in e.codec.sampleRates.value
    ensures SetSampleRate(e, rate).Success?
    ensures forall x :: x in e.codec.sampleRates.value ==> x <= SetSampleRate(e, rate).value.config.sampleRate
  {
  }

  // ---------------------------------------------------------------------------
  // Channels
  // ---------------------------------------------------------------------------

  /** `av_get_channel_layout_nb_channels(AV_CH_LAYOUT_STEREO)`. */
  const StereoChannels: JInt := 2

  /**
   * The channel count `setChannels` stores. Without a supported-layout list
   * the request stands; otherwise it stands only when the default layout
   * for that count (`defaultLayout`, null when FFmpeg has none or the
   * library does not know it) is supported, and falls back to stereo.
   */
  function ChooseChannels(supported: Option<seq<ChannelLayout>>, channels: JInt, defaultLayout: Option<ChannelLayout>): (r: JInt)
    ensures supported.None? ==> r == channels
    ensures supported.Some? && defaultLayout.Some? && defaultLayout.value in supported.value ==> r == channels
    ensures supported.Some? && (defaultLayout.None? || defaultLayout.value !in supported.value) ==> r == StereoChannels
  {
    match supported
    case None => channels
    case Some(layouts) =>
      if defaultLayout.None? || defaultLayout.value !in layouts then StereoChannels else channels
  }

  /** `setChannels`. */
  function SetChannels(e: Encoder, channels: JInt, defaultLayout: Option<ChannelLayout>): (r: Result<Encoder, Error>)
    ensures r.Failure? <==> !IsAudio(e)
    ensures r.Failure? ==> r.error == WrongMediaType
    ensures r.Success? ==>
              && r.value.codec == e.codec && r.value.syncOpts == e.syncOpts
              && (r.value.config.audioChannels == channels || r.value.config.audioChannels == StereoChannels)
              && r.value.config.audioChannels == ChooseChannels(e.codec.channelLayouts, channels, defaultLayout)
              && Cfg.OnlyChanged(e.config, r.value.config, Cfg.AudioChannelsField)
  {
    if !IsAudio(e) then Failure(WrongMediaType)
    else Success(WithConfig(e, Cfg.SetAudioChannels(e.config, ChooseChannels(e.codec.channelLayouts, channels, defaultLayout))))
  }

  // ---------------------------------------------------------------------------
  // Image size and group of pictures
  // ---------------------------------------------------------------------------

  /** The shared shape of `setImageWidth`, `setImageHeight` and `setGOPSize`. */
  function CheckedVideoValue(e: Encoder, value: JInt): (r: Result<JInt, Error>)
    ensures r.Success? <==> IsVideo(e) && value >= 0
    ensures r.Success? ==> r.value == value
    ensures !IsVideo(e) ==> r == Failure(WrongMediaType)
    ensures IsVideo(e) && value < 0 ==> r == Failure(NegativeValue)
  {
    if !IsVideo(e) then Failure(WrongMediaType)
    else if value < 0 then Failure(NegativeValue)
    else Success(value)
  }

  /** `setImageWidth`: video codecs only, negative widths rejected, zero accepted. */
  function SetImageWidth(e: Encoder, width: JInt): (r: Result<Encoder, Error>)
    ensures r.Success? <==> IsVideo(e) && width >= 0
    ensures !IsVideo(e) ==> r == Failure(WrongMediaType)
    ensures IsVideo(e) && width < 0 ==> r == Failure(NegativeValue)
    ensures r.Success? ==>
              && r.value.codec == e.codec && r.value.syncOpts == e.syncOpts
              && r.value.config.imageWidth == width
              && Cfg.OnlyChanged(e.config, r.value.config, Cfg.ImageWidthField)
  {
    var w :- CheckedVideoValue(e, width);
    Success(WithConfig(e, Cfg.SetImageWidth(e.config, w)))
  }

  /** `setImageHeight`: video codecs only, negative heights rejected, zero accepted. */
  function SetImageHeight(e: Encoder, height: JInt): (r: Result<Encoder, Error>)
    ensures r.Success? <==> IsVideo(e) && height >= 0
    ensures !IsVideo(e) ==> r == Failure(WrongMediaType)
    ensures IsVideo(e) && height < 0 ==> r == Failure(NegativeValue)
    ensures r.Success? ==>
              && r.value.codec == e.codec && r.value.syncOpts == e.syncOpts
              && r.value.config.imageHeight == height
              && Cfg.OnlyChanged(e.config, r.value.config, Cfg.ImageHeightField)
  {
    var h :- CheckedVideoValue(e, height);
    Success(WithConfig(e, Cfg.SetImageHeight(e.config, h)))
  }

  /** `setGOPSize`: video codecs only, negative sizes rejected, zero accepted. */
  function SetGOPSize(e: Encoder, size: JInt): (r: Result<Encoder, Error>)
    ensures r.Success? <==> IsVideo(e) && size >= 0
    ensures !IsVideo(e) ==> r == Failure(WrongMediaType)
    ensures IsVideo(e) && size < 0 ==> r == Failure(NegativeValue)
    ensures r.Success? ==>
              && r.value.codec == e.codec && r.value.syncOpts == e.syncOpts
              && r.value.config.gopSize == size
              && Cfg.OnlyChanged(e.config, r.value.config, Cfg.GOPSizeField)
  {
    var g :- CheckedVideoValue(e, size);
    Success(WithConfig(e, Cfg.SetGOPSize(e.config, g)))
  }

  // ---------------------------------------------------------------------------
  // Pixel format
  // ---------------------------------------------------------------------------

  /** `setPixelFormat`: a supported format stands; null or an unsupported one becomes the first supported. */
  function SetPixelFormat(e: Encoder, format: Option<PixelFormat>): (r: Result<Encoder, Error>)
    ensures !IsVideo(e) ==> r == Failure(WrongMediaType)
    ensures IsVideo(e) && e.codec.pixelFormats.None? ==> r == Failure(NullPointer)
    ensures r.Success? <==>
              IsVideo(e) && e.codec.pixelFormats.Some? &&
              (|e.codec.pixelFormats.value| > 0 || (format.Some? && format.value in e.codec.pixelFormats.value))
    ensures r.Failure? && IsVideo(e) && e.codec.pixelFormats.Some? ==> r.error == IndexOutOfBounds
    ensures r.Success? ==>
              var supported := e.codec.pixelFormats.value;
              && r.value.codec == e.codec && r.value.syncOpts == e.syncOpts
              && r.value.config.pixelFormat.Some?
              && r.value.config.pixelFormat.value in supported
              && (format.Some? && format.value in supported ==> r.value.config.pixelFormat == format)
              && (format.None? || format.value !in supported ==> r.value.config.pixelFormat == Some(supported[0]))
              && Cfg.OnlyChanged(e.config, r.value.config, Cfg.PixelFormatField)
  {
    if !IsVideo(e) then Failure(WrongMediaType)
    else match e.codec.pixelFormats
      case None => Failure(NullPointer)
      case Some(supported) =>
        if format.Some? && format.value in supported then
          Success(WithConfig(e, Cfg.SetPixelFormat(e.config, format)))
        else if |supported| == 0 then Failure(IndexOutOfBounds)
        else Success(WithConfig(e, Cfg.SetPixelFormat(e.config, Some(supported[0]))))
  }

  // ---------------------------------------------------------------------------
  // Sample format
  // ---------------------------------------------------------------------------

  /** The sample formats `setSampleFormat(null)` tries, most preferred first. */
  const SampleFormatPriority: seq<SampleFormat> := [S16, S16P, S32, S32P, FLT, FLTP, DBL, DBLP]

  /** The loop over the defaults: the first element of `priority` that is in `supported`. */
  function FirstSupported(priority: seq<SampleFormat>, supported: seq<SampleFormat>): (r: Option<nat>)
    ensures r.None? <==> forall i :: 0 <= i < |priority| ==> priority[i] !in supported
    ensures r.Some? ==> r.value < |priority| && priority[r.value] in supported
    ensures r.Some? ==> forall i :: 0 <= i < r.value ==> priority[i] !in supported
  {
    if |priority| == 0 then None
    else if priority[0] in supported then Some(0)
    else match FirstSupported(priority[1..], supported)
      case None => None
      case Some(i) => Some(i + 1)
  }

  /** `setSampleFormat`: a given format is stored unchecked; null picks by priority, or fails. */
  function SetSampleFormat(e: Encoder, format: Option<SampleFormat>): (r: Result<Encoder, Error>)
    ensures !IsAudio(e) ==> r == Failure(WrongMediaType)
    ensures IsAudio(e) && format.Some? ==>
              r.Success? && r.value.config.sampleFormat == format
    ensures IsAudio(e) && format.None? && e.codec.sampleFormats.None? ==> r == Failure(NullPointer)
    ensures IsAudio(e) && format.None? && e.codec.sampleFormats.Some? ==>
              var supported := e.codec.sampleFormats.value;
              && (r.Failure? <==> forall f :: f in SampleFormatPriority ==> f !in supported)
              && (r.Failure? ==> r.error == NoFormatAvailable)
              && (r.Success? ==> exists k :: 0 <= k < |SampleFormatPriority| &&
                                   r.value.config.sampleFormat == Some(SampleFormatPriority[k]) &&
                                   SampleFormatPriority[k] in supported &&
                                   forall j :: 0 <= j < k ==> SampleFormatPriority[j] !in supported)
    ensures r.Success? ==>
              && r.value.codec == e.codec && r.value.syncOpts == e.syncOpts
              && Cfg.OnlyChanged(e.config, r.value.config, Cfg.SampleFormatField)
  {
    if !IsAudio(e) then Failure(WrongMediaType)
    else if format.Some? then Success(WithConfig(e, Cfg.SetSampleFormat(e.config, format)))
    else match e.codec.sampleFormats
      case None => Failure(NullPointer)
      case Some(supported) =>
        match FirstSupported(SampleFormatPriority, supported)
        case None => Failure(NoFormatAvailable)
        case Some(k) => Success(WithConfig(e, Cfg.SetSampleFormat(e.config, Some(SampleFormatPriority[k]))))
  }

  /** A codec supporting S16 always gets S16, whatever else it lists. */
  lemma PrefersS16(e: Encoder)
    requires IsAudio(e) && e.codec.sampleFormats.Some? && S16 in e.codec.sampleFormats.value
    ensures SetSampleFormat(e, None).Success?
    ensures SetSampleFormat(e, None).value.config.sampleFormat == Some(S16)
  {
    assert FirstSupported(SampleFormatPriority, e.codec.sampleFormats.value) == Some(0);
  }

  /** A codec supporting only planar float gets FLTP: everything before it in the priority list is missing. */
  lemma PlanarFloatOnly(e: Encoder)
    requires IsAudio(e) && e.codec.sampleFormats == Some([FLTP])
    ensures SetSampleFormat(e, None).Success?
    ensures SetSampleFormat(e, None).value.config.sampleFormat == Some(FLTP)
  {
    assert SampleFormatPriority[5] == FLTP;
    assert forall j :: 0 <= j < 5 ==> SampleFormatPriority[j] !in [FLTP];
  }

  // ---------------------------------------------------------------------------
  // Timestamp counter
  // ---------------------------------------------------------------------------

  /** What `avcodec_encode_video2` reports: its status, and whether it produced a packet with what pts. */
  datatype VideoEncodeCall = VideoEncodeCall(status: int, gotPacket: bool, packetPts: Option<int>, codecDelays: bool)

  /** The packet `encodeVideo` returns, with its timestamp. */
  datatype VideoPacket = VideoPacket(pts: Option<int>)

  /** The outcome of one `encodeVideo` call: the frame's pts, the packet if any, the new encoder. */
  datatype VideoOutcome = VideoOutcome(framePts: int, packet: Option<VideoPacket>, encoder: Encoder)

  /**
   * The counter part of `encodeVideo`: the frame is stamped with
   * `sync_opts`; a failed encode throws before the counter moves;
   * otherwise the counter advances by one whether or not a packet came
   * out, and a packet without a pts from a codec without delay is stamped
   * with the frame's pts.
   */
  function EncodeVideo(e: Encoder, call: VideoEncodeCall): (r: Result<VideoOutcome, Error>)
    ensures r.Failure? <==> call.status < 0
    ensures r.Success? ==> r.value.framePts == e.syncOpts
    ensures r.Success? ==> r.value.encoder == e.(syncOpts := e.syncOpts + 1)
    ensures r.Success? ==> (r.value.packet.Some? <==> call.gotPacket)
    ensures r.Success? && call.gotPacket && call.packetPts.None? && !call.codecDelays ==>
              r.value.packet == Some(VideoPacket(Some(e.syncOpts)))
    ensures r.Success? && call.gotPacket && (call.packetPts.Some? || call.codecDelays) ==>
              r.value.packet == Some(VideoPacket(call.packetPts))
  {
    if call.status < 0 then Failure(EncodeFailed)
    else
      var framePts := e.syncOpts;
      if call.gotPacket then
        var pts := if call.packetPts.None? && !call.codecDelays then Some(framePts) else call.packetPts;
        Success(VideoOutcome(framePts, Some(VideoPacket(pts)), e.(syncOpts := e.syncOpts + 1)))
      else
        Success(VideoOutcome(framePts, None, e.(syncOpts := e.syncOpts + 1)))
  }

  /** Calls `encodeVideo` once per reported encode, stopping at the first failure; returns the frame timestamps. */
  function EncodeVideos(e: Encoder, calls: seq<VideoEncodeCall>): Result<(seq<int>, Encoder), Error>
    decreases |calls|
  {
    if |calls| == 0 then Success(([], e))
    else
      var o :- EncodeVideo(e, calls[0]);
      var (rest, last) :- EncodeVideos(o.encoder, calls[1..]);
      Success(([o.framePts] + rest, last))
  }

  /**
   * Over any run of successful encodes the counter advances by exactly the
   * number of calls, and frame `i` is stamped with the start value plus `i`.
   */
  lemma {:induction false} VideoCounterCountsCalls(e: Encoder, calls: seq<VideoEncodeCall>)
    requires forall i :: 0 <= i < |calls| ==> calls[i].status >= 0
    ensures EncodeVideos(e, calls).Success?
    ensures EncodeVideos(e, calls).value.1 == e.(syncOpts := e.syncOpts + |calls|)
    ensures |EncodeVideos(e, calls).value.0| == |calls|
    ensures forall i :: 0 <= i < |calls| ==> EncodeVideos(e, calls).value.0[i] == e.syncOpts + i
    decreases |calls|
  {
    if |calls| > 0 {
      var next := e.(syncOpts := e.syncOpts + 1);
      VideoCounterCountsCalls(next, calls[1..]);
    }
  }

  /** The audio frame fields `encodeAudioFrame` reads: its pts (None for AV_NOPTS_VALUE) and sample count. */
  datatype AudioFrame = AudioFrame(pts: Option<int>, sampleCount: JInt)

  /**
   * The counter part of `encodeAudioFrame` for a non-null frame: a frame
   * without a pts is stamped with `sync_opts`, then the counter moves to
   * the frame's pts plus its sample count. This happens before the encode
   * call, so a failed encode still leaves the counter moved; the result
   * pairs the stamped pts with the new counter.
   */
  function StampAudio(syncOpts: int, frame: AudioFrame): (r: (int, int))
    ensures frame.pts.None? ==> r.0 == syncOpts
    ensures frame.pts.Some? ==> r.0 == frame.pts.value
    ensures r.1 == r.0 + frame.sampleCount
  {
    var pts := if frame.pts.None? then syncOpts else frame.pts.value;
    (pts, pts + frame.sampleCount)
  }

  /** `encodeAudioFrame`: stamps the frame, then encodes; the flush call (null frame) leaves the counter alone. */
  function EncodeAudioFrame(e: Encoder, frame: Option<AudioFrame>, status: int): (r: (Encoder, Result<Option<int>, Error>))
    ensures frame.None? ==> r.0 == e
    ensures frame.Some? ==> r.0 == e.(syncOpts := StampAudio(e.syncOpts, frame.value).1)
    ensures r.1.Failure? <==> status < 0
    ensures r.1.Success? ==> r.1.value == if frame.None? then None else Some(StampAudio(e.syncOpts, frame.value).0)
  {
    var (next, pts) := match frame
      case None => (e, None)
      case Some(f) =>
        var (p, s) := StampAudio(e.syncOpts, f);
        (e.(syncOpts := s), Some(p));
    if status < 0 then (next, Failure(EncodeFailed)) else (next, Success(pts))
  }

  /** Stamps a run of audio frames in order; returns the stamps and the final counter. */
  function StampAudioRun(syncOpts: int, frames: seq<AudioFrame>): (seq<int>, int)
    decreases |frames|
  {
    if |frames| == 0 then ([], syncOpts)
    else
      var (pts, next) := StampAudio(syncOpts, frames[0]);
      var (rest, last) := StampAudioRun(next, frames[1..]);
      ([pts] + rest, last)
  }

  /** The total sample count of a run of frames. */
  function TotalSamples(frames: seq<AudioFrame>): int
    decreases |frames|
  {
    if |frames| == 0 then 0 else frames[0].sampleCount + TotalSamples(frames[1..])
  }

  /**
   * Frames without their own pts get contiguous timestamps: the first
   * gets the counter, each next one starts where the previous one's
   * samples end, and the counter ends after the last sample.
   */
  lemma {:induction false} AudioStampsContiguous(syncOpts: int, frames: seq<AudioFrame>)
    requires forall i :: 0 <= i < |frames| ==> frames[i].pts.None?
    ensures |StampAudioRun(syncOpts, frames).0| == |frames|
    ensures |frames| > 0 ==> StampAudioRun(syncOpts, frames).0[0] == syncOpts
    ensures forall i :: 0 <= i < |frames| - 1 ==>
              StampAudioRun(syncOpts, frames).0[i + 1] == StampAudioRun(syncOpts, frames).0[i] + frames[i].sampleCount
    ensures StampAudioRun(syncOpts, frames).1 == syncOpts + TotalSamples(frames)
    decreases |frames|
  {
    if |frames| > 0 {
      var next := syncOpts + frames[0].sampleCount;
      AudioStampsContiguous(next, frames[1..]);
      var stamps := StampAudioRun(syncOpts, frames).0;
      var rest := StampAudioRun(next, frames[1..]).0;
      assert stamps == [syncOpts] + rest;
      forall i | 0 <= i < |frames| - 1
        ensures stamps[i + 1] == stamps[i] + frames[i].sampleCount
      {
        if i > 0 {
          assert frames[1..][i - 1] == frames[i];
        }
      }
    }
  }
}
