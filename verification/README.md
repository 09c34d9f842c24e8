# JavaAV core, modelled in Dafny

JavaAV is a Java binding over the FFmpeg libraries. Demuxing, decoding,
encoding, resampling and muxing are native calls. This project models the
parts of the binding that are plain Java logic, and proves what they do:

- **RingBuffer** (`ring_buffer.dfy`, `ring_buffer_props.dfy`). This is the
  multi-plane circular byte buffer the audio resampler uses to reassemble
  fixed-size frames. Each plane is a fixed store with a read cursor, a write
  cursor, an unread count and a free count. The model keeps the Java
  representation, and `Valid` states the per-plane invariant:
  - unread + free == capacity;
  - both cursors lie in `[0, capacity)`;
  - write cursor == (read cursor + unread) mod capacity.

  `Contents` reads a plane as the FIFO queue of its unread bytes.
  `RunRefines` proves that any run of writes, reads from index 0 and clears
  behaves exactly like the same run on bounded per-plane queues.
- **Image** (`image.dfy`).
  - `getPixelFormat` is the BufferedImage-type table.
  - The five strided `copy` overloads are one generic `Copy` method with a
    closed-form element-wise contract: which destination elements receive
    which source elements, and that every other element is unchanged.
  - The byte and short overloads pass values through a mask and a narrowing
    cast. `TransferIsIdentity` proves that round trip changes nothing.
- **CameraFormat** and the merge rule of **CameraCapabilities**
  (`camera_format.dfy`, `camera_capabilities.dfy`).
  - The comparator is width first, then height, and ignores the frame rate.
  - A probe over any sequence of parsed log lines gives a sorted set with
    one entry per resolution. Each entry carries the highest frame rate seen
    for its resolution.
- **Configurable** (`configurable.dfy`). This is the property bag.
  - Every setter is specified through the getters: the matching getter
    returns the new value, and every other getter is unchanged.
  - `setFlag` rejects null and otherwise appends.
- **Encoder** (`encoder.dfy`).
  - The setters: the media-type guards, the highest-rate fallback, the
    stereo fallback, the first-supported pixel format, the prioritised
    sample-format pick, and the non-negativity checks.
  - The `sync_opts` timestamp counter for video and audio.
- **PictureFormat**, **AudioFormat** and **Audio.getFormatDepth**
  (`formats.dfy`).

Modelling conventions:
- Java exceptions become `Failure` values of a `Result`. A nullable
  reference field or argument becomes an `Option`, with null as `None`.
  Array and buffer arguments are sequences and cannot be null.
- Java `byte`, `short` and `int` are the subset types `JByte`, `JShort` and
  `JInt`. Doubles are `real`.
- Everything is single-threaded and immutable: an operation returns the new
  object state.

Two behaviours of the ring buffer worth stating up front:
- A split read preserves byte order only when `offset == 0`. A wrapping
  read with a positive offset puts its second segment at `partLength`
  instead of `offset + partLength` (RingBuffer.java:214; see Findings).
- A negative plane count makes the Java array allocation throw, which the
  model reports as `NegativeArraySize` (RingBuffer.java:60-77).

## Model

| member | source | states |
|---|---|---|
| RingBuffers.Create | JavaAV/src/main/java/com/github/hoary/javaav/RingBuffer.java:60-77 | Fails with IllegalArgument exactly when capacity < 2, and otherwise with NegativeArraySize exactly when the plane count is negative. Otherwise the buffer satisfies the cursor invariant and every plane is empty, with all capacity free and both cursors at 0. |
| RingBuffers.CreateDefault | JavaAV/src/main/java/com/github/hoary/javaav/RingBuffer.java:51-53 | The one-argument constructor gives a valid buffer of capacity 1024 with the requested number of empty planes. A negative count fails. |
| RingBuffers.Clear | JavaAV/src/main/java/com/github/hoary/javaav/RingBuffer.java:82-88 | Keeps the invariant and empties every plane: free == capacity, cursors 0, and the stored bytes untouched. |
| RingBuffers.Available | JavaAV/src/main/java/com/github/hoary/javaav/RingBuffer.java:98-100 | Returns the unread count of plane 0 only. A buffer with no planes fails with IndexOutOfBounds. |
| RingBuffers.WritePlane | JavaAV/src/main/java/com/github/hoary/javaav/RingBuffer.java:150-165 | Storing a chunk that fits the free space keeps the plane invariant, leaves the read cursor alone, and appends the chunk to the plane's queue of unread bytes. |
| RingBuffers.WriteAppends | JavaAV/src/main/java/com/github/hoary/javaav/RingBuffer.java:150-165 | Both branches of the wrap split keep the invariant and append the chunk to the unread queue. One branch is a single put with the cursor advanced; the other is a put to the end of the store, then a put from index 0 with the cursor at length - partLength. |
| RingBuffers.Write | JavaAV/src/main/java/com/github/hoary/javaav/RingBuffer.java:139-168 | Fails with IndexOutOfBounds, changing nothing, exactly when the range is bad or the plane does not exist. Otherwise writes n == min(length, free) bytes, which is 0 on a full plane, and moves n from free to unread. The unread queue becomes the old queue followed by data[offset..offset+n], so unread data is never overwritten. Other planes are unchanged. |
| RingBuffers.WriteAll | JavaAV/src/main/java/com/github/hoary/javaav/RingBuffer.java:125-127 | `write(plane, data)` appends the first min(data.length, free) bytes of data to the plane's queue. |
| RingBuffers.WriteBuffer | JavaAV/src/main/java/com/github/hoary/javaav/RingBuffer.java:110-115 | `write(plane, ByteBuffer)` fails with BufferUnderflow exactly when the source position is not 0, and the source is then untouched. Otherwise the source position moves to its limit, even when the write then fails. The call fails with IndexOutOfBounds exactly when the plane does not exist. On success it appends the source's first min(limit, free) bytes, and other planes and the capacity are unchanged. |
| RingBuffers.ReadPlane | JavaAV/src/main/java/com/github/hoary/javaav/RingBuffer.java:204-219 | Consuming n unread bytes keeps the invariant and the store. It advances the read cursor by n modulo the capacity, drops the first n bytes of the queue, and frees n bytes. |
| RingBuffers.ReadRemoves | JavaAV/src/main/java/com/github/hoary/javaav/RingBuffer.java:204-219 | The cursor update of both branches of the wrap split (cursor + n, or n - partLength) keeps the invariant and leaves the queue minus its first n bytes. |
| RingBuffers.OldestBytes | JavaAV/src/main/java/com/github/hoary/javaav/RingBuffer.java:204-216 | The store slice, or the two store slices, that the gets read are exactly the oldest n unread bytes, in order. |
| RingBuffers.GetInto | JavaAV/src/main/java/com/github/hoary/javaav/RingBuffer.java:207-216 | The destination after the gets, as written. Without a wrap, or at offset 0, the oldest n bytes land at data[offset..]. On a wrap, the first part lands at offset and the second part at partLength. |
| RingBuffers.Read | JavaAV/src/main/java/com/github/hoary/javaav/RingBuffer.java:194-222 | Fails with IndexOutOfBounds exactly when the range is bad or the plane does not exist. Otherwise reads n == min(length, unread) bytes, which is 0 on an empty plane, and moves n from unread to free. The read cursor advances by n modulo the capacity, and the queue loses its first n bytes. The destination receives those bytes as `GetInto` describes. Other planes are unchanged. |
| RingBuffers.SecondGetAtZeroOffset | JavaAV/src/main/java/com/github/hoary/javaav/RingBuffer.java:212-214 | At offset 0, the two gets of a wrapping read put the chunk into the destination in order. |
| RingBuffers.ReadAll | JavaAV/src/main/java/com/github/hoary/javaav/RingBuffer.java:180-182 | `read(plane, data)` fills data[..n] with the oldest n unread bytes in write order and leaves data[n..] alone. The plane is consumed as in Read, and other planes and the capacity are unchanged. |
| RingBuffers.ReadCorrected | JavaAV/src/main/java/com/github/hoary/javaav/RingBuffer.java:194-222 | Read with the second get at offset + partLength. The oldest n bytes land in order at data[offset..] for every offset. The plane is consumed as in Read (Consumed: n bytes leave the front of the queue, the read cursor moves n modulo the capacity), and other planes and the capacity are unchanged. |
| RingBuffers.ReadCorrectedKeepsBuffer | JavaAV/src/main/java/com/github/hoary/javaav/RingBuffer.java:194-222 | The corrected read fails exactly when Read does, and otherwise leaves the same buffer and count. Only the destination array differs. |
| RingBuffers.GetIntoCorrected | JavaAV/src/main/java/com/github/hoary/javaav/RingBuffer.java:211-216 | With the corrected second get, the destination is data with the oldest n bytes put at offset, whether or not the read wraps. |
| RingBufferProperties.StepRefines | JavaAV/src/main/java/com/github/hoary/javaav/RingBuffer.java:82-222 | One write, read or clear on the buffer returns what the same call on the per-plane queues returns, and leaves the same queues. |
| RingBufferProperties.RunRefines | JavaAV/src/main/java/com/github/hoary/javaav/RingBuffer.java:82-222 | Any sequence of writes, reads from index 0 and clears on a valid buffer returns exactly the outcomes of bounded FIFO queues. It also leaves exactly their contents unread. |
| RingBufferProperties.WriteThenReadInOrder | JavaAV/src/main/java/com/github/hoary/javaav/RingBuffer.java:139-222 | Writing a that fits, then reading everything, returns the previously unread bytes followed by a, wrap or no wrap, and empties the plane. |
| RingBufferProperties.ClearIdempotent | JavaAV/src/main/java/com/github/hoary/javaav/RingBuffer.java:82-100 | clear twice equals clear once, and afterwards available() is 0. |
| RingBufferProperties.AvailableSeesPlaneZeroOnly | JavaAV/src/main/java/com/github/hoary/javaav/RingBuffer.java:98-100 | Writes and reads on any plane other than 0 do not change available(). |
| RingBufferProperties.ScenarioOnQueues | JavaAV/src/main/java/com/github/hoary/javaav/RingBuffer.java:139-222 | On a capacity-10 queue: write 1..8, write 9..11, read 10, write 20..23, read 4. This yields 8 and 2 written, bytes 1..10, 4 written, and bytes 20..23. |
| RingBufferProperties.CapacityTenScenario | JavaAV/src/main/java/com/github/hoary/javaav/RingBuffer.java:139-222 | The same run on a real capacity-10 buffer gives the same outcomes, including the wrapping write and read, and leaves nothing available. |
| RingBufferProperties.DefectSetupState | JavaAV/src/main/java/com/github/hoary/javaav/RingBuffer.java:139-222 | Capacity 4: write 1,2,3; read 2; write 4,5. This leaves unread bytes 3,4,5 with the read cursor at 2. |
| RingBufferProperties.ReadWithOffsetMisorders | JavaAV/src/main/java/com/github/hoary/javaav/RingBuffer.java:212-214 | From that state, read(0, [0,0,0,0], 1, 3) as written yields [0,3,5,0]: byte 4 is overwritten and the last slot is never filled. The corrected read yields [0,3,4,5]. |
| Images.GetPixelFormat | JavaAV/src/main/java/com/github/hoary/javaav/Image.java:45-84 | Null exactly for TYPE_CUSTOM, TYPE_INT_BGR and unknown types. Every other type maps to a format whose type list contains it. |
| Images.GetPixelFormatInverse | JavaAV/src/main/java/com/github/hoary/javaav/Image.java:45-84 | A type maps to format f exactly when it is one of f's BufferedImage types, e.g. INT_ARGB and INT_ARGB_PRE for ARGB. |
| Images.CopyRow | JavaAV/src/main/java/com/github/hoary/javaav/Image.java:219-225 | The inner loop writes the elements of an executed row k, and only those, with converted source elements. |
| Images.Copy | JavaAV/src/main/java/com/github/hoary/javaav/Image.java:210-320 | Rows run while both line starts lie below their capacities. Each row positions both buffers, which throws IllegalArgumentException exactly when a start is negative or past its limit. `thrown` holds exactly when some reached row throws. Destination index i holds the converted element at SourceOf(i) when i lies in a row executed before any throw, at a column below that row's width; otherwise it keeps its old value. Row widths are clamped to what remains before each limit, so every access is in bounds. |
| Images.CopiedRow | JavaAV/src/main/java/com/github/hoary/javaav/Image.java:219-225 | Row k writes dst[dstStart + k*dstStep + x] from src[srcStart + k*srcStep + x] for every x below the row's width, and that index lies below the destination limit. |
| Images.RowWidthShrinks | JavaAV/src/main/java/com/github/hoary/javaav/Image.java:211-219 | With non-negative steps, the row width starts at min(srcStep, dstStep), never increases, and is each time clamped to what remains before both limits. |
| Images.NextWidth | JavaAV/src/main/java/com/github/hoary/javaav/Image.java:211-219 | The loop's running `w`, clamped at row k, equals that row's closed-form width. |
| Images.NotVisitedAfter | JavaAV/src/main/java/com/github/hoary/javaav/Image.java:215-228 | With non-negative steps, once a line start reaches its buffer's capacity, no later row passes the loop condition. |
| Images.ReachedPrefix | JavaAV/src/main/java/com/github/hoary/javaav/Image.java:215-217 | Reaching row j means every earlier row passed the loop condition and both position calls. |
| Images.CoveredBeforeExit | JavaAV/src/main/java/com/github/hoary/javaav/Image.java:215-217 | When the loop stops at row k, by its condition or by a throw, the covered indices are exactly those of rows below k. |
| Images.NoThrowAfterExit | JavaAV/src/main/java/com/github/hoary/javaav/Image.java:215-217 | A loop that ends by its condition at a reached row throws at no row. |
| Images.NothingCopiedWithoutPositiveSteps | JavaAV/src/main/java/com/github/hoary/javaav/Image.java:211-221 | A step of 0 or less on either side gives w <= 0, so no element is copied. This is what step/2, step/4 or step/8 of a narrow row gives. |
| Images.WrappedBuffersNeverThrow | JavaAV/src/main/java/com/github/hoary/javaav/Image.java:215-217 | Buffers whose limit is their capacity, as `wrap` makes them, never throw with non-negative steps. |
| Images.PastLimitThrows | JavaAV/src/main/java/com/github/hoary/javaav/Image.java:162 | A source limited below its capacity, as createImage sets it: capacity 10, limit 4, steps 3. Row 1 is clamped to one element and row 2 throws at position 6. |
| Images.TransferIsIdentity | JavaAV/src/main/java/com/github/hoary/javaav/Image.java:221-247 | (byte)(signed ? b : b & 0xFF) == b and (short)(signed ? s : s & 0xFFFF) == s. |
| Images.CopyBytes | JavaAV/src/main/java/com/github/hoary/javaav/Image.java:210-230 | The byte copy moves covered elements unchanged for either value of `signed`, leaves the rest of the destination alone, and throws exactly as Copy does. |
| Images.CopyShorts | JavaAV/src/main/java/com/github/hoary/javaav/Image.java:232-252 | The short copy moves covered elements unchanged for either value of `signed`, leaves the rest of the destination alone, and throws exactly as Copy does. |
| CameraFormats.IsValidCases | JavaAV/src/main/java/com/github/hoary/javaav/CameraFormat.java:123-125 | A format is valid exactly when width, height and frame rate are all positive. A negative size or a zero frame rate is invalid. |
| CameraFormats.DefaultFormat | JavaAV/src/main/java/com/github/hoary/javaav/CameraFormat.java:46-48 | The no-argument format is 0x0 at 0 fps and is not valid. |
| CameraFormats.Compare | JavaAV/src/main/java/com/github/hoary/javaav/CameraFormat.java:132-146 | The result is -1, 0 or 1. It is 0 exactly for equal width and height, whatever the frame rates, and negative exactly when (width, height) is lexicographically smaller. |
| CameraFormats.CompareTo | JavaAV/src/main/java/com/github/hoary/javaav/CameraFormat.java:128-131 | compareTo(null) is 0. Otherwise it is the width-then-height comparison. |
| CameraFormats.CompareAntisymmetric | JavaAV/src/main/java/com/github/hoary/javaav/CameraFormat.java:128-146 | compare(a, b) == -compare(b, a). |
| CameraFormats.CompareTransitive | JavaAV/src/main/java/com/github/hoary/javaav/CameraFormat.java:128-146 | The strict and the non-strict orders are transitive. |
| CameraFormats.CompareIgnoresFrameRate | JavaAV/src/main/java/com/github/hoary/javaav/CameraFormat.java:132-139 | Two formats differing only in frame rate compare equal both ways. |
| CameraCapabilitiesModel.ApplyResolutions | JavaAV/src/main/java/com/github/hoary/javaav/CameraCapabilities.java:81-86 | After the match loop, width and height come from the last WxH match. No match leaves the format as it was. |
| CameraCapabilitiesModel.ParseLine | JavaAV/src/main/java/com/github/hoary/javaav/CameraCapabilities.java:78-93 | A line's format takes its size from the last match, or 0x0. Its frame rate comes from the fps match. Without one the rate stays 0 and the format is invalid. |
| CameraCapabilitiesModel.Find | JavaAV/src/main/java/com/github/hoary/javaav/CameraCapabilities.java:98-102 | Finds the entry comparing equal to the format, or reports that there is none. |
| CameraCapabilitiesModel.Insert | JavaAV/src/main/java/com/github/hoary/javaav/CameraCapabilities.java:96 | Adding a new resolution to the sorted set keeps it strictly sorted and adds exactly that element. |
| CameraCapabilitiesModel.RemoveAt | JavaAV/src/main/java/com/github/hoary/javaav/CameraCapabilities.java:103 | Removing an entry keeps the set sorted and removes exactly that element. |
| CameraCapabilitiesModel.SameResolutionSameEntry | JavaAV/src/main/java/com/github/hoary/javaav/CameraCapabilities.java:65 | In the TreeSet, two entries with the same resolution are the same entry. |
| CameraCapabilitiesModel.Merge | JavaAV/src/main/java/com/github/hoary/javaav/CameraCapabilities.java:95-109 | An invalid format leaves the set unchanged, and a new resolution is added. An existing entry is replaced by the format only when the entry's fps is strictly lower; otherwise the set is unchanged. The set stays strictly sorted. |
| CameraCapabilitiesModel.Probe | JavaAV/src/main/java/com/github/hoary/javaav/CameraCapabilities.java:64-129 | Folding the merge over the log lines always gives a strictly sorted array. |
| CameraCapabilitiesModel.MergeKeepsFromLines | JavaAV/src/main/java/com/github/hoary/javaav/CameraCapabilities.java:95-109 | After a merge, every entry is valid and is the format of some line. |
| CameraCapabilitiesModel.MergeKeepsDominates | JavaAV/src/main/java/com/github/hoary/javaav/CameraCapabilities.java:95-109 | After a merge, every valid line still has an entry of its resolution with at least its fps. |
| CameraCapabilitiesModel.DominatesIsMaximum | JavaAV/src/main/java/com/github/hoary/javaav/CameraCapabilities.java:98-107 | With one entry per resolution, that entry's fps is at least the fps of every valid line of its resolution. |
| CameraCapabilitiesModel.ProbeKeepsInvariant | JavaAV/src/main/java/com/github/hoary/javaav/CameraCapabilities.java:64-109 | Sortedness, validity, provenance and dominance hold after every prefix of the log. |
| CameraCapabilitiesModel.ProbeResult | JavaAV/src/main/java/com/github/hoary/javaav/CameraCapabilities.java:64-129 | After any log, the result is sorted by width then height with one entry per resolution. Only valid formats that some line produced are in it. Every valid line's resolution is present, carrying the maximum fps reported for it. |
| Configurables.Get | JavaAV/src/main/java/com/github/hoary/javaav/Configurable.java:83-298 | Each of the twelve getters returns its declared Java type. The seven `int` getters return a 32-bit value, the two `double` getters a real, and the three enum getters an enum constant or null. The flags list is the thirteenth field. |
| Configurables.GettersDetermineConfig | JavaAV/src/main/java/com/github/hoary/javaav/Configurable.java:38-75 | Two bags whose getters all agree are equal, so the getter-based setter contracts pin down the whole state. |
| Configurables.Initial | JavaAV/src/main/java/com/github/hoary/javaav/Configurable.java:38-75 | The enum fields are null and the numeric fields 0. Quality is -1 and the flag list is empty. |
| Configurables.SetMediaType | JavaAV/src/main/java/com/github/hoary/javaav/Configurable.java:92-94 | getMediaType returns the argument; every other getter is unchanged. |
| Configurables.SetImageWidth | JavaAV/src/main/java/com/github/hoary/javaav/Configurable.java:101-103 | getImageWidth returns the argument; every other getter is unchanged. |
| Configurables.SetImageHeight | JavaAV/src/main/java/com/github/hoary/javaav/Configurable.java:119-121 | getImageHeight returns the argument; every other getter is unchanged. |
| Configurables.SetGOPSize | JavaAV/src/main/java/com/github/hoary/javaav/Configurable.java:139-141 | getGOPSize returns the argument; every other getter is unchanged. |
| Configurables.SetPixelFormat | JavaAV/src/main/java/com/github/hoary/javaav/Configurable.java:159-161 | getPixelFormat returns the argument; every other getter is unchanged. |
| Configurables.SetSampleFormat | JavaAV/src/main/java/com/github/hoary/javaav/Configurable.java:179-181 | getSampleFormat returns the argument; every other getter is unchanged. |
| Configurables.SetBitrate | JavaAV/src/main/java/com/github/hoary/javaav/Configurable.java:197-199 | getBitrate returns the argument; every other getter is unchanged. |
| Configurables.SetFramerate | JavaAV/src/main/java/com/github/hoary/javaav/Configurable.java:215-217 | getFramerate returns the argument; every other getter is unchanged. |
| Configurables.SetSamplerate | JavaAV/src/main/java/com/github/hoary/javaav/Configurable.java:233-235 | getSampleRate returns the argument; every other getter is unchanged. |
| Configurables.SetAudioChannels | JavaAV/src/main/java/com/github/hoary/javaav/Configurable.java:251-253 | getAudioChannels returns the argument; every other getter is unchanged. |
| Configurables.SetQuality | JavaAV/src/main/java/com/github/hoary/javaav/Configurable.java:269-271 | getQuality returns the argument; every other getter is unchanged. |
| Configurables.SetProfile | JavaAV/src/main/java/com/github/hoary/javaav/Configurable.java:287-289 | As written: getProfile then returns the current bitrate, not the argument. Every other getter is unchanged. |
| Configurables.SetProfileCorrected | JavaAV/src/main/java/com/github/hoary/javaav/Configurable.java:287-298 | The setter its getter pairs with: getProfile returns the argument; every other getter is unchanged. |
| Configurables.SetProfileLosesArgument | JavaAV/src/main/java/com/github/hoary/javaav/Configurable.java:287-289 | Whenever bitrate differs from the requested profile, getProfile does not return it after setProfile, and does after the corrected setter. |
| Configurables.SetProfileExample | JavaAV/src/main/java/com/github/hoary/javaav/Configurable.java:287-289 | setBitrate(128000) then setProfile(1) reads back profile 128000, against 1 for the corrected setter. |
| Configurables.SetFlag | JavaAV/src/main/java/com/github/hoary/javaav/Configurable.java:307-312 | Fails exactly on null, leaving the list alone. Otherwise the flag is appended and nothing else changes. |
| Configurables.SetFlagsFails | JavaAV/src/main/java/com/github/hoary/javaav/Configurable.java:307-309 | A run of setFlag calls fails exactly when one argument is null. |
| Configurables.SetFlagsAppends | JavaAV/src/main/java/com/github/hoary/javaav/Configurable.java:311 | A run of non-null setFlag calls succeeds. The result is the starting bag with exactly the flags appended in call order, duplicates included. |
| Configurables.SetFlagsOnlyChangesFlags | JavaAV/src/main/java/com/github/hoary/javaav/Configurable.java:307-312 | After a run of non-null setFlag calls, the protected `flags` list is the old list followed by the new flags, and every getter is unchanged. |
| Encoders.ChooseSampleRate | JavaAV/src/main/java/com/github/hoary/javaav/Encoder.java:354-364 | The chosen rate is always supported. It is the requested rate when that is supported, and the list's last element otherwise. |
| Encoders.SetSampleRate | JavaAV/src/main/java/com/github/hoary/javaav/Encoder.java:350-367 | A non-audio codec fails, a null list gives NullPointer, and an empty list gives IndexOutOfBounds; success in exactly the remaining case. On success the stored rate is supported: the requested rate if supported, else the last listed. Only the sample rate changes. |
| Encoders.SampleRateFallbackIsHighest | JavaAV/src/main/java/com/github/hoary/javaav/Encoder.java:356-358 | With the ascending list the codec reports, an unsupported rate falls back to the highest supported rate. |
| Encoders.ChooseChannels | JavaAV/src/main/java/com/github/hoary/javaav/Encoder.java:373-392 | Without a layout list the request stands. Otherwise it stands exactly when its default layout is known and supported, and falls back to 2 (stereo). |
| Encoders.SetChannels | JavaAV/src/main/java/com/github/hoary/javaav/Encoder.java:369-395 | Fails exactly for non-audio codecs. On success only the channel count changes, to the request or to stereo's 2. |
| Encoders.CheckedVideoValue | JavaAV/src/main/java/com/github/hoary/javaav/Encoder.java:413-419 | A value passes exactly for a video codec and a value >= 0. The two failures are distinguished. |
| Encoders.SetImageWidth | JavaAV/src/main/java/com/github/hoary/javaav/Encoder.java:412-420 | Succeeds exactly for a video codec and a width >= 0 (0 accepted). The failure is WrongMediaType or NegativeValue. On success only the width changes. |
| Encoders.SetImageHeight | JavaAV/src/main/java/com/github/hoary/javaav/Encoder.java:422-430 | Succeeds exactly for a video codec and a height >= 0 (0 accepted). On success only the height changes. |
| Encoders.SetGOPSize | JavaAV/src/main/java/com/github/hoary/javaav/Encoder.java:432-440 | Succeeds exactly for a video codec and a size >= 0 (0 accepted). On success only the GOP size changes. |
| Encoders.SetPixelFormat | JavaAV/src/main/java/com/github/hoary/javaav/Encoder.java:442-459 | A non-video codec fails, a null list gives NullPointer, and an empty list without a supported request gives IndexOutOfBounds. A supported format is stored as given; null or unsupported stores the first supported. Only the pixel format changes. |
| Encoders.FirstSupported | JavaAV/src/main/java/com/github/hoary/javaav/Encoder.java:476-481 | Returns the first priority entry that is supported, with every earlier one unsupported. Returns none exactly when no entry is supported. |
| Encoders.SetSampleFormat | JavaAV/src/main/java/com/github/hoary/javaav/Encoder.java:461-493 | A non-null format is stored unchecked. Null picks the first of S16, S16P, S32, S32P, FLT, FLTP, DBL, DBLP the codec supports, and fails with NoFormatAvailable, storing nothing, when none is. A non-audio codec fails. |
| Encoders.PrefersS16 | JavaAV/src/main/java/com/github/hoary/javaav/Encoder.java:469-481 | A codec supporting S16 gets S16 from setSampleFormat(null). |
| Encoders.PlanarFloatOnly | JavaAV/src/main/java/com/github/hoary/javaav/Encoder.java:469-481 | A codec supporting only FLTP gets FLTP from setSampleFormat(null). |
| Encoders.EncodeVideo | JavaAV/src/main/java/com/github/hoary/javaav/Encoder.java:208-247 | The frame pts is sync_opts. A failed encode throws with the counter unchanged. Otherwise the counter rises by exactly one, packet or not, and a packet without pts from a codec without delay is stamped with sync_opts. A packet that has its own pts, or comes from a delaying codec, keeps the pts the encoder gave it. |
| Encoders.VideoCounterCountsCalls | JavaAV/src/main/java/com/github/hoary/javaav/Encoder.java:212-247 | Over n successful calls the counter rises by n, and frame i is stamped with the start value plus i. |
| Encoders.StampAudio | JavaAV/src/main/java/com/github/hoary/javaav/Encoder.java:303-308 | A frame without pts is stamped with sync_opts, one with pts keeps it, and the counter becomes pts + nb_samples. |
| Encoders.EncodeAudioFrame | JavaAV/src/main/java/com/github/hoary/javaav/Encoder.java:298-311 | The counter moves before the encode, so it moves even when the encode fails. The flush call (null frame) leaves it alone. |
| Encoders.AudioStampsContiguous | JavaAV/src/main/java/com/github/hoary/javaav/Encoder.java:303-308 | Frames without their own pts get contiguous stamps: each starts where the previous frame's samples end, and the counter ends at start + total samples. |
| PictureFormats.Equals | JavaAV/src/main/java/com/github/hoary/javaav/PictureFormat.java:73-85 | equals holds exactly for a non-null format with the same width, height and pixel format. |
| PictureFormats.EqualsIsEquivalence | JavaAV/src/main/java/com/github/hoary/javaav/PictureFormat.java:73-85 | equals is reflexive, symmetric and transitive, and false for null. |
| PictureFormats.IsValidCases | JavaAV/src/main/java/com/github/hoary/javaav/PictureFormat.java:69-71 | Valid exactly when width != 0, height != 0 and the format is not NONE. Negative sizes and a null format count as valid. |
| AudioFormats.DefaultAudioFormat | JavaAV/src/main/java/com/github/hoary/javaav/AudioFormat.java:46-48 | Null sample format and layout, 0 channels, rate 0. |
| AudioFormats.Equals | JavaAV/src/main/java/com/github/hoary/javaav/AudioFormat.java:137-150 | equals holds exactly for a non-null format with the same sample format, layout, channel count and rate. |
| AudioFormats.EqualsIsEquivalence | JavaAV/src/main/java/com/github/hoary/javaav/AudioFormat.java:137-150 | equals is reflexive, symmetric and transitive, and false for null. |
| AudioFormats.EveryFieldMatters | JavaAV/src/main/java/com/github/hoary/javaav/AudioFormat.java:148-149 | Changing any one of the four fields makes the formats unequal. |
| Audios.FormatDepth | JavaAV/src/main/java/com/github/hoary/javaav/Audio.java:48-69 | Depth is 1 exactly for U8/U8P, 2 for S16/S16P, 4 for S32/S32P/FLT/FLTP, 8 for DBL/DBLP, and 0 for NONE. A null format throws. |
| Audios.PackedAndPlanarSameDepth | JavaAV/src/main/java/com/github/hoary/javaav/Audio.java:48-69 | A packed format and its planar variant have the same depth. |
| Audios.DepthIsPowerOfTwo | JavaAV/src/main/java/com/github/hoary/javaav/Audio.java:48-69 | Every format other than NONE has depth 1, 2, 4 or 8. |

## Left out

- Native plumbing is not modelled: Demuxer, Muxer, Coder open/close, the Codec lookups and list readers, PictureResampler and AudioResampler. These are FFmpeg calls with native resources and file or network I/O. The codec's supported lists, its media type, FFmpeg's default channel layout and the encode status are inputs instead.
- `Encoder.setFramerate` is not modelled: it converts through the native `av_d2q` and `av_find_nearest_q_idx`.
- `Encoder.encodeVideo` and `encodeAudio` keep only their `sync_opts` bookkeeping and packet stamping. Picture filling, resampling, field order and packet copying are native.
- The Coder getter overrides that read a native codec context are not modelled. The bag is modelled with no context attached.
- The enum `byId` tables and numeric ids are native header constants. Pixel formats the model does not name are `Other(name)`, whose name is never one of the named constants.
- `Audio.getAudio8/16/24/32` and the `quantize` helpers are floating-point conversions and are not modelled.
- `Image.createImageBuffer` and `createImage` build AWT rasters and are not modelled. `copy` is modelled over sequences, each with a start position and a limit. The limit may lie below the capacity: `createImage` sets the source limit to height*width*channels (Image.java:162), which clamps rows and can make `position` throw.
- Images.Copy: requires that the two steps are not both 0 while both start positions lie inside their buffers. On that input Java loops forever (w stays 0 and the lines never move), and a call that never returns cannot be modelled. Every caller passes the scanline stride, positive for any raster, as one of the two steps.
- Images.Copy: line starts are unbounded integers. Java's `int` sum `srcLine + srcStep` wraps negative past 2^31-1, which can make the next `position` call throw. The model ends the loop there instead.
- Images.Copy: a throw is reported as `thrown` together with the destination as the rows before it left it. The buffers' final positions are not modelled.
- Null arrays and buffers are not modelled, because sequences cannot be null. Java throws NullPointerException at `data.length` in the ring buffer's `write` and `read` (RingBuffer.java:140,195), and at the first buffer call in `Image.copy`.
- CameraCapabilities: the regular expressions, `av_log_format_line` and the log-callback installation are not modelled. A log line is given as its list of WxH matches and its optional fps match.
- CameraFormats.IsValid: frame rates are reals, so NaN and infinities (which `> 0` rejects) are not modelled.
- Encoders.EncodeVideo: `sync_opts` is an unbounded integer; Java's 64-bit wrap-around after 2^63 frames is not modelled.
- Encoders.StampAudio: likewise, the 64-bit `pts + nb_samples` sum is not wrapped.
- Concurrency is not modelled: the `synchronized` ring-buffer methods, the unsynchronised `available()`, and Camera's AtomicBoolean. Every call is a single atomic step.
- The width alignment in Muxer, `(w + 15) / 16 * 16`, is not modelled. Muxer is native plumbing.
- `toString` methods, logging, the examples and the tests are not modelled.

## Findings

| source | as written | input that shows it | evidently intended | confidence | as-written member | corrected member |
|---|---|---|---|---|---|---|
| JavaAV/src/main/java/com/github/hoary/javaav/RingBuffer.java:214 | the second get of a wrapping read writes at `data[partLength]` | capacity 4; write 1,2,3; read 2; write 4,5; then read(0, [0,0,0,0], 1, 3) yields [0,3,5,0] | `data[offset + partLength]`, giving [0,3,4,5] | not executed | RingBufferProperties.ReadWithOffsetMisorders | RingBuffers.ReadCorrected |
| JavaAV/src/main/java/com/github/hoary/javaav/Configurable.java:288 | `setProfile` stores the current bitrate and ignores its argument | setBitrate(128000); setProfile(1); getProfile() returns 128000 | store the argument, so getProfile() returns 1 | not executed | Configurables.SetProfileLosesArgument | Configurables.SetProfileCorrected |
