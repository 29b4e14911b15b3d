# music_editor: the AIFF reader and writer, modelled in Dafny

`music_editor` is a small C++ program that reads an AIFF sound file into a
`file_aiff_t` object, shuffles the samples of the first channel, copies them
to the second one and writes the object back out as an AIFF file. This
project models the codec at its core:

- `ntoh_base` and `ntoh`, the in-place byte reversal that turns host-order
  integers into big-endian wire integers (module `ByteOrder`);
- `stream_t`, a byte buffer with a read position, bounds-checked reads that
  throw "empty flow", optional peeking, appending writes, and the integer
  and length-prefixed string templates built on them (module `Streams`,
  class `Stream`);
- `file_aiff_t::read` and `file_aiff_t::write` (module `AiffFiles`, class
  `AiffFile`), with the file replaced by a byte sequence: `Read` takes the
  contents of the file and `Write` returns the bytes the file would receive.

The two operations are specified by pure functions in module `AiffFormat`:

- `Decode(bytes, init)` is what `read` leaves in the fields that started as
  `init`. It also says why the chunk loop stopped: a bad `FORM` tag, a bad
  form type, input used up, or an unknown chunk tag. It is `EmptyFlow` when
  a read runs past the end of the input.
- `Encode(a)` is the byte sequence `write` produces.

Both methods are proved to compute these functions exactly. Module
`AiffProperties` proves what the functions promise: the layout of an
encoded file, the size fields, and the early exits of the decoder. Its
main result is the round trip `DecodeEncode`: decoding what the encoder
wrote gives back every field, for any file both sides handle the same way.
Files with 24-bit samples are not among them: the decoder skips 3 bytes
per sample, while the encoder writes nothing.

Some facts the model makes explicit:

- The decoder reads the FORM size and each chunk's size field but never
  uses them. A chunk is as long as its contents say.
- The chunk loop runs until the input is used up. A tag other than NAME,
  COMM and SSND ends decoding normally, without reading past the tag.
- Integers have the width of their C++ type. The sizes `write` computes wrap
  modulo 2^32, just as the `uint32_t` arithmetic does.
- The sample matrix is `frames[channel][frame]`. On the wire, samples are
  stored frame by frame: the sample of frame `i`, channel `j`, sits
  `(i * numChannels + j) * width` bytes into the SSND sample region.

## Model

| member | source | states |
|---|---|---|
| `ByteOrder.ReverseBytes` | main.cpp:27-35 | the first `len` bytes of the array end up in reverse order; the bytes after them are unchanged |
| `ByteOrder.LeValueOfReversed` | main.cpp:37-40 | reversing wire bytes and then reading them in host (little-endian) order gives their big-endian value |
| `ByteOrder.ReversedLeBytes` | main.cpp:93-98 | byte-swapping the host storage of a value gives its big-endian encoding |
| `ByteOrder.ReversedTwice` | main.cpp:93-98 | swapping twice restores the bytes, so `write` leaves its argument as it was |
| `ByteOrder.BeValueOfBytes` | main.cpp:78-98 | a value below 256^w, written big-endian in w bytes, reads back as itself |
| `ByteOrder.BeBytesOfValue` | main.cpp:78-98 | w bytes read as a big-endian value and written back in w bytes give the same bytes |
| `ByteOrder.BeValueInjective` | main.cpp:135-147 | two equal-width byte strings are equal exactly when their big-endian values are, so a tag comparison is a byte comparison |
| `Streams.Stream.constructor` | main.cpp:48 | a new stream holds the given bytes, with the read position at 0 |
| `Streams.Stream.Empty` | main.cpp:50 | the stream is empty exactly when not even one more byte can be read |
| `Streams.Stream.ReadData` | main.cpp:52-61 | if `len` bytes remain, returns them and advances past them unless peeking; otherwise fails and leaves the position alone |
| `Streams.Stream.WriteData` | main.cpp:63-66 | appends the bytes to the buffer and does not move the read position |
| `Streams.Stream.Skip` | main.cpp:68-76 | advances by `len` under the same bounds rule as `ReadData`; fails without moving otherwise |
| `Streams.Stream.ReadUInt` | main.cpp:78-82 | returns the big-endian value of the next `width` bytes, below 256^width, with the same bounds and peek rules as `ReadData` |
| `Streams.Stream.Write` | main.cpp:93-98 | appends the byte-swapped storage of the value and leaves the value unchanged |
| `Streams.Stream.WriteUInt` | main.cpp:93-98 | appends the `width`-byte big-endian encoding of `v` |
| `Streams.Stream.ReadString` | main.cpp:84-91 | reads a 4-byte big-endian length, then that many bytes. Fails before the length if it is missing. Fails after consuming the length if the bytes are missing |
| `Streams.Stream.WriteString` | main.cpp:100-105 | appends the length cut to 32 bits, big-endian, then the bytes |
| `Streams.WriteThenReadUInt` | main.cpp:78-98 | an integer written at the end of the stream reads back as itself, consuming exactly its width |
| `Streams.WriteThenReadString` | main.cpp:84-105 | a string shorter than 2^32 bytes, once written, reads back as itself, consuming 4 + its length bytes |
| `AiffFormat.TakeBytes` | main.cpp:52-61 | taking n bytes succeeds exactly when n bytes remain; the taken bytes and the rest put together are the input |
| `AiffFormat.TakeUInt` | main.cpp:78-82 | taking a w-byte integer succeeds exactly when w bytes remain; the value is below 256^w and the rest starts after it |
| `AiffFormat.Resize` | main.cpp:193 | `vector::resize`: the result has length n, keeps the old elements below n and fills the new slots |
| `AiffFormat.ResizeFrames` | main.cpp:191-194 | the matrix has `numChannels` rows of `numSampleFrames` samples; old samples are kept and new ones are zero |
| `AiffFormat.CommChunk` | main.cpp:163-179 | the COMM body decodes exactly when 22 bytes remain, and consumes exactly those 22 bytes |
| `AiffFormat.SampleEndBound` | main.cpp:196-215 | every sample index (frame, channel) of the loop lies inside the region of `frames * channels * width` bytes |
| `AiffProperties.TakeUIntOf` | main.cpp:78-82 | a w-byte integer is read back from the front of its encoding followed by anything |
| `AiffProperties.TakeBytesOf` | main.cpp:52-61 | bytes followed by anything are read back when exactly their length is requested |
| `AiffProperties.ChunksStop` | main.cpp:152-223 | when the chunk loop returns normally, either the input is used up or it met a tag other than NAME, COMM and SSND |
| `AiffProperties.UnknownChunkStops` | main.cpp:218-221 | an unknown tag ends decoding with that tag and leaves the fields as they were, whatever follows it |
| `AiffProperties.MagicChecked` | main.cpp:132-150 | decoding stops with `BadId` exactly when the first 4 bytes are not "FORM". It stops with `BadFormType` exactly when they are "FORM" and bytes 8..12 are not "AIFF". Either way the fields are left untouched |
| `AiffProperties.DecodeHeader` | main.cpp:132-152 | the FORM header the encoder writes passes both checks, and the chunk loop starts right after it |
| `AiffProperties.SsndRegion` | main.cpp:180-215 | a decoded SSND chunk holds at least `12 + frames * channels * width` bytes, and its sample matrix comes from those region bytes |
| `AiffProperties.SampleMatrixAt` | main.cpp:196-215 | sample i of channel j is the `(i * c + j)`-th group of w bytes in the region, read big-endian. For widths other than 1, 2 and 4 the resized value is kept |
| `AiffProperties.ChunkTags` | main.cpp:255-268 | the NAME chunk is 8 + name length bytes and the COMM chunk 26 bytes; the three tags sit at their offsets and the samples follow |
| `AiffProperties.SsndSamples` | main.cpp:265-287 | the sample bytes start 16 bytes into the SSND chunk |
| `AiffProperties.EncodeLayout` | main.cpp:226-287 | the written file is 62 + name length + sample bytes long. "FORM", "AIFF", "NAME", "COMM" and "SSND" sit at offsets 0, 8, 12, 20 + l and 46 + l; the samples start at 62 + l |
| `AiffProperties.EncodeLength` | main.cpp:233-247 | when no size wraps and every sample size has the width `write` counts, the FORM size field is the file length minus 8 |
| `AiffProperties.HeaderSizeExact` | main.cpp:244-246 | without wrap-around the FORM size is 54 + name length + frames * channels * ((size + 7) / 8) |
| `AiffProperties.FrameBytesLength` | main.cpp:271-286 | one frame of c channels writes c * w bytes |
| `AiffProperties.FramesBytesLength` | main.cpp:270-287 | n frames of c channels write n * c * w bytes |
| `AiffProperties.FrameBytesAt` | main.cpp:271-286 | channel j of a frame is bytes j * w to j * w + w of that frame, holding its big-endian low w bytes |
| `AiffProperties.FramesBytesAt` | main.cpp:270-287 | sample i of channel j is written as the `(i * c + j)`-th group of w bytes |
| `AiffProperties.NameRoundTrip` | main.cpp:158-162 | the NAME body the encoder writes decodes to the same name, and the bytes after it are left for the chunk loop |
| `AiffProperties.CommRoundTrip` | main.cpp:163-179 | the COMM body the encoder writes decodes to the same four common fields |
| `AiffProperties.SampleCellOfFrames` | main.cpp:196-215 | one encoded sample decodes to its value when that value fits the width |
| `AiffProperties.SampleMatrixOfFrames` | main.cpp:196-215 | decoding the encoded sample bytes of a matrix of the COMM shape gives the matrix back |
| `AiffProperties.SsndFields` | main.cpp:180-190 | the SSND body the encoder writes gives back the offset and block size, and its samples are read from the encoded sample bytes |
| `AiffProperties.SsndRoundTrip` | main.cpp:180-217 | after the matching COMM, the SSND body the encoder writes gives back the offset, block size and whole sample matrix |
| `AiffProperties.ChunksDispatch` | main.cpp:157-217 | the chunk loop dispatches on the tag and carries on after the chunk it decoded |
| `AiffProperties.ChunksNameStep` | main.cpp:158-162 | a NAME chunk as written sets the name and the loop goes on after it |
| `AiffProperties.ChunksCommStep` | main.cpp:163-179 | a COMM chunk as written sets the four common fields and the loop goes on after it |
| `AiffProperties.ChunksSsndStep` | main.cpp:180-217 | an SSND chunk as written, read last, sets the SSND fields and the loop ends with the input used up |
| `AiffProperties.DecodeEncode` | main.cpp:125-291 | for every file whose sample size both sides treat alike, whose name length fits 32 bits and whose samples fit the width and the COMM shape, decoding the encoding gives back every field, stopping with the input used up |
| `AiffFiles.AiffFile.constructor` | main.cpp:110-123 | the object's fields are the given values |
| `AiffFiles.AiffFile.Read` | main.cpp:125-224 | `read` fails exactly when `Decode` does. Otherwise the fields are those `Decode` computes from the old ones, and the stop reason is `Decode`'s |
| `AiffFiles.AiffFile.ReadChunks` | main.cpp:152-223 | the chunk loop succeeds exactly when `Chunks` on the unread input does, and then leaves `Chunks`'s fields and stop reason |
| `AiffFiles.AiffFile.ReadName` | main.cpp:158-162 | reads the length-prefixed name; fails exactly when `Chunks` fails from the tag, and otherwise stops where `Chunks` goes on |
| `AiffFiles.AiffFile.ReadComm` | main.cpp:163-179 | the COMM case agrees with `Chunks` from its tag, in failure and in success |
| `AiffFiles.AiffFile.ReadCommFields` | main.cpp:164-177 | succeeds exactly when 22 bytes remain; sets the channel count, frame count, sample size and rate from bytes 4..22 and changes no other field |
| `AiffFiles.AiffFile.ReadSsnd` | main.cpp:180-217 | the SSND case agrees with `Chunks` from its tag, in failure and in success |
| `AiffFiles.AiffFile.ReadSsndFields` | main.cpp:181-215 | succeeds exactly when the 12 header bytes and the whole sample region remain. Sets the offset and block size, and fills the resized matrix from the region |
| `AiffFiles.AiffFile.ReadSsndHeader` | main.cpp:181-189 | reads the ignored size, then the offset and the block size, from 12 bytes |
| `AiffFiles.AiffFile.ResizeMatrix` | main.cpp:191-194 | the sample matrix becomes `ResizeFrames` of the old one |
| `AiffFiles.AiffFile.ReadSamples` | main.cpp:196-215 | the nested sample loop succeeds exactly when the whole region remains, and then fills the matrix as `SampleMatrix` says |
| `AiffFiles.AiffFile.ReadFrame` | main.cpp:197-214 | the inner loop reads every channel of one frame, failing exactly when that frame is cut short |
| `AiffFiles.AiffFile.ReadSample` | main.cpp:198-213 | reads 1, 2 or 4 bytes into `frames[j][i]`. Skips 3 bytes for sizes 17..24 and reads nothing above 32. Fails exactly when the width is not there |
| `AiffFiles.AiffFile.Write` | main.cpp:226-291 | the bytes written are `Encode` of the fields |
| `AiffFiles.AiffFile.WriteName` | main.cpp:255-256 | appends the NAME tag and the length-prefixed name |
| `AiffFiles.AiffFile.WriteComm` | main.cpp:258-263 | appends the COMM tag, the size 18 and the four common fields |
| `AiffFiles.AiffFile.WriteSsnd` | main.cpp:265-287 | appends the SSND tag, the computed size, the offset, the block size and the samples |
| `AiffFiles.AiffFile.WriteSamples` | main.cpp:270-287 | appends every sample frame by frame, each cut to the width `sampleSize` calls for, or nothing for 24-bit and wider-than-32 sizes |
| `AiffFiles.AiffFile.WriteFrame` | main.cpp:271-286 | appends every channel of one frame in order |
| `AiffFiles.AiffFile.WriteSample` | main.cpp:272-285 | appends the low 1, 2 or 4 bytes of one sample big-endian, or nothing |
| `AiffFiles.WriteThenRead` | main.cpp:125-291 | reading into one object what another object wrote succeeds, stops with the input used up, and copies every field |

## Left out

- File I/O: `read` loads the whole file (main.cpp:128-129) and `write` saves the buffer (main.cpp:289-290). The model passes the file's contents in and hands the written bytes back.
- `main` (main.cpp:296-318): argument handling, `std::random_shuffle` and the channel copy are a demonstration built on the codec, not part of it. The shuffle also needs randomness.
- The logger (`logger.h`), the `hex` helper (main.cpp:17-25) and every `LOG_SNI` line produce diagnostics only; they are not part of this model.
- Host byte order: `ntoh` reverses bytes unconditionally. The model fixes the little-endian host that makes this a big-endian wire format. On a big-endian host the program would write little-endian integers.
- The `peek` path of the string read is modelled in `ReadData` and `ReadUInt`. `ReadString` is modelled only without peeking, the only way `file_aiff_t` calls it.
- After a read fails (`EmptyFlow`, the exception), `Read` says nothing about the fields. The C++ object keeps whatever was assigned before the throw, but the exception escapes `main` uncaught.
- The declared FORM and chunk sizes are read and ignored by `read`, so the model ignores them too. A file whose sizes disagree with its contents decodes the same way.
- Reading and writing disagree for sample sizes 17..24 (3 bytes skipped, none written) and above 32 (nothing either way, but `ssnd_size` counts them). `DecodeEncode` excludes sizes 17..24 and above 32. Sample size 0 does round-trip, because reading and writing both use 1 byte per sample. But `ssnd_size` counts 0 bytes for it, so `EncodeLength` excludes size 0 as well as 17..24 and above 32 from the size identity. `HeaderSizeExact` holds for every sample size.
- `size_t` overflow of the read position and of `numSampleFrames * numChannels * width` is not modelled: positions and products are unbounded integers. The 32-bit size fields `write` computes do wrap, as `uint32_t` does.
- AiffFormat.SsndChunk: its own contract states only that the chunk consumes at least 12 bytes. The region and the sample matrix are stated by `AiffProperties.SsndRegion` and `AiffProperties.SampleMatrixAt`.
- AiffFormat.NameChunk: its own contract states only that the chunk consumes at least 4 bytes. What it decodes is stated by `AiffProperties.NameRoundTrip` and by `AiffFiles.AiffFile.ReadName`.
