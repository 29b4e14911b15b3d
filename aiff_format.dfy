/** The AIFF 1.3 chunk layout as `file_aiff_t` reads and writes it, stated
    as functions over byte sequences: `Decode` is what `read` leaves in the
    object's fields (and why its chunk loop stopped), `Encode` is the byte
    sequence `write` produces. The class in module AiffFiles is proved to
    behave as these functions say; the lemmas here state what they promise. */
module AiffFormat {
  import opened ByteOrder
  import opened Streams

  const FORM_ID: u32 := 0x464f524d    // "FORM"
  const AIFF_TYPE: u32 := 0x41494646  // "AIFF"
  const NAME_ID: u32 := 0x4e414d45    // "NAME"
  const COMM_ID: u32 := 0x434f4d4d    // "COMM"
  const SSND_ID: u32 := 0x53534e44    // "SSND"

  /** Body size of the Common chunk: channels (2), frames (4), sample size (2), rate (10). */
  const COMM_SIZE: u32 := 18

  /** The 80-bit extended-precision sample rate, kept as its 10 raw bytes. */
  type SampleRate = s: seq<byte> | |s| == 10 witness [0, 0, 0, 0, 0, 0, 0, 0, 0, 0]

  /** The fields of `file_aiff_t`. `frames[j][i]` is sample `i` of channel `j`. */
  datatype Aiff = Aiff(
    name: seq<byte>,
    numChannels: u16,
    numSampleFrames: u32,
    sampleSize: u16,
    sampleRate: SampleRate,
    offset: u32,
    blockSize: u32,
    frames: seq<seq<u32>>)

  /** Why decoding returned normally: a wrong first tag, a wrong form type,
      the input used up, or a chunk tag it does not know. */
  datatype Stop = BadId | BadFormType | Exhausted | UnknownChunk(id: u32)

  /** A value read from the front of the input, and the input after it. */
  datatype Taken<+T> = Taken(value: T, rest: seq<byte>)

  function TakeBytes(input: seq<byte>, n: nat): (r: Result<Taken<seq<byte>>>)
    ensures r.Ok? <==> n <= |input|
    ensures r.Ok? ==> |r.value.value| == n && r.value.value + r.value.rest == input
  {
    if n <= |input| then Ok(Taken(input[..n], input[n..])) else EmptyFlow
  }

  function TakeUInt(input: seq<byte>, w: nat): (r: Result<Taken<nat>>)
    ensures r.Ok? <==> w <= |input|
    ensures r.Ok? ==> r.value.value < Pow256(w) && r.value.rest == input[w..]
  {
    var bytes :- TakeBytes(input, w);
    Ok(Taken(BeValue(bytes.value), bytes.rest))
  }

  // ---------------------------------------------------------------------------
  // Samples

  /** Bytes the decoder consumes per sample for a given `sampleSize`:
      1, 2 or 4 are read; 3 (sizes 17..24) are skipped; above 32 nothing. */
  function ReadWidth(sampleSize: u16): nat
  {
    if sampleSize <= 8 then 1
    else if sampleSize <= 16 then 2
    else if sampleSize <= 24 then 3
    else if sampleSize <= 32 then 4
    else 0
  }

  /** Bytes the encoder emits per sample: sizes 17..24 and above 32 emit none. */
  function WriteWidth(sampleSize: u16): nat
  {
    if sampleSize <= 8 then 1
    else if sampleSize <= 16 then 2
    else if sampleSize <= 24 then 0
    else if sampleSize <= 32 then 4
    else 0
  }

  /** `c` rows of exactly `n` samples each. */
  ghost predicate Shaped(f: seq<seq<u32>>, c: nat, n: nat)
  {
    |f| == c && forall j :: 0 <= j < c ==> |f[j]| == n
  }

  /** At least `c` rows of at least `n` samples each: every `f[j][i]` with
      `j < c` and `i < n` exists. */
  ghost predicate Covers(f: seq<seq<u32>>, c: nat, n: nat)
  {
    |f| >= c && forall j :: 0 <= j < c ==> |f[j]| >= n
  }

  /** `std::vector::resize`: keeps the first `n` elements, pads with `fill`. */
  function Resize<T>(s: seq<T>, n: nat, fill: T): (r: seq<T>)
    ensures |r| == n
    ensures forall k :: 0 <= k < n ==> r[k] == if k < |s| then s[k] else fill
  {
    if n <= |s| then s[..n] else s + seq(n - |s|, _ => fill)
  }

  /** The sample matrix after `_frames.resize(c)` and `_frames[j].resize(n)`
      for every row: old samples are kept, new slots are zero. */
  function ResizeFrames(f: seq<seq<u32>>, c: nat, n: nat): (r: seq<seq<u32>>)
    ensures Shaped(r, c, n)
    ensures forall j, i :: 0 <= j < c && 0 <= i < n ==>
      r[j][i] == if j < |f| && i < |f[j]| then f[j][i] else 0
  {
    var rows := Resize(f, c, []);
    seq(c, j requires 0 <= j < c => Resize(rows[j], n, 0))
  }

  /** The sample stored `off` bytes into `region` with width `w`, zero-extended;
      `keep` when this width is not read (skipped 24-bit samples, or sizes
      above 32). The bounds test only matters outside a complete region. */
  function SampleCell(region: seq<byte>, off: nat, w: nat, keep: u32): u32
  {
    if (w == 1 || w == 2 || w == 4) && off + w <= |region|
    then Pow256Widths(); BeValue(region[off..off + w])
    else keep
  }

  /** The samples of an SSND region, stored frame by frame: sample `i` of
      channel `j` is the `(i * c + j)`-th sample of the region. */
  function SampleMatrix(region: seq<byte>, c: nat, n: nat, w: nat, base: seq<seq<u32>>): (m: seq<seq<u32>>)
    requires Shaped(base, c, n)
    ensures Shaped(m, c, n)
  {
    seq(c, j requires 0 <= j < c =>
      seq(n, i requires 0 <= i < n => SampleCell(region, (i * c + j) * w, w, base[j][i])))
  }

  /** The sample with frame index `i` and channel `j` lies inside the region
      of `n` frames of `c` samples of `w` bytes. */
  lemma SampleEndBound(c: nat, n: nat, w: nat, i: nat, j: nat)
    requires i < n && j < c
    ensures 0 <= (i * c + j) * w
    ensures (i * c + j) * w + w <= n * c * w
  {
    assert i * c + j + 1 <= n * c by {
      assert i * c + c == (i + 1) * c;
      assert (i + 1) * c <= n * c by { MulMonotone(i + 1, n, c); }
    }
    MulMonotone(i * c + j + 1, n * c, w);
  }

  lemma MulMonotone(a: nat, b: nat, k: nat)
    requires a <= b
    ensures a * k <= b * k
  {
  }

  // ---------------------------------------------------------------------------
  // Decoding

  /** What `read` does with `bytes`, starting from the field values `init`:
      `EmptyFlow` when a read runs past the end (where `read` throws), otherwise
      the resulting fields and why the chunk loop stopped. */
  function Decode(bytes: seq<byte>, init: Aiff): Result<(Aiff, Stop)>
  {
    var id :- TakeUInt(bytes, 4);
    if id.value != FORM_ID then Ok((init, BadId))
    else
      var size :- TakeUInt(id.rest, 4);
      var formType :- TakeUInt(size.rest, 4);
      if formType.value != AIFF_TYPE then Ok((init, BadFormType))
      else Chunks(formType.rest, init)
  }

  /** The chunk loop: runs until the input is used up, stops at the first
      tag other than NAME, COMM and SSND. */
  function Chunks(rest: seq<byte>, st: Aiff): Result<(Aiff, Stop)>
    decreases |rest|
  {
    if |rest| == 0 then Ok((st, Exhausted))
    else
      var id :- TakeUInt(rest, 4);
      Chunk(id.value, id.rest, st)
  }

  /** One pass of the chunk loop: the chunk `tag` names, then the rest. */
  function Chunk(tag: u32, body: seq<byte>, st: Aiff): Result<(Aiff, Stop)>
    decreases |body|
  {
    if tag == NAME_ID then
      var chunk :- NameChunk(body, st);
      Chunks(chunk.rest, chunk.value)
    else if tag == COMM_ID then
      var chunk :- CommChunk(body, st);
      Chunks(chunk.rest, chunk.value)
    else if tag == SSND_ID then
      var chunk :- SsndChunk(body, st);
      Chunks(chunk.rest, chunk.value)
    else
      Ok((st, UnknownChunk(tag)))
  }

  /** The Name chunk body: a length-prefixed string. */
  function NameChunk(input: seq<byte>, st: Aiff): (r: Result<Taken<Aiff>>)
    ensures r.Ok? ==> |r.value.rest| <= |input| - 4
  {
    var size :- TakeUInt(input, 4);
    var name :- TakeBytes(size.rest, size.value);
    Ok(Taken(st.(name := name.value), name.rest))
  }

  /** The Common chunk body: its (ignored) size, then the channel count,
      the frame count, the sample size and the 10-byte sample rate. */
  function CommChunk(input: seq<byte>, st: Aiff): (r: Result<Taken<Aiff>>)
    ensures r.Ok? <==> |input| >= 4 + COMM_SIZE
    ensures r.Ok? ==> r.value.rest == input[4 + COMM_SIZE..]
  {
    var size :- TakeUInt(input, 4);
    var channels :- TakeUInt(size.rest, 2);
    var frameCount :- TakeUInt(channels.rest, 4);
    var sampleSize :- TakeUInt(frameCount.rest, 2);
    var rate :- TakeBytes(sampleSize.rest, 10);
    Pow256Widths();
    Ok(Taken(st.(numChannels := channels.value, numSampleFrames := frameCount.value,
                 sampleSize := sampleSize.value, sampleRate := rate.value), rate.rest))
  }

  /** The Sound Data chunk body: its (ignored) size, the offset, the block
      size, then `numChannels * numSampleFrames` samples frame by frame, each
      of `ReadWidth(sampleSize)` bytes, using the COMM fields already in `st`. */
  function SsndChunk(input: seq<byte>, st: Aiff): (r: Result<Taken<Aiff>>)
    ensures r.Ok? ==> |r.value.rest| <= |input| - 12
  {
    var size :- TakeUInt(input, 4);
    var offset :- TakeUInt(size.rest, 4);
    var blockSize :- TakeUInt(offset.rest, 4);
    var c, n, w := st.numChannels, st.numSampleFrames, ReadWidth(st.sampleSize);
    var samples :- TakeBytes(blockSize.rest, n * c * w);
    Pow256Widths();
    Ok(Taken(st.(offset := offset.value, blockSize := blockSize.value,
                 frames := SampleMatrix(samples.value, c, n, w, ResizeFrames(st.frames, c, n))),
             samples.rest))
  }

  // ---------------------------------------------------------------------------
  // Encoding

  /** What `write` needs: every sample it converts exists. */
  ghost predicate Writable(a: Aiff)
  {
    WriteWidth(a.sampleSize) > 0 ==> Covers(a.frames, a.numChannels, a.numSampleFrames)
  }

  /** Channels `0..j-1` of frame `i`, each cut to its low `w` bytes. */
  function FrameBytes(f: seq<seq<u32>>, i: nat, j: nat, w: nat): seq<byte>
    requires Covers(f, j, i + 1)
  {
    if j == 0 then [] else FrameBytes(f, i, j - 1, w) + BeBytes(f[j - 1][i], w)
  }

  /** Frames `0..i-1` of `c` channels. */
  function FramesBytes(f: seq<seq<u32>>, c: nat, i: nat, w: nat): seq<byte>
    requires Covers(f, c, i)
  {
    if i == 0 then [] else FramesBytes(f, c, i - 1, w) + FrameBytes(f, i - 1, c, w)
  }

  /** The sample bytes `write` emits. */
  function SamplesBytes(a: Aiff): seq<byte>
    requires Writable(a)
  {
    var w := WriteWidth(a.sampleSize);
    if w == 0 then [] else FramesBytes(a.frames, a.numChannels, a.numSampleFrames, w)
  }

  /** `name_size_hidden`: the length field plus the name, as a `uint32_t`. */
  function NameSize(a: Aiff): u32
  {
    (4 + |a.name|) % U32_MOD
  }

  /** `ssnd_size`, with `uint32_t` wrap-around. */
  function SsndSize(a: Aiff): u32
  {
    (8 + (a.numSampleFrames * a.numChannels % U32_MOD) * ((a.sampleSize + 7) / 8) % U32_MOD) % U32_MOD
  }

  /** `hdr_size`: the FORM size field, with `uint32_t` wrap-around. */
  function HeaderSize(a: Aiff): u32
  {
    (4 + 4 + NameSize(a) + 2 * 4 + COMM_SIZE + 2 * 4 + SsndSize(a)) % U32_MOD
  }

  function NameBody(a: Aiff): seq<byte>
  {
    BeBytes(|a.name| % U32_MOD, 4) + a.name
  }

  function CommBody(a: Aiff): seq<byte>
  {
    BeBytes(COMM_SIZE, 4) + (BeBytes(a.numChannels, 2) + (BeBytes(a.numSampleFrames, 4)
    + (BeBytes(a.sampleSize, 2) + a.sampleRate)))
  }

  function SsndBody(a: Aiff): seq<byte>
    requires Writable(a)
  {
    BeBytes(SsndSize(a), 4) + (BeBytes(a.offset, 4) + (BeBytes(a.blockSize, 4) + SamplesBytes(a)))
  }

  /** The bytes `write` sends to the file: the FORM header, then the NAME,
      COMM and SSND chunks in that order. */
  function Encode(a: Aiff): seq<byte>
    requires Writable(a)
  {
    BeBytes(FORM_ID, 4) + (BeBytes(HeaderSize(a), 4) + (BeBytes(AIFF_TYPE, 4)
    + ((BeBytes(NAME_ID, 4) + NameBody(a))
    + ((BeBytes(COMM_ID, 4) + CommBody(a))
    + (BeBytes(SSND_ID, 4) + SsndBody(a))))))
  }
}
