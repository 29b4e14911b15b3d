/** `file_aiff_t`: an AIFF file held as fields that `read` fills in from the
    bytes of a file and `write` turns back into bytes. The file itself is
    replaced by a byte sequence: `Read` takes the file's contents, `Write`
    returns what would be written. Both go through a `Stream` exactly as
    `file_aiff_t` does, and are proved to compute `Decode` and `Encode`. */
module AiffFiles {
  import opened ByteOrder
  import opened Slices
  import opened Streams
  import opened AiffFormat
  import opened AiffProperties

  class AiffFile {
    // NAME
    var name: seq<byte>
    // COMM
    var numChannels: u16
    var numSampleFrames: u32
    var sampleSize: u16
    var sampleRate: SampleRate
    // SSND
    var offset: u32
    var blockSize: u32
    var frames: seq<seq<u32>>

    /** The fields as one value. */
    function State(): Aiff
      reads this
    {
      Aiff(name, numChannels, numSampleFrames, sampleSize, sampleRate, offset, blockSize, frames)
    }

    constructor (init: Aiff)
      ensures State() == init
    {
      name := init.name;
      numChannels := init.numChannels;
      numSampleFrames := init.numSampleFrames;
      sampleSize := init.sampleSize;
      sampleRate := init.sampleRate;
      offset := init.offset;
      blockSize := init.blockSize;
      frames := init.frames;
    }

    /** `read`: parses `data`, the contents of the file. It succeeds exactly
        when `Decode` does, and then leaves the fields `Decode` computes from
        the old ones and reports why the chunk loop stopped. `EmptyFlow` is
        the `runtime_error` a read past the end throws. */
    method Read(data: seq<byte>) returns (r: Result<Stop>)
      modifies this
      ensures r.Ok? <==> Decode(data, old(State())).Ok?
      ensures r.Ok? ==> Decode(data, old(State())) == Ok((State(), r.value))
    {
      DecodeAt(data, State());
      var stream := new Stream(data);
      var id :- stream.ReadUInt(4, false);
      if id != FORM_ID {
        return Ok(BadId);
      }
      var size :- stream.ReadUInt(4, false);
      var formType :- stream.ReadUInt(4, false);
      if formType != AIFF_TYPE {
        return Ok(BadFormType);
      }
      assert stream.buf[stream.pos..] == data[12..];
      r := ReadChunks(stream);
    }

    /** The chunk loop of `read`: until the stream is used up, reads a tag
        and the chunk it names; an unknown tag ends the loop. */
    method ReadChunks(stream: Stream) returns (r: Result<Stop>)
      requires stream.Valid()
      modifies this, stream`pos
      ensures var d := Chunks(old(stream.buf[stream.pos..]), old(State()));
        && (r.Ok? <==> d.Ok?)
        && (r.Ok? ==> d == Ok((State(), r.value)))
    {
      ghost var data := stream.buf;
      ghost var d := Chunks(data[stream.pos..], State());
      while !stream.Empty()
        invariant stream.Valid() && stream.buf == data
        invariant Chunks(data[stream.pos..], State()) == d
        decreases |data| - stream.pos
      {
        ghost var p := stream.pos;
        ChunkTagAt(data, p, State());
        var tag :- stream.ReadUInt(4, false);
        if tag == NAME_ID {
          var done :- ReadName(stream, p);
        } else if tag == COMM_ID {
          var done :- ReadComm(stream, p);
        } else if tag == SSND_ID {
          var done :- ReadSsnd(stream, p);
        } else {
          return Ok(UnknownChunk(tag));
        }
      }
      return Ok(Exhausted);
    }

    /** The NAME case, entered with the tag at `t` already read: reads the
        name as a length-prefixed string. It fails exactly when `Chunks` does
        from `t`, and otherwise leaves the stream and the fields where
        `Chunks` goes on from. */
    method ReadName(stream: Stream, ghost t: nat) returns (r: Result<()>)
      requires stream.Valid() && stream.pos == t + 4 && BeValue(stream.buf[t..t + 4]) == NAME_ID
      modifies this`name, stream`pos
      ensures stream.Valid()
      ensures var p, buf := old(stream.pos), stream.buf;
        && (r.Ok? <==> p + 4 <= |buf| && p + 4 + BeValue(buf[p..p + 4]) <= |buf|)
        && (r.Ok? ==> stream.pos == p + 4 + BeValue(buf[p..p + 4]) && name == buf[p + 4..stream.pos])
      ensures var d := Chunks(stream.buf[t..], old(State()));
        && (r.EmptyFlow? ==> d == EmptyFlow)
        && (r.Ok? ==> old(stream.pos) < stream.pos && Chunks(stream.buf[stream.pos..], State()) == d)
    {
      ghost var st, p := State(), stream.pos;
      NameStepFails(stream.buf, t, p, st);
      var s :- stream.ReadString();
      name := s;
      NameStep(stream.buf, t, p, stream.pos, st, State(), s);
      r := Ok(());
    }

    /** The COMM case, entered with the tag at `t` already read; it agrees
        with `Chunks` from `t` as the NAME case does. */
    method ReadComm(stream: Stream, ghost t: nat) returns (r: Result<()>)
      requires stream.Valid() && stream.pos == t + 4 && BeValue(stream.buf[t..t + 4]) == COMM_ID
      modifies this`numChannels, this`numSampleFrames, this`sampleSize, this`sampleRate, stream`pos
      ensures stream.Valid()
      ensures var d := Chunks(stream.buf[t..], old(State()));
        && (r.EmptyFlow? ==> d == EmptyFlow)
        && (r.Ok? ==> old(stream.pos) < stream.pos && Chunks(stream.buf[stream.pos..], State()) == d)
    {
      ghost var st, p := State(), stream.pos;
      r := ReadCommFields(stream);
      if r.Ok? {
        CommStep(stream.buf, t, p, st, State(), numChannels, numSampleFrames, sampleSize, sampleRate);
      } else {
        CommStepFails(stream.buf, t, p, st);
      }
    }

    /** The COMM chunk's fields: the (ignored) chunk size, then the four
        common fields, each stored as soon as it is read. */
    method ReadCommFields(stream: Stream) returns (r: Result<()>)
      requires stream.Valid()
      modifies this`numChannels, this`numSampleFrames, this`sampleSize, this`sampleRate, stream`pos
      ensures stream.Valid()
      ensures State() == old(State()).(numChannels := numChannels, numSampleFrames := numSampleFrames,
                                       sampleSize := sampleSize, sampleRate := sampleRate)
      ensures var p, buf := old(stream.pos), stream.buf;
        && (r.Ok? <==> p + 22 <= |buf|)
        && (r.Ok? ==> stream.pos == p + 22)
        && (r.Ok? ==> numChannels == BeValue(buf[p + 4..p + 6]) && numSampleFrames == BeValue(buf[p + 6..p + 10]))
        && (r.Ok? ==> sampleSize == BeValue(buf[p + 10..p + 12]) && sampleRate == buf[p + 12..p + 22])
    {
      Pow256Widths();
      var size :- stream.ReadUInt(4, false);
      var channels :- stream.ReadUInt(2, false);
      numChannels := channels;
      var frameCount :- stream.ReadUInt(4, false);
      numSampleFrames := frameCount;
      var bits :- stream.ReadUInt(2, false);
      sampleSize := bits;
      var rate :- stream.ReadData(10, false);
      sampleRate := rate;
      r := Ok(());
    }

    /** The SSND case, entered with the tag at `t` already read; it agrees
        with `Chunks` from `t` as the NAME case does. */
    method ReadSsnd(stream: Stream, ghost t: nat) returns (r: Result<()>)
      requires stream.Valid() && stream.pos == t + 4 && BeValue(stream.buf[t..t + 4]) == SSND_ID
      modifies this`offset, this`blockSize, this`frames, stream`pos
      ensures stream.Valid()
      ensures var d := Chunks(stream.buf[t..], old(State()));
        && (r.EmptyFlow? ==> d == EmptyFlow)
        && (r.Ok? ==> old(stream.pos) < stream.pos && Chunks(stream.buf[stream.pos..], State()) == d)
    {
      ghost var st, p := State(), stream.pos;
      ghost var c, n, w := numChannels as nat, numSampleFrames as nat, ReadWidth(sampleSize);
      ghost var m := NumSamples(c, n, w);
      ghost var base := AiffFormat.ResizeFrames(frames, c, n);
      r := ReadSsndFields(stream, c, n, w, m, base);
      if r.Ok? {
        SsndStep(stream.buf, t, p, stream.pos, st, State(), c, n, w, m, base, offset, blockSize, frames);
      } else {
        SsndStepFails(stream.buf, t, p, st);
      }
    }

    /** The SSND chunk's fields: the (ignored) chunk size, the offset and the
        block size, then the sample matrix is resized to the COMM shape
        (`c` channels of `n` frames, `w` bytes a sample) and filled frame by
        frame. */
    method ReadSsndFields(stream: Stream, ghost c: nat, ghost n: nat, ghost w: nat, ghost m: nat, ghost base: seq<seq<u32>>)
      returns (r: Result<()>)
      requires c == numChannels as nat && n == numSampleFrames as nat && w == ReadWidth(sampleSize)
      requires m == NumSamples(c, n, w) && base == AiffFormat.ResizeFrames(frames, c, n)
      requires stream.Valid()
      modifies this`offset, this`blockSize, this`frames, stream`pos
      ensures stream.Valid()
      ensures State() == old(State()).(offset := offset, blockSize := blockSize, frames := frames)
      ensures var p, buf := old(stream.pos), stream.buf;
        && (r.Ok? <==> p + 12 + m <= |buf|)
        && (r.Ok? ==> stream.pos == p + 12 + m)
        && (r.Ok? ==> offset == BeValue(buf[p + 4..p + 8]) && blockSize == BeValue(buf[p + 8..p + 12]))
        && (r.Ok? ==> frames == SampleMatrix(buf[p + 12..p + 12 + m], c, n, w, base))
    {
      ghost var p := stream.pos;
      var header :- ReadSsndHeader(stream);
      ResizeMatrix();
      ghost var q := stream.pos;
      var done :- ReadSamples(stream, c, n, w, base);
      assert stream.buf[q..q + m] == stream.buf[p + 12..p + 12 + m];
      r := Ok(());
    }

    /** The three 32-bit fields that open the SSND chunk; the first, the
        chunk size, is read and ignored. */
    method ReadSsndHeader(stream: Stream) returns (r: Result<()>)
      requires stream.Valid()
      modifies this`offset, this`blockSize, stream`pos
      ensures stream.Valid()
      ensures var p, buf := old(stream.pos), stream.buf;
        && (r.Ok? <==> p + 12 <= |buf|)
        && (r.Ok? ==> stream.pos == p + 12)
        && (r.Ok? ==> offset == BeValue(buf[p + 4..p + 8]) && blockSize == BeValue(buf[p + 8..p + 12]))
    {
      Pow256Widths();
      var size :- stream.ReadUInt(4, false);
      var off :- stream.ReadUInt(4, false);
      offset := off;
      var bs :- stream.ReadUInt(4, false);
      blockSize := bs;
      r := Ok(());
    }

    /** `_frames.resize(numChannels)`, then every row resized to
        `numSampleFrames`. */
    method ResizeMatrix()
      modifies this`frames
      ensures frames == AiffFormat.ResizeFrames(old(frames), numChannels, numSampleFrames)
    {
      ghost var rows := Resize(frames, numChannels, []);
      frames := Resize(frames, numChannels, []);
      var j := 0;
      while j < numChannels
        invariant j <= numChannels && |frames| == numChannels
        invariant forall k :: 0 <= k < j ==> frames[k] == Resize(rows[k], numSampleFrames, 0)
        invariant forall k :: j <= k < numChannels ==> frames[k] == rows[k]
      {
        frames := frames[j := Resize(frames[j], numSampleFrames, 0)];
        j := j + 1;
      }
    }

    /** The sample loop: for each frame, for each channel, reads one sample
        of the width `sampleSize` calls for (skipping 24-bit ones, reading
        nothing above 32 bits). It fails, part way through, exactly when the
        input is shorter than the whole region. */
    method ReadSamples(stream: Stream, ghost c: nat, ghost n: nat, ghost w: nat, ghost base: seq<seq<u32>>)
      returns (r: Result<()>)
      requires c == numChannels as nat && n == numSampleFrames as nat && w == ReadWidth(sampleSize)
      requires stream.Valid() && frames == base && Shaped(base, c, n)
      modifies this`frames, stream`pos
      ensures stream.Valid()
      ensures var p, m := old(stream.pos), NumSamples(c, n, w);
        && (r.Ok? <==> p + m <= |stream.buf|)
        && (r.Ok? ==> stream.pos == p + m)
        && (r.Ok? ==> frames == SampleMatrix(stream.buf[p..p + m], c, n, w, base))
    {
      ghost var p := stream.pos;
      ghost var input := stream.buf[p..];
      Pow256Widths();
      FilledStart(input, c, n, w, base);
      var i := 0;
      while i < numSampleFrames
        invariant i <= n && stream.Valid()
        invariant stream.pos == p + RowOffset(c, w, i)
        invariant frames == Filled(input, c, n, w, base, i, 0)
      {
        RowBound(c, n, w, i);
        var done :- ReadFrame(stream, input, p, base, i);
        FilledRow(input, c, n, w, base, i);
        i := i + 1;
      }
      RowStart(c, w, n);
      FilledDone(input, c, n, w, base);
      assert input[..NumSamples(c, n, w)] == stream.buf[p..p + NumSamples(c, n, w)];
      r := Ok(());
    }
 
    /** The inner loop: every channel of frame `i`, in order. */
    method ReadFrame(stream: Stream, ghost input: seq<byte>, ghost p: nat, ghost base: seq<seq<u32>>, i: nat)
      returns (r: Result<()>)
      requires stream.Valid() && Shaped(base, numChannels, numSampleFrames) && i < numSampleFrames
      requires p <= |stream.buf| && input == stream.buf[p..]
      requires stream.pos == p + RowOffset(numChannels, ReadWidth(sampleSize), i)
      requires frames == Filled(input, numChannels, numSampleFrames, ReadWidth(sampleSize), base, i, 0)
      modifies this`frames, stream`pos
      ensures stream.Valid()
      ensures var end := p + RowOffset(numChannels, ReadWidth(sampleSize), i + 1);
        && (r.Ok? <==> end <= |stream.buf|)
        && (r.Ok? ==> stream.pos == end)
        && (r.Ok? ==> frames == Filled(input, numChannels, numSampleFrames, ReadWidth(sampleSize), base, i, numChannels))
    {
      ghost var c, n, w := numChannels as nat, numSampleFrames as nat, ReadWidth(sampleSize);
      RowStart(c, w, i);
      RowEnd(c, w, i);
      var j := 0;
      while j < numChannels
        invariant j <= c && stream.Valid()
        invariant stream.pos == p + SampleOffset(c, w, i, j)
        invariant frames == Filled(input, c, n, w, base, i, j)
      {
        SampleEnd(c, w, i, j);
        FilledStep(input, c, n, w, base, i, j);
        CellAt(stream.buf, p, SampleOffset(c, w, i, j), w, base[j][i]);
        var done :- ReadSample(stream, i, j);
        j := j + 1;
      }
      r := Ok(());
    }

    /** One pass of the inner loop: sample `j` of frame `i`, read with the
        width `sampleSize` calls for and stored in `frames[j][i]`; a skipped
        or unread sample leaves the matrix alone. */
    method ReadSample(stream: Stream, i: nat, j: nat) returns (r: Result<()>)
      requires stream.Valid() && Covers(frames, j + 1, i + 1)
      modifies this`frames, stream`pos
      ensures stream.Valid()
      ensures var p, w := old(stream.pos), ReadWidth(sampleSize);
        && (r.Ok? <==> p + w <= |stream.buf|)
        && (r.Ok? ==> stream.pos == p + w)
      ensures var f: seq<seq<u32>> := old(frames);
        var row: seq<u32> := f[j][i := SampleCell(stream.buf, old(stream.pos), ReadWidth(sampleSize), f[j][i])];
        r.Ok? ==> frames == f[j := row]
    {
      Pow256Widths();
      if sampleSize <= 8 {
        var sample :- stream.ReadUInt(1, false);
        frames := frames[j := frames[j][i := sample]];
      } else if sampleSize <= 16 {
        var sample :- stream.ReadUInt(2, false);
        frames := frames[j := frames[j][i := sample]];
      } else if sampleSize <= 24 {
        var skipped :- stream.Skip(3);
        assert frames[j][i := frames[j][i]] == frames[j];
      } else if sampleSize <= 32 {
        var sample :- stream.ReadUInt(4, false);
        frames := frames[j := frames[j][i := sample]];
      } else {
        assert frames[j][i := frames[j][i]] == frames[j];
      }
      r := Ok(());
    }

    /** `write`: the bytes the file receives. The three sizes are worked
        out first, with `uint32_t` wrap-around, then the FORM
        header and the NAME, COMM and SSND chunks go to a fresh stream in
        that order. The result is `Encode` of the fields. */
    method Write() returns (out: seq<byte>)
      requires Writable(State())
      ensures out == Encode(State())
    {
      var hdrSize := HeaderSize(State());
      var ssndSize := SsndSize(State());
      var stream := new Stream([]);
      stream.WriteUInt(FORM_ID, 4);
      stream.WriteUInt(hdrSize, 4);
      stream.WriteUInt(AIFF_TYPE, 4);
      WriteName(stream);
      WriteComm(stream);
      WriteSsnd(stream, ssndSize);
      EncodeInOrder(State());
      out := stream.buf;
    }

    /** The NAME chunk: its tag, then the name as a length-prefixed string. */
    method WriteName(stream: Stream)
      requires stream.Valid()
      modifies stream`buf
      ensures stream.Valid()
      ensures stream.buf == old(stream.buf) + (BeBytes(NAME_ID, 4) + NameBody(State()))
    {
      ghost var b := stream.buf;
      stream.WriteUInt(NAME_ID, 4);
      stream.WriteString(name);
      InOrder3(b, BeBytes(NAME_ID, 4), BeBytes(|name| % U32_MOD, 4), name);
    }

    /** The COMM chunk: its tag, its size (always 18), then the four common
        fields. */
    method WriteComm(stream: Stream)
      requires stream.Valid()
      modifies stream`buf
      ensures stream.Valid()
      ensures stream.buf == old(stream.buf) + (BeBytes(COMM_ID, 4) + CommBody(State()))
    {
      ghost var b := stream.buf;
      Pow256Widths();
      stream.WriteUInt(COMM_ID, 4);
      stream.WriteUInt(COMM_SIZE, 4);
      stream.WriteUInt(numChannels, 2);
      stream.WriteUInt(numSampleFrames, 4);
      stream.WriteUInt(sampleSize, 2);
      stream.WriteData(sampleRate);
      InOrder6(b, BeBytes(COMM_ID, 4), BeBytes(COMM_SIZE, 4), BeBytes(numChannels, 2),
               BeBytes(numSampleFrames, 4), BeBytes(sampleSize, 2), sampleRate);
    }

    /** The SSND chunk: its tag, the size `write` worked out, the offset, the
        block size, then the samples. */
    method WriteSsnd(stream: Stream, ssndSize: u32)
      requires stream.Valid() && Writable(State()) && ssndSize == SsndSize(State())
      modifies stream`buf
      ensures stream.Valid()
      ensures stream.buf == old(stream.buf) + (BeBytes(SSND_ID, 4) + SsndBody(State()))
    {
      ghost var b := stream.buf;
      Pow256Widths();
      stream.WriteUInt(SSND_ID, 4);
      stream.WriteUInt(ssndSize, 4);
      stream.WriteUInt(offset, 4);
      stream.WriteUInt(blockSize, 4);
      WriteSamples(stream);
      InOrder5(b, BeBytes(SSND_ID, 4), BeBytes(ssndSize, 4), BeBytes(offset, 4),
               BeBytes(blockSize, 4), SamplesBytes(State()));
    }

    /** The sample loop of `write`: for each frame, for each channel, the
        sample cut to the width `sampleSize` calls for; 24-bit samples and
        samples above 32 bits write nothing. */
    method WriteSamples(stream: Stream)
      requires stream.Valid() && Writable(State())
      modifies stream`buf
      ensures stream.Valid()
      ensures stream.buf == old(stream.buf) + SamplesBytes(State())
    {
      ghost var b := stream.buf;
      ghost var c, n, w := numChannels as nat, numSampleFrames as nat, WriteWidth(sampleSize);
      var i := 0;
      while i < numSampleFrames
        invariant i <= n && stream.Valid()
        invariant w > 0 ==> stream.buf == b + FramesBytes(frames, c, i, w)
        invariant w == 0 ==> stream.buf == b
      {
        WriteFrame(stream, i);
        if w > 0 {
          AppendAssoc(b, FramesBytes(frames, c, i, w), FrameBytes(frames, i, c, w));
        }
        i := i + 1;
      }
      if w == 0 {
        AppendEmpty(b);
      }
    }

    /** The inner loop: every channel of frame `i`, in order. */
    method WriteFrame(stream: Stream, i: nat)
      requires stream.Valid() && Writable(State()) && i < numSampleFrames
      modifies stream`buf
      ensures stream.Valid()
      ensures var w := WriteWidth(sampleSize);
        && (w > 0 ==> stream.buf == old(stream.buf) + FrameBytes(frames, i, numChannels, w))
        && (w == 0 ==> stream.buf == old(stream.buf))
    {
      ghost var b := stream.buf;
      ghost var w := WriteWidth(sampleSize);
      var j := 0;
      while j < numChannels
        invariant j <= numChannels && stream.Valid()
        invariant w > 0 ==> stream.buf == b + FrameBytes(frames, i, j, w)
        invariant w == 0 ==> stream.buf == b
      {
        WriteSample(stream, i, j);
        if w > 0 {
          AppendAssoc(b, FrameBytes(frames, i, j, w), BeBytes(frames[j][i], w));
        }
        j := j + 1;
      }
    }

    /** One pass of the inner loop: sample `j` of frame `i` converted to
        `uint8_t`, `uint16_t` or `uint32_t` and written big-endian. */
    method WriteSample(stream: Stream, i: nat, j: nat)
      requires stream.Valid() && Writable(State()) && i < numSampleFrames && j < numChannels
      modifies stream`buf
      ensures stream.Valid()
      ensures var w := WriteWidth(sampleSize);
        && (w > 0 ==> stream.buf == old(stream.buf) + BeBytes(frames[j][i], w))
        && (w == 0 ==> stream.buf == old(stream.buf))
    {
      Pow256Widths();
      if sampleSize <= 8 {
        var frame := frames[j][i] % 0x100;
        stream.WriteUInt(frame, 1);
        LowByte(frames[j][i]);
      } else if sampleSize <= 16 {
        var frame := frames[j][i] % 0x1_0000;
        stream.WriteUInt(frame, 2);
        LowBytes(frames[j][i]);
      } else if sampleSize <= 24 {
        // `write` logs an error here and writes nothing
      } else if sampleSize <= 32 {
        stream.WriteUInt(frames[j][i], 4);
      }
    }
  }

  // ---------------------------------------------------------------------------
  // Reading from a position of the stream's buffer

  /** Reading a `w`-byte integer at position `p` of `buf` is taking it from
      the suffix of `buf` that starts there. */
  lemma TakeUIntAt(buf: seq<byte>, p: nat, w: nat)
    ensures p + w <= |buf| ==>
      TakeUInt(buf[p..], w) == Ok(Taken(BeValue(buf[p..p + w]), buf[p + w..]))
    ensures p <= |buf| < p + w ==> TakeUInt(buf[p..], w) == EmptyFlow
  {
    if p + w <= |buf| {
      assert buf[p..][..w] == buf[p..p + w];
      assert buf[p..][w..] == buf[p + w..];
    }
  }

  lemma TakeBytesAt(buf: seq<byte>, p: nat, len: nat)
    ensures p + len <= |buf| ==>
      TakeBytes(buf[p..], len) == Ok(Taken(buf[p..p + len], buf[p + len..]))
    ensures p <= |buf| < p + len ==> TakeBytes(buf[p..], len) == EmptyFlow
  {
    if p + len <= |buf| {
      assert buf[p..][..len] == buf[p..p + len];
      assert buf[p..][len..] == buf[p + len..];
    }
  }

  /** `Decode` in terms of positions in `data`: the two magic numbers at
      offsets 0 and 8, and the chunk loop from offset 12. */
  lemma DecodeAt(data: seq<byte>, init: Aiff)
    ensures |data| < 4 ==> Decode(data, init) == EmptyFlow
    ensures |data| >= 4 && BeValue(data[0..4]) != FORM_ID ==> Decode(data, init) == Ok((init, BadId))
    ensures |data| >= 4 && BeValue(data[0..4]) == FORM_ID ==>
      && (|data| < 12 ==> Decode(data, init) == EmptyFlow)
      && (|data| >= 12 && BeValue(data[8..12]) != AIFF_TYPE ==> Decode(data, init) == Ok((init, BadFormType)))
      && (|data| >= 12 && BeValue(data[8..12]) == AIFF_TYPE ==> Decode(data, init) == Chunks(data[12..], init))
  {
    assert data[0..] == data;
    TakeUIntAt(data, 0, 4);
    TakeUIntAt(data, 4, 4);
    TakeUIntAt(data, 8, 4);
  }

  /** A turn of the chunk loop at position `p` of `data` fails when no
      whole tag is left there, and stops when the tag is not one it knows. */
  lemma ChunkTagAt(data: seq<byte>, p: nat, st: Aiff)
    requires p < |data|
    ensures p + 4 > |data| ==> Chunks(data[p..], st) == EmptyFlow
    ensures p + 4 <= |data| ==>
      var tag := BeValue(data[p..p + 4]);
      tag != NAME_ID && tag != COMM_ID && tag != SSND_ID ==>
        tag < U32_MOD && Chunks(data[p..], st) == Ok((st, UnknownChunk(tag)))
  {
    Pow256Widths();
    TakeUIntAt(data, p, 4);
  }

  /** A turn of the chunk loop at position `t` of `data` is the step `Chunk`
      for the tag found there. */
  lemma ChunkStep(data: seq<byte>, t: nat, tag: u32, st: Aiff)
    requires t + 4 <= |data| && BeValue(data[t..t + 4]) == tag
    ensures Chunks(data[t..], st) == Chunk(tag, data[t + 4..], st)
  {
    TakeUIntAt(data, t, 4);
  }

  /** A NAME chunk whose body starts at `p` fails when its length or its
      bytes are not all there. */
  lemma NameChunkFails(data: seq<byte>, p: nat, st: Aiff)
    requires p <= |data|
    ensures p + 4 > |data| ==> Chunk(NAME_ID, data[p..], st) == EmptyFlow
    ensures p + 4 <= |data| && p + 4 + BeValue(data[p..p + 4]) > |data| ==> Chunk(NAME_ID, data[p..], st) == EmptyFlow
  {
    TakeUIntAt(data, p, 4);
    if p + 4 <= |data| {
      TakeBytesAt(data, p + 4, BeValue(data[p..p + 4]));
    }
  }

  /** A complete NAME chunk whose body starts at `p`: the length, then the
      name, which the chunk loop goes on with at `q`. */
  lemma NameChunkAt(data: seq<byte>, p: nat, q: nat, st: Aiff, st2: Aiff, name: seq<byte>)
    requires p + 4 <= |data| && q == p + 4 + BeValue(data[p..p + 4]) && q <= |data|
    requires name == data[p + 4..q] && st2 == st.(name := name)
    ensures Chunks(data[q..], st2) == Chunk(NAME_ID, data[p..], st)
  {
    NameChunkOf(data, p, q, st, st2, name);
  }

  lemma NameChunkOf(data: seq<byte>, p: nat, q: nat, st: Aiff, st2: Aiff, name: seq<byte>)
    requires p + 4 <= |data| && q == p + 4 + BeValue(data[p..p + 4]) && q <= |data|
    requires name == data[p + 4..q] && st2 == st.(name := name)
    ensures NameChunk(data[p..], st) == Ok(Taken(st2, data[q..]))
  {
    TakeUIntAt(data, p, 4);
    TakeBytesAt(data, p + 4, BeValue(data[p..p + 4]));
  }

  /** A COMM chunk whose body starts at `p` fails when its 22 bytes are not
      all there. */
  lemma CommChunkFails(data: seq<byte>, p: nat, st: Aiff)
    requires p <= |data|
    ensures p + 22 > |data| ==> Chunk(COMM_ID, data[p..], st) == EmptyFlow
  {
  }

  /** A complete COMM chunk whose body starts at `p` sets the four common
      fields. */
  lemma CommChunkAt(data: seq<byte>, p: nat, st: Aiff, st2: Aiff,
                    channels: u16, frameCount: u32, bits: u16, rate: SampleRate)
    requires p + 22 <= |data|
    requires channels == BeValue(data[p + 4..p + 6]) && frameCount == BeValue(data[p + 6..p + 10])
    requires bits == BeValue(data[p + 10..p + 12]) && rate == data[p + 12..p + 22]
    requires st2 == st.(numChannels := channels, numSampleFrames := frameCount, sampleSize := bits, sampleRate := rate)
    ensures Chunks(data[p + 22..], st2) == Chunk(COMM_ID, data[p..], st)
  {
    CommChunkOf(data, p, st, st2, channels, frameCount, bits, rate);
  }

  lemma CommChunkOf(data: seq<byte>, p: nat, st: Aiff, st2: Aiff,
                    channels: u16, frameCount: u32, bits: u16, rate: SampleRate)
    requires p + 22 <= |data|
    requires channels == BeValue(data[p + 4..p + 6]) && frameCount == BeValue(data[p + 6..p + 10])
    requires bits == BeValue(data[p + 10..p + 12]) && rate == data[p + 12..p + 22]
    requires st2 == st.(numChannels := channels, numSampleFrames := frameCount, sampleSize := bits, sampleRate := rate)
    ensures CommChunk(data[p..], st) == Ok(Taken(st2, data[p + 22..]))
  {
    Pow256Widths();
    TakeUIntAt(data, p, 4);
    TakeUIntAt(data, p + 4, 2);
    TakeUIntAt(data, p + 6, 4);
    TakeUIntAt(data, p + 10, 2);
    TakeBytesAt(data, p + 12, 10);
  }

  /** An SSND chunk whose body starts at `p` fails when its three fields and
      its samples are not all there. */
  lemma SsndChunkFails(data: seq<byte>, p: nat, st: Aiff)
    requires p <= |data|
    ensures var m := NumSamples(st.numChannels, st.numSampleFrames, ReadWidth(st.sampleSize));
      p + 12 + m > |data| ==> Chunk(SSND_ID, data[p..], st) == EmptyFlow
  {
    Pow256Widths();
    TakeUIntAt(data, p, 4);
    TakeUIntAt(data, p + 4, 4);
    TakeUIntAt(data, p + 8, 4);
  }

  /** A complete SSND chunk whose body starts at `p`: the offset, the block
      size and the samples follow the chunk size, and the chunk loop goes on
      at `q` with them stored. */
  lemma SsndChunkAt(data: seq<byte>, p: nat, q: nat, st: Aiff, st2: Aiff,
                    c: nat, n: nat, w: nat, m: nat, base: seq<seq<u32>>,
                    offset: u32, blockSize: u32, frames: seq<seq<u32>>)
    requires c == st.numChannels as nat && n == st.numSampleFrames as nat && w == ReadWidth(st.sampleSize)
    requires m == NumSamples(c, n, w) && base == AiffFormat.ResizeFrames(st.frames, c, n)
    requires q == p + 12 + m && q <= |data|
    requires offset == BeValue(data[p + 4..p + 8]) && blockSize == BeValue(data[p + 8..p + 12])
    requires frames == SampleMatrix(data[p + 12..p + 12 + m], c, n, w, base)
    requires st2 == st.(offset := offset, blockSize := blockSize, frames := frames)
    ensures Chunks(data[q..], st2) == Chunk(SSND_ID, data[p..], st)
  {
    SsndChunkOf(data, p, q, st, st2, c, n, w, m, base, offset, blockSize, frames);
  }

  lemma SsndChunkOf(data: seq<byte>, p: nat, q: nat, st: Aiff, st2: Aiff,
                    c: nat, n: nat, w: nat, m: nat, base: seq<seq<u32>>,
                    offset: u32, blockSize: u32, frames: seq<seq<u32>>)
    requires c == st.numChannels as nat && n == st.numSampleFrames as nat && w == ReadWidth(st.sampleSize)
    requires m == NumSamples(c, n, w) && base == AiffFormat.ResizeFrames(st.frames, c, n)
    requires q == p + 12 + m && q <= |data|
    requires offset == BeValue(data[p + 4..p + 8]) && blockSize == BeValue(data[p + 8..p + 12])
    requires frames == SampleMatrix(data[p + 12..p + 12 + m], c, n, w, base)
    requires st2 == st.(offset := offset, blockSize := blockSize, frames := frames)
    ensures SsndChunk(data[p..], st) == Ok(Taken(st2, data[q..]))
  {
    Pow256Widths();
    TakeUIntAt(data, p, 4);
    TakeUIntAt(data, p + 4, 4);
    TakeUIntAt(data, p + 8, 4);
    TakeBytesAt(data, p + 12, m);
  }

  /** The NAME, COMM and SSND cases of the chunk loop, for a tag at `t`
      followed by the chunk's body at `p`. */
  lemma NameStepFails(data: seq<byte>, t: nat, p: nat, st: Aiff)
    requires p == t + 4 && p <= |data| && BeValue(data[t..p]) == NAME_ID
    ensures p + 4 > |data| ==> Chunks(data[t..], st) == EmptyFlow
    ensures p + 4 <= |data| && p + 4 + BeValue(data[p..p + 4]) > |data| ==> Chunks(data[t..], st) == EmptyFlow
  {
    ChunkStep(data, t, NAME_ID, st);
    NameChunkFails(data, p, st);
  }

  lemma NameStep(data: seq<byte>, t: nat, p: nat, q: nat, st: Aiff, st2: Aiff, name: seq<byte>)
    requires p == t + 4 && p + 4 <= |data| && BeValue(data[t..p]) == NAME_ID
    requires q == p + 4 + BeValue(data[p..p + 4]) && q <= |data|
    requires name == data[p + 4..q] && st2 == st.(name := name)
    ensures Chunks(data[q..], st2) == Chunks(data[t..], st)
  {
    ChunkStep(data, t, NAME_ID, st);
    NameChunkAt(data, p, q, st, st2, name);
  }

  lemma CommStepFails(data: seq<byte>, t: nat, p: nat, st: Aiff)
    requires p == t + 4 && p <= |data| && BeValue(data[t..p]) == COMM_ID
    ensures p + 22 > |data| ==> Chunks(data[t..], st) == EmptyFlow
  {
    ChunkStep(data, t, COMM_ID, st);
    CommChunkFails(data, p, st);
  }

  lemma CommStep(data: seq<byte>, t: nat, p: nat, st: Aiff, st2: Aiff,
                 channels: u16, frameCount: u32, bits: u16, rate: SampleRate)
    requires p == t + 4 && p + 22 <= |data| && BeValue(data[t..p]) == COMM_ID
    requires channels == BeValue(data[p + 4..p + 6]) && frameCount == BeValue(data[p + 6..p + 10])
    requires bits == BeValue(data[p + 10..p + 12]) && rate == data[p + 12..p + 22]
    requires st2 == st.(numChannels := channels, numSampleFrames := frameCount, sampleSize := bits, sampleRate := rate)
    ensures Chunks(data[p + 22..], st2) == Chunks(data[t..], st)
  {
    ChunkStep(data, t, COMM_ID, st);
    CommChunkAt(data, p, st, st2, channels, frameCount, bits, rate);
  }

  lemma SsndStepFails(data: seq<byte>, t: nat, p: nat, st: Aiff)
    requires p == t + 4 && p <= |data| && BeValue(data[t..p]) == SSND_ID
    ensures var m := NumSamples(st.numChannels, st.numSampleFrames, ReadWidth(st.sampleSize));
      p + 12 + m > |data| ==> Chunks(data[t..], st) == EmptyFlow
  {
    ChunkStep(data, t, SSND_ID, st);
    SsndChunkFails(data, p, st);
  }

  lemma SsndStep(data: seq<byte>, t: nat, p: nat, q: nat, st: Aiff, st2: Aiff,
                 c: nat, n: nat, w: nat, m: nat, base: seq<seq<u32>>,
                 offset: u32, blockSize: u32, frames: seq<seq<u32>>)
    requires p == t + 4 && p <= |data| && BeValue(data[t..p]) == SSND_ID
    requires c == st.numChannels as nat && n == st.numSampleFrames as nat && w == ReadWidth(st.sampleSize)
    requires m == NumSamples(c, n, w) && base == AiffFormat.ResizeFrames(st.frames, c, n)
    requires q == p + 12 + m && q <= |data|
    requires offset == BeValue(data[p + 4..p + 8]) && blockSize == BeValue(data[p + 8..p + 12])
    requires frames == SampleMatrix(data[p + 12..p + 12 + m], c, n, w, base)
    requires st2 == st.(offset := offset, blockSize := blockSize, frames := frames)
    ensures Chunks(data[q..], st2) == Chunks(data[t..], st)
  {
    ChunkStep(data, t, SSND_ID, st);
    SsndChunkAt(data, p, q, st, st2, c, n, w, m, base, offset, blockSize, frames);
  }

  /** The cell at `cell` of the region starting at `p` is the cell at
      `p + cell` of the whole buffer. */
  lemma CellAt(buf: seq<byte>, p: nat, cell: nat, w: nat, keep: u32)
    requires p <= |buf|
    ensures SampleCell(buf[p..], cell, w, keep) == SampleCell(buf, p + cell, w, keep)
  {
    if p + cell + w <= |buf| {
      assert buf[p..][cell..cell + w] == buf[p + cell..p + cell + w];
    }
  }

  // ---------------------------------------------------------------------------
  // The sample loop's progress

  /** Bytes in the SSND region: `numSampleFrames * numChannels` samples of `w` bytes. */
  function NumSamples(c: nat, n: nat, w: nat): nat
  {
    n * c * w
  }

  function RowOffset(c: nat, w: nat, i: nat): nat
  {
    i * c * w
  }

  /** Where sample `j` of frame `i` starts, from the start of the region. */
  function SampleOffset(c: nat, w: nat, i: nat, j: nat): nat
  {
    (i * c + j) * w
  }

  lemma RowStart(c: nat, w: nat, i: nat)
    ensures SampleOffset(c, w, i, 0) == RowOffset(c, w, i)
    ensures RowOffset(c, w, i) == NumSamples(c, i, w)
  {
  }

  lemma RowEnd(c: nat, w: nat, i: nat)
    ensures SampleOffset(c, w, i, c) == RowOffset(c, w, i + 1)
  {
    Distributes(i * c, c, w);
    Distributes(i, 1, c);
  }

  lemma SampleEnd(c: nat, w: nat, i: nat, j: nat)
    requires j < c
    ensures SampleOffset(c, w, i, j) + w == SampleOffset(c, w, i, j + 1)
    ensures SampleOffset(c, w, i, j + 1) <= SampleOffset(c, w, i, c)
  {
    Distributes(i * c + j, 1, w);
    MulMonotone(i * c + j + 1, i * c + c, w);
  }

  lemma RowBound(c: nat, n: nat, w: nat, i: nat)
    requires i < n
    ensures RowOffset(c, w, i + 1) <= NumSamples(c, n, w)
  {
    MulMonotone(i + 1, n, c);
    MulMonotone((i + 1) * c, n * c, w);
  }

  /** The matrix after the loop has read every sample before sample `j` of
      frame `i` (frame-major order) from `input`; the others keep `base`. */
  ghost function Filled(input: seq<byte>, c: nat, n: nat, w: nat, base: seq<seq<u32>>, i: nat, j: nat): (m: seq<seq<u32>>)
    requires Shaped(base, c, n)
    ensures Shaped(m, c, n)
  {
    seq(c, jj requires 0 <= jj < c =>
      seq(n, ii requires 0 <= ii < n =>
        if ii < i || (ii == i && jj < j) then SampleCell(input, SampleOffset(c, w, ii, jj), w, base[jj][ii])
        else base[jj][ii]))
  }

  /** Two matrices of the same shape with the same cells are equal. */
  lemma SameMatrix(a: seq<seq<u32>>, b: seq<seq<u32>>, c: nat, n: nat)
    requires Shaped(a, c, n) && Shaped(b, c, n)
    requires forall jj, ii :: 0 <= jj < c && 0 <= ii < n ==> a[jj][ii] == b[jj][ii]
    ensures a == b
  {
    forall jj | 0 <= jj < c
      ensures a[jj] == b[jj]
    {
    }
  }

  lemma FilledStart(input: seq<byte>, c: nat, n: nat, w: nat, base: seq<seq<u32>>)
    requires Shaped(base, c, n)
    ensures Filled(input, c, n, w, base, 0, 0) == base
  {
    SameMatrix(Filled(input, c, n, w, base, 0, 0), base, c, n);
  }

  lemma FilledStep(input: seq<byte>, c: nat, n: nat, w: nat, base: seq<seq<u32>>, i: nat, j: nat)
    requires Shaped(base, c, n) && i < n && j < c
    ensures var m: seq<seq<u32>> := Filled(input, c, n, w, base, i, j);
      var row: seq<u32> := m[j][i := SampleCell(input, SampleOffset(c, w, i, j), w, base[j][i])];
      Filled(input, c, n, w, base, i, j + 1) == m[j := row]
  {
    var m := Filled(input, c, n, w, base, i, j);
    var row := m[j][i := SampleCell(input, SampleOffset(c, w, i, j), w, base[j][i])];
    SameMatrix(Filled(input, c, n, w, base, i, j + 1), m[j := row], c, n);
  }

  lemma FilledRow(input: seq<byte>, c: nat, n: nat, w: nat, base: seq<seq<u32>>, i: nat)
    requires Shaped(base, c, n)
    ensures Filled(input, c, n, w, base, i, c) == Filled(input, c, n, w, base, i + 1, 0)
  {
    SameMatrix(Filled(input, c, n, w, base, i, c), Filled(input, c, n, w, base, i + 1, 0), c, n);
  }

  lemma FilledDone(input: seq<byte>, c: nat, n: nat, w: nat, base: seq<seq<u32>>)
    requires Shaped(base, c, n) && NumSamples(c, n, w) <= |input|
    ensures Filled(input, c, n, w, base, n, 0) == SampleMatrix(input[..NumSamples(c, n, w)], c, n, w, base)
  {
    var region := input[..NumSamples(c, n, w)];
    forall jj, ii | 0 <= jj < c && 0 <= ii < n
      ensures Filled(input, c, n, w, base, n, 0)[jj][ii] == SampleMatrix(region, c, n, w, base)[jj][ii]
    {
      SampleEndBound(c, n, w, ii, jj);
      var off := SampleOffset(c, w, ii, jj);
      assert region[off..off + w] == input[off..off + w];
    }
    SameMatrix(Filled(input, c, n, w, base, n, 0), SampleMatrix(region, c, n, w, base), c, n);
  }

  // ---------------------------------------------------------------------------
  // Writing

  /** Cutting `v` to its low `w` bytes, as the casts to `uint8_t` and
      `uint16_t` do, does not change its `w`-byte encoding. */
  lemma LowByte(v: nat)
    ensures BeBytes(v % 0x100, 1) == BeBytes(v, 1)
  {
    assert BeBytes(v % 0x100, 1) == [(v % 0x100) % 0x100];
  }

  /** The same for the cast to `uint16_t`. */
  lemma LowBytes(v: nat)
    ensures BeBytes(v % 0x1_0000, 2) == BeBytes(v, 2)
  {
    var low := v % 0x1_0000;
    assert BeBytes(low, 2) == BeBytes(low / 0x100, 1) + [low % 0x100];
    assert BeBytes(v, 2) == BeBytes(v / 0x100, 1) + [v % 0x100];
    ByteOfSplit(v / 0x1_0000, low, 0x1_0000, v);
    DivOfSplit(v / 0x1_0000, low, v);
  }

  /** Adding a multiple of 256 leaves the low byte alone. */
  lemma ByteOfSplit(q: nat, r: nat, m: nat, v: nat)
    requires (m == 0x100 || m == 0x1_0000) && v == m * q + r && r < m
    ensures v % 0x100 == r % 0x100
  {
    assert v == 0x100 * ((m / 0x100) * q + r / 0x100) + r % 0x100;
  }

  /** The second byte of `v` only depends on its low 16 bits `r`. */
  lemma DivOfSplit(q: nat, r: nat, v: nat)
    requires v == 0x1_0000 * q + r && r < 0x1_0000
    ensures (v / 0x100) % 0x100 == (r / 0x100) % 0x100
  {
    assert v == 0x100 * (0x100 * q + r / 0x100) + r % 0x100;
    assert v / 0x100 == 0x100 * q + r / 0x100;
  }

  /** The stream's appends, one after another, give the right-nested chunks
      `Encode` describes. */
  lemma InOrder3<T>(b: seq<T>, x: seq<T>, y: seq<T>, z: seq<T>)
    ensures ((b + x) + y) + z == b + (x + (y + z))
  {
    AppendAssoc(b + x, y, z);
    AppendAssoc(b, x, y + z);
  }

  lemma InOrder5<T>(b: seq<T>, x1: seq<T>, x2: seq<T>, x3: seq<T>, x4: seq<T>, x5: seq<T>)
    ensures ((((b + x1) + x2) + x3) + x4) + x5 == b + (x1 + (x2 + (x3 + (x4 + x5))))
  {
    InOrder3(b + x1 + x2, x3, x4, x5);
    InOrder3(b, x1, x2, x3 + (x4 + x5));
  }

  lemma InOrder6<T>(b: seq<T>, x1: seq<T>, x2: seq<T>, x3: seq<T>, x4: seq<T>, x5: seq<T>, x6: seq<T>)
    ensures (((((b + x1) + x2) + x3) + x4) + x5) + x6 == b + (x1 + (x2 + (x3 + (x4 + (x5 + x6)))))
  {
    InOrder3(b + x1 + x2 + x3, x4, x5, x6);
    InOrder3(b + x1, x2, x3, x4 + (x5 + x6));
    AppendAssoc(b, x1, x2 + (x3 + (x4 + (x5 + x6))));
  }

  /** `Encode` is the FORM header's three fields followed by the three
      chunks, in the order the stream receives them. */
  lemma EncodeInOrder(a: Aiff)
    requires Writable(a)
    ensures Encode(a) == ((((([] + BeBytes(FORM_ID, 4)) + BeBytes(HeaderSize(a), 4)) + BeBytes(AIFF_TYPE, 4))
      + (BeBytes(NAME_ID, 4) + NameBody(a))) + (BeBytes(COMM_ID, 4) + CommBody(a))) + (BeBytes(SSND_ID, 4) + SsndBody(a))
  {
    var b: seq<byte> := [];
    InOrder6(b, BeBytes(FORM_ID, 4), BeBytes(HeaderSize(a), 4), BeBytes(AIFF_TYPE, 4),
             BeBytes(NAME_ID, 4) + NameBody(a), BeBytes(COMM_ID, 4) + CommBody(a), BeBytes(SSND_ID, 4) + SsndBody(a));
  }

  // ---------------------------------------------------------------------------
  // Writing, then reading back

  /** What `write` produces from one file, `read` into another gives back
      every field, and the chunk loop ends by using up the input. */
  method WriteThenRead(source: AiffFile, target: AiffFile) returns (r: Result<Stop>)
    requires RoundTrips(source.State())
    modifies target
    ensures r == Ok(Exhausted) && target.State() == old(source.State())
  {
    DecodeEncode(source.State(), target.State());
    var bytes := source.Write();
    r := target.Read(bytes);
  }
}
