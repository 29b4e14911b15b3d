/** What the AIFF decoder and encoder promise: the encoder's layout and
    length, the decoder's magic-tag checks and chunk loop, where each sample
    comes from, and that decoding an encoded file gives back every field. */
module AiffProperties {
  import opened ByteOrder
  import opened Slices
  import opened Streams
  import opened AiffFormat

  lemma TakeUIntOf(v: nat, w: nat, rest: seq<byte>)
    requires v < Pow256(w)
    ensures TakeUInt(BeBytes(v, w) + rest, w) == Ok(Taken(v, rest))
  {
    assert (BeBytes(v, w) + rest)[..w] == BeBytes(v, w);
    assert (BeBytes(v, w) + rest)[w..] == rest;
    BeValueOfBytes(v, w);
  }

  lemma TakeBytesOf(s: seq<byte>, rest: seq<byte>)
    ensures TakeBytes(s + rest, |s|) == Ok(Taken(s, rest))
  {
    assert (s + rest)[..|s|] == s;
    assert (s + rest)[|s|..] == rest;
  }

  // ---------------------------------------------------------------------------
  // Decoder

  /** The chunk loop only ever ends because the input is used up or because
      it met a tag other than NAME, COMM and SSND. */
  lemma {:induction false} ChunksStop(rest: seq<byte>, st: Aiff)
    ensures var r := Chunks(rest, st);
      r.Ok? ==>
        (r.value.1 == Exhausted ||
         (r.value.1.UnknownChunk? && r.value.1.id != NAME_ID && r.value.1.id != COMM_ID && r.value.1.id != SSND_ID))
    decreases |rest|
  {
    if |rest| >= 4 {
      var id := TakeUInt(rest, 4).value;
      if id.value == NAME_ID {
        var chunk := NameChunk(id.rest, st);
        if chunk.Ok? {
          ChunksStop(chunk.value.rest, chunk.value.value);
        }
      } else if id.value == COMM_ID {
        var chunk := CommChunk(id.rest, st);
        if chunk.Ok? {
          ChunksStop(chunk.value.rest, chunk.value.value);
        }
      } else if id.value == SSND_ID {
        var chunk := SsndChunk(id.rest, st);
        if chunk.Ok? {
          ChunksStop(chunk.value.rest, chunk.value.value);
        }
      }
    }
  }

  /** A chunk with an unknown tag ends decoding; nothing after its tag is read. */
  lemma UnknownChunkStops(tag: u32, rest: seq<byte>, st: Aiff)
    requires tag != NAME_ID && tag != COMM_ID && tag != SSND_ID
    ensures Chunks(BeBytes(tag, 4) + rest, st) == Ok((st, UnknownChunk(tag)))
  {
    Pow256Widths();
    TakeUIntOf(tag, 4, rest);
  }

  /** Decoding returns early, with the fields untouched, exactly when the
      first tag is not "FORM" or the form type is not "AIFF"; no chunk is
      read unless both are right. */
  lemma MagicChecked(bytes: seq<byte>, init: Aiff)
    ensures var r := Decode(bytes, init);
      && (r.Ok? && r.value.1 == BadId <==> |bytes| >= 4 && bytes[..4] != BeBytes(FORM_ID, 4))
      && (r.Ok? && r.value.1 == BadFormType <==>
            |bytes| >= 12 && bytes[..4] == BeBytes(FORM_ID, 4) && bytes[8..12] != BeBytes(AIFF_TYPE, 4))
      && (r.Ok? && (r.value.1 == BadId || r.value.1 == BadFormType) ==> r.value.0 == init)
  {
    Pow256Widths();
    if |bytes| >= 4 {
      BeValueOfBytes(FORM_ID, 4);
      BeValueInjective(bytes[..4], BeBytes(FORM_ID, 4));
      if |bytes| >= 12 {
        assert bytes[4..][4..] == bytes[8..];
        assert bytes[8..][..4] == bytes[8..12];
        assert bytes[8..][4..] == bytes[12..];
        BeValueOfBytes(AIFF_TYPE, 4);
        BeValueInjective(bytes[8..12], BeBytes(AIFF_TYPE, 4));
        ChunksStop(bytes[12..], init);
      }
    }
  }

  /** A successful SSND chunk takes its samples from the `n * c * w` bytes
      after its three 4-byte fields, and leaves the rest of the input. */
  lemma SsndRegion(input: seq<byte>, st: Aiff)
    requires SsndChunk(input, st).Ok?
    ensures var c, n, w := st.numChannels, st.numSampleFrames, ReadWidth(st.sampleSize);
      && 12 + n * c * w <= |input|
      && SsndChunk(input, st).value.value.frames ==
           SampleMatrix(input[12..12 + n * c * w], c, n, w, ResizeFrames(st.frames, c, n))
  {
    var c, n, w := st.numChannels, st.numSampleFrames, ReadWidth(st.sampleSize);
    assert input[4..][4..][4..] == input[12..];
    assert input[12..][..n * c * w] == input[12..12 + n * c * w];
  }

  /** Frame-major order: sample `i` of channel `j` is the `(i * c + j)`-th
      group of `w` bytes of the region, zero-extended from 1, 2 or 4 bytes;
      when samples are skipped (sizes 17..24) or not read (sizes above 32)
      it is the resized old value, so zero for a slot the resize added. */
  lemma SampleMatrixAt(region: seq<byte>, c: nat, n: nat, w: nat, base: seq<seq<u32>>, i: nat, j: nat)
    requires Shaped(base, c, n) && |region| == n * c * w && i < n && j < c
    ensures 0 <= (i * c + j) * w && (i * c + j) * w + w <= |region|
    ensures SampleMatrix(region, c, n, w, base)[j][i] ==
      if w == 1 || w == 2 || w == 4 then BeValue(region[(i * c + j) * w..(i * c + j) * w + w])
      else base[j][i]
  {
    SampleEndBound(c, n, w, i, j);
  }

  // ---------------------------------------------------------------------------
  // Encoder

  /** The tags of the three chunks, at their offsets from the start of the
      NAME chunk; the samples follow the 16 bytes of SSND tag and fields. */
  lemma ChunkTags(a: Aiff)
    requires Writable(a)
    ensures var l := |a.name|;
      var name, comm, ssnd := BeBytes(NAME_ID, 4) + NameBody(a), BeBytes(COMM_ID, 4) + CommBody(a),
                              BeBytes(SSND_ID, 4) + SsndBody(a);
      var chunks := name + (comm + ssnd);
      && |name| == 8 + l && |comm| == 26
      && |chunks| == 50 + l + |SamplesBytes(a)|
      && chunks[0..4] == BeBytes(NAME_ID, 4)
      && chunks[8 + l..12 + l] == BeBytes(COMM_ID, 4)
      && chunks[34 + l..38 + l] == BeBytes(SSND_ID, 4)
      && chunks[50 + l..] == SamplesBytes(a)
  {
    var l := |a.name|;
    var name, comm, ssnd := BeBytes(NAME_ID, 4) + NameBody(a), BeBytes(COMM_ID, 4) + CommBody(a),
                            BeBytes(SSND_ID, 4) + SsndBody(a);
    var tail := comm + ssnd;
    SliceOfLeft(name, tail, 0, 4);
    SliceOfLeft(BeBytes(NAME_ID, 4), NameBody(a), 0, 4);
    SliceOfRight(name, tail, 8 + l, 0, 4);
    SliceOfLeft(comm, ssnd, 0, 4);
    SliceOfLeft(BeBytes(COMM_ID, 4), CommBody(a), 0, 4);
    SliceOfRight(name, tail, 34 + l, 26, 4);
    SliceOfRight(comm, ssnd, 26, 0, 4);
    SliceOfLeft(BeBytes(SSND_ID, 4), SsndBody(a), 0, 4);
    SliceWhole(BeBytes(NAME_ID, 4));
    SliceWhole(BeBytes(COMM_ID, 4));
    SliceWhole(BeBytes(SSND_ID, 4));
    DropOfRight(name, tail, 50 + l, 42);
    DropOfRight(comm, ssnd, 42, 16);
    SsndSamples(a);
  }

  /** The samples follow the SSND tag and its three 4-byte fields. */
  lemma SsndSamples(a: Aiff)
    requires Writable(a)
    ensures (BeBytes(SSND_ID, 4) + SsndBody(a))[16..] == SamplesBytes(a)
  {
    var samples := SamplesBytes(a);
    var r2 := BeBytes(a.blockSize, 4) + samples;
    var r1 := BeBytes(a.offset, 4) + r2;
    var body := BeBytes(SsndSize(a), 4) + r1;
    DropOfRight(BeBytes(SSND_ID, 4), body, 16, 12);
    DropOfRight(BeBytes(SsndSize(a), 4), r1, 12, 8);
    DropOfRight(BeBytes(a.offset, 4), r2, 8, 4);
    DropOfRight(BeBytes(a.blockSize, 4), samples, 4, 0);
    SliceWhole(samples);
  }

  /** The encoder's layout: the FORM header, then the NAME, COMM and SSND
      chunk tags at their offsets (which move with the name's length), and
      the samples last. */
  lemma EncodeLayout(a: Aiff)
    requires Writable(a)
    ensures var e, l := Encode(a), |a.name|;
      && |e| == 62 + l + |SamplesBytes(a)|
      && e[0..4] == BeBytes(FORM_ID, 4)
      && e[8..12] == BeBytes(AIFF_TYPE, 4)
      && e[12..16] == BeBytes(NAME_ID, 4)
      && e[20 + l..24 + l] == BeBytes(COMM_ID, 4)
      && e[46 + l..50 + l] == BeBytes(SSND_ID, 4)
      && e[62 + l..] == SamplesBytes(a)
  {
    var l := |a.name|;
    var chunks := (BeBytes(NAME_ID, 4) + NameBody(a))
                  + ((BeBytes(COMM_ID, 4) + CommBody(a)) + (BeBytes(SSND_ID, 4) + SsndBody(a)));
    var form, size, kind := BeBytes(FORM_ID, 4), BeBytes(HeaderSize(a), 4), BeBytes(AIFF_TYPE, 4);
    var header := form + (size + kind);
    assert Encode(a) == form + (size + (kind + chunks));
    AppendAssoc(size, kind, chunks);
    AppendAssoc(form, size + kind, chunks);
    assert Encode(a) == header + chunks;
    ChunkTags(a);
    SliceOfLeft(header, chunks, 0, 4);
    SliceOfLeft(form, size + kind, 0, 4);
    SliceOfLeft(header, chunks, 8, 12);
    SliceOfRight(form, size + kind, 8, 4, 4);
    SliceOfRight(size, kind, 4, 0, 4);
    SliceWhole(form);
    SliceWhole(kind);
    SliceOfRight(header, chunks, 12, 0, 4);
    SliceOfRight(header, chunks, 20 + l, 8 + l, 4);
    SliceOfRight(header, chunks, 46 + l, 34 + l, 4);
    DropOfRight(header, chunks, 62 + l, 50 + l);
  }

  /** When no size overflows 32 bits and every sample size is one the
      encoder writes in full (1..16 or 25..32 bits), the output is exactly
      8 bytes longer than the size the FORM header declares. */
  lemma EncodeLength(a: Aiff)
    requires Writable(a)
    requires 1 <= a.sampleSize <= 16 || 25 <= a.sampleSize <= 32
    requires 54 + |a.name| + a.numSampleFrames * a.numChannels * ((a.sampleSize + 7) / 8) < U32_MOD
    ensures |Encode(a)| == 8 + HeaderSize(a)
  {
    HeaderSizeExact(a);
    EncodeLayout(a);
    assert WriteWidth(a.sampleSize) == (a.sampleSize + 7) / 8;
    FramesBytesLength(a.frames, a.numChannels, a.numSampleFrames, WriteWidth(a.sampleSize));
  }

  /** Without wrap-around, the FORM size field is the sum of the chunk sizes. */
  lemma HeaderSizeExact(a: Aiff)
    requires 54 + |a.name| + a.numSampleFrames * a.numChannels * ((a.sampleSize + 7) / 8) < U32_MOD
    ensures HeaderSize(a) == 54 + |a.name| + a.numSampleFrames * a.numChannels * ((a.sampleSize + 7) / 8)
  {
    var p, k := a.numSampleFrames * a.numChannels, (a.sampleSize + 7) / 8;
    if k == 0 {
      // sample size 0: no sample bytes are counted, however the product wraps
      assert SsndSize(a) == 8;
    } else {
      MulMonotone(1, k, p);
      assert p <= p * k;
      NoWrap(p);
      NoWrap(p * k);
      NoWrap(8 + p * k);
      assert SsndSize(a) == 8 + p * k;
    }
    NoWrap(4 + |a.name|);
    NoWrap(54 + |a.name| + p * k);
  }

  lemma NoWrap(x: int)
    requires 0 <= x < U32_MOD
    ensures x % U32_MOD == x
  {
  }

  // ---------------------------------------------------------------------------
  // Where each sample goes

  lemma {:induction false} FrameBytesLength(f: seq<seq<u32>>, i: nat, cnt: nat, w: nat)
    requires Covers(f, cnt, i + 1)
    ensures |FrameBytes(f, i, cnt, w)| == cnt * w
  {
    if cnt > 0 {
      FrameBytesLength(f, i, cnt - 1, w);
      Distributes(cnt - 1, 1, w);
    }
  }

  lemma {:induction false} FramesBytesLength(f: seq<seq<u32>>, c: nat, n: nat, w: nat)
    requires Covers(f, c, n)
    ensures |FramesBytes(f, c, n, w)| == n * c * w
  {
    if n > 0 {
      FramesBytesLength(f, c, n - 1, w);
      FrameBytesLength(f, n - 1, c, w);
      FrameStep(n, c, w);
    }
  }

  /** Channel `j` of frame `i` is bytes `j * w` to `j * w + w` of the frame. */
  lemma {:induction false} FrameBytesAt(f: seq<seq<u32>>, i: nat, cnt: nat, w: nat, j: nat)
    requires Covers(f, cnt, i + 1) && j < cnt
    ensures 0 <= j * w && j * w + w <= |FrameBytes(f, i, cnt, w)|
    ensures FrameBytes(f, i, cnt, w)[j * w..j * w + w] == BeBytes(f[j][i], w)
  {
    var prefix := FrameBytes(f, i, cnt - 1, w);
    var sample := BeBytes(f[cnt - 1][i], w);
    FrameBytesLength(f, i, cnt - 1, w);
    ChannelOffset(j, cnt, w);
    if j < cnt - 1 {
      FrameBytesAt(f, i, cnt - 1, w, j);
      SliceOfLeft(prefix, sample, j * w, j * w + w);
    } else {
      SliceOfRight(prefix, sample, j * w, 0, w);
      SliceWhole(sample);
    }
  }

  lemma ChannelOffset(j: nat, cnt: nat, w: nat)
    requires j < cnt
    ensures 0 <= j * w
    ensures j < cnt - 1 ==> j * w + w <= (cnt - 1) * w
    ensures j == cnt - 1 ==> j * w == (cnt - 1) * w
  {
    if j < cnt - 1 {
      MulMonotone(j + 1, cnt - 1, w);
    }
  }

  /** Sample `i` of channel `j` is the `(i * c + j)`-th group of `w` bytes. */
  lemma {:induction false} FramesBytesAt(f: seq<seq<u32>>, c: nat, n: nat, w: nat, i: nat, j: nat)
    requires Covers(f, c, n) && i < n && j < c
    ensures 0 <= (i * c + j) * w && (i * c + j) * w + w <= |FramesBytes(f, c, n, w)|
    ensures FramesBytes(f, c, n, w)[(i * c + j) * w..(i * c + j) * w + w] == BeBytes(f[j][i], w)
  {
    var off := (i * c + j) * w;
    if i < n - 1 {
      var earlier := FramesBytes(f, c, n - 1, w);
      FramesBytesAt(f, c, n - 1, w, i, j);
      assert off + w <= |earlier| && earlier[off..off + w] == BeBytes(f[j][i], w);
      FramesBytesGrow(f, c, n, w, off);
    } else {
      assert n == i + 1;
      FramesBytesLast(f, c, i, w, j);
    }
  }

  /** Appending frame `n - 1` leaves the bytes of the earlier frames in place. */
  lemma FramesBytesGrow(f: seq<seq<u32>>, c: nat, n: nat, w: nat, off: nat)
    requires Covers(f, c, n) && n > 0 && off + w <= |FramesBytes(f, c, n - 1, w)|
    ensures off + w <= |FramesBytes(f, c, n, w)|
    ensures FramesBytes(f, c, n, w)[off..off + w] == FramesBytes(f, c, n - 1, w)[off..off + w]
  {
    assert Covers(f, c, n - 1 + 1);
    SliceOfLeft(FramesBytes(f, c, n - 1, w), FrameBytes(f, n - 1, c, w), off, off + w);
  }

  /** Channel `j` of the last frame `m` sits `j * w` bytes into that frame. */
  lemma FramesBytesLast(f: seq<seq<u32>>, c: nat, m: nat, w: nat, j: nat)
    requires Covers(f, c, m + 1) && j < c
    ensures 0 <= (m * c + j) * w && (m * c + j) * w + w <= |FramesBytes(f, c, m + 1, w)|
    ensures FramesBytes(f, c, m + 1, w)[(m * c + j) * w..(m * c + j) * w + w] == BeBytes(f[j][m], w)
  {
    var prefix := FramesBytes(f, c, m, w);
    var last := FrameBytes(f, m, c, w);
    FramesBytesLength(f, c, m, w);
    LastOffset(m, c, j, w);
    FrameBytesAt(f, m, c, w, j);
    SliceOfRight(prefix, last, (m * c + j) * w, j * w, w);
  }

  lemma LastOffset(m: nat, c: nat, j: nat, w: nat)
    ensures 0 <= (m * c + j) * w && (m * c + j) * w == m * c * w + j * w
  {
    Distributes(m * c, j, w);
  }

  /** One more frame of `c` samples of `w` bytes. */
  lemma FrameStep(n: nat, c: nat, w: nat)
    requires n > 0
    ensures (n - 1) * c * w + c * w == n * c * w
  {
    Distributes(n - 1, 1, c);
    Distributes((n - 1) * c, c, w);
  }

  lemma Distributes(a: nat, b: nat, k: nat)
    ensures (a + b) * k == a * k + b * k
  {
  }

  // ---------------------------------------------------------------------------
  // Round trip

  /** The files the encoder and decoder agree on: a sample size both handle
      with the same width, a name whose length fits the 4-byte length field,
      exactly `numChannels` rows of `numSampleFrames` samples, and samples
      that fit the width the encoder cuts them to. */
  ghost predicate RoundTrips(a: Aiff)
  {
    && (a.sampleSize <= 16 || 25 <= a.sampleSize <= 32)
    && |a.name| < U32_MOD
    && Shaped(a.frames, a.numChannels, a.numSampleFrames)
    && forall j, i :: 0 <= j < |a.frames| && 0 <= i < |a.frames[j]| ==>
         a.frames[j][i] < Pow256(WriteWidth(a.sampleSize))
  }

  /** The NAME body the encoder writes reads back as the name. */
  lemma NameRoundTrip(a: Aiff, st: Aiff, rest: seq<byte>)
    requires |a.name| < U32_MOD
    ensures NameChunk(NameBody(a) + rest, st) == Ok(Taken(st.(name := a.name), rest))
  {
    var len := |a.name| % U32_MOD;
    assert len == |a.name|;
    Pow256Widths();
    AppendAssoc(BeBytes(len, 4), a.name, rest);
    TakeUIntOf(len, 4, a.name + rest);
    TakeBytesOf(a.name, rest);
  }

  /** The COMM body the encoder writes reads back as the four common fields. */
  lemma CommRoundTrip(a: Aiff, st: Aiff, rest: seq<byte>)
    ensures CommChunk(CommBody(a) + rest, st) ==
      Ok(Taken(st.(numChannels := a.numChannels, numSampleFrames := a.numSampleFrames,
                   sampleSize := a.sampleSize, sampleRate := a.sampleRate), rest))
  {
    Pow256Widths();
    var y3 := BeBytes(a.sampleSize, 2) + a.sampleRate;
    var y2 := BeBytes(a.numSampleFrames, 4) + y3;
    var y1 := BeBytes(a.numChannels, 2) + y2;
    AppendAssoc(BeBytes(COMM_SIZE, 4), y1, rest);
    AppendAssoc(BeBytes(a.numChannels, 2), y2, rest);
    AppendAssoc(BeBytes(a.numSampleFrames, 4), y3, rest);
    AppendAssoc(BeBytes(a.sampleSize, 2), a.sampleRate, rest);
    TakeUIntOf(COMM_SIZE, 4, y1 + rest);
    TakeUIntOf(a.numChannels, 2, y2 + rest);
    TakeUIntOf(a.numSampleFrames, 4, y3 + rest);
    TakeUIntOf(a.sampleSize, 2, a.sampleRate + rest);
    TakeBytesOf(a.sampleRate, rest);
  }

  /** One sample of encoded frames decodes to the value that was encoded. */
  lemma SampleCellOfFrames(f: seq<seq<u32>>, c: nat, n: nat, w: nat, i: nat, j: nat, keep: u32)
    requires Covers(f, c, n) && i < n && j < c
    requires w == 1 || w == 2 || w == 4
    requires f[j][i] < Pow256(w)
    ensures 0 <= (i * c + j) * w && SampleCell(FramesBytes(f, c, n, w), (i * c + j) * w, w, keep) == f[j][i]
  {
    FramesBytesAt(f, c, n, w, i, j);
    BeValueOfBytes(f[j][i], w);
  }

  /** Reading back the sample bytes of a matrix of the right shape gives
      the matrix, whatever the resized rows held before. */
  lemma SampleMatrixOfFrames(f: seq<seq<u32>>, c: nat, n: nat, w: nat, base: seq<seq<u32>>)
    requires Shaped(f, c, n) && Shaped(base, c, n)
    requires w == 1 || w == 2 || w == 4
    requires forall j, i :: 0 <= j < c && 0 <= i < n ==> f[j][i] < Pow256(w)
    ensures SampleMatrix(FramesBytes(f, c, n, w), c, n, w, base) == f
  {
    var m := SampleMatrix(FramesBytes(f, c, n, w), c, n, w, base);
    forall j | 0 <= j < c
      ensures m[j] == f[j]
    {
      SampleRowOfFrames(f, c, n, w, base, j);
    }
  }

  lemma SampleRowOfFrames(f: seq<seq<u32>>, c: nat, n: nat, w: nat, base: seq<seq<u32>>, j: nat)
    requires Shaped(f, c, n) && Shaped(base, c, n) && j < c
    requires w == 1 || w == 2 || w == 4
    requires forall i :: 0 <= i < n ==> f[j][i] < Pow256(w)
    ensures SampleMatrix(FramesBytes(f, c, n, w), c, n, w, base)[j] == f[j]
  {
    var region := FramesBytes(f, c, n, w);
    var row := SampleMatrix(region, c, n, w, base)[j];
    forall i | 0 <= i < n
      ensures row[i] == f[j][i]
    {
      SampleEndBound(c, n, w, i, j);
      assert row[i] == SampleCell(region, (i * c + j) * w, w, base[j][i]);
      SampleCellOfFrames(f, c, n, w, i, j, base[j][i]);
    }
    assert |row| == |f[j]|;
  }

  /** The three 4-byte SSND fields are read back, and the samples are taken
      from exactly the bytes the encoder wrote for them. */
  lemma SsndFields(a: Aiff, st: Aiff, rest: seq<byte>)
    requires Writable(a) && WriteWidth(a.sampleSize) == ReadWidth(st.sampleSize)
    requires st.numChannels == a.numChannels && st.numSampleFrames == a.numSampleFrames
    ensures var c, n, w := a.numChannels, a.numSampleFrames, ReadWidth(st.sampleSize);
      SsndChunk(SsndBody(a) + rest, st) ==
        Ok(Taken(st.(offset := a.offset, blockSize := a.blockSize,
                     frames := SampleMatrix(SamplesBytes(a), c, n, w, ResizeFrames(st.frames, c, n))), rest))
  {
    Pow256Widths();
    var samples := SamplesBytes(a);
    if WriteWidth(a.sampleSize) > 0 {
      FramesBytesLength(a.frames, a.numChannels, a.numSampleFrames, WriteWidth(a.sampleSize));
    }
    var y2 := BeBytes(a.blockSize, 4) + samples;
    var y1 := BeBytes(a.offset, 4) + y2;
    AppendAssoc(BeBytes(SsndSize(a), 4), y1, rest);
    AppendAssoc(BeBytes(a.offset, 4), y2, rest);
    AppendAssoc(BeBytes(a.blockSize, 4), samples, rest);
    TakeUIntOf(SsndSize(a), 4, y1 + rest);
    TakeUIntOf(a.offset, 4, y2 + rest);
    TakeUIntOf(a.blockSize, 4, samples + rest);
    TakeBytesOf(samples, rest);
  }

  /** The SSND body the encoder writes is read back field by field; the
      samples come back through the frame-major layout. */
  lemma SsndRoundTrip(a: Aiff, st: Aiff, rest: seq<byte>)
    requires RoundTrips(a)
    requires st.numChannels == a.numChannels && st.numSampleFrames == a.numSampleFrames
    requires st.sampleSize == a.sampleSize
    ensures Writable(a)
    ensures SsndChunk(SsndBody(a) + rest, st) ==
      Ok(Taken(st.(offset := a.offset, blockSize := a.blockSize, frames := a.frames), rest))
  {
    var c, n, w := a.numChannels, a.numSampleFrames, WriteWidth(a.sampleSize);
    assert w == ReadWidth(a.sampleSize) && (w == 1 || w == 2 || w == 4);
    SsndFields(a, st, rest);
    SampleMatrixOfFrames(a.frames, c, n, w, ResizeFrames(st.frames, c, n));
  }

  /** The chunk loop dispatches on the tag: a NAME, COMM or SSND chunk whose
      body reads in full is applied, and the loop goes on after it. */
  lemma ChunksDispatch(tag: u32, body: seq<byte>, st: Aiff)
    requires tag == NAME_ID || tag == COMM_ID || tag == SSND_ID
    ensures var chunk := if tag == NAME_ID then NameChunk(body, st)
                         else if tag == COMM_ID then CommChunk(body, st)
                         else SsndChunk(body, st);
      chunk.Ok? ==> Chunks(BeBytes(tag, 4) + body, st) == Chunks(chunk.value.rest, chunk.value.value)
  {
    Pow256Widths();
    TakeUIntOf(tag, 4, body);
  }

  /** A NAME chunk as the encoder writes it sets the name. */
  lemma ChunksNameStep(a: Aiff, st: Aiff, rest: seq<byte>)
    requires |a.name| < U32_MOD
    ensures Chunks((BeBytes(NAME_ID, 4) + NameBody(a)) + rest, st) == Chunks(rest, st.(name := a.name))
  {
    AppendAssoc(BeBytes(NAME_ID, 4), NameBody(a), rest);
    NameRoundTrip(a, st, rest);
    ChunksDispatch(NAME_ID, NameBody(a) + rest, st);
  }

  /** A COMM chunk as the encoder writes it sets the four common fields. */
  lemma ChunksCommStep(a: Aiff, st: Aiff, rest: seq<byte>)
    ensures Chunks((BeBytes(COMM_ID, 4) + CommBody(a)) + rest, st) ==
      Chunks(rest, st.(numChannels := a.numChannels, numSampleFrames := a.numSampleFrames,
                       sampleSize := a.sampleSize, sampleRate := a.sampleRate))
  {
    AppendAssoc(BeBytes(COMM_ID, 4), CommBody(a), rest);
    CommRoundTrip(a, st, rest);
    ChunksDispatch(COMM_ID, CommBody(a) + rest, st);
  }

  /** An SSND chunk as the encoder writes it, read after the matching COMM
      fields and last in the input, sets the offset, the block size and
      every sample, and the loop ends with the input used up. */
  lemma ChunksSsndStep(a: Aiff, st: Aiff)
    requires RoundTrips(a)
    requires st.numChannels == a.numChannels && st.numSampleFrames == a.numSampleFrames
    requires st.sampleSize == a.sampleSize
    ensures Writable(a)
    ensures Chunks(BeBytes(SSND_ID, 4) + SsndBody(a), st) ==
      Ok((st.(offset := a.offset, blockSize := a.blockSize, frames := a.frames), Exhausted))
  {
    SsndRoundTrip(a, st, []);
    AppendEmpty(SsndBody(a));
    ChunksDispatch(SSND_ID, SsndBody(a), st);
  }

  /** The FORM header the encoder writes passes both magic checks, and the
      chunk loop starts right after it. */
  lemma DecodeHeader(a: Aiff, init: Aiff)
    requires Writable(a)
    ensures Decode(Encode(a), init) ==
      Chunks((BeBytes(NAME_ID, 4) + NameBody(a))
             + ((BeBytes(COMM_ID, 4) + CommBody(a)) + (BeBytes(SSND_ID, 4) + SsndBody(a))), init)
  {
    Pow256Widths();
    var chunks := (BeBytes(NAME_ID, 4) + NameBody(a))
                  + ((BeBytes(COMM_ID, 4) + CommBody(a)) + (BeBytes(SSND_ID, 4) + SsndBody(a)));
    TakeUIntOf(FORM_ID, 4, BeBytes(HeaderSize(a), 4) + (BeBytes(AIFF_TYPE, 4) + chunks));
    TakeUIntOf(HeaderSize(a), 4, BeBytes(AIFF_TYPE, 4) + chunks);
    TakeUIntOf(AIFF_TYPE, 4, chunks);
  }

  /** Decoding what the encoder wrote gives back every field and every
      sample, from whatever field values the decoder started with, and
      the chunk loop ends by using up the input. */
  lemma DecodeEncode(a: Aiff, init: Aiff)
    requires RoundTrips(a)
    ensures Writable(a)
    ensures Decode(Encode(a), init) == Ok((a, Exhausted))
  {
    var comm := BeBytes(COMM_ID, 4) + CommBody(a);
    var ssnd := BeBytes(SSND_ID, 4) + SsndBody(a);
    var st1 := init.(name := a.name);
    var st2 := st1.(numChannels := a.numChannels, numSampleFrames := a.numSampleFrames,
                    sampleSize := a.sampleSize, sampleRate := a.sampleRate);
    DecodeHeader(a, init);
    ChunksNameStep(a, init, comm + ssnd);
    ChunksCommStep(a, st1, ssnd);
    ChunksSsndStep(a, st2);
    assert st2.(offset := a.offset, blockSize := a.blockSize, frames := a.frames) == a;
  }
}
