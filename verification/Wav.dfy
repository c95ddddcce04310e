/**
 * The WAV container: "Multimedia Programming Interface and Data Specifications 1.0", sections "RIFF" and
 * "Waveform Audio File Format (WAVE)".
 */
module Wav {
  import opened Prelude
  import opened Pcm

  type Bytes = seq<Byte>

  const RIFF_ID: Bytes := [0x52, 0x49, 0x46, 0x46]
  const WAVE_ID: Bytes := [0x57, 0x41, 0x56, 0x45]
  const FMT_ID: Bytes := [0x66, 0x6D, 0x74, 0x20]
  const DATA_ID: Bytes := [0x64, 0x61, 0x74, 0x61]

  function Le16(n: nat): (b: Bytes)
    ensures |b| == 2
  {
    [n % 256, n / 256 % 256]
  }

  function Le32(n: nat): (b: Bytes)
    ensures |b| == 4
  {
    [n % 256, n / 256 % 256, n / 65536 % 256, n / 16777216 % 256]
  }

  function U16At(bytes: Bytes, offset: nat): nat
    requires offset + 2 <= |bytes|
  {
    Word(bytes[offset], bytes[offset + 1], 0, 0)
  }

  function Word(a: Byte, b: Byte, c: Byte, d: Byte): (n: nat)
    ensures n <= U32_MAX
  {
    (a as int) + 256 * (b as int) + 65536 * (c as int) + 16777216 * (d as int)
  }

  function U32At(bytes: Bytes, offset: nat): (n: nat)
    requires offset + 4 <= |bytes|
    ensures n <= U32_MAX
  {
    Word(bytes[offset], bytes[offset + 1], bytes[offset + 2], bytes[offset + 3])
  }

  lemma Le32RoundTrip(n: nat)
    requires n <= U32_MAX
    ensures U32At(Le32(n), 0) == n
  {
    var a := n / 256;
    var b := a / 256;
    var c := b / 256;
    DivIs(n, 256);
    DivIs(a, 256);
    DivIs(b, 256);
    DivBound(n, 65536, b);
    DivBound(n, 16777216, c);
    assert n % 256 == n - a * 256 && a % 256 == a - b * 256 && b % 256 == b - c * 256;
  }

  lemma U32RoundTrip(bytes: Bytes)
    requires |bytes| == 4
    ensures Le32(U32At(bytes, 0)) == bytes
  {
    var b0, b1, b2, b3 := bytes[0] as int, bytes[1] as int, bytes[2] as int, bytes[3] as int;
    var n := U32At(bytes, 0);
    assert n / 256 == b1 + 256 * b2 + 65536 * b3;
    assert n / 65536 == b2 + 256 * b3;
    assert n / 16777216 == b3;
  }

  /** `parse_wave_format`. */
  function ParseFormat(body: Bytes): Result<nat, AudioError> {
    if |body| < 16 then Failure(WavFormatMalformed)
    else
      var rate := U32At(body, 4);
      if !SupportedRate(rate) then Failure(UnsupportedRate)
      else if U16At(body, 0) != 1 || U16At(body, 2) != 1 || U16At(body, 14) != 16 || U16At(body, 12) != 2
              || U32At(body, 8) != (if rate * 2 > U32_MAX then U32_MAX else rate * 2)
      then Failure(WavEncodingUnsupported)
      else Success(rate)
  }

  /** A RIFF chunk. The pad byte after an odd body may be missing at the very end of the file. */
  datatype Chunk = Chunk(id: Bytes, body: Bytes, pad: Bytes)

  predicate WellFormed(chunks: seq<Chunk>) {
    forall i :: 0 <= i < |chunks| ==>
      && |chunks[i].id| == 4
      && |chunks[i].body| <= U32_MAX
      && (|chunks[i].pad| == |chunks[i].body| % 2 || (i == |chunks| - 1 && chunks[i].pad == []))
  }

  function RenderChunk(chunk: Chunk): Bytes {
    chunk.id + Le32(|chunk.body|) + chunk.body + chunk.pad
  }

  function Render(chunks: seq<Chunk>): Bytes {
    if |chunks| == 0 then [] else RenderChunk(chunks[0]) + Render(chunks[1..])
  }

  /** A WAVE file holding these chunks. */
  function File(chunks: seq<Chunk>): Bytes {
    RIFF_ID + Le32(|Render(chunks)| + 4) + WAVE_ID + Render(chunks)
  }

  /** The body of the first chunk with this identifier. */
  function FirstBody(chunks: seq<Chunk>, id: Bytes): Option<Bytes> {
    if |chunks| == 0 then None
    else if chunks[0].id == id then Some(chunks[0].body)
    else FirstBody(chunks[1..], id)
  }

  /** What the chunk walk has found so far. */
  datatype Found = Found(format: Option<nat>, data: Option<Bytes>)

  function Visit(found: Found, id: Bytes, body: Bytes): Result<Found, AudioError> {
    if id == FMT_ID && found.format.None? then
      var rate :- ParseFormat(body);
      Success(found.(format := Some(rate)))
    else if id == DATA_ID && found.data.None? then Success(found.(data := Some(body)))
    else Success(found)
  }

  /** The chunk walk from `offset`, as a function of the bytes. */
  function Walk(bytes: Bytes, offset: nat, found: Found): Result<Found, AudioError>
    decreases |bytes| - offset
  {
    if offset >= |bytes| then Success(found)
    else if offset + 8 > |bytes| then Failure(WavChunkMalformed)
    else
      var size := U32At(bytes, offset + 4);
      var start := offset + 8;
      var end := start + size;
      if end > |bytes| then Failure(WavChunkMalformed)
      else
        var next :- Visit(found, bytes[offset..offset + 4], bytes[start..end]);
        Walk(bytes, end + size % 2, next)
  }

  function Conclude(found: Found, limits: AudioLimits): Result<MonoPcm, AudioError> {
    if found.format.None? then Failure(WavFormatMissing)
    else if found.data.None? then Failure(WavDataMissing)
    else FromPcm16(found.data.value, found.format.value, limits)
  }

  /** What `from_wav` answers. */
  function FromWavOutcome(bytes: Bytes, limits: AudioLimits): Result<MonoPcm, AudioError> {
    if |bytes| < 12 || bytes[..4] != RIFF_ID || bytes[8..12] != WAVE_ID then Failure(WavMalformed)
    else
      var _ :- limits.Admit(|bytes|, 48000, 0);
      if U32At(bytes, 4) + 8 != |bytes| then Failure(WavLengthInvalid)
      else
        var found :- Walk(bytes, 12, Found(None, None));
        Conclude(found, limits)
  }

  /** `MonoPcm::from_wav`; each iteration of the walk moves on by at least the eight header bytes. */
  method FromWav(bytes: Bytes, limits: AudioLimits) returns (r: Result<MonoPcm, AudioError>)
    ensures r == FromWavOutcome(bytes, limits)
  {
    hide U32At, ParseFormat, AudioLimits.Admit, FromPcm16;
    if |bytes| < 12 || bytes[..4] != RIFF_ID || bytes[8..12] != WAVE_ID {
      return Failure(WavMalformed);
    }
    var _ :- limits.Admit(|bytes|, 48000, 0);
    var declared := U32At(bytes, 4) + 8;
    if declared != |bytes| {
      return Failure(WavLengthInvalid);
    }
    var offset := 12;
    var format: Option<nat> := None;
    var data: Option<Bytes> := None;
    while offset < |bytes|
      invariant Walk(bytes, 12, Found(None, None)) == Walk(bytes, offset, Found(format, data))
      decreases |bytes| + 8 - offset
    {
      var headerEnd := offset + 8;
      if headerEnd > |bytes| {
        return Failure(WavChunkMalformed);
      }
      var size := U32At(bytes, offset + 4);
      var end := headerEnd + size;
      if end > |bytes| {
        return Failure(WavChunkMalformed);
      }
      var id := bytes[offset..offset + 4];
      if id == FMT_ID && format.None? {
        var rate :- ParseFormat(bytes[headerEnd..end]);
        format := Some(rate);
      } else if id == DATA_ID && data.None? {
        data := Some(bytes[headerEnd..end]);
      }
      offset := end + size % 2;
    }
    if format.None? {
      return Failure(WavFormatMissing);
    }
    if data.None? {
      return Failure(WavDataMissing);
    }
    r := FromPcm16(data.value, format.value, limits);
  }

  /** Visiting chunks in order. */
  function VisitAll(chunks: seq<Chunk>, found: Found): Result<Found, AudioError> {
    if |chunks| == 0 then Success(found)
    else
      var next :- Visit(found, chunks[0].id, chunks[0].body);
      VisitAll(chunks[1..], next)
  }

  /** One step of the walk over a rendered chunk. */
  lemma WalkChunk(prefix: Bytes, c: Chunk, tail: Bytes, found: Found)
    requires |c.id| == 4 && |c.body| <= U32_MAX
    requires |c.pad| == |c.body| % 2 || (c.pad == [] && tail == [])
    ensures var bytes := prefix + RenderChunk(c) + tail;
            Walk(bytes, |prefix|, found) ==
              match Visit(found, c.id, c.body)
              case Failure(e) => Failure(e)
              case Success(next) =>
                if |c.pad| == |c.body| % 2 then Walk(bytes, |prefix + RenderChunk(c)|, next) else Success(next)
  {
    hide U32At, Visit, Le32;
    var bytes := prefix + RenderChunk(c) + tail;
    var offset := |prefix|;
    var size := |c.body|;
    assert bytes[offset..offset + 4] == c.id;
    assert bytes[offset + 4..offset + 8] == Le32(size);
    assert bytes[offset + 8..offset + 8 + size] == c.body;
    U32AtSlice(bytes, offset + 4);
    Le32RoundTrip(size);
    assert |bytes| == offset + 8 + size + |c.pad| + |tail|;
  }

  /** Walking the rendering of a chunk list visits exactly its chunks. */
  lemma {:induction false} WalkRendered(prefix: Bytes, chunks: seq<Chunk>, found: Found)
    requires WellFormed(chunks)
    ensures Walk(prefix + Render(chunks), |prefix|, found) == VisitAll(chunks, found)
    decreases |chunks|
  {
    hide Visit, U32At;
    if |chunks| == 0 {
    } else {
      var c, rest := chunks[0], chunks[1..];
      var head := prefix + RenderChunk(c);
      assert prefix + Render(chunks) == head + Render(rest);
      assert |c.pad| != |c.body| % 2 ==> rest == [];
      assert WellFormed(rest);
      WalkChunk(prefix, c, Render(rest), found);
      if Visit(found, c.id, c.body).Success? {
        WalkRendered(head, rest, Visit(found, c.id, c.body).value);
      }
    }
  }

  lemma U32AtSlice(bytes: Bytes, offset: nat)
    requires offset + 4 <= |bytes|
    ensures U32At(bytes, offset) == U32At(bytes[offset..offset + 4], 0)
  {
    hide Word;
  }

  /** Visiting finds the first format chunk and the first data chunk, whatever surrounds them. */
  lemma {:induction false} VisitAllFindsFirst(chunks: seq<Chunk>, found: Found)
    ensures var format := if found.format.Some? then Success(found.format)
                          else match FirstBody(chunks, FMT_ID)
                               case None => Success(None)
                               case Some(body) =>
                                 (match ParseFormat(body) case Success(rate) => Success(Some(rate)) case Failure(e) => Failure(e));
            VisitAll(chunks, found) ==
              match format
              case Failure(e) => Failure(e)
              case Success(f) =>
                Success(Found(f, if found.data.Some? then found.data else FirstBody(chunks, DATA_ID)))
    decreases |chunks|
  {
    if |chunks| > 0 {
      var visited := Visit(found, chunks[0].id, chunks[0].body);
      if visited.Success? {
        VisitAllFindsFirst(chunks[1..], visited.value);
      }
    }
  }

  /** The parser answers every well-formed file with the first data chunk at the first format chunk's rate. */
  lemma ParseOfFile(chunks: seq<Chunk>, format: Bytes, data: Bytes, rate: nat, limits: AudioLimits)
    requires WellFormed(chunks) && |Render(chunks)| + 4 <= U32_MAX
    requires FirstBody(chunks, FMT_ID) == Some(format) && ParseFormat(format) == Success(rate)
    requires FirstBody(chunks, DATA_ID) == Some(data)
    requires limits.Admit(|File(chunks)|, 48000, 0).Success?
    ensures FromWavOutcome(File(chunks), limits) == FromPcm16(data, rate, limits)
  {
    var bytes := File(chunks);
    var prefix := RIFF_ID + Le32(|Render(chunks)| + 4) + WAVE_ID;
    assert bytes == prefix + Render(chunks);
    assert bytes[..4] == RIFF_ID && bytes[8..12] == WAVE_ID;
    assert bytes[4..8] == Le32(|Render(chunks)| + 4);
    U32AtSlice(bytes, 4);
    Le32RoundTrip(|Render(chunks)| + 4);
    WalkRendered(prefix, chunks, Found(None, None));
    VisitAllFindsFirst(chunks, Found(None, None));
  }

  /** The end of the chunk at the front of `bytes`, its pad byte included if there is one. */
  function FirstEnd(bytes: Bytes): (end: nat)
    requires |bytes| >= 8 && 8 + U32At(bytes, 4) <= |bytes|
    ensures 8 <= end <= |bytes|
  {
    var size := U32At(bytes, 4);
    if 8 + size + size % 2 > |bytes| then |bytes| else 8 + size + size % 2
  }

  function FirstChunk(bytes: Bytes): Chunk
    requires |bytes| >= 8 && 8 + U32At(bytes, 4) <= |bytes|
  {
    var end := 8 + U32At(bytes, 4);
    Chunk(bytes[..4], bytes[8..end], bytes[end..FirstEnd(bytes)])
  }

  /** The chunk list of a byte string, when the walk gets to its end. */
  function ParseChunks(bytes: Bytes): Option<seq<Chunk>>
    decreases |bytes|
  {
    if |bytes| == 0 then Some([])
    else if |bytes| < 8 || 8 + U32At(bytes, 4) > |bytes| then None
    else
      match ParseChunks(bytes[FirstEnd(bytes)..])
      case None => None
      case Some(rest) => Some([FirstChunk(bytes)] + rest)
  }

  lemma FirstChunkRenders(bytes: Bytes)
    requires |bytes| >= 8 && 8 + U32At(bytes, 4) <= |bytes|
    ensures var c := FirstChunk(bytes);
            && RenderChunk(c) == bytes[..FirstEnd(bytes)]
            && |c.id| == 4 && |c.body| <= U32_MAX
            && (|c.pad| == |c.body| % 2 || (c.pad == [] && FirstEnd(bytes) == |bytes|))
  {
    hide U32At, Le32;
    U32RoundTrip(bytes[4..8]);
    U32AtSlice(bytes, 4);
    var end := 8 + U32At(bytes, 4);
    assert bytes[..FirstEnd(bytes)] == bytes[..4] + bytes[4..8] + bytes[8..end] + bytes[end..FirstEnd(bytes)];
  }

  lemma {:induction false} ParseChunksRenders(bytes: Bytes)
    ensures ParseChunks(bytes).Some? ==>
              && WellFormed(ParseChunks(bytes).value)
              && Render(ParseChunks(bytes).value) == bytes
              && (|bytes| == 0 <==> |ParseChunks(bytes).value| == 0)
    decreases |bytes|
  {
    hide U32At, Word, Le32, RenderChunk, FirstChunk, FirstEnd, WellFormed;
    if |bytes| == 0 {
      WellFormedNothing();
      RenderNothing();
    } else if ParseChunks(bytes).Some? {
      var tail := bytes[FirstEnd(bytes)..];
      ParseChunksRenders(tail);
      FirstChunkRenders(bytes);
      RenderCons(FirstChunk(bytes), ParseChunks(tail).value);
      assert bytes[..FirstEnd(bytes)] + tail == bytes;
      WellFormedCons(FirstChunk(bytes), ParseChunks(tail).value);
    }
  }

  lemma WellFormedNothing()
    ensures WellFormed([])
  {
  }

  lemma RenderCons(c: Chunk, rest: seq<Chunk>)
    ensures Render([c] + rest) == RenderChunk(c) + Render(rest)
  {
    assert ([c] + rest)[1..] == rest;
  }

  lemma WellFormedCons(c: Chunk, rest: seq<Chunk>)
    requires |c.id| == 4 && |c.body| <= U32_MAX && WellFormed(rest)
    requires |c.pad| == |c.body| % 2 || (c.pad == [] && |rest| == 0)
    ensures WellFormed([c] + rest)
  {
    var all := [c] + rest;
    forall i | 0 < i < |all|
      ensures all[i] == rest[i - 1]
    {
    }
  }

  /** A walk that gets to the end has walked a chunk list. */
  lemma {:induction false} WalkedIsParsed(bytes: Bytes, offset: nat, found: Found)
    requires offset <= |bytes|
    requires Walk(bytes, offset, found).Success?
    ensures ParseChunks(bytes[offset..]).Some?
    decreases |bytes| - offset
  {
    hide Visit, Word;
    if offset < |bytes| {
      var rest := bytes[offset..];
      var size := U32At(bytes, offset + 4);
      assert rest[4..8] == bytes[offset + 4..offset + 8];
      U32AtSlice(bytes, offset + 4);
      U32AtSlice(rest, 4);
      var end := offset + 8 + size;
      var next := Visit(found, bytes[offset..offset + 4], bytes[offset + 8..end]).value;
      if end + size % 2 <= |bytes| {
        WalkedIsParsed(bytes, end + size % 2, next);
        assert rest[FirstEnd(rest)..] == bytes[end + size % 2..];
      } else {
        assert rest[FirstEnd(rest)..] == [];
      }
    }
  }

  /** Conversely, only files of that shape are accepted: an accepted byte string is the rendering of its chunks. */
  lemma AcceptedIsFile(bytes: Bytes, limits: AudioLimits)
    requires FromWavOutcome(bytes, limits).Success?
    ensures ParseChunks(bytes[12..]).Some?
    ensures var chunks := ParseChunks(bytes[12..]).value;
            && WellFormed(chunks)
            && bytes == File(chunks)
            && FirstBody(chunks, FMT_ID).Some?
            && ParseFormat(FirstBody(chunks, FMT_ID).value).Success?
            && FirstBody(chunks, DATA_ID).Some?
  {
    hide Walk, U32At, Le32, Render, WellFormed, VisitAll, ParseChunks, FromPcm16, AudioLimits.Admit, ParseFormat, FirstBody;
    WalkedIsParsed(bytes, 12, Found(None, None));
    ParseChunksRenders(bytes[12..]);
    var chunks := ParseChunks(bytes[12..]).value;
    U32AtSlice(bytes, 4);
    U32RoundTrip(bytes[4..8]);
    assert bytes == bytes[..4] + bytes[4..8] + bytes[8..12] + bytes[12..];
    WalkRendered(bytes[..12], chunks, Found(None, None));
    assert bytes[..12] + Render(chunks) == bytes;
    VisitAllFindsFirst(chunks, Found(None, None));
  }

  /** Whatever it holds, a file beyond the byte bound is refused, and so is one whose length is not the one declared. */
  lemma FileIsRefused(bytes: Bytes, limits: AudioLimits)
    requires |bytes| >= 12 && bytes[..4] == RIFF_ID && bytes[8..12] == WAVE_ID
    ensures |bytes| > limits.maxEncodedBytes ==> FromWavOutcome(bytes, limits) == Failure(EncodedTooLarge)
    ensures |bytes| <= limits.maxEncodedBytes && 48000 * limits.maxDurationMs > U64_MAX ==>
              FromWavOutcome(bytes, limits) == Failure(DurationTooLong)
    ensures |bytes| <= limits.maxEncodedBytes && 48000 * limits.maxDurationMs <= U64_MAX ==>
              (U32At(bytes, 4) + 8 != |bytes| ==> FromWavOutcome(bytes, limits) == Failure(WavLengthInvalid))
  {
  }

  /** The format chunk the encoder writes. */
  function FormatBody(rate: nat): (b: Bytes)
    ensures |b| == 16
  {
    Le16(1) + Le16(1) + Le32(rate) + Le32(rate * 2) + Le16(2) + Le16(16)
  }

  lemma SmallLe16()
    ensures Le16(1) == [1, 0] && Le16(2) == [2, 0] && Le16(16) == [16, 0]
  {
  }

  lemma U16AtSlice(bytes: Bytes, offset: nat, low: Byte)
    requires offset + 2 <= |bytes| && bytes[offset..offset + 2] == [low, 0]
    ensures U16At(bytes, offset) == low
  {
    assert bytes[offset] == bytes[offset..offset + 2][0] && bytes[offset + 1] == bytes[offset..offset + 2][1];
  }

  lemma ParseFormatBody(rate: nat)
    requires SupportedRate(rate)
    ensures ParseFormat(FormatBody(rate)) == Success(rate)
  {
    hide Le16, Le32, Word, U16At, U32At;
    SupportedRateRange(rate);
    SmallLe16();
    var body := FormatBody(rate);
    assert body[0..2] == [1, 0] && body[2..4] == [1, 0] && body[12..14] == [2, 0] && body[14..16] == [16, 0];
    assert body[4..8] == Le32(rate) && body[8..12] == Le32(rate * 2);
    U16AtSlice(body, 0, 1);
    U16AtSlice(body, 2, 1);
    U16AtSlice(body, 12, 2);
    U16AtSlice(body, 14, 16);
    U32AtSlice(body, 4);
    U32AtSlice(body, 8);
    Le32RoundTrip(rate);
    Le32RoundTrip(rate * 2);
  }

  lemma Le32Injective(bytes: Bytes, offset: nat, n: nat)
    requires offset + 4 <= |bytes| && n <= U32_MAX && U32At(bytes, offset) == n
    ensures bytes[offset..offset + 4] == Le32(n)
  {
    hide Le32, Word;
    var word := bytes[offset..offset + 4];
    U32AtSlice(bytes, offset);
    U32RoundTrip(word);
  }

  lemma U16Is(bytes: Bytes, offset: nat, low: Byte)
    requires offset + 2 <= |bytes| && U16At(bytes, offset) == low
    ensures bytes[offset..offset + 2] == [low, 0]
  {
  }

  /** The reader takes one format and no other: sixteen bytes that say PCM, one channel, the rate, and 16 bits. */
  lemma OneFormat(body: Bytes, rate: nat)
    ensures ParseFormat(body) == Success(rate) <==>
              SupportedRate(rate) && |body| >= 16 && body[..16] == FormatBody(rate)
  {
    hide Le16, Le32, Word, U16At, U32At;
    if ParseFormat(body) == Success(rate) {
      SupportedRateRange(rate);
      SmallLe16();
      U16Is(body, 0, 1);
      U16Is(body, 2, 1);
      U16Is(body, 12, 2);
      U16Is(body, 14, 16);
      Le32Injective(body, 4, rate);
      Le32Injective(body, 8, rate * 2);
      assert body[..16] == body[0..2] + body[2..4] + body[4..8] + body[8..12] + body[12..14] + body[14..16];
    } else if SupportedRate(rate) && |body| >= 16 && body[..16] == FormatBody(rate) {
      ParseFormatBody(rate);
      ParsesHead(body);
    }
  }

  lemma ParsesHead(body: Bytes)
    requires |body| >= 16
    ensures ParseFormat(body) == ParseFormat(body[..16])
  {
  }

  /** A file of one sample of silence at 8 kHz, byte by byte. */
  lemma FileExample()
    ensures File(WavChunks(MonoPcm(8000, [0.0]))) ==
              [0x52, 0x49, 0x46, 0x46] + [38, 0, 0, 0] + [0x57, 0x41, 0x56, 0x45]
              + ([0x66, 0x6D, 0x74, 0x20] + [16, 0, 0, 0]
                 + [1, 0, 1, 0, 0x40, 0x1F, 0, 0, 0x80, 0x3E, 0, 0, 2, 0, 16, 0]
                 + [0x64, 0x61, 0x74, 0x61] + [2, 0, 0, 0] + [0, 0])
  {
    hide *;
    var audio := MonoPcm(8000, [0.0]);
    RenderWav(audio);
    SilentSample();
    SomeWords();
    FormatExample();
    FileIs(WavChunks(audio));
  }

  lemma SomeWords()
    ensures Le32(16) == [16, 0, 0, 0] && Le32(2) == [2, 0, 0, 0]
    ensures Le32(38) == [38, 0, 0, 0]
    ensures Le32(8000) == [0x40, 0x1F, 0, 0] && Le32(16000) == [0x80, 0x3E, 0, 0]
  {
  }

  lemma FormatExample()
    ensures FormatBody(8000) == [1, 0, 1, 0, 0x40, 0x1F, 0, 0, 0x80, 0x3E, 0, 0, 2, 0, 16, 0]
  {
    SmallLe16();
    SomeWords();
    hide Le16, Le32;
  }

  lemma SilentSample()
    ensures Encode([0.0]) == [0, 0]
  {
    assert FloatToI16(0.0) == 0;
    assert [0.0][..0] == [];
  }

  lemma FileIs(chunks: seq<Chunk>)
    ensures File(chunks) == [0x52, 0x49, 0x46, 0x46] + Le32(|Render(chunks)| + 4) + [0x57, 0x41, 0x56, 0x45] + Render(chunks)
    ensures FMT_ID == [0x66, 0x6D, 0x74, 0x20] && DATA_ID == [0x64, 0x61, 0x74, 0x61]
  {
  }

  function WavChunks(audio: MonoPcm): seq<Chunk> {
    [Chunk(FMT_ID, FormatBody(audio.rate), []), Chunk(DATA_ID, Encode(audio.samples), [])]
  }

  lemma RenderWav(audio: MonoPcm)
    ensures Render(WavChunks(audio)) ==
              FMT_ID + Le32(16) + FormatBody(audio.rate) + DATA_ID + Le32(2 * |audio.samples|) + Encode(audio.samples)
  {
    hide Le32, Le16, Encode, Render;
    var format := Chunk(FMT_ID, FormatBody(audio.rate), []);
    var data := Chunk(DATA_ID, Encode(audio.samples), []);
    assert WavChunks(audio) == [format] + ([data] + []);
    RenderCons(format, [data] + []);
    RenderCons(data, []);
    RenderNothing();
  }

  lemma RenderNothing()
    ensures Render([]) == []
  {
  }

  /** The pieces in the order they are written, and as chunks. */
  lemma Regroup(head: Bytes, wave: Bytes, fmt: Bytes, size: Bytes, body: Bytes, id: Bytes, length: Bytes, pcm: Bytes)
    ensures head + (wave + fmt) + size + body + id + length + pcm
         == head + wave + (fmt + size + body + id + length + pcm)
  {
    hide *;
    var front := head + wave;
    assert head + (wave + fmt) == front + fmt;
    assert front + fmt + size + body == front + (fmt + size + body);
    var more := fmt + size + body;
    assert front + more + id + length + pcm == front + (more + id + length + pcm);
  }

  lemma RegroupBody(start: Bytes, one: Bytes, rate: Bytes, byteRate: Bytes, two: Bytes, bits: Bytes)
    ensures start + one + one + rate + byteRate + two + bits
         == start + (one + one + rate + byteRate + two + bits)
  {
    hide *;
    assert start + one + one + rate == start + (one + one + rate);
    var body := one + one + rate;
    assert start + body + byteRate + two + bits == start + (body + byteRate + two + bits);
  }

  /** `MonoPcm::to_wav_pcm16`. */
  method ToWav(audio: MonoPcm) returns (r: Result<Bytes, AudioError>)
    requires audio.Valid()
    ensures 2 * |audio.samples| + 36 <= U32_MAX ==> r == Success(File(WavChunks(audio)))
    ensures 2 * |audio.samples| + 36 > U32_MAX ==> r == Failure(WavOutputTooLarge)
  {
    hide Le32, Le16, Encode, Render;
    var pcm := ToPcm16(audio.samples);
    if |pcm| > U32_MAX {
      return Failure(WavOutputTooLarge);
    }
    var dataLen := |pcm|;
    var riffLen := dataLen + 36;
    if riffLen > U32_MAX {
      return Failure(WavOutputTooLarge);
    }
    SupportedRateRange(audio.rate);
    var byteRate := audio.rate * 2;
    assert byteRate <= U32_MAX;
    var bytes := RIFF_ID;
    bytes := bytes + Le32(riffLen);
    bytes := bytes + (WAVE_ID + FMT_ID);
    bytes := bytes + Le32(16);
    bytes := bytes + Le16(1);
    bytes := bytes + Le16(1);
    bytes := bytes + Le32(audio.rate);
    bytes := bytes + Le32(byteRate);
    bytes := bytes + Le16(2);
    bytes := bytes + Le16(16);
    bytes := bytes + DATA_ID;
    bytes := bytes + Le32(dataLen);
    bytes := bytes + pcm;
    RenderWav(audio);
    RegroupBody(RIFF_ID + Le32(riffLen) + (WAVE_ID + FMT_ID) + Le32(16), Le16(1), Le32(audio.rate), Le32(byteRate),
                Le16(2), Le16(16));
    Regroup(RIFF_ID + Le32(riffLen), WAVE_ID, FMT_ID, Le32(16), FormatBody(audio.rate), DATA_ID, Le32(dataLen), pcm);
    r := Success(bytes);
  }

  lemma FirstOfWav(audio: MonoPcm)
    ensures WellFormed(WavChunks(audio))
    ensures FirstBody(WavChunks(audio), FMT_ID) == Some(FormatBody(audio.rate))
    ensures FirstBody(WavChunks(audio), DATA_ID) == Some(Encode(audio.samples))
    requires 2 * |audio.samples| <= U32_MAX
  {
    hide Encode, FormatBody;
    var chunks := WavChunks(audio);
    assert chunks[1..][0] == chunks[1];
    assert FMT_ID[0] != DATA_ID[0];
  }

  /** Printing and parsing: within limits the file gives back the quantized audio, which re-encodes to the same PCM. */
  lemma WavRoundTrip(audio: MonoPcm, limits: AudioLimits)
    requires audio.Valid() && limits.Valid()
    requires 2 * |audio.samples| + 36 <= U32_MAX
    requires limits.Admit(|File(WavChunks(audio))|, 48000, 0).Success?
    requires limits.ValidatePcm(audio).Success?
    ensures var parsed := FromWavOutcome(File(WavChunks(audio)), limits);
            && parsed == Success(MonoPcm(audio.rate, Decode(Encode(audio.samples))))
            && Encode(parsed.value.samples) == Encode(audio.samples)
  {
    hide Le32, Le16, Encode, Decode, Render, FromWavOutcome, ParseFormat, FormatBody, U32At, AudioLimits.Admit;
    var chunks := WavChunks(audio);
    RenderWav(audio);
    ParseFormatBody(audio.rate);
    FirstOfWav(audio);
    ParseOfFile(chunks, FormatBody(audio.rate), Encode(audio.samples), audio.rate, limits);
    EncodeDecode(Encode(audio.samples));
  }
}
