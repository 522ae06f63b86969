/** The multipart framing of the streaming endpoint and the checks a
    streaming request passes first (`server/src/services/streaming.rs`,
    `server/src/config/constants.rs`). The chunk generation itself, run by
    an async task over a channel, is not part of this model; what the task
    sends for chunks that all succeed is `StreamBody`. */
module Streaming {
  import opened Wrappers
  import opened Text
  import opened Errors

  /** `MAX_TEXT_LENGTH`: the longest text, in bytes, a request may carry. */
  const MaxTextLength: nat := 10000

  /** `MULTIPART_BOUNDARY`. */
  const MultipartBoundary: string := "tts_chunk_boundary"

  // ---------------------------------------------------------------------------
  // Request validation
  // ---------------------------------------------------------------------------

  /** The message of a text over the limit. */
  function TooLongMessage(len: nat): string {
    "Text too long: " + NatToDecimal(len) + " chars (max " + NatToDecimal(MaxTextLength) + ")"
  }

  /** The checks of `generate_tts_stream`, in order: blank text, then the
      length limit, then the speed range. */
  function ValidateRequest(text: string, speed: real): Result<(), TtsError> {
    if Trim(text) == [] then Err(EmptyText)
    else if ByteLen(text) > MaxTextLength then Err(InvalidRequest(TooLongMessage(ByteLen(text))))
    else if speed <= 0.0 || speed > 3.0 then Err(InvalidSpeed(speed))
    else Ok(())
  }

  /** A request passes exactly when its text is not blank, has at most
      10000 bytes and its speed lies in (0, 3]; otherwise the first check
      that fails names the error. */
  lemma ValidateRequestSpec(text: string, speed: real)
    ensures ValidateRequest(text, speed).Ok? <==>
      !AllWhitespace(text) && ByteLen(text) <= MaxTextLength && 0.0 < speed <= 3.0
    ensures ValidateRequest(text, speed) == Err(EmptyText) <==> AllWhitespace(text)
    ensures (ValidateRequest(text, speed).Err? && ValidateRequest(text, speed).error.InvalidRequest?) <==>
      !AllWhitespace(text) && ByteLen(text) > MaxTextLength
    ensures ValidateRequest(text, speed) == Err(InvalidSpeed(speed)) <==>
      !AllWhitespace(text) && ByteLen(text) <= MaxTextLength && (speed <= 0.0 || speed > 3.0)
  {
    TrimBlank(text);
  }

  /** The length check is about bytes: for ASCII text, 10000 characters
      pass and more are rejected with the length in the message. */
  lemma LengthLimit(text: string)
    requires IsAscii(text) && !AllWhitespace(text)
    ensures |text| <= 10000 ==> ValidateRequest(text, 1.0) == Ok(())
    ensures |text| > 10000 ==> ValidateRequest(text, 1.0) == Err(InvalidRequest(TooLongMessage(|text|)))
  {
    ByteLenAscii(text);
    TrimBlank(text);
  }

  /** The rejection of a 10001-byte text reads as the server writes it. */
  lemma TooLongMessageExample()
    ensures TooLongMessage(10001) == "Text too long: 10001 chars (max 10000)"
  {
    DecimalExample();
  }

  lemma DecimalExample()
    ensures NatToDecimal(10001) == "10001" && NatToDecimal(10000) == "10000"
  {
    assert NatToDecimal(1) == "1";
    assert NatToDecimal(10) == "10";
    assert NatToDecimal(100) == "100";
    assert NatToDecimal(1000) == "1000";
    assert NatToDecimal(1000) + ['0'] == "10000";
    assert NatToDecimal(1000) + ['1'] == "10001";
  }

  // ---------------------------------------------------------------------------
  // Multipart parts
  // ---------------------------------------------------------------------------

  /** `create_boundary_start`. */
  function BoundaryStart(): string {
    "\r\n--" + MultipartBoundary + "\r\n"
  }

  /** `create_boundary_end`. */
  function BoundaryEnd(): string {
    "\r\n--" + MultipartBoundary + "--\r\n"
  }

  /** The closing boundary is the opening one with "--" written after the
      delimiter, before the line end. */
  lemma BoundariesSpec()
    ensures |BoundaryStart()| == 24 && |BoundaryEnd()| == 26
    ensures BoundaryEnd() == BoundaryStart()[..22] + "--" + BoundaryStart()[22..]
  {
  }

  /** `create_metadata_part`, given what `serde_json::to_string` returns:
      the JSON text, or the message of its error. */
  function MetadataPart(json: Result<string, string>): Result<seq<Byte>, TtsError> {
    match json
    case Err(m) => Err(FromLibrary(JsonFailure(m)))
    case Ok(j) => Ok(Utf8(BoundaryStart() + "Content-Type: application/json\r\n\r\n" + j + "\r\n"))
  }

  /** A metadata part is the boundary, the JSON content type, a blank line,
      the JSON and a line end; a serialisation failure is an internal
      error carrying its message. */
  lemma MetadataPartSpec(json: Result<string, string>)
    ensures json.Err? ==> MetadataPart(json) == Err(Unknown(json.error))
    ensures json.Ok? ==> MetadataPart(json) == Ok(MetadataBytes(json.value))
  {
    if json.Ok? {
      MetadataConcat(BoundaryStart(), "Content-Type: application/json\r\n\r\n", json.value, "\r\n");
    }
  }

  /** The bytes of a metadata part, piece by piece. */
  function MetadataBytes(j: string): seq<Byte> {
    Utf8(BoundaryStart()) + Utf8("Content-Type: application/json\r\n\r\n") + Utf8(j) + Utf8("\r\n")
  }

  lemma MetadataConcat(a: string, b: string, c: string, d: string)
    ensures Utf8(a + b + c + d) == Utf8(a) + Utf8(b) + Utf8(c) + Utf8(d)
  {
    Utf8Concat(a + b + c, d);
    Utf8Concat(a + b, c);
    Utf8Concat(a, b);
  }

  /** The header of an audio part of `n` bytes. */
  function AudioHeader(n: nat): string {
    BoundaryStart() + "Content-Type: audio/wav\r\nContent-Length: " + NatToDecimal(n) + "\r\n\r\n"
  }

  /** `create_audio_part`: the header's bytes, then the audio. */
  method CreateAudioPart(audioBytes: seq<Byte>) returns (part: seq<Byte>)
    ensures part == Utf8(AudioHeader(|audioBytes|)) + audioBytes
  {
    part := [];
    var header := AudioHeader(|audioBytes|);
    part := part + Utf8(header);
    part := part + audioBytes;
  }

  /** The Content-Length field of an audio header: the digits between the
      field name and the blank line. */
  function DeclaredLength(header: string): Option<nat> {
    var prefix := BoundaryStart() + "Content-Type: audio/wav\r\nContent-Length: ";
    if |header| >= |prefix| + 4 && header[..|prefix|] == prefix && header[|header| - 4..] == "\r\n\r\n"
    then ParseUnsigned(header[|prefix|..|header| - 4], U64_MAX)
    else None
  }

  /** An audio part starts with the opening boundary and ends with the
      audio bytes. */
  lemma AudioPartSpec(audioBytes: seq<Byte>)
    ensures var part := Utf8(AudioHeader(|audioBytes|)) + audioBytes;
      && |part| == ByteLen(AudioHeader(|audioBytes|)) + |audioBytes|
      && part[|part| - |audioBytes|..] == audioBytes
      && |Utf8(BoundaryStart())| <= |part|
      && part[..|Utf8(BoundaryStart())|] == Utf8(BoundaryStart())
  {
    var n := |audioBytes|;
    var rest := "Content-Type: audio/wav\r\nContent-Length: " + NatToDecimal(n) + "\r\n\r\n";
    var h := AudioHeader(n);
    assert h == BoundaryStart() + rest;
    Utf8Concat(BoundaryStart(), rest);
    var part := Utf8(h) + audioBytes;
    assert part[|part| - n..] == audioBytes;
    assert part[..|Utf8(BoundaryStart())|] == Utf8(h)[..|Utf8(BoundaryStart())|];
  }

  /** An audio header declares as its Content-Length the number of audio
      bytes (any count a `u64` can hold). */
  lemma AudioHeaderLength(n: nat)
    requires n <= U64_MAX
    ensures DeclaredLength(AudioHeader(n)) == Some(n)
  {
    var prefix := BoundaryStart() + "Content-Type: audio/wav\r\nContent-Length: ";
    var h := AudioHeader(n);
    assert h == prefix + NatToDecimal(n) + "\r\n\r\n";
    assert h[..|prefix|] == prefix;
    assert h[|h| - 4..] == "\r\n\r\n";
    assert h[|prefix|..|h| - 4] == NatToDecimal(n);
    ParseDecimal(n, U64_MAX);
  }

  // ---------------------------------------------------------------------------
  // The stream
  // ---------------------------------------------------------------------------

  /** The parts sent for the chunks, in chunk order: for each chunk its
      metadata part, then its audio part. */
  function ChunkParts(chunks: seq<(seq<Byte>, seq<Byte>)>): seq<Byte> {
    if chunks == [] then []
    else
      var (meta, audio) := chunks[|chunks| - 1];
      ChunkParts(chunks[..|chunks| - 1]) + meta + (Utf8(AudioHeader(|audio|)) + audio)
  }

  /** What the streaming task sends when every chunk succeeds: the parts
      of each chunk (metadata part bytes and audio bytes), then the closing
      boundary. */
  function StreamBody(chunks: seq<(seq<Byte>, seq<Byte>)>): seq<Byte> {
    ChunkParts(chunks) + Utf8(BoundaryEnd())
  }

  /** The body always ends with the closing boundary, and its last chunk's
      audio comes just before it. */
  lemma StreamBodySpec(chunks: seq<(seq<Byte>, seq<Byte>)>)
    ensures var body := StreamBody(chunks);
      |body| >= ByteLen(BoundaryEnd()) && body[|body| - ByteLen(BoundaryEnd())..] == Utf8(BoundaryEnd())
    ensures chunks != [] ==>
      var audio := chunks[|chunks| - 1].1;
      var body := StreamBody(chunks);
      var k := |body| - ByteLen(BoundaryEnd());
      k >= |audio| && body[k - |audio|..k] == audio
  {
    var body := StreamBody(chunks);
    var p := ChunkParts(chunks);
    assert body[|body| - ByteLen(BoundaryEnd())..] == Utf8(BoundaryEnd());
    if chunks != [] {
      var (meta, audio) := chunks[|chunks| - 1];
      var q := ChunkParts(chunks[..|chunks| - 1]) + meta + Utf8(AudioHeader(|audio|));
      assert p == q + audio;
      assert body[..|p|] == p;
      assert p[|p| - |audio|..] == audio;
    }
  }
}
