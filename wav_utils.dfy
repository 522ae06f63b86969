/** Joining the WAV files of the chunks into one (`server/src/audio/wav_utils.rs`).
    The WAV codec (`hound`) is not part of this model: a `Codec` stands for
    its header reader, its sample reader and its writer, each of which may
    fail with a message. Samples are held as integers whatever their type. */
module WavUtils {
  import opened Wrappers
  import opened Text
  import opened Errors

  datatype SampleFormat = Float | Int

  /** `hound::WavSpec`; two specs are the same when all fields agree. */
  datatype WavSpec = WavSpec(channels: nat, sampleRate: nat, bitsPerSample: nat, sampleFormat: SampleFormat)

  /** The sample type `concatenate_typed` is instantiated with. */
  datatype SampleType = F32 | I16 | I32

  /** The codec: a file's header, a file's samples read as a sample type,
      and the bytes of a file written from a spec and samples. */
  datatype Codec = Codec(
    readSpec: seq<Byte> -> Result<WavSpec, string>,
    readSamples: (seq<Byte>, SampleType) -> Result<seq<int>, string>,
    write: (WavSpec, SampleType, seq<int>) -> Result<seq<Byte>, string>)

  /** A codec error, through `From<hound::Error>`. */
  function Hound(m: string): TtsError {
    FromLibrary(HoundFailure(m))
  }

  /** The dispatch of `concatenate` on the first file's spec. */
  function SampleTypeOf(spec: WavSpec): Result<SampleType, TtsError> {
    match spec.sampleFormat
    case Float => Ok(F32)
    case Int =>
      if spec.bitsPerSample == 16 then Ok(I16)
      else if spec.bitsPerSample == 32 then Ok(I32)
      else Err(WavConcatenation("Unsupported bits per sample: " + NatToDecimal(spec.bitsPerSample)))
  }

  /** Floats are read as `f32`, 16- and 32-bit integers as `i16` and `i32`;
      any other integer width is refused with its width in the message. */
  lemma SampleTypeOfSpec(spec: WavSpec)
    ensures spec.sampleFormat == Float ==> SampleTypeOf(spec) == Ok(F32)
    ensures spec.sampleFormat == Int && spec.bitsPerSample == 16 ==> SampleTypeOf(spec) == Ok(I16)
    ensures spec.sampleFormat == Int && spec.bitsPerSample == 32 ==> SampleTypeOf(spec) == Ok(I32)
    ensures SampleTypeOf(spec).Err? <==> spec.sampleFormat == Int && spec.bitsPerSample != 16 && spec.bitsPerSample != 32
    ensures SampleTypeOf(spec).Err? ==>
      SampleTypeOf(spec).error == WavConcatenation("Unsupported bits per sample: " + NatToDecimal(spec.bitsPerSample))
  {
  }

  /** The message naming the file whose spec differs. */
  function DifferentSpec(i: nat): string {
    "WAV file " + NatToDecimal(i) + " has different spec"
  }

  /** What file `i` adds to the samples: its samples, or the error that
      ends the run. */
  function ReadFile(codec: Codec, spec: WavSpec, t: SampleType, i: nat, data: seq<Byte>): Result<seq<int>, TtsError> {
    match codec.readSpec(data)
    case Err(m) => Err(Hound(m))
    case Ok(s) =>
      if s != spec then Err(WavConcatenation(DifferentSpec(i)))
      else
        match codec.readSamples(data, t)
        case Err(m) => Err(Hound(m))
        case Ok(xs) => Ok(xs)
  }

  /** The samples of the first `n` files, in order, or the first error. */
  function Gather(codec: Codec, files: seq<seq<Byte>>, spec: WavSpec, t: SampleType, n: nat): Result<seq<int>, TtsError>
    requires n <= |files|
  {
    if n == 0 then Ok([])
    else
      match Gather(codec, files, spec, t, n - 1)
      case Err(e) => Err(e)
      case Ok(xs) =>
        match ReadFile(codec, spec, t, n - 1, files[n - 1])
        case Err(e) => Err(e)
        case Ok(ys) => Ok(xs + ys)
  }

  /** `concatenate_typed`. */
  function ConcatenationTyped(codec: Codec, files: seq<seq<Byte>>, spec: WavSpec, t: SampleType): Result<seq<Byte>, TtsError> {
    match Gather(codec, files, spec, t, |files|)
    case Err(e) => Err(e)
    case Ok(all) =>
      match codec.write(spec, t, all)
      case Err(m) => Err(Hound(m))
      case Ok(bytes) => Ok(bytes)
  }

  /** `concatenate`. */
  function Concatenation(codec: Codec, files: seq<seq<Byte>>): Result<seq<Byte>, TtsError> {
    if files == [] then Err(WavConcatenation("No audio files to concatenate"))
    else if |files| == 1 then Ok(files[0])
    else
      match codec.readSpec(files[0])
      case Err(m) => Err(Hound(m))
      case Ok(spec) =>
        match SampleTypeOf(spec)
        case Err(e) => Err(e)
        case Ok(t) => ConcatenationTyped(codec, files, spec, t)
  }

  // ---------------------------------------------------------------------------
  // The loops
  // ---------------------------------------------------------------------------

  method Concatenate(codec: Codec, files: seq<seq<Byte>>) returns (r: Result<seq<Byte>, TtsError>)
    ensures r == Concatenation(codec, files)
  {
    if files == [] {
      return Err(WavConcatenation("No audio files to concatenate"));
    }
    if |files| == 1 {
      return Ok(files[0]);
    }
    var first := codec.readSpec(files[0]);
    if first.Err? {
      return Err(Hound(first.error));
    }
    var spec := first.value;
    match spec.sampleFormat {
      case Float =>
        r := ConcatenateTyped(codec, files, spec, F32);
      case Int =>
        if spec.bitsPerSample == 16 {
          r := ConcatenateTyped(codec, files, spec, I16);
        } else if spec.bitsPerSample == 32 {
          r := ConcatenateTyped(codec, files, spec, I32);
        } else {
          r := Err(WavConcatenation("Unsupported bits per sample: " + NatToDecimal(spec.bitsPerSample)));
        }
    }
  }

  /** `concatenate_typed`: the samples of every file pushed one by one,
      then written with the given spec. */
  method ConcatenateTyped(codec: Codec, files: seq<seq<Byte>>, spec: WavSpec, t: SampleType) returns (r: Result<seq<Byte>, TtsError>)
    ensures r == ConcatenationTyped(codec, files, spec, t)
  {
    var allSamples: seq<int> := [];
    for i := 0 to |files|
      invariant Gather(codec, files, spec, t, i) == Ok(allSamples)
    {
      var header := codec.readSpec(files[i]);
      if header.Err? {
        GatherStops(codec, files, spec, t, i + 1, Hound(header.error));
        return Err(Hound(header.error));
      }
      if header.value != spec {
        GatherStops(codec, files, spec, t, i + 1, WavConcatenation(DifferentSpec(i)));
        return Err(WavConcatenation(DifferentSpec(i)));
      }
      var samples := codec.readSamples(files[i], t);
      if samples.Err? {
        GatherStops(codec, files, spec, t, i + 1, Hound(samples.error));
        return Err(Hound(samples.error));
      }
      ghost var before := allSamples;
      for j := 0 to |samples.value|
        invariant allSamples == before + samples.value[..j]
      {
        allSamples := allSamples + [samples.value[j]];
      }
      assert samples.value[..|samples.value|] == samples.value;
    }
    var output := codec.write(spec, t, allSamples);
    if output.Err? {
      return Err(Hound(output.error));
    }
    return Ok(output.value);
  }

  /** Once a file fails, the run ends with that file's error. */
  lemma {:induction false} GatherStops(codec: Codec, files: seq<seq<Byte>>, spec: WavSpec, t: SampleType, n: nat, e: TtsError)
    requires 0 < n <= |files|
    requires Gather(codec, files, spec, t, n) == Err(e)
    ensures Gather(codec, files, spec, t, |files|) == Err(e)
    decreases |files| - n
  {
    if n < |files| {
      GatherStops(codec, files, spec, t, n + 1, e);
    }
  }

  // ---------------------------------------------------------------------------
  // Properties
  // ---------------------------------------------------------------------------

  /** The samples of several files, one file after another. */
  function FlattenSamples(parts: seq<seq<int>>): seq<int> {
    if parts == [] then [] else FlattenSamples(parts[..|parts| - 1]) + parts[|parts| - 1]
  }

  /** All files read with the given spec. */
  predicate AllRead(codec: Codec, files: seq<seq<Byte>>, spec: WavSpec, t: SampleType, parts: seq<seq<int>>, n: nat)
    requires n <= |files| && n <= |parts|
  {
    forall i :: 0 <= i < n ==>
      codec.readSpec(files[i]) == Ok(spec) && codec.readSamples(files[i], t) == Ok(parts[i])
  }

  /** When every file reads with the same spec, the samples gathered are
      the files' samples in file order. */
  lemma {:induction false} GatherAll(codec: Codec, files: seq<seq<Byte>>, spec: WavSpec, t: SampleType, parts: seq<seq<int>>, n: nat)
    requires n <= |files| && n <= |parts| && AllRead(codec, files, spec, t, parts, n)
    ensures Gather(codec, files, spec, t, n) == Ok(FlattenSamples(parts[..n]))
    decreases n
  {
    if n > 0 {
      GatherAll(codec, files, spec, t, parts, n - 1);
      assert parts[..n][..n - 1] == parts[..n - 1];
    }
  }

  /** The first file whose spec differs from the expected one is the file
      the error names, provided the files before it read well. */
  lemma {:induction false} GatherFirstMismatch(codec: Codec, files: seq<seq<Byte>>, spec: WavSpec, t: SampleType,
                                               parts: seq<seq<int>>, i: nat, other: WavSpec, n: nat)
    requires i < n <= |files| && i <= |parts| && AllRead(codec, files, spec, t, parts, i)
    requires codec.readSpec(files[i]) == Ok(other) && other != spec
    ensures Gather(codec, files, spec, t, n) == Err(WavConcatenation(DifferentSpec(i)))
    decreases n
  {
    if n == i + 1 {
      GatherAll(codec, files, spec, t, parts, i);
    } else {
      GatherFirstMismatch(codec, files, spec, t, parts, i, other, n - 1);
    }
  }

  /** `concatenate`: no files is an error, a single file comes back byte for
      byte, and two or more are read as the first file's sample type and,
      when all share its spec, written with that spec from all their samples
      in order. */
  lemma ConcatenationSpec(codec: Codec, files: seq<seq<Byte>>, spec: WavSpec, t: SampleType, parts: seq<seq<int>>)
    ensures files == [] ==> Concatenation(codec, files) == Err(WavConcatenation("No audio files to concatenate"))
    ensures |files| == 1 ==> Concatenation(codec, files) == Ok(files[0])
    ensures |files| >= 2 && codec.readSpec(files[0]) == Ok(spec) && SampleTypeOf(spec) == Ok(t) ==>
      Concatenation(codec, files) == ConcatenationTyped(codec, files, spec, t)
    ensures |files| >= 2 && codec.readSpec(files[0]) == Ok(spec) && SampleTypeOf(spec).Err? ==>
      Concatenation(codec, files) == Err(SampleTypeOf(spec).error)
    ensures |files| >= 2 && SampleTypeOf(spec) == Ok(t) && |parts| == |files| && AllRead(codec, files, spec, t, parts, |files|) ==>
      Concatenation(codec, files) == (match codec.write(spec, t, FlattenSamples(parts))
                                      case Ok(bytes) => Ok(bytes)
                                      case Err(m) => Err(AudioParsing(m)))
  {
    if |files| >= 2 && SampleTypeOf(spec) == Ok(t) && |parts| == |files| && AllRead(codec, files, spec, t, parts, |files|) {
      GatherAll(codec, files, spec, t, parts, |files|);
      assert parts[..|files|] == parts;
    }
  }

  /** The first file supplies the spec, so its own spec never differs: a
      run of several files never reports file 0. */
  lemma FirstFileMatches(codec: Codec, files: seq<seq<Byte>>)
    requires |files| >= 2
    ensures Concatenation(codec, files) != Err(WavConcatenation(DifferentSpec(0)))
  {
    match codec.readSpec(files[0]) {
      case Err(m) =>
      case Ok(spec) =>
        match SampleTypeOf(spec) {
          case Err(e) =>
            DifferentSpecDiffers(spec.bitsPerSample);
          case Ok(t) =>
            if Concatenation(codec, files) == Err(WavConcatenation(DifferentSpec(0))) {
              FirstNotMismatch(codec, files, spec, t);
            }
        }
    }
  }

  lemma DifferentSpecDiffers(bits: nat)
    ensures "Unsupported bits per sample: " + NatToDecimal(bits) != DifferentSpec(0)
  {
    var a := "Unsupported bits per sample: " + NatToDecimal(bits);
    assert a[0] == 'U' && DifferentSpec(0)[0] == 'W';
  }

  lemma FirstNotMismatch(codec: Codec, files: seq<seq<Byte>>, spec: WavSpec, t: SampleType)
    requires |files| >= 2 && codec.readSpec(files[0]) == Ok(spec)
    ensures ConcatenationTyped(codec, files, spec, t) != Err(WavConcatenation(DifferentSpec(0)))
  {
    var n := |files|;
    if Gather(codec, files, spec, t, n) == Err(WavConcatenation(DifferentSpec(0))) {
      var k := MismatchIndex(codec, files, spec, t, n, WavConcatenation(DifferentSpec(0)));
      DecimalInjective(k, 0);
    }
  }

  /** An error naming a file came from that file: its spec read well and
      differed. */
  lemma {:induction false} MismatchIndex(codec: Codec, files: seq<seq<Byte>>, spec: WavSpec, t: SampleType, n: nat, e: TtsError)
    returns (k: nat)
    requires n <= |files| && Gather(codec, files, spec, t, n) == Err(e) && e.WavConcatenation?
    ensures k < n && e == WavConcatenation(DifferentSpec(k))
    ensures codec.readSpec(files[k]).Ok? && codec.readSpec(files[k]).value != spec
    decreases n
  {
    match Gather(codec, files, spec, t, n - 1) {
      case Err(_) =>
        k := MismatchIndex(codec, files, spec, t, n - 1, e);
      case Ok(_) =>
        k := n - 1;
    }
  }

  lemma DecimalInjective(k: nat, j: nat)
    requires DifferentSpec(k) == DifferentSpec(j)
    ensures k == j
  {
    var p := "WAV file ";
    var a, b := NatToDecimal(k), NatToDecimal(j);
    assert DifferentSpec(k) == p + a + " has different spec";
    assert DifferentSpec(j) == p + b + " has different spec";
    assert |a| == |b|;
    assert a == DifferentSpec(k)[|p|..|p| + |a|];
    assert b == DifferentSpec(j)[|p|..|p| + |b|];
    DigitsValueOfDecimal(k);
    DigitsValueOfDecimal(j);
  }
}
