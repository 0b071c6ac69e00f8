/**
 * The pure rules of the `.raw` helper `play_audio.py`: the default WAV name,
 * the sample count `info` reports, the conversion of 32-bit float samples to
 * 16-bit PCM (with its "length must be a multiple of 4" failure), and which
 * of info, convert and play `main` runs for a set of flags.
 */
module PlayAudio {
  import opened Text

  datatype Option<T> = None | Some(value: T)

  datatype Result<T, E> = Success(value: T) | Failure(error: E)

  // ---------------------------------------------------------------------
  // Output name

  /** `raw_file.replace('.raw', '.wav')`. */
  function DefaultWavName(rawName: string): (wavName: string)
    ensures |wavName| == |rawName|
  {
    Replace(rawName, ".raw", ".wav")
  }

  /** `wav_file` if one was given, else the default name. */
  function WavName(rawName: string, output: Option<string>): (wavName: string)
    ensures output.Some? ==> wavName == output.value
    ensures output.None? ==> wavName == DefaultWavName(rawName)
  {
    match output
    case Some(name) => name
    case None => DefaultWavName(rawName)
  }

  /**
   * The replacement and the pattern both start with '.', so a first character
   * of the result other than '.' is the input's own, and the rest of the
   * result is the replacement applied to the rest of the input.
   */
  lemma ReplaceKeepsHead(t: string)
    requires |t| > 0
    ensures var r := DefaultWavName(t);
      r[0] != '.' ==> r[0] == t[0] && r[1..] == DefaultWavName(t[1..])
  {
  }

  /** No ".raw" is left in a default name: every occurrence has been replaced. */
  lemma {:induction false} NoRawLeft(s: string)
    ensures !Occurs(DefaultWavName(s), ".raw")
    decreases |s|
  {
    var r := DefaultWavName(s);
    if |s| < 4 {
      assert forall i :: !OccursAt(r, ".raw", i);
    } else if s[..4] == ".raw" {
      var rest := DefaultWavName(s[4..]);
      NoRawLeft(s[4..]);
      assert r == ".wav" + rest;
      forall i | 0 <= i && i + 4 <= |r| ensures !OccursAt(r, ".raw", i) {
        if i >= 4 {
          assert r[i..i + 4] == rest[i - 4..i - 4 + 4];
          assert !OccursAt(rest, ".raw", i - 4);
        } else {
          assert r[i..i + 4][0] == r[i];
        }
      }
    } else {
      var t := s[1..];
      var rest := DefaultWavName(t);
      NoRawLeft(t);
      assert r == [s[0]] + rest;
      forall i | 0 <= i && i + 4 <= |r| ensures !OccursAt(r, ".raw", i) {
        if i >= 1 {
          assert r[i..i + 4] == rest[i - 1..i - 1 + 4] by {
            var a, b := r[i..i + 4], rest[i - 1..i - 1 + 4];
            forall k | 0 <= k < 4 ensures a[k] == b[k] {
              assert r[i + k] == rest[i - 1 + k];
            }
          }
          assert !OccursAt(rest, ".raw", i - 1);
        } else {
          ReplaceKeepsHead(t);
          ReplaceKeepsHead(t[1..]);
          assert t[1..][1..] == t[2..];
          ReplaceKeepsHead(t[2..]);
          assert rest[0] == 'r' && rest[1] == 'a' && rest[2] == 'w' ==> t[0] == 'r' && t[1] == 'a' && t[2] == 'w';
          assert s[..4] == [s[0], t[0], t[1], t[2]];
          assert r[..4] == [s[0], rest[0], rest[1], rest[2]];
        }
      }
    }
  }

  /** The default name equals the raw name exactly when the raw name has no ".raw". */
  lemma DefaultNameUnchangedIff(rawName: string)
    ensures DefaultWavName(rawName) == rawName <==> !Occurs(rawName, ".raw")
  {
    NoRawLeft(rawName);
    if !Occurs(rawName, ".raw") {
      ReplaceWithoutOccurrence(rawName, ".raw", ".wav");
    }
  }

  /**
   * Text up to the first ".raw" is kept, that ".raw" becomes ".wav", and the
   * rest of the name is renamed in turn.
   */
  lemma DefaultNameAtFirstRaw(a: string, b: string)
    requires !Occurs(a + ".ra", ".raw")
    ensures DefaultWavName(a + ".raw" + b) == a + ".wav" + DefaultWavName(b)
  {
    assert ".raw"[..3] == ".ra";
    ReplaceFirstOccurrence(a, ".raw", ".wav", b);
  }

  /** A file name `stem.raw` whose stem holds no ".raw" gets the default name `stem.wav`. */
  lemma DefaultNameOfRawFile(stem: string)
    requires !Occurs(stem, ".raw")
    ensures DefaultWavName(stem + ".raw") == stem + ".wav"
  {
    var h := stem + ".ra";
    forall i | 0 <= i ensures !OccursAt(h, ".raw", i) {
      if i + 4 <= |stem| {
        assert h[i..i + 4] == stem[i..i + 4];
        assert !OccursAt(stem, ".raw", i);
      } else if i + 4 <= |h| {
        assert h[i + 3] == ".ra"[i + 3 - |stem|];
        assert h[i..i + 4][3] == h[i + 3];
      }
    }
    DefaultNameAtFirstRaw(stem, []);
    assert stem + ".raw" + [] == stem + ".raw";
    assert stem + ".wav" + [] == stem + ".wav";
  }

  /** The usage banner's example: "file.raw" is converted to "file.wav". */
  lemma FileRawExample()
    ensures DefaultWavName("file.raw") == "file.wav"
  {
    var stem := "file";
    assert !OccursAt(stem, ".raw", 0);
    DefaultNameOfRawFile(stem);
    assert stem + ".raw" == "file.raw" && stem + ".wav" == "file.wav";
  }

  // ---------------------------------------------------------------------
  // Samples

  /** Bytes per 32-bit float sample. */
  const BytesPerSample: nat := 4

  /** `len(data) // 4`: the number of whole samples in `byteLength` bytes. */
  function SampleCount(byteLength: nat): (samples: nat)
    ensures BytesPerSample * samples <= byteLength < BytesPerSample * samples + BytesPerSample
  {
    byteLength / BytesPerSample
  }

  /** `info` counts whole samples only: 1 to 3 trailing bytes are ignored. */
  lemma TrailingBytesIgnored(byteLength: nat)
    ensures SampleCount(byteLength) == SampleCount(byteLength - byteLength % BytesPerSample)
    ensures byteLength % BytesPerSample != 0 ==> BytesPerSample * SampleCount(byteLength) < byteLength
  {
  }

  /** A little-endian 32-bit float as numpy reads it. */
  datatype Float32 = Finite(value: real) | PosInf | NegInf | NaN

  /** `np.clip(x, -1.0, 1.0)` on one sample: NaN passes through. */
  function Clip(x: Float32): (c: Float32)
    ensures c.NaN? <==> x.NaN?
    ensures c.Finite? ==> -1.0 <= c.value <= 1.0
    ensures x.Finite? && -1.0 <= x.value <= 1.0 ==> c == x
    ensures x == PosInf || (x.Finite? && x.value > 1.0) ==> c == Finite(1.0)
    ensures x == NegInf || (x.Finite? && x.value < -1.0) ==> c == Finite(-1.0)
  {
    match x
    case Finite(v) => Finite(if v < -1.0 then -1.0 else if v > 1.0 then 1.0 else v)
    case PosInf => Finite(1.0)
    case NegInf => Finite(-1.0)
    case NaN => NaN
  }

  /** The C cast from floating point to integer: truncation toward zero. */
  function TruncateTowardZero(x: real): (n: int)
    ensures x >= 0.0 ==> n as real <= x < n as real + 1.0
    ensures x <= 0.0 ==> n as real - 1.0 < x <= n as real
  {
    if x >= 0.0 then x.Floor else -((-x).Floor)
  }

  /** Truncation toward zero commutes with negation (flooring would not). */
  lemma TruncateOdd(x: real)
    ensures TruncateTowardZero(-x) == -TruncateTowardZero(x)
  {
  }

  type Int16 = n: int | -0x8000 <= n < 0x8000

  /** The full-scale 16-bit value a clipped sample of 1.0 maps to. */
  const FullScale: int := 32767

  /**
   * `(np.clip(x, -1.0, 1.0) * 32767).astype(np.int16)` on one sample. The
   * value a NaN casts to is platform-defined, so it is a parameter.
   */
  function ToPcm16(x: Float32, nanCast: Int16): (v: Int16)
    ensures x.NaN? ==> v == nanCast
    ensures !x.NaN? ==> -FullScale <= v <= FullScale
    ensures !x.NaN? ==> v != -0x8000
  {
    match Clip(x)
    case Finite(c) =>
      var v := TruncateTowardZero(c * FullScale as real);
      assert -FullScale <= v <= FullScale;
      v
    case _ => nanCast
  }

  /** The sample read as its negation. */
  function Negate(x: Float32): Float32 {
    match x
    case Finite(v) => Finite(-v)
    case PosInf => NegInf
    case NegInf => PosInf
    case NaN => NaN
  }

  /** Conversion is symmetric about zero: -x maps to the negation of what x maps to. */
  lemma ToPcm16Odd(x: Float32, nanCast: Int16)
    requires !x.NaN?
    ensures ToPcm16(Negate(x), nanCast) == -ToPcm16(x, nanCast)
  {
  }

  /** Full scale and silence: 1.0 and +inf give 32767, -1.0 and -inf give -32767, 0.0 gives 0. */
  lemma ToPcm16Extremes(nanCast: Int16)
    ensures ToPcm16(Finite(1.0), nanCast) == FullScale == ToPcm16(PosInf, nanCast)
    ensures ToPcm16(Finite(-1.0), nanCast) == -FullScale == ToPcm16(NegInf, nanCast)
    ensures ToPcm16(Finite(0.0), nanCast) == 0
  {
  }

  /** Conversion never increases loudness: the magnitude is at most 32767 times the clipped sample's. */
  lemma ToPcm16WithinScaledSample(x: real, nanCast: Int16)
    requires -1.0 <= x <= 1.0
    ensures var v := ToPcm16(Finite(x), nanCast) as real;
      (x >= 0.0 ==> x * FullScale as real - 1.0 < v <= x * FullScale as real)
      && (x <= 0.0 ==> x * FullScale as real <= v < x * FullScale as real + 1.0)
  {
  }

  /** `data` cut into consecutive 4-byte frames, in order. */
  function Frames(data: seq<bv8>): (frames: seq<seq<bv8>>)
    requires |data| % 4 == 0
    ensures |frames| == |data| / 4
    ensures forall i :: 0 <= i < |frames| ==> 4 * i + 4 <= |data| && frames[i] == data[4 * i..4 * i + 4]
    decreases |data|
  {
    if data == [] then []
    else
      var rest := Frames(data[4..]);
      FramesShift(data, rest);
      [data[..4]] + rest
  }

  lemma FramesShift(data: seq<bv8>, rest: seq<seq<bv8>>)
    requires |data| >= 4 && |rest| == (|data| - 4) / 4
    requires forall i :: 0 <= i < |rest| ==> 4 * i + 4 <= |data| - 4 && rest[i] == data[4..][4 * i..4 * i + 4]
    ensures forall i :: 0 <= i < |rest| + 1 ==>
      4 * i + 4 <= |data| && ([data[..4]] + rest)[i] == data[4 * i..4 * i + 4]
  {
  }

  /** The error `np.frombuffer` raises for a buffer that is not whole float32 samples. */
  datatype ConvertError = BufferNotMultipleOfSampleSize(byteLength: nat)

  /** The mono 16-bit 44100 Hz WAV file `convert_to_wav` writes, by name and frames. */
  datatype Wav = Wav(name: string, channels: nat, sampleWidth: nat, frameRate: nat, frames: seq<Int16>)

  /**
   * `convert_to_wav(raw_file, wav_file)` on the bytes of `raw_file`: fails when
   * they are not whole 4-byte samples, and otherwise yields one 16-bit frame
   * per sample, in order, under the chosen name. `decode` reads one
   * little-endian IEEE-754 binary32 value.
   */
  function ConvertToWav(rawName: string, output: Option<string>, data: seq<bv8>,
                        decode: seq<bv8> -> Float32, nanCast: Int16): (r: Result<Wav, ConvertError>)
    ensures r.Failure? <==> |data| % BytesPerSample != 0
    ensures r.Failure? ==> r.error == BufferNotMultipleOfSampleSize(|data|)
    ensures r.Success? ==>
      && r.value.name == WavName(rawName, output)
      && r.value.channels == 1 && r.value.sampleWidth == 2 && r.value.frameRate == 44100
      && |r.value.frames| == SampleCount(|data|)
      && forall i :: 0 <= i < |r.value.frames| ==>
           BytesPerSample * i + BytesPerSample <= |data|
           && r.value.frames[i] == ToPcm16(decode(data[BytesPerSample * i..BytesPerSample * i + BytesPerSample]), nanCast)
  {
    if |data| % BytesPerSample != 0 then Failure(BufferNotMultipleOfSampleSize(|data|))
    else
      var frames := Frames(data);
      var pcm := seq(|frames|, i requires 0 <= i < |frames| => ToPcm16(decode(frames[i]), nanCast));
      Success(Wav(WavName(rawName, output), 1, 2, 44100, pcm))
  }

  /** When conversion succeeds, it writes exactly as many frames as `info` reports samples. */
  lemma ConvertAgreesWithInfo(rawName: string, output: Option<string>, data: seq<bv8>,
                              decode: seq<bv8> -> Float32, nanCast: Int16)
    requires |data| % BytesPerSample == 0
    ensures ConvertToWav(rawName, output, data, decode, nanCast).Success?
    ensures |ConvertToWav(rawName, output, data, decode, nanCast).value.frames| * BytesPerSample == |data|
  {
  }

  // ---------------------------------------------------------------------
  // Dispatch in main

  /** The command-line flags `main` looks at. */
  datatype Flags = Flags(convert: bool, play: bool, info: bool)

  datatype Action = ShowInfo | Convert | Play

  /** The position of an action in `main`'s fixed order. */
  function Rank(a: Action): nat {
    match a
    case ShowInfo => 0
    case Convert => 1
    case Play => 2
  }

  /**
   * The actions `main` runs, in order. Info runs when asked for or when
   * neither convert nor play is; convert and play run when asked for.
   */
  function Actions(f: Flags): (acts: seq<Action>)
    ensures ShowInfo in acts <==> f.info || (!f.convert && !f.play)
    ensures Convert in acts <==> f.convert
    ensures Play in acts <==> f.play
    ensures forall i, j :: 0 <= i < j < |acts| ==> Rank(acts[i]) < Rank(acts[j])
    ensures |acts| > 0
  {
    (if f.info || (!f.convert && !f.play) then [ShowInfo] else [])
    + (if f.convert then [Convert] else [])
    + (if f.play then [Play] else [])
  }
}
