# Synaptic Resonator: fragment composer and raw-file helper rules

A Dafny model of the two sequential pieces of the Synaptic Resonator service
that have behaviour worth stating:

- **The memory fragment composer** (`generate_fragment` in
  `synaptic_resonator/generator.py`). It splits the input text on whitespace
  and seeds numpy's generator with the sum of the text's code points. It picks
  one of the words, or the fallback `"echo"` when there are none. It then picks
  three terms, with repetition, from the vocabulary `veil, echo, rift, pulse,
  haze, shard, lumen, flux` and joins the four with single spaces. The 32-bit
  mask that `generate_waveform` applies to the text's UUID is modelled as well.
- **The pure rules of the `.raw` utility** (`play_audio.py`): the default WAV
  name, the sample count `info` reports, the clip-scale-truncate conversion of
  float32 samples to 16-bit PCM, the failure on a length that is not a multiple
  of 4, and which of info, convert and play `main` runs.

Files:

- `Text.dfy` (module `Text`): Python's `str.isspace`, `str.split()`,
  `" ".join` and `str.replace`, with their properties.
- `Generator.dfy` (module `Generator`): the fragment and the waveform seed.
- `PlayAudio.dfy` (module `PlayAudio`): the utility's rules.

numpy's generator is modelled as an index stream. A seeded generator is
deterministic, so the index it hands out for a choice among `n` items is a
function `draw(seed, earlier, n)` of its seed and of the sizes of the choices
made before. All that the model assumes of `draw` is that its indices are in
range (`Generator.InRange`). Every fragment property is proved for every such
stream.

The word is picked with `rng.choice(words)`, which returns it through a numpy
string array; `Generator.GenerateFragmentAsWritten` models that, and
`Generator.GenerateFragment` is the corrected definition the fragment
properties below are stated about (see Findings). The rows for
`FragmentDraws`, `FirstTokenFromText`, `TokensAreWords`,
`FragmentDeterministic` and `GenerateFragment` describe the corrected
definition. `AsWrittenAgrees` shows the two coincide on every text without a
NUL character, and `NulWordDropsToken` shows where they differ.

## Model

| member | source | states |
|---|---|---|
| Text.IsSpace | synaptic_resonator/generator.py:21 | `str.isspace`, the whitespace set `str.split()` separates on: space, tab, newline and carriage return are whitespace; NUL, digits and ASCII letters are not |
| Text.Split | synaptic_resonator/generator.py:21 | every word of `text.split()` is non-empty and contains no whitespace |
| Text.SplitKeepsCharacters | synaptic_resonator/generator.py:21 | the words, concatenated, are exactly the text's non-whitespace characters in their original order |
| Text.SplitEmptyIffBlank | synaptic_resonator/generator.py:21 | the text has no words if and only if every character is whitespace (empty text included) |
| Text.SplitJoinSpaces | synaptic_resonator/generator.py:27-28 | splitting words joined by single spaces gives back the same words |
| Text.JoinSpaces | synaptic_resonator/generator.py:27 | `" ".join(ws)` is empty for no words; otherwise it is as long as the words together plus one separator between each pair |
| Text.SplitAtSpace | synaptic_resonator/generator.py:21 | words never span whitespace: splitting a text at any whitespace character gives the words before it followed by the words after it |
| Text.SplitWordsFromText | synaptic_resonator/generator.py:21 | every character of every word occurs in the text |
| Text.PrefixThenSpace | synaptic_resonator/generator.py:28 | an empty first part followed by a space contributes no token; a word followed by a space contributes exactly that word |
| Text.Replace | play_audio.py:28 | `str.replace` with a pattern and a replacement of equal length keeps the length of the string |
| Text.ReplaceFirstOccurrence | play_audio.py:28 | `str.replace` keeps the text before the first occurrence of the pattern, puts the replacement in its place, and replaces the rest in turn; with `ReplaceWithoutOccurrence` this fixes the result on every string |
| Text.ReplaceWithoutOccurrence | play_audio.py:28 | a string with no occurrence of the pattern comes back unchanged |
| Generator.CodePointSum | synaptic_resonator/generator.py:22 | the fragment seed is at least every character's code point and at most the length times 0x10FFFF, so it is 0 for the empty text |
| Generator.CodePointSumOfChar | synaptic_resonator/generator.py:22 | the seed of a one-character text is that character's code point; with `CodePointSumAppend` this fixes the seed as `sum(ord(c))` on every text |
| Generator.CodePointSumAppend | synaptic_resonator/generator.py:22 | the seed of a concatenation is the sum of the seeds of its parts |
| Generator.PickWord | synaptic_resonator/generator.py:24 | with no words the fallback `echo` is taken and the generator is untouched; otherwise the token is `words[i]` for the next index `i` of the stream, so it is one of the words, and the generator records one request of size `len(words)` |
| Generator.Choice | synaptic_resonator/generator.py:24 | a choice among n items gives an index below n, keeps the seed and records the request |
| Generator.DrawTerms | synaptic_resonator/generator.py:25-26 | `choice(abstract, size=3)` gives 3 vocabulary terms. Term j is the vocabulary entry at the stream's index after the earlier requests plus j requests of size 8. The generator ends past all 3 |
| Generator.VocabularyWords | synaptic_resonator/generator.py:25 | every vocabulary term is non-empty and contains no whitespace |
| Generator.FragmentDraws | synaptic_resonator/generator.py:21-26 | the generator is seeded by the code-point sum. With no words the first token is `echo` and the terms are the first three choices. Otherwise the first token is `words[i]` for the first index `i < len(words)`, and the terms are the three choices after it |
| Generator.FirstTokenFromText | synaptic_resonator/generator.py:21-24 | the first token is one of the text's words, or `echo` when there are none; it is `echo` for an all-whitespace text |
| Generator.TokensAreWords | synaptic_resonator/generator.py:24-26 | all four tokens are non-empty and whitespace-free, and tokens 2 to 4 belong to the vocabulary |
| Generator.GenerateFragment | synaptic_resonator/generator.py:20-28 | corrected definition (first token the chosen word itself): the fragment is never empty, empty input included, and splitting it on whitespace gives exactly the four tokens `[word, t1, t2, t3]` in order |
| Generator.FragmentJoinsWithSpaces | synaptic_resonator/generator.py:27-28 | corrected definition: the fragment is exactly its four tokens joined by single spaces |
| Generator.FragmentDeterministic | synaptic_resonator/generator.py:20-28 | for a fixed stream, two texts with the same words and the same code-point sum give the same fragment |
| Generator.StripTrailingNuls | synaptic_resonator/generator.py:24 | reading a word back from numpy's string array gives a prefix of it; only NUL characters are removed, and the result does not end in NUL |
| Generator.PickedAsWritten | synaptic_resonator/generator.py:24 | the program's first token: `echo` for a text with no words; otherwise the chosen word with its trailing NULs dropped: a prefix of it, differing only by NULs, that is empty or a word and does not end in NUL |
| Generator.GenerateFragmentAsWritten | synaptic_resonator/generator.py:20-28 | the program as written: for every text the fragment is non-empty and splits into the first token, unless it came back empty, followed by the three terms; so it has 3 or 4 tokens and the last three belong to the vocabulary |
| Generator.AsWrittenAgrees | synaptic_resonator/generator.py:20-28 | for a text with no NUL character the program as written and the corrected definition give the same fragment |
| Generator.NulWordDropsToken | synaptic_resonator/generator.py:24-28 | for the text `"\0"` the fragment as written splits into 3 tokens, while the corrected fragment splits into 4 |
| Generator.BitAnd | synaptic_resonator/generator.py:6 | `a & b` on non-negative integers is at most each operand |
| Generator.BitAndLowMask | synaptic_resonator/generator.py:6 | masking with 2^k - 1 equals reduction modulo 2^k |
| Generator.WaveformSeed | synaptic_resonator/generator.py:6 | the waveform seed is the UUID integer modulo 2^32, so it lies in [0, 2^32) |
| PlayAudio.DefaultWavName | play_audio.py:27-28 | the default WAV name has the same length as the raw name |
| PlayAudio.DefaultNameAtFirstRaw | play_audio.py:28 | the name up to its first `.raw` is kept, that `.raw` becomes `.wav`, and the rest of the name is renamed in turn |
| PlayAudio.DefaultNameOfRawFile | play_audio.py:27-28 | a name `stem.raw` whose stem holds no `.raw` gets the default name `stem.wav` |
| PlayAudio.FileRawExample | play_audio.py:105-108 | the usage banner's `file.raw` is converted to `file.wav` by default |
| PlayAudio.NoRawLeft | play_audio.py:28 | no `.raw` remains in the default name: every occurrence has been replaced |
| PlayAudio.DefaultNameUnchangedIff | play_audio.py:28 | the default name equals the raw name if and only if the raw name contains no `.raw` |
| PlayAudio.WavName | play_audio.py:27-28 | an explicit output name is used as given; with none, the default name is used |
| PlayAudio.SampleCount | play_audio.py:64 | the sample count n satisfies 4n <= byte length < 4n + 4 |
| PlayAudio.TrailingBytesIgnored | play_audio.py:64 | 1 to 3 trailing bytes do not change the count, and then the count covers fewer bytes than the file has |
| PlayAudio.Clip | play_audio.py:23 | a clipped sample lies in [-1, 1]; in-range values are unchanged; values above 1 (and +inf) become 1, values below -1 (and -inf) become -1; NaN stays NaN |
| PlayAudio.TruncateTowardZero | play_audio.py:24 | the cast to integer truncates toward zero: n <= x < n + 1 for x >= 0, and n - 1 < x <= n for x <= 0 |
| PlayAudio.TruncateOdd | play_audio.py:24 | truncating -x gives minus the truncation of x |
| PlayAudio.ToPcm16 | play_audio.py:23-24 | every non-NaN sample maps into [-32767, 32767], never to -32768; NaN maps to the platform's cast value |
| PlayAudio.ToPcm16Odd | play_audio.py:23-24 | the conversion is symmetric: the negated sample maps to the negated value |
| PlayAudio.ToPcm16Extremes | play_audio.py:23-24 | 1.0 and +inf map to 32767; -1.0 and -inf map to -32767; 0.0 maps to 0 |
| PlayAudio.ToPcm16WithinScaledSample | play_audio.py:24 | for a sample x in [-1, 1], the value is within 1 of 32767x, on the side of zero |
| PlayAudio.Frames | play_audio.py:20 | the buffer is read as len/4 consecutive 4-byte frames, frame i being bytes 4i to 4i+3 |
| PlayAudio.ConvertToWav | play_audio.py:15-44 | conversion fails, with the buffer-size error, if and only if the length is not a multiple of 4. Otherwise it gives a mono, 2-byte, 44100 Hz file under the chosen name, with one frame per sample in order. Frame i is the conversion of the float in bytes 4i to 4i+3 |
| PlayAudio.ConvertAgreesWithInfo | play_audio.py:61-64 | when the length is a multiple of 4, conversion succeeds and writes exactly the number of frames `info` reports as samples |
| PlayAudio.Actions | play_audio.py:92-99 | info runs if and only if `--info` is set or neither `--convert` nor `--play` is. Convert runs if and only if `--convert` is set, and play if and only if `--play` is set. They run in the order info, convert, play, and at least one always runs |

## Findings

| source | as written | input that shows it | evidently intended | confidence | as-written member | corrected member |
|---|---|---|---|---|---|---|
| synaptic_resonator/generator.py:24 | `rng.choice(words)` returns the word from a numpy fixed-width string array, and reading an element of such an array drops its trailing NUL characters | the text `"\0"` (one NUL character, which is not whitespace, so it is one word) gives the first token `""` and the fragment `" t1 t2 t3"`, which splits into 3 tokens | the first token is the chosen word as it appears in the text, so every fragment has 4 tokens | medium (relies on numpy's fixed-width string semantics); not executed | Generator.GenerateFragmentAsWritten, Generator.NulWordDropsToken | Generator.GenerateFragment |

## Left out

- Waveform synthesis (`generate_waveform`, synaptic_resonator/generator.py:7-18): floating-point trigonometry, `linspace`, numpy's uniform draws, and normalisation by the peak. Only the seed mask on line 6 is modelled.
- synaptic_resonator/generator.py:15 adds Gaussian noise (`standard_normal`), and line 17 divides by the peak with no guard against a zero peak; both are floating-point steps and are not modelled.
- `uuid.uuid5` (section 4.3 of RFC 4122, a SHA-1 name-based UUID) is a foreign hash. Its integer is the opaque input `Generator.Uuid`, below 2^128.
- The bit-exact behaviour of `numpy.random.default_rng` and `choice` is a foreign call. The model keeps only the index stream and its in-range property.
- Generator.DrawTerms: `rng.choice(abstract, size=3)` is one vectorised call. It is modelled as three consecutive requests of size 8. The stream is abstract, so this loses nothing the model states.
- Generator.CodePointSum: Python strings may hold lone surrogates (U+D800 to U+DFFF), but Dafny characters cannot, so such texts are outside the model.
- Generator.GenerateFragmentAsWritten: numpy also returns the three vocabulary terms through a string array. None of them contains a NUL, so they are taken unchanged.
- `main.py` (the FastAPI handler, its response headers and the `tobytes` serialisation) is not part of this model.
- File reading and writing, the `wave` module, the `ffplay` subprocess, argparse, printing, and the duration formatting (play_audio.py:19-20, 31-40, 46-56, 61-75, 78-90) are left out. So are the usage banner printed when there are no arguments (play_audio.py:101-110) and the errors of opening a missing file.
- PlayAudio.ConvertToWav: decoding 4 little-endian bytes into an IEEE-754 binary32 value is the parameter `decode`. The WAV container is represented by its name, its format fields and its frames, not by its bytes.
- PlayAudio.ToPcm16: computes `x * 32767` exactly over reals, not with float32 rounding. The bound [-32767, 32767] still holds under rounding, because rounding is monotone and ±32767 are exact float32 values. The value a NaN casts to is platform-defined and is the parameter `nanCast`.
- Text.Replace: requires a non-empty pattern. Python's behaviour for an empty pattern is not modelled, because the utility only replaces `.raw`.
- No WAV round-trip is modelled, because the utility writes 16-bit WAV and never reads it back.
