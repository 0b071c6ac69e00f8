/**
 * The deterministic generation core in `synaptic_resonator/generator.py`:
 * the memory fragment built by `generate_fragment`, and the 32-bit seed that
 * `generate_waveform` takes from the text's name-based UUID.
 *
 * numpy's `default_rng(seed).choice` is modelled as a stream of indices.
 * A seeded generator is deterministic, so the index it hands out for a
 * choice among `n` items is a function of its seed and of the sizes of the
 * choices it was asked for before: `draw(seed, earlier, n)`. All that is
 * assumed of `draw` is that it is in range (`InRange`), and every property
 * below holds for every such stream.
 */
module Generator {
  import opened Text

  /** The fixed abstract vocabulary the three fragment terms come from. */
  const Vocabulary: seq<string> := ["veil", "echo", "rift", "pulse", "haze", "shard", "lumen", "flux"]

  /** The first token used when the text has no words. */
  const Fallback: string := "echo"

  /** How many vocabulary terms a fragment carries (`size=3`). */
  const TermCount: nat := 3

  // ---------------------------------------------------------------------
  // Fragment seed

  /** `sum(ord(c) for c in text)`. */
  function CodePointSum(text: string): (seed: nat)
    ensures forall i :: 0 <= i < |text| ==> text[i] as nat <= seed
    ensures seed <= |text| * 0x10FFFF
  {
    if text == [] then 0 else text[0] as nat + CodePointSum(text[1..])
  }

  /** The seed of one character is its code point. */
  lemma CodePointSumOfChar(c: char)
    ensures CodePointSum([c]) == c as nat
  {
  }

  /** The seed of a concatenation is the sum of the seeds of its parts. */
  lemma {:induction false} CodePointSumAppend(a: string, b: string)
    ensures CodePointSum(a + b) == CodePointSum(a) + CodePointSum(b)
    decreases |a|
  {
    if a == [] {
      assert a + b == b;
    } else {
      assert (a + b)[1..] == a[1..] + b;
      CodePointSumAppend(a[1..], b);
    }
  }

  // ---------------------------------------------------------------------
  // The generator as an index stream

  /** `draw(seed, earlier, n)`: the index chosen among `n` items after choices among the sizes in `earlier`. */
  type Draw = (nat, seq<nat>, nat) -> nat

  /** Every draw among `n > 0` items is a valid index. */
  ghost predicate InRange(draw: Draw) {
    forall seed, earlier, n :: 0 < n ==> draw(seed, earlier, n) < n
  }

  /** A seeded generator that has already served choices among the sizes in `requests`, in order. */
  datatype Rng = Rng(seed: nat, requests: seq<nat>)

  /** `j` requests of size `n` in a row. */
  function Repeat(n: nat, j: nat): (r: seq<nat>)
    ensures |r| == j && forall k :: 0 <= k < j ==> r[k] == n
  {
    seq(j, _ => n)
  }

  /** `rng.choice` over `n` items: one index, and the generator advanced past that request. */
  function Choice(draw: Draw, g: Rng, n: nat): (r: (nat, Rng))
    requires InRange(draw) && 0 < n
    ensures r.0 < n
    ensures r.1.seed == g.seed && r.1.requests == g.requests + [n]
  {
    (draw(g.seed, g.requests, n), Rng(g.seed, g.requests + [n]))
  }

  /** One request of size `n` followed by `j` more is `j + 1` requests of size `n`. */
  lemma RequestsShift(before: seq<nat>, n: nat, count: nat)
    ensures forall j :: 0 <= j < count ==> before + [n] + Repeat(n, j) == before + Repeat(n, j + 1)
    ensures before + Repeat(n, 0) == before
  {
  }

  /** `rng.choice(abstract, size=count)`: `count` terms, with repetition, in stream order. */
  function DrawTerms(draw: Draw, g: Rng, count: nat): (r: (seq<string>, Rng))
    requires InRange(draw)
    ensures |r.0| == count
    ensures r.1 == Rng(g.seed, g.requests + Repeat(|Vocabulary|, count))
    ensures forall j :: 0 <= j < count ==>
      r.0[j] == Vocabulary[draw(g.seed, g.requests + Repeat(|Vocabulary|, j), |Vocabulary|)]
    ensures forall j :: 0 <= j < count ==> r.0[j] in Vocabulary
    decreases count
  {
    if count == 0 then
      assert g.requests + Repeat(|Vocabulary|, 0) == g.requests;
      ([], g)
    else
      var (i, g1) := Choice(draw, g, |Vocabulary|);
      var (rest, g2) := DrawTerms(draw, g1, count - 1);
      RequestsShift(g.requests, |Vocabulary|, count);
      ([Vocabulary[i]] + rest, g2)
  }

  /**
   * `rng.choice(words) if words else "echo"`: one of the words, chosen by the
   * next index of the stream, or the fallback, which consumes no draw.
   */
  function PickWord(draw: Draw, words: seq<string>, g: Rng): (r: (string, Rng))
    requires InRange(draw)
    ensures words == [] ==> r == (Fallback, g)
    ensures words != [] ==>
      && r.0 in words
      && r.0 == words[draw(g.seed, g.requests, |words|)]
      && r.1 == Rng(g.seed, g.requests + [|words|])
  {
    if words == [] then (Fallback, g)
    else
      var (i, g1) := Choice(draw, g, |words|);
      (words[i], g1)
  }

  /** The first token and the three terms `generate_fragment` picks for `text`. */
  function Picks(draw: Draw, text: string): (p: (string, seq<string>))
    requires InRange(draw)
  {
    var words := Split(text);
    var (word, g) := PickWord(draw, words, Rng(CodePointSum(text), []));
    var (terms, _) := DrawTerms(draw, g, TermCount);
    (word, terms)
  }

  /** The four tokens of the fragment, in order. */
  function Tokens(draw: Draw, text: string): (tokens: seq<string>)
    requires InRange(draw)
  {
    var (word, terms) := Picks(draw, text);
    [word] + terms
  }

  /**
   * `generate_fragment(text)`, `f"{cryptic_word} {' '.join(fragment_words)}"`,
   * with the first token taken as the chosen word itself. The fragment is
   * never empty, and splitting it on whitespace gives back exactly its four
   * tokens: the first token followed by the three vocabulary terms.
   */
  function GenerateFragment(draw: Draw, text: string): (fragment: string)
    requires InRange(draw)
    ensures |fragment| > 0
    ensures Split(fragment) == Tokens(draw, text)
    ensures |Split(fragment)| == 4
  {
    var (word, terms) := Picks(draw, text);
    var tokens := Tokens(draw, text);
    TokensAreWords(draw, text);
    assert tokens[1..] == terms;
    SplitJoinSpaces(tokens);
    word + " " + JoinSpaces(terms)
  }

  // ---------------------------------------------------------------------
  // Properties of the fragment

  /** The fragment is its four tokens joined by single spaces. */
  lemma FragmentJoinsWithSpaces(draw: Draw, text: string)
    requires InRange(draw)
    ensures GenerateFragment(draw, text) == JoinSpaces(Tokens(draw, text))
  {
    var (word, terms) := Picks(draw, text);
    var tokens := Tokens(draw, text);
    assert tokens[0] == word && tokens[1..] == terms;
  }

  lemma VocabularyWords()
    ensures AllWords(Vocabulary)
  {
  }

  /**
   * Which draws the fragment consumes, with the generator seeded by the
   * code-point sum: with no words the first token is the fallback, no choice
   * is made for it, and the terms are the first three choices; otherwise the
   * first token is the word at the first choice (among the words), and the
   * terms are the three choices after it.
   */
  lemma FragmentDraws(draw: Draw, text: string)
    requires InRange(draw)
    ensures var words, seed, tokens := Split(text), CodePointSum(text), Tokens(draw, text);
      && |tokens| == 1 + TermCount
      && (words == [] ==> tokens[0] == Fallback)
      && (words != [] ==> draw(seed, [], |words|) < |words| && tokens[0] == words[draw(seed, [], |words|)])
      && var terms, before := tokens[1..], if words == [] then [] else [|words|];
         forall j :: 0 <= j < TermCount ==>
           terms[j] == Vocabulary[draw(seed, before + Repeat(|Vocabulary|, j), |Vocabulary|)]
  {
    var words, seed := Split(text), CodePointSum(text);
    var (word, g) := PickWord(draw, words, Rng(seed, []));
    var (terms, _) := DrawTerms(draw, g, TermCount);
    assert Tokens(draw, text) == [word] + terms;
    assert Tokens(draw, text)[1..] == terms;
    assert g == Rng(seed, if words == [] then [] else [|words|]);
  }

  /** The first token is a word of the text, or the fallback when the text is blank. */
  lemma FirstTokenFromText(draw: Draw, text: string)
    requires InRange(draw)
    ensures Tokens(draw, text)[0] in Split(text) || (Split(text) == [] && Tokens(draw, text)[0] == Fallback)
    ensures (forall i :: 0 <= i < |text| ==> IsSpace(text[i])) ==> Tokens(draw, text)[0] == Fallback
  {
    SplitEmptyIffBlank(text);
  }

  /** Every token is a word, and the last three come from the vocabulary. */
  lemma TokensAreWords(draw: Draw, text: string)
    requires InRange(draw)
    ensures AllWords(Tokens(draw, text))
    ensures forall k :: 1 <= k < |Tokens(draw, text)| ==> Tokens(draw, text)[k] in Vocabulary
  {
    var tokens := Tokens(draw, text);
    var words := Split(text);
    VocabularyWords();
    assert IsWord(Fallback);
    assert words != [] ==> IsWord(tokens[0]);
    forall k | 1 <= k < |tokens| ensures IsWord(tokens[k]) && tokens[k] in Vocabulary {
      var j :| 0 <= j < |Vocabulary| && Vocabulary[j] == tokens[k];
    }
  }

  /**
   * The fragment depends on the text only through its words and its
   * code-point sum: for a fixed stream it is a function of the text alone.
   */
  lemma FragmentDeterministic(draw: Draw, a: string, b: string)
    requires InRange(draw)
    requires Split(a) == Split(b) && CodePointSum(a) == CodePointSum(b)
    ensures GenerateFragment(draw, a) == GenerateFragment(draw, b)
  {
  }

  // ---------------------------------------------------------------------
  // The first token as numpy actually returns it

  /**
   * numpy stores `words` in a fixed-width string array, and reading an
   * element back drops its trailing NUL characters.
   */
  function StripTrailingNuls(w: string): (r: string)
    ensures |r| <= |w| && r == w[..|r|]
    ensures r == [] || r[|r| - 1] != '\0'
    ensures forall i :: |r| <= i < |w| ==> w[i] == '\0'
  {
    if w == [] || w[|w| - 1] != '\0' then w else StripTrailingNuls(w[..|w| - 1])
  }

  /**
   * The first token as the program gets it: the fallback, or the chosen word
   * read back from numpy's string array, so without its trailing NULs. It is
   * a prefix of the chosen word, and either empty or a word.
   */
  function PickedAsWritten(draw: Draw, text: string): (picked: string)
    requires InRange(draw)
    ensures Split(text) == [] ==> picked == Fallback
    ensures |picked| <= |Tokens(draw, text)[0]| && picked == Tokens(draw, text)[0][..|picked|]
    ensures forall i :: |picked| <= i < |Tokens(draw, text)[0]| ==> Tokens(draw, text)[0][i] == '\0'
    ensures picked == [] || IsWord(picked)
    ensures picked == [] || picked[|picked| - 1] != '\0'
  {
    var (word, _) := Picks(draw, text);
    TokensAreWords(draw, text);
    assert IsWord(Tokens(draw, text)[0]);
    if Split(text) == [] then word else StripTrailingNuls(word)
  }

  /**
   * `generate_fragment(text)` as written, with the first token read back
   * through numpy's string array. For every text the fragment is non-empty
   * and splits into the first token, unless numpy emptied it, followed by
   * the three vocabulary terms: 4 tokens, or 3 when the first is lost.
   */
  function GenerateFragmentAsWritten(draw: Draw, text: string): (fragment: string)
    requires InRange(draw)
    ensures |fragment| > 0
    ensures var picked := PickedAsWritten(draw, text);
      Split(fragment) == (if picked == [] then [] else [picked]) + Tokens(draw, text)[1..]
    ensures 3 <= |Split(fragment)| <= 4
    ensures forall k :: |Split(fragment)| - 3 <= k < |Split(fragment)| ==> Split(fragment)[k] in Vocabulary
  {
    var (_, terms) := Picks(draw, text);
    var picked := PickedAsWritten(draw, text);
    TokensAreWords(draw, text);
    assert terms == Tokens(draw, text)[1..];
    assert AllWords(terms);
    SplitJoinSpaces(terms);
    PrefixThenSpace(picked, JoinSpaces(terms));
    picked + " " + JoinSpaces(terms)
  }

  /** A text without NUL characters gives the same fragment as written and as corrected. */
  lemma AsWrittenAgrees(draw: Draw, text: string)
    requires InRange(draw)
    requires forall i :: 0 <= i < |text| ==> text[i] != '\0'
    ensures GenerateFragmentAsWritten(draw, text) == GenerateFragment(draw, text)
  {
    var words := Split(text);
    var (word, terms) := Picks(draw, text);
    if words != [] {
      SplitWordsFromText(text);
      TokensAreWords(draw, text);
      var k :| 0 <= k < |words| && words[k] == word;
      assert word[|word| - 1] in text;
      assert StripTrailingNuls(word) == word;
    }
  }

  /**
   * The text made of a single NUL character is one word (NUL is not
   * whitespace), numpy hands it back as the empty string, and the fragment
   * then splits into three tokens instead of four.
   */
  lemma NulWordDropsToken(draw: Draw)
    requires InRange(draw)
    ensures |Split(GenerateFragmentAsWritten(draw, "\0"))| == 3
    ensures |Split(GenerateFragment(draw, "\0"))| == 4
  {
    var text := "\0";
    assert !IsSpace(text[0]);
    assert WordLength(text) == 1;
    assert Split(text) == [text] by {
      assert text[..1] == text && text[1..] == [];
    }
    var (word, terms) := Picks(draw, text);
    assert word == text;
    assert PickedAsWritten(draw, text) == StripTrailingNuls(word) == [];
  }

  // ---------------------------------------------------------------------
  // Waveform seed

  /** 2^k. */
  function Pow2(k: nat): (p: nat)
    ensures p >= 1
  {
    if k == 0 then 1 else 2 * Pow2(k - 1)
  }

  /** A UUID as the 128-bit integer `uuid.UUID.int`. */
  type Uuid = n: nat | n < 0x1_0000_0000_0000_0000_0000_0000_0000_0000

  /** Python's `a & b` on non-negative integers, bit by bit from the lowest. */
  function BitAnd(a: nat, b: nat): (r: nat)
    ensures r <= a && r <= b
    decreases a
  {
    if a == 0 || b == 0 then 0
    else 2 * BitAnd(a / 2, b / 2) + (if a % 2 == 1 && b % 2 == 1 then 1 else 0)
  }

  lemma {:induction false} Pow2Add(a: nat, b: nat)
    ensures Pow2(a + b) == Pow2(a) * Pow2(b)
    decreases a
  {
    if a > 0 {
      Pow2Add(a - 1, b);
    }
  }

  lemma Pow2Of32()
    ensures Pow2(32) == 0x1_0000_0000
  {
    assert Pow2(8) == 0x100;
    Pow2Add(8, 8);
    Pow2Add(16, 16);
  }

  lemma MultipleBelowDivisor(d: int, k: int)
    requires d > 0 && -d < d * k < d
    ensures k == 0
  {
  }

  /** Euclidean division is unique: `x == d * a + b` with `0 <= b < d` fixes both. */
  lemma DivModUnique(x: int, d: int, a: int, b: int)
    requires d > 0 && x == d * a + b && 0 <= b < d
    ensures x % d == b && x / d == a
  {
    var q, r := x / d, x % d;
    assert x == d * q + r;
    assert d * (a - q) == r - b;
    MultipleBelowDivisor(d, a - q);
  }

  lemma HalveMod(x: nat, p: nat)
    requires p > 0
    ensures x % (2 * p) == 2 * ((x / 2) % p) + x % 2
  {
    var q, r := x / 2, x % 2;
    var a, b := q / p, q % p;
    assert q == p * a + b;
    assert x == (2 * p) * a + (2 * b + r);
    DivModUnique(x, 2 * p, a, 2 * b + r);
  }

  /** Masking with 2^k - 1 keeps the low k bits: it is reduction modulo 2^k. */
  lemma {:induction false} BitAndLowMask(x: nat, k: nat)
    ensures BitAnd(x, Pow2(k) - 1) == x % Pow2(k)
    decreases k
  {
    if k == 0 {
    } else if x == 0 {
    } else {
      var m := Pow2(k) - 1;
      assert m / 2 == Pow2(k - 1) - 1 && m % 2 == 1;
      BitAndLowMask(x / 2, k - 1);
      HalveMod(x, Pow2(k - 1));
    }
  }

  /**
   * `uuid.uuid5(NAMESPACE_DNS, text).int & 0xFFFFFFFF`: the seed is the UUID's
   * low 32 bits, a value below 2^32 equal to the UUID modulo 2^32.
   */
  function WaveformSeed(u: Uuid): (seed: nat)
    ensures seed < 0x1_0000_0000
    ensures seed == u % 0x1_0000_0000
  {
    BitAndLowMask(u, 32);
    Pow2Of32();
    BitAnd(u, 0xFFFF_FFFF)
  }
}
