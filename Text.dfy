/**
 * The Python string built-ins the core relies on, over `string` (a sequence
 * of Unicode scalar values): `str.isspace`, `str.split()` with no separator,
 * `" ".join` and `str.replace`.
 */
module Text {

  /** `c.isspace()` in Python: the characters `str.split()` separates on. */
  predicate IsSpace(c: char): (r: bool)
    ensures c == ' ' || c == '\t' || c == '\n' || c == '\r' ==> r
    ensures c == '\0' ==> !r
    ensures '0' <= c <= '9' || 'a' <= c <= 'z' || 'A' <= c <= 'Z' ==> !r
  {
    var n := c as int;
    || 0x09 <= n <= 0x0D
    || 0x1C <= n <= 0x20
    || n == 0x85 || n == 0xA0 || n == 0x1680
    || 0x2000 <= n <= 0x200A
    || n == 0x2028 || n == 0x2029 || n == 0x202F || n == 0x205F || n == 0x3000
  }

  /** A token `str.split()` can produce: non-empty and free of whitespace. */
  predicate IsWord(w: string) {
    |w| > 0 && forall i :: 0 <= i < |w| ==> !IsSpace(w[i])
  }

  /** Every element of `ws` is a word. */
  predicate AllWords(ws: seq<string>) {
    forall k :: 0 <= k < |ws| ==> IsWord(ws[k])
  }

  /** The length of the longest whitespace-free prefix of `s`. */
  function WordLength(s: string): (n: nat)
    ensures n <= |s|
    ensures forall i :: 0 <= i < n ==> !IsSpace(s[i])
    ensures n < |s| ==> IsSpace(s[n])
  {
    if s == [] || IsSpace(s[0]) then 0 else 1 + WordLength(s[1..])
  }

  /** `s.split()`: the maximal runs of non-whitespace characters, in order. */
  function Split(s: string): (words: seq<string>)
    ensures AllWords(words)
    decreases |s|
  {
    if s == [] then []
    else if IsSpace(s[0]) then Split(s[1..])
    else
      var n := WordLength(s);
      [s[..n]] + Split(s[n..])
  }

  /** The non-whitespace characters of `s`, in order. */
  function NonSpace(s: string): string {
    if s == [] then []
    else (if IsSpace(s[0]) then [] else [s[0]]) + NonSpace(s[1..])
  }

  /** The concatenation of `ws`. */
  function Concat(ws: seq<string>): string {
    if ws == [] then [] else ws[0] + Concat(ws[1..])
  }

  /** `" ".join(ws)`. */
  function JoinSpaces(ws: seq<string>): (r: string)
    ensures |ws| == 0 ==> r == []
    ensures |ws| > 0 ==> |r| == |Concat(ws)| + |ws| - 1
  {
    if |ws| == 0 then []
    else if |ws| == 1 then ws[0]
    else ws[0] + " " + JoinSpaces(ws[1..])
  }

  /** `pat` occurs in `s` at some position. */
  ghost predicate Occurs(s: string, pat: string) {
    exists i :: OccursAt(s, pat, i)
  }

  /** `pat` occurs in `s` starting at position `i`. */
  predicate OccursAt(s: string, pat: string, i: int) {
    0 <= i && i + |pat| <= |s| && s[i..i + |pat|] == pat
  }

  /**
   * `s.replace(pat, rep)` for a non-empty `pat`: scans left to right and
   * replaces every non-overlapping occurrence of `pat`.
   */
  function Replace(s: string, pat: string, rep: string): (r: string)
    requires |pat| > 0
    ensures |pat| == |rep| ==> |r| == |s|
    decreases |s|
  {
    if |s| < |pat| then s
    else if s[..|pat|] == pat then rep + Replace(s[|pat|..], pat, rep)
    else [s[0]] + Replace(s[1..], pat, rep)
  }

  // ---------------------------------------------------------------------
  // Split

  lemma {:induction false} NonSpaceAppend(a: string, b: string)
    ensures NonSpace(a + b) == NonSpace(a) + NonSpace(b)
    decreases |a|
  {
    if a != [] {
      assert (a + b)[1..] == a[1..] + b;
      NonSpaceAppend(a[1..], b);
    } else {
      assert a + b == b;
    }
  }

  lemma {:induction false} NonSpaceOfWordFree(a: string)
    requires forall i :: 0 <= i < |a| ==> !IsSpace(a[i])
    ensures NonSpace(a) == a
    decreases |a|
  {
    if a != [] {
      NonSpaceOfWordFree(a[1..]);
    }
  }

  /** The words of a split hold exactly the text's non-whitespace characters, in order. */
  lemma {:induction false} SplitKeepsCharacters(s: string)
    ensures Concat(Split(s)) == NonSpace(s)
    decreases |s|
  {
    if s == [] {
    } else if IsSpace(s[0]) {
      SplitKeepsCharacters(s[1..]);
    } else {
      var n := WordLength(s);
      var w, tail := s[..n], s[n..];
      assert Split(s) == [w] + Split(tail);
      SplitKeepsCharacters(tail);
      ConcatCons(w, Split(tail));
      assert s == w + tail;
      NonSpaceAppend(w, tail);
      NonSpaceOfWordFree(w);
    }
  }

  lemma ConcatCons(w: string, ws: seq<string>)
    ensures Concat([w] + ws) == w + Concat(ws)
  {
  }

  /** A text splits into no words exactly when all of it is whitespace. */
  lemma {:induction false} SplitEmptyIffBlank(s: string)
    ensures Split(s) == [] <==> forall i :: 0 <= i < |s| ==> IsSpace(s[i])
    decreases |s|
  {
    if s != [] {
      SplitEmptyIffBlank(s[1..]);
      assert forall i :: 1 <= i < |s| ==> s[i] == s[1..][i - 1];
    }
  }

  lemma WordThenSpace(w: string, rest: string)
    requires IsWord(w)
    ensures Split(w + " " + rest) == [w] + Split(rest)
  {
    var s := w + " " + rest;
    var n := WordLength(s);
    assert s[|w|] == ' ';
    assert forall i :: 0 <= i < |w| ==> s[i] == w[i];
    assert n == |w|;
    assert s[..n] == w;
    assert s[n..] == " " + rest;
    assert (" " + rest)[1..] == rest;
  }

  lemma WholeWord(w: string)
    requires IsWord(w)
    ensures Split(w) == [w]
  {
    var n := WordLength(w);
    assert n == |w|;
    assert w[..n] == w && w[n..] == [];
    assert Split(w) == [w[..n]] + Split(w[n..]);
  }

  /** Splitting words joined by single spaces gives the words back. */
  lemma {:induction false} SplitJoinSpaces(ws: seq<string>)
    requires AllWords(ws)
    ensures Split(JoinSpaces(ws)) == ws
    decreases |ws|
  {
    if |ws| == 0 {
    } else if |ws| == 1 {
      assert IsWord(ws[0]);
      WholeWord(ws[0]);
    } else {
      assert IsWord(ws[0]);
      assert AllWords(ws[1..]) by {
        forall k | 0 <= k < |ws[1..]| ensures IsWord(ws[1..][k]) {
          assert ws[1..][k] == ws[k + 1];
        }
      }
      SplitJoinSpaces(ws[1..]);
      WordThenSpace(ws[0], JoinSpaces(ws[1..]));
      assert [ws[0]] + ws[1..] == ws;
    }
  }

  /** An empty or whole word followed by a space splits off as that word, or as nothing. */
  lemma PrefixThenSpace(w: string, rest: string)
    requires w == [] || IsWord(w)
    ensures Split(w + " " + rest) == (if w == [] then [] else [w]) + Split(rest)
  {
    if w == [] {
      assert w + " " + rest == " " + rest;
      SplitSkipsSpace(rest);
    } else {
      WordThenSpace(w, rest);
    }
  }

  /** Every character of every word comes from the text. */
  lemma {:induction false} SplitWordsFromText(s: string)
    ensures forall k, j :: 0 <= k < |Split(s)| && 0 <= j < |Split(s)[k]| ==> Split(s)[k][j] in s
    decreases |s|
  {
    if s == [] {
    } else if IsSpace(s[0]) {
      SplitWordsFromText(s[1..]);
      assert forall c :: c in s[1..] ==> c in s;
    } else {
      var n := WordLength(s);
      SplitWordsFromText(s[n..]);
      assert forall c :: c in s[n..] ==> c in s;
      assert forall j :: 0 <= j < n ==> s[..n][j] in s;
      assert Split(s) == [s[..n]] + Split(s[n..]);
    }
  }

  /** A whitespace-free run that stops at a whitespace character is the same with or without what follows. */
  lemma WordLengthBeforeSpace(a: string, t: string)
    requires |t| > 0 && IsSpace(t[0])
    ensures WordLength(a + t) == WordLength(a)
    decreases |a|
  {
    if a != [] && !IsSpace(a[0]) {
      assert (a + t)[1..] == a[1..] + t;
      WordLengthBeforeSpace(a[1..], t);
    }
  }

  /**
   * Words never span whitespace: splitting at any whitespace character
   * splits the text into the words before it and the words after it.
   */
  lemma {:induction false} SplitAtSpace(a: string, c: char, b: string)
    requires IsSpace(c)
    ensures Split(a + [c] + b) == Split(a) + Split(b)
    decreases |a|
  {
    var s := a + [c] + b;
    if a == [] {
      assert s[1..] == b;
    } else if IsSpace(a[0]) {
      assert s[1..] == a[1..] + [c] + b;
      SplitAtSpace(a[1..], c, b);
    } else {
      var m := WordLength(a);
      assert a + [c] + b == a + ([c] + b);
      WordLengthBeforeSpace(a, [c] + b);
      assert s[..m] == a[..m];
      assert s[m..] == a[m..] + [c] + b;
      SplitAtSpace(a[m..], c, b);
      assert Split(a) == [a[..m]] + Split(a[m..]);
    }
  }

  /** Leading whitespace does not change a split. */
  lemma SplitSkipsSpace(rest: string)
    ensures Split(" " + rest) == Split(rest)
  {
  }

  // ---------------------------------------------------------------------
  // Replace

  /** Text without an occurrence of `pat` is returned unchanged. */
  lemma {:induction false} ReplaceWithoutOccurrence(s: string, pat: string, rep: string)
    requires |pat| > 0
    requires !Occurs(s, pat)
    ensures Replace(s, pat, rep) == s
    decreases |s|
  {
    if |s| >= |pat| {
      assert !OccursAt(s, pat, 0);
      assert s[..|pat|] != pat;
      assert forall i :: OccursAt(s[1..], pat, i) ==> OccursAt(s, pat, i + 1);
      ReplaceWithoutOccurrence(s[1..], pat, rep);
      assert [s[0]] + s[1..] == s;
    }
  }

  /**
   * `replace` rewrites the first occurrence and carries on after it: text
   * before the first occurrence of `pat` is kept, the occurrence becomes
   * `rep`, and the rest is replaced in turn. With `ReplaceWithoutOccurrence`
   * this fixes the result on every string.
   */
  lemma {:induction false} ReplaceFirstOccurrence(a: string, pat: string, rep: string, b: string)
    requires |pat| > 0
    requires !Occurs(a + pat[..|pat| - 1], pat)
    ensures Replace(a + pat + b, pat, rep) == a + rep + Replace(b, pat, rep)
    decreases |a|
  {
    var s := a + pat + b;
    if a == [] {
      assert s == pat + b;
      assert s[..|pat|] == pat && s[|pat|..] == b;
    } else {
      var head := a + pat[..|pat| - 1];
      NoOccurrenceInTail(head, pat);
      assert head[1..] == a[1..] + pat[..|pat| - 1];
      assert s[..|pat|] != pat by {
        assert s[..|pat|] == head[..|pat|];
        assert !OccursAt(head, pat, 0);
      }
      assert s[1..] == a[1..] + pat + b;
      ReplaceFirstOccurrence(a[1..], pat, rep, b);
      assert [a[0]] + (a[1..] + rep + Replace(b, pat, rep)) == a + rep + Replace(b, pat, rep);
    }
  }

  lemma NoOccurrenceInTail(s: string, pat: string)
    requires |s| > 0 && !Occurs(s, pat)
    ensures !Occurs(s[1..], pat)
  {
    forall i | OccursAt(s[1..], pat, i) ensures OccursAt(s, pat, i + 1) {
      assert s[1..][i..i + |pat|] == s[i + 1..i + 1 + |pat|];
    }
  }
}
