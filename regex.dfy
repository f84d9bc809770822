/** The regular-expression constructs that the six validation patterns are
    built from, each given two ways: a ghost predicate that follows the
    construct's matching semantics (how the pattern consumes the string), and
    a compiled predicate that says the same thing directly about the
    characters, with a lemma proving the two agree.

    Every pattern of the handler is anchored with `^...$`, so "matches" below
    always means "matches the whole string". A character class is a
    `char -> bool`. */
module Regex {
  import opened Chars

  /** The upper bound of a counted repetition: `{lo,hi}` or `{lo,}`. */
  datatype Bound = Finite(n: nat) | Unbounded

  function Decrement(hi: Bound): Bound
    requires hi != Finite(0)
  {
    if hi.Finite? then Finite(hi.n - 1) else Unbounded
  }

  /** `X{lo,hi}` for a one-character class X: either nothing (allowed only
      when lo is 0) or one X followed by `X{lo-1,hi-1}`. `X+` is
      `Repeat(s, X, 1, Unbounded)`, `X*` is `Repeat(s, X, 0, Unbounded)`. */
  ghost predicate Repeat(s: string, cls: char -> bool, lo: nat, hi: Bound)
    decreases |s|
  {
    if s == [] then lo == 0
    else
      && hi != Finite(0)
      && cls(s[0])
      && Repeat(s[1..], cls, if lo == 0 then 0 else lo - 1, Decrement(hi))
  }

  /** `W+([S]W+)*`: a first run of W, then any number of (one S, one run of W). */
  ghost predicate SeparatedRuns(s: string, word: char -> bool, sep: char -> bool)
    decreases |s|
  {
    exists k | 0 < k <= |s| ::
      && Repeat(s[..k], word, 1, Unbounded)
      && (k == |s| || (sep(s[k]) && SeparatedRuns(s[k + 1..], word, sep)))
  }

  /** `(?=.*X)` tried at the start of the string: some character in X that
      is preceded only by characters `.` accepts (anything but a line feed). */
  ghost predicate LookaheadAtStart(s: string, cls: char -> bool) {
    exists k | 0 <= k < |s| :: Repeat(s[..k], IsNotNewline, 0, Unbounded) && cls(s[k])
  }

  // ---------------------------------------------------------------------
  // Direct characterisations, used by the validators.

  /** Every character of s is in the class. */
  predicate AllIn(s: string, cls: char -> bool) {
    forall i | 0 <= i < |s| :: cls(s[i])
  }

  /** Some character of s is in the class. */
  predicate SomeIn(s: string, cls: char -> bool) {
    exists i | 0 <= i < |s| :: cls(s[i])
  }

  predicate WithinBounds(n: nat, lo: nat, hi: Bound) {
    lo <= n && (hi.Finite? ==> n <= hi.n)
  }

  /** s is made of W and S characters, starts and ends with W, and has no two
      S characters next to each other. */
  predicate IsSeparatedRuns(s: string, word: char -> bool, sep: char -> bool) {
    && |s| > 0
    && word(s[0])
    && word(s[|s| - 1])
    && (forall i | 0 <= i < |s| :: word(s[i]) || sep(s[i]))
    && (forall i | 0 <= i < |s| - 1 :: word(s[i]) || word(s[i + 1]))
  }

  /** The two classes share no character. */
  ghost predicate Disjoint(word: char -> bool, sep: char -> bool) {
    forall c :: !(word(c) && sep(c))
  }

  /** Number of leading characters of s that are in the class. */
  function LeadingRun(s: string, cls: char -> bool): (n: nat)
    ensures n <= |s|
    ensures forall i | 0 <= i < n :: cls(s[i])
    ensures n < |s| ==> !cls(s[n])
  {
    if s == [] || !cls(s[0]) then 0 else 1 + LeadingRun(s[1..], cls)
  }

  // ---------------------------------------------------------------------
  // The two views agree.

  /** A counted repetition of a one-character class matches exactly the
      strings whose length is within the bounds and whose every character is
      in the class. */
  lemma {:induction false} RepeatIff(s: string, cls: char -> bool, lo: nat, hi: Bound)
    ensures Repeat(s, cls, lo, hi) <==> WithinBounds(|s|, lo, hi) && AllIn(s, cls)
    decreases |s|
  {
    if s != [] {
      var lo' := if lo == 0 then 0 else lo - 1;
      if hi != Finite(0) {
        RepeatIff(s[1..], cls, lo', Decrement(hi));
      }
      assert forall i | 1 <= i < |s| :: s[i] == s[1..][i - 1];
      if AllIn(s[1..], cls) && cls(s[0]) {
        assert AllIn(s, cls) by {
          forall i | 0 <= i < |s| ensures cls(s[i]) {
            if i > 0 { assert s[i] == s[1..][i - 1]; }
          }
        }
      }
    }
  }

  /** Special case: `X+` is "non-empty and all in X". */
  lemma PlusIff(s: string, cls: char -> bool)
    ensures Repeat(s, cls, 1, Unbounded) <==> |s| > 0 && AllIn(s, cls)
  {
  }

  /** `W+([S]W+)*` with disjoint W and S matches exactly the strings that
      `IsSeparatedRuns` describes. */
  lemma SeparatedRunsIff(s: string, word: char -> bool, sep: char -> bool)
    requires Disjoint(word, sep)
    ensures SeparatedRuns(s, word, sep) <==> IsSeparatedRuns(s, word, sep)
  {
    if SeparatedRuns(s, word, sep) {
      SeparatedRunsSound(s, word, sep);
    }
    if IsSeparatedRuns(s, word, sep) {
      SeparatedRunsComplete(s, word, sep);
    }
  }

  lemma {:induction false} SeparatedRunsSound(s: string, word: char -> bool, sep: char -> bool)
    requires SeparatedRuns(s, word, sep)
    ensures IsSeparatedRuns(s, word, sep)
    decreases |s|
  {
    var k :| 0 < k <= |s| && Repeat(s[..k], word, 1, Unbounded)
      && (k == |s| || (sep(s[k]) && SeparatedRuns(s[k + 1..], word, sep)));
    PlusIff(s[..k], word);
    assert forall i | 0 <= i < k :: s[i] == s[..k][i];
    if k < |s| {
      var t := s[k + 1..];
      SeparatedRunsSound(t, word, sep);
      assert forall i | k + 1 <= i < |s| :: s[i] == t[i - k - 1];
      assert word(s[|s| - 1]) by { assert s[|s| - 1] == t[|t| - 1]; }
      forall i | 0 <= i < |s| - 1 ensures word(s[i]) || word(s[i + 1]) {
        if i > k { assert s[i] == t[i - k - 1] && s[i + 1] == t[i - k]; }
      }
    }
  }

  lemma {:induction false} SeparatedRunsComplete(s: string, word: char -> bool, sep: char -> bool)
    requires Disjoint(word, sep)
    requires IsSeparatedRuns(s, word, sep)
    ensures SeparatedRuns(s, word, sep)
    decreases |s|
  {
    var k := LeadingRun(s, word);
    assert forall i | 0 <= i < k :: s[..k][i] == s[i];
    PlusIff(s[..k], word);
    if k < |s| {
      assert sep(s[k]);
      var t := s[k + 1..];
      assert forall i | 0 <= i < |t| :: t[i] == s[i + k + 1];
      assert IsSeparatedRuns(t, word, sep) by {
        assert t[|t| - 1] == s[|s| - 1];
        forall i | 0 <= i < |t| - 1 ensures word(t[i]) || word(t[i + 1]) {
          assert t[i] == s[i + k + 1] && t[i + 1] == s[i + k + 2];
        }
      }
      SeparatedRunsComplete(t, word, sep);
    }
    assert Repeat(s[..k], word, 1, Unbounded)
      && (k == |s| || (sep(s[k]) && SeparatedRuns(s[k + 1..], word, sep)));
  }

  /** Two separated-run strings joined by a separator are again one. */
  lemma SeparatedRunsJoin(a: string, c: char, b: string, word: char -> bool, sep: char -> bool)
    requires IsSeparatedRuns(a, word, sep) && sep(c) && IsSeparatedRuns(b, word, sep)
    ensures IsSeparatedRuns(a + [c] + b, word, sep)
  {
  }

  /** A separated-run string cut at one of its separators falls into two
      separated-run strings. */
  lemma SeparatedRunsSplit(s: string, j: nat, word: char -> bool, sep: char -> bool)
    requires Disjoint(word, sep)
    requires IsSeparatedRuns(s, word, sep) && j < |s| && sep(s[j])
    ensures 0 < j < |s| - 1
    ensures IsSeparatedRuns(s[..j], word, sep) && IsSeparatedRuns(s[j + 1..], word, sep)
  {
  }

  /** On a string without line feeds, `(?=.*X)` at the start holds exactly
      when some character is in X. */
  lemma LookaheadIff(s: string, cls: char -> bool)
    requires AllIn(s, IsNotNewline)
    ensures LookaheadAtStart(s, cls) <==> SomeIn(s, cls)
  {
    if SomeIn(s, cls) {
      var k :| 0 <= k < |s| && cls(s[k]);
      RepeatIff(s[..k], IsNotNewline, 0, Unbounded);
      assert forall i | 0 <= i < k :: s[..k][i] == s[i];
    }
  }
}
