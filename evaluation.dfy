/** The per-word correction count of the evaluation loop of HMM_for_OCR.py
    (lines 209-211): for every position of the OCR reading, count it when the
    OCR letter was wrong and the decoded word has the true letter there.

    The loop as written indexes the true word and the decoded word without a
    bound check; `CountUpTo` models it with its Python failure (IndexError) as a
    result value. `CorrectedUpTo` is the count the comment above the loop
    describes, with positions past either word counting as not corrected. */
module Evaluation {
  import opened ProbabilityTable
  import opened Decoder
  import opened Estimation

  /** The outcome of the loop for one test word: a count, or an IndexError. */
  datatype Corrections = Corrected(count: nat) | IndexOutOfRange

  // ---------------------------------------------------------------------------
  // The loop as written
  // ---------------------------------------------------------------------------

  /** The first `n` positions of the loop as written. `and` short-circuits:
      `actual[j]` is always read, `best[j]` only when the OCR letter is wrong. */
  function CountUpTo(word: string, actual: string, best: string, n: nat): Corrections
    requires n <= |word|
  {
    if n == 0 then Corrected(0)
    else
      var j := n - 1;
      match CountUpTo(word, actual, best, j)
      case IndexOutOfRange => IndexOutOfRange
      case Corrected(k) =>
        if j >= |actual| then IndexOutOfRange
        else if word[j] == actual[j] then Corrected(k)
        else if j >= |best| then IndexOutOfRange
        else if actual[j] == best[j] then Corrected(k + 1)
        else Corrected(k)
  }

  /** Position `j` makes the loop as written fail. */
  predicate FailsAt(word: string, actual: string, best: string, j: int)
    requires 0 <= j < |word|
  {
    j >= |actual| || (word[j] != actual[j] && j >= |best|)
  }

  /** The loop for one test word (lines 209-211), stopping at the first IndexError. */
  method CountCorrections(word: string, actual: string, best: string) returns (r: Corrections)
    ensures r == CountUpTo(word, actual, best, |word|)
  {
    var mismatched := 0;
    for j := 0 to |word|
      invariant CountUpTo(word, actual, best, j) == Corrected(mismatched)
    {
      if j >= |actual| {
        FailureSticks(word, actual, best, j + 1, |word|);
        return IndexOutOfRange;
      }
      if word[j] != actual[j] {
        if j >= |best| {
          FailureSticks(word, actual, best, j + 1, |word|);
          return IndexOutOfRange;
        }
        if actual[j] == best[j] {
          mismatched := mismatched + 1;
        }
      }
    }
    r := Corrected(mismatched);
  }

  /** Once the loop has failed, it stays failed. */
  lemma {:induction false} FailureSticks(word: string, actual: string, best: string, m: nat, n: nat)
    requires m <= n <= |word| && CountUpTo(word, actual, best, m) == IndexOutOfRange
    ensures CountUpTo(word, actual, best, n) == IndexOutOfRange
    decreases n - m
  {
    if m < n {
      FailureSticks(word, actual, best, m + 1, n);
    }
  }

  /** The loop as written fails exactly when some position makes it fail. */
  lemma {:induction false} FailsIff(word: string, actual: string, best: string, n: nat)
    requires n <= |word|
    ensures CountUpTo(word, actual, best, n) == IndexOutOfRange <==>
      exists j :: 0 <= j < n && FailsAt(word, actual, best, j)
  {
    if n > 0 {
      FailsIff(word, actual, best, n - 1);
      if FailsAt(word, actual, best, n - 1) {
        assert CountUpTo(word, actual, best, n) == IndexOutOfRange;
      } else {
        assert (exists j :: 0 <= j < n && FailsAt(word, actual, best, j)) <==>
               (exists j :: 0 <= j < n - 1 && FailsAt(word, actual, best, j));
      }
    }
  }

  // ---------------------------------------------------------------------------
  // The count as intended
  // ---------------------------------------------------------------------------

  /** Position `j` was wrong in the OCR reading and is right in the decoded word. */
  predicate CorrectedAt(word: string, actual: string, best: string, j: int)
    requires 0 <= j < |word|
  {
    j < |actual| && j < |best| && word[j] != actual[j] && actual[j] == best[j]
  }

  /** The number of corrected positions among the first `n`. */
  function CorrectedUpTo(word: string, actual: string, best: string, n: nat): nat
    requires n <= |word|
  {
    if n == 0 then 0
    else CorrectedUpTo(word, actual, best, n - 1) + (if CorrectedAt(word, actual, best, n - 1) then 1 else 0)
  }

  /** The number of positions among the first `n` where the OCR letter is wrong. */
  function WrongUpTo(word: string, actual: string, n: nat): nat
    requires n <= |word|
  {
    if n == 0 then 0
    else WrongUpTo(word, actual, n - 1) + (if n - 1 < |actual| && word[n - 1] != actual[n - 1] then 1 else 0)
  }

  /** The loop with the two bound checks the data needs. */
  method CountCorrected(word: string, actual: string, best: string) returns (mismatched: nat)
    ensures mismatched == CorrectedUpTo(word, actual, best, |word|)
  {
    mismatched := 0;
    for j := 0 to |word|
      invariant mismatched == CorrectedUpTo(word, actual, best, j)
    {
      if j < |actual| && j < |best| && word[j] != actual[j] && actual[j] == best[j] {
        mismatched := mismatched + 1;
      }
    }
  }

  /** Where the loop as written does not fail, it computes the intended count. */
  lemma {:induction false} CorrectedAgrees(word: string, actual: string, best: string, n: nat)
    requires n <= |word| && CountUpTo(word, actual, best, n) != IndexOutOfRange
    ensures CountUpTo(word, actual, best, n) == Corrected(CorrectedUpTo(word, actual, best, n))
  {
    if n > 0 {
      CorrectedAgrees(word, actual, best, n - 1);
    }
  }

  /** Only a wrong letter can be corrected, and the empty word corrects nothing. */
  lemma {:induction false} CorrectedBounds(word: string, actual: string, best: string, n: nat)
    requires n <= |word|
    ensures CorrectedUpTo(word, actual, best, n) <= WrongUpTo(word, actual, n)
    ensures best == "" ==> CorrectedUpTo(word, actual, best, n) == 0
    ensures best == actual ==> CorrectedUpTo(word, actual, best, n) == WrongUpTo(word, actual, n)
  {
    if n > 0 {
      CorrectedBounds(word, actual, best, n - 1);
    }
  }

  // ---------------------------------------------------------------------------
  // The sentinel "" reaches the loop
  // ---------------------------------------------------------------------------

  /** A table in which OCR symbol 'B' was never emitted by any letter: every
      state has a positive initial probability and an all-zero column for 'B'. */
  function SilentI(): Row
  {
    map c | IsState(c) :: 1.0
  }

  function SilentE(): Table
  {
    map c | IsState(c) :: map['B' := 0.0]
  }

  /** Reading "B" with these tables: every path scores 0, so `most_probable_word`
      returns "", and the loop as written, comparing with the true word "A",
      reads `best_word[0]` of "" and fails. The intended count is 0. */
  lemma SentinelFails()
    ensures Decodable("B", SilentI(), map[], SilentE())
    ensures DecodedWord("B", SilentI(), map[], SilentE()) == ""
    ensures CountUpTo("B", "A", DecodedWord("B", SilentI(), map[], SilentE()), 1) == IndexOutOfRange
    ensures CorrectedUpTo("B", "A", DecodedWord("B", SilentI(), map[], SilentE()), 1) == 0
  {
    var obs, I, T, E := "B", SilentI(), map[], SilentE();
    assert Decodable(obs, I, T, E) by {
      assert forall k :: 0 <= k < |obs| ==> obs[k] == 'B';
    }
    assert NonNegative(T, E);
    forall h | IsPath(h, obs) ensures Score(h, obs, I, T, E) <= 0.0 {
      assert Emits(E, obs[0]);
      assert Score(h, obs, I, T, E) == Begin(I, E, h[0], obs[0]);
    }
    DecodeOptimal(obs, I, T, E);
  }

  // ---------------------------------------------------------------------------
  // From the estimated tables to the decoder
  // ---------------------------------------------------------------------------

  /** The estimated tables meet the decoder's requirements when every state
      starts a training word and is a letter of the true words, and every symbol
      of the reading occurs in the OCR outputs. */
  lemma EstimatesDecodable(words: seq<string>, actual: seq<string>, ocr: seq<string>, obs: string)
    requires forall j :: 0 <= j < |words| ==> |words[j]| > 0
    requires |actual| <= |ocr|
    requires forall c :: IsState(c) ==> c in FirstLetters(words) && c in Letters(actual)
    requires |obs| >= 1 && forall k :: 0 <= k < |obs| ==> obs[k] in Letters(ocr)
    ensures NonNegative(TransitionSpec(words), EmissionSpec(actual, ocr))
    ensures Decodable(obs, InitialSpec(words), TransitionSpec(words), EmissionSpec(actual, ocr))
  {
    InitialReady(words);
    TransitionReady(words);
    EmissionReady(actual, ocr, obs);
  }

  lemma InitialReady(words: seq<string>)
    requires forall j :: 0 <= j < |words| ==> |words[j]| > 0
    requires forall c :: IsState(c) ==> c in FirstLetters(words)
    ensures forall c :: IsState(c) ==> c in InitialSpec(words)
  {
    InitialProperties(words);
  }

  /** Every state starts a training word, so every pair of states has an
      estimated transition probability, and none is negative. */
  lemma TransitionReady(words: seq<string>)
    requires forall j :: 0 <= j < |words| ==> |words[j]| > 0
    requires forall c :: IsState(c) ==> c in FirstLetters(words)
    ensures Connected(TransitionSpec(words))
    ensures forall p, c :: p in TransitionSpec(words) && c in TransitionSpec(words)[p] ==>
      TransitionSpec(words)[p][c] >= 0.0
  {
    forall c | IsState(c) ensures c in Letters(words) {
      var j :| 0 <= j < |words| && words[j][0] == c;
      assert words[j][0] in Letters(words);
    }
    TransitionProperties(words);
  }

  /** Every state is a true letter and every symbol of the reading an OCR
      symbol, so every emission the decoder looks up exists, and none is negative. */
  lemma EmissionReady(actual: seq<string>, ocr: seq<string>, obs: string)
    requires |actual| <= |ocr|
    requires forall c :: IsState(c) ==> c in Letters(actual)
    requires forall k :: 0 <= k < |obs| ==> obs[k] in Letters(ocr)
    ensures forall k :: 0 <= k < |obs| ==> Emits(EmissionSpec(actual, ocr), obs[k])
    ensures forall c, o :: c in EmissionSpec(actual, ocr) && o in EmissionSpec(actual, ocr)[c] ==>
      EmissionSpec(actual, ocr)[c][o] >= 0.0
  {
    EmissionProperties(actual, ocr);
  }

  /** An OCR symbol that no pair of equal lengths ever produced has an all-zero
      emission column, so a reading ending in it decodes to "", and a wrong
      letter then makes line 210 read past the end of the decoded word. Such a
      symbol arises when it occurs only in training pairs skipped at line 71. */
  lemma UnseenSymbolFails(words: seq<string>, actual: seq<string>, ocr: seq<string>, obs: string, truth: string)
    requires forall j :: 0 <= j < |words| ==> |words[j]| > 0
    requires |actual| <= |ocr|
    requires forall c :: IsState(c) ==> c in FirstLetters(words) && c in Letters(actual)
    requires |obs| >= 1 && forall k :: 0 <= k < |obs| ==> obs[k] in Letters(ocr)
    requires forall k :: 0 <= k < |Emissions(actual, ocr)| ==> Emissions(actual, ocr)[k].1 != obs[|obs| - 1]
    requires |truth| >= 1 && truth[0] != obs[0]
    ensures Decodable(obs, InitialSpec(words), TransitionSpec(words), EmissionSpec(actual, ocr))
    ensures DecodedWord(obs, InitialSpec(words), TransitionSpec(words), EmissionSpec(actual, ocr)) == ""
    ensures CountUpTo(obs, truth, DecodedWord(obs, InitialSpec(words), TransitionSpec(words), EmissionSpec(actual, ocr)), 1)
      == IndexOutOfRange
  {
    var I, T, E := InitialSpec(words), TransitionSpec(words), EmissionSpec(actual, ocr);
    EstimatesDecodable(words, actual, ocr, obs);
    SilentColumn(actual, ocr, obs[|obs| - 1]);
    SilentReading(obs, I, T, E);
  }

  /** A reading whose last symbol no state emits decodes to "". */
  lemma SilentReading(obs: string, I: Row, T: Table, E: Table)
    requires Decodable(obs, I, T, E) && NonNegative(T, E)
    requires Emits(E, obs[|obs| - 1]) && forall c :: IsState(c) ==> E[c][obs[|obs| - 1]] == 0.0
    ensures DecodedWord(obs, I, T, E) == ""
  {
    forall h | IsPath(h, obs) ensures Score(h, obs, I, T, E) <= 0.0 {
      SilentScore(obs, I, T, E, h);
    }
    DecodeOptimal(obs, I, T, E);
  }

  lemma SilentScore(obs: string, I: Row, T: Table, E: Table, h: string)
    requires Decodable(obs, I, T, E) && IsPath(h, obs)
    requires Emits(E, obs[|obs| - 1]) && forall c :: IsState(c) ==> E[c][obs[|obs| - 1]] == 0.0
    ensures Score(h, obs, I, T, E) == 0.0
  {
    var n, o := |h|, obs[|obs| - 1];
    assert E[h[n - 1]][o] == 0.0;
    if n > 1 {
      DecodablePrefix(obs, I, T, E, n - 1);
      var s := Score(h[..n - 1], obs[..n - 1], I, T, E);
      assert Score(h, obs, I, T, E) == Carry(s, T, E, h[n - 2], h[n - 1], o);
    }
  }

  /** A symbol of the OCR outputs that no counted pair has as its reading has
      probability 0 under every true letter. */
  lemma SilentColumn(actual: seq<string>, ocr: seq<string>, o: char)
    requires |actual| <= |ocr| && o in Letters(ocr)
    requires forall k :: 0 <= k < |Emissions(actual, ocr)| ==> Emissions(actual, ocr)[k].1 != o
    ensures forall c :: c in Letters(actual) ==> EmissionSpec(actual, ocr)[c][o] == 0.0
  {
    var ps := Emissions(actual, ocr);
    assert forall c :: (c, o) !in ps;
    EmissionProperties(actual, ocr);
    forall c | c in Letters(actual) ensures EmissionSpec(actual, ocr)[c][o] == 0.0 {
      var E := EmissionSpec(actual, ocr);
      if c in Aligned(actual, ocr) {
        var f := |Followers(ps, c)| as real;
        assert E[c][o] == multiset(ps)[(c, o)] as real / f;
        assert multiset(ps)[(c, o)] == 0;
        RatioBounds(0.0, f);
      } else {
        assert E[c][o] == 0.0;
      }
    }
  }
}
