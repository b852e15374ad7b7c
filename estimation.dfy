/** The three frequency-count estimators of HMM_for_OCR.py
    (`calculate_initial_state_probabilities`, `calculate_transition_probabilities`,
    `calculate_emission_probabilities`).

    Each estimator is a method whose loops follow the source's loops, and each is
    proved equal to a pure specification: probability = count / total, dense over
    the alphabets seen in the data, zero where nothing was counted. */
module Estimation {
  import opened ProbabilityTable

  // ---------------------------------------------------------------------------
  // What the estimators count
  // ---------------------------------------------------------------------------

  /** `set(''.join(words))`: every character of every word. */
  function Letters(words: seq<string>): set<char>
  {
    set j, i | 0 <= j < |words| && 0 <= i < |words[j]| :: words[j][i]
  }

  /** The first letter of every word, in order. */
  function Firsts(words: seq<string>): seq<char>
    requires forall j :: 0 <= j < |words| ==> |words[j]| > 0
  {
    seq(|words|, j requires 0 <= j < |words| => words[j][0])
  }

  /** The adjacent letter pairs `(word[i], word[i + 1])` of one word, in order. */
  function WordPairs(w: string): seq<(char, char)>
  {
    seq(if |w| == 0 then 0 else |w| - 1, i requires 0 <= i < |w| - 1 => (w[i], w[i + 1]))
  }

  /** All adjacent pairs inside the words; no pair spans two words. */
  function Transitions(words: seq<string>): seq<(char, char)>
  {
    if |words| == 0 then []
    else Transitions(words[..|words| - 1]) + WordPairs(words[|words| - 1])
  }

  /** The position-by-position pairs (true letter, OCR symbol) of one training pair. */
  function Zip(w: string, o: string): (ps: seq<(char, char)>)
    requires |w| == |o|
  {
    seq(|w|, j requires 0 <= j < |w| => (w[j], o[j]))
  }

  /** What pair `i` contributes to the emission counts: nothing when the lengths differ. */
  function PairEmissions(actual: seq<string>, ocr: seq<string>, i: nat): seq<(char, char)>
    requires i < |actual| <= |ocr|
  {
    if |actual[i]| == |ocr[i]| then Zip(actual[i], ocr[i]) else []
  }

  /** All emissions counted from the first |actual| training pairs. */
  function Emissions(actual: seq<string>, ocr: seq<string>): seq<(char, char)>
    requires |actual| <= |ocr|
  {
    if |actual| == 0 then []
    else Emissions(actual[..|actual| - 1], ocr) + PairEmissions(actual, ocr, |actual| - 1)
  }

  /** The outcomes that followed context `a`, in order. */
  function Followers(ps: seq<(char, char)>, a: char): seq<char>
  {
    if |ps| == 0 then []
    else Followers(ps[..|ps| - 1], a) + (if ps[|ps| - 1].0 == a then [ps[|ps| - 1].1] else [])
  }

  /** The contexts that occur in `ps`. */
  function Contexts(ps: seq<(char, char)>): set<char>
  {
    set p | p in ps :: p.0
  }

  /** The nested count dictionary built by the counting loops. */
  function CountTable(ps: seq<(char, char)>): Table
  {
    map a | a in Contexts(ps) :: CountMap(Followers(ps, a))
  }

  /** One more `(a, b)` pair counted in `t` (lines 33-38 and 77-82). */
  function Tallied(t: Table, a: char, b: char): Table
  {
    var row := if a in t then t[a] else map[];
    t[a := row[b := (if b in row then row[b] else 0.0) + 1.0]]
  }

  // ---------------------------------------------------------------------------
  // The specifications
  // ---------------------------------------------------------------------------

  /** Dense table over rows x cols: for each context, the relative frequency of
      each outcome among the outcomes counted for it; an all-zero row where none was. */
  function TableSpec(ps: seq<(char, char)>, rows: set<char>, cols: set<char>): Table
  {
    map a | a in rows :: Frequencies(Followers(ps, a), cols)
  }

  /** P(first letter = L) = (words starting with L) / (number of words). */
  function InitialSpec(words: seq<string>): Row
    requires forall j :: 0 <= j < |words| ==> |words[j]| > 0
  {
    Frequencies(Firsts(words), Elems(Firsts(words)))
  }

  function TransitionSpec(words: seq<string>): Table
  {
    TableSpec(Transitions(words), Letters(words), Letters(words))
  }

  function EmissionSpec(actual: seq<string>, ocr: seq<string>): Table
    requires |actual| <= |ocr|
  {
    TableSpec(Emissions(actual, ocr), Letters(actual), Letters(ocr))
  }

  // ---------------------------------------------------------------------------
  // The estimators
  // ---------------------------------------------------------------------------

  /** `calculate_initial_state_probabilities`; `word[0]` fails on an empty word. */
  method InitialStateProbabilities(words: seq<string>) returns (probs: Row)
    requires forall j :: 0 <= j < |words| ==> |words[j]| > 0
    ensures probs == InitialSpec(words)
  {
    probs := map[];
    for w := 0 to |words|
      invariant probs == CountMap(Firsts(words[..w]))
    {
      var first := words[w][0];
      CountMapSnoc(Firsts(words[..w]), first);
      assert Firsts(words[..w + 1]) == Firsts(words[..w]) + [first];
      if first !in probs {
        probs := probs[first := 1.0];
      } else {
        probs := probs[first := probs[first] + 1.0];
      }
    }
    assert words[..|words|] == words;
    var totalWords := |words| as real;
    probs := DivideAll(probs, totalWords);
  }

  /** Count one `(a, b)` pair into the nested dictionary. */
  method Tally(t: Table, a: char, b: char) returns (r: Table)
    ensures r == Tallied(t, a, b)
  {
    r := t;
    if a !in r {
      r := r[a := map[]];
    }
    if b !in r[a] {
      r := r[a := r[a][b := 1.0]];
    } else {
      r := r[a := r[a][b := r[a][b] + 1.0]];
    }
  }

  /** The inner loop of `calculate_transition_probabilities` (lines 29-38):
      count every adjacent pair of one word. */
  method CountWordPairs(t: Table, ghost done: seq<(char, char)>, word: string) returns (r: Table)
    requires t == CountTable(done)
    ensures r == CountTable(done + WordPairs(word))
  {
    r := t;
    var i := 0;
    assert done + WordPairs(word)[..0] == done;
    while i < |word| - 1
      invariant 0 <= i <= if |word| == 0 then 0 else |word| - 1
      invariant r == CountTable(done + WordPairs(word)[..i])
    {
      var current, next := word[i], word[i + 1];
      CountTableStep(done, WordPairs(word), i);
      r := Tally(r, current, next);
      i := i + 1;
    }
    assert WordPairs(word)[..i] == WordPairs(word);
  }

  /** `calculate_transition_probabilities`. */
  method TransitionProbabilities(words: seq<string>) returns (probs: Table)
    ensures probs == TransitionSpec(words)
  {
    probs := map[];
    for w := 0 to |words|
      invariant probs == CountTable(Transitions(words[..w]))
    {
      assert words[..w + 1][..w] == words[..w];
      probs := CountWordPairs(probs, Transitions(words[..w]), words[w]);
    }
    assert words[..|words|] == words;
    CountTableRowsNonZero(Transitions(words));
    probs := NormaliseRows(probs);
    var allLetters := Letters(words);
    TransitionsWithin(words);
    probs := ZeroFill(probs, allLetters, allLetters);
    EstimatedTable(Transitions(words), allLetters, allLetters);
  }

  /** The inner loop of `calculate_emission_probabilities` (lines 73-82):
      count every (letter, OCR symbol) pair of one training pair. */
  method CountZip(t: Table, ghost done: seq<(char, char)>, word: string, output: string) returns (r: Table)
    requires |word| == |output|
    requires t == CountTable(done)
    ensures r == CountTable(done + Zip(word, output))
  {
    r := t;
    assert done + Zip(word, output)[..0] == done;
    for j := 0 to |word|
      invariant r == CountTable(done + Zip(word, output)[..j])
    {
      var current, seen := word[j], output[j];
      CountTableStep(done, Zip(word, output), j);
      r := Tally(r, current, seen);
    }
    assert Zip(word, output)[..|word|] == Zip(word, output);
  }

  /** `calculate_emission_probabilities`; `ocr_outputs[i]` must exist for every
      `i < len(actual_words)`. A pair of different lengths is reported and skipped. */
  method EmissionProbabilities(actual: seq<string>, ocr: seq<string>) returns (probs: Table)
    requires |actual| <= |ocr|
    ensures probs == EmissionSpec(actual, ocr)
  {
    probs := map[];
    for i := 0 to |actual|
      invariant probs == CountTable(Emissions(actual[..i], ocr))
    {
      var word, output := actual[i], ocr[i];
      assert actual[..i + 1][..i] == actual[..i];
      assert Emissions(actual[..i + 1], ocr)
          == Emissions(actual[..i], ocr) + PairEmissions(actual, ocr, i);
      if |word| != |output| {
        // the source reports the mismatch on standard output here
        assert Emissions(actual[..i + 1], ocr) == Emissions(actual[..i], ocr);
        continue;
      }
      probs := CountZip(probs, Emissions(actual[..i], ocr), word, output);
    }
    assert actual[..|actual|] == actual;
    CountTableRowsNonZero(Emissions(actual, ocr));
    probs := NormaliseRows(probs);
    var allLetters, allOutputs := Letters(actual), Letters(ocr);
    EmissionsWithin(actual, ocr);
    probs := ZeroFill(probs, allLetters, allOutputs);
    EstimatedTable(Emissions(actual, ocr), allLetters, allOutputs);
  }

  // ---------------------------------------------------------------------------
  // Lemmas connecting the loops to the specifications
  // ---------------------------------------------------------------------------

  lemma {:induction false} FollowersSnoc(ps: seq<(char, char)>, p: (char, char), x: char)
    ensures Followers(ps + [p], x) == Followers(ps, x) + (if p.0 == x then [p.1] else [])
  {
    assert (ps + [p])[..|ps|] == ps;
  }

  /** A context has followers exactly when it occurs. */
  lemma {:induction false} FollowersNonEmpty(ps: seq<(char, char)>, a: char)
    ensures |Followers(ps, a)| > 0 <==> a in Contexts(ps)
  {
    if |ps| > 0 {
      var qs, p := ps[..|ps| - 1], ps[|ps| - 1];
      assert ps == qs + [p];
      FollowersNonEmpty(qs, a);
      FollowersSnoc(qs, p, a);
      assert Contexts(ps) == Contexts(qs) + {p.0};
    }
  }

  /** Every follower of a context is the outcome of some pair. */
  lemma {:induction false} FollowersWithin(ps: seq<(char, char)>, a: char, cols: set<char>)
    requires forall i :: 0 <= i < |ps| ==> ps[i].1 in cols
    ensures forall j :: 0 <= j < |Followers(ps, a)| ==> Followers(ps, a)[j] in cols
  {
    if |ps| > 0 {
      var qs, p := ps[..|ps| - 1], ps[|ps| - 1];
      assert ps == qs + [p];
      FollowersWithin(qs, a, cols);
      FollowersSnoc(qs, p, a);
    }
  }

  /** Counting one more pair is what `Tally` does to the dictionary. */
  lemma CountTableSnoc(ps: seq<(char, char)>, a: char, b: char)
    ensures CountTable(ps + [(a, b)]) == Tallied(CountTable(ps), a, b)
  {
    var u, tallied := CountTable(ps + [(a, b)]), Tallied(CountTable(ps), a, b);
    ContextsSnoc(ps, (a, b));
    assert u.Keys == tallied.Keys by {
      assert tallied.Keys == CountTable(ps).Keys + {a};
    }
    forall x | x in u ensures u[x] == tallied[x] {
      if x == a {
        CountTableSnocSame(ps, a, b);
      } else {
        CountTableSnocOther(ps, a, b, x);
      }
    }
  }

  lemma ContextsSnoc(ps: seq<(char, char)>, p: (char, char))
    ensures Contexts(ps + [p]) == Contexts(ps) + {p.0}
  {
    assert forall q :: q in ps + [p] <==> q in ps || q == p;
  }

  /** One more pair of `ps` counted after `done`. */
  lemma CountTableStep(done: seq<(char, char)>, ps: seq<(char, char)>, j: nat)
    requires j < |ps|
    ensures CountTable(done + ps[..j + 1]) == Tallied(CountTable(done + ps[..j]), ps[j].0, ps[j].1)
  {
    assert done + ps[..j + 1] == done + ps[..j] + [(ps[j].0, ps[j].1)];
    CountTableSnoc(done + ps[..j], ps[j].0, ps[j].1);
  }

  /** The row of the counted context gains one `b`. */
  lemma CountTableSnocSame(ps: seq<(char, char)>, a: char, b: char)
    ensures CountTable(ps + [(a, b)])[a] == Tallied(CountTable(ps), a, b)[a]
  {
    var t := CountTable(ps);
    FollowersSnoc(ps, (a, b), a);
    FollowersNonEmpty(ps, a);
    CountMapSnoc(Followers(ps, a), b);
    if a !in t {
      assert Followers(ps, a) == [];
      assert CountMap([]) == map[];
    }
  }

  /** Every other row is unchanged. */
  lemma CountTableSnocOther(ps: seq<(char, char)>, a: char, b: char, x: char)
    requires x != a && x in CountTable(ps + [(a, b)])
    ensures x in CountTable(ps) && CountTable(ps + [(a, b)])[x] == CountTable(ps)[x]
  {
    var qs := ps + [(a, b)];
    var p :| p in qs && p.0 == x;
    assert p in ps;
    FollowersSnoc(ps, (a, b), x);
    assert Followers(qs, x) == Followers(ps, x);
  }

  /** Every counted row has a non-zero total, so the normalising division is defined. */
  lemma CountTableRowsNonZero(ps: seq<(char, char)>)
    ensures forall a :: a in CountTable(ps) ==> Sum(CountTable(ps)[a]) != 0.0
  {
    forall a | a in CountTable(ps) ensures Sum(CountTable(ps)[a]) != 0.0 {
      SumCountMap(Followers(ps, a));
      FollowersNonEmpty(ps, a);
    }
  }

  /** Count, normalise by row total, zero-fill over rows x cols: that is TableSpec. */
  lemma EstimatedTable(ps: seq<(char, char)>, rows: set<char>, cols: set<char>)
    requires forall i :: 0 <= i < |ps| ==> ps[i].0 in rows && ps[i].1 in cols
    requires forall a :: a in CountTable(ps) ==> Sum(CountTable(ps)[a]) != 0.0
    ensures ZeroFilled(Normalised(CountTable(ps)), rows, cols) == TableSpec(ps, rows, cols)
  {
    var t := CountTable(ps);
    var n := Normalised(t);
    assert Contexts(ps) <= rows;
    var z, spec := ZeroFilled(n, rows, cols), TableSpec(ps, rows, cols);
    forall a | a in rows ensures z[a] == spec[a] {
      EstimatedRow(ps, a, cols);
      if a in t {
        assert n[a] == Divided(t[a], Sum(t[a]));
      }
    }
    assert z.Keys == rows == spec.Keys;
  }

  /** One row of EstimatedTable. */
  lemma EstimatedRow(ps: seq<(char, char)>, a: char, cols: set<char>)
    requires forall i :: 0 <= i < |ps| ==> ps[i].1 in cols
    ensures a in CountTable(ps) ==>
      Sum(CountTable(ps)[a]) != 0.0 &&
      ZeroFilledRow(Divided(CountTable(ps)[a], Sum(CountTable(ps)[a])), cols) == Frequencies(Followers(ps, a), cols)
    ensures a !in CountTable(ps) ==> ZeroFilledRow(map[], cols) == Frequencies(Followers(ps, a), cols)
  {
    var fs := Followers(ps, a);
    FollowersNonEmpty(ps, a);
    FollowersWithin(ps, a, cols);
    if a in CountTable(ps) {
      assert CountTable(ps)[a] == CountMap(fs);
      SumCountMap(fs);
      NormalisedCountsZeroFilled(fs, cols);
    } else {
      assert fs == [];
    }
  }

  lemma {:induction false} LettersPrefix(words: seq<string>, m: nat)
    requires m <= |words|
    ensures Letters(words[..m]) <= Letters(words)
  {
    forall c | c in Letters(words[..m]) ensures c in Letters(words) {
      var j, i :| 0 <= j < m && 0 <= i < |words[j]| && words[..m][j][i] == c;
      assert words[j][i] == c;
    }
  }

  lemma LetterIn(words: seq<string>, j: nat, i: nat)
    requires j < |words| && i < |words[j]|
    ensures words[j][i] in Letters(words)
  {
  }

  /** Both letters of every adjacent pair are letters of the words. */
  lemma {:induction false} TransitionsWithin(words: seq<string>)
    ensures forall i :: 0 <= i < |Transitions(words)| ==>
      Transitions(words)[i].0 in Letters(words) && Transitions(words)[i].1 in Letters(words)
  {
    if |words| > 0 {
      var n := |words| - 1;
      var prefix, w := words[..n], words[n];
      TransitionsWithin(prefix);
      LettersPrefix(words, n);
      forall i | 0 <= i < |WordPairs(w)|
        ensures WordPairs(w)[i].0 in Letters(words) && WordPairs(w)[i].1 in Letters(words)
      {
        LetterIn(words, n, i);
        LetterIn(words, n, i + 1);
      }
    }
  }

  /** Every counted emission pairs a letter of the true words with a symbol of the OCR words. */
  lemma {:induction false} EmissionsWithin(actual: seq<string>, ocr: seq<string>)
    requires |actual| <= |ocr|
    ensures forall i :: 0 <= i < |Emissions(actual, ocr)| ==>
      Emissions(actual, ocr)[i].0 in Letters(actual) && Emissions(actual, ocr)[i].1 in Letters(ocr)
  {
    if |actual| > 0 {
      var n := |actual| - 1;
      EmissionsWithin(actual[..n], ocr);
      LettersPrefix(actual, n);
      var es := PairEmissions(actual, ocr, n);
      forall i | 0 <= i < |es| ensures es[i].0 in Letters(actual) && es[i].1 in Letters(ocr) {
        LetterIn(actual, n, i);
        LetterIn(ocr, n, i);
      }
    }
  }

  // ---------------------------------------------------------------------------
  // What the estimated tables satisfy
  // ---------------------------------------------------------------------------

  /** The number of `b`s that followed `a` is the number of `(a, b)` pairs. */
  lemma {:induction false} FollowersCount(ps: seq<(char, char)>, a: char, b: char)
    ensures Count(Followers(ps, a), b) == multiset(ps)[(a, b)]
  {
    if |ps| > 0 {
      var qs, p := ps[..|ps| - 1], ps[|ps| - 1];
      assert ps == qs + [p];
      FollowersCount(qs, a, b);
      FollowersSnoc(qs, p, a);
      if p.0 == a {
        CountSnoc(Followers(qs, a), p.1, b);
      } else {
        assert Followers(ps, a) == Followers(qs, a);
      }
    }
  }

  /** One row of TableSpec: the relative frequencies of the followers of `a`. */
  lemma FollowerRow(ps: seq<(char, char)>, a: char, cols: set<char>)
    requires forall i :: 0 <= i < |ps| ==> ps[i].1 in cols
    ensures Frequencies(Followers(ps, a), cols).Keys == cols
    ensures forall b :: b in cols ==> 0.0 <= Frequencies(Followers(ps, a), cols)[b] <= 1.0
    ensures |Followers(ps, a)| > 0 <==> a in Contexts(ps)
    ensures a in Contexts(ps) ==> forall b :: b in cols ==>
      Frequencies(Followers(ps, a), cols)[b] == multiset(ps)[(a, b)] as real / |Followers(ps, a)| as real
    ensures a in Contexts(ps) ==> Sum(Frequencies(Followers(ps, a), cols)) == 1.0
    ensures a !in Contexts(ps) ==> forall b :: b in cols ==> Frequencies(Followers(ps, a), cols)[b] == 0.0
  {
    var fs := Followers(ps, a);
    FollowersNonEmpty(ps, a);
    forall b | b in cols ensures 0.0 <= Frequencies(fs, cols)[b] <= 1.0 {
      FrequenciesBounds(fs, cols, b);
    }
    if a in Contexts(ps) {
      forall b | b in cols ensures Frequencies(fs, cols)[b] == multiset(ps)[(a, b)] as real / |fs| as real {
        FollowersCount(ps, a, b);
      }
      FollowersWithin(ps, a, cols);
      FrequenciesSumToOne(fs, cols);
    }
  }

  /** TableSpec is a dense table of probabilities. */
  lemma TableSpecShape(ps: seq<(char, char)>, rows: set<char>, cols: set<char>)
    requires forall i :: 0 <= i < |ps| ==> ps[i].1 in cols
    ensures Dense(TableSpec(ps, rows, cols), rows, cols)
    ensures Bounded(TableSpec(ps, rows, cols))
  {
    var t := TableSpec(ps, rows, cols);
    forall a | a in rows
      ensures t[a].Keys == cols
      ensures forall b :: b in cols ==> 0.0 <= t[a][b] <= 1.0
    {
      FollowerRow(ps, a, cols);
    }
  }

  /** Each entry of TableSpec is the share of `(a, b)` among the pairs with
      context `a`; a row whose context occurs sums to 1 and every other row is
      all zero. */
  lemma TableSpecRows(ps: seq<(char, char)>, rows: set<char>, cols: set<char>)
    requires forall i :: 0 <= i < |ps| ==> ps[i].1 in cols
    ensures forall a :: |Followers(ps, a)| > 0 <==> a in Contexts(ps)
    ensures forall a, b :: a in rows && b in cols && a in Contexts(ps) ==>
      TableSpec(ps, rows, cols)[a][b] == multiset(ps)[(a, b)] as real / |Followers(ps, a)| as real
    ensures forall a :: a in rows && a in Contexts(ps) ==> Sum(TableSpec(ps, rows, cols)[a]) == 1.0
    ensures forall a, b :: a in rows && a !in Contexts(ps) && b in cols ==> TableSpec(ps, rows, cols)[a][b] == 0.0
  {
    var t := TableSpec(ps, rows, cols);
    forall a ensures |Followers(ps, a)| > 0 <==> a in Contexts(ps) {
      FollowersNonEmpty(ps, a);
    }
    forall a | a in rows
      ensures a in Contexts(ps) ==> forall b :: b in cols ==>
        t[a][b] == multiset(ps)[(a, b)] as real / |Followers(ps, a)| as real
      ensures a in Contexts(ps) ==> Sum(t[a]) == 1.0
      ensures a !in Contexts(ps) ==> forall b :: b in cols ==> t[a][b] == 0.0
    {
      FollowerRow(ps, a, cols);
    }
  }

  /** The letters that occur somewhere other than at the end of a word. */
  function NonFinal(words: seq<string>): set<char>
  {
    set j, i | 0 <= j < |words| && 0 <= i < |words[j]| - 1 :: words[j][i]
  }

  lemma ContextsAppend(ps: seq<(char, char)>, qs: seq<(char, char)>)
    ensures Contexts(ps + qs) == Contexts(ps) + Contexts(qs)
  {
    assert forall p :: p in ps + qs <==> p in ps || p in qs;
  }

  /** The letters of `w` at every position but the last. */
  function NonFinalOf(w: string): set<char>
  {
    set i | 0 <= i < |w| - 1 :: w[i]
  }

  /** The first letters of the adjacent pairs of one word: all but its last letter. */
  lemma WordPairContexts(w: string)
    ensures Contexts(WordPairs(w)) == NonFinalOf(w)
  {
    var ps := WordPairs(w);
    forall c | c in Contexts(ps) ensures c in NonFinalOf(w) {
      var p :| p in ps && p.0 == c;
      var i :| 0 <= i < |ps| && ps[i] == p;
      assert ps[i] == (w[i], w[i + 1]);
    }
    forall c | c in NonFinalOf(w) ensures c in Contexts(ps) {
      var i :| 0 <= i < |w| - 1 && w[i] == c;
      assert ps[i] == (w[i], w[i + 1]);
      assert ps[i] in ps;
    }
  }

  /** NonFinal of the words with one more word appended. */
  lemma NonFinalSnoc(words: seq<string>)
    requires |words| > 0
    ensures NonFinal(words) == NonFinal(words[..|words| - 1]) + NonFinalOf(words[|words| - 1])
  {
    var n := |words| - 1;
    var prefix, w := words[..n], words[n];
    forall c | c in NonFinal(words) ensures c in NonFinal(prefix) || c in NonFinalOf(w) {
      var j, i :| 0 <= j < |words| && 0 <= i < |words[j]| - 1 && words[j][i] == c;
      if j < n {
        assert prefix[j][i] == c;
      }
    }
    forall c | c in NonFinal(prefix) ensures c in NonFinal(words) {
      var j, i :| 0 <= j < n && 0 <= i < |prefix[j]| - 1 && prefix[j][i] == c;
      assert words[j][i] == c;
    }
    forall c | c in NonFinalOf(w) ensures c in NonFinal(words) {
      var i :| 0 <= i < |w| - 1 && w[i] == c;
      assert words[n][i] == c;
    }
  }

  /** A letter is the first of some adjacent pair exactly when it occurs before the end of a word. */
  lemma {:induction false} TransitionContexts(words: seq<string>)
    ensures Contexts(Transitions(words)) == NonFinal(words)
  {
    if |words| > 0 {
      var n := |words| - 1;
      TransitionContexts(words[..n]);
      ContextsAppend(Transitions(words[..n]), WordPairs(words[n]));
      WordPairContexts(words[n]);
      NonFinalSnoc(words);
    }
  }

  /** `calculate_transition_probabilities` returns a dense table over the letters of
      the words; entry (a, b) is the number of `ab` pairs over the number of pairs
      starting with `a`; a letter that occurs before the end of some word has a row
      summing to 1, a letter that only ever ends words has an all-zero row. */
  lemma TransitionProperties(words: seq<string>)
    ensures Dense(TransitionSpec(words), Letters(words), Letters(words))
    ensures Bounded(TransitionSpec(words))
    ensures forall a :: |Followers(Transitions(words), a)| > 0 <==> a in NonFinal(words)
    ensures forall a, b :: a in NonFinal(words) && b in Letters(words) ==>
      TransitionSpec(words)[a][b]
        == multiset(Transitions(words))[(a, b)] as real / |Followers(Transitions(words), a)| as real
    ensures forall a :: a in NonFinal(words) ==> Sum(TransitionSpec(words)[a]) == 1.0
    ensures forall a, b :: a in Letters(words) && a !in NonFinal(words) && b in Letters(words) ==>
      TransitionSpec(words)[a][b] == 0.0
  {
    TransitionsWithin(words);
    TransitionContexts(words);
    TableSpecShape(Transitions(words), Letters(words), Letters(words));
    TableSpecRows(Transitions(words), Letters(words), Letters(words));
    assert NonFinal(words) <= Letters(words);
  }

  /** The first letters of the words. */
  function FirstLetters(words: seq<string>): set<char>
    requires forall j :: 0 <= j < |words| ==> |words[j]| > 0
  {
    set j | 0 <= j < |words| :: words[j][0]
  }

  /** `calculate_initial_state_probabilities` has a key for exactly the first
      letters; each value is the share of words starting with that letter, in
      (0, 1]; the values sum to 1 whenever there is a word. */
  lemma InitialProperties(words: seq<string>)
    requires forall j :: 0 <= j < |words| ==> |words[j]| > 0
    ensures InitialSpec(words).Keys == FirstLetters(words)
    ensures forall c :: c in InitialSpec(words) ==>
      |words| > 0 && InitialSpec(words)[c] == multiset(Firsts(words))[c] as real / |words| as real
    ensures forall c :: c in InitialSpec(words) ==> 0.0 < InitialSpec(words)[c] <= 1.0
    ensures |words| > 0 ==> Sum(InitialSpec(words)) == 1.0
  {
    var fs := Firsts(words);
    var spec := InitialSpec(words);
    forall c | c in FirstLetters(words) ensures c in Elems(fs) {
      var j :| 0 <= j < |words| && words[j][0] == c;
      assert fs[j] == c;
    }
    forall c | c in Elems(fs) ensures c in FirstLetters(words) {
      var j :| 0 <= j < |fs| && fs[j] == c;
      assert words[j][0] == c;
    }
    forall c | c in spec
      ensures |words| > 0 && spec[c] == multiset(fs)[c] as real / |words| as real
      ensures 0.0 < spec[c] <= 1.0
    {
      CountIsMultiplicity(fs, c);
      FrequenciesBounds(fs, Elems(fs), c);
    }
    if |words| > 0 {
      FrequenciesSumToOne(fs, Elems(fs));
    }
  }

  /** The letters of the true words that take part in a pair of equal lengths. */
  function Aligned(actual: seq<string>, ocr: seq<string>): set<char>
    requires |actual| <= |ocr|
  {
    set i, j | 0 <= i < |actual| && |actual[i]| == |ocr[i]| && 0 <= j < |actual[i]| :: actual[i][j]
  }

  /** The letters of one word. */
  function LettersOf(w: string): set<char>
  {
    set j | 0 <= j < |w| :: w[j]
  }

  lemma ZipContexts(w: string, o: string)
    requires |w| == |o|
    ensures Contexts(Zip(w, o)) == LettersOf(w)
  {
    var ps := Zip(w, o);
    forall c | c in Contexts(ps) ensures c in LettersOf(w) {
      var p :| p in ps && p.0 == c;
      var j :| 0 <= j < |ps| && ps[j] == p;
      assert ps[j] == (w[j], o[j]);
    }
    forall c | c in LettersOf(w) ensures c in Contexts(ps) {
      var j :| 0 <= j < |w| && w[j] == c;
      assert ps[j] == (w[j], o[j]);
      assert ps[j] in ps;
    }
  }

  /** Aligned of the pairs with one more true word. */
  lemma AlignedSnoc(actual: seq<string>, ocr: seq<string>)
    requires 0 < |actual| <= |ocr|
    ensures var n := |actual| - 1;
      Aligned(actual, ocr) == Aligned(actual[..n], ocr)
        + (if |actual[n]| == |ocr[n]| then LettersOf(actual[n]) else {})
  {
    var n := |actual| - 1;
    var prefix := actual[..n];
    var last := if |actual[n]| == |ocr[n]| then LettersOf(actual[n]) else {};
    forall c | c in Aligned(actual, ocr) ensures c in Aligned(prefix, ocr) || c in last {
      var i, j :| 0 <= i < |actual| && |actual[i]| == |ocr[i]| && 0 <= j < |actual[i]| && actual[i][j] == c;
      if i < n {
        assert prefix[i][j] == c;
      }
    }
    forall c | c in Aligned(prefix, ocr) ensures c in Aligned(actual, ocr) {
      var i, j :| 0 <= i < n && |prefix[i]| == |ocr[i]| && 0 <= j < |prefix[i]| && prefix[i][j] == c;
      assert actual[i][j] == c;
    }
    forall c | c in last ensures c in Aligned(actual, ocr) {
      var j :| 0 <= j < |actual[n]| && actual[n][j] == c;
    }
  }

  /** A letter has counted emissions exactly when it occurs in a pair of equal lengths. */
  lemma {:induction false} EmissionContexts(actual: seq<string>, ocr: seq<string>)
    requires |actual| <= |ocr|
    ensures Contexts(Emissions(actual, ocr)) == Aligned(actual, ocr)
  {
    if |actual| > 0 {
      var n := |actual| - 1;
      EmissionContexts(actual[..n], ocr);
      ContextsAppend(Emissions(actual[..n], ocr), PairEmissions(actual, ocr, n));
      if |actual[n]| == |ocr[n]| {
        ZipContexts(actual[n], ocr[n]);
      }
      AlignedSnoc(actual, ocr);
    }
  }

  /** `calculate_emission_probabilities` returns a dense table over the letters of
      the true words and the symbols of all OCR words; entry (a, b) is the number
      of times `a` was read as `b` over the number of counted occurrences of `a`;
      a letter seen in a pair of equal lengths has a row summing to 1, a letter
      seen only in skipped pairs has an all-zero row. */
  lemma EmissionProperties(actual: seq<string>, ocr: seq<string>)
    requires |actual| <= |ocr|
    ensures Dense(EmissionSpec(actual, ocr), Letters(actual), Letters(ocr))
    ensures Bounded(EmissionSpec(actual, ocr))
    ensures forall a :: |Followers(Emissions(actual, ocr), a)| > 0 <==> a in Aligned(actual, ocr)
    ensures forall a, b :: a in Aligned(actual, ocr) && b in Letters(ocr) ==>
      EmissionSpec(actual, ocr)[a][b]
        == multiset(Emissions(actual, ocr))[(a, b)] as real / |Followers(Emissions(actual, ocr), a)| as real
    ensures forall a :: a in Aligned(actual, ocr) ==> Sum(EmissionSpec(actual, ocr)[a]) == 1.0
    ensures forall a, b :: a in Letters(actual) && a !in Aligned(actual, ocr) && b in Letters(ocr) ==>
      EmissionSpec(actual, ocr)[a][b] == 0.0
  {
    EmissionsWithin(actual, ocr);
    EmissionContexts(actual, ocr);
    TableSpecShape(Emissions(actual, ocr), Letters(actual), Letters(ocr));
    TableSpecRows(Emissions(actual, ocr), Letters(actual), Letters(ocr));
    assert Aligned(actual, ocr) <= Letters(actual);
  }

  /** `s` without its element at `i`. */
  function Without(s: seq<string>, i: nat): (r: seq<string>)
    requires i < |s|
    ensures |r| == |s| - 1
  {
    s[..i] + s[i + 1..]
  }

  /** The emissions of the first |actual| pairs read only the first |actual| OCR words. */
  lemma {:induction false} EmissionsOcrPrefix(actual: seq<string>, ocr: seq<string>, ocr': seq<string>)
    requires |actual| <= |ocr| && |actual| <= |ocr'|
    requires forall k :: 0 <= k < |actual| ==> ocr[k] == ocr'[k]
    ensures Emissions(actual, ocr) == Emissions(actual, ocr')
  {
    if |actual| > 0 {
      EmissionsOcrPrefix(actual[..|actual| - 1], ocr, ocr');
    }
  }

  /** A training pair of different lengths contributes nothing: the counted
      emissions are those of the training data with that pair removed. */
  lemma {:induction false} EmissionsSkipMismatch(actual: seq<string>, ocr: seq<string>, i: nat)
    requires |actual| <= |ocr| && i < |actual| && |actual[i]| != |ocr[i]|
    ensures Emissions(actual, ocr) == Emissions(Without(actual, i), Without(ocr, i))
  {
    var n := |actual| - 1;
    var a', o' := Without(actual, i), Without(ocr, i);
    if i == n {
      assert a' == actual[..n];
      EmissionsOcrPrefix(actual[..n], ocr, o');
    } else {
      EmissionsSkipMismatch(actual[..n], ocr, i);
      EmissionsSkipLast(actual, ocr, i);
    }
  }

  /** Removing pair `i` leaves the emissions of the first |actual| pairs unchanged. */
  predicate SkipsPair(actual: seq<string>, ocr: seq<string>, i: nat)
    requires |actual| <= |ocr| && i < |actual|
  {
    Emissions(actual, ocr) == Emissions(Without(actual, i), Without(ocr, i))
  }

  /** The step of the induction above: a pair after the skipped one is counted
      in both. */
  lemma EmissionsSkipLast(actual: seq<string>, ocr: seq<string>, i: nat)
    requires |actual| <= |ocr| && i < |actual| - 1
    requires SkipsPair(actual[..|actual| - 1], ocr, i)
    ensures SkipsPair(actual, ocr, i)
  {
    var n := |actual| - 1;
    var a', o' := Without(actual, i), Without(ocr, i);
    WithoutPrefix(actual, i);
    WithoutAfter(actual, i, n - 1);
    WithoutAfter(ocr, i, n - 1);
    EmissionsSnocEqual(actual, ocr, a', o', n, n - 1, Without(actual[..n], i));
  }

  /** Equal emissions before the last pairs and equal last pairs give equal emissions. */
  lemma EmissionsSnocEqual(actual: seq<string>, ocr: seq<string>, actual': seq<string>, ocr': seq<string>,
                           n: nat, m: nat, prefix': seq<string>)
    requires |actual| == n + 1 <= |ocr| && |actual'| == m + 1 <= |ocr'|
    requires actual'[..m] == prefix' && Emissions(actual[..n], ocr) == Emissions(prefix', ocr')
    requires actual[n] == actual'[m] && ocr[n] == ocr'[m]
    ensures Emissions(actual, ocr) == Emissions(actual', ocr')
  {
    EmissionsSnoc(actual, ocr);
    EmissionsSnoc(actual', ocr');
  }

  /** The last training pair's emissions come last. */
  lemma EmissionsSnoc(actual: seq<string>, ocr: seq<string>)
    requires 1 <= |actual| <= |ocr|
    ensures Emissions(actual, ocr)
         == Emissions(actual[..|actual| - 1], ocr) + PairEmissions(actual, ocr, |actual| - 1)
  {
  }

  /** Past `i`, the elements move down by one. */
  lemma WithoutAfter(s: seq<string>, i: nat, k: nat)
    requires i <= k < |s| - 1
    ensures Without(s, i)[k] == s[k + 1]
  {
  }

  /** Dropping the last element and element `i` commute. */
  lemma WithoutPrefix(s: seq<string>, i: nat)
    requires i < |s| - 1
    ensures Without(s, i)[..|s| - 2] == Without(s[..|s| - 1], i)
  {
  }
}
