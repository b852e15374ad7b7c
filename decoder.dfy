/** `viterbi` and `most_probable_word` of HMM_for_OCR.py.

    The decoder's dictionary letter -> [path, probability] is a map from the 26
    hidden states 'A'..'Z' to an Entry, built in the order of `States`.
    `ViterbiSpec` is the recursion of the source written as a function;
    `Viterbi` is the source's recursive procedure with its two nested loops. */
module Decoder {
  import opened ProbabilityTable

  /** The hidden states, in the order the source builds its dictionary. */
  const States: string := "ABCDEFGHIJKLMNOPQRSTUVWXYZ"

  /** `chr(letter) for letter in range(ord('A'), ord('Z') + 1)`. */
  predicate IsState(c: char)
  {
    'A' <= c <= 'Z'
  }

  /** The `j`-th state: `chr(ord('A') + j)`. */
  function State(j: int): char
    requires 0 <= j < 26
  {
    (65 + j) as char
  }

  /** `States` lists every state once, in code-point order. */
  lemma StateAt()
    ensures |States| == 26
    ensures forall i :: 0 <= i < 26 ==> States[i] == State(i) && IsState(States[i])
  {
    assert forall i :: 0 <= i < 26 ==> States[i] as int == 65 + i;
  }

  function StateSet(): set<char>
  {
    set c | IsState(c)
  }

  /** The value the source keeps per letter: the best path found and its probability. */
  datatype Entry = Entry(path: string, prob: real)

  /** Letter -> entry, as built by `viterbi`. */
  type Trellis = map<char, Entry>

  /** What `viterbi` looks up must be there: an initial probability and an
      emission row for every state, holding every observed symbol, and, once
      there is a second symbol, a transition for every pair of states.
      An empty reading recurses without end in the source. */
  predicate Decodable(obs: string, I: Row, T: Table, E: Table)
  {
    |obs| >= 1 &&
    (forall c :: IsState(c) ==> c in I) &&
    (forall k :: 0 <= k < |obs| ==> Emits(E, obs[k])) &&
    (|obs| >= 2 ==> Connected(T))
  }

  /** Every state has an emission probability for symbol `o`. */
  predicate Emits(E: Table, o: char)
  {
    forall c :: IsState(c) ==> c in E && o in E[c]
  }

  /** Every pair of states has a transition probability. */
  predicate Connected(T: Table)
  {
    forall p, c :: IsState(p) && IsState(c) ==> p in T && c in T[p]
  }

  lemma DecodablePrefix(obs: string, I: Row, T: Table, E: Table, m: nat)
    requires Decodable(obs, I, T, E) && 1 <= m <= |obs|
    ensures Decodable(obs[..m], I, T, E)
  {
    assert forall k :: 0 <= k < m ==> obs[..m][k] == obs[k];
  }

  /** The transition and emission tables hold no negative probability. */
  predicate NonNegative(T: Table, E: Table)
  {
    (forall p, c :: p in T && c in T[p] ==> T[p][c] >= 0.0) &&
    (forall c, o :: c in E && o in E[c] ==> E[c][o] >= 0.0)
  }

  /** A path through the states, one per observed symbol. */
  predicate IsPath(h: string, obs: string)
  {
    |h| == |obs| && forall i :: 0 <= i < |h| ==> IsState(h[i])
  }

  /** A probability carried from state `p` into state `c` on symbol `o`:
      times the transition and times the emission. */
  function Carry(prob: real, T: Table, E: Table, p: char, c: char, o: char): real
    requires p in T && c in T[p] && c in E && o in E[c]
  {
    prob * T[p][c] * E[c][o]
  }

  /** The probability of starting in state `c` and emitting `o` there. */
  function Begin(I: Row, E: Table, c: char, o: char): real
    requires c in I && c in E && o in E[c]
  {
    I[c] * E[c][o]
  }

  /** The probability the model gives to hidden path `h` and observation `obs`:
      initial x emission, then transition x emission for every further symbol,
      multiplied from the left as the source does. */
  function Score(h: string, obs: string, I: Row, T: Table, E: Table): real
    requires Decodable(obs, I, T, E) && IsPath(h, obs)
    decreases |h|
  {
    var n := |h|;
    assert Emits(E, obs[n - 1]);
    if n == 1 then Begin(I, E, h[0], obs[0])
    else
      DecodablePrefix(obs, I, T, E, n - 1);
      Carry(Score(h[..n - 1], obs[..n - 1], I, T, E), T, E, h[n - 2], h[n - 1], obs[n - 1])
  }

  // ---------------------------------------------------------------------------
  // The first strictly best entry
  // ---------------------------------------------------------------------------

  /** The running maximum of both `viterbi`'s inner loop and `most_probable_word`:
      start from ("", 0) and take an entry only when its probability is strictly
      greater than the best so far. */
  function Best(es: seq<Entry>): Entry
  {
    if |es| == 0 then Entry("", 0.0)
    else
      var b := Best(es[..|es| - 1]);
      if es[|es| - 1].prob > b.prob then es[|es| - 1] else b
  }

  /** Entry `k` is positive, strictly more probable than every earlier entry and
      at least as probable as every entry. */
  predicate FirstMaximal(es: seq<Entry>, k: int)
  {
    0 <= k < |es| && es[k].prob > 0.0 &&
    (forall i :: 0 <= i < k ==> es[i].prob < es[k].prob) &&
    (forall i :: 0 <= i < |es| ==> es[i].prob <= es[k].prob)
  }

  /** Best is ("", 0) when no entry is positive; otherwise it is the first entry
      of greatest probability. */
  lemma {:induction false} BestSpec(es: seq<Entry>)
    ensures (Best(es) == Entry("", 0.0) && forall i :: 0 <= i < |es| ==> es[i].prob <= 0.0) ||
            (exists k :: FirstMaximal(es, k) && Best(es) == es[k])
  {
    if |es| > 0 {
      var n := |es| - 1;
      var pre := es[..n];
      BestSpec(pre);
      assert forall i :: 0 <= i < n ==> pre[i] == es[i];
      if es[n].prob > Best(pre).prob {
        assert Best(pre).prob >= 0.0;
        assert FirstMaximal(es, n) && Best(es) == es[n];
      } else if Best(pre) == Entry("", 0.0) && forall i :: 0 <= i < n ==> pre[i].prob <= 0.0 {
        assert forall i :: 0 <= i < |es| ==> es[i].prob <= 0.0;
      } else {
        var k :| FirstMaximal(pre, k) && Best(pre) == pre[k];
        assert FirstMaximal(es, k) && Best(es) == es[k];
      }
    }
  }

  /** An entry other than ("", 0) is one of the entries, of positive probability. */
  lemma BestWinner(es: seq<Entry>) returns (k: nat)
    requires Best(es) != Entry("", 0.0)
    ensures k < |es| && Best(es) == es[k] && es[k].prob > 0.0
  {
    BestSpec(es);
    k :| k < |es| && Best(es) == es[k] && es[k].prob > 0.0;
  }

  /** The best probability is at least 0 and at least that of every entry. */
  lemma BestBound(es: seq<Entry>)
    ensures Best(es).prob >= 0.0
    ensures forall i :: 0 <= i < |es| ==> es[i].prob <= Best(es).prob
  {
    BestSpec(es);
  }

  // ---------------------------------------------------------------------------
  // The recursion
  // ---------------------------------------------------------------------------

  /** The 26 candidates for state `c` at the next symbol `o`, one per previous
      state in `States` order: the previous path extended by `c`. */
  function Candidates(prev: Trellis, T: Table, E: Table, c: char, o: char): (cs: seq<Entry>)
    requires prev.Keys == StateSet() && Connected(T) && Emits(E, o) && IsState(c)
    ensures |cs| == 26
  {
    seq(26, j requires 0 <= j < 26 =>
      Entry(prev[State(j)].path + [c], Carry(prev[State(j)].prob, T, E, State(j), c, o)))
  }

  /** `viterbi(obs, I, T, E)`: for one symbol, each state's entry is the path
      of just that state with initial x emission; for more, the first best
      candidate over the table for all but the last symbol. */
  function ViterbiSpec(obs: string, I: Row, T: Table, E: Table): (r: Trellis)
    requires Decodable(obs, I, T, E)
    ensures r.Keys == StateSet()
    decreases |obs|
  {
    var n := |obs|;
    assert Emits(E, obs[n - 1]);
    if n == 1 then Start(I, E, obs[0])
    else
      DecodablePrefix(obs, I, T, E, n - 1);
      var prev := ViterbiSpec(obs[..n - 1], I, T, E);
      Step(prev, T, E, obs[n - 1])
  }

  /** The base case: the one-letter path of each state, with initial x emission. */
  function Start(I: Row, E: Table, o: char): (r: Trellis)
    requires forall c :: IsState(c) ==> c in I
    requires Emits(E, o)
    ensures r.Keys == StateSet()
  {
    map c | IsState(c) :: Entry([c], Begin(I, E, c, o))
  }

  /** One step of the recursion: every state's first best candidate. */
  function Step(prev: Trellis, T: Table, E: Table, o: char): (r: Trellis)
    requires prev.Keys == StateSet() && Connected(T) && Emits(E, o)
    ensures r.Keys == StateSet()
  {
    map c | IsState(c) :: Best(Candidates(prev, T, E, c, o))
  }

  /** The source's `viterbi`: the base case for one symbol, otherwise the
      recursion on all but the last symbol followed by the two nested loops. */
  method Viterbi(obs: string, I: Row, T: Table, E: Table) returns (r: Trellis)
    requires Decodable(obs, I, T, E)
    ensures r == ViterbiSpec(obs, I, T, E)
    decreases |obs|
  {
    var n := |obs|;
    assert Emits(E, obs[n - 1]);
    if n == 1 {
      r := BaseCase(I, E, obs[0]);
      return;
    }
    DecodablePrefix(obs, I, T, E, n - 1);
    var prev := Viterbi(obs[..n - 1], I, T, E);
    r := Extend(prev, T, E, obs[n - 1]);
  }

  /** Lines 112-116: every state's entry is the one-letter path with initial x emission. */
  method BaseCase(I: Row, E: Table, o: char) returns (r: Trellis)
    requires forall c :: IsState(c) ==> c in I
    requires Emits(E, o)
    ensures r == Start(I, E, o)
  {
    r := map c | IsState(c) :: Entry("", 0.0);
    for i := 0 to 26
      invariant r.Keys == StateSet()
      invariant forall c :: IsState(c) && c as int < 65 + i ==> r[c] == Entry([c], Begin(I, E, c, o))
    {
      var c := State(i);
      assert c as int == 65 + i;
      r := r[c := Entry([c], Begin(I, E, c, o))];
    }
    TrellisEqual(r, Start(I, E, o));
  }

  /** Lines 123-130: for every current state, the first best candidate. */
  method Extend(prev: Trellis, T: Table, E: Table, o: char) returns (r: Trellis)
    requires prev.Keys == StateSet() && Connected(T) && Emits(E, o)
    ensures r == Step(prev, T, E, o)
  {
    r := map c | IsState(c) :: Entry("", 0.0);
    for i := 0 to 26
      invariant Extended(r, prev, T, E, o, i) && Pending(r, i)
    {
      var c := State(i);
      assert c as int == 65 + i;
      ghost var r0 := r;
      r := Relax(r, prev, T, E, c, o);
      ExtendedStep(r0, prev, T, E, o, i, r);
      PendingStep(r0, i, r[c], r);
    }
    ExtendedAll(r, prev, T, E, o);
  }

  /** Once all 26 states are done, the table is the step of the recursion. */
  lemma ExtendedAll(r: Trellis, prev: Trellis, T: Table, E: Table, o: char)
    requires prev.Keys == StateSet() && Connected(T) && Emits(E, o)
    requires r.Keys == StateSet() && Extended(r, prev, T, E, o, 26)
    ensures r == Step(prev, T, E, o)
  {
    forall c | IsState(c) ensures r[c] == Step(prev, T, E, o)[c] {
      assert c as int < 65 + 26;
    }
    TrellisEqual(r, Step(prev, T, E, o));
  }

  /** The states before the `i`-th already hold their first best candidate. */
  predicate Extended(r: Trellis, prev: Trellis, T: Table, E: Table, o: char, i: int)
    requires prev.Keys == StateSet() && Connected(T) && Emits(E, o)
  {
    forall c :: IsState(c) && c as int < 65 + i ==> c in r && r[c] == Best(Candidates(prev, T, E, c, o))
  }

  /** The states from the `i`-th on still hold the initial ("", 0). */
  predicate Pending(r: Trellis, i: int)
  {
    r.Keys == StateSet() && forall c :: IsState(c) && c as int >= 65 + i ==> r[c] == Entry("", 0.0)
  }

  lemma ExtendedStep(r: Trellis, prev: Trellis, T: Table, E: Table, o: char, i: nat, r': Trellis)
    requires prev.Keys == StateSet() && Connected(T) && Emits(E, o)
    requires i < 26 && Extended(r, prev, T, E, o, i)
    requires r' == r[State(i) := Best(Candidates(prev, T, E, State(i), o))]
    ensures Extended(r', prev, T, E, o, i + 1)
  {
  }

  lemma PendingStep(r: Trellis, i: nat, e: Entry, r': Trellis)
    requires i < 26 && Pending(r, i) && r' == r[State(i) := e]
    ensures Pending(r', i + 1)
  {
  }

  /** The inner loop of `viterbi` for the current state `c` (lines 125-130): try
      every previous state in order and keep a candidate only when it is
      strictly more probable than the best so far. */
  method Relax(r: Trellis, prev: Trellis, T: Table, E: Table, c: char, o: char) returns (r': Trellis)
    requires prev.Keys == StateSet() && Connected(T) && Emits(E, o) && IsState(c)
    requires c in r && r[c] == Entry("", 0.0)
    ensures r' == r[c := Best(Candidates(prev, T, E, c, o))]
  {
    ghost var cands := Candidates(prev, T, E, c, o);
    r' := r;
    assert cands[..0] == [];
    for j := 0 to 26
      invariant r' == r[c := Best(cands[..j])]
    {
      var p := State(j);
      CandidateAt(prev, T, E, c, o, j, p);
      BestSnoc(cands, j);
      var probability := Carry(prev[p].prob, T, E, p, c, o);
      assert cands[j] == Entry(prev[p].path + [c], probability);
      assert r'[c] == Best(cands[..j]);
      if probability > r'[c].prob {
        r' := r'[c := Entry(prev[p].path + [c], probability)];
        assert r' == r[c := cands[j]];
      }
    }
    assert cands[..26] == cands;
  }

  /** Candidate `j` extends the entry of the `j`-th state. */
  lemma CandidateAt(prev: Trellis, T: Table, E: Table, c: char, o: char, j: nat, p: char)
    requires prev.Keys == StateSet() && Connected(T) && Emits(E, o) && IsState(c)
    requires j < 26 && p == State(j)
    ensures IsState(p)
    ensures Candidates(prev, T, E, c, o)[j] == Entry(prev[p].path + [c], Carry(prev[p].prob, T, E, p, c, o))
  {
  }

  /** One more entry for the running maximum. */
  lemma BestSnoc(es: seq<Entry>, j: nat)
    requires j < |es|
    ensures Best(es[..j + 1]) == if es[j].prob > Best(es[..j]).prob then es[j] else Best(es[..j])
  {
    assert es[..j + 1][..j] == es[..j];
  }

  /** Two trellises over the states that agree state by state are equal. */
  lemma TrellisEqual(r: Trellis, s: Trellis)
    requires r.Keys == StateSet() == s.Keys
    requires forall c :: IsState(c) ==> r[c] == s[c]
    ensures r == s
  {
  }

  // ---------------------------------------------------------------------------
  // most_probable_word
  // ---------------------------------------------------------------------------

  /** The entries of `d` in the dictionary's iteration order `order`. */
  function InOrder(d: Trellis, order: seq<char>): (es: seq<Entry>)
    requires forall k :: 0 <= k < |order| ==> order[k] in d
    ensures |es| == |order|
    ensures forall k :: 0 <= k < |order| ==> es[k] == d[order[k]]
  {
    seq(|order|, k requires 0 <= k < |order| => d[order[k]])
  }

  /** `most_probable_word`: the path of the first entry whose probability is
      strictly greater than every earlier one and than 0; "" when there is none. */
  method MostProbableWord(d: Trellis, order: seq<char>) returns (bestWord: string)
    requires forall k :: 0 <= k < |order| ==> order[k] in d
    ensures bestWord == Best(InOrder(d, order)).path
  {
    ghost var es := InOrder(d, order);
    bestWord := "";
    var bestProb := 0.0;
    assert es[..0] == [];
    for k := 0 to |order|
      invariant Best(es[..k]) == Entry(bestWord, bestProb)
    {
      var key := order[k];
      BestSnoc(es, k);
      if d[key].prob > bestProb {
        bestWord := d[key].path;
        bestProb := d[key].prob;
      }
    }
    assert es[..|order|] == es;
  }

  // ---------------------------------------------------------------------------
  // What the decoder computes
  // ---------------------------------------------------------------------------

  lemma StateIndex(c: char)
    requires IsState(c)
    ensures 0 <= c as int - 65 < 26 && States[c as int - 65] == c
  {
    StateAt();
  }

  /** An entry is either the initial ("", 0), or a path through the states for
      `obs` that ends in `c`, together with that path's score. */
  predicate Consistent(e: Entry, c: char, obs: string, I: Row, T: Table, E: Table)
    requires Decodable(obs, I, T, E)
  {
    (e.path == "" && e.prob == 0.0) ||
    (IsPath(e.path, obs) && e.path[|obs| - 1] == c && e.prob == Score(e.path, obs, I, T, E))
  }

  /** Scoring a path extended by one state. */
  lemma ScoreSnoc(h: string, p: char, c: char, o: char, obs: string, I: Row, T: Table, E: Table)
    requires Decodable(obs, I, T, E) && Decodable(obs[..|obs| - 1], I, T, E) && |obs| >= 2
    requires IsPath(h, obs[..|obs| - 1]) && IsState(c)
    requires p == h[|h| - 1] && o == obs[|obs| - 1]
    ensures IsPath(h + [c], obs)
    ensures Connected(T) && Emits(E, o) && IsState(p)
    ensures Score(h + [c], obs, I, T, E) == Carry(Score(h, obs[..|obs| - 1], I, T, E), T, E, p, c, o)
  {
    var h' := h + [c];
    assert h'[..|h|] == h;
    assert Emits(E, o);
  }

  /** Every entry `viterbi` returns is consistent: a found path has the length of
      the reading, ends in its own state, and carries exactly its score; for a
      single symbol the path is the state itself. */
  lemma {:induction false} ViterbiConsistent(obs: string, I: Row, T: Table, E: Table, c: char)
    requires Decodable(obs, I, T, E) && IsState(c)
    ensures Consistent(ViterbiSpec(obs, I, T, E)[c], c, obs, I, T, E)
    ensures |obs| == 1 ==> ViterbiSpec(obs, I, T, E)[c].path == [c]
    decreases |obs|
  {
    var n := |obs|;
    var o := obs[n - 1];
    if n == 1 {
      ConsistentStart(obs, I, T, E, c);
    } else {
      DecodablePrefix(obs, I, T, E, n - 1);
      forall p | IsState(p)
        ensures Consistent(ViterbiSpec(obs[..n - 1], I, T, E)[p], p, obs[..n - 1], I, T, E)
      {
        ViterbiConsistent(obs[..n - 1], I, T, E, p);
      }
      ViterbiUnfold(obs, I, T, E, c);
      ConsistentStep(obs, I, T, E, ViterbiSpec(obs[..n - 1], I, T, E), c, o);
    }
  }

  /** One step of the consistency induction: if every previous entry is
      consistent with the prefix, the best candidate for `c` is consistent
      with the whole reading. */
  lemma ConsistentStep(obs: string, I: Row, T: Table, E: Table, prev: Trellis, c: char, o: char)
    requires Decodable(obs, I, T, E) && |obs| >= 2 && Decodable(obs[..|obs| - 1], I, T, E)
    requires IsState(c) && o == obs[|obs| - 1]
    requires prev.Keys == StateSet() && Connected(T) && Emits(E, o)
    requires forall p {:trigger Consistent(prev[p], p, obs[..|obs| - 1], I, T, E)} ::
      IsState(p) ==> Consistent(prev[p], p, obs[..|obs| - 1], I, T, E)
    ensures Consistent(Best(Candidates(prev, T, E, c, o)), c, obs, I, T, E)
  {
    if Best(Candidates(prev, T, E, c, o)) != Entry("", 0.0) {
      var p := Winner(prev, T, E, c, o);
      assert Consistent(prev[p], p, obs[..|obs| - 1], I, T, E);
      WinnerConsistent(obs, I, T, E, prev[p], p, c, o);
    }
  }

  /** For one symbol, a state's entry is the path of just that state, with its score. */
  lemma ConsistentStart(obs: string, I: Row, T: Table, E: Table, c: char)
    requires Decodable(obs, I, T, E) && |obs| == 1 && IsState(c)
    ensures ViterbiSpec(obs, I, T, E)[c] == Entry([c], Score([c], obs, I, T, E))
    ensures IsPath([c], obs)
  {
    assert Emits(E, obs[0]);
    assert [c][0] == c;
  }

  /** A best candidate other than ("", 0) comes from some previous state `p`. */
  lemma Winner(prev: Trellis, T: Table, E: Table, c: char, o: char) returns (p: char)
    requires prev.Keys == StateSet() && Connected(T) && Emits(E, o) && IsState(c)
    requires Best(Candidates(prev, T, E, c, o)) != Entry("", 0.0)
    ensures IsState(p)
    ensures Best(Candidates(prev, T, E, c, o)) == Entry(prev[p].path + [c], Carry(prev[p].prob, T, E, p, c, o))
    ensures Carry(prev[p].prob, T, E, p, c, o) > 0.0
  {
    var k := BestWinner(Candidates(prev, T, E, c, o));
    p := State(k);
    CandidateAt(prev, T, E, c, o, k, p);
  }

  /** For two or more symbols, a state's entry is its first best candidate. */
  lemma ViterbiUnfold(obs: string, I: Row, T: Table, E: Table, c: char)
    requires Decodable(obs, I, T, E) && |obs| >= 2 && IsState(c)
    requires Decodable(obs[..|obs| - 1], I, T, E)
    ensures Connected(T) && Emits(E, obs[|obs| - 1])
    ensures ViterbiSpec(obs, I, T, E)[c]
         == Best(Candidates(ViterbiSpec(obs[..|obs| - 1], I, T, E), T, E, c, obs[|obs| - 1]))
  {
    assert Emits(E, obs[|obs| - 1]);
  }

  /** A candidate of positive probability extends a found path, so it is consistent. */
  lemma WinnerConsistent(obs: string, I: Row, T: Table, E: Table, e: Entry, p: char, c: char, o: char)
    requires Decodable(obs, I, T, E) && |obs| >= 2 && Decodable(obs[..|obs| - 1], I, T, E)
    requires IsState(p) && IsState(c) && o == obs[|obs| - 1]
    requires Consistent(e, p, obs[..|obs| - 1], I, T, E)
    requires Connected(T) && Emits(E, o)
    requires Carry(e.prob, T, E, p, c, o) > 0.0
    ensures Consistent(Entry(e.path + [c], Carry(e.prob, T, E, p, c, o)), c, obs, I, T, E)
  {
    assert e.prob != 0.0;
    var h := e.path;
    assert IsPath(h, obs[..|obs| - 1]) && h[|h| - 1] == p;
    ScoreSnoc(h, p, c, o, obs, I, T, E);
    assert (h + [c])[|obs| - 1] == c;
  }

  /** Carrying a smaller probability gives a smaller result, the transition and
      emission being non-negative. */
  lemma CarryMono(a: real, b: real, T: Table, E: Table, p: char, c: char, o: char)
    requires p in T && c in T[p] && c in E && o in E[c]
    requires a <= b && T[p][c] >= 0.0 && E[c][o] >= 0.0
    ensures Carry(a, T, E, p, c, o) <= Carry(b, T, E, p, c, o)
  {
    assert a * T[p][c] <= b * T[p][c];
  }

  /** Path `h` scores no more than the entry `viterbi` returns for its last state. */
  predicate BelowEntry(h: string, obs: string, I: Row, T: Table, E: Table)
    requires Decodable(obs, I, T, E) && IsPath(h, obs)
  {
    Score(h, obs, I, T, E) <= ViterbiSpec(obs, I, T, E)[h[|h| - 1]].prob
  }

  /** Optimality: with non-negative transition and emission probabilities, no
      path through the states ending in `h`'s last state scores more than the
      entry `viterbi` returns for that state. */
  lemma ViterbiOptimal(obs: string, I: Row, T: Table, E: Table, h: string)
    requires Decodable(obs, I, T, E) && NonNegative(T, E) && IsPath(h, obs)
    ensures Score(h, obs, I, T, E) <= ViterbiSpec(obs, I, T, E)[h[|h| - 1]].prob
  {
    ViterbiBelow(obs, I, T, E, h);
  }

  /** The optimality bound, by induction on the length of the reading. */
  lemma {:induction false} ViterbiBelow(obs: string, I: Row, T: Table, E: Table, h: string)
    requires Decodable(obs, I, T, E) && NonNegative(T, E) && IsPath(h, obs)
    ensures BelowEntry(h, obs, I, T, E)
    decreases |obs|
  {
    var n := |obs|;
    if n == 1 {
      assert h == [h[0]];
      assert Emits(E, obs[0]);
    } else {
      DecodablePrefix(obs, I, T, E, n - 1);
      var h' := h[..n - 1];
      assert IsPath(h', obs[..n - 1]);
      ViterbiBelow(obs[..n - 1], I, T, E, h');
      OptimalSnoc(obs, I, T, E, h);
    }
  }

  /** The step of the induction for a path split into its prefix and last state. */
  lemma OptimalSnoc(obs: string, I: Row, T: Table, E: Table, h: string)
    requires Decodable(obs, I, T, E) && Decodable(obs[..|obs| - 1], I, T, E) && |obs| >= 2
    requires NonNegative(T, E) && IsPath(h, obs) && IsPath(h[..|h| - 1], obs[..|obs| - 1])
    requires BelowEntry(h[..|h| - 1], obs[..|obs| - 1], I, T, E)
    ensures BelowEntry(h, obs, I, T, E)
  {
    assert h == h[..|h| - 1] + [h[|h| - 1]];
    OptimalStep(obs, I, T, E, h[..|h| - 1], h[|h| - 1]);
  }

  /** One step of the optimality induction: a bound on the path's prefix
      carries over to the path. */
  lemma OptimalStep(obs: string, I: Row, T: Table, E: Table, h: string, c: char)
    requires Decodable(obs, I, T, E) && Decodable(obs[..|obs| - 1], I, T, E) && |obs| >= 2
    requires NonNegative(T, E) && IsPath(h, obs[..|obs| - 1]) && IsState(c)
    requires BelowEntry(h, obs[..|obs| - 1], I, T, E)
    ensures IsPath(h + [c], obs)
    ensures BelowEntry(h + [c], obs, I, T, E)
  {
    var prev := ViterbiSpec(obs[..|obs| - 1], I, T, E);
    var p := h[|h| - 1];
    LastEntry(prev, h, p);
    ExtendBound(h, p, c, obs, I, T, E, prev);
    ViterbiUnfold(obs, I, T, E, c);
    assert (h + [c])[|h|] == c;
  }

  /** A path whose prefix scores no more than the previous entry for its last
      state scores no more than the best candidate for its new last state. */
  lemma ExtendBound(h: string, p: char, c: char, obs: string, I: Row, T: Table, E: Table, prev: Trellis)
    requires Decodable(obs, I, T, E) && Decodable(obs[..|obs| - 1], I, T, E) && |obs| >= 2
    requires NonNegative(T, E) && IsPath(h, obs[..|obs| - 1]) && IsState(c)
    requires p == h[|h| - 1] && prev.Keys == StateSet()
    requires Score(h, obs[..|obs| - 1], I, T, E) <= prev[p].prob
    ensures Connected(T) && Emits(E, obs[|obs| - 1]) && IsPath(h + [c], obs)
    ensures BelowCandidate(h + [c], obs, I, T, E, prev, c)
  {
    var o := obs[|obs| - 1];
    ScoreSnoc(h, p, c, o, obs, I, T, E);
    CandidateBound(prev, T, E, c, o, p, Score(h, obs[..|obs| - 1], I, T, E));
  }

  /** Path `h` scores no more than the best candidate for state `c` from `prev`. */
  predicate BelowCandidate(h: string, obs: string, I: Row, T: Table, E: Table, prev: Trellis, c: char)
    requires Decodable(obs, I, T, E) && IsPath(h, obs) && IsState(c)
    requires prev.Keys == StateSet() && Connected(T) && Emits(E, obs[|obs| - 1])
  {
    Score(h, obs, I, T, E) <= Best(Candidates(prev, T, E, c, obs[|obs| - 1])).prob
  }

  /** Looking a path's last state up by name or by position is the same. */
  lemma LastEntry(t: Trellis, h: string, p: char)
    requires |h| > 0 && p == h[|h| - 1] && p in t
    ensures t[h[|h| - 1]] == t[p]
  {
  }

  /** A score no greater than a previous state's entry, extended to `c`, is no
      greater than the best candidate for `c`. */
  lemma CandidateBound(prev: Trellis, T: Table, E: Table, c: char, o: char, p: char, sc: real)
    requires prev.Keys == StateSet() && Connected(T) && Emits(E, o) && IsState(c) && IsState(p)
    requires NonNegative(T, E)
    requires sc <= prev[p].prob
    ensures Carry(sc, T, E, p, c, o) <= Best(Candidates(prev, T, E, c, o)).prob
  {
    CandidateBelowBest(prev, T, E, c, o, p);
    CarryMono(sc, prev[p].prob, T, E, p, c, o);
  }

  /** Every candidate is at most the best one. */
  lemma CandidateBelowBest(prev: Trellis, T: Table, E: Table, c: char, o: char, p: char)
    requires prev.Keys == StateSet() && Connected(T) && Emits(E, o) && IsState(c) && IsState(p)
    ensures Carry(prev[p].prob, T, E, p, c, o) <= Best(Candidates(prev, T, E, c, o)).prob
  {
    StateIndex(p);
    var cands := Candidates(prev, T, E, c, o);
    CandidateAt(prev, T, E, c, o, p as int - 65, p);
    BestBound(cands);
  }

  /** Ties go to the earliest previous state: for two or more symbols, a state's
      entry is ("", 0) when no candidate is positive, and otherwise the candidate
      of the first previous state (in 'A'..'Z' order) of greatest probability. */
  lemma ViterbiTieBreak(obs: string, I: Row, T: Table, E: Table, c: char)
    requires Decodable(obs, I, T, E) && Decodable(obs[..|obs| - 1], I, T, E) && |obs| >= 2 && IsState(c)
    ensures Connected(T) && Emits(E, obs[|obs| - 1])
    ensures var prev := ViterbiSpec(obs[..|obs| - 1], I, T, E);
      var e := ViterbiSpec(obs, I, T, E)[c];
      var cands := Candidates(prev, T, E, c, obs[|obs| - 1]);
      (e == Entry("", 0.0) && forall k :: 0 <= k < 26 ==> cands[k].prob <= 0.0) ||
      (exists k :: FirstMaximal(cands, k) && e == cands[k] && e.path == prev[State(k)].path + [c])
  {
    var prev := ViterbiSpec(obs[..|obs| - 1], I, T, E);
    var o := obs[|obs| - 1];
    ViterbiUnfold(obs, I, T, E, c);
    var cands := Candidates(prev, T, E, c, o);
    BestSpec(cands);
    if Best(cands) != Entry("", 0.0) {
      var k :| FirstMaximal(cands, k) && Best(cands) == cands[k];
      CandidateAt(prev, T, E, c, o, k, State(k));
    }
  }

  /** The entry `most_probable_word` picks from the table `viterbi` returns. */
  function Decoded(obs: string, I: Row, T: Table, E: Table): Entry
    requires Decodable(obs, I, T, E)
  {
    StateAt();
    Best(InOrder(ViterbiSpec(obs, I, T, E), States))
  }

  /** The word `viterbi` and `most_probable_word` produce together. */
  function DecodedWord(obs: string, I: Row, T: Table, E: Table): string
    requires Decodable(obs, I, T, E)
  {
    Decoded(obs, I, T, E).path
  }

  /** No path scores more than the picked entry. */
  lemma DecodedAbove(obs: string, I: Row, T: Table, E: Table, h: string)
    requires Decodable(obs, I, T, E) && NonNegative(T, E) && IsPath(h, obs)
    ensures Score(h, obs, I, T, E) <= Decoded(obs, I, T, E).prob
  {
    StateAt();
    ViterbiOptimal(obs, I, T, E, h);
    StateIndex(h[|h| - 1]);
    BestBound(InOrder(ViterbiSpec(obs, I, T, E), States));
  }

  /** A picked entry other than ("", 0) is a path with its own, positive, score. */
  lemma DecodedPath(obs: string, I: Row, T: Table, E: Table)
    requires Decodable(obs, I, T, E) && Decoded(obs, I, T, E) != Entry("", 0.0)
    ensures IsPath(DecodedWord(obs, I, T, E), obs)
    ensures Score(DecodedWord(obs, I, T, E), obs, I, T, E) == Decoded(obs, I, T, E).prob > 0.0
  {
    StateAt();
    var k := BestWinner(InOrder(ViterbiSpec(obs, I, T, E), States));
    ViterbiConsistent(obs, I, T, E, States[k]);
  }

  /** End to end, with non-negative transition and emission probabilities: the
      decoded word is "" exactly when every path scores 0 or less; otherwise it is
      a path through the states for the reading, of positive score, and no path
      scores more. */
  lemma DecodeOptimal(obs: string, I: Row, T: Table, E: Table)
    requires Decodable(obs, I, T, E) && NonNegative(T, E)
    ensures DecodedWord(obs, I, T, E) == "" <==>
      forall h :: IsPath(h, obs) ==> Score(h, obs, I, T, E) <= 0.0
    ensures DecodedWord(obs, I, T, E) != "" ==>
      IsPath(DecodedWord(obs, I, T, E), obs) && Score(DecodedWord(obs, I, T, E), obs, I, T, E) > 0.0 &&
      forall h :: IsPath(h, obs) ==> Score(h, obs, I, T, E) <= Score(DecodedWord(obs, I, T, E), obs, I, T, E)
  {
    var e := Decoded(obs, I, T, E);
    forall h | IsPath(h, obs) ensures Score(h, obs, I, T, E) <= e.prob {
      DecodedAbove(obs, I, T, E, h);
    }
    if e != Entry("", 0.0) {
      DecodedPath(obs, I, T, E);
    }
  }
}
