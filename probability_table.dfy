/** The "count, then normalise, then zero-fill" primitives shared by the three
    estimators of HMM_for_OCR.py.

    A Python dictionary that first holds counts and is then rewritten in place
    into probabilities (`d[k] /= total`) is modelled as one `map<char, real>`:
    counts are whole-number reals, and division is exact. */
module ProbabilityTable {

  /** One level of a table: key -> count or probability. */
  type Row = map<char, real>

  /** Two levels: context -> outcome -> count or probability. */
  type Table = map<char, Row>

  // ---------------------------------------------------------------------------
  // Sums over the values of a finite map
  // ---------------------------------------------------------------------------

  /** The sum of all values of `m`; the order of summation is immaterial (SumPick). */
  ghost function Sum(m: Row): real
    decreases |m.Keys|
  {
    if m == map[] then 0.0 else var k :| k in m; m[k] + Sum(m - {k})
  }

  /** Any key may be taken out first. */
  lemma {:induction false} SumPick(m: Row, k: char)
    requires k in m
    ensures Sum(m) == m[k] + Sum(m - {k})
    decreases |m.Keys|
  {
    var k' :| k' in m && Sum(m) == m[k'] + Sum(m - {k'});
    if k' != k {
      var m1 := m - {k'};
      var m2 := m - {k};
      SumPick(m1, k);
      SumPick(m2, k');
      assert m1 - {k} == m2 - {k'};
    }
  }

  lemma {:induction false} SumOfZeros(m: Row)
    requires forall k :: k in m ==> m[k] == 0.0
    ensures Sum(m) == 0.0
    decreases |m.Keys|
  {
    if m != map[] {
      var k :| k in m;
      SumPick(m, k);
      SumOfZeros(m - {k});
    }
  }

  /** Overwriting (or adding) one key changes the sum by the difference. */
  lemma SumUpdate(m: Row, k: char, v: real)
    ensures Sum(m[k := v]) == Sum(m) - (if k in m then m[k] else 0.0) + v
  {
    SumPick(m[k := v], k);
    assert m[k := v] - {k} == m - {k};
    if k in m {
      SumPick(m, k);
    } else {
      assert m - {k} == m;
    }
  }

  /** Dividing every value by `d` divides the sum by `d`. */
  lemma {:induction false} SumDivided(m: Row, d: real)
    requires d != 0.0
    ensures Sum(Divided(m, d)) == Sum(m) / d
    decreases |m.Keys|
  {
    if m != map[] {
      var k :| k in m;
      var rest, q := m - {k}, Divided(m, d);
      SumPick(m, k);
      SumPick(q, k);
      assert q - {k} == Divided(rest, d);
      SumDivided(rest, d);
      assert Sum(q) == m[k] / d + Sum(rest) / d;
      DivideSum(m[k], Sum(rest), d);
      assert Sum(m) / d == (m[k] + Sum(rest)) / d;
    } else {
      assert Divided(m, d) == map[];
      DivideSum(0.0, 0.0, d);
    }
  }

  lemma DivideSum(a: real, b: real, d: real)
    requires d != 0.0
    ensures a / d + b / d == (a + b) / d
  {
  }

  // ---------------------------------------------------------------------------
  // Counting
  // ---------------------------------------------------------------------------

  /** The set of distinct elements of `xs` (Python's `set(xs)`). */
  function Elems(xs: seq<char>): set<char>
  {
    set x | x in xs
  }

  /** Number of occurrences of `k` in `xs`. */
  function Count(xs: seq<char>, k: char): nat
  {
    if |xs| == 0 then 0
    else Count(xs[..|xs| - 1], k) + (if xs[|xs| - 1] == k then 1 else 0)
  }

  lemma {:induction false} CountSnoc(xs: seq<char>, x: char, k: char)
    ensures Count(xs + [x], k) == Count(xs, k) + (if x == k then 1 else 0)
  {
    assert (xs + [x])[..|xs|] == xs;
  }

  lemma {:induction false} CountPositive(xs: seq<char>, k: char)
    ensures Count(xs, k) > 0 <==> k in xs
    ensures Count(xs, k) <= |xs|
  {
    if |xs| > 0 {
      var ys := xs[..|xs| - 1];
      CountPositive(ys, k);
      assert xs == ys + [xs[|xs| - 1]];
    }
  }

  /** Count is the multiplicity of `k` in the multiset of `xs`. */
  lemma {:induction false} CountIsMultiplicity(xs: seq<char>, k: char)
    ensures Count(xs, k) == multiset(xs)[k]
  {
    if |xs| > 0 {
      var ys := xs[..|xs| - 1];
      CountIsMultiplicity(ys, k);
      assert xs == ys + [xs[|xs| - 1]];
    }
  }

  /** The count of each key of `keys` among `xs`. */
  function CountsOver(xs: seq<char>, keys: set<char>): Row
  {
    map k | k in keys :: Count(xs, k) as real
  }

  /** The dictionary built by the counting loops: each distinct element to its count. */
  function CountMap(xs: seq<char>): Row
  {
    CountsOver(xs, Elems(xs))
  }

  /** One more occurrence of `x`: a new key with count 1, or the old count plus 1. */
  lemma CountMapSnoc(xs: seq<char>, x: char)
    ensures x !in CountMap(xs) ==> CountMap(xs + [x]) == CountMap(xs)[x := 1.0]
    ensures x in CountMap(xs) ==> CountMap(xs + [x]) == CountMap(xs)[x := CountMap(xs)[x] + 1.0]
  {
    forall k ensures Count(xs + [x], k) == Count(xs, k) + (if x == k then 1 else 0) {
      CountSnoc(xs, x, k);
    }
    CountPositive(xs, x);
    assert Elems(xs + [x]) == Elems(xs) + {x};
  }

  /** Counting over any key set that covers `xs` accounts for every element once. */
  lemma {:induction false} SumOfCounts(xs: seq<char>, keys: set<char>)
    requires forall i :: 0 <= i < |xs| ==> xs[i] in keys
    ensures Sum(CountsOver(xs, keys)) == |xs| as real
  {
    var m := CountsOver(xs, keys);
    if |xs| == 0 {
      SumOfZeros(m);
    } else {
      var ys, x := xs[..|xs| - 1], xs[|xs| - 1];
      assert xs == ys + [x];
      var m' := CountsOver(ys, keys);
      SumOfCounts(ys, keys);
      forall k | k in keys ensures m[k] == m'[x := m'[x] + 1.0][k] {
        CountSnoc(ys, x, k);
      }
      assert m == m'[x := m'[x] + 1.0];
      SumUpdate(m', x, m'[x] + 1.0);
    }
  }

  lemma SumCountMap(xs: seq<char>)
    ensures Sum(CountMap(xs)) == |xs| as real
  {
    SumOfCounts(xs, Elems(xs));
  }

  // ---------------------------------------------------------------------------
  // The normalised row: count / total, zero where nothing was counted
  // ---------------------------------------------------------------------------

  /** Every value of `m` divided by `d` (the `/=` loops). */
  function Divided(m: Row, d: real): Row
    requires d != 0.0 || m == map[]
  {
    map k | k in m :: m[k] / d
  }

  /** Every row divided by its own total. */
  ghost function Normalised(t: Table): Table
    requires forall a :: a in t ==> Sum(t[a]) != 0.0
  {
    map a | a in t :: Divided(t[a], Sum(t[a]))
  }

  /** Every context of `rows`, and no other, has a row over exactly `cols`. */
  predicate Dense(t: Table, rows: set<char>, cols: set<char>)
  {
    t.Keys == rows && forall a :: a in t ==> t[a].Keys == cols
  }

  /** Every entry is a probability. */
  predicate Bounded(t: Table)
  {
    forall a, b :: a in t && b in t[a] ==> 0.0 <= t[a][b] <= 1.0
  }

  /** The dense relative-frequency row of the outcomes `xs` over `keys`:
      count / number of outcomes, and all zero when there were none. */
  function Frequencies(xs: seq<char>, keys: set<char>): Row
  {
    if |xs| == 0 then map k | k in keys :: 0.0
    else Divided(CountsOver(xs, keys), |xs| as real)
  }

  /** A row with at least one outcome, all of them among its keys, sums to 1. */
  lemma FrequenciesSumToOne(xs: seq<char>, keys: set<char>)
    requires |xs| > 0
    requires forall i :: 0 <= i < |xs| ==> xs[i] in keys
    ensures Sum(Frequencies(xs, keys)) == 1.0
  {
    var n := |xs| as real;
    SumOfCounts(xs, keys);
    SumDivided(CountsOver(xs, keys), n);
    assert Frequencies(xs, keys) == Divided(CountsOver(xs, keys), n);
    DivideSelf(n);
  }

  lemma DivideSelf(n: real)
    requires n != 0.0
    ensures n / n == 1.0
  {
  }

  /** Every relative frequency is a probability. */
  lemma FrequenciesBounds(xs: seq<char>, keys: set<char>, k: char)
    requires k in keys
    ensures 0.0 <= Frequencies(xs, keys)[k] <= 1.0
    ensures Frequencies(xs, keys)[k] > 0.0 <==> k in xs
  {
    CountPositive(xs, k);
    if |xs| > 0 {
      RatioBounds(Count(xs, k) as real, |xs| as real);
    }
  }

  lemma RatioBounds(c: real, n: real)
    requires 0.0 <= c <= n && n > 0.0
    ensures 0.0 <= c / n <= 1.0
    ensures c / n > 0.0 <==> c > 0.0
  {
    assert c / n * n == c;
  }

  // ---------------------------------------------------------------------------
  // Zero-filling
  // ---------------------------------------------------------------------------

  /** `row` with every missing key of `cols` added with value 0. */
  function ZeroFilledRow(row: Row, cols: set<char>): Row
  {
    map b | b in row.Keys + cols :: if b in row then row[b] else 0.0
  }

  /** `t` with every context of `rows` present and its row zero-filled over `cols`. */
  function ZeroFilled(t: Table, rows: set<char>, cols: set<char>): Table
  {
    map a | a in t.Keys + rows ::
      if a in rows then ZeroFilledRow(if a in t then t[a] else map[], cols) else t[a]
  }

  /** The counts of a non-empty `xs`, divided by their total and zero-filled over
      a key set that covers `xs`, are the relative frequencies of `xs`. */
  lemma NormalisedCountsZeroFilled(xs: seq<char>, cols: set<char>)
    requires |xs| > 0
    requires forall i :: 0 <= i < |xs| ==> xs[i] in cols
    ensures ZeroFilledRow(Divided(CountMap(xs), |xs| as real), cols) == Frequencies(xs, cols)
  {
    var n := |xs| as real;
    var divided := Divided(CountMap(xs), n);
    var row := ZeroFilledRow(divided, cols);
    var freq := Frequencies(xs, cols);
    assert freq == Divided(CountsOver(xs, cols), n);
    forall b | b in cols ensures row[b] == freq[b] {
      CountPositive(xs, b);
      if b !in divided {
        assert Count(xs, b) == 0;
        DivideSum(0.0, 0.0, n);
      }
    }
    assert Elems(xs) <= cols;
    assert row.Keys == cols;
  }

  // ---------------------------------------------------------------------------
  // The loops that rewrite the tables in place
  // ---------------------------------------------------------------------------

  /** `sum(d.values())`. */
  method SumValues(m: Row) returns (s: real)
    ensures s == Sum(m)
  {
    s := 0.0;
    var rest := m;
    while rest != map[]
      invariant s + Sum(rest) == Sum(m)
      decreases |rest.Keys|
    {
      var k :| k in rest;
      SumPick(rest, k);
      s := s + rest[k];
      rest := rest - {k};
    }
  }

  /** `for k in d: d[k] /= total`. */
  method DivideAll(m: Row, d: real) returns (r: Row)
    requires d != 0.0 || m == map[]
    ensures r == Divided(m, d)
  {
    r := m;
    var todo := m.Keys;
    while todo != {}
      invariant todo <= m.Keys && r.Keys == m.Keys
      invariant forall k :: k in m ==> r[k] == if k in todo then m[k] else m[k] / d
      decreases |todo|
    {
      var k :| k in todo;
      r := r[k := r[k] / d];
      todo := todo - {k};
    }
  }

  /** Divide every row by its own total (`total = sum(t[key].values())`, then `/=`). */
  method NormaliseRows(t: Table) returns (r: Table)
    requires forall a :: a in t ==> Sum(t[a]) != 0.0
    ensures r == Normalised(t)
  {
    r := t;
    var todo := t.Keys;
    while todo != {}
      invariant todo <= t.Keys && r.Keys == t.Keys
      invariant forall a :: a in t ==> r[a] == if a in todo then t[a] else Divided(t[a], Sum(t[a]))
      decreases |todo|
    {
      var a :| a in todo;
      var total := SumValues(r[a]);
      var row := DivideAll(r[a], total);
      r := r[a := row];
      todo := todo - {a};
    }
    NormalisedPointwise(t, r);
  }

  lemma NormalisedPointwise(t: Table, r: Table)
    requires forall a :: a in t ==> Sum(t[a]) != 0.0
    requires r.Keys == t.Keys && forall a :: a in t ==> r[a] == Divided(t[a], Sum(t[a]))
    ensures r == Normalised(t)
  {
  }

  /** `for b in cols: if b not in row: row[b] = 0`. */
  method ZeroFillRow(row: Row, cols: set<char>) returns (r: Row)
    ensures r == ZeroFilledRow(row, cols)
  {
    r := row;
    var todo := cols;
    while todo != {}
      invariant todo <= cols
      invariant forall b :: b in r <==> b in row || (b in cols && b !in todo)
      invariant forall b :: b in r ==> r[b] == if b in row then row[b] else 0.0
      decreases |todo|
    {
      var b :| b in todo;
      if b !in r {
        r := r[b := 0.0];
      }
      todo := todo - {b};
    }
  }

  /** `for a in rows: ...`: fill every context of `rows` in turn. */
  method ZeroFill(t: Table, rows: set<char>, cols: set<char>) returns (r: Table)
    ensures r == ZeroFilled(t, rows, cols)
  {
    r := t;
    var todo := rows;
    while todo != {}
      invariant todo <= rows
      invariant forall x :: x in r <==> x in t || (x in rows && x !in todo)
      invariant forall x :: x in r ==>
        r[x] == if x in rows && x !in todo then ZeroFilledRow(if x in t then t[x] else map[], cols) else t[x]
      decreases |todo|
    {
      var a :| a in todo;
      r := ZeroFillContext(r, a, cols);
      todo := todo - {a};
    }
    ZeroFilledPointwise(t, rows, cols, r);
  }

  /** `if a not in t: t[a] = {}`, then zero-fill `t[a]` over `cols`. */
  method ZeroFillContext(t: Table, a: char, cols: set<char>) returns (r: Table)
    ensures r == t[a := ZeroFilledRow(if a in t then t[a] else map[], cols)]
  {
    r := t;
    if a !in r {
      r := r[a := map[]];
    }
    var row := ZeroFillRow(r[a], cols);
    r := r[a := row];
  }

  lemma ZeroFilledPointwise(t: Table, rows: set<char>, cols: set<char>, r: Table)
    requires forall x :: x in r <==> x in t || x in rows
    requires forall x :: x in r ==>
      r[x] == if x in rows then ZeroFilledRow(if x in t then t[x] else map[], cols) else t[x]
    ensures r == ZeroFilled(t, rows, cols)
  {
  }
}
