/** Model of Markov.py: a character-level Markov model of order k trained on a
    text, which scores an unknown text by summed log-probabilities with
    Laplace-style smoothing, and identify_speaker, which picks the better of
    two models. `math.log` is an uninterpreted parameter `ln`; the Python
    floats of the ratios are exact reals here. */
module Markov {
  import opened Wrappers
  import opened HashTable

  /** HASH_CELLS: the initial size of every model's table. */
  const HashCells: nat := 57

  /** Python's t[i:j] for non-negative bounds: both ends are clamped to the length. */
  function Slice(t: string, i: nat, j: nat): (r: string)
    ensures |r| == (if i < Min(j, |t|) then Min(j, |t|) - i else 0)
  {
    var hi := Min(j, |t|);
    if i < hi then t[i..hi] else []
  }

  function Min(a: nat, b: nat): nat {
    if a < b then a else b
  }

  /** t + t[:n]: the text extended circularly by its first n characters. */
  function Extend(t: string, n: nat): (e: string)
    ensures |e| == |t| + Min(n, |t|)
  {
    t + Slice(t, 0, n)
  }

  /** (t + t[:n])[r:r+n]: the window of length n starting at position r. */
  function Gram(t: string, n: nat, r: nat): string {
    Slice(Extend(t, n), r, r + n)
  }

  /** The windows of length n starting at positions 0 .. m-1. */
  function Grams(t: string, n: nat, m: nat): (w: seq<string>) {
    seq(m, r requires 0 <= r => Gram(t, n, r))
  }

  /** The number of elements of a equal to g. */
  function Count(a: seq<string>, g: string): nat {
    if |a| == 0 then 0 else Count(a[..|a| - 1], g) + (if a[|a| - 1] == g then 1 else 0)
  }

  /** The number of positions r in [0, |t|) whose window of length n is g. */
  function Occurrences(t: string, n: nat, g: string): nat {
    Count(Grams(t, n, |t|), g)
  }

  /** The value training stores for g: its count as a k-window plus its count
      as a (k+1)-window. When k < |t| the two kinds have different lengths, so
      only one of the summands can be non-zero (see SeparateCounts). */
  function TrainedCount(t: string, k: nat, g: string): nat {
    Occurrences(t, k, g) + Occurrences(t, k + 1, g)
  }

  /** The distinct characters of a text. */
  function CharSet(t: string): set<char> {
    set c | c in t
  }

  // ---------------------------------------------------------------- counting

  /** Count is the multiplicity of g in the multiset of a. */
  lemma {:induction false} CountIsMultiplicity(a: seq<string>, g: string)
    ensures Count(a, g) == multiset(a)[g]
  {
    if |a| > 0 {
      CountIsMultiplicity(a[..|a| - 1], g);
      assert a == a[..|a| - 1] + [a[|a| - 1]];
    }
  }

  /** No element of a has length n, so nothing of another length is counted. */
  lemma {:induction false} CountOtherLength(a: seq<string>, n: nat, g: string)
    requires forall i :: 0 <= i < |a| ==> |a[i]| == n
    requires |g| != n
    ensures Count(a, g) == 0
  {
    if |a| > 0 {
      CountOtherLength(a[..|a| - 1], n, g);
    }
  }

  /** When b holds the n-prefixes of the elements of a, position by position,
      every occurrence of w in a is an occurrence of w[..n] in b. */
  lemma {:induction false} CountPrefixBound(a: seq<string>, b: seq<string>, n: nat, w: string)
    requires |a| == |b| && n <= |w|
    requires forall i :: 0 <= i < |a| ==> n <= |a[i]| && b[i] == a[i][..n]
    ensures Count(a, w) <= Count(b, w[..n])
  {
    if |a| > 0 {
      var m := |a| - 1;
      CountPrefixBound(a[..m], b[..m], n, w);
      if a[m] == w {
        assert b[m] == w[..n];
      }
    }
  }

  // ---------------------------------------------------------------- windows

  /** Every window of a text at least n long has length exactly n. */
  lemma GramLength(t: string, n: nat, r: nat)
    requires r < |t| && n <= |t|
    ensures |Gram(t, n, r)| == n
  {
  }

  /** Two windows of lengths n and n+1 at the same position in a text longer
      than n: the shorter is the prefix of the longer. */
  lemma GramPrefix(t: string, n: nat, r: nat)
    requires r < |t| && n < |t|
    ensures Gram(t, n, r) == Gram(t, n + 1, r)[..n]
  {
    var a, b := Gram(t, n, r), Gram(t, n + 1, r);
    assert |a| == n && |b| == n + 1;
    forall p | 0 <= p < n
      ensures a[p] == b[p]
    {
      assert Extend(t, n)[r + p] == Extend(t, n + 1)[r + p];
    }
  }

  /** All |t| windows of length n <= |t| have length n. */
  lemma WindowsHaveLength(t: string, n: nat)
    requires n <= |t|
    ensures forall i :: 0 <= i < |t| ==> |Grams(t, n, |t|)[i]| == n
  {
    forall i | 0 <= i < |t|
      ensures |Grams(t, n, |t|)[i]| == n
    {
      GramLength(t, n, i);
    }
  }

  /** For k < |t| the trained value of a k-long string is its k-window count,
      that of a (k+1)-long string its (k+1)-window count, and every other
      string has value 0. */
  lemma SeparateCounts(t: string, k: nat, g: string)
    requires k < |t|
    ensures |g| == k ==> TrainedCount(t, k, g) == Occurrences(t, k, g)
    ensures |g| == k + 1 ==> TrainedCount(t, k, g) == Occurrences(t, k + 1, g)
    ensures |g| != k && |g| != k + 1 ==> TrainedCount(t, k, g) == 0
  {
    if |g| != k {
      WindowsHaveLength(t, k);
      CountOtherLength(Grams(t, k, |t|), k, g);
    }
    if |g| != k + 1 {
      WindowsHaveLength(t, k + 1);
      CountOtherLength(Grams(t, k + 1, |t|), k + 1, g);
    }
  }

  /** Training visits |t| positions, so each kind of count sums to |t|: the
      multiset of the windows of length n <= |t| has |t| elements, all of
      length n, each with multiplicity Occurrences. */
  lemma CountsSumToLength(t: string, n: nat)
    requires n <= |t|
    ensures |multiset(Grams(t, n, |t|))| == |t|
    ensures forall g :: g in multiset(Grams(t, n, |t|)) ==> |g| == n
    ensures forall g :: multiset(Grams(t, n, |t|))[g] == Occurrences(t, n, g)
  {
    WindowsHaveLength(t, n);
    forall g
      ensures multiset(Grams(t, n, |t|))[g] == Occurrences(t, n, g)
    {
      CountIsMultiplicity(Grams(t, n, |t|), g);
    }
  }

  /** Every (n+1)-window equal to w sits at a position whose n-window is the
      n-prefix of w, so the longer count never exceeds the shorter one. */
  lemma LongerCountAtMostPrefixCount(t: string, n: nat, w: string)
    requires n < |t| && |w| == n + 1
    ensures Occurrences(t, n + 1, w) <= Occurrences(t, n, w[..n])
  {
    var a, b := Grams(t, n + 1, |t|), Grams(t, n, |t|);
    forall i | 0 <= i < |t|
      ensures n <= |a[i]| && b[i] == a[i][..n]
    {
      GramLength(t, n + 1, i);
      GramPrefix(t, n, i);
    }
    CountPrefixBound(a, b, n, w);
  }

  // ---------------------------------------------------------------- scores

  /** a / b in exact arithmetic. */
  function Frac(a: nat, b: nat): real
    requires b > 0
  {
    a as real / b as real
  }

  lemma FracBounds(a: nat, b: nat)
    requires b > 0
    ensures a > 0 ==> Frac(a, b) > 0.0
    ensures a <= b ==> Frac(a, b) <= 1.0
  {
  }

  /** The smoothed ratio (M+1)/(N+S) of term r of log_probability for query q. */
  function Ratio(k: nat, t: string, q: string, r: nat): real
    requires |t| > 0
  {
    CharSetBounds(t);
    Frac(TrainedCount(t, k, Gram(q, k + 1, r)) + 1, TrainedCount(t, k, Gram(q, k, r)) + |CharSet(t)|)
  }

  /** The sum of ln of the first m ratios. */
  function Terms(ln: real -> real, k: nat, t: string, q: string, m: nat): real
    requires |t| > 0
  {
    if m == 0 then 0.0 else Terms(ln, k, t, q, m - 1) + ln(Ratio(k, t, q, m - 1))
  }

  /** What log_probability computes for model text t and query q: the sum of
      |q| logarithms, not normalised; an empty training text makes the first
      denominator N + S zero. */
  function Score(ln: real -> real, k: nat, t: string, q: string): Result<real> {
    if |t| == 0 then
      (if |q| == 0 then Success(0.0) else Failure(ZeroDivision))
    else
      Success(Terms(ln, k, t, q, |q|))
  }

  /** The ratio of term i, written with the two stored counts of its windows. */
  lemma RatioOfCounts(k: nat, t: string, q: string, i: nat, M: nat, N: nat)
    requires |t| > 0
    requires M == TrainedCount(t, k, Gram(q, k + 1, i)) && N == TrainedCount(t, k, Gram(q, k, i))
    ensures N + |CharSet(t)| > 0
    ensures Ratio(k, t, q, i) == Frac(M + 1, N + |CharSet(t)|)
  {
    CharSetBounds(t);
  }

  lemma {:induction false} CharSetBounds(t: string)
    ensures |CharSet(t)| <= |t|
    ensures |t| > 0 ==> 1 <= |CharSet(t)|
  {
    if |t| > 0 {
      assert t[0] in CharSet(t);
      CharSetBounds(t[1..]);
      assert CharSet(t) == {t[0]} + CharSet(t[1..]);
    }
  }

  /** Every smoothing ratio of a model with non-empty training text is
      positive, so its logarithm is defined. */
  lemma RatioPositive(k: nat, t: string, q: string, r: nat)
    requires |t| > 0
    ensures Ratio(k, t, q, r) > 0.0
  {
    CharSetBounds(t);
    FracBounds(TrainedCount(t, k, Gram(q, k + 1, r)) + 1, TrainedCount(t, k, Gram(q, k, r)) + |CharSet(t)|);
  }

  /** For k < |t| every ratio is at most 1: the stored count M of the query's
      (k+1)-window never exceeds the stored count N of its k-window. */
  lemma RatioAtMostOne(k: nat, t: string, q: string, r: nat)
    requires k < |t| && r < |q|
    ensures Ratio(k, t, q, r) <= 1.0
  {
    CharSetBounds(t);
    var M, N := TrainedCount(t, k, Gram(q, k + 1, r)), TrainedCount(t, k, Gram(q, k, r));
    LongerWindowCountAtMost(k, t, q, r);
    FracBounds(M + 1, N + |CharSet(t)|);
  }

  lemma LongerWindowCountAtMost(k: nat, t: string, q: string, r: nat)
    requires k < |t| && r < |q|
    ensures TrainedCount(t, k, Gram(q, k + 1, r)) <= TrainedCount(t, k, Gram(q, k, r))
  {
    var w0, w1 := Gram(q, k, r), Gram(q, k + 1, r);
    QueryWindowPrefix(q, k, r);
    SeparateCounts(t, k, w1);
    SeparateCounts(t, k, w0);
    if |w1| == k + 1 {
      LongerCountAtMostPrefixCount(t, k, w1);
    }
  }

  /** The k-window and (k+1)-window of a query at one position: the k-window
      is the k-prefix of the longer one when that is k+1 long, and the two
      coincide when the longer one is cut short to k characters. */
  lemma QueryWindowPrefix(q: string, k: nat, r: nat)
    requires r < |q|
    ensures |Gram(q, k + 1, r)| == k + 1 ==> Gram(q, k, r) == Gram(q, k + 1, r)[..k]
    ensures |Gram(q, k + 1, r)| == k ==> Gram(q, k, r) == Gram(q, k + 1, r)
  {
    var e0, e1 := Extend(q, k), Extend(q, k + 1);
    var w0, w1 := Gram(q, k, r), Gram(q, k + 1, r);
    assert forall p :: 0 <= p < |e0| ==> e0[p] == e1[p];
    if k >= |q| {
      assert e0 == e1;
    }
  }

  // ---------------------------------------------------------------- training

  /** The value a table with default 0 returns for g. */
  function Get(m: map<string, int>, g: string): int {
    if g in m then m[g] else 0
  }

  /** `ht.update(g, ht.lookup(g) + 1)` on the table's contents. */
  function Bump(m: map<string, int>, g: string): map<string, int> {
    m[g := Get(m, g) + 1]
  }

  /** The contents of a table with default 0 after incrementing a[0], b[0],
      a[1], b[1], ... in this order. */
  function Tally(a: seq<string>, b: seq<string>): map<string, int>
    decreases |a|
  {
    if |a| == 0 || |b| == 0 then map[]
    else Bump(Bump(Tally(a[..|a| - 1], b[..|b| - 1]), a[|a| - 1]), b[|b| - 1])
  }

  /** Writing back the looked-up value plus one is Bump. */
  lemma BumpIsIncrement(m: map<string, int>, g: string, v: int)
    requires v == Get(m, g)
    ensures m[g := v + 1] == Bump(m, g)
  {
  }

  /** A tally of two equally long sequences counts each string once per
      occurrence in either. */
  lemma {:induction false} TallyCounts(a: seq<string>, b: seq<string>, g: string)
    requires |a| == |b|
    ensures Get(Tally(a, b), g) == Count(a, g) + Count(b, g)
  {
    if |a| > 0 {
      TallyCounts(a[..|a| - 1], b[..|b| - 1], g);
    }
  }

  /** One training position r appends its k-window and (k+1)-window to the
      tally of the positions before it. */
  lemma TrainingStep(t: string, k: nat, r: nat)
    ensures Tally(Grams(t, k, r + 1), Grams(t, k + 1, r + 1))
         == Bump(Bump(Tally(Grams(t, k, r), Grams(t, k + 1, r)), Gram(t, k, r)), Gram(t, k + 1, r))
  {
    assert Grams(t, k, r + 1)[..r] == Grams(t, k, r);
    assert Grams(t, k + 1, r + 1)[..r] == Grams(t, k + 1, r);
  }

  /** `val = ht.lookup(w); ht.update(w, val + 1)` */
  method Increment(ht: Table, w: string)
    requires ht.Valid() && ht.defval == 0
    modifies ht
    ensures ht.Valid() && ht.defval == 0
    ensures ht.Contents == Bump(old(ht.Contents), w)
  {
    ghost var before := ht.Contents;
    var val := ht.Lookup(w);
    ht.Update(w, val + 1);
    BumpIsIncrement(before, w, val);
  }

  /** create_hash_table: a fresh Hash_Table(57, 0), then for every position r
      of the text look up and increment the k-window and then the
      (k+1)-window of the circularly extended text. */
  method CreateHashTable(k: nat, t: string) returns (ht: Table)
    ensures fresh(ht) && ht.Valid() && ht.defval == 0
    ensures ht.Contents == Tally(Grams(t, k, |t|), Grams(t, k + 1, |t|))
    ensures forall g :: ht.Value(g) == TrainedCount(t, k, g)
  {
    ht := new Table(HashCells, 0);
    var spsK := Extend(t, k);
    var spsK1 := Extend(t, k + 1);
    for r := 0 to |t|
      invariant fresh(ht) && ht.Valid() && ht.defval == 0
      invariant ht.Contents == Tally(Grams(t, k, r), Grams(t, k + 1, r))
    {
      TrainAt(ht, t, k, r, spsK, spsK1);
    }
    forall g
      ensures ht.Value(g) == TrainedCount(t, k, g)
    {
      TallyCounts(Grams(t, k, |t|), Grams(t, k + 1, |t|), g);
    }
  }

  /** One pass of the training loop: count the k- and (k+1)-grams at r. */
  method TrainAt(ht: Table, t: string, k: nat, r: nat, spsK: string, spsK1: string)
    requires spsK == Extend(t, k) && spsK1 == Extend(t, k + 1)
    requires ht.Valid() && ht.defval == 0
    requires ht.Contents == Tally(Grams(t, k, r), Grams(t, k + 1, r))
    modifies ht
    ensures ht.Valid() && ht.defval == 0
    ensures ht.Contents == Tally(Grams(t, k, r + 1), Grams(t, k + 1, r + 1))
  {
    Increment(ht, Slice(spsK, r, r + k));
    Increment(ht, Slice(spsK1, r, r + k + 1));
    TrainingStep(t, k, r);
  }

  /** get_char_used: collect each character the first time it is seen. */
  method GetCharUsed(t: string) returns (n: nat)
    ensures n == |CharSet(t)|
  {
    var charUsed: seq<char> := [];
    for i := 0 to |t|
      invariant forall c :: c in charUsed <==> c in t[..i]
      invariant forall a, b :: 0 <= a < b < |charUsed| ==> charUsed[a] != charUsed[b]
    {
      if t[i] !in charUsed {
        charUsed := charUsed + [t[i]];
      }
      assert t[..i + 1] == t[..i] + [t[i]];
    }
    assert t[..|t|] == t;
    DistinctLength(charUsed);
    assert CharSet(t) == set c | c in charUsed;
    n := |charUsed|;
  }

  /** A sequence without repetitions has as many elements as its set. */
  lemma {:induction false} DistinctLength(s: seq<char>)
    requires forall a, b :: 0 <= a < b < |s| ==> s[a] != s[b]
    ensures |set c | c in s| == |s|
  {
    if s != [] {
      DistinctLength(s[1..]);
      assert (set c | c in s) == {s[0]} + (set c | c in s[1..]);
      assert s[0] !in (set c | c in s[1..]);
    }
  }

  /** A trained Markov model: its order, its text, its table and the number
      of distinct characters of its text. */
  class Model {
    const k: nat
    const s: string
    const ht: Table
    const numCharUsed: nat

    ghost predicate Valid()
      reads this, ht
    {
      && ht.Valid() && ht.defval == 0
      && (forall g {:trigger ht.Value(g)} :: ht.Value(g) == TrainedCount(s, k, g))
      && numCharUsed == |CharSet(s)|
    }

    constructor (k: nat, s: string)
      ensures Valid() && this.k == k && this.s == s && fresh(ht)
    {
      this.k := k;
      this.s := s;
      var table := CreateHashTable(k, s);
      ht := table;
      var n := GetCharUsed(s);
      numCharUsed := n;
    }

    /** log_probability: the sum over the positions r of the query of
        ln((M+1)/(N+S)), reading the table only through lookup. */
    method LogProbability(ln: real -> real, q: string) returns (r: Result<real>)
      requires Valid()
      ensures r == Score(ln, k, s, q)
    {
      var prob: real := 0.0;
      var S := numCharUsed;
      var spsK := Extend(q, k);
      var spsK1 := Extend(q, k + 1);
      for i := 0 to |q|
        invariant |s| > 0 ==> prob == Terms(ln, k, s, q, i)
        invariant |s| == 0 ==> i == 0 && prob == 0.0
      {
        var x := Term(spsK, spsK1, S, q, i);
        if x.Failure? {
          return Failure(ZeroDivision);
        }
        prob := prob + ln(x.value);
      }
      return Success(prob);
    }

    /** Term i of log_probability: the two lookups N and M and the ratio
        (M+1)/(N+S), which divides by zero exactly for the empty text. */
    method Term(spsK: string, spsK1: string, S: nat, q: string, i: nat) returns (x: Result<real>)
      requires Valid() && spsK == Extend(q, k) && spsK1 == Extend(q, k + 1) && S == numCharUsed
      ensures x.Failure? <==> |s| == 0
      ensures x.Failure? ==> x.error == ZeroDivision
      ensures x.Success? ==> |s| > 0 && x.value == Ratio(k, s, q, i)
    {
      var N := ht.Lookup(Slice(spsK, i, i + k));
      var M := ht.Lookup(Slice(spsK1, i, i + k + 1));
      EmptyTextCounts(s, k, Gram(q, k, i));
      if N + S == 0 {
        return Failure(ZeroDivision);
      }
      RatioOfCounts(k, s, q, i, M, N);
      x := Success(Frac(M + 1, N + S));
    }
  }

  /** A model of the empty text has no characters and stores nothing. */
  lemma EmptyTextCounts(t: string, k: nat, g: string)
    ensures |t| == 0 <==> |CharSet(t)| == 0
    ensures |t| == 0 ==> TrainedCount(t, k, g) == 0
  {
    CharSetBounds(t);
  }

  /** The conclusion of identify_speaker for the two normalised likelihoods. */
  function Conclusion(likelihood1: real, likelihood2: real): (c: string)
    ensures c == "A" <==> likelihood1 > likelihood2
    ensures c == "B" <==> likelihood2 > likelihood1
    ensures c == "A or B" <==> likelihood1 == likelihood2
  {
    if likelihood1 > likelihood2 then "A"
    else if likelihood2 > likelihood1 then "B"
    else "A or B"
  }

  datatype Identification = Identification(likelihood1: real, likelihood2: real, conclusion: string)

  /** identify_speaker: train one model per sample text, score the unknown
      text under both, divide by its length and compare. Python raises
      ZeroDivisionError for an empty unknown text (the division by its
      length) and for an empty sample text (the first ratio). */
  method IdentifySpeaker(ln: real -> real, speech1: string, speech2: string, speech3: string, order: nat)
    returns (r: Result<Identification>)
    ensures r.Failure? <==> |speech1| == 0 || |speech2| == 0 || |speech3| == 0
    ensures r.Failure? ==> r.error == ZeroDivision
    ensures r.Success? ==>
              && r.value.likelihood1 == Score(ln, order, speech1, speech3).value / |speech3| as real
              && r.value.likelihood2 == Score(ln, order, speech2, speech3).value / |speech3| as real
              && r.value.conclusion == Conclusion(r.value.likelihood1, r.value.likelihood2)
  {
    var speech1Markov := new Model(order, speech1);
    var speech2Markov := new Model(order, speech2);
    var p1 := speech1Markov.LogProbability(ln, speech3);
    if p1.Failure? || |speech3| == 0 {
      return Failure(ZeroDivision);
    }
    var likelihood1 := p1.value / |speech3| as real;
    var p2 := speech2Markov.LogProbability(ln, speech3);
    if p2.Failure? {
      return Failure(ZeroDivision);
    }
    var likelihood2 := p2.value / |speech3| as real;
    return Success(Identification(likelihood1, likelihood2, Conclusion(likelihood1, likelihood2)));
  }

  /** The windows of lengths 1 and 2 of a text of four equal characters. */
  lemma UniformGrams(c: char)
    ensures Grams([c, c, c, c], 1, 4) == [[c], [c], [c], [c]]
    ensures Grams([c, c, c, c], 2, 4) == [[c, c], [c, c], [c, c], [c, c]]
  {
    var t := [c, c, c, c];
    var e1, e2 := Extend(t, 1), Extend(t, 2);
    assert e1 == [c, c, c, c, c];
    assert e2 == [c, c, c, c, c, c];
    forall r | 0 <= r < 4
      ensures Grams(t, 1, 4)[r] == [c] && Grams(t, 2, 4)[r] == [c, c]
    {
      assert Gram(t, 1, r) == e1[r..r + 1];
      assert Gram(t, 2, r) == e2[r..r + 2];
    }
  }

  /** Four copies of x hold y four times when they are equal, else never. */
  lemma CountFour(x: string, y: string)
    ensures Count([x, x, x, x], y) == if x == y then 4 else 0
  {
    var e := if x == y then 1 else 0;
    assert Count([x], y) == e by {
      assert [x][..0] == [];
    }
    assert Count([x, x], y) == 2 * e by {
      assert [x, x][..1] == [x];
    }
    assert Count([x, x, x], y) == 3 * e by {
      assert [x, x, x][..2] == [x, x];
    }
    assert [x, x, x, x][..3] == [x, x, x];
  }

  /** The trained values of "a" and "aa" for the texts "aaaa" and "bbbb"
      of order 1. */
  lemma UniformCounts()
    ensures TrainedCount("aaaa", 1, "a") == 4 && TrainedCount("aaaa", 1, "aa") == 4
    ensures TrainedCount("bbbb", 1, "a") == 0 && TrainedCount("bbbb", 1, "aa") == 0
  {
    UniformGrams('a');
    UniformGrams('b');
    CountFour("a", "a");
    CountFour("aa", "a");
    CountFour("a", "aa");
    CountFour("aa", "aa");
    CountFour("b", "a");
    CountFour("bb", "a");
    CountFour("b", "aa");
    CountFour("bb", "aa");
  }

  /** A text of four equal characters uses one character. */
  lemma UniformCharSet(c: char)
    ensures |CharSet([c, c, c, c])| == 1
  {
    assert CharSet([c, c, c, c]) == {c};
  }

  /** The query windows of "aaaa" at order 1 are "a" and "aa" everywhere. */
  lemma UniformQueryGrams(r: nat)
    requires r < 4
    ensures Gram("aaaa", 1, r) == "a" && Gram("aaaa", 2, r) == "aa"
  {
    UniformGrams('a');
    assert Gram("aaaa", 1, r) == Grams("aaaa", 1, 4)[r];
    assert Gram("aaaa", 2, r) == Grams("aaaa", 2, 4)[r];
  }

  /** Order 1, sample texts "aaaa" and "bbbb", unknown text "aaaa": every
      ratio is 1 under both models, (4+1)/(4+1) and (0+1)/(0+1). */
  lemma UniformRatios(r: nat)
    requires r < 4
    ensures Ratio(1, "aaaa", "aaaa", r) == 1.0
    ensures Ratio(1, "bbbb", "aaaa", r) == 1.0
  {
    UniformQueryGrams(r);
    UniformCounts();
    UniformCharSet('a');
    UniformCharSet('b');
    RatioOfCounts(1, "aaaa", "aaaa", r, 4, 4);
    RatioOfCounts(1, "bbbb", "aaaa", r, 0, 0);
  }

  /** So the all-"a" sample is not preferred for the unknown text "aaaa":
      both scores are the same sum of four logarithms and the conclusion is
      "A or B". */
  lemma UniformTextsUndecided(ln: real -> real)
    ensures Score(ln, 1, "aaaa", "aaaa") == Score(ln, 1, "bbbb", "aaaa")
    ensures Conclusion(Score(ln, 1, "aaaa", "aaaa").value / 4.0, Score(ln, 1, "bbbb", "aaaa").value / 4.0) == "A or B"
  {
    UniformRatios(0);
    UniformRatios(1);
    UniformRatios(2);
    UniformRatios(3);
    assert Terms(ln, 1, "aaaa", "aaaa", 4) == Terms(ln, 1, "bbbb", "aaaa", 4);
  }

  /** Identical sample texts give equal likelihoods, hence "A or B". */
  lemma SameTextsUndecided(ln: real -> real, k: nat, t: string, q: string)
    requires |t| > 0 && |q| > 0
    ensures Conclusion(Score(ln, k, t, q).value / |q| as real, Score(ln, k, t, q).value / |q| as real) == "A or B"
  {
  }
}
