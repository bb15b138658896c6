/** Order-preserving duplicate removal, the reference both
    remove_duplicates in courses.py and the word filter of clean_text in
    crawler.py are measured against. */
module Lists {

  predicate NoDuplicates<T(==)>(xs: seq<T>) {
    forall i, j :: 0 <= i < j < |xs| ==> xs[i] != xs[j]
  }

  /** The elements of xs at their first occurrence, in order: xs[i] is kept
      exactly when it does not occur in xs[..i]. */
  function FirstOccurrences<T(==)>(xs: seq<T>): (r: seq<T>)
    decreases |xs|
  {
    if |xs| == 0 then []
    else
      var init := xs[..|xs| - 1];
      FirstOccurrences(init) + (if xs[|xs| - 1] in init then [] else [xs[|xs| - 1]])
  }

  /** FirstOccurrences keeps every element once and no other. */
  lemma {:induction false} FirstOccurrencesSpec<T>(xs: seq<T>)
    decreases |xs|
    ensures NoDuplicates(FirstOccurrences(xs))
    ensures forall x :: x in FirstOccurrences(xs) <==> x in xs
  {
    if |xs| > 0 {
      var init := xs[..|xs| - 1];
      FirstOccurrencesSpec(init);
      assert xs == init + [xs[|xs| - 1]];
    }
  }

  /** Appending an element that is already present changes nothing;
      appending a new one appends it. */
  lemma FirstOccurrencesSnoc<T>(xs: seq<T>, x: T)
    ensures FirstOccurrences(xs + [x]) == FirstOccurrences(xs) + (if x in xs then [] else [x])
  {
    assert (xs + [x])[..|xs|] == xs;
  }

  /** A list without duplicates is its own first occurrences. */
  lemma {:induction false} FirstOccurrencesOfDistinct<T>(xs: seq<T>)
    requires NoDuplicates(xs)
    decreases |xs|
    ensures FirstOccurrences(xs) == xs
  {
    if |xs| > 0 {
      var init := xs[..|xs| - 1];
      assert NoDuplicates(init);
      FirstOccurrencesOfDistinct(init);
      assert xs[|xs| - 1] !in init by {
        forall i | 0 <= i < |init|
          ensures init[i] != xs[|xs| - 1]
        {
          assert init[i] == xs[i];
        }
      }
      assert xs == init + [xs[|xs| - 1]];
    }
  }

  lemma PrefixTransitive<T>(a: seq<T>, b: seq<T>, c: seq<T>)
    requires a <= b && b <= c
    ensures a <= c
  {
    assert c[..|a|] == c[..|b|][..|a|];
  }

  lemma PrefixOfAppend<T>(a: seq<T>, b: seq<T>)
    ensures a <= a + b
  {
    assert (a + b)[..|a|] == a;
  }

  lemma PrefixExtend<T>(d: seq<T>, p: seq<T>, q: seq<T>)
    requires p <= q
    ensures d + p <= d + q
  {
    assert (d + q)[..|d + p|] == d + q[..|p|];
  }
}
