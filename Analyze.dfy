/** The tweet pre-processing of analyze.py: n-grams of the cleaned words
    of each tweet (pre_process_tweets), the frequent-items counter of task 6
    (find_frequent_6), the split of the tweets by month
    (separate_monthly_tweets) and the assembly of the monthly top-k lists
    (find_top_k_ngrams_by_month). */
module Analyze {
  import opened Text

  /** A tweet: its text and its created_at field. */
  datatype Tweet = Tweet(text: string, createdAt: string)

  /** The words always ignored (WORDS, lines 24-26). */
  const Words: seq<string> := ["a", "an", "the", "this", "that", "of", "for", "or",
    "and", "on", "to", "be", "if", "we", "you", "in", "is",
    "at", "it", "rt", "mt", "with"]

  /** STOP_PREFIXES (line 37). */
  const StopPrefixes: seq<string> := ["@", "#", "http", "&amp"]

  /** The tables the program builds from the Unicode database and the emoji
      package at start-up: PUNCTUATION, the punctuation characters joined by
      spaces, and STOP_WORDS, the set of WORDS, SYMBOLS and EMOJI. */
  datatype Tables = Tables(punctuation: string, stopWords: set<string>)

  /** STOP_WORDS holds WORDS, and the punctuation characters are not letters
      (their Unicode category is P), so in particular "a" is a stop word and
      survives strip(PUNCTUATION). */
  predicate WellFormed(t: Tables) {
    && (forall i :: 0 <= i < |Words| ==> Words[i] in t.stopWords)
    && 'a' !in t.punctuation
  }

  /** w in STOP_WORDS. */
  predicate IsStopWord(w: string, t: Tables) {
    w in t.stopWords
  }

  /** w starts with one of STOP_PREFIXES. */
  predicate HasStopPrefix(w: string) {
    exists q :: 0 <= q < |StopPrefixes| && StartsWith(w, StopPrefixes[q])
  }

  // ---------------------------------------------------------------------
  // pre_process_tweets

  /** Lines 60-62: a token found in PUNCTUATION becomes "a"; then the
      punctuation characters are stripped from both ends. */
  function Unpunctuated(w: string, t: Tables): string {
    StripChars(if Contains(t.punctuation, w) then "a" else w, t.punctuation)
  }

  /** Lines 63-65: a token starting with "$" becomes "a"; then it is
      lower-cased. */
  function Lowered(w: string): string {
    Lower(if StartsWith(w, "$") then "a" else w)
  }

  /** Lines 66-70: a stop word, or a token starting with a stop prefix,
      becomes "a". */
  function Unstopped(w: string, t: Tables): string {
    if IsStopWord(w, t) || HasStopPrefix(w) then "a" else w
  }

  /** The rewrites of lines 59-70 applied to one token of the split text,
      in their order; "a" marks a token to be dropped. */
  function Rewritten(w: string, t: Tables): string {
    Unstopped(Lowered(Unpunctuated(w, t)), t)
  }

  /** The tokens of a list that are not stop words, in order (lines 72-75). */
  function KeptTokens(ws: seq<string>, t: Tables): (r: seq<string>)
    decreases |ws|
    ensures forall k :: 0 <= k < |r| ==> !IsStopWord(r[k], t) && r[k] in ws
  {
    if |ws| == 0 then []
    else
      var init := KeptTokens(ws[..|ws| - 1], t);
      if IsStopWord(ws[|ws| - 1], t) then init else init + [ws[|ws| - 1]]
  }

  /** Each token rewritten, in order. */
  function RewrittenAll(ws: seq<string>, t: Tables): (r: seq<string>)
    decreases |ws|
    ensures |r| == |ws|
  {
    if |ws| == 0 then [] else RewrittenAll(ws[..|ws| - 1], t) + [Rewritten(ws[|ws| - 1], t)]
  }

  lemma RewrittenAllSnoc(ws: seq<string>, w: nat, t: Tables)
    requires w < |ws|
    ensures RewrittenAll(ws[..w + 1], t) == RewrittenAll(ws[..w], t) + [Rewritten(ws[w], t)]
  {
    assert ws[..w + 1][..w] == ws[..w];
  }

  lemma {:induction false} RewrittenAllIndex(ws: seq<string>, t: Tables)
    decreases |ws|
    ensures forall k :: 0 <= k < |ws| ==> RewrittenAll(ws, t)[k] == Rewritten(ws[k], t)
  {
    if |ws| > 0 {
      RewrittenAllIndex(ws[..|ws| - 1], t);
    }
  }

  lemma KeptTokensSnoc(ws: seq<string>, u: nat, t: Tables)
    requires u < |ws|
    ensures KeptTokens(ws[..u + 1], t) == KeptTokens(ws[..u], t) + (if IsStopWord(ws[u], t) then [] else [ws[u]])
  {
    assert ws[..u + 1][..u] == ws[..u];
  }

  /** The words of a tweet that its n-grams are made of. */
  function TweetTokens(text: string, t: Tables): seq<string> {
    KeptTokens(RewrittenAll(Split(text), t), t)
  }

  /** range(len(ws) - (n - 1)): how many n-grams a list of words has. */
  function WindowCount(m: nat, n: nat): nat {
    if m + 1 >= n then m + 1 - n else 0
  }

  /** The first j windows ws[i : i + n], in order. */
  function Windows(ws: seq<string>, n: nat, j: nat): (r: seq<seq<string>>)
    requires j <= WindowCount(|ws|, n)
    decreases j
  {
    if j == 0 then [] else Windows(ws, n, j - 1) + [ws[j - 1..j - 1 + n]]
  }

  /** The n-grams of a list of words. */
  function NGrams(ws: seq<string>, n: nat): seq<seq<string>> {
    Windows(ws, n, WindowCount(|ws|, n))
  }

  /** pre_process_tweets(tweets, n): the n-grams of each tweet in turn. */
  function PreProcessed(tweets: seq<Tweet>, n: nat, t: Tables): seq<seq<string>>
    decreases |tweets|
  {
    if |tweets| == 0 then []
    else PreProcessed(tweets[..|tweets| - 1], n, t) + NGrams(TweetTokens(tweets[|tweets| - 1].text, t), n)
  }

  /** Lines 68-70: the prefix loop for one token. */
  method ClearStopPrefix(w: string) returns (r: string)
    ensures r == if HasStopPrefix(w) then "a" else w
  {
    r := w;
    for q := 0 to |StopPrefixes|
      invariant r == if exists p :: 0 <= p < q && StartsWith(w, StopPrefixes[p]) then "a" else w
    {
      if StartsWith(r, StopPrefixes[q]) {
        NoStopPrefixOfA();
        r := "a";
      }
    }
  }

  lemma NoStopPrefixOfA()
    ensures !HasStopPrefix("a")
  {
    forall q | 0 <= q < |StopPrefixes|
      ensures !StartsWith("a", StopPrefixes[q])
    {
      if q == 0 {
        assert "a"[..1][0] != "@"[0];
      } else if q == 1 {
        assert "a"[..1][0] != "#"[0];
      }
    }
  }

  /** Lines 60-62 for one token. */
  method Unpunctuate(w: string, t: Tables) returns (r: string)
    ensures r == Unpunctuated(w, t)
  {
    r := w;
    if Contains(t.punctuation, r) {
      r := "a";
    }
    r := StripChars(r, t.punctuation);
  }

  /** Lines 63-65 for one token. */
  method LowerToken(w: string) returns (r: string)
    ensures r == Lowered(w)
  {
    r := w;
    if StartsWith(r, "$") {
      r := "a";
    }
    r := Lower(r);
  }

  /** Lines 66-70 for one token. */
  method Unstop(w: string, t: Tables) returns (r: string)
    ensures r == Unstopped(w, t)
  {
    r := w;
    if IsStopWord(r, t) {
      r := "a";
    }
    r := ClearStopPrefix(r);
    NoStopPrefixOfA();
  }

  /** Lines 59-70 for one token. */
  method RewriteWord(w: string, t: Tables) returns (r: string)
    ensures r == Rewritten(w, t)
  {
    r := Unpunctuate(w, t);
    r := LowerToken(r);
    r := Unstop(r, t);
  }

  /** One tweet's tokens rewritten in place in word_list (lines 56-70). */
  method RewriteTokens(ws: seq<string>, t: Tables) returns (wordList: seq<string>)
    ensures wordList == RewrittenAll(ws, t)
  {
    wordList := ws;
    for w := 0 to |wordList|
      invariant |wordList| == |ws|
      invariant wordList[..w] == RewrittenAll(ws[..w], t)
      invariant wordList[w..] == ws[w..]
    {
      var r := RewriteWord(wordList[w], t);
      RewrittenAllSnoc(ws, w, t);
      wordList := wordList[w := r];
    }
    assert wordList[..|ws|] == wordList && ws[..|ws|] == ws;
  }

  /** Lines 72-75: the tokens that are not stop words, in order. */
  method KeepTokens(wordList: seq<string>, t: Tables) returns (newWordList: seq<string>)
    ensures newWordList == KeptTokens(wordList, t)
  {
    newWordList := [];
    for u := 0 to |wordList|
      invariant newWordList == KeptTokens(wordList[..u], t)
    {
      KeptTokensSnoc(wordList, u, t);
      if !IsStopWord(wordList[u], t) {
        newWordList := newWordList + [wordList[u]];
      }
    }
    assert wordList[..|wordList|] == wordList;
  }

  /** Lines 77-79: the n-grams of the kept tokens appended to finalList. */
  method AppendNGrams(finalList: seq<seq<string>>, newWordList: seq<string>, n: nat) returns (r: seq<seq<string>>)
    ensures r == finalList + NGrams(newWordList, n)
  {
    r := finalList;
    for j := 0 to WindowCount(|newWordList|, n)
      invariant r == finalList + Windows(newWordList, n, j)
    {
      r := r + [newWordList[j..j + n]];
    }
  }

  /** pre_process_tweets (lines 42-81). */
  method PreProcessTweets(tweets: seq<Tweet>, n: nat, t: Tables) returns (finalList: seq<seq<string>>)
    ensures finalList == PreProcessed(tweets, n, t)
  {
    finalList := [];
    for i := 0 to |tweets|
      invariant finalList == PreProcessed(tweets[..i], n, t)
    {
      var wordList := RewriteTokens(Split(tweets[i].text), t);
      var newWordList := KeepTokens(wordList, t);
      assert tweets[..i + 1][..i] == tweets[..i];
      finalList := AppendNGrams(finalList, newWordList, n);
    }
    assert tweets[..|tweets|] == tweets;
  }

  // ---------------------------------------------------------------------
  // Properties of the pre-processing

  /** A token that may appear in an n-gram: not a stop word, no upper-case
      letter, and starting neither with "$" nor with a stop prefix. */
  predicate Clean(w: string, t: Tables) {
    && !IsStopWord(w, t)
    && (forall i :: 0 <= i < |w| ==> !IsUpper(w[i]))
    && !StartsWith(w, "$")
    && !HasStopPrefix(w)
  }

  /** The window count is max(0, m - n + 1), and window j is ws[j..j + n]. */
  lemma {:induction false} WindowsSpec(ws: seq<string>, n: nat, j: nat)
    requires j <= WindowCount(|ws|, n)
    decreases j
    ensures |Windows(ws, n, j)| == j
    ensures forall i :: 0 <= i < j ==> Windows(ws, n, j)[i] == ws[i..i + n] && |Windows(ws, n, j)[i]| == n
  {
    if j > 0 {
      WindowsSpec(ws, n, j - 1);
    }
  }

  /** For n >= 1 a list of m words has max(0, m - n + 1) n-grams, each of
      length n, the consecutive windows in order. */
  lemma NGramsSpec(ws: seq<string>, n: nat)
    ensures |NGrams(ws, n)| == if |ws| + 1 >= n then |ws| + 1 - n else 0
    ensures forall i :: 0 <= i < |NGrams(ws, n)| ==> NGrams(ws, n)[i] == ws[i..i + n] && |NGrams(ws, n)[i]| == n
  {
    WindowsSpec(ws, n, WindowCount(|ws|, n));
  }

  lemma SnocSplit<T>(a: seq<T>, b: seq<T>)
    requires |b| > 0
    ensures b == b[..|b| - 1] + [b[|b| - 1]]
    ensures a + b == (a + b[..|b| - 1]) + [b[|b| - 1]]
  {
  }

  lemma AppendAssoc<T>(p: seq<T>, q: seq<T>, r: seq<T>)
    ensures (p + q) + r == p + (q + r)
  {
  }

  lemma PreProcessedSnoc(xs: seq<Tweet>, x: Tweet, n: nat, t: Tables)
    ensures PreProcessed(xs + [x], n, t) == PreProcessed(xs, n, t) + NGrams(TweetTokens(x.text, t), n)
  {
    assert (xs + [x])[..|xs|] == xs;
  }

  /** The tweets are processed one after the other. */
  lemma {:induction false} PreProcessedConcat(a: seq<Tweet>, b: seq<Tweet>, n: nat, t: Tables)
    decreases |b|
    ensures PreProcessed(a + b, n, t) == PreProcessed(a, n, t) + PreProcessed(b, n, t)
  {
    if |b| == 0 {
      assert a + b == a;
    } else {
      var init, x := b[..|b| - 1], b[|b| - 1];
      PreProcessedConcat(a, init, n, t);
      SnocSplit(a, b);
      PreProcessedSnoc(a + init, x, n, t);
      PreProcessedSnoc(init, x, n, t);
      AppendAssoc(PreProcessed(a, n, t), PreProcessed(init, n, t), NGrams(TweetTokens(x.text, t), n));
    }
  }

  lemma LowerA()
    ensures Lower("a") == "a"
  {
    assert Lower("a")[0] == LowerChar('a');
  }

  /** A token marked "a" stays "a" and is dropped. */
  lemma MarkStays(t: Tables)
    requires WellFormed(t)
    ensures Unpunctuated("a", t) == "a" || Contains(t.punctuation, "a")
    ensures Lowered("a") == "a"
    ensures Unstopped("a", t) == "a"
    ensures IsStopWord("a", t)
  {
    StripCharsNothing("a", t.punctuation);
    LowerA();
    assert Words[0] == "a";
  }

  /** A token found in PUNCTUATION, one starting with "$" once stripped, and
      one that is a stop word or starts with a stop prefix once lower-cased,
      become "a"; any other token becomes its stripped, lower-cased self. */
  lemma RewrittenCases(w: string, t: Tables)
    requires WellFormed(t)
    ensures Contains(t.punctuation, w) ==> Rewritten(w, t) == "a"
    ensures StartsWith(Unpunctuated(w, t), "$") ==> Rewritten(w, t) == "a"
    ensures var l := Lowered(Unpunctuated(w, t));
      (IsStopWord(l, t) || HasStopPrefix(l)) ==> Rewritten(w, t) == "a"
    ensures Rewritten(w, t) == "a" || Rewritten(w, t) == Lower(Unpunctuated(w, t))
  {
    MarkStays(t);
    if Contains(t.punctuation, w) {
      StripCharsNothing("a", t.punctuation);
      assert Unpunctuated(w, t) == "a";
      assert !StartsWith("a", "$") by {
        assert "a"[..1][0] != "$"[0];
      }
    }
    if StartsWith(Unpunctuated(w, t), "$") {
      assert Lowered(Unpunctuated(w, t)) == "a";
    }
  }

  /** Lower-casing keeps "no upper-case letter" and the first character
      unless it is an upper-case letter, so a string starting with "$" is
      lower-cased only from one starting with "$". */
  lemma LowerStart(s: string)
    ensures forall i :: 0 <= i < |Lower(s)| ==> !IsUpper(Lower(s)[i])
    ensures StartsWith(Lower(s), "$") ==> StartsWith(s, "$")
  {
    if StartsWith(Lower(s), "$") {
      assert Lower(s)[0] == LowerChar(s[0]);
      assert s[..1] == [s[0]];
    }
  }

  /** Every kept token of a tweet is clean. */
  lemma KeptRewrittenClean(w: string, t: Tables)
    requires WellFormed(t) && !IsStopWord(Rewritten(w, t), t)
    ensures Clean(Rewritten(w, t), t)
  {
    RewrittenCases(w, t);
    MarkStays(t);
    var u := Unpunctuated(w, t);
    assert !StartsWith(u, "$");
    LowerStart(u);
    assert Rewritten(w, t) == Lower(u);
  }

  lemma TweetTokensClean(text: string, t: Tables)
    requires WellFormed(t)
    ensures forall i :: 0 <= i < |TweetTokens(text, t)| ==> Clean(TweetTokens(text, t)[i], t)
  {
    var ws := Split(text);
    var rs := RewrittenAll(ws, t);
    RewrittenAllIndex(ws, t);
    forall i | 0 <= i < |TweetTokens(text, t)|
      ensures Clean(TweetTokens(text, t)[i], t)
    {
      var x := TweetTokens(text, t)[i];
      assert x in rs && !IsStopWord(x, t);
      var j :| 0 <= j < |rs| && rs[j] == x;
      KeptRewrittenClean(ws[j], t);
    }
  }

  /** Every token of every emitted n-gram is clean: lower-case, not a stop
      word, and free of the "$" and stop prefixes. */
  lemma {:induction false} PreProcessedClean(tweets: seq<Tweet>, n: nat, t: Tables)
    requires WellFormed(t)
    decreases |tweets|
    ensures forall g, i :: 0 <= g < |PreProcessed(tweets, n, t)| && 0 <= i < |PreProcessed(tweets, n, t)[g]| ==>
      Clean(PreProcessed(tweets, n, t)[g][i], t)
  {
    if |tweets| > 0 {
      var init := tweets[..|tweets| - 1];
      PreProcessedClean(init, n, t);
      var ws := TweetTokens(tweets[|tweets| - 1].text, t);
      TweetTokensClean(tweets[|tweets| - 1].text, t);
      NGramsSpec(ws, n);
      var p, q := PreProcessed(init, n, t), NGrams(ws, n);
      assert PreProcessed(tweets, n, t) == p + q;
      forall g, i | 0 <= g < |p + q| && 0 <= i < |(p + q)[g]|
        ensures Clean((p + q)[g][i], t)
      {
        if g >= |p| {
          assert q[g - |p|][i] == ws[g - |p| + i];
        }
      }
    }
  }

  // ---------------------------------------------------------------------
  // find_frequent_6

  /** An n-gram, the items find_frequent_6 counts. */
  type Gram = seq<string>

  /** The state of find_frequent_6: the counters items_dict, and the keys
      of new_dict, the items currently tracked (its values are never read). */
  datatype Counters = Counters(counts: map<Gram, int>, tracked: set<Gram>)

  /** items_dict and new_dict before the loop: every item at 0, nothing
      tracked. */
  function Start(items: seq<Gram>): (s: Counters)
    ensures forall z :: z in s.counts <==> z in items
  {
    Counters(map z | z in items :: 0, {})
  }

  /** Lines 111-112: every tracked counter decremented. */
  function Decremented(c: map<Gram, int>, tracked: set<Gram>): (r: map<Gram, int>)
    ensures r.Keys == c.Keys
  {
    map b | b in c :: if b in tracked then c[b] - 1 else c[b]
  }

  /** Lines 113-116: the tracked items whose counter is zero are dropped. */
  function NonZero(c: map<Gram, int>, tracked: set<Gram>): set<Gram> {
    set b | b in tracked && !(b in c && c[b] == 0)
  }

  /** One pass of the loop of lines 101-116 for item a. */
  function Step(s: Counters, a: Gram, k: int): (r: Counters)
    requires a in s.counts
    ensures r.counts.Keys == s.counts.Keys
  {
    if a in s.tracked then Counters(s.counts[a := s.counts[a] + 1], s.tracked)
    else
      var tracked := s.tracked + {a};
      if |tracked| < k - 1 then Counters(s.counts[a := s.counts[a] + 1], tracked)
      else if |tracked| == k - 1 then
        var lowered := Decremented(s.counts[a := s.counts[a] + 1], tracked);
        Counters(lowered, NonZero(lowered, tracked))
      else Counters(s.counts, tracked)
  }

  /** The state after the items of xs, in order. */
  function Run(s: Counters, xs: seq<Gram>, k: int): (r: Counters)
    requires forall i :: 0 <= i < |xs| ==> xs[i] in s.counts
    decreases |xs|
    ensures r.counts.Keys == s.counts.Keys
  {
    if |xs| == 0 then s else Step(Run(s, xs[..|xs| - 1], k), xs[|xs| - 1], k)
  }

  /** Lines 118-122: the items with a non-zero counter and their counter
      (the pairs that sort_count_pairs then orders). */
  function Frequent6(items: seq<Gram>, k: int): map<Gram, int> {
    var c := Run(Start(items), items, k).counts;
    map b | b in c && c[b] != 0 :: c[b]
  }

  /** Lines 111-112 as loops over new_dict. */
  method DecrementTracked(c: map<Gram, int>, tracked: set<Gram>) returns (r: map<Gram, int>)
    ensures r == Decremented(c, tracked)
  {
    r := c;
    var rest := tracked;
    while rest != {}
      invariant rest <= tracked
      invariant r.Keys == c.Keys
      invariant forall b :: b in c ==> r[b] == if b in tracked && b !in rest then c[b] - 1 else c[b]
      decreases |rest|
    {
      var b :| b in rest;
      if b in r {
        r := r[b := r[b] - 1];
      }
      rest := rest - {b};
    }
  }

  /** Lines 113-116: the loop over overall_dict deleting zero counters from
      new_dict. */
  method DropZeros(c: map<Gram, int>, tracked: set<Gram>) returns (r: set<Gram>)
    ensures r == NonZero(c, tracked)
  {
    r := tracked;
    var rest := c.Keys;
    while rest != {}
      invariant rest <= c.Keys
      invariant forall b :: b in r <==> b in tracked && !(b in c && b !in rest && c[b] == 0)
      decreases |rest|
    {
      var b :| b in rest;
      if b in r && c[b] == 0 {
        r := r - {b};
      }
      rest := rest - {b};
    }
  }

  /** Lines 118-120: the loop over overall_dict deleting zero counters. */
  method RemoveZeros(c: map<Gram, int>) returns (r: map<Gram, int>)
    ensures r == map b | b in c && c[b] != 0 :: c[b]
  {
    r := c;
    var rest := c.Keys;
    while rest != {}
      invariant rest <= c.Keys
      invariant forall b :: b in r <==> b in c && !(b !in rest && c[b] == 0)
      invariant forall b :: b in r ==> r[b] == c[b]
      decreases |rest|
    {
      var b :| b in rest;
      if c[b] == 0 {
        r := r - {b};
      }
      rest := rest - {b};
    }
  }

  /** One pass of the loop of lines 101-116. */
  method CountItem(itemsDict: map<Gram, int>, newDict: set<Gram>, a: Gram, k: int) returns (c: map<Gram, int>, tracked: set<Gram>)
    requires a in itemsDict
    ensures Counters(c, tracked) == Step(Counters(itemsDict, newDict), a, k)
  {
    c, tracked := itemsDict, newDict;
    if a in tracked {
      c := c[a := c[a] + 1];
    } else {
      tracked := tracked + {a};
      if |tracked| < k - 1 {
        c := c[a := c[a] + 1];
      } else if |tracked| == k - 1 {
        c := c[a := c[a] + 1];
        c := DecrementTracked(c, tracked);
        tracked := DropZeros(c, tracked);
      }
    }
  }

  /** find_frequent_6 (lines 84-123), up to the final sort_count_pairs. */
  method FindFrequent6(items: seq<Gram>, k: int) returns (r: map<Gram, int>)
    ensures r == Frequent6(items, k)
  {
    var itemsDict := map z | z in items :: 0;
    var newDict: set<Gram> := {};
    for i := 0 to |items|
      invariant Counters(itemsDict, newDict) == Run(Start(items), items[..i], k)
    {
      assert items[..i + 1][..i] == items[..i];
      itemsDict, newDict := CountItem(itemsDict, newDict, items[i], k);
    }
    assert items[..|items|] == items;
    r := RemoveZeros(itemsDict);
  }

  /** The invariant of the counters: none is negative, only a tracked item
      has a non-zero counter, and for k >= 2 fewer than k - 1 items are
      tracked between passes, each with a positive counter. */
  predicate CountersValid(s: Counters, k: int) {
    && s.tracked <= s.counts.Keys
    && (forall b :: b in s.counts ==> s.counts[b] >= 0)
    && (forall b :: b in s.counts && s.counts[b] != 0 ==> b in s.tracked)
    && (k >= 2 ==> |s.tracked| < k - 1)
    && (k >= 2 ==> forall b :: b in s.tracked ==> s.counts[b] > 0)
  }

  lemma StepValid(s: Counters, a: Gram, k: int)
    requires a in s.counts && CountersValid(s, k)
    ensures CountersValid(Step(s, a, k), k)
  {
    if a !in s.tracked {
      var tracked := s.tracked + {a};
      assert |tracked| == |s.tracked| + 1;
      if |tracked| == k - 1 {
        var lowered := Decremented(s.counts[a := s.counts[a] + 1], tracked);
        assert lowered[a] == 0;
        var kept := NonZero(lowered, tracked);
        assert kept <= s.tracked;
        SubsetCard(kept, s.tracked);
      }
    }
  }

  lemma SubsetCard<T>(a: set<T>, b: set<T>)
    requires a <= b
    ensures |a| <= |b|
  {
    assert b == a + (b - a);
  }

  /** The number of times x occurs in xs. */
  function Occurrences(xs: seq<Gram>, x: Gram): nat {
    multiset(xs)[x]
  }

  /** The counters stay valid, and no counter exceeds the number of times
      its item has been seen. */
  lemma {:induction false} RunValid(items: seq<Gram>, xs: seq<Gram>, k: int)
    requires forall i :: 0 <= i < |xs| ==> xs[i] in items
    decreases |xs|
    ensures CountersValid(Run(Start(items), xs, k), k)
    ensures forall b :: b in items ==> Run(Start(items), xs, k).counts[b] <= Occurrences(xs, b)
  {
    if |xs| > 0 {
      var init, a := xs[..|xs| - 1], xs[|xs| - 1];
      RunValid(items, init, k);
      var s := Run(Start(items), init, k);
      StepValid(s, a, k);
      assert xs == init + [a];
      forall b | b in items
        ensures Step(s, a, k).counts[b] <= Occurrences(xs, b)
      {
        assert multiset(xs) == multiset(init) + multiset{a};
        assert Step(s, a, k).counts[b] <= s.counts[b] + (if b == a then 1 else 0);
      }
    } else {
      assert CountersValid(Start(items), k);
    }
  }

  /** Every item find_frequent_6 reports is an item of the list, with a
      positive count no larger than its number of occurrences; for k >= 2
      it reports fewer than k - 1 items. */
  lemma Frequent6Spec(items: seq<Gram>, k: int)
    ensures forall b :: b in Frequent6(items, k) ==>
      b in items && 0 < Frequent6(items, k)[b] <= Occurrences(items, b)
    ensures k >= 2 ==> |Frequent6(items, k).Keys| < k - 1
  {
    RunValid(items, items, k);
    var s := Run(Start(items), items, k);
    assert Frequent6(items, k).Keys <= s.tracked;
    SubsetCard(Frequent6(items, k).Keys, s.tracked);
  }

  /** k = 3, first of two distinct items: x is tracked with counter 1. */
  lemma TwoItemsFirst(x: Gram, y: Gram)
    requires x != y
    ensures var s1 := Step(Start([x, y]), x, 3);
      s1.tracked == {x} && s1.counts.Keys == {x, y} && s1.counts[x] == 1 && s1.counts[y] == 0
  {
    var s0 := Start([x, y]);
    assert s0.counts.Keys == {x, y};
  }

  /** k = 3, second item: two tracked items reach k - 1, so both counters
      drop back to zero. */
  lemma TwoItemsSecond(s1: Counters, x: Gram, y: Gram)
    requires x != y
    requires s1.tracked == {x} && s1.counts.Keys == {x, y} && s1.counts[x] == 1 && s1.counts[y] == 0
    ensures var s2 := Step(s1, y, 3);
      s2.counts.Keys == {x, y} && s2.counts[x] == 0 && s2.counts[y] == 0
  {
    assert |s1.tracked + {y}| == 2;
  }

  /** With k = 3 no item of two distinct ones is reported, though each
      occurs once in two items, at least a third of the list. */
  lemma Frequent6TwoItems()
    ensures Frequent6([["x"], ["y"]], 3) == map[]
  {
    var x, y: Gram := ["x"], ["y"];
    var items := [x, y];
    assert x != y by {
      assert x[0] != y[0];
    }
    var s0 := Start(items);
    assert items[..1] == [x];
    assert [x][..0] == [];
    var s1 := Step(s0, x, 3);
    TwoItemsFirst(x, y);
    assert Run(s0, [x], 3) == s1;
    var s2 := Step(s1, y, 3);
    TwoItemsSecond(s1, x, y);
    assert Run(s0, items, 3) == s2;
  }

  // ---------------------------------------------------------------------
  // separate_monthly_tweets and find_top_k_ngrams_by_month

  /** A (year, month) pair, as grab_year_month returns it. */
  type YearMonth = (int, int)

  const April: YearMonth := (2017, 4)
  const May: YearMonth := (2017, 5)
  const June: YearMonth := (2017, 6)

  /** One of the three months separate_monthly_tweets keeps. */
  predicate Kept(m: YearMonth) {
    m == April || m == May || m == June
  }

  /** The tweets whose created_at falls in month m, in their order;
      yearMonth stands for grab_year_month. */
  function InMonth(tweets: seq<Tweet>, yearMonth: string -> YearMonth, m: YearMonth): seq<Tweet>
    decreases |tweets|
  {
    if |tweets| == 0 then []
    else
      var last := tweets[|tweets| - 1];
      InMonth(tweets[..|tweets| - 1], yearMonth, m) + (if yearMonth(last.createdAt) == m then [last] else [])
  }

  /** The tweets of none of the three months. */
  function Outside(tweets: seq<Tweet>, yearMonth: string -> YearMonth): seq<Tweet>
    decreases |tweets|
  {
    if |tweets| == 0 then []
    else
      var last := tweets[|tweets| - 1];
      Outside(tweets[..|tweets| - 1], yearMonth) + (if Kept(yearMonth(last.createdAt)) then [] else [last])
  }

  /** Lines 127-151 (the unused parameter n is not modelled). */
  method SeparateMonthlyTweets(tweets: seq<Tweet>, yearMonth: string -> YearMonth)
    returns (aprilTweets: seq<Tweet>, mayTweets: seq<Tweet>, juneTweets: seq<Tweet>)
    ensures aprilTweets == InMonth(tweets, yearMonth, April)
    ensures mayTweets == InMonth(tweets, yearMonth, May)
    ensures juneTweets == InMonth(tweets, yearMonth, June)
  {
    aprilTweets, mayTweets, juneTweets := [], [], [];
    for i := 0 to |tweets|
      invariant aprilTweets == InMonth(tweets[..i], yearMonth, April)
      invariant mayTweets == InMonth(tweets[..i], yearMonth, May)
      invariant juneTweets == InMonth(tweets[..i], yearMonth, June)
    {
      assert tweets[..i + 1][..i] == tweets[..i];
      var b := yearMonth(tweets[i].createdAt);
      if b == April {
        aprilTweets := aprilTweets + [tweets[i]];
      }
      if b == May {
        mayTweets := mayTweets + [tweets[i]];
      }
      if b == June {
        juneTweets := juneTweets + [tweets[i]];
      }
    }
    assert tweets[..|tweets|] == tweets;
  }

  lemma InMonthSnoc(tweets: seq<Tweet>, x: Tweet, yearMonth: string -> YearMonth, m: YearMonth)
    ensures InMonth(tweets + [x], yearMonth, m)
      == InMonth(tweets, yearMonth, m) + (if yearMonth(x.createdAt) == m then [x] else [])
  {
    assert (tweets + [x])[..|tweets|] == tweets;
  }

  /** A tweet is in the list of month m exactly when it is one of the
      tweets and was created in m. */
  lemma {:induction false} InMonthMembers(tweets: seq<Tweet>, yearMonth: string -> YearMonth, m: YearMonth)
    decreases |tweets|
    ensures forall x :: x in InMonth(tweets, yearMonth, m) <==> x in tweets && yearMonth(x.createdAt) == m
  {
    if |tweets| > 0 {
      var init := tweets[..|tweets| - 1];
      InMonthMembers(init, yearMonth, m);
      assert tweets == init + [tweets[|tweets| - 1]];
    }
  }

  /** The split keeps the order: the list of a concatenation is the
      concatenation of the lists. */
  lemma {:induction false} InMonthConcat(a: seq<Tweet>, b: seq<Tweet>, yearMonth: string -> YearMonth, m: YearMonth)
    decreases |b|
    ensures InMonth(a + b, yearMonth, m) == InMonth(a, yearMonth, m) + InMonth(b, yearMonth, m)
  {
    if |b| == 0 {
      assert a + b == a;
    } else {
      var init, x := b[..|b| - 1], b[|b| - 1];
      InMonthConcat(a, init, yearMonth, m);
      SnocSplit(a, b);
      InMonthSnoc(a + init, x, yearMonth, m);
      assert b == init + [x];
      InMonthSnoc(init, x, yearMonth, m);
      AppendAssoc(InMonth(a, yearMonth, m), InMonth(init, yearMonth, m), if yearMonth(x.createdAt) == m then [x] else []);
    }
  }

  lemma OutsideSnoc(tweets: seq<Tweet>, x: Tweet, yearMonth: string -> YearMonth)
    ensures Outside(tweets + [x], yearMonth)
      == Outside(tweets, yearMonth) + (if Kept(yearMonth(x.createdAt)) then [] else [x])
  {
    assert (tweets + [x])[..|tweets|] == tweets;
  }

  /** The tweets of the three lists and of the other months together. */
  function Parts(tweets: seq<Tweet>, yearMonth: string -> YearMonth): multiset<Tweet> {
    multiset(InMonth(tweets, yearMonth, April)) + multiset(InMonth(tweets, yearMonth, May))
      + multiset(InMonth(tweets, yearMonth, June)) + multiset(Outside(tweets, yearMonth))
  }

  /** The multiset of a list after a conditional append. */
  lemma MultisetSnocIf(a: seq<Tweet>, x: Tweet, b: bool)
    ensures multiset(a + (if b then [x] else [])) == multiset(a) + (if b then multiset{x} else multiset{})
  {
    if !b {
      assert a + [] == a;
    }
  }

  lemma PartsSnoc(tweets: seq<Tweet>, x: Tweet, yearMonth: string -> YearMonth)
    ensures Parts(tweets + [x], yearMonth) == Parts(tweets, yearMonth) + multiset{x}
  {
    var ym := yearMonth(x.createdAt);
    InMonthSnoc(tweets, x, yearMonth, April);
    InMonthSnoc(tweets, x, yearMonth, May);
    InMonthSnoc(tweets, x, yearMonth, June);
    OutsideSnoc(tweets, x, yearMonth);
    MultisetSnocIf(InMonth(tweets, yearMonth, April), x, ym == April);
    MultisetSnocIf(InMonth(tweets, yearMonth, May), x, ym == May);
    MultisetSnocIf(InMonth(tweets, yearMonth, June), x, ym == June);
    MultisetSnocIf(Outside(tweets, yearMonth), x, !Kept(ym));
    OnePartGrows(multiset(InMonth(tweets, yearMonth, April)), multiset(InMonth(tweets, yearMonth, May)),
      multiset(InMonth(tweets, yearMonth, June)), multiset(Outside(tweets, yearMonth)),
      ym == April, ym == May, ym == June, !Kept(ym), x);
  }

  /** Adding x to exactly one of four parts adds it once to their sum. */
  lemma OnePartGrows(a: multiset<Tweet>, m: multiset<Tweet>, j: multiset<Tweet>, o: multiset<Tweet>,
                     inA: bool, inM: bool, inJ: bool, inO: bool, x: Tweet)
    requires (inA && !inM && !inJ && !inO) || (!inA && inM && !inJ && !inO)
          || (!inA && !inM && inJ && !inO) || (!inA && !inM && !inJ && inO)
    ensures (a + (if inA then multiset{x} else multiset{})) + (m + (if inM then multiset{x} else multiset{}))
          + (j + (if inJ then multiset{x} else multiset{})) + (o + (if inO then multiset{x} else multiset{}))
          == a + m + j + o + multiset{x}
  {
  }

  /** The three lists and the tweets of other months together hold every
      tweet exactly as often as the input does. */
  lemma {:induction false} MonthsPartition(tweets: seq<Tweet>, yearMonth: string -> YearMonth)
    decreases |tweets|
    ensures multiset(tweets) == Parts(tweets, yearMonth)
  {
    if |tweets| > 0 {
      var init, x := tweets[..|tweets| - 1], tweets[|tweets| - 1];
      MonthsPartition(init, yearMonth);
      assert tweets == init + [x];
      PartsSnoc(init, x, yearMonth);
    }
  }

  /** find_top_k_ngrams (lines 245-260): topK, standing for find_top_k,
      applied to the n-grams of the tweets. */
  function TopKNGrams<R>(tweets: seq<Tweet>, n: nat, k: int, t: Tables, topK: (seq<Gram>, int) -> R): R {
    topK(PreProcessed(tweets, n, t), k)
  }

  /** find_top_k_ngrams, computing the n-grams with pre_process_tweets. */
  method FindTopKNGrams<R>(tweets: seq<Tweet>, n: nat, k: int, t: Tables, topK: (seq<Gram>, int) -> R)
    returns (r: R)
    ensures r == TopKNGrams(tweets, n, k, t, topK)
  {
    var finalList := PreProcessTweets(tweets, n, t);
    r := topK(finalList, k);
  }

  /** The entry of month m in the result of find_top_k_ngrams_by_month
      (lines 321-326): present only when the month has tweets. */
  function Entry<R>(m: YearMonth, ts: seq<Tweet>, top: R): (r: seq<(YearMonth, R)>)
    ensures |r| <= 1
  {
    if |ts| > 0 then [(m, top)] else []
  }

  /** The result of find_top_k_ngrams_by_month. */
  function ByMonth<R>(tweets: seq<Tweet>, n: nat, k: int, t: Tables, yearMonth: string -> YearMonth,
                      topK: (seq<Gram>, int) -> R): seq<(YearMonth, R)>
  {
    var a, b, c := InMonth(tweets, yearMonth, April), InMonth(tweets, yearMonth, May), InMonth(tweets, yearMonth, June);
    Entries(a, TopKNGrams(a, n, k, t, topK), b, TopKNGrams(b, n, k, t, topK), c, TopKNGrams(c, n, k, t, topK))
  }

  /** find_top_k_ngrams_by_month (lines 301-326). */
  method FindTopKNGramsByMonth<R>(tweets: seq<Tweet>, n: nat, k: int, t: Tables,
                                  yearMonth: string -> YearMonth, topK: (seq<Gram>, int) -> R)
    returns (finalList: seq<(YearMonth, R)>)
    ensures finalList == ByMonth(tweets, n, k, t, yearMonth, topK)
  {
    finalList := [];
    var aprilTweets, mayTweets, juneTweets := SeparateMonthlyTweets(tweets, yearMonth);
    var aprilTop := FindTopKNGrams(aprilTweets, n, k, t, topK);
    var mayTop := FindTopKNGrams(mayTweets, n, k, t, topK);
    var juneTop := FindTopKNGrams(juneTweets, n, k, t, topK);
    var april, may, june := (April, aprilTop), (May, mayTop), (June, juneTop);
    if |aprilTweets| > 0 {
      finalList := finalList + [april];
    }
    assert finalList == Entry(April, aprilTweets, aprilTop);
    if |mayTweets| > 0 {
      finalList := finalList + [may];
    }
    assert finalList == Entry(April, aprilTweets, aprilTop) + Entry(May, mayTweets, mayTop);
    if |juneTweets| > 0 {
      finalList := finalList + [june];
    }
    assert finalList == Entries(aprilTweets, aprilTop, mayTweets, mayTop, juneTweets, juneTop);
  }

  /** The three entries together. */
  function Entries<R>(a: seq<Tweet>, ra: R, b: seq<Tweet>, rb: R, c: seq<Tweet>, rc: R): seq<(YearMonth, R)> {
    Entry(April, a, ra) + Entry(May, b, rb) + Entry(June, c, rc)
  }

  /** The element at each position of the three entries. */
  lemma EntriesAt<R>(a: seq<Tweet>, ra: R, b: seq<Tweet>, rb: R, c: seq<Tweet>, rc: R)
    ensures var r, p, q := Entries(a, ra, b, rb, c, rc), |Entry(April, a, ra)|, |Entry(May, b, rb)|;
      forall i :: 0 <= i < |r| ==>
        r[i] == if i < p then (April, ra) else if i < p + q then (May, rb) else (June, rc)
  {
    var ea, eb, ec := Entry(April, a, ra), Entry(May, b, rb), Entry(June, c, rc);
    var r := ea + eb + ec;
    forall i | 0 <= i < |r|
      ensures r[i] == if i < |ea| then (April, ra) else if i < |ea| + |eb| then (May, rb) else (June, rc)
    {
      if i < |ea| {
        assert r[i] == ea[0];
      } else if i < |ea| + |eb| {
        assert r[i] == eb[0];
      } else {
        assert r[i] == ec[0];
      }
    }
  }

  /** Each element is the entry of a month with tweets. */
  lemma EntriesMonths<R>(a: seq<Tweet>, ra: R, b: seq<Tweet>, rb: R, c: seq<Tweet>, rc: R)
    ensures var r := Entries(a, ra, b, rb, c, rc);
      forall i :: 0 <= i < |r| ==>
        (r[i] == (April, ra) && |a| > 0) || (r[i] == (May, rb) && |b| > 0) || (r[i] == (June, rc) && |c| > 0)
  {
    EntriesAt(a, ra, b, rb, c, rc);
  }

  /** The months come in April, May, June order. */
  lemma EntriesOrder<R>(a: seq<Tweet>, ra: R, b: seq<Tweet>, rb: R, c: seq<Tweet>, rc: R)
    ensures var r := Entries(a, ra, b, rb, c, rc);
      forall i, j :: 0 <= i < j < |r| ==> r[i].0.1 < r[j].0.1
  {
    EntriesAt(a, ra, b, rb, c, rc);
  }

  /** A month appears exactly when it has tweets. */
  lemma EntriesPresent<R>(a: seq<Tweet>, ra: R, b: seq<Tweet>, rb: R, c: seq<Tweet>, rc: R)
    ensures var r := Entries(a, ra, b, rb, c, rc);
      && ((exists i :: 0 <= i < |r| && r[i].0 == April) <==> |a| > 0)
      && ((exists i :: 0 <= i < |r| && r[i].0 == May) <==> |b| > 0)
      && ((exists i :: 0 <= i < |r| && r[i].0 == June) <==> |c| > 0)
  {
    EntriesAt(a, ra, b, rb, c, rc);
    var p, q := |Entry(April, a, ra)|, |Entry(May, b, rb)|;
    var r := Entries(a, ra, b, rb, c, rc);
    if |a| > 0 {
      assert r[0].0 == April;
    }
    if |b| > 0 {
      assert r[p].0 == May;
    }
    if |c| > 0 {
      assert r[p + q].0 == June;
    }
  }

  /** Each element of the result is April, May or June with the top-k
      list of the n-grams of that month's tweets. */
  lemma ByMonthEntries<R>(tweets: seq<Tweet>, n: nat, k: int, t: Tables, yearMonth: string -> YearMonth,
                          topK: (seq<Gram>, int) -> R)
    ensures var r := ByMonth(tweets, n, k, t, yearMonth, topK);
      forall i :: 0 <= i < |r| ==>
        Kept(r[i].0) && r[i].1 == TopKNGrams(InMonth(tweets, yearMonth, r[i].0), n, k, t, topK)
  {
    var a, b, c := InMonth(tweets, yearMonth, April), InMonth(tweets, yearMonth, May), InMonth(tweets, yearMonth, June);
    EntriesMonths(a, TopKNGrams(a, n, k, t, topK), b, TopKNGrams(b, n, k, t, topK), c, TopKNGrams(c, n, k, t, topK));
  }

  /** The months of the result come in April, May, June order. */
  lemma ByMonthOrder<R>(tweets: seq<Tweet>, n: nat, k: int, t: Tables, yearMonth: string -> YearMonth,
                        topK: (seq<Gram>, int) -> R)
    ensures var r := ByMonth(tweets, n, k, t, yearMonth, topK);
      forall i, j :: 0 <= i < j < |r| ==> r[i].0.1 < r[j].0.1
  {
    var a, b, c := InMonth(tweets, yearMonth, April), InMonth(tweets, yearMonth, May), InMonth(tweets, yearMonth, June);
    EntriesOrder(a, TopKNGrams(a, n, k, t, topK), b, TopKNGrams(b, n, k, t, topK), c, TopKNGrams(c, n, k, t, topK));
  }

  /** A month is in the result exactly when it has tweets. */
  lemma ByMonthPresent<R>(tweets: seq<Tweet>, n: nat, k: int, t: Tables, yearMonth: string -> YearMonth,
                          topK: (seq<Gram>, int) -> R)
    ensures var r := ByMonth(tweets, n, k, t, yearMonth, topK);
      forall m :: Kept(m) ==> ((exists i :: 0 <= i < |r| && r[i].0 == m) <==> |InMonth(tweets, yearMonth, m)| > 0)
  {
    var a, b, c := InMonth(tweets, yearMonth, April), InMonth(tweets, yearMonth, May), InMonth(tweets, yearMonth, June);
    EntriesPresent(a, TopKNGrams(a, n, k, t, topK), b, TopKNGrams(b, n, k, t, topK), c, TopKNGrams(c, n, k, t, topK));
    var r := ByMonth(tweets, n, k, t, yearMonth, topK);
    forall m | Kept(m)
      ensures (exists i :: 0 <= i < |r| && r[i].0 == m) <==> |InMonth(tweets, yearMonth, m)| > 0
    {
      if m == April {
      } else if m == May {
      } else {
      }
    }
  }
}
