/** Model of english_dictionary.py: a prefix trie of words with per-node
    counts, and the EnglishDictionary built from the lines of a word file,
    which answers is_word, num_completions and get_completions.

    A TrieNode is a value here: node_children, a Python dict, is the list of
    its (key, child) pairs in insertion order, which is the order in which
    Python iterates the dict. */
module Dictionary {
  import opened Wrappers
  import opened Text

  /** node_count, node_completion, node_children. */
  datatype Trie = Node(count: nat, completion: bool, children: seq<(char, Trie)>)

  /** TrieNode(): a fresh node. */
  const Empty: Trie := Node(0, false, [])

  /** The three actions of search_word ("Find", "Count", "Completions"). */
  datatype Action = Find | Count | Completions

  /** An element of the list search_word returns: a string, or a node count. */
  datatype Entry = Word(text: string) | Number(value: nat)

  /** `key in node_children`: the index of the pair with key c. */
  function FindChild(cs: seq<(char, Trie)>, c: char): (r: Option<nat>)
    ensures r.Some? ==> r.value < |cs| && cs[r.value].0 == c
    ensures r.Some? ==> forall j :: 0 <= j < r.value ==> cs[j].0 != c
    ensures r.None? <==> forall j :: 0 <= j < |cs| ==> cs[j].0 != c
  {
    if |cs| == 0 then None
    else if cs[0].0 == c then Some(0)
    else match FindChild(cs[1..], c)
      case None => None
      case Some(j) => Some(j + 1)
  }

  /** No key occurs twice among the children, as in a dict. */
  predicate Keyed(cs: seq<(char, Trie)>) {
    forall a, b :: 0 <= a < b < |cs| ==> cs[a].0 != cs[b].0
  }

  // ---------------------------------------------------------------- add_word

  /** add_word: count the word at every node of its path, creating the
      missing nodes, and mark its last node as a completion. */
  function AddWord(t: Trie, w: string): (r: Trie)
    ensures r.count == t.count + 1
    ensures t.completion ==> r.completion
    decreases |w|
  {
    if |w| == 0 then
      t.(completion := true, count := t.count + 1)
    else
      var key, rest := w[0], w[1..];
      match FindChild(t.children, key)
      case Some(i) =>
        t.(children := t.children[i := (key, AddWord(t.children[i].1, rest))], count := t.count + 1)
      case None =>
        t.(children := t.children + [(key, AddWord(Empty, rest))], count := t.count + 1)
  }

  // ---------------------------------------------------------------- stored words

  /** The node reached from t by following the characters of w, if any. */
  function Descend(t: Trie, w: string): Option<Trie>
    decreases |w|
  {
    if |w| == 0 then Some(t)
    else match FindChild(t.children, w[0])
      case Some(i) => Descend(t.children[i].1, w[1..])
      case None => None
  }

  /** w is stored: its path exists and ends at a completion. */
  predicate IsStored(t: Trie, w: string) {
    Descend(t, w).Some? && Descend(t, w).value.completion
  }

  /** The suffixes stored below t in traversal order: "" when t is a
      completion, then those of each child behind its key. */
  function Suffixes(t: Trie): seq<string>
    decreases t, |t.children| + 1
  {
    (if t.completion then [""] else []) + ChildSuffixes(t, 0)
  }

  function ChildSuffixes(t: Trie, i: nat): seq<string>
    decreases t, |t.children| - i
  {
    if i >= |t.children| then []
    else Prefixed([t.children[i].0], Suffixes(t.children[i].1)) + ChildSuffixes(t, i + 1)
  }

  /** p + x for every x of xs. */
  function Prefixed(p: string, xs: seq<string>): (r: seq<string>)
    ensures |r| == |xs|
  {
    seq(|xs|, i requires 0 <= i < |xs| => p + xs[i])
  }

  /** The invariant the constructor keeps: no repeated keys, and every
      node's count is the number of words stored below it. */
  predicate WellFormed(t: Trie) {
    && Keyed(t.children)
    && t.count == |Suffixes(t)|
    && (forall i :: 0 <= i < |t.children| ==> WellFormed(t.children[i].1))
  }

  predicate Distinct(xs: seq<string>) {
    forall a, b :: 0 <= a < b < |xs| ==> xs[a] != xs[b]
  }

  // ---------------------------------------------------------------- search_word

  /** get_suffix(prefix, prefix_length): prefix[prefix_length:] when this node
      is a completion, then the suffixes of each child with its key added to
      the prefix. (Its `node_children.keys() == []` test is never true in
      Python 3, so it never returns None.) */
  function GetSuffix(t: Trie, prefix: string, prefixLength: nat): seq<string>
    decreases t, |t.children| + 1
  {
    (if t.completion then [Drop(prefix, prefixLength)] else []) + ChildGetSuffix(t, 0, prefix, prefixLength)
  }

  function ChildGetSuffix(t: Trie, i: nat, prefix: string, prefixLength: nat): seq<string>
    decreases t, |t.children| - i
  {
    if i >= |t.children| then []
    else GetSuffix(t.children[i].1, prefix + [t.children[i].0], prefixLength)
         + ChildGetSuffix(t, i + 1, prefix, prefixLength)
  }

  /** Python's s[n:] for n >= 0. */
  function Drop(s: string, n: nat): string {
    if n <= |s| then s[n..] else []
  }

  /** search_word(word, action, word_list, current_prefix): follow the word;
      a missing child empties the list; at the end node the action decides
      what the list holds. */
  function SearchWord(t: Trie, word: string, action: Action, currentPrefix: string): seq<Entry>
    decreases |word|
  {
    if |word| > 0 then
      match FindChild(t.children, word[0])
      case Some(i) => SearchWord(t.children[i].1, word[1..], action, currentPrefix + [word[0]])
      case None => []
    else
      AtNode(t, action, currentPrefix)
  }

  /** What search_word puts in the list at the node the word leads to. */
  function AtNode(t: Trie, action: Action, currentPrefix: string): seq<Entry> {
    match action
    case Count => [Number(t.count)]
    case Find => if t.completion then [Word(currentPrefix)] else []
    case Completions => Texts(GetSuffix(t, currentPrefix, |currentPrefix|))
  }

  function Texts(xs: seq<string>): (r: seq<Entry>)
    ensures |r| == |xs|
  {
    seq(|xs|, i requires 0 <= i < |xs| => Word(xs[i]))
  }

  function Strings(es: seq<Entry>): (r: seq<string>)
    ensures |r| == |es|
  {
    seq(|es|, i requires 0 <= i < |es| => if es[i].Word? then es[i].text else [])
  }

  // ---------------------------------------------------------------- child lists

  /** Replacing a child under the same key changes no FindChild answer. */
  lemma FindChildReplace(cs: seq<(char, Trie)>, i: nat, n: Trie, c: char)
    requires i < |cs|
    ensures FindChild(cs[i := (cs[i].0, n)], c) == FindChild(cs, c)
  {
    var ds := cs[i := (cs[i].0, n)];
    var r, s := FindChild(ds, c), FindChild(cs, c);
    if r.Some? {
      assert ds[r.value].0 == cs[r.value].0;
    }
    if s.Some? {
      assert ds[s.value].0 == cs[s.value].0;
    }
  }

  /** A child appended under a new key is found only under that key. */
  lemma FindChildAppend(cs: seq<(char, Trie)>, key: char, n: Trie, c: char)
    requires FindChild(cs, key).None?
    ensures FindChild(cs + [(key, n)], c) == if c == key then Some(|cs|) else FindChild(cs, c)
  {
    var ds := cs + [(key, n)];
    var r, s := FindChild(ds, c), FindChild(cs, c);
    if r.Some? && r.value < |cs| {
      assert ds[r.value].0 == cs[r.value].0;
    }
    if s.Some? {
      assert ds[s.value].0 == cs[s.value].0;
    }
    assert ds[|cs|].0 == key;
  }

  /** ChildSuffixes depends on the children only. */
  lemma {:induction false} ChildSuffixesOfChildren(t: Trie, u: Trie, i: nat)
    requires t.children == u.children
    ensures ChildSuffixes(t, i) == ChildSuffixes(u, i)
    decreases |t.children| - i
  {
    if i < |t.children| {
      ChildSuffixesOfChildren(t, u, i + 1);
    }
  }

  /** Replacing child i by n changes the number of suffixes from position
      j <= i on by the difference of the two children's numbers. */
  lemma {:induction false} ChildSuffixesReplace(t: Trie, u: Trie, i: nat, n: Trie, j: nat)
    requires i < |t.children| && u.children == t.children[i := (t.children[i].0, n)]
    ensures |ChildSuffixes(u, j)| == |ChildSuffixes(t, j)|
              + (if j <= i then |Suffixes(n)| - |Suffixes(t.children[i].1)| else 0)
    decreases |t.children| - j
  {
    if j < |t.children| {
      ChildSuffixesReplace(t, u, i, n, j + 1);
    }
  }

  /** Appending a child adds its suffixes. */
  lemma {:induction false} ChildSuffixesAppend(t: Trie, u: Trie, p: (char, Trie), j: nat)
    requires u.children == t.children + [p] && j <= |t.children|
    ensures |ChildSuffixes(u, j)| == |ChildSuffixes(t, j)| + |Suffixes(p.1)|
    decreases |t.children| - j
  {
    if j < |t.children| {
      ChildSuffixesAppend(t, u, p, j + 1);
    } else {
      assert ChildSuffixes(u, j + 1) == [];
    }
  }

  lemma PrefixedMember(c: char, xs: seq<string>, y: string)
    ensures y in Prefixed([c], xs) <==> |y| > 0 && y[0] == c && y[1..] in xs
  {
    if y in Prefixed([c], xs) {
      var k :| 0 <= k < |xs| && Prefixed([c], xs)[k] == y;
      assert y[1..] == xs[k];
    }
    if |y| > 0 && y[0] == c && y[1..] in xs {
      var k :| 0 <= k < |xs| && xs[k] == y[1..];
      assert Prefixed([c], xs)[k] == y;
    }
  }

  // ---------------------------------------------------------------- stored words

  lemma {:induction false} EmptyStoresNothing(w: string)
    ensures !IsStored(Empty, w)
  {
  }

  /** add_word(w) stores w and keeps every word stored before; nothing else
      becomes stored. */
  lemma {:induction false} AddWordStored(t: Trie, w: string, v: string)
    ensures IsStored(AddWord(t, w), v) <==> IsStored(t, v) || v == w
    decreases |w|, 1
  {
    if |w| > 0 && |v| > 0 {
      assert v == w <==> v[0] == w[0] && v[1..] == w[1..];
      match FindChild(t.children, w[0])
      case Some(i) => AddBelowStored(t, w, v, i);
      case None => AddNewStored(t, w, v);
    }
  }

  /** AddWordStored when the first character has a child already. */
  lemma {:induction false} AddBelowStored(t: Trie, w: string, v: string, i: nat)
    requires |w| > 0 && |v| > 0 && FindChild(t.children, w[0]) == Some(i)
    requires v == w <==> v[0] == w[0] && v[1..] == w[1..]
    ensures IsStored(AddWord(t, w), v) <==> IsStored(t, v) || v == w
    decreases |w|, 0
  {
    var c := t.children[i].1;
    FindChildReplace(t.children, i, AddWord(c, w[1..]), v[0]);
    if v[0] == w[0] {
      AddWordStored(c, w[1..], v[1..]);
    }
  }

  /** AddWordStored when the first character needs a new child. */
  lemma {:induction false} AddNewStored(t: Trie, w: string, v: string)
    requires |w| > 0 && |v| > 0 && FindChild(t.children, w[0]).None?
    requires v == w <==> v[0] == w[0] && v[1..] == w[1..]
    ensures IsStored(AddWord(t, w), v) <==> IsStored(t, v) || v == w
    decreases |w|, 0
  {
    FindChildAppend(t.children, w[0], AddWord(Empty, w[1..]), v[0]);
    if v[0] == w[0] {
      AddWordStored(Empty, w[1..], v[1..]);
      EmptyStoresNothing(v[1..]);
    }
  }

  /** Adding a word not yet stored keeps the trie well formed and adds
      exactly one suffix. */
  lemma {:induction false} AddWordWellFormed(t: Trie, w: string)
    requires WellFormed(t) && !IsStored(t, w)
    ensures WellFormed(AddWord(t, w))
    ensures |Suffixes(AddWord(t, w))| == |Suffixes(t)| + 1
    decreases |w|, 1
  {
    if |w| == 0 {
      ChildSuffixesOfChildren(t, AddWord(t, w), 0);
    } else {
      match FindChild(t.children, w[0])
      case Some(i) => AddBelowWellFormed(t, w, i);
      case None => AddNewWellFormed(t, w);
    }
  }

  lemma {:induction false} AddBelowWellFormed(t: Trie, w: string, i: nat)
    requires WellFormed(t) && !IsStored(t, w)
    requires |w| > 0 && FindChild(t.children, w[0]) == Some(i)
    ensures WellFormed(AddWord(t, w))
    ensures |Suffixes(AddWord(t, w))| == |Suffixes(t)| + 1
    decreases |w|, 0
  {
    var r := AddWord(t, w);
    var c := t.children[i].1;
    AddWordWellFormed(c, w[1..]);
    ChildSuffixesReplace(t, r, i, AddWord(c, w[1..]), 0);
    forall j | 0 <= j < |r.children|
      ensures WellFormed(r.children[j].1)
    {
    }
  }

  lemma {:induction false} AddNewWellFormed(t: Trie, w: string)
    requires WellFormed(t) && !IsStored(t, w)
    requires |w| > 0 && FindChild(t.children, w[0]).None?
    ensures WellFormed(AddWord(t, w))
    ensures |Suffixes(AddWord(t, w))| == |Suffixes(t)| + 1
    decreases |w|, 0
  {
    var r := AddWord(t, w);
    assert WellFormed(Empty) && !IsStored(Empty, w[1..]) by {
      EmptyStoresNothing(w[1..]);
    }
    AddWordWellFormed(Empty, w[1..]);
    ChildSuffixesAppend(t, r, (w[0], AddWord(Empty, w[1..])), 0);
    forall j | 0 <= j < |r.children|
      ensures WellFormed(r.children[j].1)
    {
    }
  }

  /** The suffixes below a well-formed node are exactly its stored words. */
  lemma SuffixesStored(t: Trie, x: string)
    requires WellFormed(t)
    ensures x in Suffixes(t) <==> IsStored(t, x)
    decreases t, |t.children| + 1
  {
    ChildSuffixesMember(t, 0, x);
  }

  lemma ChildSuffixesMember(t: Trie, i: nat, x: string)
    requires WellFormed(t)
    ensures x in ChildSuffixes(t, i) <==>
              |x| > 0 && FindChild(t.children, x[0]).Some? && FindChild(t.children, x[0]).value >= i
              && IsStored(t.children[FindChild(t.children, x[0]).value].1, x[1..])
    decreases t, |t.children| - i
  {
    if i < |t.children| {
      var (key, c) := t.children[i];
      PrefixedMember(key, Suffixes(c), x);
      if |x| > 0 && x[0] == key {
        SuffixesStored(c, x[1..]);
      }
      ChildSuffixesMember(t, i + 1, x);
    }
  }

  lemma DistinctAppend(a: seq<string>, b: seq<string>)
    requires Distinct(a) && Distinct(b) && forall x :: x in a ==> x !in b
    ensures Distinct(a + b)
  {
    forall p, q | 0 <= p < q < |a + b|
      ensures (a + b)[p] != (a + b)[q]
    {
      if p < |a| && q >= |a| {
        assert (a + b)[p] in a && (a + b)[q] in b;
      }
    }
  }

  lemma PrefixedDistinct(p: string, xs: seq<string>)
    requires Distinct(xs)
    ensures Distinct(Prefixed(p, xs))
  {
    forall a, b | 0 <= a < b < |xs|
      ensures Prefixed(p, xs)[a] != Prefixed(p, xs)[b]
    {
      assert Prefixed(p, xs)[a][|p|..] == xs[a];
      assert Prefixed(p, xs)[b][|p|..] == xs[b];
    }
  }

  /** The suffixes below a well-formed node have no repetitions. */
  lemma SuffixesDistinct(t: Trie)
    requires WellFormed(t)
    ensures Distinct(Suffixes(t))
    decreases t, |t.children| + 1
  {
    ChildSuffixesDistinct(t, 0);
    forall x | x in ChildSuffixes(t, 0)
      ensures x != ""
    {
      ChildSuffixesMember(t, 0, x);
    }
    DistinctAppend(if t.completion then [""] else [], ChildSuffixes(t, 0));
  }

  lemma ChildSuffixesDistinct(t: Trie, i: nat)
    requires WellFormed(t)
    ensures Distinct(ChildSuffixes(t, i))
    decreases t, |t.children| - i
  {
    if i < |t.children| {
      var (key, c) := t.children[i];
      SuffixesDistinct(c);
      PrefixedDistinct([key], Suffixes(c));
      ChildSuffixesDistinct(t, i + 1);
      forall x | x in Prefixed([key], Suffixes(c))
        ensures x !in ChildSuffixes(t, i + 1)
      {
        PrefixedMember(key, Suffixes(c), x);
        ChildSuffixesMember(t, i + 1, x);
      }
      DistinctAppend(Prefixed([key], Suffixes(c)), ChildSuffixes(t, i + 1));
    }
  }

  // ---------------------------------------------------------------- search_word

  lemma PrefixedAppend(p: string, a: seq<string>, b: seq<string>)
    ensures Prefixed(p, a + b) == Prefixed(p, a) + Prefixed(p, b)
  {
  }

  lemma PrefixedNested(p: string, c: char, xs: seq<string>)
    ensures Prefixed(p + [c], xs) == Prefixed(p, Prefixed([c], xs))
  {
    forall k | 0 <= k < |xs|
      ensures Prefixed(p + [c], xs)[k] == Prefixed(p, Prefixed([c], xs))[k]
    {
      assert p + [c] + xs[k] == p + ([c] + xs[k]);
    }
  }

  /** get_suffix(prefix, prefix_length) lists the stored suffixes of the node,
      each behind prefix[prefix_length:]. */
  lemma GetSuffixIsSuffixes(t: Trie, prefix: string, prefixLength: nat)
    requires prefixLength <= |prefix|
    ensures GetSuffix(t, prefix, prefixLength) == Prefixed(prefix[prefixLength..], Suffixes(t))
    decreases t, |t.children| + 1
  {
    var d := prefix[prefixLength..];
    ChildGetSuffixIsSuffixes(t, 0, prefix, prefixLength);
    PrefixedAppend(d, if t.completion then [""] else [], ChildSuffixes(t, 0));
    assert d + "" == d;
  }

  lemma ChildGetSuffixIsSuffixes(t: Trie, i: nat, prefix: string, prefixLength: nat)
    requires prefixLength <= |prefix|
    ensures ChildGetSuffix(t, i, prefix, prefixLength) == Prefixed(prefix[prefixLength..], ChildSuffixes(t, i))
    decreases t, |t.children| - i
  {
    if i < |t.children| {
      var (key, c) := t.children[i];
      var d := prefix[prefixLength..];
      GetSuffixIsSuffixes(c, prefix + [key], prefixLength);
      assert (prefix + [key])[prefixLength..] == d + [key];
      PrefixedNested(d, key, Suffixes(c));
      ChildGetSuffixIsSuffixes(t, i + 1, prefix, prefixLength);
      PrefixedAppend(d, Prefixed([key], Suffixes(c)), ChildSuffixes(t, i + 1));
    }
  }

  /** search_word follows the word from the root and acts at the node it
      reaches, with the whole word as the current prefix; a missing path
      gives the empty list. */
  lemma {:induction false} SearchWordDescends(t: Trie, word: string, action: Action, currentPrefix: string)
    ensures SearchWord(t, word, action, currentPrefix)
         == match Descend(t, word)
            case None => []
            case Some(n) => AtNode(n, action, currentPrefix + word)
    decreases |word|
  {
    if |word| == 0 {
      assert currentPrefix + word == currentPrefix;
    } else {
      match FindChild(t.children, word[0])
      case Some(i) =>
        SearchWordDescends(t.children[i].1, word[1..], action, currentPrefix + [word[0]]);
        assert currentPrefix + [word[0]] + word[1..] == currentPrefix + word;
      case None =>
    }
  }

  /** Following p + x is following p, then x. */
  lemma {:induction false} DescendAppend(t: Trie, p: string, x: string)
    ensures Descend(t, p + x) == match Descend(t, p)
                                 case None => None
                                 case Some(n) => Descend(n, x)
    decreases |p|
  {
    if |p| == 0 {
      assert p + x == x;
    } else {
      assert (p + x)[0] == p[0] && (p + x)[1..] == p[1..] + x;
      match FindChild(t.children, p[0])
      case Some(i) => DescendAppend(t.children[i].1, p[1..], x);
      case None =>
    }
  }

  /** Every node below a well-formed node is well formed. */
  lemma {:induction false} DescendWellFormed(t: Trie, p: string)
    requires WellFormed(t) && Descend(t, p).Some?
    ensures WellFormed(Descend(t, p).value)
    decreases |p|
  {
    if |p| > 0 {
      var i := FindChild(t.children, p[0]).value;
      DescendWellFormed(t.children[i].1, p[1..]);
    }
  }

  /** Distinct suffixes give as many distinct words behind a common prefix. */
  lemma {:induction false} PrefixedCard(p: string, xs: seq<string>)
    requires Distinct(xs)
    ensures |set x | x in xs :: p + x| == |xs|
  {
    if |xs| > 0 {
      var m := |xs| - 1;
      var init := xs[..m];
      PrefixedCard(p, init);
      var a, b := set x | x in init :: p + x, set x | x in xs :: p + x;
      forall z | z in b
        ensures z in a || z == p + xs[m]
      {
        var y :| y in xs && z == p + y;
        if y != xs[m] {
          var k :| 0 <= k < |xs| && xs[k] == y;
          assert y in init;
        }
      }
      forall y | y in init
        ensures p + y != p + xs[m]
      {
        assert (p + y)[|p|..] == y;
        assert (p + xs[m])[|p|..] == xs[m];
      }
      assert b == a + {p + xs[m]};
    }
  }

  /** t stores exactly the given words and is well formed. */
  ghost predicate Represents(t: Trie, words: set<string>) {
    WellFormed(t) && forall w :: w in words <==> IsStored(t, w)
  }

  lemma EmptyRepresentsNothing()
    ensures Represents(Empty, {})
  {
    forall w
      ensures !IsStored(Empty, w)
    {
      EmptyStoresNothing(w);
    }
  }

  /** Adding a new word to a trie that represents a set of words represents
      that set with the word added. */
  lemma AddWordRepresents(t: Trie, words: set<string>, w: string)
    requires Represents(t, words) && w !in words
    ensures Represents(AddWord(t, w), words + {w})
  {
    AddWordWellFormed(t, w);
    forall v
      ensures v in words + {w} <==> IsStored(AddWord(t, w), v)
    {
      AddWordStored(t, w, v);
    }
  }

  lemma PrefixedEmpty(xs: seq<string>)
    ensures Prefixed([], xs) == xs
  {
    forall k | 0 <= k < |xs|
      ensures Prefixed([], xs)[k] == xs[k]
    {
      assert [] + xs[k] == xs[k];
    }
  }

  lemma StringsOfTexts(xs: seq<string>)
    ensures Strings(Texts(xs)) == xs
  {
  }

  /** The list get_completions builds for p: the suffixes below the node p
      leads to, or nothing when there is no such node. */
  lemma CompletionsList(t: Trie, p: string)
    requires WellFormed(t)
    ensures var r := Strings(SearchWord(t, p, Completions, ""));
      && (Descend(t, p).None? ==> r == [])
      && (Descend(t, p).Some? ==> WellFormed(Descend(t, p).value) && r == Suffixes(Descend(t, p).value))
  {
    SearchWordDescends(t, p, Completions, "");
    assert "" + p == p;
    if Descend(t, p).Some? {
      var n := Descend(t, p).value;
      DescendWellFormed(t, p);
      GetSuffixIsSuffixes(n, p, |p|);
      assert p[|p|..] == [];
      PrefixedEmpty(Suffixes(n));
      StringsOfTexts(Suffixes(n));
    }
  }

  /** The completions of p are exactly the x with p + x stored, without
      repetitions, as many as the stored words with prefix p. */
  lemma CompletionsAre(t: Trie, words: set<string>, p: string)
    requires Represents(t, words)
    ensures var r := Strings(SearchWord(t, p, Completions, ""));
      && (forall x :: x in r <==> p + x in words)
      && Distinct(r)
      && |WithPrefix(words, p)| == |r|
  {
    var r := Strings(SearchWord(t, p, Completions, ""));
    CompletionsList(t, p);
    forall x
      ensures Descend(t, p + x) == match Descend(t, p)
                                   case None => None
                                   case Some(n) => Descend(n, x)
    {
      DescendAppend(t, p, x);
    }
    assert forall w :: w in words && p <= w ==> w == p + w[|p|..];
    match Descend(t, p)
    case None =>
      assert WithPrefix(words, p) == {};
    case Some(n) =>
      CompletionsBelow(n, words, p, r);
  }

  /** CompletionsAre when p leads to the node n. */
  lemma CompletionsBelow(n: Trie, words: set<string>, p: string, r: seq<string>)
    requires WellFormed(n) && r == Suffixes(n)
    requires forall x :: p + x in words <==> IsStored(n, x)
    requires forall w :: w in words && p <= w ==> w == p + w[|p|..]
    ensures forall x :: x in r <==> p + x in words
    ensures Distinct(r)
    ensures |WithPrefix(words, p)| == |r|
  {
    forall x
      ensures x in r <==> p + x in words
    {
      SuffixesStored(n, x);
    }
    SuffixesDistinct(n);
    assert WithPrefix(words, p) == set x | x in r :: p + x;
    PrefixedCard(p, r);
  }

  /** The lines of the word file that the constructor adds: each stripped
      line that is not empty. */
  function Entries(lines: seq<string>): set<string> {
    if |lines| == 0 then {}
    else
      var w := Strip(lines[|lines| - 1]);
      Entries(lines[..|lines| - 1]) + (if w != "" then {w} else {})
  }

  /** The words with prefix p among a set of words. */
  function WithPrefix(words: set<string>, p: string): set<string> {
    set w | w in words && p <= w
  }

  class EnglishDictionary {
    var words: Trie
    /** The words added so far. */
    ghost var Words: set<string>

    ghost predicate Valid()
      reads this
    {
      Represents(words, Words)
    }

    /** The constructor reads the word file line by line (here: the lines
        as a parameter), strips each line and adds it unless it is empty or
        already a word. */
    constructor (lines: seq<string>)
      ensures Valid() && Words == Entries(lines)
    {
      words := Empty;
      Words := {};
      new;
      EmptyRepresentsNothing();
      for i := 0 to |lines|
        invariant Valid() && Words == Entries(lines[..i])
      {
        AddLine(lines[i]);
        assert lines[..i + 1][..i] == lines[..i];
      }
      assert lines[..|lines|] == lines;
    }

    /** The body of the constructor's loop for one line of the file. */
    method AddLine(line: string)
      requires Valid()
      modifies this
      ensures Valid()
      ensures Words == old(Words) + (if Strip(line) != "" then {Strip(line)} else {})
    {
      var w := Strip(line);
      if w != "" && !IsWord(w) {
        AddWordRepresents(words, Words, w);
        words := AddWord(words, w);
        Words := Words + {w};
      }
    }

    /** is_word: search the word with "Find" and look for it in the list. */
    function IsWord(w: string): (b: bool)
      reads this
      requires Valid()
      ensures b <==> w in Words
    {
      SearchWordDescends(words, w, Find, "");
      DescendAppend(words, w, "");
      assert w + "" == w && "" + w == w;
      Word(w) in SearchWord(words, w, Find, "")
    }

    /** num_completions: the count of the node the prefix leads to, or 0. */
    function NumCompletions(prefix: string): (n: nat)
      reads this
      requires Valid()
      ensures n == |WithPrefix(Words, prefix)|
      ensures n == |GetCompletions(prefix)|
    {
      SearchWordDescends(words, prefix, Count, "");
      CompletionsList(words, prefix);
      CompletionsAre(words, Words, prefix);
      var completions := SearchWord(words, prefix, Count, "");
      if completions == [] then 0 else completions[0].value
    }

    /** get_completions: the list search_word builds with "Completions". */
    function GetCompletions(prefix: string): (r: seq<string>)
      reads this
      requires Valid()
      ensures forall x :: x in r <==> prefix + x in Words
      ensures Distinct(r)
    {
      CompletionsAre(words, Words, prefix);
      Strings(SearchWord(words, prefix, Completions, ""))
    }
  }
}
