/** The tokeniser and the inverted-index update of the course crawler
    (crawler.py): clean_text, get_course_identifier, and the loop of
    find_course_info that adds each course's id to the posting list of each
    of its words. */
module Crawler {
  import opened Wrappers
  import opened Text
  import opened Lists

  /** Words that are never indexed. */
  const IndexIgnore: set<string> := {
    "a", "also", "an", "and", "are", "as", "at", "be", "but", "by", "course", "for", "from",
    "how", "i", "ii", "iii", "in", "include", "is", "not", "of", "on", "or", "s", "sequence",
    "so", "social", "students", "such", "that", "the", "their", "this", "through", "to",
    "topics", "units", "we", "were", "which", "will", "with", "yet"}

  const Nbsp: char := '\U{A0}'

  // ---------------------------------------------------------------------
  // re.findall("[a-zA-Z]\w*", text)

  predicate IsLetter(c: char) {
    IsUpper(c) || IsLower(c)
  }

  /** \w, for the ASCII characters: letters, digits and the underscore. */
  predicate IsWordChar(c: char) {
    IsLetter(c) || ('0' <= c <= '9') || c == '_'
  }

  /** A match of [a-zA-Z]\w*. */
  predicate IsToken(w: string) {
    |w| > 0 && IsLetter(w[0]) && forall i :: 0 <= i < |w| ==> IsWordChar(w[i])
  }

  /** The longest prefix of s made of word characters. */
  function WordRun(s: string): (w: string)
    ensures |w| <= |s| && w == s[..|w|]
    ensures forall i :: 0 <= i < |w| ==> IsWordChar(w[i])
    ensures |w| < |s| ==> !IsWordChar(s[|w|])
  {
    if |s| == 0 || !IsWordChar(s[0]) then [] else [s[0]] + WordRun(s[1..])
  }

  /** The matches, left to right: a match starts at a letter and runs as far
      as the word characters go; any other character is skipped. */
  function FindWords(s: string): (r: seq<string>)
    decreases |s|
    ensures forall k :: 0 <= k < |r| ==> IsToken(r[k])
  {
    if |s| == 0 then []
    else if IsLetter(s[0]) then
      var w := WordRun(s);
      assert IsToken(w);
      [w] + FindWords(s[|w|..])
    else FindWords(s[1..])
  }

  predicate NoUpper(s: string) {
    forall i :: 0 <= i < |s| ==> !IsUpper(s[i])
  }

  /** The matches in a text without capitals have no capitals either. */
  lemma {:induction false} FindWordsNoUpper(s: string)
    requires NoUpper(s)
    decreases |s|
    ensures forall k :: 0 <= k < |FindWords(s)| ==> NoUpper(FindWords(s)[k])
  {
    if |s| > 0 {
      if IsLetter(s[0]) {
        var w := WordRun(s);
        FindWordsNoUpper(s[|w|..]);
        assert FindWords(s) == [w] + FindWords(s[|w|..]);
        assert NoUpper(w) by {
          forall i | 0 <= i < |w|
            ensures !IsUpper(w[i])
          {
            assert w[i] == s[i];
          }
        }
      } else {
        FindWordsNoUpper(s[1..]);
      }
    }
  }

  // ---------------------------------------------------------------------
  // clean_text

  /** The first step of clean_text as written: the character entity and
      the two characters 'u' and a non-breaking space become a space, and
      the text is lower-cased. */
  function Normalized(raw: string): string {
    Lower(Replace(Replace(raw, "&#160;", " "), ['u', Nbsp], " "))
  }

  /** The same step with the non-breaking space alone replaced, as
      get_course_identifier does. */
  function NormalizedIntended(raw: string): string {
    Lower(Replace(Replace(raw, "&#160;", " "), [Nbsp], " "))
  }

  /** On a text without a non-breaking space the two normalisations, and
      so the words clean_text keeps, are the same. */
  lemma CleanTextAgrees(raw: string)
    requires Nbsp !in raw
    ensures Normalized(raw) == NormalizedIntended(raw)
    ensures CleanWordsOf(Normalized(raw)) == CleanWordsOf(NormalizedIntended(raw))
  {
    var t := Replace(raw, "&#160;", " ");
    ReplaceKeeps(raw, "&#160;", " ", Nbsp);
    ReplaceAbsent(t, ['u', Nbsp], " ", Nbsp);
    ReplaceAbsent(t, [Nbsp], " ", Nbsp);
  }

  /** The matches that are not ignored, in order. */
  function Kept(words: seq<string>): (r: seq<string>)
    decreases |words|
    ensures forall k :: 0 <= k < |r| ==> r[k] !in IndexIgnore && r[k] in words
  {
    if |words| == 0 then []
    else
      var init := Kept(words[..|words| - 1]);
      var w := words[|words| - 1];
      if w !in IndexIgnore then init + [w] else init
  }

  /** The words clean_text keeps from a normalised text: the matches that
      are not ignored, each at its first occurrence. */
  function CleanWordsOf(text: string): seq<string> {
    FirstOccurrences(Kept(FindWords(text)))
  }

  /** The two loops of clean_text on the normalised text. */
  method SelectWords(text: string) returns (cleanWords: seq<string>)
    ensures cleanWords == CleanWordsOf(text)
  {
    var found := FindWords(text);
    var wordList: seq<string> := [];
    for i := 0 to |found|
      invariant wordList == found[..i]
    {
      wordList := wordList + [found[i]];
    }
    assert wordList == found;
    cleanWords := [];
    for i := 0 to |wordList|
      invariant cleanWords == FirstOccurrences(Kept(wordList[..i]))
    {
      var word := wordList[i];
      assert wordList[..i + 1][..i] == wordList[..i];
      ghost var kept := Kept(wordList[..i]);
      if |word| >= 1 && word !in IndexIgnore && word !in cleanWords {
        FirstOccurrencesSpec(kept);
        FirstOccurrencesSnoc(kept, word);
        cleanWords := cleanWords + [word];
      } else if word !in IndexIgnore {
        FirstOccurrencesSpec(kept);
        FirstOccurrencesSnoc(kept, word);
      }
    }
    assert wordList[..|wordList|] == wordList;
  }

  /** clean_text(raw_text), as written. */
  method CleanText(rawText: string) returns (cleanWords: seq<string>)
    ensures cleanWords == CleanWordsOf(Normalized(rawText))
  {
    var text := Lower(Replace(Replace(rawText, "&#160;", " "), ['u', Nbsp], " "));
    cleanWords := SelectWords(text);
  }

  /** clean_text with the non-breaking space replaced on its own. */
  method CleanTextIntended(rawText: string) returns (cleanWords: seq<string>)
    ensures cleanWords == CleanWordsOf(NormalizedIntended(rawText))
  {
    var text := Lower(Replace(Replace(rawText, "&#160;", " "), [Nbsp], " "));
    cleanWords := SelectWords(text);
  }

  /** The kept words of a text have no duplicates, none is ignored, each is
      a match of [a-zA-Z]\w* and a kept word is exactly a match that is not
      ignored. */
  lemma CleanWordsSpec(text: string)
    ensures var r := CleanWordsOf(text);
      && NoDuplicates(r)
      && (forall k :: 0 <= k < |r| ==> r[k] !in IndexIgnore && IsToken(r[k]))
      && (forall w :: w in r <==> w in FindWords(text) && w !in IndexIgnore)
  {
    var found := FindWords(text);
    FirstOccurrencesSpec(Kept(found));
    KeptHas(found);
  }

  lemma {:induction false} KeptHas(words: seq<string>)
    decreases |words|
    ensures forall w :: w in Kept(words) <==> w in words && w !in IndexIgnore
  {
    if |words| > 0 {
      var init := words[..|words| - 1];
      KeptHas(init);
      assert words == init + [words[|words| - 1]];
    }
  }

  /** The text is lower-cased before it is split, so every kept word starts
      with a lower-case letter and has no capital. */
  lemma CleanTextLower(rawText: string)
    ensures forall k :: 0 <= k < |CleanWordsOf(Normalized(rawText))| ==>
      var w := CleanWordsOf(Normalized(rawText))[k];
      |w| > 0 && NoUpper(w) && IsLower(w[0])
    ensures forall k :: 0 <= k < |CleanWordsOf(NormalizedIntended(rawText))| ==>
      var w := CleanWordsOf(NormalizedIntended(rawText))[k];
      |w| > 0 && NoUpper(w) && IsLower(w[0])
  {
    var t := Normalized(rawText);
    var u := NormalizedIntended(rawText);
    LowerIdempotent(Replace(Replace(rawText, "&#160;", " "), ['u', Nbsp], " "));
    LowerIdempotent(Replace(Replace(rawText, "&#160;", " "), [Nbsp], " "));
    FindWordsNoUpper(t);
    FindWordsNoUpper(u);
    CleanWordsSpec(t);
    CleanWordsSpec(u);
  }

  /** The pattern "u\xa0" takes the letter before a non-breaking space with
      it: "menu\xa0x" gives "men" and "x" where "menu" and "x" were meant. */
  lemma NbspTypoDropsLetter()
    ensures CleanWordsOf(Normalized("menu\U{A0}x")) == ["men", "x"]
    ensures CleanWordsOf(NormalizedIntended("menu\U{A0}x")) == ["menu", "x"]
  {
    NormalizedMenu();
    WordsOfMen();
    WordsOfMenu();
    KeptMenu();
  }

  lemma KeptMenu()
    ensures FirstOccurrences(Kept(["men", "x"])) == ["men", "x"]
    ensures FirstOccurrences(Kept(["menu", "x"])) == ["menu", "x"]
  {
    KeptBoth();
    DistinctBoth();
    FirstOccurrencesOfDistinct(["men", "x"]);
    FirstOccurrencesOfDistinct(["menu", "x"]);
  }

  lemma KeptBoth()
    ensures Kept(["men", "x"]) == ["men", "x"]
    ensures Kept(["menu", "x"]) == ["menu", "x"]
  {
    NotIgnored();
    assert ["men", "x"][..1] == ["men"];
    assert ["menu", "x"][..1] == ["menu"];
  }

  lemma DistinctBoth()
    ensures NoDuplicates(["men", "x"]) && NoDuplicates(["menu", "x"])
  {
    assert "men" != "x" && "menu" != "x";
  }

  lemma NormalizedMenu()
    ensures Normalized("menu\U{A0}x") == "men x"
    ensures NormalizedIntended("menu\U{A0}x") == "menu x"
  {
    EntityAbsent();
    NbspReplaced();
    NbspPairReplaced();
    LowerMenu();
  }

  lemma LowerMenu()
    ensures Lower("men x") == "men x" && Lower("menu x") == "menu x"
  {
    assert Lower("men x") == "men x";
    assert Lower("menu x") == "menu x";
  }

  lemma EntityAbsent()
    ensures Replace("menu\U{A0}x", "&#160;", " ") == "menu\U{A0}x"
  {
    ReplaceAbsent("menu\U{A0}x", "&#160;", " ", '&');
  }

  lemma NbspReplaced()
    ensures Replace("menu\U{A0}x", [Nbsp], " ") == "menu x"
  {
    var s := "menu\U{A0}x";
    assert Replace(s[5..], [Nbsp], " ") == "x";
    assert Replace(s[4..], [Nbsp], " ") == " x";
    assert Replace(s[3..], [Nbsp], " ") == "u x";
    assert Replace(s[2..], [Nbsp], " ") == "nu x";
    assert Replace(s[1..], [Nbsp], " ") == "enu x";
  }

  lemma NbspPairReplaced()
    ensures Replace("menu\U{A0}x", ['u', Nbsp], " ") == "men x"
  {
    var s := "menu\U{A0}x";
    assert Replace(s[5..], ['u', Nbsp], " ") == "x";
    assert Replace(s[3..], ['u', Nbsp], " ") == " x";
    assert Replace(s[2..], ['u', Nbsp], " ") == "n x";
    assert Replace(s[1..], ['u', Nbsp], " ") == "en x";
  }

  lemma NotIgnored()
    ensures "men" !in IndexIgnore && "menu" !in IndexIgnore && "x" !in IndexIgnore
  {
  }

  lemma WordsOfMen()
    ensures FindWords("men x") == ["men", "x"]
  {
    var s := "men x";
    assert WordRun(s[3..]) == [];
    assert WordRun(s[2..]) == "n";
    assert WordRun(s[1..]) == "en";
    assert WordRun(s) == "men";
    assert WordRun(s[4..]) == "x";
    assert FindWords(s[4..]) == ["x"];
    assert FindWords(s[3..]) == ["x"];
  }

  lemma WordsOfMenu()
    ensures FindWords("menu x") == ["menu", "x"]
  {
    var s := "menu x";
    assert WordRun(s[4..]) == [];
    assert WordRun(s[3..]) == "u";
    assert WordRun(s[2..]) == "nu";
    assert WordRun(s[1..]) == "enu";
    assert WordRun(s) == "menu";
    assert WordRun(s[5..]) == "x";
    assert FindWords(s[5..]) == ["x"];
    assert FindWords(s[4..]) == ["x"];
  }

  // ---------------------------------------------------------------------
  // get_course_identifier

  /** The coursemap key of a title: the text before the first '.', after
      the character entity and the non-breaking spaces became spaces. */
  function TitleKey(title: string): (k: string)
    ensures '.' !in k && Nbsp !in k
  {
    var t := Replace(Replace(title, "&#160;", " "), [Nbsp], " ");
    ReplaceRemoves(Replace(title, "&#160;", " "), Nbsp, " ");
    Before(t, '.')
  }

  /** get_course_identifier(title, coursemap); a title that is not in the
      map raises KeyError. */
  function GetCourseIdentifier(title: string, coursemap: map<string, int>): (r: Result<int>)
    ensures r.Success? <==> TitleKey(title) in coursemap
    ensures r.Failure? ==> r.error == Key
  {
    var key := TitleKey(title);
    if key in coursemap then Success(coursemap[key]) else Failure(Key)
  }

  // ---------------------------------------------------------------------
  // find_course_info: the posting lists

  /** A posting list: the ids of the courses a word occurs in. */
  class PostingList {
    var ids: seq<int>

    constructor ()
      ensures ids == []
    {
      ids := [];
    }
  }

  /** No two words share a posting list. */
  predicate Unshared(d: map<string, PostingList>) {
    forall a, b :: a in d && b in d && a != b ==> d[a] != d[b]
  }

  ghost function PostingLists(d: map<string, PostingList>): set<PostingList> {
    set w | w in d :: d[w]
  }

  /** The ids held by each word's list. */
  function Contents(d: map<string, PostingList>): map<string, seq<int>>
    reads set w | w in d :: d[w]
  {
    map w | w in d :: d[w].ids
  }

  /** One id added to the list of one word unless it is there already; a
      word without a list gets an empty one first. */
  function Post(c: map<string, seq<int>>, w: string, id: int): map<string, seq<int>> {
    var l := if w in c then c[w] else [];
    c[w := if id in l then l else l + [id]]
  }

  /** The id added for each word of a list, in order. */
  function AddAll(c: map<string, seq<int>>, words: seq<string>, id: int): map<string, seq<int>>
    decreases |words|
  {
    if |words| == 0 then c else Post(AddAll(c, words[..|words| - 1], id), words[|words| - 1], id)
  }

  /** A course block: its title and description text. */
  datatype Block = Block(title: string, description: string)

  /** A course and the blocks of its sequence, when it heads one. */
  datatype Course = Course(main: Block, sequence: seq<Block>)

  function BlockText(b: Block): string {
    b.title + " " + b.description
  }

  /** The texts indexed for a course, each with the title its id is looked
      up by: one per course of its sequence, that course's text followed by
      the main text, or the main text alone when there is no sequence. */
  function EntriesOf(c: Course): seq<(string, string)> {
    if |c.sequence| > 0 then SequenceEntries(c.main, c.sequence) else [(BlockText(c.main), c.main.title)]
  }

  /** The entries of the courses of a sequence headed by main. */
  function SequenceEntries(main: Block, subs: seq<Block>): seq<(string, string)>
    decreases |subs|
  {
    if |subs| == 0 then []
    else
      var sub := subs[|subs| - 1];
      SequenceEntries(main, subs[..|subs| - 1]) + [(BlockText(sub) + " " + BlockText(main), sub.title)]
  }

  function Entries(courses: seq<Course>): seq<(string, string)>
    decreases |courses|
  {
    if |courses| == 0 then [] else Entries(courses[..|courses| - 1]) + EntriesOf(courses[|courses| - 1])
  }

  function EntryWords(e: (string, string)): seq<string> {
    CleanWordsOf(NormalizedIntended(e.0))
  }

  /** What one entry adds to the index: its clean words and the id
      looked up for its title. */
  function Batch(e: (string, string), coursemap: map<string, int>): (seq<string>, Result<int>) {
    (EntryWords(e), GetCourseIdentifier(e.1, coursemap))
  }

  function Batches(entries: seq<(string, string)>, coursemap: map<string, int>): (bs: seq<(seq<string>, Result<int>)>)
    decreases |entries|
    ensures |bs| == |entries|
  {
    if |entries| == 0 then [] else Batches(entries[..|entries| - 1], coursemap) + [Batch(entries[|entries| - 1], coursemap)]
  }

  lemma {:induction false} BatchesIndex(entries: seq<(string, string)>, coursemap: map<string, int>, k: nat)
    requires k < |entries|
    decreases |entries|
    ensures Batches(entries, coursemap)[k] == Batch(entries[k], coursemap)
  {
    var init := entries[..|entries| - 1];
    if k < |init| {
      BatchesIndex(init, coursemap, k);
    }
  }

  lemma {:induction false} BatchesPrefix(a: seq<(string, string)>, b: seq<(string, string)>, coursemap: map<string, int>)
    requires a <= b
    decreases |b|
    ensures Batches(a, coursemap) <= Batches(b, coursemap)
  {
    if |b| > |a| {
      var init := b[..|b| - 1];
      BatchesPrefix(a, init, coursemap);
      PrefixOfAppend(Batches(init, coursemap), [Batch(b[|b| - 1], coursemap)]);
      PrefixTransitive(Batches(a, coursemap), Batches(init, coursemap), Batches(b, coursemap));
    } else {
      assert a == b;
    }
  }

  /** The posting lists after each batch's words get its id, in order, or
      the error of the first failed lookup. */
  function Index(c: map<string, seq<int>>, batches: seq<(seq<string>, Result<int>)>): Result<map<string, seq<int>>>
    decreases |batches|
  {
    if |batches| == 0 then Success(c)
    else
      match Index(c, batches[..|batches| - 1])
      case Failure(e) => Failure(e)
      case Success(m) =>
        match batches[|batches| - 1].1
        case Failure(e) => Failure(e)
        case Success(id) => Success(AddAll(m, batches[|batches| - 1].0, id))
  }

  /** The posting lists after the entries, in order, or the KeyError of the
      first title that is not in coursemap. */
  function IndexAll(c: map<string, seq<int>>, entries: seq<(string, string)>, coursemap: map<string, int>): Result<map<string, seq<int>>> {
    Index(c, Batches(entries, coursemap))
  }

  /** The body of the loops at lines 79-83 and 88-92 for one word: the
      word gets a new empty list when it has none, and the id is appended
      unless the list holds it already. */
  method AddPosting(d: map<string, PostingList>, s: string, id: int) returns (e: map<string, PostingList>)
    requires Unshared(d)
    modifies PostingLists(d)
    ensures Unshared(e)
    ensures forall w :: w in d ==> w in e && e[w] == d[w]
    ensures forall w :: w in e && w !in d ==> fresh(e[w])
    ensures Contents(e) == Post(old(Contents(d)), s, id)
  {
    e := d;
    if s !in e {
      var l := new PostingList();
      e := e[s := l];
    }
    ghost var mid := Contents(e);
    if id !in e[s].ids {
      e[s].ids := e[s].ids + [id];
      assert Contents(e) == mid[s := mid[s] + [id]];
    }
  }

  /** Lines 79-83 and 88-92: the id added to the list of each word. */
  method AddPostings(d: map<string, PostingList>, words: seq<string>, id: int) returns (e: map<string, PostingList>)
    requires Unshared(d)
    modifies PostingLists(d)
    ensures Unshared(e)
    ensures forall w :: w in d ==> w in e && e[w] == d[w]
    ensures forall w :: w in e && w !in d ==> fresh(e[w])
    ensures Contents(e) == AddAll(old(Contents(d)), words, id)
  {
    e := d;
    for i := 0 to |words|
      invariant Unshared(e)
      invariant forall w :: w in d ==> w in e && e[w] == d[w]
      invariant forall w :: w in e && w !in d ==> fresh(e[w])
      invariant Contents(e) == AddAll(old(Contents(d)), words[..i], id)
    {
      assert words[..i + 1][..i] == words[..i];
      e := AddPosting(e, words[i], id);
    }
    assert words[..|words|] == words;
  }

  lemma {:induction false} EntriesPrefix(courses: seq<Course>, i: nat)
    requires i <= |courses|
    decreases |courses|
    ensures Entries(courses[..i]) <= Entries(courses)
  {
    if i < |courses| {
      var init := courses[..|courses| - 1];
      EntriesPrefix(init, i);
      assert init[..i] == courses[..i];
      PrefixOfAppend(Entries(init), EntriesOf(courses[|courses| - 1]));
      PrefixTransitive(Entries(courses[..i]), Entries(init), Entries(courses));
    } else {
      assert courses[..i] == courses;
    }
  }

  lemma {:induction false} SequenceEntriesPrefix(main: Block, subs: seq<Block>, j: nat)
    requires j <= |subs|
    decreases |subs| - j
    ensures SequenceEntries(main, subs[..j]) <= SequenceEntries(main, subs)
  {
    if j < |subs| {
      SequenceEntriesPrefix(main, subs, j + 1);
      assert subs[..j + 1][..j] == subs[..j];
      var x, y := SequenceEntries(main, subs[..j]), SequenceEntries(main, subs[..j + 1]);
      assert y == x + [(BlockText(subs[j]) + " " + BlockText(main), subs[j].title)];
      PrefixTransitive(x, y, SequenceEntries(main, subs));
    } else {
      assert subs[..j] == subs;
    }
  }

  lemma SequenceEntriesSnoc(done: seq<(string, string)>, main: Block, subs: seq<Block>, j: nat)
    requires j < |subs|
    ensures done + SequenceEntries(main, subs[..j + 1]) ==
      done + SequenceEntries(main, subs[..j]) + [(subs[j].title + " " + subs[j].description + " " + (main.title + " " + main.description), subs[j].title)]
  {
    assert subs[..j + 1][..j] == subs[..j];
  }

  lemma IndexAllStep(c: map<string, seq<int>>, entries: seq<(string, string)>, x: (string, string), coursemap: map<string, int>)
    requires IndexAll(c, entries, coursemap).Success?
    ensures IndexAll(c, entries + [x], coursemap) ==
      match GetCourseIdentifier(x.1, coursemap)
      case Failure(e) => Failure(e)
      case Success(id) => Success(AddAll(IndexAll(c, entries, coursemap).value, EntryWords(x), id))
  {
    assert (entries + [x])[..|entries|] == entries;
  }

  /** Once a lookup fails, the batches after it do not matter. */
  lemma {:induction false} IndexFailureStays(c: map<string, seq<int>>, a: seq<(seq<string>, Result<int>)>, b: seq<(seq<string>, Result<int>)>)
    requires Index(c, a).Failure? && a <= b
    decreases |b|
    ensures Index(c, b) == Index(c, a)
  {
    if |b| > |a| {
      IndexFailureStays(c, a, b[..|b| - 1]);
    } else {
      assert a == b;
    }
  }

  /** Once a title is missing, the entries after it do not matter. */
  lemma IndexAllFailureStays(c: map<string, seq<int>>, a: seq<(string, string)>, b: seq<(string, string)>, coursemap: map<string, int>)
    requires IndexAll(c, a, coursemap).Failure? && a <= b
    ensures IndexAll(c, b, coursemap) == IndexAll(c, a, coursemap)
  {
    BatchesPrefix(a, b, coursemap);
    IndexFailureStays(c, Batches(a, coursemap), Batches(b, coursemap));
  }

  // Properties of the index

  /** Every list of c is kept as a prefix of the list of the same word in r. */
  predicate Grows(c: map<string, seq<int>>, r: map<string, seq<int>>) {
    forall w :: w in c ==> w in r && c[w] <= r[w]
  }

  /** No list holds the same id twice. */
  predicate Distinct(c: map<string, seq<int>>) {
    forall w :: w in c ==> NoDuplicates(c[w])
  }

  /** Each of the words has a list holding id. */
  predicate Holds(r: map<string, seq<int>>, words: seq<string>, id: int) {
    forall w :: w in words ==> w in r && id in r[w]
  }

  /** Every word of r is in c or among the words, and every id in its list
      was in its list in c, or is id added for one of the words. */
  predicate AddsOnly(c: map<string, seq<int>>, r: map<string, seq<int>>, words: seq<string>, id: int) {
    forall w :: w in r ==> (w in c || w in words) && forall x :: x in r[w] ==> (w in words && x == id) || (w in c && x in c[w])
  }

  lemma GrowsTransitive(a: map<string, seq<int>>, b: map<string, seq<int>>, c: map<string, seq<int>>)
    requires Grows(a, b) && Grows(b, c)
    ensures Grows(a, c)
  {
    forall w | w in a
      ensures w in c && a[w] <= c[w]
    {
      PrefixTransitive(a[w], b[w], c[w]);
    }
  }

  /** Post adds id to the list of w, keeps every list a prefix of its new
      self, adds nothing else, and never duplicates an id. */
  lemma PostSpec(c: map<string, seq<int>>, w: string, id: int)
    ensures Grows(c, Post(c, w, id))
    ensures w in Post(c, w, id) && id in Post(c, w, id)[w]
    ensures AddsOnly(c, Post(c, w, id), [w], id)
    ensures Distinct(c) ==> Distinct(Post(c, w, id))
  {
    var l := if w in c then c[w] else [];
    if id !in l {
      PrefixOfAppend(l, [id]);
      if Distinct(c) {
        assert NoDuplicates(l + [id]);
      }
    }
  }

  /** AddAll gives every word the id, keeps every list a prefix of its new
      self, adds no other id and no other word, and never duplicates an id. */
  lemma {:induction false} AddAllSpec(c: map<string, seq<int>>, words: seq<string>, id: int)
    decreases |words|
    ensures Grows(c, AddAll(c, words, id))
    ensures Holds(AddAll(c, words, id), words, id)
    ensures AddsOnly(c, AddAll(c, words, id), words, id)
    ensures Distinct(c) ==> Distinct(AddAll(c, words, id))
  {
    if |words| > 0 {
      var init, last := words[..|words| - 1], words[|words| - 1];
      var m := AddAll(c, init, id);
      AddAllSpec(c, init, id);
      PostSpec(m, last, id);
      var r := Post(m, last, id);
      GrowsTransitive(c, m, r);
      assert words == init + [last];
      forall w | w in words
        ensures w in r && id in r[w]
      {
        if w != last {
          assert w in init;
          assert m[w] <= r[w];
        }
      }
    }
  }

  /** A built index is built from the index of all batches but the last. */
  lemma IndexLast(c: map<string, seq<int>>, bs: seq<(seq<string>, Result<int>)>)
    requires |bs| > 0 && Index(c, bs).Success?
    ensures Index(c, bs[..|bs| - 1]).Success? && bs[|bs| - 1].1.Success?
    ensures Index(c, bs).value == AddAll(Index(c, bs[..|bs| - 1]).value, bs[|bs| - 1].0, bs[|bs| - 1].1.value)
  {
  }

  /** The index is built exactly when every lookup succeeds. */
  lemma {:induction false} IndexSucceeds(c: map<string, seq<int>>, bs: seq<(seq<string>, Result<int>)>)
    decreases |bs|
    ensures Index(c, bs).Success? <==> forall k :: 0 <= k < |bs| ==> bs[k].1.Success?
  {
    if |bs| > 0 {
      var init := bs[..|bs| - 1];
      IndexSucceeds(c, init);
      assert forall k :: 0 <= k < |init| ==> init[k] == bs[k];
    }
  }

  lemma {:induction false} IndexGrows(c: map<string, seq<int>>, bs: seq<(seq<string>, Result<int>)>)
    requires Index(c, bs).Success?
    decreases |bs|
    ensures Grows(c, Index(c, bs).value)
  {
    if |bs| > 0 {
      var init := bs[..|bs| - 1];
      IndexLast(c, bs);
      IndexGrows(c, init);
      var m := Index(c, init).value;
      AddAllSpec(m, bs[|bs| - 1].0, bs[|bs| - 1].1.value);
      GrowsTransitive(c, m, Index(c, bs).value);
    }
  }

  lemma {:induction false} IndexDistinct(c: map<string, seq<int>>, bs: seq<(seq<string>, Result<int>)>)
    requires Index(c, bs).Success? && Distinct(c)
    decreases |bs|
    ensures Distinct(Index(c, bs).value)
  {
    if |bs| > 0 {
      var init := bs[..|bs| - 1];
      IndexLast(c, bs);
      IndexDistinct(c, init);
      AddAllSpec(Index(c, init).value, bs[|bs| - 1].0, bs[|bs| - 1].1.value);
    }
  }

  lemma {:induction false} IndexHolds(c: map<string, seq<int>>, bs: seq<(seq<string>, Result<int>)>, k: nat)
    requires Index(c, bs).Success? && k < |bs|
    decreases |bs|
    ensures bs[k].1.Success? && Holds(Index(c, bs).value, bs[k].0, bs[k].1.value)
  {
    var init := bs[..|bs| - 1];
    IndexLast(c, bs);
    var m := Index(c, init).value;
    AddAllSpec(m, bs[|bs| - 1].0, bs[|bs| - 1].1.value);
    if k < |init| {
      IndexHolds(c, init, k);
      assert init[k] == bs[k];
      HoldsGrows(m, Index(c, bs).value, bs[k].0, bs[k].1.value);
    }
  }

  lemma HoldsGrows(m: map<string, seq<int>>, r: map<string, seq<int>>, words: seq<string>, id: int)
    requires Holds(m, words, id) && Grows(m, r)
    ensures Holds(r, words, id)
  {
    forall w | w in words
      ensures w in r && id in r[w]
    {
      assert m[w] <= r[w];
    }
  }

  lemma {:induction false} IndexOnly(c: map<string, seq<int>>, bs: seq<(seq<string>, Result<int>)>, w: string, x: int)
    requires Index(c, bs).Success?
    requires w in Index(c, bs).value && x in Index(c, bs).value[w]
    decreases |bs|
    ensures (w in c && x in c[w]) || exists k :: 0 <= k < |bs| && w in bs[k].0 && bs[k].1 == Success(x)
  {
    if |bs| > 0 {
      var init, last := bs[..|bs| - 1], bs[|bs| - 1];
      IndexLast(c, bs);
      var m := Index(c, init).value;
      AddAllSpec(m, last.0, last.1.value);
      if !(w in last.0 && x == last.1.value) {
        assert w in m && x in m[w];
        IndexOnly(c, init, w, x);
        if !(w in c && x in c[w]) {
          var k :| 0 <= k < |init| && w in init[k].0 && init[k].1 == Success(x);
          assert bs[k] == init[k];
        }
      }
    }
  }

  /** The index can be built exactly when every title is in coursemap. */
  lemma IndexAllSucceeds(c: map<string, seq<int>>, entries: seq<(string, string)>, coursemap: map<string, int>)
    ensures IndexAll(c, entries, coursemap).Success? <==>
      forall k :: 0 <= k < |entries| ==> TitleKey(entries[k].1) in coursemap
  {
    var bs := Batches(entries, coursemap);
    IndexSucceeds(c, bs);
    forall k | 0 <= k < |entries|
      ensures bs[k].1 == GetCourseIdentifier(entries[k].1, coursemap)
    {
      BatchesIndex(entries, coursemap, k);
    }
  }

  /** On success, the words of each entry hold the id of its title, the
      lists of c survive as prefixes, and no id is listed twice for a word
      when c lists none twice. */
  lemma IndexAllSpec(c: map<string, seq<int>>, entries: seq<(string, string)>, coursemap: map<string, int>)
    requires IndexAll(c, entries, coursemap).Success?
    ensures Grows(c, IndexAll(c, entries, coursemap).value)
    ensures forall k :: 0 <= k < |entries| ==>
      && GetCourseIdentifier(entries[k].1, coursemap).Success?
      && Holds(IndexAll(c, entries, coursemap).value, EntryWords(entries[k]), GetCourseIdentifier(entries[k].1, coursemap).value)
    ensures Distinct(c) ==> Distinct(IndexAll(c, entries, coursemap).value)
  {
    var bs := Batches(entries, coursemap);
    IndexGrows(c, bs);
    if Distinct(c) {
      IndexDistinct(c, bs);
    }
    forall k | 0 <= k < |entries|
      ensures GetCourseIdentifier(entries[k].1, coursemap).Success?
      ensures Holds(IndexAll(c, entries, coursemap).value, EntryWords(entries[k]), GetCourseIdentifier(entries[k].1, coursemap).value)
    {
      BatchesIndex(entries, coursemap, k);
      IndexHolds(c, bs, k);
    }
  }

  /** On success, every id in a list is one c had there, or the id of the
      title of an entry whose words include that word. */
  lemma IndexAllOnly(c: map<string, seq<int>>, entries: seq<(string, string)>, coursemap: map<string, int>, w: string, x: int)
    requires IndexAll(c, entries, coursemap).Success?
    requires w in IndexAll(c, entries, coursemap).value && x in IndexAll(c, entries, coursemap).value[w]
    ensures (w in c && x in c[w]) ||
      exists k :: 0 <= k < |entries| && w in EntryWords(entries[k]) && GetCourseIdentifier(entries[k].1, coursemap) == Success(x)
  {
    var bs := Batches(entries, coursemap);
    IndexOnly(c, bs, w, x);
    if !(w in c && x in c[w]) {
      var k :| 0 <= k < |bs| && w in bs[k].0 && bs[k].1 == Success(x);
      BatchesIndex(entries, coursemap, k);
    }
  }

  /** One text indexed under the id of a title (lines 75-83 and 86-92):
      its clean words get the id, or the title is missing from coursemap. */
  method IndexEntry(text: string, title: string, coursemap: map<string, int>, d: map<string, PostingList>,
                    ghost c0: map<string, seq<int>>, ghost before: seq<(string, string)>)
    returns (r: Result<map<string, PostingList>>)
    requires Unshared(d)
    requires IndexAll(c0, before, coursemap) == Success(Contents(d))
    modifies PostingLists(d)
    ensures r.Success? <==> IndexAll(c0, before + [(text, title)], coursemap).Success?
    ensures r.Failure? ==> r.error == Key
    ensures r.Success? ==>
      && Unshared(r.value)
      && (forall w :: w in d ==> w in r.value && r.value[w] == d[w])
      && (forall w :: w in r.value && w !in d ==> fresh(r.value[w]))
      && Contents(r.value) == IndexAll(c0, before + [(text, title)], coursemap).value
  {
    var words := CleanTextIntended(text);
    var id := GetCourseIdentifier(title, coursemap);
    IndexAllStep(c0, before, (text, title), coursemap);
    if id.Failure? {
      return Failure(Key);
    }
    var e := AddPostings(d, words, id.value);
    r := Success(e);
  }

  /** One course of find_course_info (lines 65-92): every course of its
      sequence, or the course itself when it heads none. */
  method IndexCourse(course: Course, coursemap: map<string, int>, d: map<string, PostingList>,
                     ghost c0: map<string, seq<int>>, ghost done: seq<(string, string)>)
    returns (r: Result<map<string, PostingList>>)
    requires Unshared(d)
    requires IndexAll(c0, done, coursemap) == Success(Contents(d))
    modifies PostingLists(d)
    ensures r.Success? <==> IndexAll(c0, done + EntriesOf(course), coursemap).Success?
    ensures r.Failure? ==> r.error == Key
    ensures r.Success? ==>
      && Unshared(r.value)
      && (forall w :: w in d ==> w in r.value && r.value[w] == d[w])
      && (forall w :: w in r.value && w !in d ==> fresh(r.value[w]))
      && Contents(r.value) == IndexAll(c0, done + EntriesOf(course), coursemap).value
  {
    var courseText := course.main.title + " " + course.main.description;
    if |course.sequence| > 0 {
      r := IndexSequence(course.main, course.sequence, coursemap, d, c0, done);
    } else {
      r := IndexEntry(courseText, course.main.title, coursemap, d, c0, done);
    }
  }

  /** Lines 70-83: every course of a sequence, its text followed by the
      text of the course heading the sequence. */
  method IndexSequence(main: Block, subs: seq<Block>, coursemap: map<string, int>, d: map<string, PostingList>,
                       ghost c0: map<string, seq<int>>, ghost done: seq<(string, string)>)
    returns (r: Result<map<string, PostingList>>)
    requires Unshared(d)
    requires IndexAll(c0, done, coursemap) == Success(Contents(d))
    modifies PostingLists(d)
    ensures r.Success? <==> IndexAll(c0, done + SequenceEntries(main, subs), coursemap).Success?
    ensures r.Failure? ==> r.error == Key
    ensures r.Success? ==>
      && Unshared(r.value)
      && (forall w :: w in d ==> w in r.value && r.value[w] == d[w])
      && (forall w :: w in r.value && w !in d ==> fresh(r.value[w]))
      && Contents(r.value) == IndexAll(c0, done + SequenceEntries(main, subs), coursemap).value
  {
    var courseText := main.title + " " + main.description;
    var newDict := d;
    ghost var entries := done;
    assert done + SequenceEntries(main, subs[..0]) == done;
    for j := 0 to |subs|
      invariant entries == done + SequenceEntries(main, subs[..j])
      invariant Unshared(newDict)
      invariant forall w :: w in d ==> w in newDict && newDict[w] == d[w]
      invariant forall w :: w in newDict && w !in d ==> fresh(newDict[w])
      invariant IndexAll(c0, entries, coursemap) == Success(Contents(newDict))
    {
      var sub := subs[j];
      var subText := sub.title + " " + sub.description + " " + courseText;
      SequenceEntriesSnoc(done, main, subs, j);
      var next := IndexEntry(subText, sub.title, coursemap, newDict, c0, entries);
      entries := entries + [(subText, sub.title)];
      if next.Failure? {
        SequenceFailureStays(c0, done, main, subs, j, coursemap);
        return Failure(Key);
      }
      newDict := next.value;
    }
    assert subs[..|subs|] == subs;
    r := Success(newDict);
  }

  /** A course of a sequence missing from coursemap fails the whole sequence. */
  lemma SequenceFailureStays(c0: map<string, seq<int>>, done: seq<(string, string)>, main: Block, subs: seq<Block>,
                             j: nat, coursemap: map<string, int>)
    requires j < |subs| && IndexAll(c0, done + SequenceEntries(main, subs[..j + 1]), coursemap).Failure?
    ensures IndexAll(c0, done + SequenceEntries(main, subs), coursemap)
      == IndexAll(c0, done + SequenceEntries(main, subs[..j + 1]), coursemap)
  {
    var step := SequenceEntries(main, subs[..j + 1]);
    SequenceEntriesPrefix(main, subs, j + 1);
    PrefixExtend(done, step, SequenceEntries(main, subs));
    IndexAllFailureStays(c0, done + step, done + SequenceEntries(main, subs), coursemap);
  }

  lemma EntriesSnoc(courses: seq<Course>, i: nat)
    requires i < |courses|
    ensures Entries(courses[..i + 1]) == Entries(courses[..i]) + EntriesOf(courses[i])
  {
    assert courses[..i + 1][..i] == courses[..i];
  }

  /** A course missing from coursemap fails the whole index. */
  lemma CourseFailureStays(c0: map<string, seq<int>>, courses: seq<Course>, i: nat, coursemap: map<string, int>)
    requires i < |courses| && IndexAll(c0, Entries(courses[..i + 1]), coursemap).Failure?
    ensures IndexAll(c0, Entries(courses), coursemap) == IndexAll(c0, Entries(courses[..i + 1]), coursemap)
  {
    EntriesPrefix(courses, i + 1);
    IndexAllFailureStays(c0, Entries(courses[..i + 1]), Entries(courses), coursemap);
  }

  /** find_course_info on the extracted course blocks.  new_dict starts as
      a shallow copy of course_dict, so the lists of the words already in
      course_dict are the same objects and are extended in place; words new
      to the index get new lists.  A title missing from coursemap raises
      KeyError. */
  method FindCourseInfo(courses: seq<Course>, coursemap: map<string, int>, courseDict: map<string, PostingList>)
    returns (r: Result<map<string, PostingList>>)
    requires Unshared(courseDict)
    modifies PostingLists(courseDict)
    ensures r.Success? <==> IndexAll(old(Contents(courseDict)), Entries(courses), coursemap).Success?
    ensures r.Failure? ==> r.error == Key
    ensures r.Success? ==>
      && Unshared(r.value)
      && (forall w :: w in courseDict ==> w in r.value && r.value[w] == courseDict[w])
      && (forall w :: w in r.value && w !in courseDict ==> fresh(r.value[w]))
      && Contents(r.value) == IndexAll(old(Contents(courseDict)), Entries(courses), coursemap).value
  {
    ghost var c0 := Contents(courseDict);
    var newDict := courseDict;
    for i := 0 to |courses|
      invariant Unshared(newDict)
      invariant forall w :: w in courseDict ==> w in newDict && newDict[w] == courseDict[w]
      invariant forall w :: w in newDict && w !in courseDict ==> fresh(newDict[w])
      invariant IndexAll(c0, Entries(courses[..i]), coursemap) == Success(Contents(newDict))
    {
      ghost var done := Entries(courses[..i]);
      EntriesSnoc(courses, i);
      var next := IndexCourse(courses[i], coursemap, newDict, c0, done);
      if next.Failure? {
        CourseFailureStays(c0, courses, i, coursemap);
        return Failure(Key);
      }
      newDict := next.value;
    }
    assert courses[..|courses|] == courses;
    r := Success(newDict);
  }
}
