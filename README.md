# SampleWork core, modelled in Dafny

This project models the algorithmic core of a collection of course
assignments written in Python, and proves properties of the model. The
pieces are:

- an open-addressing hash table with linear probing and doubling;
- a character-level Markov model of order k trained on that table, used to
  decide which of two speakers more likely uttered a text;
- a prefix trie behind an auto-completing English dictionary;
- the tree utilities of a treemap drawer and a tree-pruning step;
- a polling-booth simulation;
- the SQL text assembly of a course search;
- the tokeniser and inverted-index update of a course crawler;
- the pre-processing of tweets into n-grams, a frequent-items counter and
  a split of tweets by month;
- the grid helpers of a Schelling segregation model.

There is one Dafny module per source file. Three modules are shared:

- `Wrappers` holds `Option` and `Result`. A Python `None` becomes `None`.
  A raised exception becomes `Failure` with the kind of error (KeyError,
  ZeroDivisionError, ...).
- `Text` holds the Python string operations the code uses: `strip`,
  `split`, `join`, `replace`, `lower`, `startswith`, `str(n)`.
- `Lists` holds order-preserving duplicate removal. It is the reference
  that `remove_duplicates` and `clean_text` are measured against.

Code that changes state is modelled with state:

- The hash table is a `class` whose `data`, `cells` and `check_size`
  fields its methods update.
- The Markov model, the English dictionary, the voters, the voter
  generator, the precinct and the crawler's posting lists are classes.
- The Schelling grid is an `array2<string>` updated in place.
- Loops are `while`/`for` loops with invariants. Each is proved against a
  specification function, and the properties are proved about that
  function.

Pure recursion becomes functions. This covers the trie, the trees, pruning,
the n-gram and counter specifications, and the clause builder.

A few things the code calls but does not define are parameters of the model:

- `math.log` is an uninterpreted `ln: real -> real`. Ratios are exact
  reals.
- The gap and voting-duration draws of the voter generator are given as
  inputs.
- The wait-time function of `find_number_of_booths` is a parameter
  `wait: nat -> real`.
- `grab_year_month` is a parameter `yearMonth: string -> (int, int)`.
- `find_top_k` is a parameter `topK`.
- The Unicode punctuation string and the `STOP_WORDS` set are a `Tables`
  value.
- The lines of the word file and the extracted course blocks are
  sequences passed in.

A consequence of the code worth stating: with sample texts "aaaa" and
"bbbb" (order 1), the unknown text "aaaa" is not attributed to the first
speaker, although it is made only of that speaker's letter. The smoothed ratio
(M + 1) / (N + S) is 1 for every term under both models, so the two
normalised log probabilities tie and the answer is "A or B"
(`Markov.UniformTextsUndecided`).

## Model

| member | source | states |
|---|---|---|
| HashTable.CreateHash | Hash_Table.py:97-108 | the home slot of every key lies in [0, cells) |
| HashTable.RotationsCollide | Hash_Table.py:102-106 | the home slot depends only on the characters: a key and any rotation of it collide in every table size |
| HashTable.TooFullIff | Hash_Table.py:52 | the grow test check_size / cells ≥ 0.5 holds exactly when 2 · check_size ≥ cells |
| HashTable.LayoutEmpty | Hash_Table.py:18-21 | a table of empty cells represents the empty mapping |
| HashTable.LayoutInsert | Hash_Table.py:64-67 | filling the first empty cell on the key's probe run keeps the layout invariant, with the key added |
| HashTable.LayoutOverwrite | Hash_Table.py:61-62 | writing the pair into the cell that holds the key keeps the invariant, so no key ever occupies two cells |
| HashTable.SlotAt | Hash_Table.py:34-35 | an occupied cell is the slot of its own key, and no other key's |
| HashTable.ProbeAbsent | Hash_Table.py:37-42 | a probe from the home slot that meets an empty cell before the key proves the key absent |
| HashTable.ReachableGrow | Hash_Table.py:76-78 | occupying more cells keeps every key reachable from its home slot |
| HashTable.OneCellTableFull | Hash_Table.py:70-80 | with one cell, one insert leaves no empty cell and the probe guard holds everywhere for another key |
| HashTable.Table.constructor | Hash_Table.py:11-21 | a fresh table of `cells` empty cells, check_size 0, representing the empty mapping |
| HashTable.Table.FindSlot | Hash_Table.py:70-80 | the probe ends at a cell that is empty or holds the key, and every cell it passed holds another key |
| HashTable.Table.Lookup | Hash_Table.py:24-42 | the stored value of the key, or defval for a key never updated |
| HashTable.Table.Update | Hash_Table.py:45-67 | the mapping becomes old[key := val], every other key unchanged; it grows first when too full, even for a stored key; check_size rises by at least one for a new key |
| HashTable.Table.Store | Hash_Table.py:55-67 | the pair is written at the home slot or the first empty or matching probed cell; check_size rises by one unless the home slot held the key |
| HashTable.Table.PutNew | Hash_Table.py:57-59 | writing a new key into an empty cell on its run adds exactly that pair |
| HashTable.Table.Overwrite | Hash_Table.py:61-62 | overwriting the key's own cell changes only its value |
| HashTable.Table.Rehash | Hash_Table.py:83-94 | cells at least double, the mapping is unchanged, and check_size is never reset and counts at least the stored keys |
| HashTable.ReinsertStep | Hash_Table.py:92-94 | visiting one old cell re-inserts its pair, or nothing for an empty cell |
| HashTable.ReinsertedAll | Hash_Table.py:92-94 | after visiting every old cell all pairs are re-inserted |
| Markov.CountIsMultiplicity | Markov.py:73-78 | the count of a window is its multiplicity in the multiset of windows |
| Markov.CountOtherLength | Markov.py:73-78 | no string of another length is counted among windows of length n |
| Markov.CountPrefixBound | Markov.py:73-78 | an occurrence of w among the longer windows is an occurrence of its prefix among the shorter ones |
| Markov.GramLength | Markov.py:69-71 | every window of the circularly extended text has length n |
| Markov.GramPrefix | Markov.py:69-71 | the k-window at a position is the prefix of the (k+1)-window there |
| Markov.WindowsHaveLength | Markov.py:73-78 | all len(s) windows of length n ≤ len(s) have length n |
| Markov.SeparateCounts | Markov.py:73-78 | for k < len(s) the stored value of a k-string is its k-window count, of a (k+1)-string its (k+1)-window count, and 0 otherwise |
| Markov.CountsSumToLength | Markov.py:73-78 | the k-window counts and the (k+1)-window counts each sum to len(s) |
| Markov.LongerCountAtMostPrefixCount | Markov.py:73-78 | each (k+1)-window count is at most the count of its k-prefix |
| Markov.LongerWindowCountAtMost | Markov.py:38-42 | for a query position, the stored M never exceeds the stored N |
| Markov.QueryWindowPrefix | Markov.py:34-40 | the query's k-window is the prefix of its (k+1)-window, or equal to it when that is cut short |
| Markov.FracBounds | Markov.py:42 | a positive numerator gives a positive fraction; a numerator at most the denominator gives at most 1 |
| Markov.RatioOfCounts | Markov.py:38-42 | term r's ratio is (M+1)/(N+S) with the two looked-up values, and N+S > 0 for a non-empty text |
| Markov.CharSetBounds | Markov.py:47-59 | 1 ≤ S ≤ len(s) for non-empty s |
| Markov.RatioPositive | Markov.py:42 | every smoothing ratio of a non-empty training text is positive |
| Markov.RatioAtMostOne | Markov.py:38-42 | for k < len(s) every ratio is at most 1 |
| Markov.BumpIsIncrement | Markov.py:74-78 | writing back the looked-up value plus one increments the count |
| Markov.TallyCounts | Markov.py:73-78 | the training tally counts each string once per occurrence as a k-window or a (k+1)-window |
| Markov.TrainingStep | Markov.py:73-78 | one training position adds its k-window and then its (k+1)-window |
| Markov.Increment | Markov.py:74-78 | lookup then update adds one to the key's value and changes nothing else |
| Markov.CreateHashTable | Markov.py:62-80 | a fresh Hash_Table(57, 0) whose value for every string is its k-window count plus its (k+1)-window count |
| Markov.GetCharUsed | Markov.py:47-59 | the number of distinct characters of the text |
| Markov.DistinctLength | Markov.py:53-59 | a list without repetitions has as many elements as its set |
| Markov.Model.constructor | Markov.py:12-20 | a model of order k for text s whose table holds the trained counts and whose S is the number of distinct characters |
| Markov.Model.Term | Markov.py:39-42 | one term reads N and M through lookup, and fails with ZeroDivisionError exactly for an empty training text |
| Markov.Model.LogProbability | Markov.py:23-44 | the unnormalised sum of ln((M+1)/(N+S)) over the len(query) positions: 0 for an empty query, ZeroDivisionError for an empty training text and a non-empty query |
| Markov.EmptyTextCounts | Markov.py:42 | an empty training text has S = 0 and stores nothing, so N + S = 0 |
| Markov.Conclusion | Markov.py:99-106 | "A" iff likelihood1 > likelihood2, "B" iff likelihood2 > likelihood1, "A or B" iff they are equal |
| Markov.IdentifySpeaker | Markov.py:83-108 | fails with ZeroDivisionError exactly when a sample text or the unknown text is empty; otherwise both scores divided by len(speech3) and their conclusion |
| Markov.SameTextsUndecided | Markov.py:94-108 | identical sample texts give "A or B" |
| Markov.UniformGrams | Markov.py:69-71 | the windows of lengths 1 and 2 of four equal characters |
| Markov.CountFour | Markov.py:73-78 | four equal windows are counted four times or never |
| Markov.UniformCounts | Markov.py:73-78 | order 1: "aaaa" stores 4 for "a" and "aa"; "bbbb" stores 0 for both |
| Markov.UniformRatios | Markov.py:38-42 | every ratio for query "aaaa" is 1 under the "aaaa" model and under the "bbbb" model |
| Markov.UniformTextsUndecided | Markov.py:94-108 | sample texts "aaaa" and "bbbb" of order 1 score "aaaa" equally, so the conclusion is "A or B" |
| Dictionary.FindChild | english_dictionary.py:109 | the index of the first child under the key, or None exactly when no child has it |
| Dictionary.AddWord | english_dictionary.py:92-117 | add_word adds 1 to the receiving node's count and never clears its completion flag |
| Dictionary.FindChildReplace | english_dictionary.py:109-111 | replacing a child under its key changes no child lookup |
| Dictionary.FindChildAppend | english_dictionary.py:113-116 | a new child is found only under its own key |
| Dictionary.PrefixedMember | english_dictionary.py:137-139 | y is c + x for a listed x exactly when it starts with c followed by x |
| Dictionary.EmptyStoresNothing | english_dictionary.py:83-89 | a fresh node stores no word |
| Dictionary.AddWordStored | english_dictionary.py:101-117 | after add_word(w), exactly the old words and w are stored |
| Dictionary.AddBelowStored | english_dictionary.py:109-111 | the same when the first character already has a child |
| Dictionary.AddNewStored | english_dictionary.py:113-117 | the same when the first character needs a new child |
| Dictionary.AddWordWellFormed | english_dictionary.py:101-117 | adding a word not yet stored keeps keys unique and counts equal to the number of stored suffixes, and adds one suffix |
| Dictionary.AddBelowWellFormed | english_dictionary.py:109-111 | the same below an existing child |
| Dictionary.AddNewWellFormed | english_dictionary.py:113-117 | the same below a new child |
| Dictionary.SuffixesStored | english_dictionary.py:120-141 | the suffixes listed below a well-formed node are exactly its stored words |
| Dictionary.ChildSuffixesMember | english_dictionary.py:137-139 | a suffix listed for the children from i on comes from one of them |
| Dictionary.SuffixesDistinct | english_dictionary.py:120-141 | the suffixes below a well-formed node have no repetitions |
| Dictionary.ChildSuffixesDistinct | english_dictionary.py:137-139 | the children's suffix lists have no repetitions |
| Dictionary.GetSuffixIsSuffixes | english_dictionary.py:120-141 | get_suffix(prefix, n) lists prefix[n:] + x for each stored suffix x, in traversal order |
| Dictionary.ChildGetSuffixIsSuffixes | english_dictionary.py:137-139 | the same for the children from i on |
| Dictionary.SearchWordDescends | english_dictionary.py:144-190 | search_word follows the word from the root and acts at the node it reaches, or returns [] when the path is missing |
| Dictionary.DescendAppend | english_dictionary.py:160-167 | following p + x is following p, then x |
| Dictionary.DescendWellFormed | english_dictionary.py:160-167 | every node below a well-formed node is well formed |
| Dictionary.PrefixedCard | english_dictionary.py:182-188 | distinct suffixes give as many distinct words behind a common prefix |
| Dictionary.EmptyRepresentsNothing | english_dictionary.py:27 | the empty trie represents the empty set of words |
| Dictionary.AddWordRepresents | english_dictionary.py:32-33 | adding a new word to a trie representing a set represents the set plus the word |
| Dictionary.CompletionsList | english_dictionary.py:182-188 | the "Completions" list is the suffixes below the node p leads to, or [] |
| Dictionary.CompletionsAre | english_dictionary.py:182-188 | the completions of p are exactly the x with p + x stored, without repetitions, as many as the words with prefix p |
| Dictionary.CompletionsBelow | english_dictionary.py:183-188 | the same once p has led to a node |
| Dictionary.EnglishDictionary.constructor | english_dictionary.py:20-33 | the dictionary holds exactly the non-empty stripped lines of the word file |
| Dictionary.EnglishDictionary.AddLine | english_dictionary.py:31-33 | one line adds its stripped text unless that is empty; a word already present is not added twice |
| Dictionary.EnglishDictionary.IsWord | english_dictionary.py:36-47 | true exactly for the added words |
| Dictionary.EnglishDictionary.NumCompletions | english_dictionary.py:50-65 | the number of added words with the prefix, equal to the length of get_completions |
| Dictionary.EnglishDictionary.GetCompletions | english_dictionary.py:68-79 | exactly the x with prefix + x added, "" iff the prefix is a word, without repetitions |
| Treemap.ComputeInternalCounts | treemap.py:19-42 | fails with TypeError exactly when a leaf without count is summed; else only internal counts change, each is the sum of its children's, a leaf is returned unchanged, and the result is the root count, the sum of the leaf counts |
| Treemap.ChildCounts | treemap.py:39-40 | one count per child |
| Treemap.Assembled | treemap.py:38-42 | once every child is done, the node holds the sum of the leaf counts |
| Treemap.ChildDone | treemap.py:39-41 | a finished child is added to the finished children |
| Treemap.DoneCounts | treemap.py:39-40 | one count per finished child |
| Treemap.ChildAdded | treemap.py:40 | the running total grows by the finished child's count |
| Treemap.CountsOnlyLeafCounts | treemap.py:35-36 | changing internal counts leaves the leaf counts alone |
| Treemap.CountsOnlyChildLeafCounts | treemap.py:35-36 | the same for the children from i on |
| Treemap.SumsAreLeafSums | treemap.py:19-42 | where every internal count is its children's sum, the count of a node is the sum of its leaf counts |
| Treemap.ChildSumsAreLeafSums | treemap.py:38-42 | the same summed over the children from i on |
| Treemap.RootCountIsLeafSum | treemap.py:19-42 | after the walk the root count is the sum of all leaf counts |
| Treemap.PassedDown | treemap.py:64-68 | an internal node passes down its label for prefix None or "", else prefix + ": " + label |
| Treemap.ComputeVerboseLabels | treemap.py:45-70 | fails with TypeError exactly for a leaf reached with prefix None; otherwise only verbose labels change, and every node carries the label passed down to it from the prefix |
| Treemap.VerboseLabelIsPath | treemap.py:60-70 | with non-empty labels each verbose label is the labels on the path joined by ": " |
| Treemap.RootedVerboseLabels | treemap.py:60-70 | the same for a walk started at the root with prefix None |
| Treemap.StringSet.constructor | treemap.py:103 | a fresh empty set |
| Treemap.GetColorKeySet | treemap.py:103-121 | a leaf adds its label to the given set; an internal node adds all its leaf labels to the shared default set, because its recursive calls use the default set, and leaves a distinct given set unchanged; the given set is returned |
| Treemap.DrawColorKeySet | treemap.py:90 | draw_treemap's call adds the leaf labels to the shared default set |
| Treemap.SecondColorKeyHoldsFirst | treemap.py:103-121 | a second treemap's colour key still holds the first tree's labels |
| Treemap.ColorKeySet | treemap.py:103-121 | the corrected definition: a fresh empty set that also takes the place of the shared default, so the recursive calls fill it, ends as exactly the leaf labels of the tree (as written, an explicit fresh set on an internal tree stays empty) |
| Treemap.LeafOnPathIsLeafLabel | treemap.py:114-117 | every leaf reached by a path has its label in the key set |
| Treemap.ChildLeafLabelsHas | treemap.py:119-120 | a child's leaf labels are among the children's |
| Treemap.LeafLabelHasPath | treemap.py:114-121 | every label in the key set is the label of a leaf |
| Treemap.ChildLeafLabelHasPath | treemap.py:119-121 | the same for the children from i on |
| Diversity.PruneTree | diversity.py:101-132 | the root label is kept and no child is added; the tree is returned unchanged or rebuilt without count and verbose label |
| Diversity.PruneChildren | diversity.py:125-128 | at most one pruned copy per remaining child |
| Diversity.NoDiscardedBelowRoot | diversity.py:125-128 | no node below the root of the result has a discarded label |
| Diversity.PrunedChildrenOrder | diversity.py:125-130 | the children of the result are the pruned copies of exactly the kept children, in their original order |
| Diversity.ChildrenOrder | diversity.py:125-128 | the same for the children from i on |
| Diversity.PicksKept | diversity.py:126-128 | a kept child is picked |
| Diversity.PicksDropped | diversity.py:126 | a discarded child is skipped |
| Diversity.PrunedCountsCleared | diversity.py:121-130 | every node of the result has count None, except kept leaves returned unchanged |
| Diversity.ChildLeafCountsHas | diversity.py:125-128 | a child's leaf counts are among the children's |
| Diversity.EmptiedChildBreaksCounts | diversity.py:121-130 | a kept internal child whose children are all discarded becomes a leaf without count, so compute_internal_counts on the result fails |
| Diversity.Emptied | diversity.py:125-128 | a node whose children are all discarded gets no children |
| Simulate.Insert | simulate.py:117-122 | putting a departure time makes the queue one longer |
| Simulate.InsertContents | simulate.py:117-122 | putting a departure time adds exactly that time to the queue |
| Simulate.InsertSorted | simulate.py:117-122 | the queue stays in ascending order |
| Simulate.Voter.constructor | simulate.py:19-30 | a voter with its arrival and duration, start and departure unset |
| Simulate.VoterGenerator.constructor | simulate.py:47-62 | current time 0 and no voter generated |
| Simulate.VoterGenerator.NextVoter | simulate.py:64-76 | None once num_voters voters exist; otherwise the time advances by the gap, a voter arrives then, and the counter rises by one |
| Simulate.Precinct.constructor | simulate.py:103-115 | an empty queue of capacity num_booths and minutes_open = 60 · hours_open |
| Simulate.Precinct.AddVoter | simulate.py:117-122 | the departure time is added to the queue |
| Simulate.Precinct.RemoveVoter | simulate.py:124-130 | the earliest departure time is removed and returned |
| Simulate.Precinct.SimulatePrecinct | simulate.py:139-161 | a missing voter or one arriving after closing is rejected with no change; else the start is the arrival (free booth) or max(arrival, earliest departure), the departure is start + duration and is queued; the queue never exceeds num_booths |
| Simulate.AdmitStart | simulate.py:148-155 | no voter starts before arriving; with a free booth the start is the arrival |
| Simulate.SimulatePrecinctDay | simulate.py:179-196 | the accepted voters of one precinct, in order, up to the first rejected one; voter k arrives at the sum of the first k+1 gaps, starts exactly when the booths left by voters 0..k-1 let it start, and departs start + duration |
| Simulate.DayVoter | simulate.py:189-191 | one generated voter is simulated; it votes exactly when it arrives before closing, with the start the booths give it, and the booths then hold the queue after voters 0..k |
| Simulate.QueueAfterStep | simulate.py:148-161 | the booths after voter k are the booths after voters 0..k-1 with voter k admitted |
| Simulate.AcceptedStart | simulate.py:148-155 | a voter who voted never started before arriving, and started on arrival when a booth was free |
| Simulate.SimulateElectionDay | simulate.py:164-198 | one entry per precinct name, holding the day's voters of the last precinct with that name, each with its arrival, duration, exact start and departure times |
| Simulate.LastOwnersStep | simulate.py:196 | a later precinct of the same name replaces the earlier entry |
| Simulate.FindNumberOfBooths | simulate.py:246-272 | the first b in 1..max with wait(b) < target and its wait, else (0, None) |
| Courses.DedupFromContinues | courses.py:224-226 | the comprehension scanning with a seen set continues the first occurrences of the prefix |
| Courses.RemoveDuplicatesIsFirstOccurrences | courses.py:213-226 | remove_duplicates keeps the first occurrence of each element, in order |
| Courses.RemoveDuplicatesSpec | courses.py:213-226 | no duplicates, the same elements as the input, and idempotent |
| Courses.CleanHeader | courses.py:278-287 | the text after the first '.', or the string unchanged without '.' |
| Courses.ParameterOfNoMark | courses.py:130-134 | no entry of parameters_dict carries a '?' in its column, operator or join |
| Courses.Lookup | courses.py:184 | Some exactly when an entry has the key, and then the value of such an entry |
| Courses.FindCoursesQuery | courses.py:142-190 | the loop yields the query string and argument list of `Query`, or AttributeError |
| Courses.BuildClause | courses.py:157-175 | the loop builds one criterion's where string and arguments |
| Courses.GatherStep | courses.py:144-175 | one more criterion adds its contribution to the gathered lists |
| Courses.GatherFailureStays | courses.py:154-155 | once the loop has raised, later criteria do not matter |
| Courses.JoinMarks | courses.py:170-175 | joining with a separator free of '?' adds no placeholder |
| Courses.RepeatMarks | courses.py:160-162 | n copies of a clause carry n times its placeholders |
| Courses.ClauseArguments | courses.py:159-168 | a non-empty list gives its elements in order; any other value, a falsy one included, gives itself |
| Courses.ClauseMarks | courses.py:157-175 | one criterion's where string holds exactly one '?' per argument |
| Courses.ClauseParentheses | courses.py:170-175 | more than one placeholder gives " (" … ")"; one gives the single comparison |
| Courses.WherePlaceholders | courses.py:157-181 | the where clauses hold exactly len(search_arg_list) placeholders |
| Courses.GatherFails | courses.py:154-155 | the loop raises AttributeError exactly when the terms value is not a string |
| Courses.Known | courses.py:145 | the criteria whose key is in parameters_dict |
| Courses.LookupSnoc | courses.py:184 | a later duplicate key does not change the lookup |
| Courses.GatherKnown | courses.py:144-145 | dropping unknown keys changes neither the gathered lists nor the terms value |
| Courses.UnknownKeysIgnored | courses.py:144-145 | keys not in parameters_dict contribute nothing to the query |
| Courses.HavingSuffix | courses.py:184-190 | with terms the query ends with HAVING COUNT(...) = the number of words of the terms |
| Courses.WhereSuffix | courses.py:181-190 | without terms the query ends with the where clauses |
| Crawler.WordRun | crawler.py:136 | the longest prefix made of \w characters |
| Crawler.FindWords | crawler.py:136 | every word found matches [a-zA-Z]\w* |
| Crawler.FindWordsNoUpper | crawler.py:131-136 | matches in a lower-cased text have no capitals |
| Crawler.Kept | crawler.py:139-142 | the matches not in INDEX_IGNORE, in order |
| Crawler.KeptHas | crawler.py:140 | a kept word is exactly a match not in INDEX_IGNORE |
| Crawler.SelectWords | crawler.py:133-144 | the two loops give the first occurrences of the kept matches |
| Crawler.CleanText | crawler.py:120-144 | clean_text as written, with "u\xa0" replaced |
| Crawler.CleanTextIntended | crawler.py:131 | clean_text with the non-breaking space replaced on its own |
| Crawler.CleanTextAgrees | crawler.py:131 | on a text without a non-breaking space, clean_text as written and the corrected cleaning give the same words |
| Crawler.CleanWordsSpec | crawler.py:136-142 | no duplicates, none in INDEX_IGNORE, each a match, and every match not ignored is kept |
| Crawler.CleanTextLower | crawler.py:131-136 | every kept word starts with a lower-case letter and has no capital |
| Crawler.NbspTypoDropsLetter | crawler.py:131 | "menu\xa0x" gives "men" and "x" as written, and "menu" and "x" as intended |
| Crawler.TitleKey | crawler.py:111-113 | the coursemap key holds no '.' and no non-breaking space |
| Crawler.GetCourseIdentifier | crawler.py:97-117 | succeeds exactly when the title's text before the first '.' is a key of coursemap, else KeyError |
| Crawler.PostingList.constructor | crawler.py:81 | a fresh empty posting list |
| Crawler.Batches | crawler.py:64-92 | one batch of words and id per indexed text |
| Crawler.BatchesIndex | crawler.py:64-92 | batch k is the words and id of entry k |
| Crawler.BatchesPrefix | crawler.py:64-92 | more entries give more batches after the same ones |
| Crawler.AddPosting | crawler.py:80-83 | a word gets a new list if missing and the id appended unless present; existing lists are the same objects |
| Crawler.AddPostings | crawler.py:79-83 | the id added to the list of each word in order |
| Crawler.EntriesPrefix | crawler.py:64-92 | the entries of the first courses come before the rest |
| Crawler.SequenceEntriesPrefix | crawler.py:70-76 | the same for the blocks of a sequence |
| Crawler.SequenceEntriesSnoc | crawler.py:70-76 | one more sequence block adds its entry |
| Crawler.IndexAllStep | crawler.py:64-92 | one more entry adds its words under its id |
| Crawler.IndexFailureStays | crawler.py:78 | once a lookup fails, later batches do not matter |
| Crawler.IndexAllFailureStays | crawler.py:78-87 | once a title is missing, later entries do not matter |
| Crawler.GrowsTransitive | crawler.py:82-92 | growing twice is growing |
| Crawler.PostSpec | crawler.py:80-83 | the word holds the id; lists only grow; no list holds an id twice if none did |
| Crawler.AddAllSpec | crawler.py:79-83 | every word holds the id; lists only grow; only these words and id are added; no duplicates |
| Crawler.IndexLast | crawler.py:64-92 | a built index extends the index of all batches but the last |
| Crawler.IndexSucceeds | crawler.py:78-87 | the index is built exactly when every lookup succeeds |
| Crawler.IndexGrows | crawler.py:64-92 | every existing list is a prefix of its new list |
| Crawler.IndexDistinct | crawler.py:82-92 | no posting list holds an id twice |
| Crawler.IndexHolds | crawler.py:79-92 | every word of every batch holds its id |
| Crawler.HoldsGrows | crawler.py:82-92 | growth keeps held ids |
| Crawler.IndexOnly | crawler.py:79-92 | every id in a list was there before or is the id of a batch with that word |
| Crawler.IndexAllSucceeds | crawler.py:64-92 | the index is built exactly when every title is in coursemap |
| Crawler.IndexAllSpec | crawler.py:64-92 | lists grow, each entry's words hold its id, and no id is listed twice |
| Crawler.IndexAllOnly | crawler.py:64-92 | every listed id was there before or belongs to an entry with that word |
| Crawler.IndexEntry | crawler.py:75-92 | one text indexed under its title's id, or KeyError |
| Crawler.IndexCourse | crawler.py:65-92 | a course indexes each sequence block with the course's text, or its own text |
| Crawler.IndexSequence | crawler.py:70-83 | each block of a sequence, in order, is indexed under its own title with its text followed by the heading course's text; the first title missing from coursemap fails the whole sequence |
| Crawler.FindCourseInfo | crawler.py:45-94 | the posting lists after all courses, or KeyError; lists of words already in course_dict are the same objects, extended in place |
| Analyze.KeptTokens | analyze.py:72-75 | the tokens that are not stop words, in order |
| Analyze.RewrittenAll | analyze.py:59-70 | each token rewritten, one per token |
| Analyze.RewrittenAllSnoc | analyze.py:59-70 | one more token adds its rewrite |
| Analyze.RewrittenAllIndex | analyze.py:59-70 | token k of the rewritten list is the rewrite of token k |
| Analyze.KeptTokensSnoc | analyze.py:73-75 | one more token is kept unless it is a stop word |
| Analyze.ClearStopPrefix | analyze.py:68-70 | a token with a STOP_PREFIXES entry becomes 'a' |
| Analyze.NoStopPrefixOfA | analyze.py:37 | 'a' has none of the stop prefixes |
| Analyze.Unpunctuate | analyze.py:60-62 | a token found in PUNCTUATION becomes 'a', then punctuation is stripped from both ends |
| Analyze.LowerToken | analyze.py:63-65 | a token starting with '$' becomes 'a', then it is lower-cased |
| Analyze.Unstop | analyze.py:66-70 | a stop word or a token with a stop prefix becomes 'a' |
| Analyze.RewriteWord | analyze.py:59-70 | one token rewritten by lines 59-70 |
| Analyze.RewriteTokens | analyze.py:56-70 | every token of the split text rewritten in place |
| Analyze.KeepTokens | analyze.py:72-75 | the loop keeps the non-stop-word tokens |
| Analyze.AppendNGrams | analyze.py:77-79 | the n-grams of the kept tokens appended |
| Analyze.PreProcessTweets | analyze.py:42-81 | the n-grams of each tweet in turn |
| Analyze.WindowsSpec | analyze.py:77-79 | window j is ws[j : j + n], of length n |
| Analyze.NGramsSpec | analyze.py:77-79 | for n ≥ 1, m kept tokens give max(0, m − n + 1) consecutive n-grams of length n, in order |
| Analyze.PreProcessedSnoc | analyze.py:55-79 | one more tweet appends its n-grams |
| Analyze.PreProcessedConcat | analyze.py:55-79 | the tweets are processed one after the other |
| Analyze.LowerA | analyze.py:65 | 'a' lower-cased is 'a' |
| Analyze.MarkStays | analyze.py:60-74 | a token marked 'a' stays 'a' and, being in STOP_WORDS, is dropped |
| Analyze.RewrittenCases | analyze.py:60-70 | a PUNCTUATION token, a '$' token and a stop-prefixed token become 'a'; any other is its stripped lower-case form |
| Analyze.LowerStart | analyze.py:63-65 | lower-casing leaves no capital and keeps a leading '$' |
| Analyze.KeptRewrittenClean | analyze.py:60-75 | every kept token is lower-case, not a stop word and without a stop prefix |
| Analyze.TweetTokensClean | analyze.py:56-75 | the same for all tokens of a tweet |
| Analyze.PreProcessedClean | analyze.py:42-81 | every token of every emitted n-gram is lower-case, not in STOP_WORDS and without a stop prefix |
| Analyze.Start | analyze.py:96-99 | a counter for exactly the listed items |
| Analyze.Decremented | analyze.py:110-111 | the tracked counters decremented, the keys unchanged |
| Analyze.Step | analyze.py:101-116 | one pass keeps the counter keys |
| Analyze.Run | analyze.py:101-116 | the passes over a list keep the counter keys |
| Analyze.DecrementTracked | analyze.py:110-111 | the loop decrements every tracked counter |
| Analyze.DropZeros | analyze.py:112-115 | the loop drops the tracked items whose counter is zero |
| Analyze.RemoveZeros | analyze.py:117-119 | the loop deletes the zero counters |
| Analyze.CountItem | analyze.py:101-116 | the loop body for one item |
| Analyze.FindFrequent6 | analyze.py:84-123 | the counters left after the passes and the removal, before sorting |
| Analyze.StepValid | analyze.py:101-116 | one pass keeps counters ≥ 0, non-zero only for tracked items, and for k ≥ 2 fewer than k − 1 tracked, each positive |
| Analyze.RunValid | analyze.py:101-116 | the invariant holds throughout, and no counter exceeds the item's occurrences so far |
| Analyze.Frequent6Spec | analyze.py:84-123 | every reported item is in the list with a positive count at most its occurrences; for k ≥ 2 fewer than k − 1 items are reported |
| Analyze.Frequent6TwoItems | analyze.py:101-119 | with k = 3 two distinct items are both dropped |
| Analyze.SeparateMonthlyTweets | analyze.py:127-151 | the tweets of 2017-04, 2017-05 and 2017-06, each list in input order |
| Analyze.InMonthSnoc | analyze.py:142-149 | one more tweet joins the list of its month |
| Analyze.InMonthMembers | analyze.py:142-149 | a tweet is in a month's list exactly when it is an input tweet of that month |
| Analyze.InMonthConcat | analyze.py:142-149 | the split of concatenated inputs is the concatenation of the splits |
| Analyze.OutsideSnoc | analyze.py:142-149 | a tweet of another month goes to no list |
| Analyze.PartsSnoc | analyze.py:142-149 | one more tweet adds itself to exactly one part |
| Analyze.MonthsPartition | analyze.py:142-149 | the three lists and the dropped tweets partition the input |
| Analyze.FindTopKNGrams | analyze.py:245-260 | the top-k of the pre-processed n-grams |
| Analyze.Entry | analyze.py:321-326 | at most one entry per month |
| Analyze.FindTopKNGramsByMonth | analyze.py:301-328 | the list of the months with tweets and their top-k lists |
| Analyze.EntriesAt | analyze.py:321-326 | each entry is the April, May or June pair, by position |
| Analyze.EntriesMonths | analyze.py:321-326 | every entry is one of the three months |
| Analyze.EntriesOrder | analyze.py:321-326 | the entries come in April, May, June order |
| Analyze.EntriesPresent | analyze.py:321-326 | a month is present exactly when its list is non-empty |
| Analyze.ByMonthEntries | analyze.py:315-326 | each entry pairs a kept month with the top-k of its tweets |
| Analyze.ByMonthOrder | analyze.py:321-326 | months come in increasing order |
| Analyze.ByMonthPresent | analyze.py:321-326 | a month appears exactly when it has tweets |
| Schelling.UnoccupiedHomeSpec | schelling.py:89-105 | False for "O" and True for "B" or "R", despite the name; None (the implicit return) otherwise |
| Schelling.Cells | schelling.py:119-121 | one row of labels per grid row |
| Schelling.SwappedCells | schelling.py:125-126 | the occupant's label at the destination, "O" at the source, every other cell unchanged |
| Schelling.SwapBack | schelling.py:176-182 | moving into an "O" cell and back restores the grid |
| Schelling.SwapLocation | schelling.py:108-128 | the caller's grid is updated in place by the two writes |
| Schelling.MakeUnoccupiedList | schelling.py:130-148 | exactly the coordinates of "O" cells within range(len(grid)) squared, in row-major order |
| Schelling.Range | schelling.py:52-53 | list(range(lo, hi)) |
| Schelling.ClipSpec | schelling.py:62-72 | the clipped window holds exactly the in-range indices of the window, increasing |
| Schelling.DropOutside | schelling.py:63-67 | one pass drops at most one index at each end |
| Schelling.ClipAsWritten | schelling.py:62-72 | the clipping loop as written, deleting from the list it iterates over |
| Schelling.ClipAsWrittenOverruns | schelling.py:62-72 | a one-row grid and R = 4 leave [−1, 0, 1], where the intended clip is [0] |
| Schelling.ClipIndices | schelling.py:62-72 | the window cut to the grid's indices |
| Schelling.WindowHolds | schelling.py:52-72 | the window stays inside the grid and contains the centre |
| Schelling.CountNeighbours | schelling.py:74-82 | S counts the window's cells equal to the centre; H counts its non-"O" cells, since the always-true `== "B" or "R"` test adds one per cell and the "O" test takes it back |
| Schelling.RowCountSimilarOccupied | schelling.py:76-82 | in a row, a cell like an occupied centre is counted in H |
| Schelling.GridCountSimilarOccupied | schelling.py:74-82 | S ≤ H for an occupied centre |
| Schelling.RowCountHit | schelling.py:81-82 | a row holding the mark counts it |
| Schelling.GridCountHit | schelling.py:81-82 | a window holding the mark counts it |
| Schelling.ScoreBounds | schelling.py:74-84 | for an occupied centre and R > 0, 0 < S ≤ H, so the score lies in (0, 1] |
| Schelling.Neighbourhood | schelling.py:51-72 | for R > 0 the clipped windows inside the grid; for R < 0 empty lists |
| Schelling.ComputeSimilarityScore | schelling.py:31-86 | needs a square grid and an occupied home; 1.0 for R = 0; ZeroDivisionError for R < 0; otherwise S / H over the clipped window, with the column bound from len(grid) |
| Text.LStrip | english_dictionary.py:31 | drops exactly the leading whitespace |
| Text.RStrip | english_dictionary.py:31 | drops exactly the trailing whitespace |
| Text.Strip | english_dictionary.py:31 | no whitespace at either end |
| Text.StripEmpty | english_dictionary.py:31-32 | stripping gives "" exactly for all-whitespace lines |
| Text.StripIdempotent | english_dictionary.py:31 | stripping twice is stripping once |
| Text.LStripCharsSpec | analyze.py:62 | strip(PUNCTUATION) drops exactly the longest prefix of punctuation characters |
| Text.RStripCharsSpec | analyze.py:62 | and exactly the longest such suffix |
| Text.StripCharsNothing | analyze.py:62 | a token without punctuation at its ends is unchanged |
| Text.TakeWord | analyze.py:57 | the longest prefix without whitespace |
| Text.Split | analyze.py:57 | split() gives non-empty tokens without whitespace |
| Text.SplitBlank | courses.py:155 | a blank string splits into nothing |
| Text.JoinSnoc | courses.py:171-181 | joining one more string appends the separator and it |
| Text.ReplaceRemoves | crawler.py:111 | replacing a character by a text without it removes it |
| Text.IndexOf | courses.py:282-285 | the index of the first '.', or the length when there is none |
| Text.Before | crawler.py:113 | split(".")[0]: the text before the first '.' |
| Text.LowerChar | crawler.py:131 | lower-casing leaves no capital and changes only capitals |
| Text.Lower | crawler.py:131 | lower() character by character |
| Text.LowerIdempotent | crawler.py:131 | a lower-cased string has no capital; lower-casing twice is once |
| Text.NatToString | courses.py:187 | str(n) is a non-empty string of digits |
| Lists.FirstOccurrencesSpec | courses.py:224-226 | the first occurrences have no duplicates and the same elements |
| Lists.FirstOccurrencesSnoc | crawler.py:139-142 | appending an element already present changes nothing; a new one is appended |
| Lists.FirstOccurrencesOfDistinct | courses.py:224-226 | a list without duplicates is its own first occurrences |

## Left out

- Files outside the core (web scraping, dataframes, plotting, the drivers that print) are not part of this model. Neither are command lines, file reading, JSON, sqlite or the network.
- HashTable.Table.constructor: requires at least two cells. With one cell a lookup of a second key never ends (see Findings), and with none `create_hash` divides by zero.
- HashTable: values are integers. Markov, the only client, stores counts with default 0, so `key in (k, v)` is equality with k.
- Markov: `math.log` is the parameter `ln`, and the float ratios are exact reals. Rounding is not modelled. `__main__` and `print_results` are left out.
- Markov.Model: the order k is a `nat`. Python slicing with a negative k is not modelled.
- Dictionary: the trie is a value (`datatype Trie`) that `AddWord` returns rebuilt, not a graph of mutable nodes. The shared default `word_list=[]` of `search_word` is not modelled; each call returns a fresh list with the same contents. The `autocorrect_shell` driver is left out.
- Dictionary.EnglishDictionary.constructor: takes the lines of the word file as a sequence instead of opening the file.
- Treemap, Diversity: trees are values (`datatype Tree`). The in-place assignments to `count` and `verbose_label` are modelled as returning the updated tree. `draw_treemap` and `compute_partitions` are left out; they are float geometry and canvas drawing. The `treenode` module itself is not part of this model.
- Simulate: the Poisson draws are inputs, and times are reals. `find_avg_wait_time` is the parameter `wait`; it takes a float median over random trials. `test_VoterGenerator` and the click command are left out.
- Simulate.Precinct.constructor: requires `num_booths ≥ 1`. `PriorityQueue(0)` is unbounded and its `get()` would block.
- Courses.Lookup: the key–value list may repeat a key, which a Python dict cannot; the first value is the one found, and for lists without repeated keys it is the dict's only value.
- Courses: the sqlite connection, `get_header`, `haversine` and `compute_time_between` are left out. `args_from_ui` is a list of key–value pairs in dictionary order.
- Crawler.FindCourseInfo: the index is built from the corrected cleaning (`CleanTextIntended`, see Findings), not from `clean_text` as written, which also drops a `u` before a non-breaking space. On course text without a non-breaking space the two give the same words (`Crawler.CleanTextAgrees`); on "menu\xa0x" the source indexes "men" where the model indexes "menu".
- Crawler.IndexCourse: uses the corrected cleaning, as FindCourseInfo does.
- Crawler.IndexSequence: uses the corrected cleaning, as FindCourseInfo does.
- Crawler.IndexEntry: uses the corrected cleaning, as FindCourseInfo does.
- Crawler: `create_dictionary`, `clean_url`, `create_csv` and `go` are left out. The BeautifulSoup extraction is replaced by the extracted titles and descriptions (`Course`, `Block`). `\w` is modelled for ASCII characters only.
- Analyze: the Unicode punctuation string and `STOP_WORDS` are the `Tables` value. It is assumed to hold `WORDS`, and 'a' is assumed not to be punctuation. `find_top_k` and `grab_year_month` are parameters. `find_min_count`, `find_frequent` and `sort_count_pairs` are left out: `find_frequent_6` is modelled up to the counters it hands to the sort. JSON loading and `parse_args` are left out.
- Analyze.PreProcessTweets: n is a `nat`. A negative n is not modelled.
- Analyze.SeparateMonthlyTweets: the unused parameter n is dropped.
- Analyze.FindFrequent6: `new_dict` is the set of its keys. Its values are never read.
- Schelling: `relocate`, `do_simulation` and `go` are left out. They compare float scores against sentinels and depend on `copy.deepcopy` and an unseen utility module.
- Schelling.ComputeSimilarityScore: uses the intended clipping (`ClipIndices`). The as-written loop can leave indices −1 or len(grid), which Python's negative indexing would wrap round or reject; that effect is not modelled. The score is the integer pair S / H, not a float.
- Schelling.ClipAsWritten: the source would raise IndexError on an emptied list. The model leaves an empty list as it is. With the centre inside the grid the list is never emptied.
- Schelling.MakeUnoccupiedList: requires at least as many columns as rows, since it indexes columns by range(len(grid)).
- Text: `isspace` and `lower` cover ASCII and Latin-1 whitespace and the ASCII letters. There is no Unicode case folding.

## Findings

| source | as written | input that shows it | evidently intended | confidence | as-written member | corrected member |
|---|---|---|---|---|---|---|
| Hash_Table.py:70-80 | a table of one cell takes the first insert without growing, and `find_slot` then loops for ever for any other key | `Hash_Table(1, 0)`, `update("a", 1)`, then `lookup("b")` | a probe always meets an empty cell, so `lookup` of an absent key returns defval | not executed | HashTable.OneCellTableFull | HashTable.Table.Lookup |
| treemap.py:103-121 | the default `ckset=set([])` is created once and shared by all calls, including the recursive ones, so labels pile up across treemaps | a tree with leaf "Google", then a tree "Intel": the second key set is {"Google", "Intel"} | each call's set is exactly the leaf labels of its tree | not executed | Treemap.SecondColorKeyHoldsFirst | Treemap.ColorKeySet |
| crawler.py:131 | `replace("u\xa0", " ")` removes the letter u together with a non-breaking space and leaves other non-breaking spaces alone | "menu\xa0x" gives the words "men" and "x" | `replace(u"\xa0", " ")`, as in get_course_identifier | not executed | Crawler.NbspTypoDropsLetter | Crawler.CleanTextIntended |
| schelling.py:62-72 | the clipping loop deletes from the list it iterates over and stops early | a one-row grid, R = 4: the row list ends as [-1, 0, 1] instead of [0] | the window cut to the grid's indices | not executed | Schelling.ClipAsWrittenOverruns | Schelling.ClipIndices |
