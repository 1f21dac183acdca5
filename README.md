# Turkish spell checker core, modelled in Dafny

This project models the core of a Turkish spell checker: the checkers that
repair a sentence one word at a time, the candidate generators they share,
and the prefix tree (trie) of dictionary words.

- **Edit-based candidates** (`SimpleSpellChecker`). Every single edit of a
  misspelled word is generated: a swap of two neighbouring characters, a
  deletion, a replacement and an insertion. Each edit is then filtered in
  place against the morphological analyser and the dictionary's
  misspelling table. The simple checker replaces a word that has no parse
  by a randomly picked candidate.
- **Two n-gram checkers** (`NGramSpellChecker`, `LeftContextNGramSpellChecker`).
  Each scores candidates by n-gram probabilities and keeps the first
  candidate with the strictly greatest score above a floor (`Selection`).
  The current checker takes the better of the bigram after the previous
  root and the bigram before the next word's root, with a configurable
  threshold. The earlier checker uses the bigram after the previous root,
  or the unigram probability for the first word, with a floor of 0.
- **Context-based candidates** (`ContextBasedSpellChecker`). The pool is the
  set of words listed in the context table under the longest roots of the
  other words of the sentence. A pool word is kept when its
  Damerau–Levenshtein distance to the misspelled word is within a bound
  that grows with the candidate's length. The distance is the restricted
  (optimal string alignment) one, computed over a two-dimensional table.
- **Trie** (`Tries`). A `TrieNode` holds a character-to-child map and an
  end-of-word flag. A `Trie` inserts words and looks up the lowered form of
  words and prefixes. The model proves these lookups against ghost maps
  from paths to nodes.
- **Small entities**: the operator tags (`Operators`), candidates
  (`Candidates`, `TrieCandidates`) and the checker settings
  (`SpellCheckerParameters`).

The morphological analyser, the dictionary, the n-gram model and the
Turkish alphabet are collaborators defined elsewhere. They are modelled as
values of function type (`Oracles`), so every statement holds for any
analyser, any probability table and any alphabet.

The model follows the code in three places a reader might not expect:
- The edit generator adds no insertion after the last character (`SimpleSpellChecker.GeneratedCount`).
- A candidate repaired from the misspelling table is a plain string, with no `MisspelledReplace` tag.
- The distance is the optimal-string-alignment variant, which breaks the
  triangle inequality (`ContextBasedSpellChecker.RestrictedTransposition`).

## Model

| member | source | states |
|---|---|---|
| Operators.Ordinal | SpellChecker/Operator.cs:6-47 | every tag has one of the eight enumeration values 0..7 |
| Operators.FromOrdinal | SpellChecker/Operator.cs:6-47 | each value 0..7 names a tag with that value |
| Operators.ExactlyEight | SpellChecker/Operator.cs:6-47 | the enumeration is closed: numbering the tags is a bijection onto 0..7 |
| Operators.Swap | SpellChecker/SimpleSpellChecker.cs:35 | swapping two neighbours keeps the length |
| Operators.Delete | SpellChecker/SimpleSpellChecker.cs:41 | a deletion shortens the word by one |
| Operators.Replace | SpellChecker/SimpleSpellChecker.cs:45 | a replacement keeps the length |
| Operators.InsertAt | SpellChecker/SimpleSpellChecker.cs:51 | an insertion lengthens the word by one |
| Candidates.Candidate.GetOperator | SpellChecker/Candidate.cs:13-15 | returns the operator the candidate was built with |
| Candidates.BuildThenRead | SpellChecker/Candidate.cs:9-15 | reading back a new candidate gives the name and operator it was built from |
| TrieCandidates.TrieCandidate.constructor | SpellChecker/TrieCandidate.cs:14-18 | a new trie candidate has the trie-based operator and the given index and penalty |
| TrieCandidates.TrieCandidate.NextIndex | SpellChecker/TrieCandidate.cs:41-44 | the index goes up by one and wraps from the largest 32-bit value to the smallest; the penalty is unchanged |
| TrieCandidates.AdvanceFresh | SpellChecker/TrieCandidate.cs:14-44 | after `n` steps without overflow the index has grown by `n`, and the penalty and operator are those it was built with |
| SpellCheckerParameters.SpellCheckerParameter.constructor | SpellChecker/SpellCheckerParameter.cs:5-7 | the defaults are threshold 0 with both flags set |
| SpellCheckerParameters.SpellCheckerParameter.SetThreshold | SpellChecker/SpellCheckerParameter.cs:9-12 | the threshold becomes the given value and the flags are unchanged |
| SpellCheckerParameters.SpellCheckerParameter.SetDeMiCheck | SpellChecker/SpellCheckerParameter.cs:13-16 | the de/mi flag becomes the given value and the other settings are unchanged |
| SpellCheckerParameters.SpellCheckerParameter.SetRootNGram | SpellChecker/SpellCheckerParameter.cs:17-20 | the root flag becomes the given value and the other settings are unchanged |
| Tries.TrieNode.constructor | SpellChecker/TrieNode.cs:14-17 | a new node has no children and ends no word |
| Tries.TrieNode.GetChild | SpellChecker/TrieNode.cs:24-31 | null exactly when there is no edge for the character, else the child on that edge |
| Tries.TrieNode.AddChild | SpellChecker/TrieNode.cs:38-40 | adds one edge; every other edge and the end-of-word flag are unchanged |
| Tries.TrieNode.ChildrenToString | SpellChecker/TrieNode.cs:46-53 | every child key appears exactly once, each followed by a space, in some order |
| Tries.TrieNode.IsWord | SpellChecker/TrieNode.cs:59-61 | reports the end-of-word flag |
| Tries.TrieNode.SetIsWord | SpellChecker/TrieNode.cs:67-69 | sets the flag and leaves the children unchanged |
| Tries.PrefixOfLowerIsLower | SpellChecker/Trie.cs:58 | every prefix of a lowercase string is lowercase |
| Tries.Trie.constructor | SpellChecker/Trie.cs:12-15 | a new trie holds only the empty path and no word, and satisfies the tree invariant |
| Tries.Trie.PrefixClosed | SpellChecker/Trie.cs:21-33 | every prefix of a path in the tree is also a path in the tree |
| Tries.Trie.WordPathPresent | SpellChecker/Trie.cs:21-33 | all prefixes of a stored word are paths in the tree |
| Tries.Trie.GetTrieNode | SpellChecker/Trie.cs:70-82 | returns the node of the path, or null exactly when some character of the path has no edge |
| Tries.Trie.Search | SpellChecker/Trie.cs:40-49 | true exactly when the lowered word was inserted |
| Tries.Trie.StartsWith | SpellChecker/Trie.cs:56-63 | true exactly when the lowered prefix is empty or is a prefix of an inserted word |
| Tries.Trie.Insert | SpellChecker/Trie.cs:21-33 | adds the word and exactly the paths of its prefixes; existing nodes are kept; inserting a word twice changes nothing; the invariant is preserved |
| Tries.Trie.InsertPath | SpellChecker/Trie.cs:23-31 | after the walk every prefix of the word is a path, only those paths are new, and the walk ends on the word's node |
| Tries.Trie.Descend | SpellChecker/Trie.cs:26-30 | one step of the walk follows the edge or creates it, adding at most that one path |
| Tries.Trie.AddNode | SpellChecker/Trie.cs:28 | a missing edge gets a fresh child node, which becomes the node of the extended path |
| Tries.Trie.MarkWord | SpellChecker/Trie.cs:32 | marking the end node adds exactly that word and restores the full invariant |
| Tries.InsertIntoFresh | SpellChecker/Trie.cs:12-82 | in a new trie nothing is found and only the empty prefix is; after one insertion the word is found exactly when it is lowercase, and then all its prefixes are found |
| SimpleSpellChecker.ReplacementsShape | SpellChecker/SimpleSpellChecker.cs:43-47 | one candidate per lowercase letter, in the alphabet's order; the k-th has the word's length, agrees with the word outside position i, and has the k-th letter at i |
| SimpleSpellChecker.InsertionsShape | SpellChecker/SimpleSpellChecker.cs:49-53 | one candidate per lowercase letter, in the alphabet's order; the k-th is one longer, keeps the word's first i characters, has the k-th letter at i, and continues with the rest of the word from i |
| SimpleSpellChecker.EditsAtAre | SpellChecker/SimpleSpellChecker.cs:33-54 | the edits at a position are exactly the swap with the next character, and at an eligible character the deletion, the replacements and the insertions |
| SimpleSpellChecker.EditsAtCount | SpellChecker/SimpleSpellChecker.cs:33-54 | a position yields one swap unless it is the last, plus 1 + 2·(letters) edits when its character is eligible |
| SimpleSpellChecker.GeneratedAre | SpellChecker/SimpleSpellChecker.cs:27-58 | a string is generated exactly when it is one of the edits at some position |
| SimpleSpellChecker.GeneratedCount | SpellChecker/SimpleSpellChecker.cs:27-58 | the list has (length − 1) swaps plus 1 + 2·(letters) edits per eligible character, with no insertion after the last character |
| SimpleSpellChecker.GeneratedAreSingleEdits | SpellChecker/SimpleSpellChecker.cs:27-58 | every generated string is one swap, deletion, replacement or insertion away from the word, and its length differs by at most one |
| SimpleSpellChecker.GenerateCandidateList | SpellChecker/SimpleSpellChecker.cs:27-58 | the loop builds exactly the generated list, with its membership and its count |
| SimpleSpellChecker.AppendEditsAt | SpellChecker/SimpleSpellChecker.cs:33-54 | one pass of the outer loop appends exactly the edits at that position |
| SimpleSpellChecker.AppendReplacements | SpellChecker/SimpleSpellChecker.cs:43-47 | the loop appends exactly the replacements, in order |
| SimpleSpellChecker.AppendInsertions | SpellChecker/SimpleSpellChecker.cs:49-53 | the loop appends exactly the insertions, in order |
| SimpleSpellChecker.FilteredAppend | SpellChecker/SimpleSpellChecker.cs:72-88 | filtering works element by element, so survivors keep their relative order |
| SimpleSpellChecker.FilteredProperties | SpellChecker/SimpleSpellChecker.cs:72-88 | the filter never lengthens the list, keeps only strings that parse, and yields a string exactly when some raw candidate parses as it or has it as a correct form that parses |
| SimpleSpellChecker.RepairInPlace | SpellChecker/SimpleSpellChecker.cs:72-88 | overwriting and removing in place, with the index stepped back after a removal, yields the filtered list |
| SimpleSpellChecker.CandidateList | SpellChecker/SimpleSpellChecker.cs:69-91 | the candidates are the filtered single edits: all parse and there are no more of them than raw edits |
| SimpleSpellChecker.SpellCheck | SpellChecker/SimpleSpellChecker.cs:116-147 | one output word per input word; a word that parses or has no candidates is kept, others become one of their candidates; a sentence of correct words is unchanged |
| Selection.Pick | NGramSpellChecker.cs:68-73 | the scan ends on an index of the scores, or on nothing |
| Selection.PickIsFirstMaximum | NGramSpellChecker.cs:54-74 | the scan picks nothing exactly when no score exceeds the floor, and otherwise picks the first strict maximum |
| Selection.PickFindsFirstMaximum | NGramSpellChecker.cs:54-74 | the first strict maximum above the floor is what the scan picks |
| Selection.PickStep | NGramSpellChecker.cs:68-73 | one more candidate is one more step of the scan, where a tie does not replace the best |
| NGramSpellChecker.CheckAnalysisAndSetRoot | SpellChecker/NGramSpellChecker.cs:35-52 | absent past the end or for a word without a parse; otherwise the longest root, or the word itself when scoring is over surface forms |
| NGramSpellChecker.ScoresAreBestNeighbour | SpellChecker/NGramSpellChecker.cs:94-122 | one score per candidate, the maximum of its two neighbour scores: at least the bigram after the previous root and at least the bigram before the next root when those roots exist, at least 0 when one is missing, and equal to one of these; 0 when both are missing |
| NGramSpellChecker.Scan | SpellChecker/NGramSpellChecker.cs:75-144 | the first n words give n output words, and a previous root once at least one word has been read |
| NGramSpellChecker.SelectedIsFirstBest | SpellChecker/NGramSpellChecker.cs:89-131 | a misspelled word is kept when no candidate beats the threshold, and otherwise becomes the first candidate of strictly greatest score, with its root |
| NGramSpellChecker.ScanExtends | SpellChecker/NGramSpellChecker.cs:83-141 | reading one more word keeps the output so far |
| NGramSpellChecker.ScanPrefix | SpellChecker/NGramSpellChecker.cs:83-141 | later words never change the output for earlier ones |
| NGramSpellChecker.OutputWord | SpellChecker/NGramSpellChecker.cs:83-141 | each output word is the input word or one of its edit candidates, and a word that parses is copied |
| NGramSpellChecker.CorrectSentenceUnchanged | SpellChecker/NGramSpellChecker.cs:75-144 | a sentence of words that all parse comes back unchanged |
| NGramSpellChecker.NothingBeatsHighThreshold | SpellChecker/NGramSpellChecker.cs:91-127 | with no bigram above a non-negative threshold, a misspelled word is kept |
| NGramSpellChecker.HighThresholdKeepsSentence | SpellChecker/NGramSpellChecker.cs:75-144 | with no bigram above a non-negative threshold, the whole sentence comes back unchanged |
| NGramSpellChecker.NGramSpellChecker.constructor | SpellChecker/NGramSpellChecker.cs:12-26 | a new checker holds the given analyser, model and root flag, with threshold 0 |
| NGramSpellChecker.NGramSpellChecker.SetThreshold | SpellChecker/NGramSpellChecker.cs:54-57 | only the threshold changes |
| NGramSpellChecker.NGramSpellChecker.BestCandidate | SpellChecker/NGramSpellChecker.cs:88-130 | the candidate loop returns the selected word and root |
| NGramSpellChecker.NGramSpellChecker.SpellCheck | SpellChecker/NGramSpellChecker.cs:75-144 | the sliding window over the current, next and following word gives exactly the output of the scan |
| LeftContextNGramSpellChecker.ScoresByContext | NGramSpellChecker.cs:56-66 | one score per candidate: the bigram of its first root after the previous root when there is one, and otherwise the unigram of its first root |
| LeftContextNGramSpellChecker.Scan | NGramSpellChecker.cs:41-86 | the first n words give n output words, and a previous root once at least one word has been read |
| LeftContextNGramSpellChecker.SelectedIsFirstBest | NGramSpellChecker.cs:51-76 | a misspelled word is kept when no candidate scores above 0, and otherwise becomes the first candidate of strictly greatest score, with its first root |
| LeftContextNGramSpellChecker.ScanOfPrefix | NGramSpellChecker.cs:45-83 | the checker never looks ahead: a prefix of the sentence gives the same output and root |
| LeftContextNGramSpellChecker.ScanExtends | NGramSpellChecker.cs:45-83 | reading one more word keeps the output so far |
| LeftContextNGramSpellChecker.ScanPrefix | NGramSpellChecker.cs:45-83 | later words never change the output for earlier ones |
| LeftContextNGramSpellChecker.OutputWord | NGramSpellChecker.cs:45-83 | each output word is the input word or one of its candidates; a word that parses is copied and passes on its longest root |
| LeftContextNGramSpellChecker.CorrectSentenceUnchanged | NGramSpellChecker.cs:41-86 | a sentence of words that all parse comes back unchanged |
| LeftContextNGramSpellChecker.NothingBeatsZero | NGramSpellChecker.cs:54-74 | when no probability is positive, a misspelled word is kept |
| LeftContextNGramSpellChecker.NoPositiveProbabilityKeepsSentence | NGramSpellChecker.cs:41-86 | when no probability is positive, the whole sentence comes back unchanged |
| LeftContextNGramSpellChecker.BestCandidate | NGramSpellChecker.cs:51-76 | the candidate loop returns the selected word and root |
| LeftContextNGramSpellChecker.SpellCheck | NGramSpellChecker.cs:41-86 | the loop gives exactly the output of the scan |
| ContextBasedSpellChecker.AtMostDeletion | SpellChecker/ContextBasedSpellChecker.cs:160 | the distance is at most one more than with the last character of the first string deleted |
| ContextBasedSpellChecker.AtMostInsertion | SpellChecker/ContextBasedSpellChecker.cs:161 | the distance is at most one more than with the last character of the second string deleted |
| ContextBasedSpellChecker.AtMostReplacement | SpellChecker/ContextBasedSpellChecker.cs:159-161 | the distance is at most that of the two shorter prefixes plus the cost of the last characters |
| ContextBasedSpellChecker.AtMostSwap | SpellChecker/ContextBasedSpellChecker.cs:166-169 | at a transposed pair, the distance is at most that two characters back plus the cost |
| ContextBasedSpellChecker.OsaAtMostEachStep | SpellChecker/ContextBasedSpellChecker.cs:155-171 | every cell is at most each of its candidate steps |
| ContextBasedSpellChecker.OsaTakesAStep | SpellChecker/ContextBasedSpellChecker.cs:155-171 | every inner cell equals one of its candidate steps |
| ContextBasedSpellChecker.OsaIs | SpellChecker/ContextBasedSpellChecker.cs:155-171 | a value at most every step and equal to one of them is the cell's value |
| ContextBasedSpellChecker.LowerBoundStep | SpellChecker/ContextBasedSpellChecker.cs:155-171 | each cell is reached from an earlier cell by a step that changes the difference of the lengths by no more than the cost added |
| ContextBasedSpellChecker.OsaLowerBound | SpellChecker/ContextBasedSpellChecker.cs:147-171 | the distance is at least the difference of the lengths |
| ContextBasedSpellChecker.UpperBoundByDeletion | SpellChecker/ContextBasedSpellChecker.cs:160 | a bound by the longer length carries over a deletion step |
| ContextBasedSpellChecker.UpperBoundByInsertion | SpellChecker/ContextBasedSpellChecker.cs:161 | a bound by the longer length carries over an insertion step |
| ContextBasedSpellChecker.UpperBoundByReplacement | SpellChecker/ContextBasedSpellChecker.cs:159-161 | a bound by the longer length carries over a diagonal step |
| ContextBasedSpellChecker.OsaUpperBound | SpellChecker/ContextBasedSpellChecker.cs:147-171 | the distance is at most the longer length |
| ContextBasedSpellChecker.DistanceBounds | SpellChecker/ContextBasedSpellChecker.cs:133-173 | the distance lies between the difference of the lengths and the longer length |
| ContextBasedSpellChecker.OsaSamePrefix | SpellChecker/ContextBasedSpellChecker.cs:147-171 | a shared prefix has distance 0 to itself |
| ContextBasedSpellChecker.DistanceToItself | SpellChecker/ContextBasedSpellChecker.cs:133-173 | every string has distance 0 to itself |
| ContextBasedSpellChecker.AtMostMatch | SpellChecker/ContextBasedSpellChecker.cs:159-161 | matching last characters cost nothing |
| ContextBasedSpellChecker.OsaCommonRun | SpellChecker/ContextBasedSpellChecker.cs:155-171 | a common run of characters adds nothing to the distance |
| ContextBasedSpellChecker.TailsMeet | SpellChecker/ContextBasedSpellChecker.cs:155-171 | once the remaining tails agree, the distance is no more than it was at that point |
| ContextBasedSpellChecker.SwapWithinOne | SpellChecker/ContextBasedSpellChecker.cs:166-169 | swapping two neighbours costs at most 1 |
| ContextBasedSpellChecker.DeleteWithinOne | SpellChecker/ContextBasedSpellChecker.cs:160 | a deletion costs at most 1 |
| ContextBasedSpellChecker.ReplaceWithinOne | SpellChecker/ContextBasedSpellChecker.cs:159-161 | a replacement costs at most 1 |
| ContextBasedSpellChecker.InsertWithinOne | SpellChecker/ContextBasedSpellChecker.cs:161 | an insertion costs at most 1 |
| ContextBasedSpellChecker.GeneratedWithinOne | SpellChecker/ContextBasedSpellChecker.cs:133-173 | every edit-based candidate is within distance 1 of its word |
| ContextBasedSpellChecker.SwapExample | SpellChecker/ContextBasedSpellChecker.cs:162-169 | two distinct characters in the other order are at distance 1 |
| ContextBasedSpellChecker.RestrictedTransposition | SpellChecker/ContextBasedSpellChecker.cs:162-169 | a swapped pair is never edited again, so "zx" to "xyz" costs 3 although "zx"→"xz"→"xyz" costs 1 + 1 |
| ContextBasedSpellChecker.DamerauLevenshteinDistance | SpellChecker/ContextBasedSpellChecker.cs:133-173 | the table method returns the distance, including the two empty-string cases |
| ContextBasedSpellChecker.FillRow | SpellChecker/ContextBasedSpellChecker.cs:157-170 | one pass of the inner loop fills a row with the distances of its cells and changes no other row |
| ContextBasedSpellChecker.CellValue | SpellChecker/ContextBasedSpellChecker.cs:159-169 | a cell computed from filled neighbours holds the distance of its prefixes |
| ContextBasedSpellChecker.FirstIndex | SpellChecker/ContextBasedSpellChecker.cs:83 | the position of the word's first occurrence: the word is there and nowhere before it |
| ContextBasedSpellChecker.RemoveFirst | SpellChecker/ContextBasedSpellChecker.cs:83 | removes one occurrence of the word when present, one shorter and with that one copy fewer, and nothing otherwise |
| ContextBasedSpellChecker.RemoveFirstKeepsOrder | SpellChecker/ContextBasedSpellChecker.cs:83 | exactly the first occurrence goes and the other words keep their order |
| ContextBasedSpellChecker.PoolMembers | SpellChecker/ContextBasedSpellChecker.cs:84-98 | a string is in the pool exactly when it is listed under the longest root of one of the words |
| ContextBasedSpellChecker.FromOtherWords | SpellChecker/ContextBasedSpellChecker.cs:80-98 | every pooled string comes from another word of the sentence, or from a second occurrence of the misspelled word |
| ContextBasedSpellChecker.AllowedDistance | SpellChecker/ContextBasedSpellChecker.cs:101-116 | the bound is 1 below length 5, 3 from length 7, and 2 in between |
| ContextBasedSpellChecker.GeneratedAccepted | SpellChecker/ContextBasedSpellChecker.cs:117 | a pool word that is also an edit-based candidate always passes the filter |
| ContextBasedSpellChecker.AcceptedLength | SpellChecker/ContextBasedSpellChecker.cs:117 | an accepted candidate differs in length from the word by at most the bound |
| ContextBasedSpellChecker.CandidateList | SpellChecker/ContextBasedSpellChecker.cs:78-123 | the result holds exactly the accepted pool words of the other words, each once, tagged context-based |
| ContextBasedSpellChecker.FilterPool | SpellChecker/ContextBasedSpellChecker.cs:99-121 | exactly the accepted members of the set are kept, each once, tagged context-based |
| ContextBasedSpellChecker.CollectPool | SpellChecker/ContextBasedSpellChecker.cs:84-98 | the nested loops collect exactly the pool |

## Left out

- Loading the dictionaries, the n-gram model and the context table from files is not modelled. Sentence and word objects become `seq<string>` and `string`.
- The morphological analyser, the dictionary's correct forms and the n-gram probabilities are foreign code. They are function-valued parameters. The analyser is seen only through four questions: does the word parse, its longest root, its first root, and its correct form.
- Characters are Unicode scalar values, while the source's strings are UTF-16 code units. For a word with a character above U+FFFF the source counts, indexes and walks surrogate halves. So the model does not capture how the source differs in those cases: its swaps split surrogate pairs, and its candidate counts, allowed distances, distances and trie paths differ from the model's.
- Tries.Trie.GetTrieNode: the node it returns is shared with the trie, and `AddChild` and `SetIsWord` are public. The model assumes that callers never modify the returned nodes. That is why `GetTrieNode`, `Search` and `StartsWith` can require the trie invariant; a tree modified from outside is not modelled.
- Turkish lowering is a parameter `lowerChar` applied character by character. Culture-specific mappings are not modelled.
- The Turkish letter constants are parameters (`Oracles.Alphabet`).
- The random pick in the simple checker is a nondeterministic choice. `SimpleSpellChecker.SpellCheck` therefore promises only that some candidate is chosen, not which one.
- Floating-point probabilities are reals, so rounding is not modelled.
- Tries.TrieNode.AddChild: adding a key that is already present throws in the source. Here it is a precondition, because the only caller adds a child only after `GetChild` returned null.
- Tries.TrieNode.ChildrenToString: the enumeration order of the dictionary is left open, so only the set of keys and the layout are stated.
- ContextBasedSpellChecker.CandidateList: the enumeration order of the hash set is left open. Candidates are identified by their name, so two candidates with the same name count as one. Words are compared by their text when the misspelled word is removed from the sentence.
- ContextBasedSpellChecker.Distance: symmetry of the distance is not proved.
- The base spell checker with its forced rules (merge, split, suffix rules) and the trie-guided search are not part of this model; of the latter, only its candidate record is modelled. SpellChecker.cs and the test files are not part of this model.
- Inheritance between the checkers is not modelled. The n-gram checkers call the simple checker's candidate list directly.
- The getters of `SpellCheckerParameter` and `TrieCandidate` are plain field reads with no rows of their own; the setters' and constructors' contracts are stated through them.
