/**
 * The earlier n-gram spell checker, which looks only to the left: a word
 * without a parse is replaced by the edit candidate whose root is most
 * probable after the previous root, or most probable on its own at the
 * start of the sentence.
 */
module LeftContextNGramSpellChecker {

  import opened Wrappers
  import opened Oracles
  import opened Selection
  import SimpleSpellChecker

  /**
   * The score of a candidate: the bigram probability of its first-parse
   * root after the previous root, or its unigram probability when there is
   * no previous root.
   */
  function Score(analyzer: Analyzer, nGram: NGramModel, previousRoot: Option<string>, candidate: string): real {
    var root := analyzer.firstRoot(candidate);
    if previousRoot.Some? then nGram.bigram(previousRoot.value, root) else nGram.unigram(root)
  }

  function Scores(analyzer: Analyzer, nGram: NGramModel, previousRoot: Option<string>, candidates: seq<string>): (r: seq<real>)
    ensures |r| == |candidates|
    ensures forall k :: 0 <= k < |candidates| ==> r[k] == Score(analyzer, nGram, previousRoot, candidates[k])
  {
    seq(|candidates|, k requires 0 <= k < |candidates| => Score(analyzer, nGram, previousRoot, candidates[k]))
  }

  /**
   * A candidate's score is the bigram of its first root after the previous
   * root when there is one, and the unigram of its first root otherwise.
   */
  lemma ScoresByContext(analyzer: Analyzer, nGram: NGramModel, previousRoot: Option<string>, candidates: seq<string>)
    ensures var r := Scores(analyzer, nGram, previousRoot, candidates);
            previousRoot.Some? ==>
              forall k :: 0 <= k < |r| ==> r[k] == nGram.bigram(previousRoot.value, analyzer.firstRoot(candidates[k]))
    ensures var r := Scores(analyzer, nGram, previousRoot, candidates);
            previousRoot.None? ==> forall k :: 0 <= k < |r| ==> r[k] == nGram.unigram(analyzer.firstRoot(candidates[k]))
  {
  }

  /**
   * The word and root chosen for a misspelled `word`: the first candidate of
   * strictly greatest score above 0 with its first-parse root, else the
   * word itself as both.
   */
  function Selected(analyzer: Analyzer, nGram: NGramModel, word: string, candidates: seq<string>, previousRoot: Option<string>): (string, string) {
    var picked := Pick(Scores(analyzer, nGram, previousRoot, candidates), 0.0);
    if picked.Some? then (candidates[picked.value], analyzer.firstRoot(candidates[picked.value])) else (word, word)
  }

  /**
   * The first `n` output words and the previous root after them. A word that
   * parses is copied and passes on its longest root; a word that does not is
   * replaced by its selected candidate, which passes on its root.
   */
  function Scan(analyzer: Analyzer, alphabet: Alphabet, nGram: NGramModel, sentence: seq<string>, n: nat): (r: (seq<string>, Option<string>))
    requires n <= |sentence|
    ensures |r.0| == n
    ensures r.1.None? <==> n == 0
  {
    if n == 0 then ([], None)
    else
      var (out, previousRoot) := Scan(analyzer, alphabet, nGram, sentence, n - 1);
      var word := sentence[n - 1];
      if analyzer.parses(word) then (out + [word], Some(analyzer.longestRoot(word)))
      else
        var candidates := SimpleSpellChecker.Candidates(analyzer, alphabet, word);
        var (bestCandidate, bestRoot) := Selected(analyzer, nGram, word, candidates, previousRoot);
        (out + [bestCandidate], Some(bestRoot))
  }

  /** The corrected sentence. */
  function Output(analyzer: Analyzer, alphabet: Alphabet, nGram: NGramModel, sentence: seq<string>): seq<string> {
    Scan(analyzer, alphabet, nGram, sentence, |sentence|).0
  }

  /**
   * The choice for a misspelled word: the word itself as both output and
   * root when no candidate scores above 0, and otherwise the first candidate
   * of strictly greatest score with its root.
   */
  lemma SelectedIsFirstBest(analyzer: Analyzer, nGram: NGramModel, word: string, candidates: seq<string>, previousRoot: Option<string>)
    ensures var scores := Scores(analyzer, nGram, previousRoot, candidates);
            (forall k :: 0 <= k < |candidates| ==> scores[k] <= 0.0) ==>
              Selected(analyzer, nGram, word, candidates, previousRoot) == (word, word)
    ensures var scores := Scores(analyzer, nGram, previousRoot, candidates);
            forall k: nat :: FirstStrictMaximum(scores, 0.0, k) ==>
              Selected(analyzer, nGram, word, candidates, previousRoot) == (candidates[k], analyzer.firstRoot(candidates[k]))
  {
    var scores := Scores(analyzer, nGram, previousRoot, candidates);
    PickIsFirstMaximum(scores, 0.0);
    forall k: nat | FirstStrictMaximum(scores, 0.0, k)
      ensures Selected(analyzer, nGram, word, candidates, previousRoot) == (candidates[k], analyzer.firstRoot(candidates[k]))
    {
      PickFindsFirstMaximum(scores, 0.0, k);
    }
  }

  /**
   * The checker never looks ahead: the output for a sentence starts with the
   * output for any of its prefixes, and so does the root passed along.
   */
  lemma {:induction false} ScanOfPrefix(analyzer: Analyzer, alphabet: Alphabet, nGram: NGramModel, sentence: seq<string>, n: nat)
    requires n <= |sentence|
    ensures Scan(analyzer, alphabet, nGram, sentence[..n], n) == Scan(analyzer, alphabet, nGram, sentence, n)
    decreases n
  {
    if n > 0 {
      ScanOfPrefix(analyzer, alphabet, nGram, sentence, n - 1);
      assert sentence[..n][..n - 1] == sentence[..n - 1];
      ScanOfPrefix(analyzer, alphabet, nGram, sentence[..n], n - 1);
    }
  }

  /** One more word extends the output by one word and keeps what was there. */
  lemma ScanExtends(analyzer: Analyzer, alphabet: Alphabet, nGram: NGramModel, sentence: seq<string>, n: nat)
    requires 0 < n <= |sentence|
    ensures Scan(analyzer, alphabet, nGram, sentence, n).0[..n - 1] == Scan(analyzer, alphabet, nGram, sentence, n - 1).0
  {
  }

  /** Later words never change the output for earlier ones. */
  lemma {:induction false} ScanPrefix(analyzer: Analyzer, alphabet: Alphabet, nGram: NGramModel, sentence: seq<string>, m: nat, n: nat)
    requires m <= n <= |sentence|
    ensures Scan(analyzer, alphabet, nGram, sentence, m).0 == Scan(analyzer, alphabet, nGram, sentence, n).0[..m]
    decreases n
  {
    var out := Scan(analyzer, alphabet, nGram, sentence, n).0;
    if m < n {
      ScanPrefix(analyzer, alphabet, nGram, sentence, m, n - 1);
      ScanExtends(analyzer, alphabet, nGram, sentence, n);
      assert out[..n - 1][..m] == out[..m];
    } else {
      assert out[..m] == out;
    }
  }

  /**
   * Every output word is the input word at its position or one of its edit
   * candidates; a word that parses is copied, and the root passed on after
   * it is its longest root.
   */
  lemma OutputWord(analyzer: Analyzer, alphabet: Alphabet, nGram: NGramModel, sentence: seq<string>, k: nat)
    requires k < |sentence|
    ensures var out := Output(analyzer, alphabet, nGram, sentence);
            out[k] == sentence[k] || out[k] in SimpleSpellChecker.Candidates(analyzer, alphabet, sentence[k])
    ensures analyzer.parses(sentence[k]) ==>
              Output(analyzer, alphabet, nGram, sentence)[k] == sentence[k] &&
              Scan(analyzer, alphabet, nGram, sentence, k + 1).1 == Some(analyzer.longestRoot(sentence[k]))
  {
    ScanPrefix(analyzer, alphabet, nGram, sentence, k + 1, |sentence|);
    assert Output(analyzer, alphabet, nGram, sentence)[k] == Scan(analyzer, alphabet, nGram, sentence, k + 1).0[k];
  }

  /** A sentence whose every word parses comes back unchanged. */
  lemma CorrectSentenceUnchanged(analyzer: Analyzer, alphabet: Alphabet, nGram: NGramModel, sentence: seq<string>)
    requires forall k :: 0 <= k < |sentence| ==> analyzer.parses(sentence[k])
    ensures Output(analyzer, alphabet, nGram, sentence) == sentence
  {
    forall k | 0 <= k < |sentence|
      ensures Output(analyzer, alphabet, nGram, sentence)[k] == sentence[k]
    {
      OutputWord(analyzer, alphabet, nGram, sentence, k);
    }
  }

  /** When no probability is positive, a misspelled word is kept. */
  lemma NothingBeatsZero(analyzer: Analyzer, nGram: NGramModel, word: string, candidates: seq<string>, previousRoot: Option<string>)
    requires forall x :: nGram.unigram(x) <= 0.0
    requires forall x, y :: nGram.bigram(x, y) <= 0.0
    ensures Selected(analyzer, nGram, word, candidates, previousRoot) == (word, word)
  {
    var scores := Scores(analyzer, nGram, previousRoot, candidates);
    assert forall k :: 0 <= k < |candidates| ==> scores[k] <= 0.0;
    PickIsFirstMaximum(scores, 0.0);
  }

  /** When no probability is positive, no candidate ever wins and the sentence comes back unchanged. */
  lemma {:induction false} NoPositiveProbabilityKeepsSentence(analyzer: Analyzer, alphabet: Alphabet, nGram: NGramModel, sentence: seq<string>, n: nat)
    requires n <= |sentence|
    requires forall x :: nGram.unigram(x) <= 0.0
    requires forall x, y :: nGram.bigram(x, y) <= 0.0
    ensures Scan(analyzer, alphabet, nGram, sentence, n).0 == sentence[..n]
  {
    if n > 0 {
      assert sentence[..n] == sentence[..n - 1] + [sentence[n - 1]];
      NoPositiveProbabilityKeepsSentence(analyzer, alphabet, nGram, sentence, n - 1);
      var previousRoot := Scan(analyzer, alphabet, nGram, sentence, n - 1).1;
      var candidates := SimpleSpellChecker.Candidates(analyzer, alphabet, sentence[n - 1]);
      NothingBeatsZero(analyzer, nGram, sentence[n - 1], candidates, previousRoot);
    }
  }

  /** The scan over the candidates of one misspelled word. */
  method BestCandidate(word: string, candidates: seq<string>, previousRoot: Option<string>, analyzer: Analyzer, nGram: NGramModel)
    returns (bestCandidate: string, bestRoot: string)
    ensures (bestCandidate, bestRoot) == Selected(analyzer, nGram, word, candidates, previousRoot)
  {
    ghost var scores := Scores(analyzer, nGram, previousRoot, candidates);
    bestCandidate := word;
    bestRoot := word;
    var bestProbability := 0.0;
    for k := 0 to |candidates|
      invariant var picked := Pick(scores[..k], 0.0);
                bestProbability == BestScore(scores[..k], 0.0, picked) &&
                if picked.Some? then bestCandidate == candidates[picked.value] && bestRoot == analyzer.firstRoot(bestCandidate)
                else bestCandidate == word && bestRoot == word
    {
      var candidate := candidates[k];
      var root := analyzer.firstRoot(candidate);
      var probability;
      if previousRoot.Some? {
        probability := nGram.bigram(previousRoot.value, root);
      } else {
        probability := nGram.unigram(root);
      }
      PickStep(scores, 0.0, k);
      assert scores[..k + 1][k] == scores[k];
      assert forall m :: 0 <= m < k ==> scores[..k + 1][m] == scores[..k][m];
      if probability > bestProbability {
        bestCandidate := candidate;
        bestRoot := root;
        bestProbability := probability;
      }
    }
    assert scores[..|candidates|] == scores;
  }

  /** Corrects the sentence in one pass, carrying the root of the previous word. */
  method SpellCheck(sentence: seq<string>, analyzer: Analyzer, alphabet: Alphabet, nGram: NGramModel) returns (result: seq<string>)
    ensures result == Output(analyzer, alphabet, nGram, sentence)
  {
    var previousRoot: Option<string> := None;
    result := [];
    for i := 0 to |sentence|
      invariant (result, previousRoot) == Scan(analyzer, alphabet, nGram, sentence, i)
    {
      var word := sentence[i];
      if !analyzer.parses(word) {
        var candidates := SimpleSpellChecker.CandidateList(word, analyzer, alphabet);
        var bestCandidate, bestRoot := BestCandidate(word, candidates, previousRoot, analyzer, nGram);
        previousRoot := Some(bestRoot);
        result := result + [bestCandidate];
      } else {
        result := result + [word];
        previousRoot := Some(analyzer.longestRoot(word));
      }
    }
  }
}
