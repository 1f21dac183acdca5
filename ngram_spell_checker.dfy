/**
 * The n-gram spell checker with a three-word window: a word without a parse
 * is replaced by the edit candidate whose root is most probable next to the
 * roots of its neighbours, provided that probability beats a threshold.
 */
module NGramSpellChecker {

  import opened Wrappers
  import opened Oracles
  import opened Selection
  import SimpleSpellChecker

  /** What a checker is made of: the analyser, the alphabet of the edits, the n-gram model, and its two settings. */
  datatype Config = Config(analyzer: Analyzer, alphabet: Alphabet, nGram: NGramModel, rootNgram: bool, threshold: real)

  /**
   * The root of the word at `index` as the window sees it: nothing past the
   * end of the sentence or for a word without a parse, otherwise the root of
   * its longest-root parse, or the word itself when the model is not over roots.
   */
  function CheckAnalysisAndSetRoot(analyzer: Analyzer, rootNgram: bool, sentence: seq<string>, index: nat): (r: Option<string>)
    ensures r.None? <==> index >= |sentence| || !analyzer.parses(sentence[index])
    ensures r.Some? && rootNgram ==> r.value == analyzer.longestRoot(sentence[index])
    ensures r.Some? && !rootNgram ==> r.value == sentence[index]
  {
    if index < |sentence| && analyzer.parses(sentence[index]) then
      Some(if rootNgram then analyzer.longestRoot(sentence[index]) else sentence[index])
    else None
  }

  function Max(x: real, y: real): real {
    if x >= y then x else y
  }

  /** The root a candidate is scored by. */
  function CandidateRoot(c: Config, candidate: string): string {
    if c.rootNgram then c.analyzer.longestRoot(candidate) else candidate
  }

  /**
   * The score of a candidate root: the better of the probability after the
   * previous root and the probability before the next root, a missing
   * neighbour counting as 0.
   */
  function Score(c: Config, previousRoot: Option<string>, root: string, nextRoot: Option<string>): real {
    var previousProbability := if previousRoot.Some? then c.nGram.bigram(previousRoot.value, root) else 0.0;
    var nextProbability := if nextRoot.Some? then c.nGram.bigram(root, nextRoot.value) else 0.0;
    Max(previousProbability, nextProbability)
  }

  function Scores(c: Config, previousRoot: Option<string>, candidates: seq<string>, nextRoot: Option<string>): (r: seq<real>)
    ensures |r| == |candidates|
    ensures forall k :: 0 <= k < |candidates| ==> r[k] == Score(c, previousRoot, CandidateRoot(c, candidates[k]), nextRoot)
  {
    seq(|candidates|, k requires 0 <= k < |candidates| => Score(c, previousRoot, CandidateRoot(c, candidates[k]), nextRoot))
  }

  /**
   * A candidate's score is the larger of its two neighbour scores: at least
   * the bigram after the previous root and the bigram before the next root
   * when those are present, at least 0 when one is missing, and equal to
   * one of these; with no neighbour at all it is 0.
   */
  lemma ScoresAreBestNeighbour(c: Config, previousRoot: Option<string>, candidates: seq<string>, nextRoot: Option<string>)
    ensures var r := Scores(c, previousRoot, candidates, nextRoot);
            forall k :: 0 <= k < |r| ==>
              && (previousRoot.Some? ==> r[k] >= c.nGram.bigram(previousRoot.value, CandidateRoot(c, candidates[k])))
              && (nextRoot.Some? ==> r[k] >= c.nGram.bigram(CandidateRoot(c, candidates[k]), nextRoot.value))
              && (previousRoot.None? || nextRoot.None? ==> r[k] >= 0.0)
    ensures var r := Scores(c, previousRoot, candidates, nextRoot);
            forall k :: 0 <= k < |r| ==>
              || (previousRoot.Some? && r[k] == c.nGram.bigram(previousRoot.value, CandidateRoot(c, candidates[k])))
              || (nextRoot.Some? && r[k] == c.nGram.bigram(CandidateRoot(c, candidates[k]), nextRoot.value))
              || ((previousRoot.None? || nextRoot.None?) && r[k] == 0.0)
    ensures var r := Scores(c, previousRoot, candidates, nextRoot);
            previousRoot.None? && nextRoot.None? ==> forall k :: 0 <= k < |r| ==> r[k] == 0.0
  {
  }

  /**
   * The word and root chosen for a misspelled `word`: the first candidate of
   * strictly greatest score above the threshold, else the word itself as both.
   */
  function Selected(c: Config, word: string, candidates: seq<string>, previousRoot: Option<string>, nextRoot: Option<string>): (string, string) {
    var picked := Pick(Scores(c, previousRoot, candidates, nextRoot), c.threshold);
    if picked.Some? then (candidates[picked.value], CandidateRoot(c, candidates[picked.value])) else (word, word)
  }

  /**
   * The first `n` output words and the previous root after them. A word whose
   * window root is present is copied; otherwise its candidates are scored in
   * the window of the previous root and the next word's root.
   */
  function Scan(c: Config, sentence: seq<string>, n: nat): (r: (seq<string>, Option<string>))
    requires n <= |sentence|
    ensures |r.0| == n
    ensures r.1.None? <==> n == 0
  {
    if n == 0 then ([], None)
    else
      var (out, previousRoot) := Scan(c, sentence, n - 1);
      var root := CheckAnalysisAndSetRoot(c.analyzer, c.rootNgram, sentence, n - 1);
      if root.Some? then (out + [sentence[n - 1]], root)
      else
        var candidates := SimpleSpellChecker.Candidates(c.analyzer, c.alphabet, sentence[n - 1]);
        var nextRoot := CheckAnalysisAndSetRoot(c.analyzer, c.rootNgram, sentence, n);
        var (bestCandidate, bestRoot) := Selected(c, sentence[n - 1], candidates, previousRoot, nextRoot);
        (out + [bestCandidate], Some(bestRoot))
  }

  /** The corrected sentence. */
  function Output(c: Config, sentence: seq<string>): seq<string> {
    Scan(c, sentence, |sentence|).0
  }

  /**
   * The choice for a misspelled word: the word itself as both output and
   * root when no candidate scores above the threshold, and otherwise the
   * first candidate of strictly greatest score with its root.
   */
  lemma SelectedIsFirstBest(c: Config, word: string, candidates: seq<string>, previousRoot: Option<string>, nextRoot: Option<string>)
    ensures var scores := Scores(c, previousRoot, candidates, nextRoot);
            (forall k :: 0 <= k < |candidates| ==> scores[k] <= c.threshold) ==>
              Selected(c, word, candidates, previousRoot, nextRoot) == (word, word)
    ensures var scores := Scores(c, previousRoot, candidates, nextRoot);
            forall k: nat :: FirstStrictMaximum(scores, c.threshold, k) ==>
              Selected(c, word, candidates, previousRoot, nextRoot) == (candidates[k], CandidateRoot(c, candidates[k]))
  {
    var scores := Scores(c, previousRoot, candidates, nextRoot);
    PickIsFirstMaximum(scores, c.threshold);
    forall k: nat | FirstStrictMaximum(scores, c.threshold, k)
      ensures Selected(c, word, candidates, previousRoot, nextRoot) == (candidates[k], CandidateRoot(c, candidates[k]))
    {
      PickFindsFirstMaximum(scores, c.threshold, k);
    }
  }

  /** One more word extends the output by one word and keeps what was there. */
  lemma ScanExtends(c: Config, sentence: seq<string>, n: nat)
    requires 0 < n <= |sentence|
    ensures Scan(c, sentence, n).0[..n - 1] == Scan(c, sentence, n - 1).0
  {
  }

  /** Later words never change the output for earlier ones. */
  lemma {:induction false} ScanPrefix(c: Config, sentence: seq<string>, m: nat, n: nat)
    requires m <= n <= |sentence|
    ensures Scan(c, sentence, m).0 == Scan(c, sentence, n).0[..m]
    decreases n
  {
    var out := Scan(c, sentence, n).0;
    if m < n {
      ScanPrefix(c, sentence, m, n - 1);
      ScanExtends(c, sentence, n);
      assert out[..n - 1][..m] == out[..m];
    } else {
      assert out[..m] == out;
    }
  }

  /**
   * Every output word is the input word at its position or one of its edit
   * candidates, and a word that parses is copied unchanged.
   */
  lemma OutputWord(c: Config, sentence: seq<string>, k: nat)
    requires k < |sentence|
    ensures var out := Output(c, sentence);
            out[k] == sentence[k] || out[k] in SimpleSpellChecker.Candidates(c.analyzer, c.alphabet, sentence[k])
    ensures c.analyzer.parses(sentence[k]) ==> Output(c, sentence)[k] == sentence[k]
  {
    ScanPrefix(c, sentence, k + 1, |sentence|);
    assert Output(c, sentence)[k] == Scan(c, sentence, k + 1).0[k];
  }

  /** A sentence whose every word parses comes back unchanged. */
  lemma CorrectSentenceUnchanged(c: Config, sentence: seq<string>)
    requires forall k :: 0 <= k < |sentence| ==> c.analyzer.parses(sentence[k])
    ensures Output(c, sentence) == sentence
  {
    forall k | 0 <= k < |sentence|
      ensures Output(c, sentence)[k] == sentence[k]
    {
      OutputWord(c, sentence, k);
    }
  }

  /** With a non-negative threshold that no bigram probability exceeds, a misspelled word is kept. */
  lemma NothingBeatsHighThreshold(c: Config, word: string, candidates: seq<string>, previousRoot: Option<string>, nextRoot: Option<string>)
    requires 0.0 <= c.threshold
    requires forall x, y :: c.nGram.bigram(x, y) <= c.threshold
    ensures Selected(c, word, candidates, previousRoot, nextRoot) == (word, word)
  {
    var scores := Scores(c, previousRoot, candidates, nextRoot);
    assert forall k :: 0 <= k < |candidates| ==> scores[k] <= c.threshold;
    PickIsFirstMaximum(scores, c.threshold);
  }

  /**
   * With a non-negative threshold that no bigram probability exceeds, no
   * candidate ever wins and the sentence comes back unchanged.
   */
  lemma {:induction false} HighThresholdKeepsSentence(c: Config, sentence: seq<string>, n: nat)
    requires n <= |sentence|
    requires 0.0 <= c.threshold
    requires forall x, y :: c.nGram.bigram(x, y) <= c.threshold
    ensures Scan(c, sentence, n).0 == sentence[..n]
  {
    if n > 0 {
      assert sentence[..n] == sentence[..n - 1] + [sentence[n - 1]];
      HighThresholdKeepsSentence(c, sentence, n - 1);
      var previousRoot := Scan(c, sentence, n - 1).1;
      var candidates := SimpleSpellChecker.Candidates(c.analyzer, c.alphabet, sentence[n - 1]);
      var nextRoot := CheckAnalysisAndSetRoot(c.analyzer, c.rootNgram, sentence, n);
      NothingBeatsHighThreshold(c, sentence[n - 1], candidates, previousRoot, nextRoot);
    }
  }

  class NGramSpellChecker {
    const analyzer: Analyzer
    const alphabet: Alphabet
    const nGram: NGramModel
    const rootNgram: bool
    var threshold: real

    function Settings(): Config
      reads this
    {
      Config(analyzer, alphabet, nGram, rootNgram, threshold)
    }

    /** A checker over the given analyser and n-gram model, with threshold 0. */
    constructor(analyzer: Analyzer, alphabet: Alphabet, nGram: NGramModel, rootNgram: bool)
      ensures Settings() == Config(analyzer, alphabet, nGram, rootNgram, 0.0)
    {
      this.analyzer := analyzer;
      this.alphabet := alphabet;
      this.nGram := nGram;
      this.rootNgram := rootNgram;
      this.threshold := 0.0;
    }

    /** Any threshold is accepted, and nothing else changes. */
    method SetThreshold(threshold: real)
      modifies this
      ensures Settings() == old(Settings()).(threshold := threshold)
    {
      this.threshold := threshold;
    }

    /** The scan over the candidates of one misspelled word. */
    method BestCandidate(word: string, candidates: seq<string>, previousRoot: Option<string>, nextRoot: Option<string>)
      returns (bestCandidate: string, bestRoot: string)
      ensures (bestCandidate, bestRoot) == Selected(Settings(), word, candidates, previousRoot, nextRoot)
    {
      ghost var scores := Scores(Settings(), previousRoot, candidates, nextRoot);
      bestCandidate := word;
      bestRoot := word;
      var bestProbability := threshold;
      for k := 0 to |candidates|
        invariant var picked := Pick(scores[..k], threshold);
                  bestProbability == BestScore(scores[..k], threshold, picked) &&
                  if picked.Some? then bestCandidate == candidates[picked.value] && bestRoot == CandidateRoot(Settings(), bestCandidate)
                  else bestCandidate == word && bestRoot == word
      {
        var candidate := candidates[k];
        var root := if rootNgram then analyzer.longestRoot(candidate) else candidate;
        var previousProbability := if previousRoot.Some? then nGram.bigram(previousRoot.value, root) else 0.0;
        var nextProbability := if nextRoot.Some? then nGram.bigram(root, nextRoot.value) else 0.0;
        PickStep(scores, threshold, k);
        assert scores[..k + 1][k] == scores[k];
        assert forall m :: 0 <= m < k ==> scores[..k + 1][m] == scores[..k][m];
        if Max(previousProbability, nextProbability) > bestProbability {
          bestCandidate := candidate;
          bestRoot := root;
          bestProbability := Max(previousProbability, nextProbability);
        }
      }
      assert scores[..|candidates|] == scores;
    }

    /** Corrects the sentence in one pass, moving the previous/current/next root window along it. */
    method SpellCheck(sentence: seq<string>) returns (result: seq<string>)
      ensures result == Output(Settings(), sentence)
    {
      var previousRoot: Option<string> := None;
      var root := CheckAnalysisAndSetRoot(analyzer, rootNgram, sentence, 0);
      var nextRoot := CheckAnalysisAndSetRoot(analyzer, rootNgram, sentence, 1);
      result := [];
      for i := 0 to |sentence|
        invariant (result, previousRoot) == Scan(Settings(), sentence, i)
        invariant root == CheckAnalysisAndSetRoot(analyzer, rootNgram, sentence, i)
        invariant nextRoot == CheckAnalysisAndSetRoot(analyzer, rootNgram, sentence, i + 1)
      {
        var word := sentence[i];
        if root.None? {
          var candidates := SimpleSpellChecker.CandidateList(word, analyzer, alphabet);
          var bestCandidate, bestRoot := BestCandidate(word, candidates, previousRoot, nextRoot);
          root := Some(bestRoot);
          result := result + [bestCandidate];
        } else {
          result := result + [word];
        }
        previousRoot := root;
        root := nextRoot;
        nextRoot := CheckAnalysisAndSetRoot(analyzer, rootNgram, sentence, i + 2);
      }
    }
  }
}
