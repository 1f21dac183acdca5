/**
 * The collaborators the spell checkers consult but do not define: the
 * morphological analyser with its dictionary, the n-gram model, and the
 * letters of the Turkish alphabet. Each is a value of function type, so the
 * model holds for every analyser, every n-gram table and every alphabet.
 */
module Oracles {

  import opened Wrappers

  /**
   * The morphological analyser, seen through the questions the spell
   * checkers ask of it.
   */
  datatype Analyzer = Analyzer(
    /** The analysis of the surface form has at least one parse. */
    parses: string -> bool,
    /** The root of the parse with the longest root (asked only of forms that parse). */
    longestRoot: string -> string,
    /** The root of the first parse (asked only of forms that parse). */
    firstRoot: string -> string,
    /** The dictionary's correct form for a known misspelling, if it has one. */
    correctForm: string -> Option<string>)

  /** The probabilities of the n-gram model. */
  datatype NGramModel = NGramModel(
    /** The probability of one word. */
    unigram: string -> real,
    /** The probability of a word given the one before it. */
    bigram: (string, string) -> real)

  /**
   * The alphabet of the edit-based generator: the characters that may be
   * deleted, replaced or preceded by an insertion, and the lowercase
   * letters that are substituted and inserted, in their order.
   */
  datatype Alphabet = Alphabet(letters: set<char>, lowercase: seq<char>)

  /** Edits are made only at a letter of the alphabet or at one of q, w, x. */
  predicate Eligible(alphabet: Alphabet, c: char) {
    c in alphabet.letters || c in "qwx"
  }
}
