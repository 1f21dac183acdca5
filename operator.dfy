/**
 * The closed set of ways in which a candidate replaces a word, and the
 * single-character edits that the spell-check operator stands for.
 */
module Operators {

  /** The eight operator tags, in the order of their declaration. */
  datatype Operator =
    | NoChange           // the word is left as it is
    | MisspelledReplace  // the word becomes its entry in the misspellings list
    | SpellCheck         // one character deleted, added or replaced, or two neighbours swapped
    | Split              // the word is split into several words
    | ForwardMerge       // the word and the one after it become one word
    | BackwardMerge      // the word and the one before it become one word
    | ContextBased       // the word is chosen from the context of the sentence
    | TrieBased          // the word is chosen by the trie-guided search

  /** The integer value of a tag, as the enumeration numbers them from 0. */
  function Ordinal(op: Operator): (k: nat)
    ensures k < 8
  {
    match op
    case NoChange => 0
    case MisspelledReplace => 1
    case SpellCheck => 2
    case Split => 3
    case ForwardMerge => 4
    case BackwardMerge => 5
    case ContextBased => 6
    case TrieBased => 7
  }

  /** The tag whose integer value is `k`. */
  function FromOrdinal(k: nat): (op: Operator)
    requires k < 8
    ensures Ordinal(op) == k
  {
    if k == 0 then NoChange
    else if k == 1 then MisspelledReplace
    else if k == 2 then SpellCheck
    else if k == 3 then Split
    else if k == 4 then ForwardMerge
    else if k == 5 then BackwardMerge
    else if k == 6 then ContextBased
    else TrieBased
  }

  /** The tag set is closed and has exactly eight members: `Ordinal` is a bijection onto 0..7. */
  lemma ExactlyEight(op: Operator, op': Operator)
    ensures FromOrdinal(Ordinal(op)) == op
    ensures Ordinal(op) == Ordinal(op') ==> op == op'
  {
  }

  /** `w` with the characters at `i` and `i + 1` exchanged. */
  function Swap(w: string, i: nat): (r: string)
    requires i + 1 < |w|
    ensures |r| == |w|
  {
    w[..i] + [w[i + 1]] + [w[i]] + w[i + 2..]
  }

  /** `w` without its character at `i`. */
  function Delete(w: string, i: nat): (r: string)
    requires i < |w|
    ensures |r| == |w| - 1
  {
    w[..i] + w[i + 1..]
  }

  /** `w` with its character at `i` replaced by `t`. */
  function Replace(w: string, i: nat, t: char): (r: string)
    requires i < |w|
    ensures |r| == |w|
  {
    w[..i] + [t] + w[i + 1..]
  }

  /** `w` with `t` added just before position `i` (at the end when `i == |w|`). */
  function InsertAt(w: string, i: nat, t: char): (r: string)
    requires i <= |w|
    ensures |r| == |w| + 1
  {
    w[..i] + [t] + w[i..]
  }

  /**
   * `c` is obtained from `w` by deleting, adding or replacing one character,
   * or by swapping two consecutive characters.
   */
  ghost predicate IsSingleEdit(w: string, c: string) {
    || (exists i :: 0 <= i && i + 1 < |w| && c == Swap(w, i))
    || (exists i :: 0 <= i < |w| && c == Delete(w, i))
    || (exists i, t :: 0 <= i < |w| && c == Replace(w, i, t))
    || (exists i, t :: 0 <= i <= |w| && c == InsertAt(w, i, t))
  }
}
