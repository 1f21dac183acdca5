/**
 * A candidate of the trie-guided search: a word, always tagged with the
 * trie-based operator, and the cursor and penalty of its search branch.
 */
module TrieCandidates {

  import opened Operators
  import opened Candidates

  /** The range of a 32-bit signed integer. */
  newtype Int32 = x: int | -0x8000_0000 <= x < 0x8000_0000

  const MaxInt32: Int32 := 0x7fff_ffff
  const MinInt32: Int32 := -0x8000_0000

  class TrieCandidate {
    const name: string
    const op: Operator
    var currentIndex: Int32
    var currentPenalty: real

    constructor (word: string, index: Int32, penalty: real)
      ensures name == word && op == TrieBased
      ensures GetCurrentIndex() == index && GetCurrentPenalty() == penalty
    {
      name := word;
      op := TrieBased;
      currentIndex := index;
      currentPenalty := penalty;
    }

    /** The candidate seen as a plain candidate. */
    function AsCandidate(): (c: Candidate)
      ensures c.name == name && c.GetOperator() == op
    {
      Candidate(name, op)
    }

    function GetCurrentIndex(): Int32
      reads this
    {
      currentIndex
    }

    function GetCurrentPenalty(): real
      reads this
    {
      currentPenalty
    }

    /**
     * Advances the cursor by one. The increment is unchecked, so the largest
     * 32-bit value wraps around to the smallest.
     */
    method NextIndex()
      modifies this
      ensures old(GetCurrentIndex()) < MaxInt32 ==> GetCurrentIndex() == old(GetCurrentIndex()) + 1
      ensures old(GetCurrentIndex()) == MaxInt32 ==> GetCurrentIndex() == MinInt32
      ensures GetCurrentPenalty() == old(GetCurrentPenalty())
    {
      currentIndex := if currentIndex == MaxInt32 then MinInt32 else currentIndex + 1;
    }
  }

  /**
   * A worked client scenario rather than an operation: a fresh candidate
   * keeps its operator and penalty through any number of cursor steps.
   */
  method AdvanceFresh(word: string, index: Int32, penalty: real, steps: nat)
    returns (c: TrieCandidate)
    requires index as int + steps < 0x8000_0000
    ensures c.GetCurrentIndex() as int == index as int + steps
    ensures c.GetCurrentPenalty() == penalty
    ensures c.AsCandidate() == Candidate(word, TrieBased)
  {
    c := new TrieCandidate(word, index, penalty);
    var n := 0;
    while n < steps
      invariant 0 <= n <= steps
      invariant c.GetCurrentIndex() as int == index as int + n
      invariant c.GetCurrentPenalty() == penalty
    {
      c.NextIndex();
      n := n + 1;
    }
  }
}
