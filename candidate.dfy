/** A candidate: a word together with the operator that produced it. */
module Candidates {

  import opened Operators

  /**
   * A candidate word and its operator; both are fixed when it is built and
   * any string and any operator are accepted.
   */
  datatype Candidate = Candidate(name: string, op: Operator) {

    /** The operator the candidate was built with. */
    function GetOperator(): (r: Operator)
      ensures r == op
    {
      op
    }
  }

  /** Building a candidate and reading it back gives the name and operator it was built from. */
  lemma BuildThenRead(s: string, op: Operator)
    ensures Candidate(s, op).GetOperator() == op && Candidate(s, op).name == s
  {
  }
}
