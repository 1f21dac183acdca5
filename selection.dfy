/**
 * The arg-max scan shared by both n-gram spell checkers: candidates are
 * visited in order, and one replaces the current best only when its score is
 * strictly greater than the best score so far, which starts at a floor.
 */
module Selection {

  import opened Wrappers

  /** The best score so far: the floor when nothing has won yet. */
  function BestScore(scores: seq<real>, floor: real, picked: Option<nat>): real
    requires picked.Some? ==> picked.value < |scores|
  {
    if picked.Some? then scores[picked.value] else floor
  }

  /**
   * The index the scan ends on after visiting `scores` from left to right,
   * or None when no score rises strictly above `floor`.
   */
  function Pick(scores: seq<real>, floor: real): (r: Option<nat>)
    ensures r.Some? ==> r.value < |scores|
  {
    if scores == [] then None
    else
      var prior := Pick(scores[..|scores| - 1], floor);
      if scores[|scores| - 1] > BestScore(scores[..|scores| - 1], floor, prior) then Some(|scores| - 1)
      else prior
  }

  /** `k` is the first strict maximum of `scores`, and that maximum is above `floor`. */
  ghost predicate FirstStrictMaximum(scores: seq<real>, floor: real, k: nat) {
    k < |scores| &&
    scores[k] > floor &&
    (forall m :: 0 <= m < k ==> scores[m] < scores[k]) &&
    (forall m :: k < m < |scores| ==> scores[m] <= scores[k])
  }

  /**
   * The scan finds nothing exactly when no score exceeds the floor, and
   * otherwise stops at the first strict maximum: later ties lose.
   */
  lemma {:induction false} PickIsFirstMaximum(scores: seq<real>, floor: real)
    ensures Pick(scores, floor).None? <==> forall k :: 0 <= k < |scores| ==> scores[k] <= floor
    ensures Pick(scores, floor).Some? ==> FirstStrictMaximum(scores, floor, Pick(scores, floor).value)
    decreases |scores|
  {
    if scores != [] {
      var init := scores[..|scores| - 1];
      PickIsFirstMaximum(init, floor);
      assert forall k :: 0 <= k < |init| ==> init[k] == scores[k];
    }
  }

  /** The first strict maximum is unique, so it is what the scan returns. */
  lemma PickFindsFirstMaximum(scores: seq<real>, floor: real, k: nat)
    requires FirstStrictMaximum(scores, floor, k)
    ensures Pick(scores, floor) == Some(k)
  {
    PickIsFirstMaximum(scores, floor);
    assert Pick(scores, floor).Some?;
  }

  /** Extending the visited scores by one runs one more step of the scan. */
  lemma PickStep(scores: seq<real>, floor: real, k: nat)
    requires k < |scores|
    ensures var prior := Pick(scores[..k], floor);
            Pick(scores[..k + 1], floor) ==
              if scores[k] > BestScore(scores[..k], floor, prior) then Some(k) else prior
  {
    assert scores[..k + 1][..k] == scores[..k];
  }
}
