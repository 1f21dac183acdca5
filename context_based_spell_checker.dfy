/**
 * The context-based spell checker: the candidates for a misspelled word are
 * the words listed in the context of the roots of the other words of the
 * sentence, kept when they are close enough to the misspelled word in the
 * restricted (optimal string alignment) Damerau-Levenshtein distance.
 */
module ContextBasedSpellChecker {

  import opened Oracles
  import opened Operators
  import opened Candidates
  import SimpleSpellChecker

  function Min(x: int, y: int): int {
    if x <= y then x else y
  }

  /** 0 when the characters match, 1 when one must be replaced by the other. */
  function Cost(a: string, b: string, i: nat, j: nat): nat
    requires 0 < i <= |a| && 0 < j <= |b|
  {
    if a[i - 1] == b[j - 1] then 0 else 1
  }

  /** The last two characters of `a[..i]` are those of `b[..j]` in the other order. */
  predicate Transposed(a: string, b: string, i: nat, j: nat)
    requires i <= |a| && j <= |b|
  {
    i > 1 && j > 1 && a[i - 1] == b[j - 2] && a[i - 2] == b[j - 1]
  }

  /**
   * The distance between `a[..i]` and `b[..j]`: the fewest deletions,
   * insertions, replacements and swaps of two adjacent characters, where a
   * swapped pair is never edited again. The swap steps back to the cell
   * (i - 2, j - 2) at the cost of replacing the last character.
   */
  function Osa(a: string, b: string, i: nat, j: nat): nat
    requires i <= |a| && j <= |b|
    decreases i + j
  {
    if i == 0 then j
    else if j == 0 then i
    else
      var cost := Cost(a, b, i, j);
      var m := Min(Min(Osa(a, b, i - 1, j) + 1, Osa(a, b, i, j - 1) + 1), Osa(a, b, i - 1, j - 1) + cost);
      if Transposed(a, b, i, j) then Min(m, Osa(a, b, i - 2, j - 2) + cost) else m
  }

  function Distance(a: string, b: string): nat {
    Osa(a, b, |a|, |b|)
  }

  /** No step back is cheaper than the distance: deleting the last character of `a[..i]`, */
  lemma AtMostDeletion(a: string, b: string, i: nat, j: nat)
    requires 0 < i <= |a| && 0 < j <= |b|
    ensures Osa(a, b, i, j) <= Osa(a, b, i - 1, j) + 1
  {
  }

  /** inserting the last character of `b[..j]`, */
  lemma AtMostInsertion(a: string, b: string, i: nat, j: nat)
    requires 0 < i <= |a| && 0 < j <= |b|
    ensures Osa(a, b, i, j) <= Osa(a, b, i, j - 1) + 1
  {
  }

  /** keeping or replacing the last character, */
  lemma AtMostReplacement(a: string, b: string, i: nat, j: nat)
    requires 0 < i <= |a| && 0 < j <= |b|
    ensures Osa(a, b, i, j) <= Osa(a, b, i - 1, j - 1) + Cost(a, b, i, j)
  {
  }

  /** and undoing a swap of the last two characters. */
  lemma AtMostSwap(a: string, b: string, i: nat, j: nat)
    requires 0 < i <= |a| && 0 < j <= |b| && Transposed(a, b, i, j)
    ensures Osa(a, b, i, j) <= Osa(a, b, i - 2, j - 2) + Cost(a, b, i, j)
  {
  }

  lemma OsaAtMostEachStep(a: string, b: string, i: nat, j: nat)
    requires 0 < i <= |a| && 0 < j <= |b|
    ensures Osa(a, b, i, j) <= Osa(a, b, i - 1, j) + 1
    ensures Osa(a, b, i, j) <= Osa(a, b, i, j - 1) + 1
    ensures Osa(a, b, i, j) <= Osa(a, b, i - 1, j - 1) + Cost(a, b, i, j)
    ensures Transposed(a, b, i, j) ==> Osa(a, b, i, j) <= Osa(a, b, i - 2, j - 2) + Cost(a, b, i, j)
  {
    AtMostDeletion(a, b, i, j);
    AtMostInsertion(a, b, i, j);
    AtMostReplacement(a, b, i, j);
    if Transposed(a, b, i, j) {
      AtMostSwap(a, b, i, j);
    }
  }

  /** The distance is reached by one of the steps back that apply. */
  lemma OsaTakesAStep(a: string, b: string, i: nat, j: nat)
    requires 0 < i <= |a| && 0 < j <= |b|
    ensures Osa(a, b, i, j) == Osa(a, b, i - 1, j) + 1 || Osa(a, b, i, j) == Osa(a, b, i, j - 1) + 1 ||
            Osa(a, b, i, j) == Osa(a, b, i - 1, j - 1) + Cost(a, b, i, j) ||
            (Transposed(a, b, i, j) && Osa(a, b, i, j) == Osa(a, b, i - 2, j - 2) + Cost(a, b, i, j))
  {
  }

  /** A value no step undercuts and some step reaches is the distance. */
  lemma OsaIs(a: string, b: string, i: nat, j: nat, v: int)
    requires 0 < i <= |a| && 0 < j <= |b|
    requires v <= Osa(a, b, i - 1, j) + 1 && v <= Osa(a, b, i, j - 1) + 1
    requires v <= Osa(a, b, i - 1, j - 1) + Cost(a, b, i, j)
    requires Transposed(a, b, i, j) ==> v <= Osa(a, b, i - 2, j - 2) + Cost(a, b, i, j)
    requires v == Osa(a, b, i - 1, j) + 1 || v == Osa(a, b, i, j - 1) + 1 ||
             v == Osa(a, b, i - 1, j - 1) + Cost(a, b, i, j) ||
             (Transposed(a, b, i, j) && v == Osa(a, b, i - 2, j - 2) + Cost(a, b, i, j))
    ensures Osa(a, b, i, j) == v
  {
    OsaAtMostEachStep(a, b, i, j);
    OsaTakesAStep(a, b, i, j);
  }

  /**
   * Some step leads back to a cell at most as far apart in length, by no
   * more than what the step costs.
   */
  lemma LowerBoundStep(a: string, b: string, i: nat, j: nat)
    requires 0 < i <= |a| && 0 < j <= |b|
    ensures exists i': nat, j': nat :: i' <= i && j' <= j && i' + j' < i + j &&
              i - j - (i' - j') <= Osa(a, b, i, j) - Osa(a, b, i', j') &&
              j - i - (j' - i') <= Osa(a, b, i, j) - Osa(a, b, i', j')
  {
    OsaTakesAStep(a, b, i, j);
    var d := Osa(a, b, i, j);
    if d == Osa(a, b, i - 1, j) + 1 {
      assert Osa(a, b, i - 1, j) == d - 1;
    } else if d == Osa(a, b, i, j - 1) + 1 {
      assert Osa(a, b, i, j - 1) == d - 1;
    } else if d == Osa(a, b, i - 1, j - 1) + Cost(a, b, i, j) {
      assert Osa(a, b, i - 1, j - 1) <= d;
    } else {
      assert Osa(a, b, i - 2, j - 2) <= d;
    }
  }

  /** The distance is at least the difference of the lengths. */
  lemma {:induction false} OsaLowerBound(a: string, b: string, i: nat, j: nat)
    requires i <= |a| && j <= |b|
    ensures i - j <= Osa(a, b, i, j) && j - i <= Osa(a, b, i, j)
    decreases i + j
  {
    if i > 0 && j > 0 {
      LowerBoundStep(a, b, i, j);
      var i': nat, j': nat :| i' <= i && j' <= j && i' + j' < i + j &&
        i - j - (i' - j') <= Osa(a, b, i, j) - Osa(a, b, i', j') &&
        j - i - (j' - i') <= Osa(a, b, i, j) - Osa(a, b, i', j');
      OsaLowerBound(a, b, i', j');
    }
  }

  function Longer(i: nat, j: nat): nat {
    if i >= j then i else j
  }

  /**
   * One step of the upper bound: a bound at the cell above, to the left or
   * diagonally before carries over when that cell is nearer the origin.
   */
  lemma UpperBoundByDeletion(a: string, b: string, i: nat, j: nat)
    requires 0 < i <= |a| && 0 < j <= |b| && j < i
    requires Osa(a, b, i - 1, j) <= i - 1
    ensures Osa(a, b, i, j) <= i
  {
    AtMostDeletion(a, b, i, j);
  }

  lemma UpperBoundByInsertion(a: string, b: string, i: nat, j: nat)
    requires 0 < i <= |a| && 0 < j <= |b| && i < j
    requires Osa(a, b, i, j - 1) <= j - 1
    ensures Osa(a, b, i, j) <= j
  {
    AtMostInsertion(a, b, i, j);
  }

  lemma UpperBoundByReplacement(a: string, b: string, i: nat)
    requires 0 < i <= |a| && i <= |b|
    requires Osa(a, b, i - 1, i - 1) <= i - 1
    ensures Osa(a, b, i, i) <= i
  {
    AtMostReplacement(a, b, i, i);
  }

  /** The distance of two prefixes is at most the longer of their lengths. */
  lemma {:induction false} OsaUpperBound(a: string, b: string, i: nat, j: nat)
    requires i <= |a| && j <= |b|
    ensures Osa(a, b, i, j) <= Longer(i, j)
    decreases i + j
  {
    if i > 0 && j > 0 {
      if i > j {
        OsaUpperBound(a, b, i - 1, j);
        UpperBoundByDeletion(a, b, i, j);
      } else if j > i {
        OsaUpperBound(a, b, i, j - 1);
        UpperBoundByInsertion(a, b, i, j);
      } else {
        OsaUpperBound(a, b, i - 1, j - 1);
        UpperBoundByReplacement(a, b, i);
      }
    }
  }

  lemma DistanceBounds(a: string, b: string)
    ensures |a| - |b| <= Distance(a, b) && |b| - |a| <= Distance(a, b)
    ensures Distance(a, b) <= Longer(|a|, |b|)
  {
    OsaLowerBound(a, b, |a|, |b|);
    OsaUpperBound(a, b, |a|, |b|);
  }

  /** Equal prefixes are at distance 0. */
  lemma {:induction false} OsaSamePrefix(a: string, b: string, i: nat)
    requires i <= |a| && i <= |b| && a[..i] == b[..i]
    ensures Osa(a, b, i, i) == 0
  {
    if i > 0 {
      assert a[..i - 1] == a[..i][..i - 1] && b[..i - 1] == b[..i][..i - 1];
      assert a[i - 1] == a[..i][i - 1];
      assert b[i - 1] == b[..i][i - 1];
      OsaSamePrefix(a, b, i - 1);
    }
  }

  lemma DistanceToItself(a: string)
    ensures Distance(a, a) == 0
  {
    OsaSamePrefix(a, a, |a|);
  }

  /** Matching last characters cost nothing. */
  lemma AtMostMatch(a: string, b: string, i: nat, j: nat)
    requires 0 < i <= |a| && 0 < j <= |b| && a[i - 1] == b[j - 1]
    ensures Osa(a, b, i, j) <= Osa(a, b, i - 1, j - 1)
  {
    AtMostReplacement(a, b, i, j);
  }

  /** A common run of `k` characters after `a[..i]` and `b[..j]` adds nothing to the distance. */
  lemma {:induction false} OsaCommonRun(a: string, b: string, i: nat, j: nat, k: nat)
    requires i + k <= |a| && j + k <= |b|
    requires forall m :: i <= m < i + k ==> a[m] == b[m - i + j]
    ensures Osa(a, b, i + k, j + k) <= Osa(a, b, i, j)
  {
    if k > 0 {
      assert a[i + k - 1] == b[j + k - 1];
      OsaCommonRun(a, b, i, j, k - 1);
      AtMostMatch(a, b, i + k, j + k);
    }
  }

  /** The text after index `i` of `a` reappears after index `j` of `b`. */
  lemma TailsMeet(a: string, b: string, i: nat, j: nat)
    requires i <= |a| && j <= |b| && a[i..] == b[j..]
    ensures Osa(a, b, |a|, |b|) <= Osa(a, b, i, j)
  {
    var k := |a| - i;
    forall m | i <= m < i + k
      ensures a[m] == b[m - i + j]
    {
      assert a[m] == a[i..][m - i];
      assert b[m - i + j] == b[j..][m - i];
    }
    OsaCommonRun(a, b, i, j, k);
  }

  /**
   * Each kind of edit the generator makes is within distance 1 of its
   * source: a swap, a deletion, a replacement and an insertion.
   */
  lemma SwapWithinOne(w: string, i: nat)
    requires i + 1 < |w|
    ensures Distance(w, Swap(w, i)) <= 1
  {
    var c := Swap(w, i);
    OsaSamePrefix(w, c, i);
    assert Transposed(w, c, i + 2, i + 2);
    AtMostSwap(w, c, i + 2, i + 2);
    TailsMeet(w, c, i + 2, i + 2);
  }

  lemma DeleteWithinOne(w: string, i: nat)
    requires i < |w|
    ensures Distance(w, Delete(w, i)) <= 1
  {
    var c := Delete(w, i);
    OsaSamePrefix(w, c, i);
    if i > 0 {
      AtMostDeletion(w, c, i + 1, i);
    }
    TailsMeet(w, c, i + 1, i);
  }

  lemma ReplaceWithinOne(w: string, i: nat, t: char)
    requires i < |w|
    ensures Distance(w, Replace(w, i, t)) <= 1
  {
    var c := Replace(w, i, t);
    OsaSamePrefix(w, c, i);
    AtMostReplacement(w, c, i + 1, i + 1);
    TailsMeet(w, c, i + 1, i + 1);
  }

  lemma InsertWithinOne(w: string, i: nat, t: char)
    requires i <= |w|
    ensures Distance(w, InsertAt(w, i, t)) <= 1
  {
    var c := InsertAt(w, i, t);
    OsaSamePrefix(w, c, i);
    if i > 0 {
      AtMostInsertion(w, c, i, i + 1);
    }
    TailsMeet(w, c, i, i + 1);
  }

  /** Every candidate of the edit-based generator is within distance 1 of the word. */
  lemma GeneratedWithinOne(w: string, alphabet: Alphabet, c: string)
    requires c in SimpleSpellChecker.Generated(w, alphabet, |w|)
    ensures Distance(w, c) <= 1
  {
    SimpleSpellChecker.GeneratedAre(w, alphabet, |w|, c);
    var i: nat :| i < |w| && SimpleSpellChecker.EditAt(w, alphabet, i, c);
    if i + 1 < |w| && c == Swap(w, i) {
      SwapWithinOne(w, i);
    } else if c == Delete(w, i) {
      DeleteWithinOne(w, i);
    } else if exists t :: c == Replace(w, i, t) {
      var t :| c == Replace(w, i, t);
      ReplaceWithinOne(w, i, t);
    } else {
      var t :| c == InsertAt(w, i, t);
      InsertWithinOne(w, i, t);
    }
  }

  /** A swap of two different characters is one edit away, through the transposition step ("ab" and "ba"). */
  lemma SwapExample(x: char, y: char)
    requires x != y
    ensures Distance([x, y], [y, x]) == 1
  {
    var a, b := [x, y], [y, x];
    OsaIs(a, b, 1, 1, 1);
    OsaIs(a, b, 1, 2, 1);
    OsaIs(a, b, 2, 1, 1);
    OsaIs(a, b, 2, 2, 1);
  }

  /**
   * A swapped pair is never edited again, so "ca" is three edits from "abc"
   * (any three distinct letters in their places) although it is one edit
   * from "ac", which is one edit from "abc": the triangle inequality fails.
   */
  lemma RestrictedTransposition(x: char, y: char, z: char)
    requires x != y && y != z && x != z
    ensures Distance([z, x], [x, y, z]) == 3
    ensures Distance([z, x], [x, z]) == 1 && Distance([x, z], [x, y, z]) == 1
  {
    var a, b := [z, x], [x, y, z];
    OsaIs(a, b, 1, 1, 1);
    OsaIs(a, b, 1, 2, 2);
    OsaIs(a, b, 1, 3, 2);
    OsaIs(a, b, 2, 1, 1);
    OsaIs(a, b, 2, 2, 2);
    OsaIs(a, b, 2, 3, 3);
    SwapExample(z, x);
    assert InsertAt([x, z], 1, y) == [x, y, z];
    InsertWithinOne([x, z], 1, y);
    OsaLowerBound([x, z], [x, y, z], 2, 3);
  }

  /** Computes the distance with the dynamic programme over a (|first| + 1) by (|second| + 1) matrix. */
  method DamerauLevenshteinDistance(first: string, second: string) returns (r: int)
    ensures r == Distance(first, second)
  {
    if first == [] {
      return |second|;
    }
    if second == [] {
      return |first|;
    }
    var firstLength := |first|;
    var secondLength := |second|;
    var distanceMatrix := new int[firstLength + 1, secondLength + 1];
    for firstIndex := 0 to firstLength + 1
      invariant forall x :: 0 <= x < firstIndex ==> distanceMatrix[x, 0] == x
    {
      distanceMatrix[firstIndex, 0] := firstIndex;
    }
    for secondIndex := 0 to secondLength + 1
      invariant forall x :: 0 <= x <= firstLength ==> distanceMatrix[x, 0] == x
      invariant forall y :: 0 <= y < secondIndex ==> distanceMatrix[0, y] == y
    {
      distanceMatrix[0, secondIndex] := secondIndex;
    }
    for firstIndex := 1 to firstLength + 1
      invariant forall x, y {:trigger distanceMatrix[x, y]} :: 0 <= x < firstIndex && 0 <= y <= secondLength ==>
                  distanceMatrix[x, y] == Osa(first, second, x, y)
      invariant forall x :: firstIndex <= x <= firstLength ==> distanceMatrix[x, 0] == x
    {
      FillRow(first, second, distanceMatrix, firstIndex);
    }
    r := distanceMatrix[firstLength, secondLength];
  }

  /**
   * Fills row `firstIndex` of the matrix from its first column and the two
   * rows above it, leaving every other row as it was.
   */
  method FillRow(first: string, second: string, distanceMatrix: array2<int>, firstIndex: nat)
    requires distanceMatrix.Length0 == |first| + 1 && distanceMatrix.Length1 == |second| + 1
    requires 0 < firstIndex <= |first|
    requires forall x, y {:trigger distanceMatrix[x, y]} :: 0 <= x < firstIndex && 0 <= y <= |second| ==>
               distanceMatrix[x, y] == Osa(first, second, x, y)
    requires distanceMatrix[firstIndex, 0] == firstIndex
    modifies distanceMatrix
    ensures forall y {:trigger distanceMatrix[firstIndex, y]} :: 0 <= y <= |second| ==>
              distanceMatrix[firstIndex, y] == Osa(first, second, firstIndex, y)
    ensures forall x, y {:trigger distanceMatrix[x, y]} :: 0 <= x < distanceMatrix.Length0 && 0 <= y < distanceMatrix.Length1 && x != firstIndex ==>
              distanceMatrix[x, y] == old(distanceMatrix[x, y])
  {
    for secondIndex := 1 to |second| + 1
      invariant forall x, y {:trigger distanceMatrix[x, y]} :: 0 <= x < distanceMatrix.Length0 && 0 <= y < distanceMatrix.Length1 && x != firstIndex ==>
                  distanceMatrix[x, y] == old(distanceMatrix[x, y])
      invariant forall y {:trigger distanceMatrix[firstIndex, y]} :: 0 <= y < secondIndex ==>
                  distanceMatrix[firstIndex, y] == Osa(first, second, firstIndex, y)
    {
      var value := CellValue(first, second, distanceMatrix, firstIndex, secondIndex);
      distanceMatrix[firstIndex, secondIndex] := value;
    }
  }

  /** The value of one cell, from the cells above it and to its left. */
  method CellValue(first: string, second: string, distanceMatrix: array2<int>, firstIndex: nat, secondIndex: nat) returns (value: int)
    requires distanceMatrix.Length0 == |first| + 1 && distanceMatrix.Length1 == |second| + 1
    requires 0 < firstIndex <= |first| && 0 < secondIndex <= |second|
    requires forall x, y {:trigger distanceMatrix[x, y]} :: 0 <= x < firstIndex && 0 <= y <= |second| ==>
               distanceMatrix[x, y] == Osa(first, second, x, y)
    requires forall y {:trigger distanceMatrix[firstIndex, y]} :: 0 <= y < secondIndex ==>
               distanceMatrix[firstIndex, y] == Osa(first, second, firstIndex, y)
    ensures value == Osa(first, second, firstIndex, secondIndex)
  {
    var cost := if first[firstIndex - 1] == second[secondIndex - 1] then 0 else 1;
    var deletion := distanceMatrix[firstIndex - 1, secondIndex] + 1;
    var insertion := distanceMatrix[firstIndex, secondIndex - 1] + 1;
    var replacement := distanceMatrix[firstIndex - 1, secondIndex - 1] + cost;
    value := Min(Min(deletion, insertion), replacement);
    if firstIndex != 1 && secondIndex != 1 &&
       first[firstIndex - 1] == second[secondIndex - 2] && first[firstIndex - 2] == second[secondIndex - 1] {
      value := Min(value, distanceMatrix[firstIndex - 2, secondIndex - 2] + cost);
    }
    OsaIs(first, second, firstIndex, secondIndex, value);
  }

  /** The position of the first occurrence of `word`. */
  function FirstIndex(words: seq<string>, word: string): (k: nat)
    requires word in words
    ensures k < |words| && words[k] == word && word !in words[..k]
  {
    if words[0] == word then 0
    else
      var k := 1 + FirstIndex(words[1..], word);
      assert words[..k] == [words[0]] + words[1..][..k - 1];
      k
  }

  /**
   * The other words of the sentence: the first occurrence of `word` taken
   * out, or the whole sentence when `word` does not occur in it.
   */
  function RemoveFirst(words: seq<string>, word: string): (r: seq<string>)
    ensures word in words ==> |r| == |words| - 1 && multiset(r) == multiset(words) - multiset{word}
    ensures word !in words ==> r == words
  {
    if words == [] then []
    else
      assert words == [words[0]] + words[1..];
      if words[0] == word then words[1..]
      else [words[0]] + RemoveFirst(words[1..], word)
  }

  /** Exactly the first occurrence goes, and the other words keep their order. */
  lemma {:induction false} RemoveFirstKeepsOrder(words: seq<string>, word: string)
    requires word in words
    ensures RemoveFirst(words, word) == words[..FirstIndex(words, word)] + words[FirstIndex(words, word) + 1..]
  {
    if words[0] != word {
      var rest := words[1..];
      var k := FirstIndex(rest, word);
      RemoveFirstKeepsOrder(rest, word);
      assert FirstIndex(words, word) == k + 1;
      assert RemoveFirst(words, word) == [words[0]] + RemoveFirst(rest, word);
      SlicesAfterHead(words, k);
    }
  }

  /** Slicing after the head of a sequence is slicing the sequence one position further on. */
  lemma SlicesAfterHead<T>(s: seq<T>, k: nat)
    requires k + 1 < |s|
    ensures s[..k + 1] + s[k + 2..] == [s[0]] + (s[1..][..k] + s[1..][k + 1..])
  {
    assert s[..k + 1] == [s[0]] + s[1..][..k];
    assert s[k + 2..] == s[1..][k + 1..];
  }

  /** The words listed in the context of the longest root of `w`, when `w` parses and that root has a context. */
  function ContextOf(analyzer: Analyzer, contextList: map<string, seq<string>>, w: string): set<string> {
    if analyzer.parses(w) && analyzer.longestRoot(w) in contextList then set s | s in contextList[analyzer.longestRoot(w)]
    else {}
  }

  /** The candidate pool of a list of words: the union of their contexts. */
  function Pool(analyzer: Analyzer, contextList: map<string, seq<string>>, words: seq<string>): set<string> {
    if words == [] then {}
    else Pool(analyzer, contextList, words[..|words| - 1]) + ContextOf(analyzer, contextList, words[|words| - 1])
  }

  /** A string is in the pool exactly when it is in the context list of the longest root of one of the words. */
  lemma {:induction false} PoolMembers(analyzer: Analyzer, contextList: map<string, seq<string>>, words: seq<string>, c: string)
    ensures c in Pool(analyzer, contextList, words) <==>
              exists k :: 0 <= k < |words| && analyzer.parses(words[k]) &&
                analyzer.longestRoot(words[k]) in contextList && c in contextList[analyzer.longestRoot(words[k])]
    decreases |words|
  {
    if words != [] {
      var init := words[..|words| - 1];
      PoolMembers(analyzer, contextList, init, c);
      assert forall k :: 0 <= k < |init| ==> init[k] == words[k];
    }
  }

  /**
   * Every pool member comes from the context of a word of the sentence other
   * than the misspelled one: a different word, or another occurrence of it.
   */
  lemma FromOtherWords(analyzer: Analyzer, contextList: map<string, seq<string>>, sentence: seq<string>, word: string, c: string)
    requires c in Pool(analyzer, contextList, RemoveFirst(sentence, word))
    ensures exists w :: w in sentence && (w != word || multiset(sentence)[word] > 1) &&
              analyzer.parses(w) && analyzer.longestRoot(w) in contextList && c in contextList[analyzer.longestRoot(w)]
  {
    var rest := RemoveFirst(sentence, word);
    PoolMembers(analyzer, contextList, rest, c);
    var k :| 0 <= k < |rest| && analyzer.parses(rest[k]) &&
      analyzer.longestRoot(rest[k]) in contextList && c in contextList[analyzer.longestRoot(rest[k])];
    var w := rest[k];
    assert w in multiset(rest);
    assert w in sentence;
  }

  /** The distance a candidate may be from the misspelled word, by the candidate's own length. */
  function AllowedDistance(length: nat): (r: nat)
    ensures 1 <= r <= 3
    ensures r == 1 <==> length < 5
    ensures r == 3 <==> 7 <= length
  {
    if length < 5 then 1 else if length < 7 then 2 else 3
  }

  /** The filter on pool members. */
  predicate Accepted(word: string, candidate: string) {
    Distance(word, candidate) <= AllowedDistance(|candidate|)
  }

  /** A pool member that is itself an edit-based candidate of the word always passes the filter. */
  lemma GeneratedAccepted(word: string, alphabet: Alphabet, c: string)
    requires c in SimpleSpellChecker.Generated(word, alphabet, |word|)
    ensures Accepted(word, c)
  {
    GeneratedWithinOne(word, alphabet, c);
  }

  /** An accepted candidate differs in length from the word by no more than its allowance. */
  lemma AcceptedLength(word: string, c: string)
    requires Accepted(word, c)
    ensures |c| - |word| <= AllowedDistance(|c|) && |word| - |c| <= AllowedDistance(|c|)
  {
    DistanceBounds(word, c);
  }

  /**
   * The context candidates of `word` in `sentence`: every word from the
   * contexts of the other words' roots that passes the filter, once each,
   * with the context-based operator.
   */
  method CandidateList(word: string, sentence: seq<string>, analyzer: Analyzer, contextList: map<string, seq<string>>)
    returns (validCandidates: seq<Candidate>)
    ensures var pool := Pool(analyzer, contextList, RemoveFirst(sentence, word));
            forall k :: 0 <= k < |validCandidates| ==>
              validCandidates[k].op == ContextBased && validCandidates[k].name in pool && Accepted(word, validCandidates[k].name)
    ensures var pool := Pool(analyzer, contextList, RemoveFirst(sentence, word));
            forall c :: c in pool && Accepted(word, c) ==> Candidate(c, ContextBased) in validCandidates
    ensures forall k, l :: 0 <= k < l < |validCandidates| ==> validCandidates[k].name != validCandidates[l].name
  {
    var words := RemoveFirst(sentence, word);
    var candidates := CollectPool(words, analyzer, contextList);
    validCandidates := FilterPool(word, candidates);
  }

  /** Keeps the members of the pool that pass the filter, visiting the pool in no particular order. */
  method FilterPool(word: string, candidates: set<string>) returns (validCandidates: seq<Candidate>)
    ensures forall k :: 0 <= k < |validCandidates| ==>
              validCandidates[k].op == ContextBased && validCandidates[k].name in candidates && Accepted(word, validCandidates[k].name)
    ensures forall c :: c in candidates && Accepted(word, c) ==> Candidate(c, ContextBased) in validCandidates
    ensures forall k, l :: 0 <= k < l < |validCandidates| ==> validCandidates[k].name != validCandidates[l].name
  {
    var remaining := candidates;
    validCandidates := [];
    while remaining != {}
      invariant remaining <= candidates
      invariant forall k :: 0 <= k < |validCandidates| ==>
                  validCandidates[k].op == ContextBased && validCandidates[k].name in candidates && validCandidates[k].name !in remaining &&
                  Accepted(word, validCandidates[k].name)
      invariant forall c :: c in candidates && c !in remaining && Accepted(word, c) ==> Candidate(c, ContextBased) in validCandidates
      invariant forall k, l :: 0 <= k < l < |validCandidates| ==> validCandidates[k].name != validCandidates[l].name
      decreases |remaining|
    {
      var candidate :| candidate in remaining;
      var distance := AllowedDistance(|candidate|);
      var d := DamerauLevenshteinDistance(word, candidate);
      if d <= distance {
        validCandidates := validCandidates + [Candidate(candidate, ContextBased)];
      }
      remaining := remaining - {candidate};
    }
  }

  /** Collects the contexts of the words' longest roots into one set. */
  method CollectPool(words: seq<string>, analyzer: Analyzer, contextList: map<string, seq<string>>) returns (candidates: set<string>)
    ensures candidates == Pool(analyzer, contextList, words)
  {
    candidates := {};
    for i := 0 to |words|
      invariant candidates == Pool(analyzer, contextList, words[..i])
    {
      var w := words[i];
      assert words[..i + 1][..i] == words[..i];
      if analyzer.parses(w) {
        var root := analyzer.longestRoot(w);
        if root in contextList {
          var list := contextList[root];
          for k := 0 to |list|
            invariant candidates == Pool(analyzer, contextList, words[..i]) + set s | s in list[..k]
          {
            assert list[..k + 1] == list[..k] + [list[k]];
            candidates := candidates + {list[k]};
          }
          assert list[..|list|] == list;
        }
      }
    }
    assert words[..|words|] == words;
  }
}
