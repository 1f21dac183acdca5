/**
 * The simplest spell checker: every word without a parse is replaced by one
 * of its single-edit neighbours that the analyser accepts.
 */
module SimpleSpellChecker {

  import opened Wrappers
  import opened Operators
  import opened Oracles

  /** `w` with every letter of `lowercase` in turn put in place of its character at `i`. */
  function Replacements(w: string, i: nat, lowercase: seq<char>): (r: seq<string>)
    requires i < |w|
    ensures |r| == |lowercase|
    ensures forall k :: 0 <= k < |lowercase| ==> r[k] == Replace(w, i, lowercase[k])
  {
    seq(|lowercase|, k requires 0 <= k < |lowercase| => Replace(w, i, lowercase[k]))
  }

  /** `w` with every letter of `lowercase` in turn added just before position `i`. */
  function Insertions(w: string, i: nat, lowercase: seq<char>): (r: seq<string>)
    requires i < |w|
    ensures |r| == |lowercase|
    ensures forall k :: 0 <= k < |lowercase| ==> r[k] == InsertAt(w, i, lowercase[k])
  {
    seq(|lowercase|, k requires 0 <= k < |lowercase| => InsertAt(w, i, lowercase[k]))
  }

  /**
   * The k-th replacement at `i` agrees with `w` everywhere except at `i`,
   * where it holds the k-th lowercase letter.
   */
  lemma ReplacementsShape(w: string, i: nat, lowercase: seq<char>)
    requires i < |w|
    ensures var r := Replacements(w, i, lowercase);
            forall k :: 0 <= k < |lowercase| ==>
              |r[k]| == |w| && r[k][..i] == w[..i] && r[k][i] == lowercase[k] && r[k][i + 1..] == w[i + 1..]
  {
  }

  /**
   * The k-th insertion at `i` keeps the first `i` characters of `w`, then
   * holds the k-th lowercase letter, then the rest of `w` from `i` on.
   */
  lemma InsertionsShape(w: string, i: nat, lowercase: seq<char>)
    requires i < |w|
    ensures var r := Insertions(w, i, lowercase);
            forall k :: 0 <= k < |lowercase| ==>
              |r[k]| == |w| + 1 && r[k][..i] == w[..i] && r[k][i] == lowercase[k] && r[k][i + 1..] == w[i..]
  {
  }

  /**
   * The candidates made at position `i`: the swap with the next character
   * when there is one, then, at an eligible character, its deletion, its
   * substitutions and the insertions before it.
   */
  function EditsAt(w: string, alphabet: Alphabet, i: nat): seq<string>
    requires i < |w|
  {
    (if i < |w| - 1 then [Swap(w, i)] else []) +
    (if Eligible(alphabet, w[i])
     then [Delete(w, i)] + Replacements(w, i, alphabet.lowercase) + Insertions(w, i, alphabet.lowercase)
     else [])
  }

  /** The candidates made at positions `0 .. n - 1`, in that order. */
  function Generated(w: string, alphabet: Alphabet, n: nat): seq<string>
    requires n <= |w|
  {
    if n == 0 then [] else Generated(w, alphabet, n - 1) + EditsAt(w, alphabet, n - 1)
  }

  /** The number of positions below `n` that hold an eligible character. */
  function EligibleCount(w: string, alphabet: Alphabet, n: nat): (e: nat)
    requires n <= |w|
    ensures e <= n
  {
    if n == 0 then 0
    else EligibleCount(w, alphabet, n - 1) + (if Eligible(alphabet, w[n - 1]) then 1 else 0)
  }

  /**
   * `c` is one of the edits the generator makes: the swap at some `i` with a
   * next character, or, at an eligible `i`, the deletion, a substitution or
   * an insertion just before `i` with a lowercase letter.
   */
  ghost predicate GeneratedEdit(w: string, alphabet: Alphabet, n: nat, c: string)
    requires n <= |w|
  {
    exists i :: 0 <= i < n && EditAt(w, alphabet, i, c)
  }

  ghost predicate EditAt(w: string, alphabet: Alphabet, i: nat, c: string)
    requires i < |w|
  {
    || (i + 1 < |w| && c == Swap(w, i))
    || (Eligible(alphabet, w[i]) &&
        (|| c == Delete(w, i)
         || (exists k :: 0 <= k < |alphabet.lowercase| && c == Replace(w, i, alphabet.lowercase[k]))
         || (exists k :: 0 <= k < |alphabet.lowercase| && c == InsertAt(w, i, alphabet.lowercase[k]))))
  }

  lemma EditsAtAre(w: string, alphabet: Alphabet, i: nat, c: string)
    requires i < |w|
    ensures c in EditsAt(w, alphabet, i) <==> EditAt(w, alphabet, i, c)
  {
    var L := alphabet.lowercase;
    if Eligible(alphabet, w[i]) {
      if exists k :: 0 <= k < |L| && c == Replace(w, i, L[k]) {
        var k :| 0 <= k < |L| && c == Replace(w, i, L[k]);
        assert Replacements(w, i, L)[k] == c;
      }
      if exists k :: 0 <= k < |L| && c == InsertAt(w, i, L[k]) {
        var k :| 0 <= k < |L| && c == InsertAt(w, i, L[k]);
        assert Insertions(w, i, L)[k] == c;
      }
    }
  }

  /**
   * The generated list holds exactly the edits the generator describes:
   * nothing else, and every one of them.
   */
  lemma {:induction false} GeneratedAre(w: string, alphabet: Alphabet, n: nat, c: string)
    requires n <= |w|
    ensures c in Generated(w, alphabet, n) <==> GeneratedEdit(w, alphabet, n, c)
  {
    if n > 0 {
      GeneratedAre(w, alphabet, n - 1, c);
      EditsAtAre(w, alphabet, n - 1, c);
      if GeneratedEdit(w, alphabet, n, c) {
        var i :| 0 <= i < n && EditAt(w, alphabet, i, c);
        if i < n - 1 {
          assert GeneratedEdit(w, alphabet, n - 1, c);
        }
      }
      if GeneratedEdit(w, alphabet, n - 1, c) {
        var i :| 0 <= i < n - 1 && EditAt(w, alphabet, i, c);
        assert EditAt(w, alphabet, i, c);
      }
    }
  }

  /** The number of edits at one position: a swap unless it is the last, and `1 + 2 |L|` at an eligible character. */
  lemma EditsAtCount(w: string, alphabet: Alphabet, i: nat)
    requires i < |w|
    ensures |EditsAt(w, alphabet, i)| ==
            (if i < |w| - 1 then 1 else 0) + (if Eligible(alphabet, w[i]) then 1 + 2 * |alphabet.lowercase| else 0)
  {
  }

  /**
   * The list has one swap per position but the last and `1 + 2 |L|`
   * candidates per eligible position; nothing is removed as a duplicate.
   */
  lemma {:induction false} GeneratedCount(w: string, alphabet: Alphabet, n: nat)
    requires n <= |w|
    ensures |Generated(w, alphabet, n)| ==
            (if n == |w| && n > 0 then n - 1 else n) +
            EligibleCount(w, alphabet, n) * (1 + 2 * |alphabet.lowercase|)
  {
    if n > 0 {
      GeneratedCount(w, alphabet, n - 1);
      EditsAtCount(w, alphabet, n - 1);
      CountStep(|Generated(w, alphabet, n - 1)|, |EditsAt(w, alphabet, n - 1)|, n, |w|,
                EligibleCount(w, alphabet, n - 1), 1 + 2 * |alphabet.lowercase|, Eligible(alphabet, w[n - 1]));
    }
  }

  /** The arithmetic of one step of the count, kept apart from the sequences it counts. */
  lemma CountStep(before: nat, edits: nat, n: nat, length: nat, eligibleBefore: nat, m: nat, eligible: bool)
    requires 0 < n <= length
    requires before == n - 1 + eligibleBefore * m
    requires edits == (if n < length then 1 else 0) + (if eligible then m else 0)
    ensures before + edits ==
            (if n == length then n - 1 else n) + (eligibleBefore + (if eligible then 1 else 0)) * m
  {
    if eligible {
      assert (eligibleBefore + 1) * m == eligibleBefore * m + m;
    }
  }

  /** Every generated candidate is a single edit of the word: a swap, a deletion, a replacement or an insertion. */
  lemma GeneratedAreSingleEdits(w: string, alphabet: Alphabet, c: string)
    requires c in Generated(w, alphabet, |w|)
    ensures IsSingleEdit(w, c)
    ensures |c| == |w| - 1 || |c| == |w| || |c| == |w| + 1
  {
    GeneratedAre(w, alphabet, |w|, c);
    var L := alphabet.lowercase;
    var i :| 0 <= i < |w| && EditAt(w, alphabet, i, c);
    if i + 1 < |w| && c == Swap(w, i) {
    } else if c == Delete(w, i) {
    } else if exists k :: 0 <= k < |L| && c == Replace(w, i, L[k]) {
      var k :| 0 <= k < |L| && c == Replace(w, i, L[k]);
    } else {
      var k :| 0 <= k < |L| && c == InsertAt(w, i, L[k]);
    }
  }

  /**
   * All single-edit strings of `word`: for each position, the adjacent swap,
   * and at an eligible character its deletion, its substitutions by each
   * lowercase letter and the insertions of each lowercase letter before it.
   */
  method GenerateCandidateList(word: string, alphabet: Alphabet) returns (candidates: seq<string>)
    ensures candidates == Generated(word, alphabet, |word|)
    ensures forall c :: c in candidates <==> GeneratedEdit(word, alphabet, |word|, c)
    ensures |candidates| == (if |word| == 0 then 0 else |word| - 1) +
                            EligibleCount(word, alphabet, |word|) * (1 + 2 * |alphabet.lowercase|)
  {
    candidates := [];
    for i := 0 to |word|
      invariant candidates == Generated(word, alphabet, i)
    {
      candidates := AppendEditsAt(word, alphabet, i, candidates);
    }
    forall c ensures c in candidates <==> GeneratedEdit(word, alphabet, |word|, c) {
      GeneratedAre(word, alphabet, |word|, c);
    }
    GeneratedCount(word, alphabet, |word|);
  }

  /** One pass of the outer loop of the generator: the edits at position `i`, appended. */
  method AppendEditsAt(word: string, alphabet: Alphabet, i: nat, done: seq<string>) returns (candidates: seq<string>)
    requires i < |word|
    ensures candidates == done + EditsAt(word, alphabet, i)
  {
    var s := alphabet.lowercase;
    candidates := done;
    if i < |word| - 1 {
      var swapped := word[..i] + [word[i + 1]] + [word[i]] + word[i + 2..];
      assert swapped == Swap(word, i);
      candidates := candidates + [swapped];
    }
    ghost var swaps := candidates;
    assert swaps == done + (if i < |word| - 1 then [Swap(word, i)] else []);
    if Eligible(alphabet, word[i]) {
      var deleted := word[..i] + word[i + 1..];
      assert deleted == Delete(word, i);
      candidates := candidates + [deleted];
      candidates := AppendReplacements(word, i, s, candidates);
      candidates := AppendInsertions(word, i, s, candidates);
      assert candidates == swaps + ([Delete(word, i)] + Replacements(word, i, s) + Insertions(word, i, s)) by {
        Associate(swaps, [Delete(word, i)], Replacements(word, i, s), Insertions(word, i, s));
      }
    }
  }

  /** The inner loop of substitutions at position `i`. */
  method AppendReplacements(word: string, i: nat, s: seq<char>, done: seq<string>) returns (candidates: seq<string>)
    requires i < |word|
    ensures candidates == done + Replacements(word, i, s)
  {
    candidates := done;
    for j := 0 to |s|
      invariant candidates == done + Replacements(word, i, s)[..j]
    {
      var replaced := word[..i] + [s[j]] + word[i + 1..];
      assert replaced == Replace(word, i, s[j]);
      candidates := candidates + [replaced];
      TakeOneMore(Replacements(word, i, s), j);
    }
    TakeAll(Replacements(word, i, s));
  }

  /** The inner loop of insertions before position `i`. */
  method AppendInsertions(word: string, i: nat, s: seq<char>, done: seq<string>) returns (candidates: seq<string>)
    requires i < |word|
    ensures candidates == done + Insertions(word, i, s)
  {
    candidates := done;
    for j := 0 to |s|
      invariant candidates == done + Insertions(word, i, s)[..j]
    {
      var added := word[..i] + [s[j]] + word[i..];
      assert added == InsertAt(word, i, s[j]);
      candidates := candidates + [added];
      TakeOneMore(Insertions(word, i, s), j);
    }
    TakeAll(Insertions(word, i, s));
  }

  lemma TakeOneMore<T>(s: seq<T>, j: nat)
    requires j < |s|
    ensures s[..j + 1] == s[..j] + [s[j]]
  {
  }

  /** The unprocessed part starts with the next raw candidate, and the rest follows. */
  lemma Unprocessed<T>(c: seq<T>, raw: seq<T>, i: nat, j: nat)
    requires i < |c| && j <= |raw| && c[i..] == raw[j..]
    ensures j < |raw| && c[i] == raw[j] && c[i + 1..] == raw[j + 1..]
  {
    assert c[i..][0] == c[i];
    assert c[i..][1..] == c[i + 1..];
    assert raw[j..][1..] == raw[j + 1..];
  }

  lemma UpdateAt<T>(c: seq<T>, i: nat, v: T)
    requires i < |c|
    ensures c[i := v][..i + 1] == c[..i] + [v] && c[i := v][i + 1..] == c[i + 1..]
  {
  }

  lemma RemoveAt<T>(c: seq<T>, i: nat)
    requires i < |c|
    ensures (c[..i] + c[i + 1..])[..i] == c[..i] && (c[..i] + c[i + 1..])[i..] == c[i + 1..]
  {
  }

  lemma TakeAll<T>(s: seq<T>)
    ensures s[..|s|] == s
  {
  }

  lemma Associate<T>(a: seq<T>, b: seq<T>, c: seq<T>, d: seq<T>)
    ensures a + b + c + d == a + (b + c + d)
  {
  }

  /**
   * What survives of one raw candidate: itself when it parses, else its
   * correct form when there is one that parses, else nothing.
   */
  function Repair(analyzer: Analyzer, c: string): seq<string> {
    if analyzer.parses(c) then [c]
    else match analyzer.correctForm(c)
      case Some(f) => if analyzer.parses(f) then [f] else []
      case None => []
  }

  /** The raw candidates `cs`, each repaired or dropped, in their order. */
  function Filtered(analyzer: Analyzer, cs: seq<string>): seq<string> {
    if cs == [] then [] else Filtered(analyzer, cs[..|cs| - 1]) + Repair(analyzer, cs[|cs| - 1])
  }

  /** Filtering works element by element, so the survivors keep their relative order. */
  lemma {:induction false} FilteredAppend(analyzer: Analyzer, a: seq<string>, b: seq<string>)
    ensures Filtered(analyzer, a + b) == Filtered(analyzer, a) + Filtered(analyzer, b)
    decreases |b|
  {
    if b != [] {
      var b' := b[..|b| - 1];
      assert (a + b)[..|a + b| - 1] == a + b';
      FilteredAppend(analyzer, a, b');
    } else {
      assert a + b == a;
    }
  }

  /**
   * Filtering keeps only strings that parse, never lengthens the list, and
   * yields `x` exactly when some raw candidate repairs to `x`: the candidate
   * itself parses, or it fails and its correct form is `x` and parses.
   */
  lemma {:induction false} FilteredProperties(analyzer: Analyzer, cs: seq<string>)
    ensures |Filtered(analyzer, cs)| <= |cs|
    ensures forall x :: x in Filtered(analyzer, cs) ==> analyzer.parses(x)
    ensures forall x :: x in Filtered(analyzer, cs) <==>
              exists c :: c in cs && ((c == x && analyzer.parses(c)) ||
                                      (!analyzer.parses(c) && analyzer.correctForm(c) == Some(x) && analyzer.parses(x)))
    decreases |cs|
  {
    if cs != [] {
      var init := cs[..|cs| - 1];
      FilteredProperties(analyzer, init);
      assert cs == init + [cs[|cs| - 1]];
    }
  }

  /** The candidates of a word: its single edits that are, or repair to, a word that parses. */
  function Candidates(analyzer: Analyzer, alphabet: Alphabet, w: string): seq<string> {
    Filtered(analyzer, Generated(w, alphabet, |w|))
  }

  /**
   * Generates the single edits of `word` and filters them in place: a
   * candidate with no parse is overwritten by its correct form when that
   * parses, and removed otherwise.
   */
  method CandidateList(word: string, analyzer: Analyzer, alphabet: Alphabet) returns (candidates: seq<string>)
    ensures candidates == Candidates(analyzer, alphabet, word)
    ensures forall c :: c in candidates ==> analyzer.parses(c)
    ensures |candidates| <= |Generated(word, alphabet, |word|)|
  {
    var raw := GenerateCandidateList(word, alphabet);
    candidates := RepairInPlace(raw, analyzer);
    FilteredProperties(analyzer, raw);
  }

  /**
   * The filtering loop of the candidate list: walks the list with an index
   * that steps back after each removal.
   */
  method RepairInPlace(raw: seq<string>, analyzer: Analyzer) returns (candidates: seq<string>)
    ensures candidates == Filtered(analyzer, raw)
  {
    candidates := raw;
    ghost var j := 0;
    var i := 0;
    while i < |candidates|
      invariant 0 <= i <= |candidates| && 0 <= j <= |raw|
      invariant candidates[..i] == Filtered(analyzer, raw[..j])
      invariant candidates[i..] == raw[j..]
      decreases |candidates| - i
    {
      ghost var before := candidates;
      Unprocessed(before, raw, i, j);
      assert raw[..j + 1] == raw[..j] + [raw[j]];
      FilteredAppend(analyzer, raw[..j], [raw[j]]);
      if !analyzer.parses(candidates[i]) {
        var newCandidate := analyzer.correctForm(candidates[i]);
        if newCandidate.Some? && analyzer.parses(newCandidate.value) {
          candidates := candidates[i := newCandidate.value];
          UpdateAt(before, i, newCandidate.value);
        } else {
          candidates := candidates[..i] + candidates[i + 1..];
          RemoveAt(before, i);
          i := i - 1;
        }
      } else {
        TakeOneMore(before, i);
      }
      i := i + 1;
      j := j + 1;
    }
    assert raw[..j] == raw;
  }

  /**
   * What the checker may output for `w`: the word itself when it parses or
   * has no candidates, and otherwise any one of its candidates.
   */
  ghost predicate Corrected(analyzer: Analyzer, alphabet: Alphabet, w: string, r: string) {
    if analyzer.parses(w) || Candidates(analyzer, alphabet, w) == [] then r == w
    else r in Candidates(analyzer, alphabet, w)
  }

  /**
   * Checks the sentence word by word; a word without a parse is replaced by
   * a candidate picked at random, which is left open here.
   */
  method SpellCheck(sentence: seq<string>, analyzer: Analyzer, alphabet: Alphabet) returns (result: seq<string>)
    ensures |result| == |sentence|
    ensures forall k :: 0 <= k < |sentence| ==> Corrected(analyzer, alphabet, sentence[k], result[k])
    ensures (forall k :: 0 <= k < |sentence| ==> analyzer.parses(sentence[k])) ==> result == sentence
  {
    result := [];
    for i := 0 to |sentence|
      invariant |result| == i
      invariant forall k :: 0 <= k < i ==> Corrected(analyzer, alphabet, sentence[k], result[k])
      invariant forall k :: 0 <= k < i && analyzer.parses(sentence[k]) ==> result[k] == sentence[k]
    {
      var word := sentence[i];
      var newWord;
      if !analyzer.parses(word) {
        var candidates := CandidateList(word, analyzer, alphabet);
        if |candidates| > 0 {
          var randomCandidate :| 0 <= randomCandidate < |candidates|;
          newWord := candidates[randomCandidate];
        } else {
          newWord := word;
        }
      } else {
        newWord := word;
      }
      result := result + [newWord];
    }
  }
}
