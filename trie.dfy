/**
 * The prefix tree of the spell checker: a TrieNode owns a mapping from a
 * character to its child node and a flag marking the end of a word; a Trie
 * owns the root node and walks it one character at a time.
 *
 * The abstract view of a Trie is kept in two ghost fields: `nodes`, which maps
 * every character path present in the tree to the node reached by it, and
 * `words`, the set of paths whose node is marked as the end of a word.
 */
module Tries {

  class TrieNode {
    var children: map<char, TrieNode>
    var isWord: bool

    /** A new node has no children and does not end a word. */
    constructor ()
      ensures children == map[] && !isWord
    {
      children := map[];
      isWord := false;
    }

    /** The child reached by `c`, or null when there is no such edge. */
    function GetChild(c: char): (r: TrieNode?)
      reads this
      ensures r == null <==> c !in children
      ensures r != null ==> r == children[c]
    {
      if c in children then children[c] else null
    }

    /**
     * Adds the edge `c` to `child`. The underlying dictionary refuses a key
     * that is already present, so the edge must be new.
     */
    method AddChild(c: char, child: TrieNode)
      requires c !in children
      modifies this
      ensures children == old(children)[c := child]
      ensures c in children && GetChild(c) == child
      ensures forall d :: d != c ==> GetChild(d) == old(GetChild(d))
      ensures isWord == old(isWord)
    {
      children := children[c := child];
    }

    /**
     * Every child key followed by one space, in the dictionary's enumeration
     * order, which is left open here: any order of the keys is allowed.
     */
    method ChildrenToString() returns (s: string)
      ensures |s| == 2 * |children|
      ensures forall k :: 0 <= k < |children| ==> s[2 * k] in children && s[2 * k + 1] == ' '
      ensures forall c :: c in children ==> exists k :: 0 <= k < |children| && s[2 * k] == c
      ensures forall k, l :: 0 <= k < l < |children| ==> s[2 * k] != s[2 * l]
    {
      var pending := children.Keys;
      s := [];
      while pending != {}
        invariant pending <= children.Keys
        invariant |s| == 2 * (|children.Keys| - |pending|)
        invariant forall k :: 0 <= k < |s| / 2 ==> s[2 * k] in children.Keys - pending && s[2 * k + 1] == ' '
        invariant forall c :: c in children.Keys - pending ==> exists k :: 0 <= k < |s| / 2 && s[2 * k] == c
        invariant forall k, l :: 0 <= k < l < |s| / 2 ==> s[2 * k] != s[2 * l]
        decreases pending
      {
        var c :| c in pending;
        ghost var half := |s| / 2;
        ghost var before := s;
        s := s + [c, ' '];
        assert s[2 * half] == c;
        assert forall k :: 0 <= k < half ==> s[2 * k] == before[2 * k];
        forall d | d in children.Keys - (pending - {c}) ensures exists k :: 0 <= k < |s| / 2 && s[2 * k] == d {
          if d == c {
            assert s[2 * half] == d;
          } else {
            assert d in children.Keys - pending;
            var k :| 0 <= k < half && before[2 * k] == d;
            assert s[2 * k] == d;
          }
        }
        pending := pending - {c};
      }
      assert |children.Keys| == |children|;
      forall c | c in children ensures exists k :: 0 <= k < |children| && s[2 * k] == c {
        assert c in children.Keys - pending;
      }
    }

    /** Whether this node ends a word. */
    function IsWord(): (b: bool)
      reads this
      ensures b == isWord
    {
      isWord
    }

    /** Marks or unmarks this node as the end of a word; the children stay. */
    method SetIsWord(b: bool)
      modifies this
      ensures IsWord() == b
      ensures children == old(children)
    {
      isWord := b;
    }
  }

  /** `p` begins some word of `words`. */
  ghost predicate PrefixOfWord(p: string, words: set<string>) {
    exists w :: w in words && p <= w
  }

  /** The prefixes of `w` of length at most `n`. */
  ghost function Prefixes(w: string, n: nat): set<string>
    requires n <= |w|
  {
    set k | 0 <= k <= n :: w[..k]
  }

  lemma PrefixesStep(w: string, n: nat)
    requires n < |w|
    ensures Prefixes(w, n + 1) == Prefixes(w, n) + {w[..n + 1]}
  {
  }

  lemma PrefixesOfW(w: string, n: nat)
    requires n <= |w|
    ensures forall p :: p in Prefixes(w, n) ==> p <= w
  {
  }

  lemma SameMap<K, V>(a: map<K, V>, b: map<K, V>, added: set<K>)
    requires b.Keys == a.Keys + added && added <= a.Keys
    requires forall k :: k in a ==> k in b && b[k] == a[k]
    ensures a == b
  {
  }

  /** The path `p` followed by the character `c`. */
  function Extend(p: string, c: char): (q: string)
    ensures |q| == |p| + 1 && q[..|p|] == p && q[|p|] == c
  {
    p + [c]
  }

  /** The Turkish-locale lowering of a string, applied one character at a time. */
  function Lower(lowerChar: char -> char, s: string): (r: string)
    ensures |r| == |s|
    ensures forall k :: 0 <= k < |s| ==> r[k] == lowerChar(s[k])
  {
    seq(|s|, k requires 0 <= k < |s| => lowerChar(s[k]))
  }

  /** A string that lowering leaves as it is. */
  predicate IsLower(lowerChar: char -> char, s: string) {
    Lower(lowerChar, s) == s
  }

  /** Every prefix of a lowercase string is lowercase. */
  lemma PrefixOfLowerIsLower(lowerChar: char -> char, s: string, k: nat)
    requires k <= |s| && IsLower(lowerChar, s)
    ensures IsLower(lowerChar, s[..k])
  {
    var p := Lower(lowerChar, s[..k]);
    forall i | 0 <= i < k ensures p[i] == s[..k][i] {
      assert Lower(lowerChar, s)[i] == s[i];
    }
  }

  class Trie {
    var root: TrieNode
    /** The lowering `Search` and `StartsWith` apply to their argument. */
    const lowerChar: char -> char

    ghost var nodes: map<string, TrieNode>
    ghost var words: set<string>
    ghost var Repr: set<TrieNode>

    /**
     * The edges of the tree agree with the paths in `nodes`: the path `p`
     * followed by `c` is in the tree exactly when the node of `p` has the
     * edge `c`, which then leads to the node of that longer path.
     */
    ghost predicate EdgesAgree()
      reads this, Repr
      requires nodes.Values <= Repr
    {
      forall p, c {:trigger Extend(p, c)} ::
        (Extend(p, c) in nodes <==> p in nodes && c in nodes[p].children) &&
        (Extend(p, c) in nodes ==> nodes[p].children[c] == nodes[Extend(p, c)])
    }

    /** A tree rooted at `root`, with the end-of-word marks giving `words`. */
    ghost predicate Tree()
      reads this, Repr
    {
      && Repr == nodes.Values
      && [] in nodes && nodes[[]] == root
      && (forall p, q :: p in nodes && q in nodes && p != q ==> nodes[p] != nodes[q])
      && EdgesAgree()
      && (forall p :: p in nodes ==> (nodes[p].isWord <==> p in words))
      && words <= nodes.Keys
    }

    /** The object invariant: a tree in which every non-root path leads to a word. */
    ghost predicate Valid()
      reads this, Repr
    {
      && Tree()
      && (forall p {:trigger PrefixOfWord(p, words)} :: p in nodes && p != [] ==> PrefixOfWord(p, words))
    }

    /** A new trie holds only the root: no words, and the empty path. */
    constructor (lowerChar: char -> char)
      ensures Valid() && fresh(Repr)
      ensures nodes.Keys == {[]} && words == {}
      ensures this.lowerChar == lowerChar
    {
      var n := new TrieNode();
      root := n;
      this.lowerChar := lowerChar;
      nodes := map[[] := n];
      words := {};
      Repr := {n};
      new;
      assert nodes[[]] == n;
      assert forall v :: v in nodes.Values ==> v == n;
    }

    /** Every prefix of a path in the tree is a path in the tree. */
    lemma {:induction false} PrefixClosed(w: string, k: nat)
      requires Tree() && k <= |w|
      ensures w in nodes ==> w[..k] in nodes
      decreases |w| - k
    {
      if k < |w| {
        PrefixClosed(w, k + 1);
        assert Extend(w[..k], w[k]) == w[..k + 1];
      } else {
        assert w[..k] == w;
      }
    }

    /** Every prefix of an inserted word is a path in the tree. */
    lemma WordPathPresent(w: string)
      requires Tree()
      ensures w in words ==> Prefixes(w, |w|) <= nodes.Keys
    {
      if w in words {
        forall k | 0 <= k <= |w| ensures w[..k] in nodes {
          PrefixClosed(w, k);
        }
      }
    }

    /**
     * The node reached by following `w` from the root, or null as soon as an
     * edge is missing.
     */
    method GetTrieNode(w: string) returns (r: TrieNode?)
      requires Valid()
      ensures r == null <==> w !in nodes
      ensures r != null ==> r == nodes[w]
      ensures r == null <==> exists k :: 0 <= k < |w| && w[..k] in nodes && w[k] !in nodes[w[..k]].children
    {
      var current := root;
      var i := 0;
      while i < |w|
        invariant 0 <= i <= |w|
        invariant w[..i] in nodes && current == nodes[w[..i]]
      {
        var c := w[i];
        assert Extend(w[..i], c) == w[..i + 1];
        if current.GetChild(c) == null {
          PrefixClosed(w, i + 1);
          return null;
        }
        current := current.GetChild(c);
        i := i + 1;
      }
      assert w[..i] == w;
      r := current;
      forall k | 0 <= k < |w| && w[..k] in nodes ensures w[k] in nodes[w[..k]].children {
        PrefixClosed(w, k + 1);
        assert Extend(w[..k], w[k]) == w[..k + 1];
      }
    }

    /** Whether the lowered `w` was inserted as a word. */
    method Search(w: string) returns (found: bool)
      requires Valid()
      ensures found <==> Lower(lowerChar, w) in words
    {
      var node := GetTrieNode(Lower(lowerChar, w));
      if node == null {
        return false;
      }
      return node.IsWord();
    }

    /**
     * Whether the lowered `prefix` is a path of the tree: it is empty or it
     * begins some inserted word.
     */
    method StartsWith(prefix: string) returns (found: bool)
      requires Valid()
      ensures found <==> Lower(lowerChar, prefix) in nodes
      ensures found <==> Lower(lowerChar, prefix) == [] || PrefixOfWord(Lower(lowerChar, prefix), words)
    {
      ghost var p := Lower(lowerChar, prefix);
      if PrefixOfWord(p, words) {
        var v :| v in words && p <= v;
        assert v[..|p|] == p;
        PrefixClosed(v, |p|);
      }
      var node := GetTrieNode(Lower(lowerChar, prefix));
      if node == null {
        return false;
      }
      return true;
    }

    /**
     * Inserts `w` as it is (no lowering), creating only the nodes that are
     * missing along its path.
     */
    method Insert(w: string)
      requires Valid()
      modifies this, Repr
      ensures Valid() && fresh(Repr - old(Repr))
      ensures words == old(words) + {w}
      ensures nodes.Keys == old(nodes.Keys) + Prefixes(w, |w|)
      ensures forall p :: p in old(nodes) ==> p in nodes && nodes[p] == old(nodes[p])
      ensures w in old(words) ==> nodes == old(nodes) && words == old(words)
      ensures root == old(root)
    {
      WordPathPresent(w);
      var current := InsertPath(w);
      PrefixesOfW(w, |w|);
      MarkWord(current, w);
      if w in old(words) {
        SameMap(old(nodes), nodes, Prefixes(w, |w|));
      }
    }

    /** The walk of Insert: follow `w` from the root, creating the missing nodes, and return the node of `w`. */
    method InsertPath(w: string) returns (current: TrieNode)
      requires Tree()
      modifies this, Repr
      ensures Tree() && fresh(Repr - old(Repr))
      ensures root == old(root) && words == old(words)
      ensures w in nodes && current == nodes[w]
      ensures nodes.Keys == old(nodes.Keys) + Prefixes(w, |w|)
      ensures forall p :: p in old(nodes) ==> p in nodes && nodes[p] == old(nodes[p])
    {
      current := root;
      var i := 0;
      while i < |w|
        invariant 0 <= i <= |w|
        invariant Tree()
        invariant root == old(root)
        invariant words == old(words)
        invariant fresh(Repr - old(Repr))
        invariant w[..i] in nodes && current == nodes[w[..i]]
        invariant nodes.Keys == old(nodes.Keys) + Prefixes(w, i)
        invariant forall p :: p in old(nodes) ==> p in nodes && nodes[p] == old(nodes[p])
      {
        PrefixesStep(w, i);
        current := Descend(current, w, i);
        i := i + 1;
      }
      assert w[..i] == w;
    }

    /** One step of Insert: follow the edge for `w[i]`, creating it when it is missing. */
    method Descend(current: TrieNode, w: string, i: nat) returns (next: TrieNode)
      requires Tree() && i < |w| && w[..i] in nodes && current == nodes[w[..i]]
      modifies this, current
      ensures Tree() && fresh(Repr - old(Repr))
      ensures root == old(root) && words == old(words)
      ensures w[..i + 1] in nodes && next == nodes[w[..i + 1]]
      ensures nodes.Keys == old(nodes.Keys) + {w[..i + 1]}
      ensures forall p :: p in old(nodes) ==> p in nodes && nodes[p] == old(nodes[p])
    {
      var c := w[i];
      assert Extend(w[..i], c) == w[..i + 1];
      if current.GetChild(c) == null {
        AddNode(current, w[..i], c);
      }
      next := current.GetChild(c);
    }

    /** The last step of Insert: mark the node of `w` as the end of a word. */
    method MarkWord(current: TrieNode, ghost w: string)
      requires Tree() && w in nodes && current == nodes[w]
      requires forall p {:trigger PrefixOfWord(p, words)} :: p in nodes && p != [] && !(p <= w) ==> PrefixOfWord(p, words)
      modifies this, current
      ensures Valid()
      ensures words == old(words) + {w} && nodes == old(nodes) && Repr == old(Repr) && root == old(root)
    {
      ghost var before := words;
      current.SetIsWord(true);
      words := words + {w};
      forall p | p in nodes && p != [] ensures PrefixOfWord(p, words) {
        if p <= w {
          assert w in words;
        } else {
          assert PrefixOfWord(p, before);
          var v :| v in before && p <= v;
          assert v in words;
        }
      }
    }

    /** One step of Insert: hang a new node below `current` on edge `c`. */
    method AddNode(current: TrieNode, p: string, c: char)
      requires Tree()
      requires p in nodes && current == nodes[p] && c !in current.children
      modifies this, current
      ensures Tree() && fresh(Repr - old(Repr))
      ensures root == old(root) && words == old(words)
      ensures current.isWord == old(current.isWord)
      ensures c in current.children && Extend(p, c) in nodes && nodes[Extend(p, c)] == current.children[c]
      ensures nodes.Keys == old(nodes.Keys) + {Extend(p, c)}
      ensures forall q :: q in old(nodes) ==> q in nodes && nodes[q] == old(nodes[q])
    {
      assert Extend(p, c) !in nodes;
      var child := new TrieNode();
      current.AddChild(c, child);
      Register(p, c, child);
    }

    /**
     * The edge `c` of the node of `p` has just been hung on a fresh `child`:
     * record the new path, after which the tree is whole again.
     */
    ghost method Register(p: string, c: char, child: TrieNode)
      requires p in nodes && c in nodes[p].children && nodes[p].children[c] == child
      requires Extend(p, c) !in nodes && child !in Repr && child.children == map[] && !child.isWord
      requires Repr == nodes.Values && [] in nodes && nodes[[]] == root
      requires forall p, q :: p in nodes && q in nodes && p != q ==> nodes[p] != nodes[q]
      requires forall p', c' {:trigger Extend(p', c')} :: Extend(p', c') != Extend(p, c) ==>
                 (Extend(p', c') in nodes <==> p' in nodes && c' in nodes[p'].children) &&
                 (Extend(p', c') in nodes ==> nodes[p'].children[c'] == nodes[Extend(p', c')])
      requires forall p :: p in nodes ==> (nodes[p].isWord <==> p in words)
      requires words <= nodes.Keys
      modifies this
      ensures Tree()
      ensures nodes == old(nodes)[Extend(p, c) := child] && Repr == old(Repr) + {child}
      ensures root == old(root) && words == old(words)
    {
      var q := Extend(p, c);
      nodes := nodes[q := child];
      Repr := Repr + {child};
      forall v | v in nodes.Values ensures v in old(nodes).Values + {child} {
        var k :| k in nodes && nodes[k] == v;
        if k != q {
          assert k in old(nodes);
        }
      }
      assert nodes[q] == child;
      forall v | v in old(nodes).Values ensures v in nodes.Values {
        var k :| k in old(nodes) && old(nodes)[k] == v;
        assert nodes[k] == v;
      }
      forall p', c' | true
        ensures (Extend(p', c') in nodes <==> p' in nodes && c' in nodes[p'].children)
        ensures (Extend(p', c') in nodes ==> nodes[p'].children[c'] == nodes[Extend(p', c')])
      {
        if Extend(p', c') == q {
          assert p' == p && c' == c;
        } else if p' == q {
          assert Extend(p', c') !in old(nodes);
        }
      }
    }
  }

  /**
   * A worked client scenario rather than an operation. A fresh trie, then one insertion of `w`: before it no word is found and
   * only the empty prefix is; after it `w` is found exactly when lowering
   * leaves it unchanged, its node ends a word, and the prefixes of a
   * lowercase `w` are all found.
   */
  method InsertIntoFresh(lowerChar: char -> char, w: string, p: string, k: nat)
    returns (foundBefore: bool, prefixBefore: bool, node: TrieNode?, foundAfter: bool, prefixAfter: bool)
    requires k <= |w|
    ensures !foundBefore
    ensures prefixBefore <==> p == []
    ensures node != null && node.isWord
    ensures foundAfter <==> IsLower(lowerChar, w)
    ensures IsLower(lowerChar, w) ==> prefixAfter
  {
    var trie := new Trie(lowerChar);
    foundBefore := trie.Search(p);
    prefixBefore := trie.StartsWith(p);
    trie.Insert(w);
    node := trie.GetTrieNode(w);
    foundAfter := trie.Search(w);
    assert w[..|w|] == w;
    if IsLower(lowerChar, w) {
      PrefixOfLowerIsLower(lowerChar, w, k);
    }
    prefixAfter := trie.StartsWith(w[..k]);
  }
}
