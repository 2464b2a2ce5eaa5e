/**
 * The prefix tree of the tree notes. Each node maps characters to child nodes and marks
 * whether a word ends there. The ghost map `nodeAt` names the node reached from the root by
 * each prefix present in the trie, and `words` is the set of words inserted so far.
 */
module Tries {
  /** `TrieNode`: no children and not the end of a word, at first. */
  class TrieNode {
    var children: map<char, TrieNode>
    var isEnd: bool

    constructor()
      ensures children == map[] && !isEnd
    {
      children := map[];
      isEnd := false;
    }
  }

  /** A non-empty prefix without its last character. */
  function Parent(q: string): string
    requires q != []
  {
    q[..|q| - 1]
  }

  /** Some word of `ws` begins with `p`. */
  ghost predicate Begins(ws: set<string>, p: string)
  {
    exists w :: w in ws && p <= w
  }

  /**
   * The links of a trie as values: `nodeAt` gives the node of each prefix present, `keyOf`
   * reads it backwards (so distinct prefixes have distinct nodes) and `kids` gives the
   * children of each prefix's node. A prefix has a child under `c` exactly when the prefix
   * extended by `c` is present, and then the child is that prefix's node.
   */
  ghost predicate Tree(nodeAt: map<string, TrieNode>, keyOf: map<TrieNode, string>, kids: map<string, map<char, TrieNode>>)
  {
    [] in nodeAt && kids.Keys == nodeAt.Keys &&
    Named(nodeAt, keyOf) && ChildrenPresent(nodeAt, kids) && ParentsPresent(nodeAt, kids)
  }

  /** Each prefix present is the key of its own node. */
  ghost predicate Named(nodeAt: map<string, TrieNode>, keyOf: map<TrieNode, string>)
  {
    forall p {:trigger nodeAt[p]} :: p in nodeAt ==> nodeAt[p] in keyOf && keyOf[nodeAt[p]] == p
  }

  /** The child under `c` of a prefix's node is the node of the prefix extended by `c`. */
  ghost predicate ChildrenPresent(nodeAt: map<string, TrieNode>, kids: map<string, map<char, TrieNode>>)
  {
    forall p, c {:trigger kids[p][c]} :: p in kids && c in kids[p] ==>
      p + [c] in nodeAt && kids[p][c] == nodeAt[p + [c]]
  }

  /** Each non-empty prefix present hangs below its parent under its last character. */
  ghost predicate ParentsPresent(nodeAt: map<string, TrieNode>, kids: map<string, map<char, TrieNode>>)
  {
    forall q {:trigger Parent(q)} :: q in nodeAt && q != [] ==>
      Parent(q) in kids && q[|q| - 1] in kids[Parent(q)]
  }

  /** The prefixes marked in `ends` are exactly the words `ws`. */
  ghost predicate Marks(ws: set<string>, ends: map<string, bool>)
  {
    (forall w {:trigger w in ws} :: w in ws ==> w in ends) &&
    (forall p {:trigger ends[p]} :: p in ends ==> (ends[p] <==> p in ws))
  }

  /** Extending two prefixes by one character gives equal strings only for equal prefixes and characters. */
  lemma SnocInjective(p: string, c: char, q: string, d: char)
    ensures p + [c] == q + [d] ==> p == q && c == d
  {
    if p + [c] == q + [d] {
      assert p == (p + [c])[..|p|] && q == (q + [d])[..|q|];
    }
  }

  /** Hanging a fresh childless node under `c` at `key`, where there was none, keeps the links a trie. */
  lemma TreeGrow(nodeAt: map<string, TrieNode>, keyOf: map<TrieNode, string>, kids: map<string, map<char, TrieNode>>,
                 key: string, c: char, node: TrieNode)
    requires Tree(nodeAt, keyOf, kids) && key in nodeAt && c !in kids[key] && node !in keyOf
    ensures key + [c] !in nodeAt
    ensures Tree(nodeAt[key + [c] := node], keyOf[node := key + [c]],
                 kids[key := kids[key][c := node]][key + [c] := map[]])
  {
    assert Parent(key + [c]) == key;
    GrowChildren(nodeAt, kids, key, c, node);
    GrowParents(nodeAt, kids, key, c, node);
  }

  /** The child links after hanging the fresh node still lead to the nodes of the extended prefixes. */
  lemma GrowChildren(nodeAt: map<string, TrieNode>, kids: map<string, map<char, TrieNode>>,
                     key: string, c: char, node: TrieNode)
    requires ChildrenPresent(nodeAt, kids) && key in kids && key + [c] !in nodeAt && key + [c] !in kids
    ensures ChildrenPresent(nodeAt[key + [c] := node], kids[key := kids[key][c := node]][key + [c] := map[]])
  {
    var q := key + [c];
    var nodeAt' := nodeAt[q := node];
    var kids' := kids[key := kids[key][c := node]][q := map[]];
    forall p, d | p in kids' && d in kids'[p]
      ensures p + [d] in nodeAt' && kids'[p][d] == nodeAt'[p + [d]]
    {
      SnocInjective(p, d, key, c);
      if p != key && p != q {
        assert kids[p][d] == nodeAt[p + [d]];
      } else if p == key && d != c {
        assert kids[p][d] == nodeAt[p + [d]];
      }
    }
  }

  /** Every non-empty prefix, the new one included, still hangs below its parent. */
  lemma GrowParents(nodeAt: map<string, TrieNode>, kids: map<string, map<char, TrieNode>>,
                    key: string, c: char, node: TrieNode)
    requires ParentsPresent(nodeAt, kids) && key in kids && key + [c] !in kids
    ensures ParentsPresent(nodeAt[key + [c] := node], kids[key := kids[key][c := node]][key + [c] := map[]])
  {
    var q := key + [c];
    var nodeAt' := nodeAt[q := node];
    var kids' := kids[key := kids[key][c := node]][q := map[]];
    forall r | r in nodeAt' && r != []
      ensures Parent(r) in kids' && r[|r| - 1] in kids'[Parent(r)]
    {
      if r == q {
        assert Parent(r) == key;
      } else {
        assert Parent(r) in kids && r[|r| - 1] in kids[Parent(r)];
        assert Parent(r) != q;
      }
    }
  }

  class Trie {
    var root: TrieNode
    /** The node that each prefix in the trie leads to. */
    ghost var nodeAt: map<string, TrieNode>
    /** The prefix of each node. */
    ghost var keyOf: map<TrieNode, string>
    /** The children of each prefix's node. */
    ghost var kids: map<string, map<char, TrieNode>>
    /** The end mark of each prefix's node. */
    ghost var ends: map<string, bool>
    ghost var words: set<string>
    ghost var Repr: set<object>

    /** The nodes carry the children and end marks recorded for their prefixes. */
    ghost predicate Coupled()
      reads this, Repr
    {
      kids.Keys == nodeAt.Keys && ends.Keys == nodeAt.Keys &&
      (forall p {:trigger nodeAt[p]} :: p in nodeAt ==> nodeAt[p] in Repr) &&
      (forall p {:trigger nodeAt[p].children} :: p in nodeAt ==> nodeAt[p].children == kids[p]) &&
      (forall p {:trigger nodeAt[p].isEnd} :: p in nodeAt ==> nodeAt[p].isEnd == ends[p])
    }

    /** The nodes form a trie rooted at `root`. */
    ghost predicate Shaped()
      reads this, Repr
    {
      this in Repr && Coupled() && Tree(nodeAt, keyOf, kids) && nodeAt[[]] == root
    }

    /** The end marks are exactly the words. */
    ghost predicate Marked()
      reads this
    {
      Marks(words, ends)
    }

    /** Every non-empty prefix present begins some word, or else begins `extra`. */
    ghost predicate Covered(extra: string)
      reads this
    {
      forall p {:trigger Begins(words, p)} :: p in nodeAt && p != [] ==> Begins(words, p) || p <= extra
    }

    /** A well-formed trie, each of whose nodes leads on to a word. */
    ghost predicate Valid()
      reads this, Repr
    {
      Shaped() && Marked() && Covered([])
    }

    /** `new Trie()`: only the root, and no word. */
    constructor()
      ensures Valid() && fresh(Repr) && words == {}
    {
      var r := new TrieNode();
      root := r;
      nodeAt := map[[] := r];
      keyOf := map[r := []];
      kids := map[[] := map[]];
      ends := map[[] := false];
      words := {};
      Repr := {this, r};
    }

    /** Every prefix of a prefix present is present too. */
    lemma {:induction false} PrefixClosed(q: string, k: nat)
      requires Shaped() && q in nodeAt && k <= |q|
      ensures q[..k] in nodeAt
      decreases |q|
    {
      if k < |q| {
        var parent := Parent(q);
        PrefixClosed(parent, k);
        assert parent[..k] == q[..k];
      } else {
        assert q[..k] == q;
      }
    }

    /** A node present at or below `q + [c]` means `q`'s node has a child under `c`. */
    lemma Below(q: string, c: char, w: string)
      requires Shaped() && q + [c] <= w && w in nodeAt
      ensures q in nodeAt && c in nodeAt[q].children
    {
      PrefixClosed(w, |q| + 1);
      assert w[..|q| + 1] == q + [c];
      assert Parent(q + [c]) == q;
    }

    /**
     * `insert(word)`: walks down the characters of `word`, creating each missing child, and
     * marks the last node as the end of a word.
     */
    method Insert(word: string)
      requires Valid()
      modifies Repr
      ensures Valid() && fresh(Repr - old(Repr))
      ensures words == old(words) + {word}
    {
      var curr := root;
      var i := 0;
      while i < |word|
        invariant 0 <= i <= |word| && Shaped() && Marked() && Covered(word)
        invariant fresh(Repr - old(Repr)) && words == old(words)
        invariant word[..i] in nodeAt && nodeAt[word[..i]] == curr
      {
        curr := Step(curr, word, i);
        i := i + 1;
      }
      assert word[..i] == word;
      MarkEnd(curr, word);
    }

    /** One pass of the loop of `insert`: moves from the node of `word[..i]` to its child under `word[i]`, creating it if missing. */
    method Step(curr: TrieNode, word: string, i: nat) returns (next: TrieNode)
      requires Shaped() && Marked() && Covered(word) && i < |word| && word[..i] in nodeAt && nodeAt[word[..i]] == curr
      modifies Repr
      ensures Shaped() && Marked() && Covered(word) && fresh(Repr - old(Repr)) && words == old(words)
      ensures word[..i + 1] in nodeAt && nodeAt[word[..i + 1]] == next
    {
      var ch := word[i];
      assert word[..i + 1] == word[..i] + [ch];
      if ch !in curr.children {
        var node := AddChild(curr, ch, word[..i], word);
        assert curr.children[ch] == node == nodeAt[word[..i] + [ch]];
      } else {
        assert curr.children == kids[word[..i]];
        assert kids[word[..i]][ch] == nodeAt[word[..i] + [ch]];
      }
      next := curr.children[ch];
    }

    /** The last step of `insert`: marks the node of `word` as the end of a word. */
    method MarkEnd(curr: TrieNode, ghost word: string)
      requires Shaped() && Marked() && Covered(word) && word in nodeAt && nodeAt[word] == curr
      modifies this, curr
      ensures Valid() && words == old(words) + {word} && Repr == old(Repr)
    {
      SetEnd(curr, word);
      forall p | p in nodeAt && p != []
        ensures Begins(words, p)
      {
        assert Begins(old(words), p) || p <= word;
      }
    }

    /** Sets the end mark of the node of `word` and records `word`; the nodes still carry their records. */
    method SetEnd(curr: TrieNode, ghost word: string)
      requires Coupled() && Named(nodeAt, keyOf) && word in nodeAt && nodeAt[word] == curr
      modifies this, curr
      ensures Coupled() && words == old(words) + {word} && ends == old(ends)[word := true]
      ensures nodeAt == old(nodeAt) && keyOf == old(keyOf) && kids == old(kids) && Repr == old(Repr) && root == old(root)
    {
      curr.isEnd := true;
      words, ends := words + {word}, ends[word := true];
      forall p | p in nodeAt
        ensures nodeAt[p] in Repr && nodeAt[p].children == kids[p] && nodeAt[p].isEnd == ends[p]
      {
        if p != word {
          assert keyOf[nodeAt[p]] == p;
        }
      }
    }

    /** The missing child of `curr` under `ch`: a fresh node for the prefix `key + [ch]` of `word`. */
    method AddChild(curr: TrieNode, ch: char, ghost key: string, ghost word: string) returns (node: TrieNode)
      requires Shaped() && Marked() && Covered(word)
      requires key in nodeAt && nodeAt[key] == curr && ch !in curr.children && key + [ch] <= word
      modifies this, curr
      ensures Shaped() && Marked() && Covered(word) && words == old(words) && root == old(root)
      ensures fresh(node) && Repr == old(Repr) + {node}
      ensures curr.children == old(curr.children)[ch := node] && nodeAt == old(nodeAt)[key + [ch] := node]
    {
      node := new TrieNode();
      TreeGrow(nodeAt, keyOf, kids, key, ch, node);
      Link(curr, ch, node, key);
    }

    /** Hangs the fresh `node` under `ch` at `curr`, the node of `key`, and records it; the nodes still carry their records. */
    method Link(curr: TrieNode, ch: char, node: TrieNode, ghost key: string)
      requires Coupled() && Named(nodeAt, keyOf) && key in nodeAt && nodeAt[key] == curr
      requires key + [ch] !in nodeAt && node !in keyOf && node.children == map[] && !node.isEnd
      modifies this, curr
      ensures Coupled() && curr.children == old(curr.children)[ch := node]
      ensures nodeAt == old(nodeAt)[key + [ch] := node] && keyOf == old(keyOf)[node := key + [ch]]
      ensures kids == old(kids)[key := old(kids)[key][ch := node]][key + [ch] := map[]]
      ensures ends == old(ends)[key + [ch] := false] && Repr == old(Repr) + {node}
      ensures words == old(words) && root == old(root)
    {
      curr.children := curr.children[ch := node];
      nodeAt, keyOf, Repr, kids, ends := nodeAt[key + [ch] := node], keyOf[node := key + [ch]], Repr + {node},
        kids[key := kids[key][ch := node]][key + [ch] := map[]], ends[key + [ch] := false];
      forall p | p in nodeAt
        ensures nodeAt[p] in Repr && nodeAt[p].children == kids[p] && nodeAt[p].isEnd == ends[p]
      {
        if p != key && p != key + [ch] {
          assert keyOf[nodeAt[p]] == p;
        }
      }
    }

    /** `search(word)`: true exactly when `word` was inserted. */
    method Search(word: string) returns (found: bool)
      requires Valid()
      ensures found <==> word in words
    {
      var curr := root;
      var i := 0;
      while i < |word|
        invariant 0 <= i <= |word| && word[..i] in nodeAt && nodeAt[word[..i]] == curr
      {
        if word[i] !in curr.children {
          if word in words {
            assert word[..i] + [word[i]] <= word;
            Below(word[..i], word[i], word);
          }
          return false;
        }
        assert word[..i + 1] == word[..i] + [word[i]];
        assert kids[word[..i]][word[i]] == curr.children[word[i]];
        curr := curr.children[word[i]];
        i := i + 1;
      }
      assert word[..i] == word;
      return curr.isEnd;
    }

    /** `startsWith(prefix)`: true exactly when `prefix` is empty or begins some inserted word. */
    method StartsWith(prefix: string) returns (found: bool)
      requires Valid()
      ensures found <==> prefix == [] || Begins(words, prefix)
    {
      var curr := root;
      var i := 0;
      while i < |prefix|
        invariant 0 <= i <= |prefix| && prefix[..i] in nodeAt && nodeAt[prefix[..i]] == curr
      {
        if prefix[i] !in curr.children {
          if w :| w in words && prefix <= w {
            assert prefix[..i] + [prefix[i]] <= w;
            Below(prefix[..i], prefix[i], w);
          }
          return false;
        }
        assert prefix[..i + 1] == prefix[..i] + [prefix[i]];
        assert kids[prefix[..i]][prefix[i]] == curr.children[prefix[i]];
        curr := curr.children[prefix[i]];
        i := i + 1;
      }
      assert prefix[..i] == prefix;
      return true;
    }
  }

  /** After `insert(w)`, `search(w)` holds and so does `startsWith(p)` for every prefix `p` of `w`. */
  method InsertThenQuery(t: Trie, w: string, p: string) returns (found: bool, starts: bool)
    requires t.Valid() && p <= w
    modifies t.Repr
    ensures found && starts
  {
    t.Insert(w);
    found := t.Search(w);
    starts := t.StartsWith(p);
  }
}
