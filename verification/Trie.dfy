/**
 The walkers of libmysql/include/my_trie.h on the heap. Only the walkers have bodies in the
 source; what the builder must have set up is the predicate `Valid`, read off the comments on
 the fields of TRIE_NODE.
 */
module Trie {
  import opened Wrappers
  import opened AhoCorasick

  class TrieNode {
    var leaf: nat         // depth from the root if a word ends here, 0 otherwise
    var c: byte           // label on the edge into this node
    var next: TrieNode?   // next sibling
    var links: TrieNode?  // first child
    var fail: TrieNode?   // failure function

    constructor (c: byte)
      ensures leaf == 0 && this.c == c && next == null && links == null && fail == null
    {
      leaf, this.c, next, links, fail := 0, c, null, null, null;
    }
  }

  /** The nodes of the trie of the words "abc" and "b". */
  ghost predicate AbcAndBLinked(r: TrieNode, a: TrieNode, ab: TrieNode, abc: TrieNode, b: TrieNode)
    reads r, a, ab, abc, b
  {
    && r != a && r != ab && r != abc && r != b && a != ab && a != abc && a != b && ab != abc && ab != b && abc != b
    && r.links == a && a.links == ab && ab.links == abc && abc.links == null && b.links == null
    && a.next == b && b.next == null && ab.next == null && abc.next == null
    && a.c == A && b.c == B && ab.c == B && abc.c == C
    && a.fail == r && b.fail == r && ab.fail == b && abc.fail == r
    && r.leaf == 0 && a.leaf == 0 && ab.leaf == 0 && abc.leaf == 3 && b.leaf == 1
  }

  method AbcAndBNodes() returns (r: TrieNode, a: TrieNode, ab: TrieNode, abc: TrieNode, b: TrieNode)
    ensures AbcAndBLinked(r, a, ab, abc, b)
  {
    r := new TrieNode(0);
    a := new TrieNode(A);
    ab := new TrieNode(B);
    abc := new TrieNode(C);
    b := new TrieNode(B);
    r.links, a.next, a.links, ab.links := a, b, ab, abc;
    a.fail, b.fail, ab.fail, abc.fail := r, r, b, r;
    abc.leaf, b.leaf := 3, 1;
  }

  class Trie {
    const root: TrieNode

    /** What each node spells and back, its children in `next` order, and the stored words. */
    ghost var spell: map<TrieNode, Path>
    ghost var at: map<Path, TrieNode>
    ghost var kids: map<TrieNode, seq<TrieNode>>
    ghost var words: set<Path>

    ghost function Paths(): set<Path>
      reads this
    {
      at.Keys
    }

    /** Nodes and paths correspond one to one; the root spells the empty path. */
    ghost predicate ValidShape()
      reads this
    {
      && [] in at && at[[]] == root
      && kids.Keys == spell.Keys
      && (forall n :: n in spell ==> spell[n] in at && at[spell[n]] == n)
      && (forall p :: p in at ==> at[p] in spell && spell[at[p]] == p)
      && PrefixClosed(Paths())
      && words <= Paths()
    }

    /** The sibling chain of `n` holds exactly the nodes one character below `n`. */
    ghost predicate ValidLinks(n: TrieNode)
      requires n in spell && kids.Keys == spell.Keys
      reads this, spell.Keys
    {
      var k := kids[n];
      && n.links == (if k == [] then null else k[0])
      && (forall i :: 0 <= i < |k| ==> k[i] in spell && spell[k[i]] == spell[n] + [k[i].c])
      && (forall i {:trigger k[i].next} :: 0 <= i < |k| ==>
            k[i].next == if i + 1 < |k| then k[i + 1] else null)
      && (forall c: byte :: spell[n] + [c] in at ==> at[spell[n] + [c]] in k)
    }

    ghost predicate ValidLeafAndFail(n: TrieNode)
      requires n in spell && [] in Paths()
      reads this, spell.Keys
    {
      && n.leaf == Leaf(words, spell[n])
      && (spell[n] != [] ==>
            n.fail != null && n.fail in spell && spell[n.fail] == Fail(Paths(), spell[n]))
    }

    ghost predicate Valid()
      reads this, spell.Keys
    {
      && ValidShape()
      && (forall n {:trigger ValidLinks(n)} :: n in spell ==> ValidLinks(n))
      && (forall n {:trigger ValidLeafAndFail(n)} :: n in spell ==> ValidLeafAndFail(n))
    }

    /** The trie without words. */
    constructor ()
      ensures Valid() && words == {} && fresh(root)
    {
      root := new TrieNode(0);
      new;
      spell, at, kids, words := map[root := []], map[[] := root], map[root := []], {};
    }

    /** The trie of the words "abc" and "b". */
    constructor AbcAndB()
      ensures Valid() && words == AhoCorasick.AbcAndB() && Paths() == AbcAndBPaths()
    {
      var r, a, ab, abc, b := AbcAndBNodes();
      root := r;
      new;
      spell := map[r := [], a := [A], ab := [A, B], abc := [A, B, C], b := [B]];
      at := map[[] := r, [A] := a, [A, B] := ab, [A, B, C] := abc, [B] := b];
      kids := map[r := [a, b], a := [ab], ab := [abc], abc := [], b := []];
      words := AhoCorasick.AbcAndB();
      BuiltIsValid(r, a, ab, abc, b);
    }

    ghost predicate Built(r: TrieNode, a: TrieNode, ab: TrieNode, abc: TrieNode, b: TrieNode)
      reads this, r, a, ab, abc, b
    {
      && AbcAndBLinked(r, a, ab, abc, b)
      && root == r && words == AhoCorasick.AbcAndB()
      && spell == map[r := [], a := [A], ab := [A, B], abc := [A, B, C], b := [B]]
      && at == map[[] := r, [A] := a, [A, B] := ab, [A, B, C] := abc, [B] := b]
      && kids == map[r := [a, b], a := [ab], ab := [abc], abc := [], b := []]
    }

    lemma BuiltIsValid(r: TrieNode, a: TrieNode, ab: TrieNode, abc: TrieNode, b: TrieNode)
      requires Built(r, a, ab, abc, b)
      ensures Valid() && Paths() == AbcAndBPaths()
    {
      BuiltShape(r, a, ab, abc, b);
      forall n | n in spell ensures ValidLinks(n) {
        BuiltLinks(r, a, ab, abc, b, n);
      }
      forall n | n in spell ensures ValidLeafAndFail(n) {
        BuiltLeafAndFail(r, a, ab, abc, b, n);
      }
    }

    lemma BuiltShape(r: TrieNode, a: TrieNode, ab: TrieNode, abc: TrieNode, b: TrieNode)
      requires Built(r, a, ab, abc, b)
      ensures ValidShape() && Paths() == AbcAndBPaths()
    {
      assert Paths() == AbcAndBPaths();
      AbcAndBClosed();
    }

    lemma BuiltLinks(r: TrieNode, a: TrieNode, ab: TrieNode, abc: TrieNode, b: TrieNode, n: TrieNode)
      requires Built(r, a, ab, abc, b) && n in spell && ValidShape() && Paths() == AbcAndBPaths()
      ensures ValidLinks(n)
    {
      forall c: byte | spell[n] + [c] in at ensures at[spell[n] + [c]] in kids[n] {
        AbcAndBEdges(c);
      }
    }

    lemma BuiltLeafAndFail(r: TrieNode, a: TrieNode, ab: TrieNode, abc: TrieNode, b: TrieNode, n: TrieNode)
      requires Built(r, a, ab, abc, b) && n in spell && ValidShape() && Paths() == AbcAndBPaths()
      ensures ValidLeafAndFail(n)
    {
      AbcAndBFails();
    }

    /** The edge labelled `c`, or the root itself at the root, or NULL. */
    method Goto(node: TrieNode, c: byte) returns (r: TrieNode?)
      requires Valid() && node in spell
      ensures spell[node] + [c] in Paths() ==> r != null && r in spell && spell[r] == spell[node] + [c]
      ensures spell[node] + [c] !in Paths() ==> r == if node == root then root else null
    {
      assert ValidLinks(node);
      ghost var k, i := kids[node], 0;
      var next := node.links;
      while next != null
        invariant 0 <= i <= |k|
        invariant next == if i < |k| then k[i] else null
        invariant forall j :: 0 <= j < i ==> k[j].c != c
        decreases |k| - i
      {
        if next.c == c {
          return next;
        }
        next := next.next;
        i := i + 1;
      }
      EdgeIsAChild(node, c);
      if root == node {
        return root;
      }
      return null;
    }

    /** One level of trie_search: the child labelled `p`, or NULL. */
    method Descend(node: TrieNode, p: byte) returns (r: TrieNode?)
      requires Valid() && node in spell
      ensures r != null <==> spell[node] + [p] in Paths()
      ensures r != null ==> r in spell && spell[r] == spell[node] + [p]
    {
      assert ValidLinks(node);
      EdgeIsAChild(node, p);
      ghost var k, i := kids[node], 0;
      r := node.links;
      if r == null {
        return;
      }
      while p != r.c
        invariant 0 <= i < |k| && r == k[i]
        invariant forall j :: 0 <= j < i ==> k[j].c != p
        decreases |k| - i
      {
        r := r.next;
        i := i + 1;
        if r == null {
          return;
        }
      }
    }

    /** One round of trie_search: without a child the key is not a path, let alone a word. */
    method DescendAlong(node: TrieNode, key: Path, n: nat) returns (r: TrieNode?)
      requires Valid() && node in spell && n < |key| && spell[node] == key[..n]
      ensures r == null ==> key !in words
      ensures r != null ==> r in spell && spell[r] == key[..n + 1]
    {
      r := Descend(node, key[n]);
      assert key[..n + 1] == key[..n] + [key[n]];
      PrefixIsPath(Paths(), key, n + 1);
    }

    /** Whether `key` is a stored word. The source asks its callers for a nonzero length; on the
        empty key the answer is FALSE. */
    method Search(key: Path) returns (found: bool)
      requires Valid()
      ensures found <==> key != [] && key in words
    {
      var node := root;
      var n := 0;
      while n < |key|
        invariant 0 <= n <= |key|
        invariant node in spell && spell[node] == key[..n]
      {
        var next := DescendAlong(node, key, n);
        if next == null {
          return false;
        }
        node := next;
        n := n + 1;
      }
      assert key[..n] == key;
      assert ValidLeafAndFail(node);
      return node.leaf > 0;
    }

    lemma EdgeIsAChild(node: TrieNode, c: byte)
      requires ValidShape() && node in spell && ValidLinks(node)
      ensures spell[node] + [c] in Paths() ==>
                exists j :: 0 <= j < |kids[node]| && kids[node][j].c == c
    {
      var p := spell[node] + [c];
      if p in Paths() {
        var j :| 0 <= j < |kids[node]| && kids[node][j] == at[p];
        assert p[|spell[node]|] == c;
      }
    }
  }

  lemma {:induction false} PrefixIsPath(paths: set<Path>, p: Path, n: nat)
    requires PrefixClosed(paths) && n <= |p|
    ensures p in paths ==> p[..n] in paths
  {
    if n == |p| {
      assert p[..n] == p;
    } else {
      PrefixIsPath(paths, Init(p), n);
      assert Init(p)[..n] == p[..n];
    }
  }

  /** AC_TRIE_STATE, with the text read since ac_trie_init and the failure links followed for it. */
  class AcState {
    const trie: Trie
    var node: TrieNode?
    ghost var read: Path
    ghost var fails: nat

    /** The node spells the longest suffix of the text that is a path, and the depth pays for
        the failure links still to come. */
    ghost predicate Valid()
      reads this, trie
    {
      && [] in trie.Paths()
      && node != null && node in trie.spell
      && trie.spell[node] == Longest(trie.Paths(), read)
      && fails + |trie.spell[node]| <= |read|
    }

    /** ac_trie_init: start at the root. */
    constructor (trie: Trie)
      requires trie.Valid()
      ensures trie.Valid() && Valid() && this.trie == trie && read == [] && fails == 0
    {
      this.trie := trie;
      node := trie.root;
      read, fails := [], 0;
    }

    /** ac_trie_next. Over any text the state is the longest suffix that is a path, the answer
        is the length of that path if it is a stored word and 0 otherwise, and no more failure
        links have been followed than characters read. */
    method Next(c: byte) returns (len: nat)
      requires trie.Valid() && Valid()
      modifies this
      ensures trie.Valid() && Valid() && read == old(read) + [c]
      ensures trie.spell[node] == Longest(trie.Paths(), read)
      ensures len == Leaf(trie.words, trie.spell[node])
      ensures fails <= |read|
      ensures fails == old(fails) + FailSteps(trie.Paths(), old(trie.spell[node]), c)
    {
      OneMore(trie.Paths(), read, c);
      ghost var steps;
      len, steps := Advance(c);
      read, fails := read + [c], fails + steps;
    }

    /** The loop of ac_trie_next; `steps` counts the failure links it follows. */
    method Advance(c: byte) returns (len: nat, ghost steps: nat)
      requires trie.Valid() && node != null && node in trie.spell
      modifies this`node
      ensures trie.Valid() && node != null && node in trie.spell
      ensures trie.spell[node] == Delta(trie.Paths(), old(trie.spell[node]), c)
      ensures steps == FailSteps(trie.Paths(), old(trie.spell[node]), c)
      ensures len == Leaf(trie.words, trie.spell[node])
    {
      ghost var paths, start := trie.Paths(), trie.spell[node];
      var cur: TrieNode := node;
      steps := 0;
      node := trie.Goto(cur, c);
      while node == null
        invariant trie.Valid() && cur in trie.spell
        invariant Delta(paths, start, c) == Delta(paths, trie.spell[cur], c)
        invariant FailSteps(paths, start, c) == steps + FailSteps(paths, trie.spell[cur], c)
        invariant if trie.spell[cur] + [c] in paths
                  then node != null && node in trie.spell && trie.spell[node] == trie.spell[cur] + [c]
                  else node == if cur == trie.root then trie.root else null
        decreases |trie.spell[cur]|
      {
        assert trie.ValidLeafAndFail(cur);
        cur := cur.fail;
        steps := steps + 1;
        node := trie.Goto(cur, c);
      }
      assert trie.ValidLeafAndFail(node);
      len := node.leaf;
    }
  }
}
