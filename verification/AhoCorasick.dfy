/**
 The value-level theory of the automaton in libmysql/include/my_trie.h. A trie is a set of
 paths (byte strings spelled from the root), closed under prefixes; some paths are words.
 */
module AhoCorasick {
  import opened Wrappers

  type Path = seq<byte>

  function Init(p: Path): Path
    requires p != []
  {
    p[..|p| - 1]
  }

  predicate IsSuffix(v: Path, t: Path) {
    |v| <= |t| && v == t[|t| - |v|..]
  }

  ghost predicate PrefixClosed(paths: set<Path>) {
    && [] in paths
    && forall p {:trigger Init(p)} :: p in paths && p != [] ==> Init(p) in paths
  }

  /** The longest suffix of `t` that is a path. */
  function Longest(paths: set<Path>, t: Path): (p: Path)
    requires [] in paths
    ensures p in paths && IsSuffix(p, t)
  {
    if t in paths then t else Longest(paths, t[1..])
  }

  /** Every suffix that is a path is a suffix of the longest one. */
  lemma {:induction false} LongestIsMaximal(paths: set<Path>, t: Path, v: Path)
    requires [] in paths && v in paths && IsSuffix(v, t)
    ensures |v| <= |Longest(paths, t)| && IsSuffix(v, Longest(paths, t))
  {
    if t !in paths {
      LongestIsMaximal(paths, t[1..], v);
    }
  }

  /** The failure function: the longest proper suffix that is a path. */
  function Fail(paths: set<Path>, w: Path): Path
    requires [] in paths && w != []
  {
    Longest(paths, w[1..])
  }

  /** One automaton step as the code takes it: follow failure links until an edge exists. */
  function Delta(paths: set<Path>, w: Path, c: byte): Path
    requires [] in paths
    decreases |w|
  {
    if w + [c] in paths then w + [c]
    else if w == [] then []
    else Delta(paths, Fail(paths, w), c)
  }

  /** The number of failure links that step follows. */
  function FailSteps(paths: set<Path>, w: Path, c: byte): nat
    requires [] in paths
    decreases |w|
  {
    if w + [c] in paths || w == [] then 0
    else 1 + FailSteps(paths, Fail(paths, w), c)
  }

  /** The state after a text, from the root. */
  function State(paths: set<Path>, text: Path): Path
    requires [] in paths
  {
    if text == [] then [] else Delta(paths, State(paths, Init(text)), text[|text| - 1])
  }

  /** All failure links followed over a text, from the root. */
  function TotalFailSteps(paths: set<Path>, text: Path): nat
    requires [] in paths
  {
    if text == [] then 0
    else TotalFailSteps(paths, Init(text)) + FailSteps(paths, State(paths, Init(text)), text[|text| - 1])
  }

  /** The `leaf` field: depth of a word, 0 elsewhere. */
  function Leaf(words: set<Path>, w: Path): nat {
    if w in words then |w| else 0
  }

  /** The last `n` characters of the text are a stored word. */
  ghost predicate EndsInWord(words: set<Path>, text: Path, n: nat) {
    exists w :: w in words && |w| == n && IsSuffix(w, text)
  }

  // ----- correctness of the automaton

  /** Forgetting everything but the longest path before reading on loses nothing. */
  lemma {:induction false} LongestThenRead(paths: set<Path>, t: Path, c: byte)
    requires PrefixClosed(paths)
    ensures Longest(paths, Longest(paths, t) + [c]) == Longest(paths, t + [c])
  {
    if t !in paths {
      assert t + [c] !in paths by {
        assert Init(t + [c]) == t;
      }
      assert (t + [c])[1..] == t[1..] + [c];
      LongestThenRead(paths, t[1..], c);
    }
  }

  /** Following failure links finds the longest path that the new character completes. */
  lemma {:induction false} DeltaIsLongest(paths: set<Path>, w: Path, c: byte)
    requires PrefixClosed(paths) && w in paths
    ensures Delta(paths, w, c) == Longest(paths, w + [c])
    decreases |w|
  {
    if w + [c] !in paths && w != [] {
      assert (w + [c])[1..] == w[1..] + [c];
      LongestThenRead(paths, w[1..], c);
      DeltaIsLongest(paths, Fail(paths, w), c);
    }
  }

  lemma StepIsLongest(paths: set<Path>, t: Path, c: byte)
    requires PrefixClosed(paths)
    ensures Delta(paths, Longest(paths, t), c) == Longest(paths, t + [c])
  {
    LongestThenRead(paths, t, c);
    DeltaIsLongest(paths, Longest(paths, t), c);
  }

  /** After any text the automaton stands on the longest suffix of it that is a path. */
  lemma {:induction false} StateIsLongestSuffix(paths: set<Path>, text: Path)
    requires PrefixClosed(paths)
    ensures State(paths, text) == Longest(paths, text)
  {
    if text != [] {
      var t, c := Init(text), text[|text| - 1];
      assert text == t + [c];
      StateIsLongestSuffix(paths, t);
      calc {
        State(paths, text);
        Delta(paths, State(paths, t), c);
        Delta(paths, Longest(paths, t), c);
        { StepIsLongest(paths, t, c); }
        Longest(paths, t + [c]);
        Longest(paths, text);
      }
    }
  }

  /** A nonzero answer n says that the last n characters read are a stored word, and that no longer
      stored word ends there. */
  lemma ReportIsAWord(paths: set<Path>, words: set<Path>, text: Path)
    requires PrefixClosed(paths) && words <= paths
    ensures var n := Leaf(words, State(paths, text));
            n != 0 ==> EndsInWord(words, text, n) && forall m: nat :: EndsInWord(words, text, m) ==> m <= n
  {
    StateIsLongestSuffix(paths, text);
    forall m: nat | EndsInWord(words, text, m) ensures m <= |Longest(paths, text)| {
      var w :| w in words && |w| == m && IsSuffix(w, text);
      LongestIsMaximal(paths, text, w);
    }
  }

  // ----- cost

  /** Each failure link costs at least one unit of depth, and a character earns at most one. */
  lemma {:induction false} FailStepsPaidByDepth(paths: set<Path>, w: Path, c: byte)
    requires [] in paths
    ensures FailSteps(paths, w, c) + |Delta(paths, w, c)| <= |w| + 1
    decreases |w|
  {
    if w + [c] !in paths && w != [] {
      FailStepsPaidByDepth(paths, Fail(paths, w), c);
    }
  }

  /** Over a text of n characters at most n failure links are followed in all. */
  lemma {:induction false} TotalFailStepsLinear(paths: set<Path>, text: Path)
    requires [] in paths
    ensures TotalFailSteps(paths, text) + |State(paths, text)| <= |text|
  {
    if text != [] {
      TotalFailStepsLinear(paths, Init(text));
      FailStepsPaidByDepth(paths, State(paths, Init(text)), text[|text| - 1]);
    }
  }

  /** What one more character does to a text read so far. */
  lemma OneMore(paths: set<Path>, text: Path, c: byte)
    requires PrefixClosed(paths)
    ensures var w := Longest(paths, text);
            var w' := Delta(paths, w, c);
            && w' == Longest(paths, text + [c])
            && FailSteps(paths, w, c) + |w'| <= |w| + 1
  {
    StepIsLongest(paths, text, c);
    FailStepsPaidByDepth(paths, Longest(paths, text), c);
  }

  /** The links of one more character come on top. */
  lemma OneMoreTotal(paths: set<Path>, text: Path, c: byte)
    requires PrefixClosed(paths)
    ensures TotalFailSteps(paths, text + [c]) ==
            TotalFailSteps(paths, text) + FailSteps(paths, Longest(paths, text), c)
  {
    assert Init(text + [c]) == text;
    StateIsLongestSuffix(paths, text);
  }

  // ----- lookup and the automaton agree

  /** Fed a path from the root, the automaton spells that path. */
  lemma PathLeadsToItself(paths: set<Path>, p: Path)
    requires PrefixClosed(paths) && p in paths
    ensures State(paths, p) == p
  {
    StateIsLongestSuffix(paths, p);
  }

  /** Fed a stored word from the root, the automaton answers its length at the last character. */
  lemma WordIsReported(paths: set<Path>, words: set<Path>, w: Path)
    requires PrefixClosed(paths) && words <= paths && w in words
    ensures Leaf(words, State(paths, w)) == Leaf(words, Longest(paths, w)) == |w|
  {
    PathLeadsToItself(paths, w);
  }

  // ----- when is no match lost?

  ghost predicate WordEndsHere(words: set<Path>, t: Path) {
    exists n: nat :: n != 0 && EndsInWord(words, t, n)
  }

  /** Over every text, the automaton answers nonzero wherever a stored word ends. */
  ghost predicate ReportsEveryEnd(paths: set<Path>, words: set<Path>)
    requires [] in paths
  {
    forall text: Path :: WordEndsHere(words, text) ==> Leaf(words, State(paths, text)) != 0
  }

  /** Every path that ends in a stored word is itself a stored word. */
  ghost predicate SuffixComplete(paths: set<Path>, words: set<Path>) {
    forall p :: p in paths && WordEndsHere(words, p) ==> p in words
  }

  /**
   ac_trie_next looks at the leaf of one node only and does not follow failure links for
   shorter words, so matches can be lost. None is lost exactly for suffix-complete word sets.
   */
  lemma ReportsEveryEndIff(paths: set<Path>, words: set<Path>)
    requires PrefixClosed(paths) && words <= paths
    ensures ReportsEveryEnd(paths, words) <==> SuffixComplete(paths, words)
  {
    if ReportsEveryEnd(paths, words) {
      forall p | p in paths && WordEndsHere(words, p)
        ensures p in words
      {
        PathLeadsToItself(paths, p);
      }
    }
    if SuffixComplete(paths, words) {
      forall text: Path | WordEndsHere(words, text)
        ensures Leaf(words, State(paths, text)) != 0
      {
        var n: nat :| n != 0 && EndsInWord(words, text, n);
        var w :| w in words && |w| == n && IsSuffix(w, text);
        StateIsLongestSuffix(paths, text);
        LongestIsMaximal(paths, text, w);
        assert EndsInWord(words, State(paths, text), n);
      }
    }
  }

  // ----- the words "abc" and "b"

  const A: byte := 97
  const B: byte := 98
  const C: byte := 99

  function AbcAndB(): set<Path> { {[A, B, C], [B]} }

  function AbcAndBPaths(): set<Path> { {[], [A], [A, B], [A, B, C], [B]} }

  lemma AbcAndBClosed()
    ensures PrefixClosed(AbcAndBPaths()) && AbcAndB() <= AbcAndBPaths()
  {
    forall p | p in AbcAndBPaths() && p != [] ensures Init(p) in AbcAndBPaths() {
      assert Init([A, B, C]) == [A, B] && Init([A, B]) == [A] && Init([A]) == [] && Init([B]) == [];
    }
  }

  /** A lost match: with the words "abc" and "b", reading "ab" answers 0 although "b" just ended. */
  lemma LostMatch()
    ensures PrefixClosed(AbcAndBPaths()) && AbcAndB() <= AbcAndBPaths()
    ensures WordEndsHere(AbcAndB(), [A, B]) && Leaf(AbcAndB(), State(AbcAndBPaths(), [A, B])) == 0
  {
    var text: Path := [A, B];
    AbcAndBClosed();
    assert IsSuffix([B], text) && EndsInWord(AbcAndB(), text, 1);
    PathLeadsToItself(AbcAndBPaths(), text);
    assert |text| == 2;
  }

  lemma AbcAndBFails()
    ensures var paths := AbcAndBPaths();
      && Fail(paths, [A]) == [] && Fail(paths, [B]) == []
      && Fail(paths, [A, B]) == [B] && Fail(paths, [A, B, C]) == []
  {
    var paths := AbcAndBPaths();
    assert [A][1..] == [] && [B][1..] == [] && [A, B][1..] == [B];
    assert [A, B, C][1..] == [B, C] && [B, C][1..] == [C] && [C][1..] == [];
    assert [B, C] !in paths && [C] !in paths;
  }

  lemma AbcAndBEdges(c: byte)
    ensures var paths := AbcAndBPaths();
      && ([] + [c] in paths ==> c == A || c == B)
      && ([A] + [c] in paths ==> c == B)
      && ([A, B] + [c] in paths ==> c == C)
      && [A, B, C] + [c] !in paths
      && [B] + [c] !in paths
  {
    assert ([] + [c])[0] == c && ([A] + [c])[1] == c && ([A, B] + [c])[2] == c;
    assert ([B] + [c])[0] == B;
  }
}
