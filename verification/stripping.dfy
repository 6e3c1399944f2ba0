/**
  Comment stripping: every single-line or multi-line comment trivia of a
  subtree is replaced, in place, by an empty disabled-text trivia; nothing
  else changes. This is the effect of `RemoveCommentsFromClass`, written as a
  tree map that builds a new tree.
 */
module CommentStripping {
  import opened SyntaxTree

  /** The trivia the stripper puts where a comment was. */
  const EmptyMarker: Trivia := Trivia(DisabledText, "")

  function StripTrivia(t: Trivia): Trivia
  {
    if IsComment(t.kind) then EmptyMarker else t
  }

  /** Stripping a trivia list leaves a list of the same length with no
      comment in it, every other trivia kept in its place. */
  function StripTriviaList(ts: seq<Trivia>): (r: seq<Trivia>)
    ensures |r| == |ts|
    ensures CommentFree(r)
    ensures forall i :: 0 <= i < |ts| && !IsComment(ts[i].kind) ==> r[i] == ts[i]
  {
    seq(|ts|, i requires 0 <= i < |ts| => StripTrivia(ts[i]))
  }

  /** The comment-free copy of a subtree. */
  function RemoveComments(n: Node): Node
    decreases n, 1
  {
    match n
    case Token(text, leading, trailing) =>
      Token(text, StripTriviaList(leading), StripTriviaList(trailing))
    case Class(children) => Class(StripForest(children))
    case Other(children) => Other(StripForest(children))
  }

  function StripForest(ns: seq<Node>): (r: seq<Node>)
    ensures |r| == |ns|
    decreases ns, 0
  {
    if ns == [] then [] else [RemoveComments(ns[0])] + StripForest(ns[1..])
  }

  /** What one trivia item of the result must be, given the original item. */
  predicate TriviaReplaced(t: Trivia, u: Trivia) {
    if IsComment(t.kind) then u == EmptyMarker else u == t
  }

  predicate TriviaListReplaced(ts: seq<Trivia>, us: seq<Trivia>) {
    |ts| == |us| && forall i :: 0 <= i < |ts| ==> TriviaReplaced(ts[i], us[i])
  }

  /** `m` has the shape of `n`: the same node kinds, the same children
      counts, the same tokens with the same trivia counts, every comment of
      `n` replaced by the empty marker and every other trivia kept. */
  predicate Replaced(n: Node, m: Node)
    decreases n, 1
  {
    match n
    case Token(text, leading, trailing) =>
      && m.Token?
      && m.text == text
      && TriviaListReplaced(leading, m.leading)
      && TriviaListReplaced(trailing, m.trailing)
    case Class(children) => m.Class? && ForestReplaced(children, m.children)
    case Other(children) => m.Other? && ForestReplaced(children, m.children)
  }

  predicate ForestReplaced(ns: seq<Node>, ms: seq<Node>)
    decreases ns, 0
  {
    |ns| == |ms| && forall i :: 0 <= i < |ns| ==> Replaced(ns[i], ms[i])
  }

  lemma {:induction false} RemoveCommentsReplaces(n: Node)
    ensures Replaced(n, RemoveComments(n))
    decreases n, 1
  {
    match n
    case Token(_, _, _) =>
    case Class(children) => StripForestReplaces(children);
    case Other(children) => StripForestReplaces(children);
  }

  lemma {:induction false} StripForestReplaces(ns: seq<Node>)
    ensures ForestReplaced(ns, StripForest(ns))
    decreases ns, 0
  {
    if ns != [] {
      RemoveCommentsReplaces(ns[0]);
      StripForestReplaces(ns[1..]);
      var r := StripForest(ns);
      forall i | 0 <= i < |ns|
        ensures Replaced(ns[i], r[i])
      {
        if i > 0 {
          assert r[i] == StripForest(ns[1..])[i - 1];
          assert ns[i] == ns[1..][i - 1];
        }
      }
    }
  }

  lemma {:induction false} ReplacedIsRemoveComments(n: Node, m: Node)
    requires Replaced(n, m)
    ensures m == RemoveComments(n)
    decreases n, 1
  {
    match n
    case Token(_, leading, trailing) =>
      assert m.leading == StripTriviaList(leading);
      assert m.trailing == StripTriviaList(trailing);
    case Class(children) => ForestReplacedIsStripForest(children, m.children);
    case Other(children) => ForestReplacedIsStripForest(children, m.children);
  }

  lemma {:induction false} ForestReplacedIsStripForest(ns: seq<Node>, ms: seq<Node>)
    requires ForestReplaced(ns, ms)
    ensures ms == StripForest(ns)
    decreases ns, 0
  {
    if ns != [] {
      ReplacedIsRemoveComments(ns[0], ms[0]);
      assert ForestReplaced(ns[1..], ms[1..]) by {
        forall i | 0 <= i < |ns[1..]|
          ensures Replaced(ns[1..][i], ms[1..][i])
        {
          assert Replaced(ns[i + 1], ms[i + 1]);
        }
      }
      ForestReplacedIsStripForest(ns[1..], ms[1..]);
      assert ms == [ms[0]] + ms[1..];
    }
  }

  /** Stripping is characterised by the shape relation: its result is the
      one and only tree that keeps the shape of `n` and replaces exactly the
      comments by the empty marker. */
  lemma RemoveCommentsCharacterised(n: Node, m: Node)
    ensures m == RemoveComments(n) <==> Replaced(n, m)
  {
    RemoveCommentsReplaces(n);
    if Replaced(n, m) {
      ReplacedIsRemoveComments(n, m);
    }
  }

  lemma StripTriviaListAppend(a: seq<Trivia>, b: seq<Trivia>)
    ensures StripTriviaList(a + b) == StripTriviaList(a) + StripTriviaList(b)
  {
  }

  lemma {:induction false} TriviaOfRemoveComments(n: Node)
    ensures AllTrivia(RemoveComments(n)) == StripTriviaList(AllTrivia(n))
    decreases n, 1
  {
    match n
    case Token(_, leading, trailing) =>
      StripTriviaListAppend(leading, trailing);
    case Class(children) => TriviaOfStripForest(children);
    case Other(children) => TriviaOfStripForest(children);
  }

  lemma {:induction false} TriviaOfStripForest(ns: seq<Node>)
    ensures ForestTrivia(StripForest(ns)) == StripTriviaList(ForestTrivia(ns))
    decreases ns, 0
  {
    if ns != [] {
      var r := StripForest(ns);
      assert r[0] == RemoveComments(ns[0]) && r[1..] == StripForest(ns[1..]);
      TriviaOfRemoveComments(ns[0]);
      TriviaOfStripForest(ns[1..]);
      StripTriviaListAppend(AllTrivia(ns[0]), ForestTrivia(ns[1..]));
    }
  }

  /** The trivia of the stripped tree, read in document order, are those of
      the original one for one: a comment became the empty marker, every
      other item (documentation comments included) is the same. */
  lemma RemoveCommentsTrivia(n: Node)
    ensures |AllTrivia(RemoveComments(n))| == |AllTrivia(n)|
    ensures forall i :: 0 <= i < |AllTrivia(n)| ==>
      if IsComment(AllTrivia(n)[i].kind)
      then AllTrivia(RemoveComments(n))[i] == EmptyMarker
      else AllTrivia(RemoveComments(n))[i] == AllTrivia(n)[i]
  {
    TriviaOfRemoveComments(n);
  }

  /** No comment trivia is left anywhere in the stripped subtree. */
  lemma RemoveCommentsLeavesNoComments(n: Node)
    ensures NoComments(RemoveComments(n))
  {
    TriviaOfRemoveComments(n);
  }

  /** A subtree is left as it is exactly when it holds no comment. */
  lemma RemoveCommentsFixedPoints(n: Node)
    ensures RemoveComments(n) == n <==> NoComments(n)
  {
    TriviaOfRemoveComments(n);
    if NoComments(n) {
      CommentFreeUnchanged(n);
    }
    if RemoveComments(n) == n {
      var ts := AllTrivia(n);
      forall i | 0 <= i < |ts|
        ensures !IsComment(ts[i].kind)
      {
        assert StripTriviaList(ts)[i] == ts[i];
      }
    }
  }

  lemma {:induction false} CommentFreeUnchanged(n: Node)
    requires NoComments(n)
    ensures RemoveComments(n) == n
    decreases n, 1
  {
    match n
    case Token(_, leading, trailing) =>
      CommentFreeAppend(leading, trailing);
      assert StripTriviaList(leading) == leading;
      assert StripTriviaList(trailing) == trailing;
    case Class(children) => CommentFreeForestUnchanged(children);
    case Other(children) => CommentFreeForestUnchanged(children);
  }

  lemma {:induction false} CommentFreeForestUnchanged(ns: seq<Node>)
    requires CommentFree(ForestTrivia(ns))
    ensures StripForest(ns) == ns
    decreases ns, 0
  {
    if ns != [] {
      CommentFreeAppend(AllTrivia(ns[0]), ForestTrivia(ns[1..]));
      CommentFreeUnchanged(ns[0]);
      CommentFreeForestUnchanged(ns[1..]);
      assert ns == [ns[0]] + ns[1..];
    }
  }

  /** Stripping twice is stripping once: the marker is not a comment. */
  lemma RemoveCommentsIdempotent(n: Node)
    ensures RemoveComments(RemoveComments(n)) == RemoveComments(n)
  {
    RemoveCommentsLeavesNoComments(n);
    RemoveCommentsFixedPoints(RemoveComments(n));
  }
}
