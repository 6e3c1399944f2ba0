/**
  The part of a C# syntax tree that the extractor looks at.

  A parsed file is a tree of nodes. Interior nodes are either class
  declarations or any other kind of node (the compilation unit, namespaces,
  structs, methods, ...); leaves are tokens, and every token carries the
  trivia that precedes it and the trivia that follows it. The parser itself
  is not part of this model: trees are given already built.
 */
module SyntaxTree {

  /** The trivia kinds the extractor distinguishes. */
  datatype TriviaKind =
    | SingleLineComment     // `// ...`
    | MultiLineComment      // `/* ... */`
    | DocumentationComment  // `/// ...` and `/** ... */`, a kind of its own in the parser
    | DisabledText          // text excluded by `#if`, and the empty marker the stripper inserts
    | Whitespace            // spaces, line ends, directives and every other kind

  datatype Trivia = Trivia(kind: TriviaKind, text: string)

  /** The two kinds the comment stripper removes. */
  predicate IsComment(k: TriviaKind) {
    k == SingleLineComment || k == MultiLineComment
  }

  datatype Node =
    | Class(children: seq<Node>)
    | Other(children: seq<Node>)
    | Token(text: string, leading: seq<Trivia>, trailing: seq<Trivia>)

  /** Every trivia item of a subtree, in document order. */
  function AllTrivia(n: Node): seq<Trivia>
    decreases n, 1
  {
    match n
    case Token(_, leading, trailing) => leading + trailing
    case Class(children) => ForestTrivia(children)
    case Other(children) => ForestTrivia(children)
  }

  function ForestTrivia(ns: seq<Node>): seq<Trivia>
    decreases ns, 0
  {
    if ns == [] then [] else AllTrivia(ns[0]) + ForestTrivia(ns[1..])
  }

  predicate CommentFree(ts: seq<Trivia>) {
    forall i :: 0 <= i < |ts| ==> !IsComment(ts[i].kind)
  }

  lemma CommentFreeAppend(a: seq<Trivia>, b: seq<Trivia>)
    ensures CommentFree(a + b) <==> CommentFree(a) && CommentFree(b)
  {
    if CommentFree(a + b) {
      assert forall i :: 0 <= i < |a| ==> (a + b)[i] == a[i];
      assert forall i :: 0 <= i < |b| ==> (a + b)[|a| + i] == b[i];
    }
  }

  /** No trivia anywhere in the subtree is a comment. */
  predicate NoComments(n: Node) {
    CommentFree(AllTrivia(n))
  }

  /** `d` is a proper descendant node of `n`: tokens are not nodes. */
  ghost predicate IsDescendant(d: Node, n: Node)
    decreases n, 1
  {
    match n
    case Token(_, _, _) => false
    case Class(children) => InForest(d, children)
    case Other(children) => InForest(d, children)
  }

  /** `d` is one of the trees `ns` or a proper descendant of one of them. */
  ghost predicate InForest(d: Node, ns: seq<Node>)
    decreases ns, 0
  {
    exists i :: 0 <= i < |ns| && (ns[i] == d || IsDescendant(d, ns[i]))
  }
}
