/**
  Class selection: the class declaration nodes among the descendants of a
  file's root, in depth-first pre-order, as
  `root.DescendantNodes().OfType<ClassDeclarationSyntax>()` yields them.
 */
module ClassSelection {
  import opened SyntaxTree

  /** The class nodes of the subtree `n`, `n` itself included, in pre-order. */
  function TreeClasses(n: Node): seq<Node>
    decreases n, 1
  {
    match n
    case Token(_, _, _) => []
    case Class(children) => [n] + ForestClasses(children)
    case Other(children) => ForestClasses(children)
  }

  /** The class nodes of the trees `ns`, tree after tree. */
  function ForestClasses(ns: seq<Node>): seq<Node>
    decreases ns, 0
  {
    if ns == [] then [] else TreeClasses(ns[0]) + ForestClasses(ns[1..])
  }

  /** The class declarations below `root`; `root` itself is not a descendant. */
  function SelectClasses(root: Node): seq<Node>
  {
    match root
    case Token(_, _, _) => []
    case Class(children) => ForestClasses(children)
    case Other(children) => ForestClasses(children)
  }

  /** The nodes of the subtree `n` in depth-first pre-order: the node
      itself, then its children's subtrees left to right. Tokens are not
      nodes. */
  function TreeNodes(n: Node): seq<Node>
    decreases n, 1
  {
    match n
    case Token(_, _, _) => []
    case Class(children) => [n] + ForestNodes(children)
    case Other(children) => [n] + ForestNodes(children)
  }

  /** The nodes of the trees `ns`, tree after tree. */
  function ForestNodes(ns: seq<Node>): seq<Node>
    decreases ns, 0
  {
    if ns == [] then [] else TreeNodes(ns[0]) + ForestNodes(ns[1..])
  }

  /** `DescendantNodes()`: every node below `root`, in pre-order. */
  function DescendantNodes(root: Node): seq<Node>
  {
    match root
    case Token(_, _, _) => []
    case Class(children) => ForestNodes(children)
    case Other(children) => ForestNodes(children)
  }

  /** `OfType<ClassDeclarationSyntax>()`: the class nodes of `ns`, in order. */
  function OfTypeClass(ns: seq<Node>): seq<Node>
    decreases |ns|
  {
    if ns == [] then [] else (if ns[0].Class? then [ns[0]] else []) + OfTypeClass(ns[1..])
  }

  lemma {:induction false} OfTypeClassAppend(a: seq<Node>, b: seq<Node>)
    ensures OfTypeClass(a + b) == OfTypeClass(a) + OfTypeClass(b)
    decreases |a|
  {
    if a != [] {
      assert (a + b)[0] == a[0];
      assert (a + b)[1..] == a[1..] + b;
      OfTypeClassAppend(a[1..], b);
    } else {
      assert a + b == b;
    }
  }

  lemma {:induction false} TreeClassesAreClassNodes(n: Node)
    ensures TreeClasses(n) == OfTypeClass(TreeNodes(n))
    decreases n, 1
  {
    match n
    case Token(_, _, _) =>
    case Class(children) =>
      ForestClassesAreClassNodes(children);
      OfTypeClassAppend([n], ForestNodes(children));
      assert ([n] + ForestNodes(children))[0] == n;
      assert OfTypeClass([n]) == [n] by { assert [n][1..] == []; }
    case Other(children) =>
      ForestClassesAreClassNodes(children);
      OfTypeClassAppend([n], ForestNodes(children));
      assert OfTypeClass([n]) == [] by { assert [n][1..] == []; }
  }

  lemma {:induction false} ForestClassesAreClassNodes(ns: seq<Node>)
    ensures ForestClasses(ns) == OfTypeClass(ForestNodes(ns))
    decreases ns, 0
  {
    if ns != [] {
      TreeClassesAreClassNodes(ns[0]);
      ForestClassesAreClassNodes(ns[1..]);
      OfTypeClassAppend(TreeNodes(ns[0]), ForestNodes(ns[1..]));
    }
  }

  /** Selection is the composition the program performs: the descendant
      nodes in pre-order, filtered to class declarations. This fixes the
      order of the classes and that each class is listed exactly once. */
  lemma SelectClassesIsOfTypeClass(root: Node)
    ensures SelectClasses(root) == OfTypeClass(DescendantNodes(root))
  {
    match root
    case Token(_, _, _) =>
    case Class(children) =>
      ForestClassesAreClassNodes(children);
    case Other(children) =>
      ForestClassesAreClassNodes(children);
  }

  lemma {:induction false} TreeClassesExactly(n: Node, c: Node)
    ensures c in TreeClasses(n) <==> c.Class? && (c == n || IsDescendant(c, n))
    decreases n, 1
  {
    match n
    case Token(_, _, _) =>
    case Class(children) =>
      ForestClassesExactly(children, c);
    case Other(children) =>
      ForestClassesExactly(children, c);
  }

  lemma {:induction false} ForestClassesExactly(ns: seq<Node>, c: Node)
    ensures c in ForestClasses(ns) <==> c.Class? && InForest(c, ns)
    decreases ns, 0
  {
    if ns != [] {
      TreeClassesExactly(ns[0], c);
      ForestClassesExactly(ns[1..], c);
      if InForest(c, ns) {
        var i :| 0 <= i < |ns| && (ns[i] == c || IsDescendant(c, ns[i]));
        if i > 0 {
          assert ns[1..][i - 1] == ns[i];
          assert InForest(c, ns[1..]);
        }
      }
      if InForest(c, ns[1..]) {
        var i :| 0 <= i < |ns[1..]| && (ns[1..][i] == c || IsDescendant(c, ns[1..][i]));
        assert ns[i + 1] == ns[1..][i];
      }
    }
  }

  /** Selection yields a node exactly when it is a class declaration
      somewhere below the root, nested ones included. */
  lemma SelectClassesExactly(root: Node, c: Node)
    ensures c in SelectClasses(root) <==> c.Class? && IsDescendant(c, root)
  {
    match root
    case Token(_, _, _) =>
    case Class(children) =>
      ForestClassesExactly(children, c);
    case Other(children) =>
      ForestClassesExactly(children, c);
  }

  /** Pre-order within one tree: every class is immediately followed by the
      classes nested inside it. */
  lemma {:induction false} TreeClassesPreOrder(n: Node, i: nat)
    requires i < |TreeClasses(n)|
    ensures i + 1 + |SelectClasses(TreeClasses(n)[i])| <= |TreeClasses(n)|
    ensures TreeClasses(n)[i + 1 .. i + 1 + |SelectClasses(TreeClasses(n)[i])|]
         == SelectClasses(TreeClasses(n)[i])
    decreases n, 1
  {
    match n
    case Token(_, _, _) =>
    case Class(children) =>
      var r := TreeClasses(n);
      assert r == [n] + ForestClasses(children);
      if i == 0 {
        assert r[0] == n;
        assert r[1..] == ForestClasses(children);
      } else {
        ForestClassesPreOrder(children, i - 1);
        assert r[i] == ForestClasses(children)[i - 1];
        assert r[1..] == ForestClasses(children);
      }
    case Other(children) =>
      ForestClassesPreOrder(children, i);
  }

  lemma {:induction false} ForestClassesPreOrder(ns: seq<Node>, i: nat)
    requires i < |ForestClasses(ns)|
    ensures i + 1 + |SelectClasses(ForestClasses(ns)[i])| <= |ForestClasses(ns)|
    ensures ForestClasses(ns)[i + 1 .. i + 1 + |SelectClasses(ForestClasses(ns)[i])|]
         == SelectClasses(ForestClasses(ns)[i])
    decreases ns, 0
  {
    var head := TreeClasses(ns[0]);
    var tail := ForestClasses(ns[1..]);
    var r := ForestClasses(ns);
    assert r == head + tail;
    if i < |head| {
      TreeClassesPreOrder(ns[0], i);
      assert r[i] == head[i];
      var k := |SelectClasses(head[i])|;
      assert r[i + 1 .. i + 1 + k] == head[i + 1 .. i + 1 + k];
    } else {
      ForestClassesPreOrder(ns[1..], i - |head|);
      assert r[i] == tail[i - |head|];
      var k := |SelectClasses(tail[i - |head|])|;
      assert r[i + 1 .. i + 1 + k] == tail[i - |head| + 1 .. i - |head| + 1 + k];
    }
  }

  /** Pre-order over a whole file: an outer class comes first and the classes
      nested in it follow it directly, as one contiguous block. */
  lemma SelectClassesPreOrder(root: Node, i: nat)
    requires i < |SelectClasses(root)|
    ensures i + 1 + |SelectClasses(SelectClasses(root)[i])| <= |SelectClasses(root)|
    ensures SelectClasses(root)[i + 1 .. i + 1 + |SelectClasses(SelectClasses(root)[i])|]
         == SelectClasses(SelectClasses(root)[i])
  {
    match root
    case Token(_, _, _) =>
    case Class(children) =>
      ForestClassesPreOrder(children, i);
    case Other(children) =>
      ForestClassesPreOrder(children, i);
  }
}
