/**
  Per-folder aggregation: the text `ExtractEntities` builds for one folder
  from the files found in it.

  Files arrive already parsed, in the order the directory listing gave them.
  `render` stands for Roslyn's `NormalizeWhitespace().ToFullString()`, which is
  not part of this model: it is any function from a class subtree to text.
  So the model assumes a class's text depends on that subtree alone; Roslyn's
  indentation also depends on where an unrewritten node sits in its file.
  `newline` stands for `Environment.NewLine`,
  which `AppendLine` writes after every rendered class.

  Two variants exist: the command-line program strips comments from every
  class before rendering it, the service class renders the parsed class as
  it is.
 */
module Extraction {
  import opened SyntaxTree
  import opened ClassSelection
  import opened CommentStripping

  /** The service renders each class as parsed. */
  function AsParsed(c: Node): Node
  {
    c
  }

  /** One `AppendLine` per class of `cs`, in order: each class as `prepare`
      leaves it, rendered, then the newline. */
  function RenderedLines(cs: seq<Node>, prepare: Node -> Node, render: Node -> string, newline: string): string
    decreases |cs|
  {
    if cs == [] then ""
    else RenderedLines(cs[..|cs| - 1], prepare, render, newline)
         + render(prepare(cs[|cs| - 1])) + newline
  }

  /** The text accumulated over the files `files`, file after file. */
  function Aggregate(files: seq<Node>, prepare: Node -> Node, render: Node -> string, newline: string): string
    decreases |files|
  {
    if files == [] then ""
    else Aggregate(files[..|files| - 1], prepare, render, newline)
         + RenderedLines(SelectClasses(files[|files| - 1]), prepare, render, newline)
  }

  /** Every selected class of every file, files in order, each file's
      classes in pre-order. */
  function AllClasses(files: seq<Node>): seq<Node>
    decreases |files|
  {
    if files == [] then [] else AllClasses(files[..|files| - 1]) + SelectClasses(files[|files| - 1])
  }

  lemma RenderedLinesStep(cs: seq<Node>, j: nat, prepare: Node -> Node, render: Node -> string, newline: string)
    requires j < |cs|
    ensures RenderedLines(cs[..j + 1], prepare, render, newline)
         == RenderedLines(cs[..j], prepare, render, newline) + render(prepare(cs[j])) + newline
  {
    assert cs[..j + 1][..j] == cs[..j];
  }

  lemma AggregateStep(files: seq<Node>, i: nat, prepare: Node -> Node, render: Node -> string, newline: string)
    requires i < |files|
    ensures Aggregate(files[..i + 1], prepare, render, newline)
         == Aggregate(files[..i], prepare, render, newline)
            + RenderedLines(SelectClasses(files[i]), prepare, render, newline)
  {
    assert files[..i + 1][..i] == files[..i];
  }

  /** The inner `foreach` over one file's classes: one `AppendLine` each,
      of the class as `prepare` leaves it. */
  method AppendClasses(prefix: string, classes: seq<Node>, prepare: Node -> Node, render: Node -> string,
                       newline: string) returns (text: string)
    ensures text == prefix + RenderedLines(classes, prepare, render, newline)
  {
    text := prefix;
    for j := 0 to |classes|
      invariant text == prefix + RenderedLines(classes[..j], prepare, render, newline)
    {
      var line := render(prepare(classes[j])) + newline;
      RenderedLinesStep(classes, j, prepare, render, newline);
      ghost var done := RenderedLines(classes[..j], prepare, render, newline);
      assert (prefix + done) + line == prefix + (done + line);
      text := text + line;
    }
    assert classes[..|classes|] == classes;
  }

  /** `ExtractEntities` of the command-line program. */
  method ExtractEntities(files: seq<Node>, render: Node -> string, newline: string) returns (text: string)
    ensures text == Aggregate(files, RemoveComments, render, newline)
    ensures files == [] ==> text == ""
  {
    text := "";
    for i := 0 to |files|
      invariant text == Aggregate(files[..i], RemoveComments, render, newline)
    {
      AggregateStep(files, i, RemoveComments, render, newline);
      text := AppendClasses(text, SelectClasses(files[i]), RemoveComments, render, newline);
    }
    assert files[..|files|] == files;
  }

  /** `CodeExtractorService.ExtractEntities`: the same loop, rendering each
      class as parsed. */
  method ServiceExtractEntities(files: seq<Node>, render: Node -> string, newline: string) returns (text: string)
    ensures text == Aggregate(files, AsParsed, render, newline)
    ensures files == [] ==> text == ""
  {
    text := "";
    for i := 0 to |files|
      invariant text == Aggregate(files[..i], AsParsed, render, newline)
    {
      AggregateStep(files, i, AsParsed, render, newline);
      text := AppendClasses(text, SelectClasses(files[i]), AsParsed, render, newline);
    }
    assert files[..|files|] == files;
  }

  /** The texts of the items of `xs`, in order. `Aggregate` is an instance
      of it, and its laws are proved once, here. */
  function Concat<T>(xs: seq<T>, text: T -> string): string
    decreases |xs|
  {
    if xs == [] then "" else Concat(xs[..|xs| - 1], text) + text(xs[|xs| - 1])
  }

  /** What one file contributes: the lines of its selected classes. */
  function FileText(prepare: Node -> Node, render: Node -> string, newline: string): Node -> string
  {
    f => RenderedLines(SelectClasses(f), prepare, render, newline)
  }

  /** Aggregation is the concatenation of the files' texts. */
  lemma {:induction false} AggregateIsConcat(files: seq<Node>, prepare: Node -> Node, render: Node -> string,
                                             newline: string)
    ensures Aggregate(files, prepare, render, newline) == Concat(files, FileText(prepare, render, newline))
    decreases |files|
  {
    if files != [] {
      AggregateIsConcat(files[..|files| - 1], prepare, render, newline);
    }
  }

  /** Concatenation over two lists is the first list's text followed by the
      second's. */
  lemma {:induction false} ConcatAppend<T>(a: seq<T>, b: seq<T>, text: T -> string)
    ensures Concat(a + b, text) == Concat(a, text) + Concat(b, text)
    decreases |b|
  {
    if b == [] {
      assert a + b == a;
    } else {
      var b' := b[..|b| - 1];
      var last := b[|b| - 1];
      assert (a + b)[..|a + b| - 1] == a + b';
      assert (a + b)[|a + b| - 1] == last;
      ConcatAppend(a, b', text);
      var x := Concat(a, text);
      var y := Concat(b', text);
      assert (x + y) + text(last) == x + (y + text(last));
    }
  }

  /** Two item texts that agree on every item give the same concatenation. */
  lemma {:induction false} ConcatAgree<T>(xs: seq<T>, f: T -> string, g: T -> string)
    requires forall i :: 0 <= i < |xs| ==> f(xs[i]) == g(xs[i])
    ensures Concat(xs, f) == Concat(xs, g)
    decreases |xs|
  {
    if xs != [] {
      var init := xs[..|xs| - 1];
      assert forall i :: 0 <= i < |init| ==> init[i] == xs[i];
      ConcatAgree(init, f, g);
      assert f(xs[|xs| - 1]) == g(xs[|xs| - 1]);
    }
  }

  lemma {:induction false} RenderedLinesAppend(a: seq<Node>, b: seq<Node>, prepare: Node -> Node,
                                               render: Node -> string, newline: string)
    ensures RenderedLines(a + b, prepare, render, newline)
         == RenderedLines(a, prepare, render, newline) + RenderedLines(b, prepare, render, newline)
    decreases |b|
  {
    if b == [] {
      assert a + b == a;
    } else {
      var b' := b[..|b| - 1];
      assert (a + b)[..|a + b| - 1] == a + b';
      assert (a + b)[|a + b| - 1] == b[|b| - 1];
      RenderedLinesAppend(a, b', prepare, render, newline);
      var x := RenderedLines(a, prepare, render, newline);
      var y := RenderedLines(b', prepare, render, newline);
      var z := render(prepare(b[|b| - 1])) + newline;
      assert RenderedLines(b, prepare, render, newline) == y + z;
      assert (x + y) + z == x + (y + z);
    }
  }

  /** Reading the text front to back: the first class's line comes first. */
  lemma RenderedLinesCons(c: Node, cs: seq<Node>, prepare: Node -> Node, render: Node -> string, newline: string)
    ensures RenderedLines([c] + cs, prepare, render, newline)
         == render(prepare(c)) + newline + RenderedLines(cs, prepare, render, newline)
  {
    RenderedLinesAppend([c], cs, prepare, render, newline);
    assert [c][..0] == [];
  }

  /** Aggregation follows the order of the file list: the text of two lists
      of files is the text of the first followed by the text of the second. */
  lemma AggregateAppend(a: seq<Node>, b: seq<Node>, prepare: Node -> Node,
                        render: Node -> string, newline: string)
    ensures Aggregate(a + b, prepare, render, newline)
         == Aggregate(a, prepare, render, newline) + Aggregate(b, prepare, render, newline)
  {
    AggregateIsConcat(a + b, prepare, render, newline);
    AggregateIsConcat(a, prepare, render, newline);
    AggregateIsConcat(b, prepare, render, newline);
    ConcatAppend(a, b, FileText(prepare, render, newline));
  }

  /** The folder's text is one line per selected class, over files in order
      and then over each file's classes in pre-order. */
  lemma {:induction false} AggregateIsLinesOfAllClasses(files: seq<Node>, prepare: Node -> Node,
                                                        render: Node -> string, newline: string)
    ensures Aggregate(files, prepare, render, newline)
         == RenderedLines(AllClasses(files), prepare, render, newline)
    decreases |files|
  {
    if files != [] {
      var init := files[..|files| - 1];
      AggregateIsLinesOfAllClasses(init, prepare, render, newline);
      RenderedLinesAppend(AllClasses(init), SelectClasses(files[|files| - 1]), prepare, render, newline);
    }
  }

  /** A class is rendered for the folder exactly when it is a class
      declaration somewhere below the root of one of its files. */
  lemma {:induction false} AllClassesExactly(files: seq<Node>, c: Node)
    ensures c in AllClasses(files) <==> c.Class? && exists k :: 0 <= k < |files| && IsDescendant(c, files[k])
    decreases |files|
  {
    if files != [] {
      var init := files[..|files| - 1];
      AllClassesExactly(init, c);
      SelectClassesExactly(files[|files| - 1], c);
      if c.Class? && exists k :: 0 <= k < |files| && IsDescendant(c, files[k]) {
        var k :| 0 <= k < |files| && IsDescendant(c, files[k]);
        if k < |init| {
          assert init[k] == files[k];
        }
      }
      if c in AllClasses(init) {
        var k :| 0 <= k < |init| && IsDescendant(c, init[k]);
        assert files[k] == init[k];
      }
    }
  }

  /** The program's text only ever renders comment-free trees: two
      renderers that agree on comment-free trees give the same text. */
  lemma {:induction false} StrippedLinesSeeOnlyCommentFreeTrees(cs: seq<Node>, render1: Node -> string,
                                                               render2: Node -> string, newline: string)
    requires forall n :: NoComments(n) ==> render1(n) == render2(n)
    ensures RenderedLines(cs, RemoveComments, render1, newline) == RenderedLines(cs, RemoveComments, render2, newline)
    decreases |cs|
  {
    if cs != [] {
      RemoveCommentsLeavesNoComments(cs[|cs| - 1]);
      StrippedLinesSeeOnlyCommentFreeTrees(cs[..|cs| - 1], render1, render2, newline);
    }
  }

  lemma ProgramSeesOnlyCommentFreeTrees(files: seq<Node>, render1: Node -> string,
                                        render2: Node -> string, newline: string)
    requires forall n :: NoComments(n) ==> render1(n) == render2(n)
    ensures Aggregate(files, RemoveComments, render1, newline) == Aggregate(files, RemoveComments, render2, newline)
  {
    forall i | 0 <= i < |files|
      ensures FileText(RemoveComments, render1, newline)(files[i]) == FileText(RemoveComments, render2, newline)(files[i])
    {
      StrippedLinesSeeOnlyCommentFreeTrees(SelectClasses(files[i]), render1, render2, newline);
    }
    ConcatAgree(files, FileText(RemoveComments, render1, newline), FileText(RemoveComments, render2, newline));
    AggregateIsConcat(files, RemoveComments, render1, newline);
    AggregateIsConcat(files, RemoveComments, render2, newline);
  }

  lemma {:induction false} LinesAgreeWhenCommentFree(cs: seq<Node>, render: Node -> string, newline: string)
    requires forall i :: 0 <= i < |cs| ==> NoComments(cs[i])
    ensures RenderedLines(cs, RemoveComments, render, newline) == RenderedLines(cs, AsParsed, render, newline)
    decreases |cs|
  {
    if cs != [] {
      RemoveCommentsFixedPoints(cs[|cs| - 1]);
      LinesAgreeWhenCommentFree(cs[..|cs| - 1], render, newline);
    }
  }

  /** On files whose classes hold no comment the service and the program
      write the same text. */
  lemma ServiceAgreesWhenCommentFree(files: seq<Node>, render: Node -> string, newline: string)
    requires forall i :: 0 <= i < |AllClasses(files)| ==> NoComments(AllClasses(files)[i])
    ensures Aggregate(files, RemoveComments, render, newline) == Aggregate(files, AsParsed, render, newline)
  {
    AggregateIsLinesOfAllClasses(files, RemoveComments, render, newline);
    AggregateIsLinesOfAllClasses(files, AsParsed, render, newline);
    LinesAgreeWhenCommentFree(AllClasses(files), render, newline);
  }

  /** With a comment in a class, the two variants can differ: a renderer
      that shows comments tells them apart. */
  lemma ServiceMayDiffer()
    ensures var comment := Trivia(SingleLineComment, "// note");
            var file := Other([Class([Token("class", [comment], [])])]);
            var render := (n: Node) => if NoComments(n) then "clean" else "commented";
            Aggregate([file], RemoveComments, render, "\n") != Aggregate([file], AsParsed, render, "\n")
  {
    var comment := Trivia(SingleLineComment, "// note");
    var token := Token("class", [comment], []);
    var c := Class([token]);
    var file := Other([c]);
    var render := (n: Node) => if NoComments(n) then "clean" else "commented";
    assert SelectClasses(file) == [c] by {
      assert [token][1..] == [] && [c][1..] == [];
      assert ForestClasses([token]) == [];
      assert TreeClasses(c) == [c];
    }
    assert render(c) == "commented" by {
      assert ForestTrivia([token]) == [comment] + [];
      assert AllTrivia(c) == [comment];
      assert IsComment(AllTrivia(c)[0].kind);
    }
    assert render(RemoveComments(c)) == "clean" by {
      RemoveCommentsLeavesNoComments(c);
    }
    assert RenderedLines([c], RemoveComments, render, "\n") == "clean\n" by {
      assert [c][..0] == [];
    }
    assert RenderedLines([c], AsParsed, render, "\n") == "commented\n" by {
      assert [c][..0] == [];
    }
    assert [file][..0] == [];
  }
}
