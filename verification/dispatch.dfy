/**
  Category dispatch: `ProcessDirectory` walks a fixed list of six folder
  names and writes one `<name>.txt` document for each of them that exists
  under the source folder.

  The filesystem is not part of this model. `existing` is the set of folder
  names that exist directly under the source folder, and `filesIn(name)` is
  the list of parsed files that the recursive `*.cs` search finds in that
  folder, in listing order. The result is the list of documents written, in
  the order they are written.
 */
module CategoryDispatch {
  import opened SyntaxTree
  import opened CommentStripping
  import opened Extraction

  /** The recognised category folders, in the order they are processed. */
  const TargetFolders: seq<string> := ["Entities", "Helpers", "Models", "Services", "Strategies", "Utilities"]

  datatype OutputFile = OutputFile(name: string, content: string)

  /** The document a category is written to. */
  function OutputName(category: string): string
  {
    category + ".txt"
  }

  /** No two entries of `s` are the same. */
  predicate Distinct<T(==)>(s: seq<T>) {
    forall i, j :: 0 <= i < j < |s| ==> s[i] != s[j]
  }

  /** The categories of `cats` whose folder exists, in the order of `cats`. */
  function ExistingCategories(cats: seq<string>, existing: set<string>): seq<string>
    decreases |cats|
  {
    if cats == [] then []
    else
      var last := cats[|cats| - 1];
      ExistingCategories(cats[..|cats| - 1], existing) + (if last in existing then [last] else [])
  }

  lemma {:induction false} ExistingCategoriesMembers(cats: seq<string>, existing: set<string>, c: string)
    ensures c in ExistingCategories(cats, existing) <==> c in cats && c in existing
    decreases |cats|
  {
    if cats != [] {
      var init := cats[..|cats| - 1];
      ExistingCategoriesMembers(init, existing, c);
      assert cats == init + [cats[|cats| - 1]];
    }
  }

  /** Filtering keeps the order: the filter of two lists is the filter of
      the first followed by the filter of the second. */
  lemma {:induction false} ExistingCategoriesAppend(a: seq<string>, b: seq<string>, existing: set<string>)
    ensures ExistingCategories(a + b, existing) == ExistingCategories(a, existing) + ExistingCategories(b, existing)
    decreases |b|
  {
    if b == [] {
      assert a + b == a;
    } else {
      var b' := b[..|b| - 1];
      var last := b[|b| - 1];
      assert (a + b)[..|a + b| - 1] == a + b';
      assert (a + b)[|a + b| - 1] == last;
      ExistingCategoriesAppend(a, b', existing);
      var x := ExistingCategories(a, existing);
      var y := ExistingCategories(b', existing);
      var z := if last in existing then [last] else [];
      assert (x + y) + z == x + (y + z);
    }
  }

  /** A single category is kept exactly when its folder exists. */
  lemma ExistingCategoriesSingle(c: string, existing: set<string>)
    ensures ExistingCategories([c], existing) == if c in existing then [c] else []
  {
    assert [c][..0] == [];
  }

  /** The document written for one category folder that exists. */
  function Document(category: string, filesIn: string -> seq<Node>, render: Node -> string,
                    newline: string): OutputFile
  {
    OutputFile(OutputName(category), Aggregate(filesIn(category), RemoveComments, render, newline))
  }

  /** The documents written for the given categories, in their order. */
  function Documents(cats: seq<string>, filesIn: string -> seq<Node>, render: Node -> string,
                     newline: string): (r: seq<OutputFile>)
    ensures |r| == |cats|
    ensures forall i :: 0 <= i < |cats| ==> r[i] == Document(cats[i], filesIn, render, newline)
    decreases |cats|
  {
    if cats == [] then []
    else Documents(cats[..|cats| - 1], filesIn, render, newline)
         + [Document(cats[|cats| - 1], filesIn, render, newline)]
  }

  /** Everything `ProcessDirectory` writes, given which folders exist. */
  function Dispatch(existing: set<string>, filesIn: string -> seq<Node>, render: Node -> string,
                    newline: string): seq<OutputFile>
  {
    Documents(ExistingCategories(TargetFolders, existing), filesIn, render, newline)
  }

  /** One more category adds its document exactly when its folder exists. */
  lemma DispatchStep(cats: seq<string>, i: nat, existing: set<string>, filesIn: string -> seq<Node>,
                     render: Node -> string, newline: string)
    requires i < |cats|
    ensures cats[i] in existing ==>
      Documents(ExistingCategories(cats[..i + 1], existing), filesIn, render, newline)
      == Documents(ExistingCategories(cats[..i], existing), filesIn, render, newline)
         + [Document(cats[i], filesIn, render, newline)]
    ensures cats[i] !in existing ==>
      ExistingCategories(cats[..i + 1], existing) == ExistingCategories(cats[..i], existing)
  {
    assert cats[..i + 1][..i] == cats[..i];
    var done := ExistingCategories(cats[..i], existing);
    if cats[i] in existing {
      assert ExistingCategories(cats[..i + 1], existing) == done + [cats[i]];
      assert (done + [cats[i]])[..|done|] == done;
    } else {
      assert ExistingCategories(cats[..i + 1], existing) == done + [];
      assert done + [] == done;
    }
  }

  /** `ProcessDirectory`: for each of the six names in turn, the folder's
      aggregated text when the folder exists, nothing otherwise. */
  method ProcessDirectory(existing: set<string>, filesIn: string -> seq<Node>, render: Node -> string,
                          newline: string) returns (outputs: seq<OutputFile>)
    ensures outputs == Dispatch(existing, filesIn, render, newline)
  {
    var targetFolders := TargetFolders;
    outputs := [];
    for i := 0 to |targetFolders|
      invariant outputs == Documents(ExistingCategories(targetFolders[..i], existing), filesIn, render, newline)
    {
      var targetFolder := targetFolders[i];
      DispatchStep(targetFolders, i, existing, filesIn, render, newline);
      if targetFolder in existing {
        var combinedEntities := ExtractEntities(filesIn(targetFolder), render, newline);
        outputs := outputs + [OutputFile(OutputName(targetFolder), combinedEntities)];
      }
    }
    assert targetFolders[..|targetFolders|] == targetFolders;
  }

  /** Exactly the six literal names are considered, in their fixed order, and
      each appears exactly when its folder exists. */
  lemma DispatchedCategoriesExplicit(existing: set<string>)
    ensures ExistingCategories(TargetFolders, existing)
         == (if "Entities" in existing then ["Entities"] else [])
          + (if "Helpers" in existing then ["Helpers"] else [])
          + (if "Models" in existing then ["Models"] else [])
          + (if "Services" in existing then ["Services"] else [])
          + (if "Strategies" in existing then ["Strategies"] else [])
          + (if "Utilities" in existing then ["Utilities"] else [])
  {
    var t := TargetFolders;
    var e := existing;
    assert t[..1][..0] == [];
    assert ExistingCategories(t[..1], e) == (if "Entities" in e then ["Entities"] else []);
    assert t[..2][..1] == t[..1];
    assert ExistingCategories(t[..2], e)
        == ExistingCategories(t[..1], e) + (if "Helpers" in e then ["Helpers"] else []);
    assert t[..3][..2] == t[..2];
    assert ExistingCategories(t[..3], e)
        == ExistingCategories(t[..2], e) + (if "Models" in e then ["Models"] else []);
    assert t[..4][..3] == t[..3];
    assert ExistingCategories(t[..4], e)
        == ExistingCategories(t[..3], e) + (if "Services" in e then ["Services"] else []);
    assert t[..5][..4] == t[..4];
    assert ExistingCategories(t[..5], e)
        == ExistingCategories(t[..4], e) + (if "Strategies" in e then ["Strategies"] else []);
    assert t[..6][..5] == t[..5];
    assert t[..6] == t;
    assert ExistingCategories(t, e)
        == ExistingCategories(t[..5], e) + (if "Utilities" in e then ["Utilities"] else []);
  }

  lemma {:induction false} ExistingCategoriesDistinct(cats: seq<string>, existing: set<string>)
    requires Distinct(cats)
    ensures Distinct(ExistingCategories(cats, existing))
    decreases |cats|
  {
    if cats != [] {
      var init := cats[..|cats| - 1];
      var last := cats[|cats| - 1];
      assert Distinct(init) by {
        forall i, j | 0 <= i < j < |init|
          ensures init[i] != init[j]
        {
          assert init[i] == cats[i] && init[j] == cats[j];
        }
      }
      ExistingCategoriesDistinct(init, existing);
      assert last !in init by {
        forall i | 0 <= i < |init|
          ensures init[i] != last
        {
          assert init[i] == cats[i];
        }
      }
      var done := ExistingCategories(init, existing);
      ExistingCategoriesMembers(init, existing, last);
      var r := done + (if last in existing then [last] else []);
      forall i, j | 0 <= i < j < |r|
        ensures r[i] != r[j]
      {
        if j == |done| {
          assert r[i] == done[i] && r[j] == last;
          assert done[i] in done;
        } else {
          assert r[i] == done[i] && r[j] == done[j];
        }
      }
    }
  }

  lemma OutputNameInjective(a: string, b: string)
    requires OutputName(a) == OutputName(b)
    ensures a == b
  {
    assert |a| == |b|;
    assert a == OutputName(a)[..|a|];
    assert b == OutputName(b)[..|b|];
  }

  /** A document named after a category is written exactly when the category
      is one of the six and its folder exists; a missing folder leaves no
      document at all. */
  lemma DocumentWrittenIff(existing: set<string>, filesIn: string -> seq<Node>, render: Node -> string,
                           newline: string, category: string)
    ensures (exists i :: 0 <= i < |Dispatch(existing, filesIn, render, newline)|
               && Dispatch(existing, filesIn, render, newline)[i].name == OutputName(category))
        <==> category in TargetFolders && category in existing
  {
    var cats := ExistingCategories(TargetFolders, existing);
    var docs := Documents(cats, filesIn, render, newline);
    if exists i :: 0 <= i < |docs| && docs[i].name == OutputName(category) {
      var i :| 0 <= i < |docs| && docs[i].name == OutputName(category);
      OutputNameInjective(cats[i], category);
      assert cats[i] in cats;
    }
    ExistingCategoriesMembers(TargetFolders, existing, category);
    if category in TargetFolders && category in existing {
      assert category in cats;
      var i :| 0 <= i < |cats| && cats[i] == category;
      assert Dispatch(existing, filesIn, render, newline)[i].name == OutputName(category);
    }
  }

  /** No document is written twice: the names written are pairwise different. */
  lemma DocumentNamesDistinct(existing: set<string>, filesIn: string -> seq<Node>, render: Node -> string,
                              newline: string)
    ensures var docs := Dispatch(existing, filesIn, render, newline);
            forall i, j :: 0 <= i < j < |docs| ==> docs[i].name != docs[j].name
  {
    var cats := ExistingCategories(TargetFolders, existing);
    var docs := Documents(cats, filesIn, render, newline);
    assert Distinct(TargetFolders);
    ExistingCategoriesDistinct(TargetFolders, existing);
    forall i, j | 0 <= i < j < |docs|
      ensures docs[i].name != docs[j].name
    {
      if docs[i].name == docs[j].name {
        OutputNameInjective(cats[i], cats[j]);
      }
    }
  }

  /** A category folder that exists but holds no source file still gets its
      document, and that document is empty. */
  lemma EmptyFolderGivesEmptyDocument(existing: set<string>, filesIn: string -> seq<Node>,
                                      render: Node -> string, newline: string, category: string)
    requires category in TargetFolders && category in existing
    requires filesIn(category) == []
    ensures OutputFile(OutputName(category), "") in Dispatch(existing, filesIn, render, newline)
  {
    var cats := ExistingCategories(TargetFolders, existing);
    ExistingCategoriesMembers(TargetFolders, existing, category);
    assert category in cats;
    var i :| 0 <= i < |cats| && cats[i] == category;
    assert Documents(cats, filesIn, render, newline)[i] == OutputFile(OutputName(category), "");
  }
}
