/**
  The project summary `GenerateProjectInfoMarkdown` writes to
  `ProjectInfo.md`.

  XML loading and the filesystem are not part of this model. The project
  files found directly in the source folder are given in listing order; each
  is reduced to its file name without extension and to the descendants of
  its root element in document order, seen through the accessors the summary
  uses: the local name, the `Include` and `Version` attributes (absent or
  present), and the element's text value. `newline` stands for
  `Environment.NewLine`, written by every `AppendLine`; the literal `"\n"`
  inside some lines is a line feed of its own, as in the source.
 */
module ProjectInfo {

  datatype Option<T> = None | Some(value: T)

  datatype Element = Element(localName: string, includeAttr: Option<string>, versionAttr: Option<string>, value: string)

  datatype Manifest = Manifest(name: string, descendants: seq<Element>)

  const NotFoundMessage: string := "No .csproj file found."
  const AspNetCoreFramework: string := "Microsoft.AspNetCore.App"
  const AspNetCorePrefix: string := "Microsoft.AspNetCore."
  const WebApplication: string := "ASP.NET Core Application"
  const ClassLibrary: string := "Class Library"
  const PackagesHeading: string := "## NuGet Packages\n"

  /** Ordinal prefix test. */
  predicate StartsWith(s: string, prefix: string) {
    |prefix| <= |s| && s[..|prefix|] == prefix
  }

  predicate EndsWith(s: string, suffix: string) {
    |suffix| <= |s| && s[|s| - |suffix|..] == suffix
  }

  /** An element that marks the project as an ASP.NET Core application. */
  predicate IsWebReference(e: Element) {
    || (e.localName == "FrameworkReference" && e.includeAttr == Some(AspNetCoreFramework))
    || (e.localName == "PackageReference" && e.includeAttr.Some? && StartsWith(e.includeAttr.value, AspNetCorePrefix))
  }

  predicate IsTargetFramework(e: Element) {
    e.localName == "TargetFramework" || e.localName == "TargetFrameworks"
  }

  predicate IsPackageReference(e: Element) {
    e.localName == "PackageReference"
  }

  /** The `Any` scan over the descendants. */
  function IsAspNetCoreApp(es: seq<Element>): (r: bool)
    ensures r <==> exists i :: 0 <= i < |es| && IsWebReference(es[i])
    decreases |es|
  {
    if es == [] then false
    else if IsWebReference(es[0]) then true
    else
      assert forall i :: 1 <= i < |es| ==> es[i] == es[1..][i - 1];
      IsAspNetCoreApp(es[1..])
  }

  /** The project type line's value: a web application exactly when some
      descendant is a web reference, a class library otherwise. */
  function ProjectType(es: seq<Element>): (r: string)
    ensures r == WebApplication <==> exists i :: 0 <= i < |es| && IsWebReference(es[i])
    ensures r == ClassLibrary <==> !exists i :: 0 <= i < |es| && IsWebReference(es[i])
  {
    if IsAspNetCoreApp(es) then WebApplication else ClassLibrary
  }

  /** The value of the first `TargetFramework` or `TargetFrameworks`
      descendant, if there is one. */
  function TargetFramework(es: seq<Element>): (r: Option<string>)
    ensures r.None? <==> forall i :: 0 <= i < |es| ==> !IsTargetFramework(es[i])
    ensures r.Some? ==> exists i :: 0 <= i < |es| && IsTargetFramework(es[i]) && es[i].value == r.value
                                    && forall j :: 0 <= j < i ==> !IsTargetFramework(es[j])
    decreases |es|
  {
    if es == [] then None
    else if IsTargetFramework(es[0]) then Some(es[0].value)
    else
      var r := TargetFramework(es[1..]);
      assert forall i :: 1 <= i < |es| ==> es[i] == es[1..][i - 1];
      assert r.Some? ==> exists i :: 1 <= i < |es| && IsTargetFramework(es[i]) && es[i].value == r.value
                                     && forall j :: 0 <= j < i ==> !IsTargetFramework(es[j]) by {
        if r.Some? {
          var k :| 0 <= k < |es[1..]| && IsTargetFramework(es[1..][k]) && es[1..][k].value == r.value
                   && forall j :: 0 <= j < k ==> !IsTargetFramework(es[1..][j]);
          assert forall j :: 0 <= j < k + 1 ==> !IsTargetFramework(es[j]) by {
            forall j | 0 <= j < k + 1
              ensures !IsTargetFramework(es[j])
            {
              if j > 0 { assert es[j] == es[1..][j - 1]; }
            }
          }
        }
      }
      r
  }

  /** The `PackageReference` descendants, in document order. */
  function PackageReferences(es: seq<Element>): (r: seq<Element>)
    ensures forall i :: 0 <= i < |r| ==> IsPackageReference(r[i])
    decreases |es|
  {
    if es == [] then []
    else
      var last := es[|es| - 1];
      PackageReferences(es[..|es| - 1]) + (if IsPackageReference(last) then [last] else [])
  }

  /** Duplicates are kept: every `PackageReference` element occurs among the
      packages as often as among the descendants, and nothing else occurs. */
  lemma {:induction false} PackageReferencesCount(es: seq<Element>, e: Element)
    ensures multiset(PackageReferences(es))[e] == if IsPackageReference(e) then multiset(es)[e] else 0
    decreases |es|
  {
    if es != [] {
      var init := es[..|es| - 1];
      var last := es[|es| - 1];
      assert es == init + [last];
      PackageReferencesCount(init, e);
    }
  }

  /** A missing attribute or element reads as the empty string. */
  function OrEmpty(o: Option<string>): string
  {
    match o
    case Some(s) => s
    case None => ""
  }

  /** `AppendLine`. */
  function Line(s: string, newline: string): string
  {
    s + newline
  }

  function PackageLine(p: Element, newline: string): string
  {
    Line("- " + OrEmpty(p.includeAttr) + " (" + OrEmpty(p.versionAttr) + ")", newline)
  }

  /** One bullet line per package, in order. */
  function PackageLines(ps: seq<Element>, newline: string): string
    decreases |ps|
  {
    if ps == [] then ""
    else PackageLines(ps[..|ps| - 1], newline) + PackageLine(ps[|ps| - 1], newline)
  }

  /** The title, project type and target framework lines of a summary. */
  function Preamble(m: Manifest, newline: string): string
  {
    Line("# Project Information for '" + m.name + "'\n", newline)
    + Line("## Project Type: " + ProjectType(m.descendants), newline)
    + Line("## Target Framework: " + OrEmpty(TargetFramework(m.descendants)) + "\n", newline)
  }

  /** The four heading lines of a summary. */
  function Header(m: Manifest, newline: string): string
  {
    Preamble(m, newline) + Line(PackagesHeading, newline)
  }

  function Summary(m: Manifest, newline: string): string
  {
    Header(m, newline) + PackageLines(PackageReferences(m.descendants), newline)
  }

  /** `GenerateProjectInfoMarkdown`, building the text line by line. */
  method GenerateProjectInfoMarkdown(manifests: seq<Manifest>, newline: string) returns (text: string)
    ensures manifests == [] ==> text == NotFoundMessage
    ensures manifests != [] ==> text == Summary(manifests[0], newline)
  {
    if manifests == [] {
      return NotFoundMessage;
    }
    var m := manifests[0];
    var es := m.descendants;
    var title := Line("# Project Information for '" + m.name + "'\n", newline);
    var isAspNetCoreApp := IsAspNetCoreApp(es);
    var projectType := if isAspNetCoreApp then WebApplication else ClassLibrary;
    var targetFramework := TargetFramework(es);
    var typeLine := Line("## Project Type: " + projectType, newline);
    var frameworkLine := Line("## Target Framework: " + OrEmpty(targetFramework) + "\n", newline);
    text := title + typeLine + frameworkLine + Line(PackagesHeading, newline);
    assert text == Header(m, newline);
    text := AppendPackageLines(text, es, newline);
  }

  /** One more element adds its bullet exactly when it is a package. */
  lemma PackageLinesStep(prefix: string, es: seq<Element>, i: nat, newline: string)
    requires i < |es|
    ensures IsPackageReference(es[i]) ==>
      prefix + PackageLines(PackageReferences(es[..i + 1]), newline)
      == prefix + PackageLines(PackageReferences(es[..i]), newline) + PackageLine(es[i], newline)
    ensures !IsPackageReference(es[i]) ==> PackageReferences(es[..i + 1]) == PackageReferences(es[..i])
  {
    assert es[..i + 1][..i] == es[..i];
    var done := PackageReferences(es[..i]);
    if IsPackageReference(es[i]) {
      assert PackageReferences(es[..i + 1]) == done + [es[i]];
      assert (done + [es[i]])[..|done|] == done;
      var x := PackageLines(done, newline);
      var y := PackageLine(es[i], newline);
      assert PackageLines(done + [es[i]], newline) == x + y;
      assert prefix + (x + y) == (prefix + x) + y;
    } else {
      assert PackageReferences(es[..i + 1]) == done + [];
      assert done + [] == done;
    }
  }

  /** The `foreach` over the package references. */
  method AppendPackageLines(prefix: string, es: seq<Element>, newline: string) returns (text: string)
    ensures text == prefix + PackageLines(PackageReferences(es), newline)
  {
    text := prefix;
    for i := 0 to |es|
      invariant text == prefix + PackageLines(PackageReferences(es[..i]), newline)
    {
      PackageLinesStep(prefix, es, i, newline);
      if IsPackageReference(es[i]) {
        text := text + PackageLine(es[i], newline);
      }
    }
    assert es[..|es|] == es;
  }

  /** Package order is document order: the packages of two stretches of
      elements are those of the first followed by those of the second. */
  lemma {:induction false} PackageReferencesAppend(a: seq<Element>, b: seq<Element>)
    ensures PackageReferences(a + b) == PackageReferences(a) + PackageReferences(b)
    decreases |b|
  {
    if b == [] {
      assert a + b == a;
    } else {
      var b' := b[..|b| - 1];
      assert (a + b)[..|a + b| - 1] == a + b';
      assert (a + b)[|a + b| - 1] == b[|b| - 1];
      PackageReferencesAppend(a, b');
      var last := b[|b| - 1];
      var x := PackageReferences(a);
      var y := PackageReferences(b');
      var z := if IsPackageReference(last) then [last] else [];
      assert PackageReferences(b) == y + z;
      assert (x + y) + z == x + (y + z);
    }
  }

  lemma {:induction false} PackageLinesAppend(a: seq<Element>, b: seq<Element>, newline: string)
    ensures PackageLines(a + b, newline) == PackageLines(a, newline) + PackageLines(b, newline)
    decreases |b|
  {
    if b == [] {
      assert a + b == a;
    } else {
      var b' := b[..|b| - 1];
      assert (a + b)[..|a + b| - 1] == a + b';
      assert (a + b)[|a + b| - 1] == b[|b| - 1];
      PackageLinesAppend(a, b', newline);
      var x := PackageLines(a, newline);
      var y := PackageLines(b', newline);
      var z := PackageLine(b[|b| - 1], newline);
      assert PackageLines(b, newline) == y + z;
      assert (x + y) + z == x + (y + z);
    }
  }

  /** The package section of a summary is one bullet per `PackageReference`
      element, in document order, duplicates kept: two stretches of elements
      give the bullets of the first followed by those of the second, and a
      single element gives its bullet exactly when it is a package. */
  lemma PackageSection(a: seq<Element>, b: seq<Element>, e: Element, newline: string)
    ensures PackageLines(PackageReferences(a + b), newline)
         == PackageLines(PackageReferences(a), newline) + PackageLines(PackageReferences(b), newline)
    ensures PackageLines(PackageReferences([e]), newline)
         == if IsPackageReference(e) then PackageLine(e, newline) else ""
  {
    PackageReferencesAppend(a, b);
    PackageLinesAppend(PackageReferences(a), PackageReferences(b), newline);
    assert [e][..0] == [];
    assert [e][..1][..0] == [];
    if IsPackageReference(e) {
      assert PackageReferences([e]) == [e];
      assert [e][..|[e]| - 1] == [];
    } else {
      assert PackageReferences([e]) == [];
    }
  }

  lemma EndsWithAppend(a: string, b: string, t: string)
    requires EndsWith(b, t)
    ensures EndsWith(a + b, t)
  {
    assert (a + b)[|a + b| - |t|..] == b[|b| - |t|..];
  }

  lemma EndsWithTail(s: string, x: string, t: string)
    requires EndsWith(s, x + t)
    ensures EndsWith(s, t)
  {
    assert s[|s| - |t|..] == s[|s| - |x + t|..][|x|..];
    assert (x + t)[|x|..] == t;
  }

  lemma PackageLinesEndWithBullet(ps: seq<Element>, newline: string)
    requires ps != []
    ensures EndsWith(PackageLines(ps, newline), [')'] + newline)
  {
    var p := ps[|ps| - 1];
    var body := "- " + OrEmpty(p.includeAttr) + " (" + OrEmpty(p.versionAttr);
    assert PackageLine(p, newline) == body + ([')'] + newline);
    assert EndsWith(body + ([')'] + newline), [')'] + newline);
    EndsWithAppend(PackageLines(ps[..|ps| - 1], newline), PackageLine(p, newline), [')'] + newline);
  }

  /** Two one-character suffixes before the same tail must agree. */
  lemma SuffixCharacter(s: string, x: char, y: char, tail: string)
    requires EndsWith(s, [x] + tail) && EndsWith(s, [y] + tail)
    ensures x == y
  {
    var k := |s| - |tail| - 1;
    assert s[|s| - |[x] + tail|..][0] == s[k];
    assert s[|s| - |[y] + tail|..][0] == s[k];
  }

  lemma HeaderEndsWithHeading(m: Manifest, newline: string)
    ensures EndsWith(Header(m, newline), PackagesHeading + newline)
  {
    var line := Line(PackagesHeading, newline);
    assert EndsWith(line, PackagesHeading + newline);
    EndsWithAppend(Preamble(m, newline), line, PackagesHeading + newline);
  }

  lemma HeadingIsNotBullet(s: string, newline: string)
    requires EndsWith(s, [')'] + newline)
    ensures !EndsWith(s, PackagesHeading + newline)
  {
    if EndsWith(s, PackagesHeading + newline) {
      assert PackagesHeading + newline == "## NuGet Packages" + (['\n'] + newline);
      EndsWithTail(s, "## NuGet Packages", ['\n'] + newline);
      SuffixCharacter(s, ')', '\n', newline);
    }
  }

  /** The summary ends right after the packages heading, with no bullet
      below it, exactly when the project has no `PackageReference`. */
  lemma NoPackagesEndsWithHeading(m: Manifest, newline: string)
    ensures EndsWith(Summary(m, newline), PackagesHeading + newline)
        <==> PackageReferences(m.descendants) == []
  {
    var ps := PackageReferences(m.descendants);
    var h := Header(m, newline);
    var s := Summary(m, newline);
    assert s == h + PackageLines(ps, newline);
    if ps == [] {
      assert s == h + "" == h;
      HeaderEndsWithHeading(m, newline);
    } else {
      PackageLinesEndWithBullet(ps, newline);
      EndsWithAppend(h, PackageLines(ps, newline), [')'] + newline);
      HeadingIsNotBullet(s, newline);
    }
  }
}
