# CodeExtractor core, modelled in Dafny

CodeExtractor reads a C# source folder. It looks in six fixed category
folders (`Entities`, `Helpers`, `Models`, `Services`, `Strategies`,
`Utilities`). For each one that exists, it collects every class declaration
from every `.cs` file below it, strips the comments, normalises the
whitespace, and writes all of it to `<category>.txt`. It also writes a
Markdown summary of the first `.csproj` file, `ProjectInfo.md`. That summary
gives the project type (ASP.NET Core application or class library), the
target framework and the NuGet packages.

This project models the logic the repository adds on top of Roslyn, XML
loading and the filesystem, and proves properties of it:

- `syntax.dfy` (`SyntaxTree`): the syntax tree. It has class nodes, other
  nodes and tokens. Each token has leading and trailing trivia. The module
  also defines the trivia of a subtree in document order and the
  descendant relation.
- `selection.dfy` (`ClassSelection`): `DescendantNodes().OfType<ClassDeclarationSyntax>()`.
- `stripping.dfy` (`CommentStripping`): `RemoveCommentsFromClass`.
- `extraction.dfy` (`Extraction`): `ExtractEntities` of the program and of
  `CodeExtractorService`.
- `dispatch.dfy` (`CategoryDispatch`): `ProcessDirectory`.
- `project_info.dfy` (`ProjectInfo`): `GenerateProjectInfoMarkdown`.

Some collaborators are inputs rather than code:

- Files arrive already parsed, as trees, in directory-listing order.
- Roslyn's `NormalizeWhitespace().ToFullString()` is a parameter
  `render: Node -> string`. It sees only the class subtree, so the model
  assumes a class's text is determined by that subtree alone (see
  "Left out").
- `Environment.NewLine` is a parameter `newline`. The literal `"\n"` that
  some Markdown lines carry is kept as a separate line feed, as in the
  source.
- The folders that exist are a set of names. The files found in a folder
  are a function from the folder name to a list of trees.
- A project file is its name without extension plus the descendants of its
  root element, in document order.

Three behaviours of the code are worth stating plainly:

- Documentation comments (`///`, `/** */`) are kept. Roslyn parses them as
  their own trivia kinds, not as single-line or multi-line comment trivia,
  and the code removes only those two kinds. The model has a separate
  `DocumentationComment` kind, and stripping keeps it.
- A file that cannot be read throws. The code has no per-file error
  handling, so the top-level catch ends the run. That path is I/O and is
  left out.
- A nested class is selected in its own right, after its outer class. The
  outer class's rendering already contains it, so its text appears twice in
  the output. The model keeps this behaviour.

## Model

| member | source | states |
|---|---|---|
| ClassSelection.SelectClassesIsOfTypeClass | CodeExtractor/Program.cs:84 | the selected classes are exactly `DescendantNodes()` (every node below the root, in pre-order: a node, then its children left to right) filtered to class declarations, so their order is document order and each class is listed once |
| ClassSelection.SelectClassesExactly | CodeExtractor/Program.cs:84 | a node is selected exactly when it is a class declaration somewhere below the file's root, nested classes included and the root itself excluded |
| ClassSelection.SelectClassesPreOrder | CodeExtractor/Program.cs:84 | each selected class is followed directly by the classes nested inside it, as one contiguous block |
| ClassSelection.ForestClassesPreOrder | CodeExtractor/Program.cs:84 | the same block property over a sequence of sibling trees |
| ClassSelection.ForestClassesExactly | CodeExtractor/Program.cs:84 | over a sequence of sibling trees, a class is selected exactly when it is one of the trees or lies below one of them |
| CommentStripping.RemoveCommentsCharacterised | CodeExtractor/Program.cs:94-103 | the stripped tree is the one and only tree with the same shape: the same node kinds and children, the same tokens, the same trivia counts, every comment replaced by an empty disabled-text trivia and every other trivia kept |
| CommentStripping.RemoveCommentsTrivia | CodeExtractor/Program.cs:96-100 | read in document order, the stripped tree's trivia match the original's one for one: each comment became the empty marker, and everything else, documentation comments included, is unchanged |
| CommentStripping.RemoveCommentsLeavesNoComments | CodeExtractor/Program.cs:96-100 | no single-line or multi-line comment is left anywhere in the stripped subtree |
| CommentStripping.RemoveCommentsFixedPoints | CodeExtractor/Program.cs:96-100 | stripping leaves a subtree unchanged exactly when the subtree has no comment |
| CommentStripping.RemoveCommentsIdempotent | CodeExtractor/Program.cs:97-100 | stripping twice gives the same tree as stripping once |
| Extraction.AppendClasses | CodeExtractor/Program.cs:84-88 | the inner loop appends one rendered class plus a newline per selected class, in selection order |
| Extraction.ExtractEntities | CodeExtractor/Program.cs:73-92 | the folder's text is the aggregation of the stripped, rendered classes over the files in order; an empty file list gives the empty string |
| Extraction.AggregateIsLinesOfAllClasses | CodeExtractor/Program.cs:75-91 | the text is exactly one rendered line per class, taken over all files in order and, within a file, over its classes in pre-order |
| Extraction.AggregateAppend | CodeExtractor/Program.cs:78-89 | file order is kept: the text for two lists of files is the first list's text followed by the second's |
| Extraction.RenderedLinesCons | CodeExtractor/Program.cs:84-88 | read front to back, the first class's rendering and its newline come before the rest |
| Extraction.AllClassesExactly | CodeExtractor/Program.cs:78-88 | a class is rendered for the folder exactly when it is a class declaration below the root of one of the folder's files |
| Extraction.ProgramSeesOnlyCommentFreeTrees | CodeExtractor/Program.cs:86-87 | the program hands only comment-free trees to the renderer: two renderers that agree on comment-free trees produce the same folder text |
| Extraction.ServiceExtractEntities | CodeExtractorService.cs:17-35 | the service's text is the aggregation of the classes as parsed, with no stripping, over the files in order and the classes in pre-order; an empty file list gives the empty string |
| Extraction.ServiceAgreesWhenCommentFree | CodeExtractorService.cs:28-31 | when no selected class holds a comment, the service and the program write the same text |
| Extraction.ServiceMayDiffer | CodeExtractorService.cs:30 | with a comment in a class, the service and the program can write different texts |
| CategoryDispatch.ProcessDirectory | CodeExtractor/Program.cs:58-71 | one document per existing category folder, in the fixed category order, each named `<category>.txt` and holding that folder's aggregated text |
| CategoryDispatch.DispatchedCategoriesExplicit | CodeExtractor/Program.cs:60-70 | only the six literal names are considered, in their fixed order, and each is present exactly when its folder exists |
| CategoryDispatch.DocumentWrittenIff | CodeExtractor/Program.cs:62-70 | a document named after a category is written exactly when the category is one of the six and its folder exists; a missing folder produces no document at all |
| CategoryDispatch.DocumentNamesDistinct | CodeExtractor/Program.cs:60-68 | no two documents written have the same name, so none overwrites another |
| CategoryDispatch.ExistingCategoriesAppend | CodeExtractor/Program.cs:60-65 | checking folders one after another keeps their order: the kept names of two lists are the kept names of the first followed by those of the second |
| CategoryDispatch.ExistingCategoriesDistinct | CodeExtractor/Program.cs:60-65 | filtering a list of distinct category names by existence keeps the names distinct |
| CategoryDispatch.EmptyFolderGivesEmptyDocument | CodeExtractor/Program.cs:65-68 | an existing category folder with no source files still gets its document, and the document is empty |
| ProjectInfo.IsAspNetCoreApp | CodeExtractor/Program.cs:123-125 | true exactly when some descendant is a `FrameworkReference` whose `Include` equals `Microsoft.AspNetCore.App`, or a `PackageReference` whose `Include` starts with `Microsoft.AspNetCore.` |
| ProjectInfo.ProjectType | CodeExtractor/Program.cs:127 | "ASP.NET Core Application" exactly when there is such a web reference, otherwise "Class Library" |
| ProjectInfo.TargetFramework | CodeExtractor/Program.cs:129-130 | the value of the first `TargetFramework` or `TargetFrameworks` descendant; absent exactly when there is no such element |
| ProjectInfo.PackageReferences | CodeExtractor/Program.cs:135 | every package listed is a `PackageReference` element |
| ProjectInfo.PackageReferencesCount | CodeExtractor/Program.cs:135 | duplicates are kept: each `PackageReference` element is listed as often as it occurs, and no other element is listed |
| ProjectInfo.PackageSection | CodeExtractor/Program.cs:135-142 | one `- name (version)` bullet per `PackageReference`, in document order; a non-package element contributes nothing |
| ProjectInfo.AppendPackageLines | CodeExtractor/Program.cs:137-142 | the loop appends exactly the bullets of the package references, in order |
| ProjectInfo.GenerateProjectInfoMarkdown | CodeExtractor/Program.cs:106-145 | without a project file the result is exactly `No .csproj file found.`; otherwise it is the summary of the first file: title, project type, target framework (empty when absent), the packages heading, and the bullets, with missing attributes shown as empty |
| ProjectInfo.NoPackagesEndsWithHeading | CodeExtractor/Program.cs:136-142 | the summary ends right after the `## NuGet Packages` heading, with no bullet below it, exactly when the project has no `PackageReference` |

## Left out

- Parsing C# text (`CSharpSyntaxTree.ParseText`) is a foreign compiler front-end. Trees are inputs.
- Roslyn's `NormalizeWhitespace().ToFullString()` is a foreign pretty-printer. It is the `render` parameter, and no property of its output, such as independence from the original whitespace, is modelled.
- Rendering context: `render` sees only the class subtree. Roslyn's `NormalizeWhitespace` also indents by the node's declaration depth, which it reads from the node's ancestors. An unrewritten class is rendered where it sits in its file. That covers every class in the service, and a comment-free class in the program, because `ReplaceTrivia` returns the same node when nothing matches. A class that stripping rebuilt has no parent and is rendered at depth 0. So two equal class values at different nesting depths can render differently in the source, while in the model they render identically. The texts stated by `Extraction.ServiceAgreesWhenCommentFree` and `Extraction.AggregateIsLinesOfAllClasses` hold only for a renderer that is a function of the subtree.
- `ReplaceTrivia` internals, node identity and structural sharing: stripping is a fresh tree map.
- Trivia inside structured trivia, such as a comment after a `#if` directive on the same line, is not modelled. `DescendantTrivia()` does not descend into it, so such comments are kept; the model treats a directive as one opaque trivia item.
- Filesystem work is replaced by plain data: `Directory.GetFiles`, recursive search in the program versus top-level search in the service, `File.ReadAllText`, `File.WriteAllText`, `Directory.Exists`, `Directory.CreateDirectory` and `Path.Combine`. The order of the file list is whatever the listing gives.
- `XDocument.Load`, `Path.GetFileNameWithoutExtension` and `XElement.Value` are replaced by the element sequence, the given project name and the given element value. The root element itself is not among the descendants, as with `Descendants()`.
- Culture-sensitive comparison: `StartsWith` is modelled as an ordinal prefix test. The .NET overload used compares culture-sensitively, and that can differ for strings holding characters the culture ignores.
- Command-line handling, the default output path, the project name taken from `DirectoryInfo`, console messages and the top-level exception catch are I/O glue.
- `Environment.NewLine` versus `\n`: the model uses one abstract `newline` string for `AppendLine`. The literal `\n` characters inside the Markdown lines are kept.
