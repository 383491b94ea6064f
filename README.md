# Mule connector POM utilities, in Dafny

This project models `PomUtils`, the part of the Mule connector editor extension
that reads and edits the workspace's Maven build file (`pom.xml`). It covers:

- `isMulePom`: is this a Mule application project?
- `getPomDependencies` and `getMuleConnectorDependencies`, both built on
  `readPomDependencies`: list the declared dependencies, or only the connectors,
  which carry the classifier `mule-plugin`.
- `getDependenciesNode`: find the one `<dependencies>` element.
- `addPomDependency`: append a new `<dependency>` element to that element.

The document is modelled as the DOM tree the XML parser builds (`dom.dfy`, module `Dom`):

- A node is an element (qualified tag name and ordered children), a text node, or
  a comment.
- `ElementsByTagName(n, t)` lists the descendants of `n` tagged `t`, in pre-order,
  leaving out `n` itself.
- `TextContent` joins the text below a node and skips comments.
- Reading `.item(0).textContent` from an empty list throws. `FirstTextContent`
  models that throw as `None`.
- Setting `textContent` to a string gives an element whose only child is one text
  node. For the empty string the element gets no child (`TextElement`).
- The edit `AppendBelow(n, t, x)` appends `x` as the last child of every
  descendant of `n` tagged `t`. When there is exactly one such descendant, this
  is `appendChild` on that element (`AppendBelowUnique`).

`pom.dfy` (module `Pom`) holds the specification functions and the class
`PomUtils`:

- The field `pom` is the parsed `pom.xml`. It is `None` when the file does not
  exist.
- The reader methods run the source's loops and are proved equal to the
  specification functions.
- `AddPomDependency` reassigns `pom` to the document that the source writes back.
- An exception is an `Err(Failure)`. `NoDocument` means there is no `pom.xml`.
  `NoDependenciesNode` means there is not exactly one `<dependencies>` element.
  In the source, both are a `TypeError` thrown by a property access on
  `undefined`.

`pom_lemmas.dfy` (module `PomLemmas`) proves these properties of the readers and
of the edit:

- fail-fast reading;
- the connector list is a subsequence of the full list;
- a dependency element reads back as what was added;
- the add changes nothing but the `<dependencies>` element;
- what every later read returns after an add.

`mule_pom.dfy` (module `MuleProject`) applies the project check to concrete
plugin declarations. It also holds the finding below.

In these points the code does something a reader of a Maven POM might not
expect; the model follows the code:

- `getDependenciesNode` counts `<dependencies>` elements at any depth below the
  document element, not only the children of `<project>`. The `<dependencies>`
  of `<dependencyManagement>` or of a plugin count too.
- The code does not require a `<dependency>` to have exactly one `groupId`,
  `artifactId` and `version`. It takes the first descendant of each, which may be
  nested, for example in `<exclusions>`.
- A classifier counts only when there is exactly one `classifier` descendant.
  With two or more, the dependency has no classifier, so it is never a connector.
- Adding a dependency with an empty version writes a `<dependency>` without a
  `<version>`. After that, every read fails fast to the empty list (`AddThenRead`).

## Model

| member | source | states |
|---|---|---|
| `Dom.ElementsByTagNameTagged` | src/pomUtils.ts:17 | every node getElementsByTagName(t) returns is an element tagged t |
| `Dom.TextElement` | src/pomUtils.ts:64-72 | an element created and given textContent s reads back s as its textContent and contains no element |
| `Dom.AppendChild` | src/pomUtils.ts:81 | appendChild keeps the old children in order and adds the new node as the last child |
| `Dom.ElementsByTagNameAfterAppend` | src/pomUtils.ts:81 | after the append, the elements of any tag the new node does not bring are the old ones, in the same order, each with the append applied inside it |
| `Dom.AppendBelowUnique` | src/pomUtils.ts:81 | with exactly one descendant tagged t, the append adds the node to that element only, as its last child, and that element stays the only one tagged t |
| `Dom.TrimAfterAppendBelow` | src/pomUtils.ts:81 | removing the appended last child gives back the original tree, so no other node changed |
| `Dom.TextContent` | src/pomUtils.ts:20 | the textContent read by the checks and readers; an element without children has the empty text |
| `Dom.TextContentSkipsComment` | src/pomUtils.ts:95-97 | a comment child adds nothing to its element's textContent, wherever it sits among the children |
| `Dom.FirstTextContent` | src/pomUtils.ts:95-97 | the `.item(0).textContent` read fails (None, the TypeError) exactly when the list is empty |
| `Dom.AppendBelow` | src/pomUtils.ts:81 | the edit keeps the node's tag and its number of children; a node that is not an element is unchanged |
| `Pom.HasSoleText` | src/pomUtils.ts:20 | holds only of an element with exactly one descendant tagged t, whose textContent is s |
| `Pom.IsMulePlugin` | src/pomUtils.ts:33-37 | holds only of an element whose first groupId descendant reads org.mule.tools.maven and whose first artifactId descendant reads mule-maven-plugin |
| `Pom.BuildPlugins` | src/pomUtils.ts:23-27 | when the build and its plugins are unique, the list it gives holds only elements tagged plugin |
| `Pom.MulePom` | src/pomUtils.ts:12-46 | holds only of a document whose document element is an element with a first packaging descendant reading mule-application |
| `Pom.ReadDependency` | src/pomUtils.ts:95-108 | a readable dependency is an element, and its entry carries no classifier |
| `PomLemmas.ReadDependencyDefined` | src/pomUtils.ts:95-108 | a dependency is readable exactly when it has a groupId, an artifactId and a version descendant, and then reads as the text of the first of each |
| `Pom.ClassifierOf` | src/pomUtils.ts:100-104 | a classifier is read exactly when the dependency has one classifier descendant |
| `Pom.PassesFilter` | src/pomUtils.ts:107 | a missing or empty filter passes everything; a dependency whose classifier equals the filter passes; a dependency without classifier passes only a missing or empty filter |
| `Pom.ReadDependencies` | src/pomUtils.ts:91-116 | at most one entry per dependency element, none with a classifier, and the empty list when any element is unreadable |
| `Pom.PomDependencies` | src/pomUtils.ts:86-117 | fails exactly when there is no sole dependencies element, with NoDocument exactly when there is no document; otherwise at most one entry per dependency element below it |
| `Pom.DependencyElement` | src/pomUtils.ts:62-79 | the element built is tagged dependency and has two children, one more for a non-empty version and one more for a non-empty classifier, each an element tagged groupId, artifactId, version or classifier |
| `Pom.WithDependency` | src/pomUtils.ts:57-84 | the add fails exactly when there is no sole dependencies element, with NoDocument exactly when there is no document; otherwise the new document keeps its document element's tag |
| `Pom.GetDependenciesNode` | src/pomUtils.ts:119-134 | returns an element exactly when there is a document whose document element has exactly one descendant tagged dependencies; it is that element; None for zero, two or more, or no document |
| `Pom.Entries` | src/pomUtils.ts:91-108 | at most one entry per dependency element, and no entry carries a classifier |
| `Pom.PomUtils.constructor` | src/pomUtils.ts:8 | the utilities work on the given workspace pom.xml, or on none |
| `Pom.PomUtils.IsMulePom` | src/pomUtils.ts:10-47 | true exactly when there is a document with one packaging descendant reading mule-application, one build, one plugins under it, and some plugin under that with exactly one groupId reading org.mule.tools.maven and exactly one artifactId reading mule-maven-plugin below it; false without a document |
| `Pom.PomUtils.ReadPomDependencies` | src/pomUtils.ts:86-117 | throws without a sole dependencies element; otherwise the entries of the dependency elements below it, in document order and filtered by classifier, or the empty list as soon as one of them lacks a groupId, artifactId or version |
| `Pom.PomUtils.GetPomDependencies` | src/pomUtils.ts:49-51 | the read with no classifier filter |
| `Pom.PomUtils.GetMuleConnectorDependencies` | src/pomUtils.ts:53-55 | the read filtered on the classifier mule-plugin |
| `Pom.PomUtils.AddPomDependency` | src/pomUtils.ts:57-84 | with a document and a sole dependencies element, the document becomes the one with the new dependency element appended there; otherwise it fails with the reason and the document is unchanged |
| `PomLemmas.EntriesUnfiltered` | src/pomUtils.ts:91-108 | unfiltered, readable dependency elements give exactly one entry each, entry i read from element i |
| `PomLemmas.PomDependenciesOnePerElement` | src/pomUtils.ts:91-108 | getPomDependencies returns one entry per dependency element, in document order, each from the text of the first groupId, artifactId and version descendant |
| `PomLemmas.FailFast` | src/pomUtils.ts:94-113 | one dependency element without a groupId, artifactId or version descendant makes the result the empty list, for every filter |
| `PomLemmas.ReadThrowsWithoutSoleDependencies` | src/pomUtils.ts:89-92 | the read throws exactly when there is no document or not exactly one dependencies element, since that lookup is outside the try |
| `PomLemmas.EntriesCarryNoClassifier` | src/pomUtils.ts:108 | no returned entry carries a classifier |
| `PomLemmas.WithClassifier` | src/pomUtils.ts:100-104 | selects exactly the dependency elements whose only classifier descendant reads the given text; one with two or more classifiers is never selected |
| `PomLemmas.FilteredEntries` | src/pomUtils.ts:100-108 | filtering on a non-empty classifier gives the entries of exactly the selected elements, in order |
| `PomLemmas.FilteredIsSubsequence` | src/pomUtils.ts:106-108 | the filtered entries are a subsequence of the unfiltered entries |
| `PomLemmas.ConnectorDependencies` | src/pomUtils.ts:53-55 | the connector list throws exactly when the full list does; otherwise it is a subsequence of the full list, namely the entries of the elements with sole classifier mule-plugin, or empty when any dependency element is unreadable |
| `PomLemmas.DependencyElementQueries` | src/pomUtils.ts:62-79 | the new dependency element holds one groupId and one artifactId element, one version element only for a non-empty version, one classifier element only for a non-empty classifier, and nothing else |
| `PomLemmas.DependencyElementReadsBack` | src/pomUtils.ts:62-79 | the new element reads back as the added groupId, artifactId and version without a classifier, or as unreadable when the version is empty; its classifier reads back when non-empty |
| `PomLemmas.AddFailsWithoutSoleDependencies` | src/pomUtils.ts:58-81 | adding fails, before anything is written, exactly when there is no document or not exactly one dependencies element |
| `PomLemmas.AddAppendsToDependenciesNode` | src/pomUtils.ts:81 | after adding, the sole dependencies element is the old one with the new dependency element as its last child |
| `PomLemmas.AddChangesNothingElse` | src/pomUtils.ts:81 | removing that last child gives back the document as read |
| `PomLemmas.AddKeepsOtherElements` | src/pomUtils.ts:81 | elements of every other tag keep their number and order, and those that do not contain the dependencies element are unchanged |
| `PomLemmas.ReadAppended` | src/pomUtils.ts:91-116 | reading one more dependency element at the end appends its entry when it passes the filter, or gives the empty list when it or an earlier one is unreadable |
| `PomLemmas.DependencyElementsAfterAdd` | src/pomUtils.ts:81 | after adding, the dependency elements under the sole dependencies element are the old ones followed by the new one |
| `PomLemmas.AddThenRead` | src/pomUtils.ts:57-117 | after a successful add, every read returns the old entries plus the new entry last when it passes the filter, or the empty list when the added version is empty or an old element is unreadable |
| `PomLemmas.AddToEmptyThenRead` | src/pomUtils.ts:57-117 | after adding a dependency with a version to an empty dependencies element, every read whose filter it passes returns exactly its entry |
| `PomLemmas.AddConnectorToEmptyDependencies` | src/pomUtils.ts:57-84 | adding a versioned mule-plugin dependency to an empty dependencies element makes it the only dependency and the only connector |
| `MuleProject.ProjectWithPluginPlugins` | src/pomUtils.ts:17-27 | a Mule application project declaring one build plugin has one packaging reading mule-application and exactly that plugin in its build |
| `MuleProject.ProjectWithPluginIsMule` | src/pomUtils.ts:10-47 | for such a project, isMulePom is exactly the plugin check on its plugin |
| `MuleProject.MinimalMulePomIsMule` | src/pomUtils.ts:10-47 | isMulePom holds of a project with packaging mule-application whose build declares the Mule Maven plugin |
| `MuleProject.SharedLibraryPluginGroupIds` | src/pomUtils.ts:33 | below a Mule Maven plugin that configures a shared library there are two groupId elements: the plugin's own, then the library's |
| `MuleProject.SharedLibraryHidesMulePlugin` | src/pomUtils.ts:33-37 | as written, a Mule Maven plugin that configures a shared library fails the plugin check, and its project is not recognised |
| `MuleProject.DeclarationIgnoresOtherChildren` | src/pomUtils.ts:33-37 | with the corrected check, adding a child that is not a groupId or artifactId element never changes whether a plugin is recognised |
| `MuleProject.SharedLibraryKeepsMulePluginDeclaration` | src/pomUtils.ts:33-37 | with the corrected check, the Mule Maven plugin is recognised with or without a shared library, and so is its project |

## Left out

- Reading and writing `pom.xml` (`getPomDocument`, `setPomDocument`, `pathExists`, src/pomUtils.ts:136-164) is file I/O. The document is the field `pom` (None when the file is absent), and writing is the new value of that field.
- XML parsing and serialisation (`DOMParser`, `XMLSerializer`) are foreign library calls. The model starts from the parsed tree and does not cover the document text, malformed XML or the parser's error recovery.
- The `console.error` call in the catch (src/pomUtils.ts:111) is logging only.
- DOM node identity is not modelled. The in-place `appendChild` on the dependencies node is modelled as replacing the tree with one where that node has the new last child. Aliasing between node objects is not captured.
- Attributes and namespaces are not modelled: tag names are compared as qualified names, which is all the core does. The `*` wildcard of `getElementsByTagName` is not modelled, because the core never passes it.
- `removePomDependency` is called from src/muleDependencies.ts:112 but is not defined in src/pomUtils.ts. Removal and version replacement are not part of this model.
- A `version` or `classifier` that is undefined at run time is not a separate case: `Pom.MavenDependency` holds a string version, and an undefined version behaves as the empty string, since no `<version>` element is then written (src/pomUtils.ts:76-77).
- src/muleDependencies.ts (tree-view glue and record copies), src/extension.ts (command registration) and src/exchangeClient.ts (one HTTP GET) are not part of this model.

## Findings

| source | as written | input that shows it | evidently intended | confidence | as-written member | corrected member |
|---|---|---|---|---|---|---|
| src/pomUtils.ts:33-37 | the plugin check counts every groupId and artifactId element anywhere below a `<plugin>` and requires exactly one of each | the Mule Maven plugin declared with `<configuration><sharedLibraries><sharedLibrary>` holding its own groupId and artifactId, as Mule applications declare database drivers | identify the plugin by the groupId and artifactId that are children of the `<plugin>` element itself | medium; not executed | `MuleProject.SharedLibraryHidesMulePlugin` | `MuleProject.SharedLibraryKeepsMulePluginDeclaration` |

`Pom.PomUtils.IsMulePom` keeps the behaviour as written. The corrected check is
`MuleProject.MulePomCorrected`, built on `MuleProject.IsMulePluginDeclaration`.
Nothing else in the model depends on the plugin check.
