/**
 * The POM utilities of the Mule connector extension: queries over, and one
 * edit of, the workspace's Maven build file (pom.xml), taken as a DOM tree.
 *
 * The functions in this module say what each operation computes from the
 * document; class PomUtils holds the document and runs the operations
 * step by step, and its methods are proved to agree with those functions.
 */
module Pom {
  import opened Dom

  const MULE_APPLICATION_PACKAGING := "mule-application"
  const MULE_PLUGIN_GROUP_ID := "org.mule.tools.maven"
  const MULE_PLUGIN_ARTIFACT_ID := "mule-maven-plugin"
  /** The classifier that marks a dependency as a Mule connector. */
  const MULE_PLUGIN_CLASSIFIER := "mule-plugin"

  /** A Maven dependency; classifier None is an absent (undefined) classifier. */
  datatype MavenDependency = MavenDependency(groupId: string, artifactId: string, version: string, classifier: Option<string>)

  /** Why an operation throws. In the source both are a TypeError from a property access on undefined. */
  datatype Failure = NoDocument | NoDependenciesNode

  datatype Result<T> = Ok(value: T) | Err(failure: Failure)

  // ---------------------------------------------------------------------------
  // isMulePom

  /** n has exactly one descendant tagged t, and its text is s. */
  predicate HasSoleText(n: Node, t: string, s: string): (b: bool)
    ensures b ==> n.Element? && |ElementsByTagName(n, t)| == 1
    ensures b ==> FirstTextContent(ElementsByTagName(n, t)) == Some(s)
  {
    var ns := ElementsByTagName(n, t);
    |ns| == 1 && TextContent(ns[0]) == s
  }

  /** A <plugin> element that declares the Mule Maven plugin. */
  predicate IsMulePlugin(plugin: Node): (b: bool)
    ensures b ==> plugin.Element?
    ensures b ==> FirstTextContent(ElementsByTagName(plugin, "groupId")) == Some(MULE_PLUGIN_GROUP_ID)
    ensures b ==> FirstTextContent(ElementsByTagName(plugin, "artifactId")) == Some(MULE_PLUGIN_ARTIFACT_ID)
  {
    HasSoleText(plugin, "groupId", MULE_PLUGIN_GROUP_ID) && HasSoleText(plugin, "artifactId", MULE_PLUGIN_ARTIFACT_ID)
  }

  /** The <plugin> elements under the sole <plugins> of the sole <build>, when both are unique. */
  function BuildPlugins(root: Node): (r: Option<seq<Node>>)
    ensures r.Some? ==> root.Element?
    ensures r.Some? ==> forall p :: p in r.value ==> p.Element? && p.tag == "plugin"
  {
    var builds := ElementsByTagName(root, "build");
    if |builds| != 1 then None
    else
      var pluginsNodes := ElementsByTagName(builds[0], "plugins");
      if |pluginsNodes| != 1 then None
      else
        ElementsByTagNameTagged(pluginsNodes[0], "plugin");
        Some(ElementsByTagName(pluginsNodes[0], "plugin"))
  }

  /** The document is a Mule application project. */
  predicate MulePom(doc: Option<Node>): (b: bool)
    ensures b ==> doc.Some? && doc.value.Element?
    ensures b ==> FirstTextContent(ElementsByTagName(doc.value, "packaging")) == Some(MULE_APPLICATION_PACKAGING)
  {
    doc.Some?
    && HasSoleText(doc.value, "packaging", MULE_APPLICATION_PACKAGING)
    && BuildPlugins(doc.value).Some?
    && exists p :: p in BuildPlugins(doc.value).value && IsMulePlugin(p)
  }

  // ---------------------------------------------------------------------------
  // getDependenciesNode

  /** The document's only <dependencies> element, at any depth below the document element. */
  function GetDependenciesNode(doc: Option<Node>): (r: Option<Node>)
    ensures r.Some? <==> doc.Some? && |ElementsByTagName(doc.value, "dependencies")| == 1
    ensures r.Some? ==> r.value.Element? && r.value.tag == "dependencies"
    ensures r.Some? ==> ElementsByTagName(doc.value, "dependencies") == [r.value]
  {
    if doc.None? then None
    else
      var nodes := ElementsByTagName(doc.value, "dependencies");
      ElementsByTagNameTagged(doc.value, "dependencies");
      if |nodes| == 1 then Some(nodes[0]) else None
  }

  // ---------------------------------------------------------------------------
  // readPomDependencies

  /** The entry read from one <dependency>; None when a groupId, artifactId or version descendant is missing. */
  function ReadDependency(d: Node): (r: Option<MavenDependency>)
    ensures r.Some? ==> d.Element? && r.value.classifier.None?
  {
    var groupId := FirstTextContent(ElementsByTagName(d, "groupId"));
    var artifactId := FirstTextContent(ElementsByTagName(d, "artifactId"));
    var version := FirstTextContent(ElementsByTagName(d, "version"));
    if groupId.None? || artifactId.None? || version.None? then None
    else Some(MavenDependency(groupId.value, artifactId.value, version.value, None))
  }

  /** The classifier of a <dependency>: the text of its classifier descendant when it has exactly one. */
  function ClassifierOf(d: Node): (r: Option<string>)
    ensures r.Some? <==> |ElementsByTagName(d, "classifier")| == 1
    ensures r.Some? ==> d.Element?
  {
    var nodes := ElementsByTagName(d, "classifier");
    if |nodes| == 1 then Some(TextContent(nodes[0])) else None
  }

  /** A missing or empty filter keeps every dependency; any other keeps those whose classifier equals it. */
  predicate PassesFilter(filter: Option<string>, classifier: Option<string>): (b: bool)
    ensures filter.None? || filter == Some("") ==> b
    ensures classifier == filter ==> b
    ensures classifier.None? ==> (b <==> filter.None? || filter == Some(""))
  {
    filter.None? || filter.value == "" || filter == classifier
  }

  predicate AllReadable(ds: seq<Node>)
  {
    forall i :: 0 <= i < |ds| ==> ReadDependency(ds[i]).Some?
  }

  /** The entries of readable <dependency> elements that pass the filter, in document order. */
  function Entries(ds: seq<Node>, filter: Option<string>): (r: seq<MavenDependency>)
    requires AllReadable(ds)
    ensures |r| <= |ds|
    ensures forall e :: e in r ==> e.classifier.None?
  {
    if ds == [] then []
    else
      var d := ds[|ds| - 1];
      Entries(ds[..|ds| - 1], filter) + (if PassesFilter(filter, ClassifierOf(d)) then [ReadDependency(d).value] else [])
  }

  /** A readable prefix followed by one more readable element is readable. */
  lemma AllReadableExtend(ds: seq<Node>, i: nat)
    requires i < |ds| && AllReadable(ds[..i]) && ReadDependency(ds[i]).Some?
    ensures AllReadable(ds[..i + 1])
  {
    var s := ds[..i + 1];
    forall j | 0 <= j < |s| ensures ReadDependency(s[j]).Some? {
      if j < i {
        assert s[j] == ds[..i][j];
      }
    }
  }

  /** One more element read: the entries of the prefix, then the element's own entry if it passes the filter. */
  lemma EntriesStep(ds: seq<Node>, i: nat, filter: Option<string>)
    requires i < |ds| && AllReadable(ds[..i]) && ReadDependency(ds[i]).Some?
    ensures AllReadable(ds[..i + 1])
    ensures Entries(ds[..i + 1], filter) == Entries(ds[..i], filter)
      + (if PassesFilter(filter, ClassifierOf(ds[i])) then [ReadDependency(ds[i]).value] else [])
  {
    AllReadableExtend(ds, i);
    var s := ds[..i + 1];
    assert s[..|s| - 1] == ds[..i] && s[|s| - 1] == ds[i];
  }

  /** Reading a list of <dependency> elements: one unreadable element empties the whole result. */
  function ReadDependencies(ds: seq<Node>, filter: Option<string>): (r: seq<MavenDependency>)
    ensures |r| <= |ds|
    ensures !AllReadable(ds) ==> r == []
    ensures forall e :: e in r ==> e.classifier.None?
  {
    if AllReadable(ds) then Entries(ds, filter) else []
  }

  /** readPomDependencies(filter) on the document; it throws when there is no sole <dependencies>. */
  function PomDependencies(doc: Option<Node>, filter: Option<string>): (r: Result<seq<MavenDependency>>)
    ensures r.Err? <==> GetDependenciesNode(doc).None?
    ensures r.Err? ==> (r.failure == NoDocument <==> doc.None?)
    ensures r.Ok? ==> |r.value| <= |ElementsByTagName(GetDependenciesNode(doc).value, "dependency")|
  {
    match GetDependenciesNode(doc)
    case None => Err(if doc.None? then NoDocument else NoDependenciesNode)
    case Some(deps) => Ok(ReadDependencies(ElementsByTagName(deps, "dependency"), filter))
  }

  // ---------------------------------------------------------------------------
  // addPomDependency

  /** The truthiness of dependency.classifier: present and not empty. */
  predicate HasClassifier(dep: MavenDependency)
  {
    dep.classifier.Some? && dep.classifier.value != ""
  }

  /** The <dependency> element that addPomDependency builds for dep. */
  function DependencyElement(dep: MavenDependency): (r: Node)
    ensures r.Element? && r.tag == "dependency"
    ensures |r.children| == 2 + (if dep.version != "" then 1 else 0) + (if HasClassifier(dep) then 1 else 0)
    ensures forall c :: c in r.children ==> c.Element? && c.tag in {"groupId", "artifactId", "version", "classifier"}
  {
    Element("dependency",
      [TextElement("groupId", dep.groupId), TextElement("artifactId", dep.artifactId)]
      + (if dep.version != "" then [TextElement("version", dep.version)] else [])
      + (if HasClassifier(dep) then [TextElement("classifier", dep.classifier.value)] else []))
  }

  /** The document addPomDependency(dep) writes back, or why it throws before writing. */
  function WithDependency(doc: Option<Node>, dep: MavenDependency): (r: Result<Node>)
    ensures r.Err? <==> GetDependenciesNode(doc).None?
    ensures r.Err? ==> (r.failure == NoDocument <==> doc.None?)
    ensures r.Ok? ==> doc.value.Element? && r.value.Element? && r.value.tag == doc.value.tag
  {
    if doc.None? then Err(NoDocument)
    else if GetDependenciesNode(doc).None? then Err(NoDependenciesNode)
    else Ok(AppendBelow(doc.value, "dependencies", DependencyElement(dep)))
  }

  // ---------------------------------------------------------------------------
  // The utilities, over the workspace's pom.xml

  class PomUtils {
    /** The workspace's pom.xml as parsed; None when the file does not exist. */
    var pom: Option<Node>

    constructor (pom: Option<Node>)
      ensures this.pom == pom
    {
      this.pom := pom;
    }

    method IsMulePom() returns (b: bool)
      ensures b == MulePom(pom)
    {
      if pom.None? {
        return false;
      }
      var root := pom.value;
      // the nested checks of the source, each failing one returning false at once
      if !HasSoleText(root, "packaging", MULE_APPLICATION_PACKAGING) {
        return false;
      }
      var buildNodes := ElementsByTagName(root, "build");
      if |buildNodes| != 1 {
        assert BuildPlugins(root).None?;
        return false;
      }
      var pluginsNodes := ElementsByTagName(buildNodes[0], "plugins");
      if |pluginsNodes| != 1 {
        assert BuildPlugins(root).None?;
        return false;
      }
      var pluginNodes := ElementsByTagName(pluginsNodes[0], "plugin");
      assert BuildPlugins(root) == Some(pluginNodes);
      // there may be several build plugins: look at each in turn
      for i := 0 to |pluginNodes|
        invariant forall j :: 0 <= j < i ==> !IsMulePlugin(pluginNodes[j])
      {
        var plugin := pluginNodes[i];
        if IsMulePlugin(plugin) {
          assert plugin in pluginNodes;
          return true;
        }
      }
      assert forall p :: p in pluginNodes ==> !IsMulePlugin(p);
      return false;
    }

    method GetPomDependencies() returns (r: Result<seq<MavenDependency>>)
      ensures r == PomDependencies(pom, None)
    {
      r := ReadPomDependencies(None);
    }

    method GetMuleConnectorDependencies() returns (r: Result<seq<MavenDependency>>)
      ensures r == PomDependencies(pom, Some(MULE_PLUGIN_CLASSIFIER))
    {
      r := ReadPomDependencies(Some(MULE_PLUGIN_CLASSIFIER));
    }

    method ReadPomDependencies(classifierFilter: Option<string>) returns (r: Result<seq<MavenDependency>>)
      ensures r == PomDependencies(pom, classifierFilter)
    {
      var dependenciesNode := GetDependenciesNode(pom);
      if dependenciesNode.None? {
        // the lookup is outside the try: the call throws
        return Err(if pom.None? then NoDocument else NoDependenciesNode);
      }
      var dependencyNodes := ElementsByTagName(dependenciesNode.value, "dependency");
      var pomDependencies := [];
      for i := 0 to |dependencyNodes|
        invariant AllReadable(dependencyNodes[..i])
        invariant pomDependencies == Entries(dependencyNodes[..i], classifierFilter)
      {
        var d := dependencyNodes[i];
        var groupId := FirstTextContent(ElementsByTagName(d, "groupId"));
        var artifactId := FirstTextContent(ElementsByTagName(d, "artifactId"));
        var version := FirstTextContent(ElementsByTagName(d, "version"));
        if groupId.None? || artifactId.None? || version.None? {
          // the catch: one unreadable dependency empties the whole result
          assert ReadDependency(dependencyNodes[i]).None?;
          return Ok([]);
        }
        var classifier := None;
        var classifierNodes := ElementsByTagName(d, "classifier");
        if |classifierNodes| == 1 {
          classifier := Some(TextContent(classifierNodes[0]));
        }
        assert ReadDependency(d) == Some(MavenDependency(groupId.value, artifactId.value, version.value, None));
        assert ClassifierOf(d) == classifier;
        EntriesStep(dependencyNodes, i, classifierFilter);
        if classifierFilter.None? || classifierFilter.value == "" || classifierFilter == classifier {
          pomDependencies := pomDependencies + [MavenDependency(groupId.value, artifactId.value, version.value, None)];
        }
      }
      assert dependencyNodes[..|dependencyNodes|] == dependencyNodes;
      return Ok(pomDependencies);
    }

    method AddPomDependency(dependency: MavenDependency) returns (r: Result<()>)
      modifies this
      ensures WithDependency(old(pom), dependency).Err? ==>
        r == Err(WithDependency(old(pom), dependency).failure) && pom == old(pom)
      ensures WithDependency(old(pom), dependency).Ok? ==>
        r == Ok(()) && pom == Some(WithDependency(old(pom), dependency).value)
    {
      if pom.None? {
        // createElement on an undefined document
        return Err(NoDocument);
      }
      var dependenciesNode := GetDependenciesNode(pom);
      var groupId := TextElement("groupId", dependency.groupId);
      var artifactId := TextElement("artifactId", dependency.artifactId);
      var children := [groupId, artifactId];
      if dependency.version != "" {
        children := children + [TextElement("version", dependency.version)];
      }
      if HasClassifier(dependency) {
        children := children + [TextElement("classifier", dependency.classifier.value)];
      }
      var dependencyElement := Element("dependency", children);
      assert dependencyElement == DependencyElement(dependency);
      if dependenciesNode.None? {
        // appendChild on an undefined dependencies node: nothing is written
        return Err(NoDependenciesNode);
      }
      pom := Some(AppendBelow(pom.value, "dependencies", dependencyElement));
      return Ok(());
    }
  }
}
