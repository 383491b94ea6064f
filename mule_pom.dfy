/**
 * The Mule project check (isMulePom) on concrete plugin declarations, and the
 * direct-children check it evidently means: the as-written check counts
 * groupId and artifactId elements anywhere below a <plugin>, so the Mule
 * Maven plugin is not recognised once its configuration names a shared
 * library (which has a groupId and an artifactId of its own).
 */
module MuleProject {
  import opened Dom
  import opened Pom

  /** A <plugin> element with the given groupId and artifactId children and nothing else. */
  function PluginDeclaration(groupId: string, artifactId: string): (r: Node)
    ensures r.Element? && r.tag == "plugin"
  {
    Element("plugin", [TextElement("groupId", groupId), TextElement("artifactId", artifactId)])
  }

  /** A Mule application project (packaging mule-application) whose build declares one plugin. */
  function ProjectWithPlugin(plugin: Node): Node
  {
    Element("project", [
      TextElement("packaging", MULE_APPLICATION_PACKAGING),
      Element("build", [Element("plugins", [plugin])])])
  }

  lemma PluginDeclarationTagged(groupId: string, artifactId: string, u: string)
    ensures ElementsByTagName(PluginDeclaration(groupId, artifactId), u) ==
      (if u == "groupId" then [TextElement("groupId", groupId)] else [])
      + (if u == "artifactId" then [TextElement("artifactId", artifactId)] else [])
  {
    TaggedForestPair(TextElement("groupId", groupId), TextElement("artifactId", artifactId), u);
  }

  /** The elements tagged u in <build><plugins>plugin</plugins></build>, for tags not found inside plugin. */
  lemma BuildTagged(plugin: Node, u: string)
    requires plugin.Element? && plugin.tag == "plugin"
    requires u != "plugin" && ElementsByTagName(plugin, u) == []
    ensures Tagged(Element("build", [Element("plugins", [plugin])]), u) ==
      (if u == "build" then [Element("build", [Element("plugins", [plugin])])] else [])
      + (if u == "plugins" then [Element("plugins", [plugin])] else [])
  {
    var plugins := Element("plugins", [plugin]);
    TaggedForestSingleton(plugin, u);
    TaggedForestSingleton(plugins, u);
  }

  /** The project's build plugins are exactly the one declared, when it holds none of the tags the check counts. */
  lemma ProjectWithPluginPlugins(plugin: Node)
    requires plugin.Element? && plugin.tag == "plugin"
    requires forall u :: u in {"packaging", "build", "plugins", "plugin"} ==> ElementsByTagName(plugin, u) == []
    ensures HasSoleText(ProjectWithPlugin(plugin), "packaging", MULE_APPLICATION_PACKAGING)
    ensures BuildPlugins(ProjectWithPlugin(plugin)) == Some([plugin])
  {
    var plugins := Element("plugins", [plugin]);
    var build := Element("build", [plugins]);
    var packaging := TextElement("packaging", MULE_APPLICATION_PACKAGING);
    var root := ProjectWithPlugin(plugin);
    assert ElementsByTagName(root, "packaging") == [packaging] by {
      BuildTagged(plugin, "packaging");
      TaggedForestPair(packaging, build, "packaging");
    }
    assert ElementsByTagName(root, "build") == [build] by {
      BuildTagged(plugin, "build");
      TaggedForestPair(packaging, build, "build");
    }
    assert ElementsByTagName(build, "plugins") == [plugins] by {
      BuildTagged(plugin, "plugins");
      TaggedForestSingleton(plugins, "plugins");
    }
    assert ElementsByTagName(plugins, "plugin") == [plugin] by {
      TaggedForestSingleton(plugin, "plugin");
      assert Tagged(plugin, "plugin") == [plugin] + ElementsByTagName(plugin, "plugin");
    }
  }

  /** isMulePom of a Mule application project with one build plugin is the plugin check on that plugin. */
  lemma ProjectWithPluginIsMule(plugin: Node)
    requires plugin.Element? && plugin.tag == "plugin"
    requires forall u :: u in {"packaging", "build", "plugins", "plugin"} ==> ElementsByTagName(plugin, u) == []
    ensures MulePom(Some(ProjectWithPlugin(plugin))) <==> IsMulePlugin(plugin)
  {
    ProjectWithPluginPlugins(plugin);
    assert plugin in [plugin];
  }

  /** isMulePom holds of the smallest Mule application project: the Mule Maven plugin declared by its groupId and artifactId only. */
  lemma MinimalMulePomIsMule()
    ensures MulePom(Some(ProjectWithPlugin(PluginDeclaration(MULE_PLUGIN_GROUP_ID, MULE_PLUGIN_ARTIFACT_ID))))
  {
    var plugin := PluginDeclaration(MULE_PLUGIN_GROUP_ID, MULE_PLUGIN_ARTIFACT_ID);
    forall u | u in {"packaging", "build", "plugins", "plugin"} ensures ElementsByTagName(plugin, u) == [] {
      PluginDeclarationTagged(MULE_PLUGIN_GROUP_ID, MULE_PLUGIN_ARTIFACT_ID, u);
    }
    assert IsMulePlugin(plugin) by {
      PluginDeclarationTagged(MULE_PLUGIN_GROUP_ID, MULE_PLUGIN_ARTIFACT_ID, "groupId");
      PluginDeclarationTagged(MULE_PLUGIN_GROUP_ID, MULE_PLUGIN_ARTIFACT_ID, "artifactId");
    }
    ProjectWithPluginIsMule(plugin);
  }

  /**
   * The Mule Maven plugin declaration with a configuration naming one shared
   * library, as Mule applications declare database drivers.
   */
  function PluginWithSharedLibrary(libraryGroupId: string, libraryArtifactId: string): (r: Node)
    ensures r.Element? && r.tag == "plugin"
  {
    AppendChild(PluginDeclaration(MULE_PLUGIN_GROUP_ID, MULE_PLUGIN_ARTIFACT_ID),
      Element("configuration", [Element("sharedLibraries", [
        Element("sharedLibrary", [
          TextElement("groupId", libraryGroupId), TextElement("artifactId", libraryArtifactId)])])]))
  }

  /** A configuration naming one shared library lg, la holds, for any tag but its three wrapper tags, only what lg and la hold. */
  lemma SharedLibraryConfigurationTagged(lg: Node, la: Node, u: string)
    requires u !in {"configuration", "sharedLibraries", "sharedLibrary"}
    ensures Tagged(Element("configuration", [Element("sharedLibraries", [Element("sharedLibrary", [lg, la])])]), u)
      == Tagged(lg, u) + Tagged(la, u)
  {
    var library := Element("sharedLibrary", [lg, la]);
    var libraries := Element("sharedLibraries", [library]);
    assert Tagged(library, u) == Tagged(lg, u) + Tagged(la, u) by { TaggedForestPair(lg, la, u); }
    assert Tagged(libraries, u) == Tagged(library, u) by { TaggedForestSingleton(library, u); }
    TaggedForestSingleton(libraries, u);
  }

  /**
   * In a plugin element whose children are g, a and a configuration naming one
   * shared library lg, la, any tag but the three wrapper tags is found only on
   * those four children.
   */
  lemma SharedLibraryShapeTagged(g: Node, a: Node, lg: Node, la: Node, u: string)
    requires u !in {"configuration", "sharedLibraries", "sharedLibrary"}
    ensures ElementsByTagName(Element("plugin", [g, a, Element("configuration", [Element("sharedLibraries", [
        Element("sharedLibrary", [lg, la])])])]), u)
      == Tagged(g, u) + Tagged(a, u) + (Tagged(lg, u) + Tagged(la, u))
  {
    var configuration := Element("configuration", [Element("sharedLibraries", [Element("sharedLibrary", [lg, la])])]);
    SharedLibraryConfigurationTagged(lg, la, u);
    assert [g, a, configuration] == [g, a] + [configuration];
    TaggedForestConcat([g, a], [configuration], u);
    TaggedForestPair(g, a, u);
    TaggedForestSingleton(configuration, u);
  }

  /** The shared-library plugin written out: the plugin's groupId and artifactId, then the configuration. */
  lemma SharedLibraryPluginShape(libraryGroupId: string, libraryArtifactId: string)
    ensures PluginWithSharedLibrary(libraryGroupId, libraryArtifactId) == Element("plugin", [
      TextElement("groupId", MULE_PLUGIN_GROUP_ID), TextElement("artifactId", MULE_PLUGIN_ARTIFACT_ID),
      Element("configuration", [Element("sharedLibraries", [Element("sharedLibrary", [
        TextElement("groupId", libraryGroupId), TextElement("artifactId", libraryArtifactId)])])])])
  {
    var g := TextElement("groupId", MULE_PLUGIN_GROUP_ID);
    var a := TextElement("artifactId", MULE_PLUGIN_ARTIFACT_ID);
    var configuration := Element("configuration", [Element("sharedLibraries", [Element("sharedLibrary", [
      TextElement("groupId", libraryGroupId), TextElement("artifactId", libraryArtifactId)])])]);
    assert [g, a] + [configuration] == [g, a, configuration];
  }

  /** Below the shared-library plugin there are two groupId elements: the plugin's own, then the library's. */
  lemma SharedLibraryPluginGroupIds(libraryGroupId: string, libraryArtifactId: string)
    ensures ElementsByTagName(PluginWithSharedLibrary(libraryGroupId, libraryArtifactId), "groupId")
      == [TextElement("groupId", MULE_PLUGIN_GROUP_ID), TextElement("groupId", libraryGroupId)]
  {
    var g := TextElement("groupId", MULE_PLUGIN_GROUP_ID);
    var a := TextElement("artifactId", MULE_PLUGIN_ARTIFACT_ID);
    var lg := TextElement("groupId", libraryGroupId);
    var la := TextElement("artifactId", libraryArtifactId);
    SharedLibraryPluginShape(libraryGroupId, libraryArtifactId);
    SharedLibraryShapeTagged(g, a, lg, la, "groupId");
    assert Tagged(g, "groupId") == [g] && Tagged(lg, "groupId") == [lg];
    assert Tagged(a, "groupId") == [] && Tagged(la, "groupId") == [];
    assert [g] + [] + ([lg] + []) == [g, lg];
  }

  /** Below the shared-library plugin there is nothing tagged as the levels above a plugin are. */
  lemma SharedLibraryPluginOtherTags(libraryGroupId: string, libraryArtifactId: string, u: string)
    requires u in {"packaging", "build", "plugins", "plugin"}
    ensures ElementsByTagName(PluginWithSharedLibrary(libraryGroupId, libraryArtifactId), u) == []
  {
    var g := TextElement("groupId", MULE_PLUGIN_GROUP_ID);
    var a := TextElement("artifactId", MULE_PLUGIN_ARTIFACT_ID);
    var lg := TextElement("groupId", libraryGroupId);
    var la := TextElement("artifactId", libraryArtifactId);
    SharedLibraryPluginShape(libraryGroupId, libraryArtifactId);
    SharedLibraryShapeTagged(g, a, lg, la, u);
    assert u != "groupId" && u != "artifactId";
    assert Tagged(g, u) == [] && Tagged(lg, u) == [];
    assert Tagged(a, u) == [] && Tagged(la, u) == [];
  }

  /**
   * As written: in a Mule application whose Mule Maven plugin configures a
   * shared library, the library's groupId makes two below the plugin, the
   * plugin is not recognised and isMulePom is false.
   */
  lemma SharedLibraryHidesMulePlugin(libraryGroupId: string, libraryArtifactId: string)
    ensures !IsMulePlugin(PluginWithSharedLibrary(libraryGroupId, libraryArtifactId))
    ensures !MulePom(Some(ProjectWithPlugin(PluginWithSharedLibrary(libraryGroupId, libraryArtifactId))))
  {
    var p := PluginWithSharedLibrary(libraryGroupId, libraryArtifactId);
    forall u | u in {"packaging", "build", "plugins", "plugin", "groupId"}
      ensures u != "groupId" ==> ElementsByTagName(p, u) == []
      ensures u == "groupId" ==> |ElementsByTagName(p, u)| == 2
    {
      if u == "groupId" {
        SharedLibraryPluginGroupIds(libraryGroupId, libraryArtifactId);
      } else {
        SharedLibraryPluginOtherTags(libraryGroupId, libraryArtifactId, u);
      }
    }
    ProjectWithPluginIsMule(p);
  }

  // ---------------------------------------------------------------------------
  // The evidently intended check: the plugin's own, direct, groupId and artifactId

  /** The children of an element that are elements tagged t, in order. */
  function ChildElementsTagged(cs: seq<Node>, t: string): (r: seq<Node>)
    ensures |r| <= |cs|
    ensures forall e :: e in r ==> e in cs && e.Element? && e.tag == t
  {
    if cs == [] then []
    else
      var c := cs[|cs| - 1];
      assert forall e :: e in cs[..|cs| - 1] ==> e in cs;
      ChildElementsTagged(cs[..|cs| - 1], t) + (if c.Element? && c.tag == t then [c] else [])
  }

  /** The plugin has exactly one child tagged t, with text s. */
  predicate HasSoleChildText(plugin: Node, t: string, s: string)
  {
    plugin.Element?
    && var ns := ChildElementsTagged(plugin.children, t);
    |ns| == 1 && TextContent(ns[0]) == s
  }

  /** The Mule Maven plugin, identified by the groupId and artifactId of the <plugin> element itself. */
  predicate IsMulePluginDeclaration(plugin: Node)
  {
    HasSoleChildText(plugin, "groupId", MULE_PLUGIN_GROUP_ID)
    && HasSoleChildText(plugin, "artifactId", MULE_PLUGIN_ARTIFACT_ID)
  }

  /** Corrected: whatever the plugin's configuration holds, it does not change whether the plugin is recognised. */
  lemma DeclarationIgnoresOtherChildren(plugin: Node, child: Node)
    requires plugin.Element?
    requires !(child.Element? && child.tag in {"groupId", "artifactId"})
    ensures IsMulePluginDeclaration(AppendChild(plugin, child)) == IsMulePluginDeclaration(plugin)
  {
    var cs := plugin.children + [child];
    assert cs[..|cs| - 1] == plugin.children;
  }

  /** isMulePom with the plugin identified by its own groupId and artifactId children. */
  predicate MulePomCorrected(doc: Option<Node>)
  {
    doc.Some?
    && HasSoleText(doc.value, "packaging", MULE_APPLICATION_PACKAGING)
    && BuildPlugins(doc.value).Some?
    && exists p :: p in BuildPlugins(doc.value).value && IsMulePluginDeclaration(p)
  }

  /**
   * Corrected: the plain declaration of the Mule Maven plugin is recognised,
   * and stays recognised, in the plugin and in the project, when it configures
   * a shared library.
   */
  lemma SharedLibraryKeepsMulePluginDeclaration(libraryGroupId: string, libraryArtifactId: string)
    ensures IsMulePluginDeclaration(PluginDeclaration(MULE_PLUGIN_GROUP_ID, MULE_PLUGIN_ARTIFACT_ID))
    ensures IsMulePluginDeclaration(PluginWithSharedLibrary(libraryGroupId, libraryArtifactId))
    ensures MulePomCorrected(Some(ProjectWithPlugin(PluginWithSharedLibrary(libraryGroupId, libraryArtifactId))))
  {
    var g := TextElement("groupId", MULE_PLUGIN_GROUP_ID);
    var a := TextElement("artifactId", MULE_PLUGIN_ARTIFACT_ID);
    assert [g, a][..1] == [g];
    assert ChildElementsTagged([g, a], "groupId") == [g];
    assert ChildElementsTagged([g, a], "artifactId") == [a];
    var configuration := Element("configuration", [Element("sharedLibraries", [
      Element("sharedLibrary", [
        TextElement("groupId", libraryGroupId), TextElement("artifactId", libraryArtifactId)])])]);
    DeclarationIgnoresOtherChildren(PluginDeclaration(MULE_PLUGIN_GROUP_ID, MULE_PLUGIN_ARTIFACT_ID), configuration);
    var p := PluginWithSharedLibrary(libraryGroupId, libraryArtifactId);
    forall u | u in {"packaging", "build", "plugins", "plugin"} ensures ElementsByTagName(p, u) == [] {
      SharedLibraryPluginOtherTags(libraryGroupId, libraryArtifactId, u);
    }
    ProjectWithPluginPlugins(p);
    assert p in BuildPlugins(ProjectWithPlugin(p)).value;
  }
}
