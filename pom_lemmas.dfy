/**
 * Properties of the POM utilities: what the dependency readers return,
 * how the connector list relates to the full list, and what adding a
 * dependency does to the document and to every later read.
 */
module PomLemmas {
  import opened Dom
  import opened Pom

  // ---------------------------------------------------------------------------
  // Reading dependencies

  /** Without a filter, each readable <dependency> gives exactly one entry, in document order. */
  lemma EntriesUnfiltered(ds: seq<Node>)
    requires AllReadable(ds)
    ensures |Entries(ds, None)| == |ds|
    ensures forall i :: 0 <= i < |ds| ==> Entries(ds, None)[i] == ReadDependency(ds[i]).value
  {
    EntriesUnfilteredLength(ds);
    forall i | 0 <= i < |ds| ensures Entries(ds, None)[i] == ReadDependency(ds[i]).value {
      EntriesUnfilteredAt(ds, i);
    }
  }

  lemma AllReadablePrefix(ds: seq<Node>, n: nat)
    requires AllReadable(ds) && n <= |ds|
    ensures AllReadable(ds[..n])
  {
    forall i | 0 <= i < n ensures ReadDependency(ds[..n][i]).Some? {
      assert ds[..n][i] == ds[i];
    }
  }

  lemma {:induction false} EntriesUnfilteredLength(ds: seq<Node>)
    requires AllReadable(ds)
    ensures |Entries(ds, None)| == |ds|
  {
    if ds != [] {
      AllReadablePrefix(ds, |ds| - 1);
      EntriesUnfilteredLength(ds[..|ds| - 1]);
      assert PassesFilter(None, ClassifierOf(ds[|ds| - 1]));
    }
  }

  lemma {:induction false} EntriesUnfilteredAt(ds: seq<Node>, i: nat)
    requires AllReadable(ds) && i < |ds|
    ensures |Entries(ds, None)| == |ds|
    ensures Entries(ds, None)[i] == ReadDependency(ds[i]).value
  {
    var n := |ds| - 1;
    EntriesUnfilteredLength(ds);
    AllReadablePrefix(ds, n);
    EntriesUnfilteredLength(ds[..n]);
    EntriesStep(ds, n, None);
    assert ds[..n + 1] == ds;
    if i < n {
      EntriesUnfilteredAt(ds[..n], i);
      assert ds[..n][i] == ds[i];
    }
  }

  /** getPomDependencies: when every <dependency> under the sole <dependencies> is readable, one entry per element, in order, from its first groupId, artifactId and version descendants. */
  lemma PomDependenciesOnePerElement(doc: Option<Node>)
    requires GetDependenciesNode(doc).Some?
    requires AllReadable(ElementsByTagName(GetDependenciesNode(doc).value, "dependency"))
    ensures var ds := ElementsByTagName(GetDependenciesNode(doc).value, "dependency");
      PomDependencies(doc, None).Ok?
      && |PomDependencies(doc, None).value| == |ds|
      && forall i :: 0 <= i < |ds| ==> PomDependencies(doc, None).value[i] == MavenDependency(
        TextContent(ElementsByTagName(ds[i], "groupId")[0]),
        TextContent(ElementsByTagName(ds[i], "artifactId")[0]),
        TextContent(ElementsByTagName(ds[i], "version")[0]),
        None)
  {
    var ds := ElementsByTagName(GetDependenciesNode(doc).value, "dependency");
    EntriesUnfiltered(ds);
    forall i | 0 <= i < |ds|
      ensures ReadDependency(ds[i]).value == MavenDependency(
        TextContent(ElementsByTagName(ds[i], "groupId")[0]),
        TextContent(ElementsByTagName(ds[i], "artifactId")[0]),
        TextContent(ElementsByTagName(ds[i], "version")[0]),
        None)
    {
      assert ReadDependency(ds[i]).Some?;
    }
  }

  /**
   * One <dependency> is readable exactly when it has a groupId, an artifactId and a
   * version descendant, and then reads as the text of the first of each, without a classifier.
   */
  lemma ReadDependencyDefined(d: Node)
    ensures ReadDependency(d).Some? <==>
      ElementsByTagName(d, "groupId") != [] && ElementsByTagName(d, "artifactId") != [] && ElementsByTagName(d, "version") != []
    ensures ReadDependency(d).Some? ==> ReadDependency(d).value == MavenDependency(
      TextContent(ElementsByTagName(d, "groupId")[0]),
      TextContent(ElementsByTagName(d, "artifactId")[0]),
      TextContent(ElementsByTagName(d, "version")[0]),
      None)
  {
  }

  /** Fail-fast: one <dependency> without a groupId, artifactId or version descendant empties the whole result, whatever the filter. */
  lemma FailFast(doc: Option<Node>, filter: Option<string>, i: nat)
    requires GetDependenciesNode(doc).Some?
    requires var ds := ElementsByTagName(GetDependenciesNode(doc).value, "dependency");
      i < |ds| && (ElementsByTagName(ds[i], "groupId") == []
        || ElementsByTagName(ds[i], "artifactId") == []
        || ElementsByTagName(ds[i], "version") == [])
    ensures PomDependencies(doc, filter) == Ok([])
  {
    var ds := ElementsByTagName(GetDependenciesNode(doc).value, "dependency");
    assert ReadDependency(ds[i]).None?;
  }

  /** readPomDependencies throws exactly when there is no document or not exactly one <dependencies> element. */
  lemma ReadThrowsWithoutSoleDependencies(doc: Option<Node>, filter: Option<string>)
    ensures PomDependencies(doc, filter).Err? <==>
      doc.None? || |ElementsByTagName(doc.value, "dependencies")| != 1
    ensures PomDependencies(doc, filter) == Err(NoDocument) <==> doc.None?
  {
  }

  /** No entry returned by either reader carries a classifier. */
  lemma EntriesCarryNoClassifier(doc: Option<Node>, filter: Option<string>)
    requires PomDependencies(doc, filter).Ok?
    ensures forall e :: e in PomDependencies(doc, filter).value ==> e.classifier.None?
  {
  }

  // ---------------------------------------------------------------------------
  // The connector list

  /** The <dependency> elements whose classifier (exactly one classifier descendant) reads f, in document order. */
  function WithClassifier(ds: seq<Node>, f: string): (r: seq<Node>)
    ensures forall d :: d in r <==> d in ds && ClassifierOf(d) == Some(f)
  {
    if ds == [] then []
    else
      var d := ds[|ds| - 1];
      assert ds == ds[..|ds| - 1] + [d];
      WithClassifier(ds[..|ds| - 1], f) + (if ClassifierOf(d) == Some(f) then [d] else [])
  }

  /** a can be obtained from b by deleting elements. */
  predicate IsSubsequence<T(==)>(a: seq<T>, b: seq<T>)
    decreases |b|
  {
    a == []
    || (b != []
      && ((a[|a| - 1] == b[|b| - 1] && IsSubsequence(a[..|a| - 1], b[..|b| - 1]))
        || IsSubsequence(a, b[..|b| - 1])))
  }

  /** Filtering on a non-empty classifier reads exactly the elements with that sole classifier. */
  lemma {:induction false} FilteredEntries(ds: seq<Node>, f: string)
    requires AllReadable(ds) && f != ""
    ensures AllReadable(WithClassifier(ds, f))
    ensures Entries(ds, Some(f)) == Entries(WithClassifier(ds, f), None)
  {
    var w := WithClassifier(ds, f);
    assert AllReadable(w) by {
      forall i | 0 <= i < |w| ensures ReadDependency(w[i]).Some? {
        assert w[i] in ds;
      }
    }
    if ds != [] {
      var init := ds[..|ds| - 1];
      var d := ds[|ds| - 1];
      assert AllReadable(init) by {
        forall i | 0 <= i < |init| ensures ReadDependency(init[i]).Some? {
          assert init[i] == ds[i];
        }
      }
      FilteredEntries(init, f);
      var wi := WithClassifier(init, f);
      if ClassifierOf(d) == Some(f) {
        assert w == wi + [d];
        assert w[..|w| - 1] == wi;
      } else {
        assert w == wi;
      }
    }
  }

  /** Filtering keeps a subsequence of the unfiltered entries. */
  lemma {:induction false} FilteredIsSubsequence(ds: seq<Node>, filter: Option<string>)
    requires AllReadable(ds)
    ensures IsSubsequence(Entries(ds, filter), Entries(ds, None))
  {
    if ds != [] {
      var init := ds[..|ds| - 1];
      assert AllReadable(init) by {
        forall i | 0 <= i < |init| ensures ReadDependency(init[i]).Some? {
          assert init[i] == ds[i];
        }
      }
      FilteredIsSubsequence(init, filter);
      var a := Entries(ds, filter);
      var b := Entries(ds, None);
      assert b[..|b| - 1] == Entries(init, None);
      if a != Entries(init, filter) {
        assert a[..|a| - 1] == Entries(init, filter);
      }
    }
  }

  /**
   * getMuleConnectorDependencies throws exactly when getPomDependencies does;
   * otherwise it returns a subsequence of it: the entries of the <dependency>
   * elements with exactly one classifier, reading mule-plugin — or nothing at
   * all when any <dependency>, connector or not, is unreadable.
   */
  lemma ConnectorDependencies(doc: Option<Node>)
    ensures PomDependencies(doc, Some(MULE_PLUGIN_CLASSIFIER)).Err? <==> PomDependencies(doc, None).Err?
    ensures PomDependencies(doc, None).Ok? ==>
      IsSubsequence(PomDependencies(doc, Some(MULE_PLUGIN_CLASSIFIER)).value, PomDependencies(doc, None).value)
    ensures PomDependencies(doc, None).Ok? ==>
      var ds := ElementsByTagName(GetDependenciesNode(doc).value, "dependency");
      PomDependencies(doc, Some(MULE_PLUGIN_CLASSIFIER)).value ==
        if AllReadable(ds) then ReadDependencies(WithClassifier(ds, MULE_PLUGIN_CLASSIFIER), None) else []
  {
    if GetDependenciesNode(doc).Some? {
      var ds := ElementsByTagName(GetDependenciesNode(doc).value, "dependency");
      if AllReadable(ds) {
        FilteredIsSubsequence(ds, Some(MULE_PLUGIN_CLASSIFIER));
        FilteredEntries(ds, MULE_PLUGIN_CLASSIFIER);
      }
    }
  }

  // ---------------------------------------------------------------------------
  // Adding a dependency

  /** The queries the readers run on the element built for dep: one text element per field written. */
  lemma DependencyElementQueries(dep: MavenDependency, u: string)
    ensures var x := DependencyElement(dep);
      x.Element? && x.tag == "dependency"
      && ElementsByTagName(x, u) ==
        (if u == "groupId" then [TextElement("groupId", dep.groupId)] else [])
        + (if u == "artifactId" then [TextElement("artifactId", dep.artifactId)] else [])
        + (if u == "version" && dep.version != "" then [TextElement("version", dep.version)] else [])
        + (if u == "classifier" && HasClassifier(dep) then [TextElement("classifier", dep.classifier.value)] else [])
  {
    var g := TextElement("groupId", dep.groupId);
    var a := TextElement("artifactId", dep.artifactId);
    var v := if dep.version != "" then [TextElement("version", dep.version)] else [];
    var c := if HasClassifier(dep) then [TextElement("classifier", dep.classifier.value)] else [];
    assert DependencyElement(dep).children == [g, a] + v + c;
    TaggedForestConcat([g, a] + v, c, u);
    TaggedForestConcat([g, a], v, u);
    TaggedForestPair(g, a, u);
    if v != [] {
      TaggedForestSingleton(v[0], u);
    }
    if c != [] {
      TaggedForestSingleton(c[0], u);
    }
  }

  /**
   * Round trip: the element addPomDependency builds reads back as dep without
   * its classifier — or as unreadable when dep has no version — and with the
   * classifier it was given, when that was not empty.
   */
  lemma DependencyElementReadsBack(dep: MavenDependency)
    ensures ReadDependency(DependencyElement(dep)) ==
      if dep.version == "" then None else Some(MavenDependency(dep.groupId, dep.artifactId, dep.version, None))
    ensures ClassifierOf(DependencyElement(dep)) == if HasClassifier(dep) then dep.classifier else None
    ensures Tagged(DependencyElement(dep), "dependency") == [DependencyElement(dep)]
    ensures Tagged(DependencyElement(dep), "dependencies") == []
  {
    DependencyElementQueries(dep, "groupId");
    DependencyElementQueries(dep, "artifactId");
    DependencyElementQueries(dep, "version");
    DependencyElementQueries(dep, "classifier");
    DependencyElementQueries(dep, "dependency");
    DependencyElementQueries(dep, "dependencies");
  }

  /** addPomDependency throws, before writing, exactly when there is no document or no sole <dependencies>. */
  lemma AddFailsWithoutSoleDependencies(doc: Option<Node>, dep: MavenDependency)
    ensures WithDependency(doc, dep).Err? <==> doc.None? || |ElementsByTagName(doc.value, "dependencies")| != 1
  {
  }

  /** The new <dependency> becomes the last child of the sole <dependencies>, which stays the sole one. */
  lemma AddAppendsToDependenciesNode(doc: Option<Node>, dep: MavenDependency)
    requires WithDependency(doc, dep).Ok?
    ensures GetDependenciesNode(Some(WithDependency(doc, dep).value))
      == Some(AppendChild(GetDependenciesNode(doc).value, DependencyElement(dep)))
  {
    DependencyElementReadsBack(dep);
    AppendBelowUnique(doc.value, "dependencies", DependencyElement(dep), GetDependenciesNode(doc).value);
  }

  /** Nothing else changes: removing that last child gives back the document that was read. */
  lemma AddChangesNothingElse(doc: Option<Node>, dep: MavenDependency)
    requires WithDependency(doc, dep).Ok?
    ensures TrimBelow(WithDependency(doc, dep).value, "dependencies") == doc.value
  {
    TrimAfterAppendBelow(doc.value, "dependencies", DependencyElement(dep));
  }

  /**
   * Elements of any other kind than those added are neither added nor removed,
   * and every one of them that does not contain the <dependencies> element is
   * exactly as it was.
   */
  lemma AddKeepsOtherElements(doc: Option<Node>, dep: MavenDependency, u: string)
    requires WithDependency(doc, dep).Ok?
    requires u !in {"dependency", "groupId", "artifactId", "version", "classifier"}
    ensures var before := ElementsByTagName(doc.value, u);
      var after := ElementsByTagName(WithDependency(doc, dep).value, u);
      |after| == |before|
      && forall i :: 0 <= i < |before| && Tagged(before[i], "dependencies") == [] ==> after[i] == before[i]
  {
    var x := DependencyElement(dep);
    DependencyElementQueries(dep, u);
    var before := ElementsByTagName(doc.value, u);
    ElementsByTagNameAfterAppend(doc.value, "dependencies", x, u);
    forall i | 0 <= i < |before| && Tagged(before[i], "dependencies") == []
      ensures AppendInForest(before, "dependencies", x)[i] == before[i]
    {
      AppendInForestAt(before, "dependencies", x, i);
      AppendInUntouched(before[i], "dependencies", x);
    }
  }

  lemma {:induction false} AppendInForestAt(s: seq<Node>, t: string, x: Node, i: nat)
    requires i < |s|
    ensures AppendInForest(s, t, x)[i] == AppendIn(s[i], t, x)
  {
    if i > 0 {
      AppendInForestAt(s[1..], t, x, i - 1);
    }
  }

  /** Reading a list with one more element at its end. */
  lemma ReadAppended(ds: seq<Node>, x: Node, filter: Option<string>)
    ensures ReadDependencies(ds + [x], filter) ==
      if ReadDependency(x).None? || !AllReadable(ds) then []
      else Entries(ds, filter) + (if PassesFilter(filter, ClassifierOf(x)) then [ReadDependency(x).value] else [])
  {
    var ds' := ds + [x];
    assert ds'[|ds'| - 1] == x && ds'[..|ds'| - 1] == ds;
    if ReadDependency(x).None? {
      assert !AllReadable(ds');
    } else if !AllReadable(ds) {
      var i :| 0 <= i < |ds| && ReadDependency(ds[i]).None?;
      assert ds'[i] == ds[i];
    } else {
      assert AllReadable(ds') by {
        forall i | 0 <= i < |ds'| ensures ReadDependency(ds'[i]).Some? {
          if i < |ds| {
            assert ds'[i] == ds[i];
          }
        }
      }
    }
  }

  /** After a successful add, the <dependency> elements under the sole <dependencies> are the old ones, then the new one. */
  lemma DependencyElementsAfterAdd(doc: Option<Node>, dep: MavenDependency)
    requires WithDependency(doc, dep).Ok?
    ensures var after := GetDependenciesNode(Some(WithDependency(doc, dep).value));
      after.Some? && ElementsByTagName(after.value, "dependency")
        == ElementsByTagName(GetDependenciesNode(doc).value, "dependency") + [DependencyElement(dep)]
  {
    var d := GetDependenciesNode(doc).value;
    var x := DependencyElement(dep);
    AddAppendsToDependenciesNode(doc, dep);
    DependencyElementReadsBack(dep);
    TaggedForestConcat(d.children, [x], "dependency");
    TaggedForestSingleton(x, "dependency");
  }

  /**
   * Reading after a successful add: the new dependency comes last, when it
   * passes the filter. A dependency added without a version makes every later
   * read fail fast to the empty list, and so does any unreadable one already there.
   */
  lemma AddThenRead(doc: Option<Node>, dep: MavenDependency, filter: Option<string>)
    requires WithDependency(doc, dep).Ok?
    ensures var ds := ElementsByTagName(GetDependenciesNode(doc).value, "dependency");
      PomDependencies(Some(WithDependency(doc, dep).value), filter) == Ok(
        if dep.version == "" || !AllReadable(ds) then []
        else (Entries(ds, filter)
          + (if PassesFilter(filter, if HasClassifier(dep) then dep.classifier else None)
             then [MavenDependency(dep.groupId, dep.artifactId, dep.version, None)] else [])))
  {
    var ds := ElementsByTagName(GetDependenciesNode(doc).value, "dependency");
    DependencyElementsAfterAdd(doc, dep);
    DependencyElementReadsBack(dep);
    ReadAppended(ds, DependencyElement(dep), filter);
  }

  // ---------------------------------------------------------------------------
  // Examples

  /** Adding a versioned dependency to an empty <dependencies>: every read it passes returns just its entry. */
  lemma AddToEmptyThenRead(doc: Option<Node>, dep: MavenDependency, filter: Option<string>)
    requires WithDependency(doc, dep).Ok?
    requires ElementsByTagName(GetDependenciesNode(doc).value, "dependency") == []
    requires dep.version != ""
    requires PassesFilter(filter, if HasClassifier(dep) then dep.classifier else None)
    ensures PomDependencies(Some(WithDependency(doc, dep).value), filter)
      == Ok([MavenDependency(dep.groupId, dep.artifactId, dep.version, None)])
  {
    var entry := MavenDependency(dep.groupId, dep.artifactId, dep.version, None);
    AddThenRead(doc, dep, filter);
    assert AllReadable([]);
    assert Entries([], filter) == [];
    assert [] + [entry] == [entry];
  }

  /**
   * Adding a versioned connector (classifier mule-plugin) to a project whose
   * <dependencies> is empty makes it the one dependency and the one connector.
   */
  lemma AddConnectorToEmptyDependencies(groupId: string, artifactId: string, version: string)
    requires version != ""
    ensures var root := Element("project", [Element("dependencies", [])]);
      var dep := MavenDependency(groupId, artifactId, version, Some(MULE_PLUGIN_CLASSIFIER));
      var entry := MavenDependency(groupId, artifactId, version, None);
      WithDependency(Some(root), dep).Ok?
      && PomDependencies(Some(WithDependency(Some(root), dep).value), None) == Ok([entry])
      && PomDependencies(Some(WithDependency(Some(root), dep).value), Some(MULE_PLUGIN_CLASSIFIER)) == Ok([entry])
  {
    var deps := Element("dependencies", []);
    var root := Element("project", [deps]);
    var dep := MavenDependency(groupId, artifactId, version, Some(MULE_PLUGIN_CLASSIFIER));
    TaggedForestSingleton(deps, "dependencies");
    assert ElementsByTagName(root, "dependencies") == [deps];
    assert GetDependenciesNode(Some(root)) == Some(deps);
    assert ElementsByTagName(deps, "dependency") == [];
    assert HasClassifier(dep);
    AddToEmptyThenRead(Some(root), dep, None);
    AddToEmptyThenRead(Some(root), dep, Some(MULE_PLUGIN_CLASSIFIER));
  }
}
