/** The simpler cache of xmltree_sample.rs: one parsed project file, its
    first `target` element and that target's `group` elements keyed by
    their `name` attribute. Sorting, removing and adding files edit the
    cached group copies in place; `project` and `target` stay as loaded. */
module SampleCache {
  import opened Wrappers
  import opened XmlTree
  import opened StableSort
  import opened Resolver

  /** The `name` attribute of an element, if it has one. */
  function NameAttr(e: Element): Option<string>
  {
    if "name" in e.attributes then Some(e.attributes["name"]) else None
  }

  /** The sort key of sort_group_files: the `name` attribute, "" when it
      is missing (`unwrap_or_default`). */
  function NameKey(e: Element): string
  {
    NameAttr(e).GetOr("")
  }

  // ---------------------------------------------------------------------
  // load_from_file: the group index.
  // ---------------------------------------------------------------------

  /** The `groups` map after inserting, in order, every group that has a
      `name` attribute: a later group replaces an earlier one. */
  function IndexGroups(gs: seq<Element>): map<string, Element>
    decreases |gs|
  {
    if gs == [] then map[]
    else
      var m := IndexGroups(gs[..|gs| - 1]);
      var g := gs[|gs| - 1];
      match NameAttr(g)
      case None => m
      case Some(n) => m[n := g]
  }

  /** A key is present exactly when some group carries that name, and it
      maps to the last group that does. */
  lemma {:induction false} IndexGroupsSpec(gs: seq<Element>, k: string)
    ensures k in IndexGroups(gs) <==> exists i :: 0 <= i < |gs| && NameAttr(gs[i]) == Some(k)
    ensures k in IndexGroups(gs) ==>
              exists i :: 0 <= i < |gs| && gs[i] == IndexGroups(gs)[k] && NameAttr(gs[i]) == Some(k)
                          && forall j :: i < j < |gs| ==> NameAttr(gs[j]) != Some(k)
    decreases |gs|
  {
    if gs != [] {
      var init := gs[..|gs| - 1];
      var last := |gs| - 1;
      IndexGroupsSpec(init, k);
      if NameAttr(gs[last]) == Some(k) {
        assert IndexGroups(gs)[k] == gs[last];
      } else {
        assert k in IndexGroups(gs) <==> k in IndexGroups(init);
        if k in IndexGroups(init) {
          assert IndexGroups(gs)[k] == IndexGroups(init)[k];
          var i :| 0 <= i < |init| && init[i] == IndexGroups(init)[k] && NameAttr(init[i]) == Some(k)
                   && forall j :: i < j < |init| ==> NameAttr(init[j]) != Some(k);
          assert gs[i] == init[i];
          assert forall j :: i < j < |gs| ==> NameAttr(gs[j]) != Some(k) by {
            forall j | i < j < |gs| ensures NameAttr(gs[j]) != Some(k) {
              if j < last {
                assert gs[j] == init[j];
              }
            }
          }
        } else {
          forall i | 0 <= i < |gs| ensures NameAttr(gs[i]) != Some(k) {
            if i < last {
              assert gs[i] == init[i];
            }
          }
        }
      }
    }
  }

  /** The `for group in ... { groups.insert(name, group) }` loop. */
  method FillGroups(gs: seq<Element>) returns (groups: map<string, Element>)
    ensures groups == IndexGroups(gs)
  {
    groups := map[];
    for i := 0 to |gs|
      invariant groups == IndexGroups(gs[..i])
    {
      assert gs[..i + 1][..i] == gs[..i];
      var g := gs[i];
      if "name" in g.attributes {
        groups := groups[g.attributes["name"] := g];
      }
    }
    assert gs[..|gs|] == gs;
  }

  // ---------------------------------------------------------------------
  // sort_group_files
  // ---------------------------------------------------------------------

  /** A group after sort_group_files: its non-file children in order, then
      its file children stably sorted ascending by name. */
  function SortedGroup(g: Element): Element
  {
    g.(children := NonFiles(g.children) + Elems(SortBy(ElementsNamed(g.children, "file"), NameKey, true)))
  }

  lemma SortByNamedFiles(files: seq<Element>)
    requires AllNamed(files, "file")
    ensures AllNamed(SortBy(files, NameKey, true), "file")
  {
    var s := SortBy(files, NameKey, true);
    SortByPerm(files, NameKey, true);
    forall e <- s ensures e.name == "file" {
      assert e in multiset(s);
    }
  }

  /** The non-file children are kept in order and come first; the file
      children are the original ones, as a permutation, ordered by name,
      with equal names kept in their original order; nothing else of the
      group changes. */
  lemma SortedGroupSpec(g: Element)
    ensures SortedGroup(g).name == g.name && SortedGroup(g).attributes == g.attributes
    ensures |SortedGroup(g).children| == |g.children|
    ensures NonFiles(SortedGroup(g).children) == NonFiles(g.children)
    ensures SortedGroup(g).children[..|NonFiles(g.children)|] == NonFiles(g.children)
    ensures ElementsNamed(SortedGroup(g).children, "file") == SortBy(ElementsNamed(g.children, "file"), NameKey, true)
    ensures multiset(ElementsNamed(SortedGroup(g).children, "file")) == multiset(ElementsNamed(g.children, "file"))
    ensures Sorted(ElementsNamed(SortedGroup(g).children, "file"), NameKey, true)
    ensures forall k :: WithKey(ElementsNamed(SortedGroup(g).children, "file"), NameKey, k)
                        == WithKey(ElementsNamed(g.children, "file"), NameKey, k)
  {
    var files := ElementsNamed(g.children, "file");
    var sorted := SortBy(files, NameKey, true);
    var nf := NonFiles(g.children);
    SortByNamedFiles(files);
    SortByPerm(files, NameKey, true);
    ElemsOfFiles(sorted);
    NonFilesNoFiles(nf);
    NonFilesConcat(nf, Elems(sorted));
    ElementsNamedConcat(nf, Elems(sorted), "file");
    SortBySorted(files, NameKey, true);
    forall k ensures WithKey(sorted, NameKey, k) == WithKey(files, NameKey, k) {
      SortByStable(files, NameKey, true, k);
    }
    assert (nf + Elems(sorted))[..|nf|] == nf;
  }

  /** Sorting a group twice gives the same group as sorting it once. */
  lemma SortedGroupIdempotent(g: Element)
    ensures SortedGroup(SortedGroup(g)) == SortedGroup(g)
  {
    SortedGroupSpec(g);
    var files := ElementsNamed(g.children, "file");
    SortByIdempotent(files, NameKey, true);
  }

  // ---------------------------------------------------------------------
  // remove_file
  // ---------------------------------------------------------------------

  /** The nodes remove_file's `retain` drops: `file` elements whose `name`
      attribute equals `fileName`. */
  predicate Removed(n: XmlNode, fileName: string)
  {
    IsElementNamed(n, "file") && NameAttr(n.element) == Some(fileName)
  }

  /** The children remove_file keeps, in order. */
  function WithoutFile(nodes: seq<XmlNode>, fileName: string): seq<XmlNode>
    decreases |nodes|
  {
    if nodes == [] then []
    else
      var init := WithoutFile(nodes[..|nodes| - 1], fileName);
      var last := nodes[|nodes| - 1];
      if Removed(last, fileName) then init else init + [last]
  }

  lemma {:induction false} WithoutFileConcat(a: seq<XmlNode>, b: seq<XmlNode>, fileName: string)
    ensures WithoutFile(a + b, fileName) == WithoutFile(a, fileName) + WithoutFile(b, fileName)
    decreases |b|
  {
    if b == [] {
      assert a + b == a;
    } else {
      var b0 := b[..|b| - 1];
      assert (a + b)[..|a + b| - 1] == a + b0;
      WithoutFileConcat(a, b0, fileName);
    }
  }

  /** Exactly the matching files go: every node kept was an input node that
      does not match, every input node that does not match is kept, and the
      non-file children keep their order. */
  lemma {:induction false} WithoutFileSpec(nodes: seq<XmlNode>, fileName: string)
    ensures forall n <- WithoutFile(nodes, fileName) :: n in nodes && !Removed(n, fileName)
    ensures forall n <- nodes :: !Removed(n, fileName) ==> n in WithoutFile(nodes, fileName)
    ensures NonFiles(WithoutFile(nodes, fileName)) == NonFiles(nodes)
    ensures |WithoutFile(nodes, fileName)| <= |nodes|
    decreases |nodes|
  {
    if nodes != [] {
      var init := nodes[..|nodes| - 1];
      var last := nodes[|nodes| - 1];
      WithoutFileSpec(init, fileName);
      assert nodes == init + [last];
      NonFilesConcat(init, [last]);
      var kept := WithoutFile(init, fileName);
      if !Removed(last, fileName) {
        NonFilesConcat(kept, [last]);
      } else {
        assert NonFiles([last]) == [] by {
          assert [last][1..] == [];
        }
      }
      forall n <- nodes | !Removed(n, fileName) ensures n in WithoutFile(nodes, fileName) {
        if n != last {
          assert n in init;
        }
      }
    }
  }

  /** Files without a `name` attribute survive remove_file. */
  lemma UnnamedFilesKept(nodes: seq<XmlNode>, fileName: string, n: XmlNode)
    requires n in nodes && n.Elem? && NameAttr(n.element).None?
    ensures n in WithoutFile(nodes, fileName)
  {
    WithoutFileSpec(nodes, fileName);
  }

  /** Removing a name twice removes nothing more. */
  lemma {:induction false} WithoutFileIdempotent(nodes: seq<XmlNode>, fileName: string)
    ensures WithoutFile(WithoutFile(nodes, fileName), fileName) == WithoutFile(nodes, fileName)
    decreases |nodes|
  {
    if nodes != [] {
      var init := nodes[..|nodes| - 1];
      var last := nodes[|nodes| - 1];
      var kept := WithoutFile(init, fileName);
      WithoutFileIdempotent(init, fileName);
      if !Removed(last, fileName) {
        WithoutFileConcat(kept, [last], fileName);
        assert WithoutFile([last], fileName) == [last] by {
          assert [last][..0] == [];
        }
      }
    }
  }

  /** The `retain` of remove_file, as a loop over the children. */
  method RetainOthers(nodes: seq<XmlNode>, fileName: string) returns (r: seq<XmlNode>)
    ensures r == WithoutFile(nodes, fileName)
  {
    r := [];
    for i := 0 to |nodes|
      invariant r == WithoutFile(nodes[..i], fileName)
    {
      assert nodes[..i + 1][..i] == nodes[..i];
      var n := nodes[i];
      if !(n.Elem? && n.element.name == "file" && "name" in n.element.attributes && n.element.attributes["name"] == fileName) {
        r := r + [n];
      }
    }
    assert nodes[..|nodes|] == nodes;
  }

  // ---------------------------------------------------------------------
  // add_file
  // ---------------------------------------------------------------------

  /** `Element::new("file")` with the attribute `name = file_name`. */
  function FileElement(fileName: string): (r: Element)
    ensures r.name == "file" && NameAttr(r) == Some(fileName) && r.children == []
  {
    Element("file", map["name" := fileName], [])
  }

  /** A group after add_file: one more child, the new file, at the end. */
  function AddedGroup(g: Element, fileName: string): Element
  {
    g.(children := g.children + [Elem(FileElement(fileName))])
  }

  /** add_file appends exactly one file child, named `fileName`, after the
      existing ones, which are untouched; no de-duplication happens. */
  lemma AddedGroupSpec(g: Element, fileName: string)
    ensures AddedGroup(g, fileName).children[..|g.children|] == g.children
    ensures |AddedGroup(g, fileName).children| == |g.children| + 1
    ensures ElementsNamed(AddedGroup(g, fileName).children, "file")
            == ElementsNamed(g.children, "file") + [FileElement(fileName)]
    ensures NonFiles(AddedGroup(g, fileName).children) == NonFiles(g.children)
  {
    var n := Elem(FileElement(fileName));
    ElementsNamedConcat(g.children, [n], "file");
    NonFilesConcat(g.children, [n]);
    assert [n][1..] == [];
    assert (g.children + [n])[..|g.children|] == g.children;
  }

  /** remove_file undoes add_file: adding a file and then removing that name
      leaves what removing the name alone leaves. */
  lemma RemoveAfterAdd(g: Element, fileName: string)
    ensures WithoutFile(AddedGroup(g, fileName).children, fileName) == WithoutFile(g.children, fileName)
  {
    var c := AddedGroup(g, fileName).children;
    assert c[..|c| - 1] == g.children;
  }

  // ---------------------------------------------------------------------
  // The cache object.
  // ---------------------------------------------------------------------

  /** ProjectCache */
  class ProjectCache {
    var filePath: string
    var project: Element
    var target: Element
    var groups: map<string, Element>

    constructor(filePath: string, project: Element, target: Element, groups: map<string, Element>)
      ensures this.filePath == filePath && this.project == project
      ensures this.target == target && this.groups == groups
    {
      this.filePath := filePath;
      this.project := project;
      this.target := target;
      this.groups := groups;
    }

    /** sort_group_files: an unknown group name changes nothing. */
    method SortGroupFiles(groupName: string)
      modifies this
      ensures groups == if groupName in old(groups) then old(groups)[groupName := SortedGroup(old(groups)[groupName])] else old(groups)
      ensures filePath == old(filePath) && project == old(project) && target == old(target)
    {
      if groupName in groups {
        var g := groups[groupName];
        var files := ElementsNamed(g.children, "file");
        var sorted := SortBy(files, NameKey, true);
        var kept := NonFiles(g.children);
        var children := PushAll(kept, sorted);
        groups := groups[groupName := g.(children := children)];
      }
    }

    /** remove_file: an unknown group name changes nothing. */
    method RemoveFile(groupName: string, fileName: string)
      modifies this
      ensures groups == if groupName in old(groups)
                        then old(groups)[groupName := old(groups)[groupName].(children := WithoutFile(old(groups)[groupName].children, fileName))]
                        else old(groups)
      ensures filePath == old(filePath) && project == old(project) && target == old(target)
    {
      if groupName in groups {
        var g := groups[groupName];
        var children := RetainOthers(g.children, fileName);
        groups := groups[groupName := g.(children := children)];
      }
    }

    /** add_file: an unknown group name changes nothing. */
    method AddFile(groupName: string, fileName: string)
      modifies this
      ensures groups == if groupName in old(groups) then old(groups)[groupName := AddedGroup(old(groups)[groupName], fileName)] else old(groups)
      ensures filePath == old(filePath) && project == old(project) && target == old(target)
    {
      if groupName in groups {
        var g := groups[groupName];
        var fileElem := NewElement("file");
        fileElem := fileElem.(attributes := fileElem.attributes["name" := fileName]);
        groups := groups[groupName := g.(children := g.children + [Elem(fileElem)])];
      }
    }
  }

  /** load_from_file after the document is parsed: the root is the project,
      its first `target` child is required, and the target's direct `group`
      children that carry a name are indexed. */
  method LoadFromFile(path: string, root: Element) returns (r: Result<ProjectCache>)
    ensures r.Err? <==> FindChildElement(root, "target").None?
    ensures r.Err? ==> r.message == "target not found"
    ensures r.Ok? ==> fresh(r.value) && r.value.filePath == path && r.value.project == root
                      && r.value.target == FindChildElement(root, "target").value
                      && r.value.groups == IndexGroups(ElementsNamed(r.value.target.children, "group"))
  {
    var target := FindChildElement(root, "target");
    if target.None? {
      return Err("target not found");
    }
    var groups := FillGroups(ElementsNamed(target.value.children, "group"));
    var cache := new ProjectCache(path, root, target.value, groups);
    return Ok(cache);
  }
}
