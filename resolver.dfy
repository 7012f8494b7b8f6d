/** The positional-path resolvers of lib.rs (find_group_files_mut and
    remove_file_by_xpath) and the three tree edits the commands make through
    them.  The Rust code walks a raw-pointer cursor down the element tree and
    then edits the element under it in place; here the cursor is the address
    of that element (its child positions from the root) and the in-place edit
    is ReplaceAt at that address. */
module Resolver {
  import opened Wrappers
  import opened XmlTree
  import opened PathExpr
  import opened StableSort

  predicate SegmentsOk(segs: seq<string>)
  {
    forall seg <- segs :: SegmentOk(seg)
  }

  /** `addr` in front of a walk result. */
  function Prefixed(addr: seq<nat>, o: Option<seq<nat>>): Option<seq<nat>>
  {
    match o
    case None => None
    case Some(rest) => Some(addr + rest)
  }

  /** Where the cursor ends after consuming every segment, starting at `root`
      and looking each segment up among the current element's children. */
  function Walk(root: Element, segs: seq<string>): (r: Option<seq<nat>>)
    requires SegmentsOk(segs)
    ensures r.Some? ==> |r.value| == |segs| && ElementAt(root, r.value).Some?
    decreases |segs|
  {
    if segs == [] then Some([])
    else
      var step := ParseStep(segs[0]);
      match NthNamed(root.children, step.0, step.1)
      case None => None
      case Some(p) =>
        assert SegmentsOk(segs[1..]) by {
          assert forall seg <- segs[1..] :: seg in segs;
        }
        match Walk(root.children[p].element, segs[1..])
        case None => None
        case Some(rest) =>
          assert ([p] + rest)[1..] == rest;
          Some([p] + rest)
  }

  /** One step of the walk: the cursor moves to the idx-th child called
      `name`, then walks the rest of the path from there. */
  lemma WalkCons(el: Element, seg: string, rest: seq<string>, p: nat, a: seq<nat>)
    requires SegmentOk(seg) && SegmentsOk(rest)
    requires NthNamed(el.children, ParseStep(seg).0, ParseStep(seg).1) == Some(p)
    requires Walk(el.children[p].element, rest) == Some(a)
    ensures SegmentsOk([seg] + rest)
    ensures Walk(el, [seg] + rest) == Some([p] + a)
  {
    assert ([seg] + rest)[0] == seg;
    assert ([seg] + rest)[1..] == rest;
  }

  /** The resolved element carries the name of the last segment. */
  lemma {:induction false} WalkEndsNamed(root: Element, segs: seq<string>)
    requires SegmentsOk(segs) && segs != [] && Walk(root, segs).Some?
    ensures ElementAt(root, Walk(root, segs).value).value.name == ParseStep(segs[|segs| - 1]).0
    decreases |segs|
  {
    var step := ParseStep(segs[0]);
    var p := NthNamed(root.children, step.0, step.1).value;
    assert SegmentsOk(segs[1..]) by {
      assert forall seg <- segs[1..] :: seg in segs;
    }
    var rest := Walk(root.children[p].element, segs[1..]).value;
    assert ([p] + rest)[1..] == rest;
    if |segs| > 1 {
      WalkEndsNamed(root.children[p].element, segs[1..]);
      assert segs[1..][|segs[1..]| - 1] == segs[|segs| - 1];
    }
  }

  lemma {:induction false} ElementAtAppend(root: Element, addr: seq<nat>, cur: Element, p: nat)
    requires ElementAt(root, addr) == Some(cur)
    requires p < |cur.children| && cur.children[p].Elem?
    ensures ElementAt(root, addr + [p]) == Some(cur.children[p].element)
    decreases |addr|
  {
    if addr == [] {
      assert [] + [p] == [p];
      assert [p][1..] == [];
    } else {
      assert (addr + [p])[1..] == addr[1..] + [p];
      ElementAtAppend(root.children[addr[0]].element, addr[1..], cur, p);
    }
  }

  /** The walk from the i-th segment on: one counting search, then the
      walk of the remaining segments from the child it selects. */
  lemma WalkFrom(cur: Element, segs: seq<string>, i: nat)
    requires SegmentsOk(segs) && i < |segs|
    ensures SegmentsOk(segs[i..]) && SegmentsOk(segs[i + 1..])
    ensures var step := ParseStep(segs[i]);
            match NthNamed(cur.children, step.0, step.1)
            case None => Walk(cur, segs[i..]) == None
            case Some(p) => Walk(cur, segs[i..]) == Prefixed([p], Walk(cur.children[p].element, segs[i + 1..]))
  {
    assert forall seg <- segs[i..] :: seg in segs;
    assert forall seg <- segs[i + 1..] :: seg in segs;
    assert segs[i..][1..] == segs[i + 1..];
    assert segs[i..][0] == segs[i];
  }

  lemma PrefixedAppend(path: seq<nat>, p: nat, o: Option<seq<nat>>)
    ensures Prefixed(path, Prefixed([p], o)) == Prefixed(path + [p], o)
  {
    if o.Some? {
      assert path + ([p] + o.value) == (path + [p]) + o.value;
    }
  }

  /** The cursor loop's invariant: the cursor `cur` sits at `path`, and the
      whole walk is `path` followed by the walk of the segments left. */
  predicate CursorAt(root: Element, segs: seq<string>, i: nat, path: seq<nat>, cur: Element)
    requires SegmentsOk(segs) && i <= |segs|
  {
    assert forall seg <- segs[i..] :: seg in segs;
    && ElementAt(root, path) == Some(cur)
    && Walk(root, segs) == Prefixed(path, Walk(cur, segs[i..]))
  }

  lemma CursorStart(root: Element, segs: seq<string>)
    requires SegmentsOk(segs)
    ensures CursorAt(root, segs, 0, [], root)
  {
    assert segs[0..] == segs;
    var whole := Walk(root, segs);
    if whole.Some? {
      assert [] + whole.value == whole.value;
    }
  }

  /** A failed search ends the walk; a successful one moves the cursor. */
  lemma CursorStep(root: Element, segs: seq<string>, i: nat, path: seq<nat>, cur: Element)
    requires SegmentsOk(segs) && i < |segs| && CursorAt(root, segs, i, path, cur)
    ensures var step := ParseStep(segs[i]);
            match NthNamed(cur.children, step.0, step.1)
            case None => Walk(root, segs) == None
            case Some(p) => CursorAt(root, segs, i + 1, path + [p], cur.children[p].element)
  {
    WalkFrom(cur, segs, i);
    var step := ParseStep(segs[i]);
    var found := NthNamed(cur.children, step.0, step.1);
    if found.Some? {
      var p := found.value;
      ElementAtAppend(root, path, cur, p);
      PrefixedAppend(path, p, Walk(cur.children[p].element, segs[i + 1..]));
    }
  }

  lemma CursorEnd(root: Element, segs: seq<string>, path: seq<nat>, cur: Element)
    requires SegmentsOk(segs) && CursorAt(root, segs, |segs|, path, cur)
    ensures Walk(root, segs) == Some(path) && ElementAt(root, path) == Some(cur)
  {
    assert segs[|segs|..] == [];
    assert path + [] == path;
  }

  /** The cursor loop both resolvers share: one counting search per segment;
      the first segment without enough same-named children stops the walk. */
  method ResolveCursor(root: Element, segs: seq<string>) returns (addr: Option<seq<nat>>, cur: Element)
    requires SegmentsOk(segs)
    ensures addr == Walk(root, segs)
    ensures addr.Some? ==> ElementAt(root, addr.value) == Some(cur)
  {
    cur := root;
    var path: seq<nat> := [];
    var i := 0;
    CursorStart(root, segs);
    while i < |segs|
      invariant 0 <= i <= |segs|
      invariant CursorAt(root, segs, i, path, cur)
    {
      CursorStep(root, segs, i, path, cur);
      var step := ParseStep(segs[i]);
      var found := FindNthNamed(cur.children, step.0, step.1);
      if found.None? {
        return None, cur;
      }
      path := path + [found.value];
      cur := cur.children[found.value].element;
      i := i + 1;
    }
    CursorEnd(root, segs, path, cur);
    return Some(path), cur;
  }

  // ---------------------------------------------------------------------
  // find_group_files_mut
  // ---------------------------------------------------------------------

  /** A `files` container: its address, and clones of its `file` children in
      document order. */
  datatype FilesRef = FilesRef(addr: seq<nat>, files: seq<Element>)

  /** The group after find_group_files_mut: unchanged when it has a `files`
      child, otherwise with an empty `files` element appended. */
  function WithFilesContainer(g: Element): Element
  {
    if NthNamed(g.children, "files", 1).Some? then g
    else g.(children := g.children + [Elem(NewElement("files"))])
  }

  /** What find_group_files_mut leaves in the tree and returns. */
  function GroupFiles(root: Element, segs: seq<string>): (r: (Element, Option<FilesRef>))
    requires SegmentsOk(segs)
    ensures r.1.None? <==> Walk(root, segs).None?
    ensures r.1.None? ==> r.0 == root
  {
    match Walk(root, segs)
    case None => (root, None)
    case Some(addr) =>
      var g := ElementAt(root, addr).value;
      match NthNamed(g.children, "files", 1)
      case Some(p) => (root, Some(FilesRef(addr + [p], ElementsNamed(g.children[p].element.children, "file"))))
      case None =>
        (ReplaceAt(root, addr, WithFilesContainer(g)), Some(FilesRef(addr + [|g.children|], [])))
  }

  /** Appending a `files` element to a group without one makes it the
      group's first `files` child. */
  lemma FilesAppendedFound(g: Element)
    requires NthNamed(g.children, "files", 1).None?
    ensures NthNamed(WithFilesContainer(g).children, "files", 1) == Some(|g.children|)
  {
    var c := WithFilesContainer(g).children;
    assert c[..|g.children|] == g.children;
    NthNamedUnique(c, "files", 1, |g.children|);
  }

  /** What find_group_files_mut returns is a `files` element of the new tree
      and clones of its `file` children; the group's first `files` child is
      used when it exists, and nothing is changed then. */
  lemma GroupFilesFound(root: Element, segs: seq<string>)
    requires SegmentsOk(segs) && Walk(root, segs).Some?
    ensures var g := ElementAt(root, Walk(root, segs).value).value;
            var r := GroupFiles(root, segs);
            && r.1.Some?
            && NthNamed(WithFilesContainer(g).children, "files", 1).Some?
            && r.1.value.addr == Walk(root, segs).value + [NthNamed(WithFilesContainer(g).children, "files", 1).value]
            && r.0 == ReplaceAt(root, Walk(root, segs).value, WithFilesContainer(g))
            && ElementAt(r.0, r.1.value.addr).Some?
            && ElementAt(r.0, r.1.value.addr).value.name == "files"
            && r.1.value.files == ElementsNamed(ElementAt(r.0, r.1.value.addr).value.children, "file")
  {
    var addr := Walk(root, segs).value;
    var g := ElementAt(root, addr).value;
    var g' := WithFilesContainer(g);
    ReplaceAtRead(root, addr, g');
    if NthNamed(g.children, "files", 1).None? {
      FilesAppendedFound(g);
      ElementAtAppend(ReplaceAt(root, addr, g'), addr, g', |g.children|);
    } else {
      ReplaceAtSame(root, addr);
      ElementAtAppend(root, addr, g, NthNamed(g.children, "files", 1).value);
    }
  }

  lemma {:induction false} NthNamedSameNames(a: seq<XmlNode>, b: seq<XmlNode>, name: string, idx: nat)
    requires |a| == |b|
    requires forall i :: 0 <= i < |a| ==> IsElementNamed(a[i], name) == IsElementNamed(b[i], name)
    ensures NthNamed(a, name, idx) == NthNamed(b, name, idx)
    decreases |a|
  {
    if |a| > 0 && idx > 0 {
      assert forall i :: 0 <= i < |a| - 1 ==> a[1..][i] == a[i + 1] && b[1..][i] == b[i + 1];
      NthNamedSameNames(a[1..], b[1..], name, if IsElementNamed(a[0], name) then idx - 1 else idx);
    }
  }

  lemma ReplaceAtName(root: Element, addr: seq<nat>, e: Element)
    requires addr != []
    ensures ReplaceAt(root, addr, e).name == root.name
  {
  }

  /** Replacing the resolved element by one of the same name leaves the walk
      where it was. */
  lemma {:induction false} WalkReplaceSameName(root: Element, segs: seq<string>, e: Element)
    requires SegmentsOk(segs) && Walk(root, segs).Some?
    requires e.name == ElementAt(root, Walk(root, segs).value).value.name
    ensures Walk(ReplaceAt(root, Walk(root, segs).value, e), segs) == Walk(root, segs)
    decreases |segs|
  {
    var addr := Walk(root, segs).value;
    if segs != [] {
      var step := ParseStep(segs[0]);
      var p := NthNamed(root.children, step.0, step.1).value;
      var child := root.children[p].element;
      assert SegmentsOk(segs[1..]) by {
        assert forall seg <- segs[1..] :: seg in segs;
      }
      var rest := Walk(child, segs[1..]).value;
      assert addr == [p] + rest;
      assert addr[0] == p && addr[1..] == rest;
      var newChild := ReplaceAt(child, rest, e);
      var root' := ReplaceAt(root, addr, e);
      assert root'.children == root.children[p := Elem(newChild)];
      if rest != [] {
        ReplaceAtName(child, rest, e);
      }
      assert newChild.name == child.name;
      NthNamedSameNames(root.children, root'.children, step.0, step.1);
      WalkReplaceSameName(child, segs[1..], e);
    }
  }

  /** A second call finds the container the first one left and changes
      nothing more: find_group_files_mut never creates a second `files`. */
  lemma GroupFilesTwice(root: Element, segs: seq<string>)
    requires SegmentsOk(segs)
    ensures GroupFiles(GroupFiles(root, segs).0, segs) == GroupFiles(root, segs)
  {
    if Walk(root, segs).Some? {
      var addr := Walk(root, segs).value;
      var g := ElementAt(root, addr).value;
      var g' := WithFilesContainer(g);
      var root' := GroupFiles(root, segs).0;
      GroupFilesFound(root, segs);
      WalkReplaceSameName(root, segs, g');
      ReplaceAtRead(root, addr, g');
      assert Walk(root', segs) == Some(addr);
      assert ElementAt(root', addr) == Some(g');
      if NthNamed(g.children, "files", 1).None? {
        FilesAppendedFound(g);
        var c := g'.children[|g.children|].element;
        assert c == NewElement("files");
        ReplaceAtSame(root', addr);
      } else {
        ReplaceAtSame(root, addr);
      }
    }
  }

  /** find_group_files_mut: walk the cursor, take the group's first `files`
      child, or push an empty one and find it again. */
  method FindGroupFilesMut(root: Element, segs: seq<string>) returns (root': Element, found: Option<FilesRef>)
    requires SegmentsOk(segs)
    ensures (root', found) == GroupFiles(root, segs)
  {
    var addr, group := ResolveCursor(root, segs);
    if addr.None? {
      return root, None;
    }
    var filesPos := FindNthNamed(group.children, "files", 1);
    if filesPos.Some? {
      var p := filesPos.value;
      var fileElems := ElementsNamed(group.children[p].element.children, "file");
      return root, Some(FilesRef(addr.value + [p], fileElems));
    }
    var newGroup := group.(children := group.children + [Elem(NewElement("files"))]);
    root' := ReplaceAt(root, addr.value, newGroup);
    var again := FindNthNamed(newGroup.children, "files", 1);
    FilesAppendedFound(group);
    found := Some(FilesRef(addr.value + [again.value], []));
  }

  // ---------------------------------------------------------------------
  // Children lists rebuilt by sort: retain the non-file children, then push.
  // ---------------------------------------------------------------------

  /** `children.retain(|c| !is_element_named(c, "file"))` */
  function NonFiles(nodes: seq<XmlNode>): (r: seq<XmlNode>)
    ensures CountNamed(r, "file") == 0
    ensures |r| + CountNamed(nodes, "file") == |nodes|
    decreases |nodes|
  {
    if nodes == [] then []
    else
      var rest := NonFiles(nodes[1..]);
      if IsElementNamed(nodes[0], "file") then rest
      else
        assert ([nodes[0]] + rest)[1..] == rest;
        [nodes[0]] + rest
  }

  /** The retain itself: one pass over the children, keeping each one that
      is not a `file` element. */
  method RetainNonFiles(nodes: seq<XmlNode>) returns (r: seq<XmlNode>)
    ensures r == NonFiles(nodes)
  {
    r := [];
    for i := 0 to |nodes|
      invariant r == NonFiles(nodes[..i])
    {
      assert nodes[..i + 1] == nodes[..i] + [nodes[i]];
      NonFilesConcat(nodes[..i], [nodes[i]]);
      if !IsElementNamed(nodes[i], "file") {
        r := r + [nodes[i]];
      }
    }
    assert nodes[..|nodes|] == nodes;
  }

  function Elems(s: seq<Element>): (r: seq<XmlNode>)
    ensures |r| == |s| && forall i :: 0 <= i < |s| ==> r[i] == Elem(s[i])
  {
    seq(|s|, i requires 0 <= i < |s| => Elem(s[i]))
  }

  predicate AllNamed(s: seq<Element>, name: string)
  {
    forall e <- s :: e.name == name
  }

  lemma {:induction false} NonFilesConcat(a: seq<XmlNode>, b: seq<XmlNode>)
    ensures NonFiles(a + b) == NonFiles(a) + NonFiles(b)
    decreases |a|
  {
    if a == [] {
      assert a + b == b;
    } else {
      assert (a + b)[1..] == a[1..] + b;
      NonFilesConcat(a[1..], b);
    }
  }

  lemma {:induction false} ElementsNamedConcat(a: seq<XmlNode>, b: seq<XmlNode>, name: string)
    ensures ElementsNamed(a + b, name) == ElementsNamed(a, name) + ElementsNamed(b, name)
    decreases |a|
  {
    if a == [] {
      assert a + b == b;
    } else {
      assert (a + b)[1..] == a[1..] + b;
      ElementsNamedConcat(a[1..], b, name);
    }
  }

  lemma {:induction false} ElemsOfFiles(s: seq<Element>)
    requires AllNamed(s, "file")
    ensures NonFiles(Elems(s)) == []
    ensures ElementsNamed(Elems(s), "file") == s
    decreases |s|
  {
    if s != [] {
      assert Elems(s)[1..] == Elems(s[1..]);
      assert s[0] in s;
      ElemsOfFiles(s[1..]);
      assert s == [s[0]] + s[1..];
    }
  }

  lemma {:induction false} NonFilesNoFiles(nodes: seq<XmlNode>)
    requires CountNamed(nodes, "file") == 0
    ensures NonFiles(nodes) == nodes
    ensures ElementsNamed(nodes, "file") == []
    decreases |nodes|
  {
    if nodes != [] {
      NonFilesNoFiles(nodes[1..]);
      assert nodes == [nodes[0]] + nodes[1..];
    }
  }

  /** The `for fe in file_elems { children.push(Element(fe)) }` loop. */
  method PushAll(children: seq<XmlNode>, elems: seq<Element>) returns (r: seq<XmlNode>)
    ensures r == children + Elems(elems)
  {
    r := children;
    for i := 0 to |elems|
      invariant r == children + Elems(elems[..i])
    {
      assert Elems(elems[..i + 1]) == Elems(elems[..i]) + [Elem(elems[i])];
      r := r + [Elem(elems[i])];
    }
    assert elems[..|elems|] == elems;
  }

  /** The sort key of sort_groups: the text of the file's first `name`
      child, "" when it has none (`unwrap_or_default`). */
  function FileNameKey(e: Element): string
  {
    ChildText(e, "name").GetOr("")
  }

  /** The `files` children after sort_groups has retained the non-file
      children and pushed the sorted clones back. */
  function SortedChildren(children: seq<XmlNode>, files: seq<Element>, ascending: bool): seq<XmlNode>
  {
    NonFiles(children) + Elems(SortBy(files, FileNameKey, ascending))
  }

  lemma SortByAllNamed(files: seq<Element>, ascending: bool)
    requires AllNamed(files, "file")
    ensures AllNamed(SortBy(files, FileNameKey, ascending), "file")
  {
    var s := SortBy(files, FileNameKey, ascending);
    SortByPerm(files, FileNameKey, ascending);
    forall e <- s ensures e.name == "file" {
      assert e in multiset(s);
    }
  }

  /** sort_groups' rebuild of a `files` container: the non-file children
      keep their order and come first, then every original file element,
      stably ordered by name (reversed when not ascending); the child count
      and the multiset of file elements are unchanged. */
  lemma SortedChildrenSpec(children: seq<XmlNode>, ascending: bool)
    ensures var files := ElementsNamed(children, "file");
            var r := SortedChildren(children, files, ascending);
            && |r| == |children|
            && NonFiles(r) == NonFiles(children)
            && ElementsNamed(r, "file") == SortBy(files, FileNameKey, ascending)
            && multiset(ElementsNamed(r, "file")) == multiset(files)
            && Sorted(ElementsNamed(r, "file"), FileNameKey, ascending)
            && forall k :: WithKey(ElementsNamed(r, "file"), FileNameKey, k) == WithKey(files, FileNameKey, k)
  {
    var files := ElementsNamed(children, "file");
    var sorted := SortBy(files, FileNameKey, ascending);
    var nf := NonFiles(children);
    SortByAllNamed(files, ascending);
    SortByPerm(files, FileNameKey, ascending);
    ElemsOfFiles(sorted);
    NonFilesNoFiles(nf);
    NonFilesConcat(nf, Elems(sorted));
    ElementsNamedConcat(nf, Elems(sorted), "file");
    SortBySorted(files, FileNameKey, ascending);
    forall k ensures WithKey(sorted, FileNameKey, k) == WithKey(files, FileNameKey, k) {
      SortByStable(files, FileNameKey, ascending, k);
    }
  }

  // ---------------------------------------------------------------------
  // The per-identifier edits of sort_groups, add_file_to_groups and
  // delete_file_nodes.
  // ---------------------------------------------------------------------

  /** sort_groups for one node id whose path passed the group filter. */
  function SortStep(root: Element, xpath: string, ascending: bool): Element
    requires PathOk(xpath)
  {
    var (root1, found) := GroupFiles(root, Segments(xpath));
    match found
    case None => root1
    case Some(fr) =>
      match ElementAt(root1, fr.addr)
      case None => root1
      case Some(filesEl) =>
        ReplaceAt(root1, fr.addr, filesEl.(children := SortedChildren(filesEl.children, fr.files, ascending)))
  }

  /** What one sort step does: nothing when the path does not resolve;
      otherwise the `files` container find_group_files_mut yields has its
      children rebuilt as SortedChildrenSpec describes, and everything off
      the path to it is as find_group_files_mut left it. */
  lemma SortStepEffect(root: Element, xpath: string, ascending: bool, other: seq<nat>)
    requires PathOk(xpath)
    ensures Walk(root, Segments(xpath)).None? ==> SortStep(root, xpath, ascending) == root
    ensures Walk(root, Segments(xpath)).Some? ==>
              var (root1, found) := GroupFiles(root, Segments(xpath));
              && found.Some? && ElementAt(root1, found.value.addr).Some?
              && var filesEl := ElementAt(root1, found.value.addr).value;
              && ElementAt(SortStep(root, xpath, ascending), found.value.addr)
                 == Some(filesEl.(children := SortedChildren(filesEl.children, ElementsNamed(filesEl.children, "file"), ascending)))
              && (Apart(found.value.addr, other) ==> ElementAt(SortStep(root, xpath, ascending), other) == ElementAt(root1, other))
  {
    var segs := Segments(xpath);
    if Walk(root, segs).Some? {
      GroupFilesFound(root, segs);
      var (root1, found) := GroupFiles(root, segs);
      var filesEl := ElementAt(root1, found.value.addr).value;
      var e := filesEl.(children := SortedChildren(filesEl.children, found.value.files, ascending));
      ReplaceAtRead(root1, found.value.addr, e);
      if Apart(found.value.addr, other) {
        ReplaceAtFrame(root1, found.value.addr, e, other);
      }
    }
  }

  /** sort_groups' edit for one id: find the container, sort the clones,
      retain the non-file children and push the sorted files back. */
  method SortGroup(root: Element, xpath: string, ascending: bool) returns (r: Element)
    requires PathOk(xpath)
    ensures r == SortStep(root, xpath, ascending)
  {
    var root1, found := FindGroupFilesMut(root, Segments(xpath));
    if found.None? {
      return root1;
    }
    var fr := found.value;
    var filesEl := ElementAt(root1, fr.addr);
    if filesEl.None? {
      return root1;
    }
    var sorted := SortBy(fr.files, FileNameKey, ascending);
    var kept := RetainNonFiles(filesEl.value.children);
    var children := PushAll(kept, sorted);
    r := ReplaceAt(root1, fr.addr, filesEl.value.(children := children));
  }

  /** `<file><name>file_name</name></file>` */
  function NewFile(fileName: string): Element
  {
    Element("file", map[], [Elem(Element("name", map[], [Text(fileName)]))])
  }

  /** The appended file reads back, in the tree view and as a sort key, as
      the name it was created with (an empty name shows as `<no-name>`). */
  lemma NewFileName(fileName: string)
    ensures FileNameKey(NewFile(fileName)) == fileName
    ensures NameLabel(NewFile(fileName)) == if fileName == "" then "<no-name>" else fileName
  {
    var nameEl := Element("name", map[], [Text(fileName)]);
    var f := NewFile(fileName);
    assert NthNamed(f.children, "name", 1) == Some(0) by {
      assert f.children[..0] == [];
      NthNamedUnique(f.children, "name", 1, 0);
    }
    assert FindChildElement(f, "name") == Some(nameEl);
    assert nameEl.children[..0] == [];
    assert TextContent(nameEl.children) == fileName;
  }

  /** add_file_to_groups for one node id whose path passed the group
      filter: find_group_files_mut is called twice, as in the source, and the
      new file is pushed onto the container the second call returns. */
  function AddStep(root: Element, xpath: string, fileName: string): Element
    requires PathOk(xpath)
  {
    var (root1, found1) := GroupFiles(root, Segments(xpath));
    if found1.None? then root1
    else
      var (root2, found2) := GroupFiles(root1, Segments(xpath));
      match found2
      case None => root2
      case Some(fr) =>
        match ElementAt(root2, fr.addr)
        case None => root2
        case Some(filesEl) => ReplaceAt(root2, fr.addr, filesEl.(children := filesEl.children + [Elem(NewFile(fileName))]))
  }

  /** What one add step does: nothing when the path does not resolve;
      otherwise exactly one new file is appended as the last child of the
      container find_group_files_mut yields, earlier children untouched, and
      nothing off the path to it changes. */
  lemma AddStepEffect(root: Element, xpath: string, fileName: string, other: seq<nat>)
    requires PathOk(xpath)
    ensures Walk(root, Segments(xpath)).None? ==> AddStep(root, xpath, fileName) == root
    ensures Walk(root, Segments(xpath)).Some? ==>
              var (root1, found) := GroupFiles(root, Segments(xpath));
              && found.Some? && ElementAt(root1, found.value.addr).Some?
              && var filesEl := ElementAt(root1, found.value.addr).value;
              && ElementAt(AddStep(root, xpath, fileName), found.value.addr)
                 == Some(filesEl.(children := filesEl.children + [Elem(NewFile(fileName))]))
              && (Apart(found.value.addr, other) ==> ElementAt(AddStep(root, xpath, fileName), other) == ElementAt(root1, other))
  {
    var segs := Segments(xpath);
    if Walk(root, segs).Some? {
      GroupFilesFound(root, segs);
      GroupFilesTwice(root, segs);
      var (root1, found) := GroupFiles(root, segs);
      var filesEl := ElementAt(root1, found.value.addr).value;
      var e := filesEl.(children := filesEl.children + [Elem(NewFile(fileName))]);
      ReplaceAtRead(root1, found.value.addr, e);
      if Apart(found.value.addr, other) {
        ReplaceAtFrame(root1, found.value.addr, e, other);
      }
    }
  }

  /** add_file_to_groups' edit for one id. */
  method AddFile(root: Element, xpath: string, fileName: string) returns (r: Element)
    requires PathOk(xpath)
    ensures r == AddStep(root, xpath, fileName)
  {
    var root1, found1 := FindGroupFilesMut(root, Segments(xpath));
    if found1.None? {
      return root1;
    }
    var root2, found2 := FindGroupFilesMut(root1, Segments(xpath));
    if found2.None? {
      return root2;
    }
    var filesEl := ElementAt(root2, found2.value.addr);
    if filesEl.None? {
      return root2;
    }
    var newFile := NewFile(fileName);
    r := ReplaceAt(root2, found2.value.addr, filesEl.value.(children := filesEl.value.children + [Elem(newFile)]));
  }

  /** `children.remove(pos)` */
  function RemoveAt<T>(s: seq<T>, pos: nat): (r: seq<T>)
    requires pos < |s|
    ensures |r| == |s| - 1
  {
    s[..pos] + s[pos + 1..]
  }

  /** Every segment but the last: the path of the parent `files` element. */
  function ParentSegments(xpath: string): (r: seq<string>)
    requires PathOk(xpath)
    ensures SegmentsOk(r)
  {
    var segs := Segments(xpath);
    assert forall seg <- segs[..|segs| - 1] :: seg in segs;
    segs[..|segs| - 1]
  }

  function LastSegment(xpath: string): (r: string)
    requires PathOk(xpath)
    ensures SegmentOk(r)
  {
    var segs := Segments(xpath);
    assert segs[|segs| - 1] in segs;
    segs[|segs| - 1]
  }

  /** The removal once the parent is found: the n-th `file` child goes, or
      "file not found". */
  function RemoveNthFile(root: Element, addr: seq<nat>, n: nat): (r: Result<Element>)
    requires ElementAt(root, addr).Some?
  {
    var parent := ElementAt(root, addr).value;
    match NthNamed(parent.children, "file", n)
    case None => Err("file not found")
    case Some(pos) => Ok(ReplaceAt(root, addr, parent.(children := RemoveAt(parent.children, pos))))
  }

  /** remove_file_by_xpath: walk every segment but the last to the parent,
      read the last segment's index, remove that `file` child. */
  function RemoveFileByXPath(root: Element, xpath: string): (r: Result<Element>)
    requires PathOk(xpath)
    ensures r.Err? ==> r.message in {"not found parent", "bad index", "file not found"}
  {
    match Walk(root, ParentSegments(xpath))
    case None => Err("not found parent")
    case Some(addr) =>
      match ParseLastIndex(LastSegment(xpath))
      case Err(msg) => Err(msg)
      case Ok(n) => RemoveNthFile(root, addr, n)
  }

  lemma {:induction false} ElementsNamedRemove(nodes: seq<XmlNode>, name: string, n: nat)
    requires NthNamed(nodes, name, n).Some?
    ensures n >= 1 && n - 1 < |ElementsNamed(nodes, name)|
    ensures ElementsNamed(RemoveAt(nodes, NthNamed(nodes, name, n).value), name)
            == RemoveAt(ElementsNamed(nodes, name), n - 1)
  {
    var pos := NthNamed(nodes, name, n).value;
    var es := ElementsNamed(nodes, name);
    assert nodes == nodes[..pos] + [nodes[pos]] + nodes[pos + 1..];
    ElementsNamedConcat(nodes[..pos] + [nodes[pos]], nodes[pos + 1..], name);
    ElementsNamedConcat(nodes[..pos], [nodes[pos]], name);
    ElementsNamedConcat(nodes[..pos], nodes[pos + 1..], name);
    assert [nodes[pos]][1..] == [];
    var pre := ElementsNamed(nodes[..pos], name);
    assert |pre| == n - 1;
    assert es == pre + [nodes[pos].element] + ElementsNamed(nodes[pos + 1..], name);
    assert es[..n - 1] == pre;
    assert es[n..] == ElementsNamed(nodes[pos + 1..], name);
  }

  lemma NonFilesRemove(nodes: seq<XmlNode>, pos: nat)
    requires pos < |nodes| && IsElementNamed(nodes[pos], "file")
    ensures NonFiles(RemoveAt(nodes, pos)) == NonFiles(nodes)
  {
    var a, x, b := nodes[..pos], nodes[pos], nodes[pos + 1..];
    assert nodes == a + ([x] + b);
    assert ([x] + b)[1..] == b;
    calc {
      NonFiles(nodes);
      { NonFilesConcat(a, [x] + b); }
      NonFiles(a) + NonFiles([x] + b);
      NonFiles(a) + NonFiles(b);
      { NonFilesConcat(a, b); }
      NonFiles(a + b);
    }
  }

  /** The removal itself: "file not found" when the parent has fewer than
      n `file` children (or n is 0); otherwise exactly the n-th `file` child
      is gone, every other child keeps its order, and nothing off the
      parent's path changes. */
  lemma RemoveNthFileEffect(root: Element, addr: seq<nat>, n: nat, other: seq<nat>)
    requires ElementAt(root, addr).Some?
    ensures var parent := ElementAt(root, addr).value;
            && (RemoveNthFile(root, addr, n).Err? <==> n == 0 || CountNamed(parent.children, "file") < n)
            && (RemoveNthFile(root, addr, n).Ok? ==>
                  && ElementAt(RemoveNthFile(root, addr, n).value, addr).Some?
                  && var parent' := ElementAt(RemoveNthFile(root, addr, n).value, addr).value;
                  && |parent'.children| == |parent.children| - 1
                  && CountNamed(parent'.children, "file") == CountNamed(parent.children, "file") - 1
                  && ElementsNamed(parent'.children, "file") == RemoveAt(ElementsNamed(parent.children, "file"), n - 1)
                  && NonFiles(parent'.children) == NonFiles(parent.children)
                  && (Apart(addr, other) ==> ElementAt(RemoveNthFile(root, addr, n).value, other) == ElementAt(root, other)))
  {
    var parent := ElementAt(root, addr).value;
    if NthNamed(parent.children, "file", n).Some? {
      var pos := NthNamed(parent.children, "file", n).value;
      var e := parent.(children := RemoveAt(parent.children, pos));
      ReplaceAtRead(root, addr, e);
      ElementsNamedRemove(parent.children, "file", n);
      NonFilesRemove(parent.children, pos);
      if Apart(addr, other) {
        ReplaceAtFrame(root, addr, e, other);
      }
    }
  }

  /** The order of remove_file_by_xpath's failures: "not found parent" when
      the parent path does not resolve, then "bad index" when the last index
      does not parse, then the removal proper. */
  lemma RemoveFileErrors(root: Element, xpath: string)
    requires PathOk(xpath)
    ensures RemoveFileByXPath(root, xpath) == Err("not found parent") <==> Walk(root, ParentSegments(xpath)).None?
    ensures Walk(root, ParentSegments(xpath)).Some? ==>
              (RemoveFileByXPath(root, xpath) == Err("bad index") <==> ParseLastIndex(LastSegment(xpath)).Err?)
    ensures Walk(root, ParentSegments(xpath)).Some? && ParseLastIndex(LastSegment(xpath)).Ok? ==>
              RemoveFileByXPath(root, xpath)
              == RemoveNthFile(root, Walk(root, ParentSegments(xpath)).value, ParseLastIndex(LastSegment(xpath)).value)
  {
    var w := Walk(root, ParentSegments(xpath));
    if w.Some? && ParseLastIndex(LastSegment(xpath)).Ok? {
      RemoveNthFileEffect(root, w.value, ParseLastIndex(LastSegment(xpath)).value, []);
    }
  }

  /** remove_file_by_xpath, with its cursor walk and its counting loop. */
  method RemoveFile(root: Element, xpath: string) returns (r: Result<Element>)
    requires PathOk(xpath)
    ensures r == RemoveFileByXPath(root, xpath)
  {
    var filesSegs := ParentSegments(xpath);
    var addr, filesEl := ResolveCursor(root, filesSegs);
    if addr.None? {
      return Err("not found parent");
    }
    var idx := ParseLastIndex(LastSegment(xpath));
    if idx.Err? {
      return Err("bad index");
    }
    var removePos := FindNthNamed(filesEl.children, "file", idx.value);
    if removePos.Some? {
      return Ok(ReplaceAt(root, addr.value, filesEl.(children := RemoveAt(filesEl.children, removePos.value))));
    } else {
      return Err("file not found");
    }
  }
}
