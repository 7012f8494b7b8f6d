/** How the paths get_tree records meet the resolvers that read them back.
    The resolvers of lib.rs look every segment up among the children of the
    element they are given, the leading `project` included (their
    `.skip(1)` is commented out), while get_tree records paths that start with
    `/project` and is handed the `project` element itself.  So on a document
    whose `project` element has no child called `project`, none of the
    recorded paths resolves; with the first segment skipped, each resolves to
    exactly the element its tree node was built from. */
module RecordedPaths {
  import opened Wrappers
  import opened Decimal
  import opened XmlTree
  import opened PathExpr
  import opened Resolver
  import opened TreeView

  /** The element a walk ends on, if it ends. */
  function Resolved(root: Element, segs: seq<string>): Option<Element>
    requires SegmentsOk(segs)
  {
    match Walk(root, segs)
    case None => None
    case Some(addr) => ElementAt(root, addr)
  }

  /** `.skip(1)` */
  function SkipFirst(segs: seq<string>): (r: seq<string>)
    requires SegmentsOk(segs)
    ensures SegmentsOk(r) && |r| == if segs == [] then 0 else |segs| - 1
  {
    if segs == [] then []
    else
      assert forall seg <- segs[1..] :: seg in segs;
      segs[1..]
  }

  // ---------------------------------------------------------------------
  // The elements get_tree builds its nodes from.
  // ---------------------------------------------------------------------

  function Targets(root: Element): seq<Element>
  {
    GetChildrenByName(root, "target")
  }

  /** A position get_tree records for `root`: each index below the number
      of elements it enumerates there (and, as every Rust index, below
      usize::MAX). */
  predicate PosIn(root: Element, p: Pos)
  {
    match p
    case ProjectPos => true
    case TargetPos(t) => t < |Targets(root)| && t < UsizeMax
    case GroupPos(t, g) =>
      && t < |Targets(root)| && t < UsizeMax
      && g < |TargetGroupElems(Targets(root)[t])| && g < UsizeMax
    case FilePos(t, g, f) =>
      && t < |Targets(root)| && t < UsizeMax
      && g < |TargetGroupElems(Targets(root)[t])| && g < UsizeMax
      && f < |GroupFileElems(TargetGroupElems(Targets(root)[t])[g])| && f < UsizeMax
  }

  /** The element the node at position `p` was built from. */
  function PosElem(root: Element, p: Pos): Element
    requires PosIn(root, p)
  {
    match p
    case ProjectPos => root
    case TargetPos(t) => Targets(root)[t]
    case GroupPos(t, g) => TargetGroupElems(Targets(root)[t])[g]
    case FilePos(t, g, f) => GroupFileElems(TargetGroupElems(Targets(root)[t])[g])[f]
  }

  // ---------------------------------------------------------------------
  // One segment of a walk at a time.
  // ---------------------------------------------------------------------

  lemma ResolvedNil(el: Element)
    ensures Resolved(el, []) == Some(el)
  {
  }

  /** How the resolver reads the segments get_tree writes. */
  predicate Reads(seg: string, name: string, n: nat)
  {
    SegmentOk(seg) && ParseStep(seg).0 == name && ParseStep(seg).1 == n
  }

  /** A segment the resolver reads as (`name`, n + 1) moves the walk to
      the element get_children_by_name lists n-th. */
  lemma ResolvedNamed(el: Element, seg: string, name: string, n: nat, rest: seq<string>)
    requires Reads(seg, name, n + 1) && n < |ElementsNamed(el.children, name)|
    requires SegmentsOk(rest)
    ensures SegmentsOk([seg] + rest)
    ensures Resolved(el, [seg] + rest) == Resolved(ElementsNamed(el.children, name)[n], rest)
  {
    var segs := [seg] + rest;
    assert forall s <- segs :: s == seg || s in rest;
    ElementsNamedAt(el.children, name, n);
    var p := NthNamed(el.children, name, n + 1).value;
    var child := el.children[p].element;
    assert segs[0] == seg && segs[1..] == rest;
    match Walk(child, rest)
    case None =>
    case Some(a) =>
      WalkCons(el, seg, rest, p, a);
      assert ([p] + a)[0] == p && ([p] + a)[1..] == a;
  }

  /** The first element get_children_by_name lists is the one
      find_child_element returns. */
  lemma FirstListed(el: Element, name: string)
    requires FindChildElement(el, name).Some?
    ensures 0 < |ElementsNamed(el.children, name)|
    ensures ElementsNamed(el.children, name)[0] == FindChildElement(el, name).value
  {
    ElementsNamedAt(el.children, name, 0);
  }

  // ---------------------------------------------------------------------
  // As written: nothing resolves.
  // ---------------------------------------------------------------------

  lemma PosPathStartsAtProject(p: Pos)
    ensures PathOk(PosPath(p)) && |Segments(PosPath(p))| >= 1 && Segments(PosPath(p))[0] == "project"
  {
    PosPathOk(p);
    match p
    case ProjectPos => RootPathSegments();
    case TargetPos(t) => TargetPathSegments(t);
    case GroupPos(t, g) => GroupPathSegments(t, g);
    case FilePos(t, g, f) => FilePathSegments(t, g, f);
  }

  /** A walk whose first segment is `project` fails from an element without
      a `project` child. */
  lemma MissesFromProject(root: Element, segs: seq<string>)
    requires SegmentsOk(segs) && |segs| >= 1 && segs[0] == "project"
    requires CountNamed(root.children, "project") == 0
    ensures Walk(root, segs) == None
  {
    ParsePlainSegment("project");
    WalkFrom(root, segs, 0);
    assert segs[0..] == segs;
  }

  /** As written, no path get_tree records resolves from a `project`
      element that has no child called `project` (every real document). */
  lemma AsWrittenMisses(root: Element, p: Pos)
    requires CountNamed(root.children, "project") == 0
    ensures PathOk(PosPath(p)) && Walk(root, Segments(PosPath(p))) == None
  {
    PosPathStartsAtProject(p);
    MissesFromProject(root, Segments(PosPath(p)));
  }

  /** So sort_groups and add_file_to_groups leave such a document as it
      was, whatever recorded path they are given. */
  lemma AsWrittenSortAddNoop(root: Element, p: Pos, ascending: bool, fileName: string)
    requires CountNamed(root.children, "project") == 0
    ensures PathOk(PosPath(p))
    ensures SortStep(root, PosPath(p), ascending) == root
    ensures AddStep(root, PosPath(p), fileName) == root
  {
    AsWrittenMisses(root, p);
    SortStepEffect(root, PosPath(p), ascending, []);
    AddStepEffect(root, PosPath(p), fileName, []);
  }

  /** And delete_file_nodes fails with "not found parent" on every
      recorded file path, which aborts the command. */
  lemma AsWrittenDeleteFails(root: Element, t: nat, g: nat, f: nat)
    requires CountNamed(root.children, "project") == 0
    ensures PathOk(PosPath(FilePos(t, g, f)))
    ensures RemoveFileByXPath(root, PosPath(FilePos(t, g, f))) == Err("not found parent")
  {
    var xpath := PosPath(FilePos(t, g, f));
    PosPathOk(FilePos(t, g, f));
    FilePathSegments(t, g, f);
    MissesFromProject(root, ParentSegments(xpath));
    RemoveFileErrors(root, xpath);
  }

  // ---------------------------------------------------------------------
  // Corrected: the first segment skipped.
  // ---------------------------------------------------------------------

  lemma ReadsIndexed(name: string, n: nat)
    requires '[' !in name && n <= UsizeMax
    ensures Reads(IndexedSegment(name, n), name, n)
  {
    ParseIndexedSegment(name, n);
  }

  /** The three indexed segments of a recorded file path. */
  lemma ReadsIndexes(t: nat, g: nat, f: nat)
    requires t < UsizeMax && g < UsizeMax && f < UsizeMax
    ensures Reads(IndexedSegment("target", t + 1), "target", t + 1)
    ensures Reads(IndexedSegment("group", g + 1), "group", g + 1)
    ensures Reads(IndexedSegment("file", f + 1), "file", f + 1)
  {
    ReadsIndexed("target", t + 1);
    ReadsIndexed("group", g + 1);
    ReadsIndexed("file", f + 1);
  }

  lemma ReadsPlain()
    ensures Reads("project", "project", 1) && Reads("groups", "groups", 1) && Reads("files", "files", 1)
  {
    ParsePlainSegment("project");
    ParsePlainSegment("groups");
    ParsePlainSegment("files");
  }

  /** `groups`, then the g-th group, from a target. */
  lemma ResolveGroup(target: Element, g: nat, sGs: string, sG: string, rest: seq<string>)
    requires g < |TargetGroupElems(target)| && Reads(sGs, "groups", 1) && Reads(sG, "group", g + 1)
    requires SegmentsOk(rest)
    ensures SegmentsOk([sGs, sG] + rest)
    ensures Resolved(target, [sGs, sG] + rest) == Resolved(TargetGroupElems(target)[g], rest)
  {
    var groupsEl := FindChildElement(target, "groups").value;
    FirstListed(target, "groups");
    ResolvedNamed(groupsEl, sG, "group", g, rest);
    ResolvedNamed(target, sGs, "groups", 0, [sG] + rest);
    Cons2(sGs, sG, rest);
  }

  /** `files`, then whatever follows, from a group. */
  lemma ResolveFiles(group: Element, sFs: string, rest: seq<string>)
    requires FindChildElement(group, "files").Some? && Reads(sFs, "files", 1) && SegmentsOk(rest)
    ensures SegmentsOk([sFs] + rest)
    ensures Resolved(group, [sFs] + rest) == Resolved(FindChildElement(group, "files").value, rest)
  {
    FirstListed(group, "files");
    ResolvedNamed(group, sFs, "files", 0, rest);
  }

  /** The f-th file, from a group. */
  lemma ResolveFile(group: Element, f: nat, sFs: string, sF: string)
    requires f < |GroupFileElems(group)| && Reads(sFs, "files", 1) && Reads(sF, "file", f + 1)
    ensures SegmentsOk([sFs, sF])
    ensures Resolved(group, [sFs, sF]) == Some(GroupFileElems(group)[f])
  {
    assert FindChildElement(group, "files").Some?;
    var filesEl := FindChildElement(group, "files").value;
    assert GroupFileElems(group) == ElementsNamed(filesEl.children, "file");
    ResolvedNamed(filesEl, sF, "file", f, []);
    ResolvedNil(GroupFileElems(group)[f]);
    Pair(sFs, sF);
    ResolveFiles(group, sFs, [sF]);
  }

  // Sequence displays regrouped, for the walks above. Stated over an
  // abstract element type, they stay cheap to use where strings abound.
  lemma Pair<T>(a: T, b: T)
    ensures [a] + [] == [a] && [b] + [] == [b] && [a] + [b] == [a, b]
  {
  }

  lemma Cons2<T>(a: T, b: T, rest: seq<T>)
    ensures [a, b] + rest == [a] + ([b] + rest)
  {
  }

  lemma Cons3<T>(a: T, b: T, c: T)
    ensures [a] + ([b, c] + []) == [a, b, c]
  {
  }

  lemma Cons4<T>(a: T, b: T, c: T, d: T)
    ensures [a] + ([b, c] + ([d] + [])) == [a, b, c, d]
  {
  }

  lemma Cons5<T>(a: T, b: T, c: T, d: T, e: T)
    ensures [a] + ([b, c] + [d, e]) == [a, b, c, d, e]
  {
  }

  lemma ResolveTargetPath(root: Element, t: nat, sT: string)
    requires t < |Targets(root)| && Reads(sT, "target", t + 1)
    ensures SegmentsOk([sT]) && Resolved(root, [sT]) == Some(Targets(root)[t])
  {
    ResolvedNamed(root, sT, "target", t, []);
    ResolvedNil(Targets(root)[t]);
    assert [sT] + [] == [sT];
  }

  lemma ResolveGroupPath(root: Element, t: nat, g: nat, sT: string, sGs: string, sG: string)
    requires PosIn(root, GroupPos(t, g))
    requires Reads(sT, "target", t + 1) && Reads(sGs, "groups", 1) && Reads(sG, "group", g + 1)
    ensures SegmentsOk([sT, sGs, sG])
    ensures Resolved(root, [sT, sGs, sG]) == Some(PosElem(root, GroupPos(t, g)))
  {
    var group := TargetGroupElems(Targets(root)[t])[g];
    ResolvedNil(group);
    ResolveGroup(Targets(root)[t], g, sGs, sG, []);
    ResolvedNamed(root, sT, "target", t, [sGs, sG] + []);
    Cons3(sT, sGs, sG);
  }

  lemma ResolveFilePath(root: Element, t: nat, g: nat, f: nat, sT: string, sGs: string, sG: string, sFs: string, sF: string)
    requires PosIn(root, FilePos(t, g, f))
    requires Reads(sT, "target", t + 1) && Reads(sGs, "groups", 1) && Reads(sG, "group", g + 1)
    requires Reads(sFs, "files", 1) && Reads(sF, "file", f + 1)
    ensures SegmentsOk([sT, sGs, sG, sFs, sF])
    ensures Resolved(root, [sT, sGs, sG, sFs, sF]) == Some(PosElem(root, FilePos(t, g, f)))
  {
    var target := Targets(root)[t];
    ResolveFile(TargetGroupElems(target)[g], f, sFs, sF);
    ResolveGroup(target, g, sGs, sG, [sFs, sF]);
    ResolvedNamed(root, sT, "target", t, [sGs, sG] + [sFs, sF]);
    Cons5(sT, sGs, sG, sFs, sF);
  }

  /** The g-th group of the t-th target has a `files` child. */
  predicate HasFilesContainer(root: Element, t: nat, g: nat)
    requires PosIn(root, GroupPos(t, g))
  {
    FindChildElement(TargetGroupElems(Targets(root)[t])[g], "files").Some?
  }

  /** A recorded file lies in a recorded group that has a `files` child. */
  lemma FileHasContainer(root: Element, t: nat, g: nat, f: nat)
    requires PosIn(root, FilePos(t, g, f))
    ensures PosIn(root, GroupPos(t, g)) && HasFilesContainer(root, t, g)
  {
  }

  /** The `files` container of the g-th group of the t-th target. */
  function FilesContainer(root: Element, t: nat, g: nat): Element
    requires PosIn(root, GroupPos(t, g)) && HasFilesContainer(root, t, g)
  {
    FindChildElement(TargetGroupElems(Targets(root)[t])[g], "files").value
  }

  lemma ResolveContainerPath(root: Element, t: nat, g: nat, f: nat, sT: string, sGs: string, sG: string, sFs: string)
    requires PosIn(root, FilePos(t, g, f))
    requires Reads(sT, "target", t + 1) && Reads(sGs, "groups", 1) && Reads(sG, "group", g + 1)
    requires Reads(sFs, "files", 1)
    ensures PosIn(root, GroupPos(t, g)) && HasFilesContainer(root, t, g)
    ensures SegmentsOk([sT, sGs, sG, sFs])
    ensures Resolved(root, [sT, sGs, sG, sFs]) == Some(FilesContainer(root, t, g))
  {
    FileHasContainer(root, t, g, f);
    var target := Targets(root)[t];
    var group := TargetGroupElems(target)[g];
    ResolvedNil(FindChildElement(group, "files").value);
    ResolveFiles(group, sFs, []);
    ResolveGroup(target, g, sGs, sG, [sFs] + []);
    ResolvedNamed(root, sT, "target", t, [sGs, sG] + ([sFs] + []));
    Cons4(sT, sGs, sG, sFs);
  }

  /** With the first segment skipped, every path get_tree records resolves
      to the very element the tree node it keys was built from. */
  lemma CorrectedResolves(root: Element, p: Pos)
    requires PosIn(root, p)
    ensures PathOk(PosPath(p))
    ensures Resolved(root, SkipFirst(Segments(PosPath(p)))) == Some(PosElem(root, p))
  {
    PosPathOk(p);
    match p
    case ProjectPos =>
      RootPathSegments();
      ResolvedNil(root);
    case TargetPos(t) =>
      TargetPathSegments(t);
      ReadsIndexed("target", t + 1);
      ResolveTargetPath(root, t, IndexedSegment("target", t + 1));
    case GroupPos(t, g) => CorrectedResolvesGroupPos(root, t, g);
    case FilePos(t, g, f) => CorrectedResolvesFilePos(root, t, g, f);
  }

  lemma CorrectedResolvesGroupPos(root: Element, t: nat, g: nat)
    requires PosIn(root, GroupPos(t, g))
    ensures PathOk(PosPath(GroupPos(t, g)))
    ensures Resolved(root, SkipFirst(Segments(PosPath(GroupPos(t, g))))) == Some(PosElem(root, GroupPos(t, g)))
  {
    PosPathOk(GroupPos(t, g));
    GroupPathSegments(t, g);
    ReadsIndexes(t, g, 0);
    CorrectedResolvesGroup(root, t, g, IndexedSegment("target", t + 1), IndexedSegment("group", g + 1),
                           Segments(PosPath(GroupPos(t, g))));
  }

  lemma CorrectedResolvesFilePos(root: Element, t: nat, g: nat, f: nat)
    requires PosIn(root, FilePos(t, g, f))
    ensures PathOk(PosPath(FilePos(t, g, f)))
    ensures Resolved(root, SkipFirst(Segments(PosPath(FilePos(t, g, f))))) == Some(PosElem(root, FilePos(t, g, f)))
  {
    PosPathOk(FilePos(t, g, f));
    FilePathSegments(t, g, f);
    ReadsIndexes(t, g, f);
    CorrectedResolvesFile(root, t, g, f, IndexedSegment("target", t + 1), IndexedSegment("group", g + 1),
                          IndexedSegment("file", f + 1), Segments(PosPath(FilePos(t, g, f))));
  }

  lemma CorrectedResolvesGroup(root: Element, t: nat, g: nat, sT: string, sG: string, segs: seq<string>)
    requires PosIn(root, GroupPos(t, g)) && Reads(sT, "target", t + 1) && Reads(sG, "group", g + 1)
    requires segs == ["project", sT, "groups", sG]
    ensures SegmentsOk(segs) && Resolved(root, SkipFirst(segs)) == Some(PosElem(root, GroupPos(t, g)))
  {
    ReadsPlain();
    ResolveGroupPath(root, t, g, sT, "groups", sG);
    assert SkipFirst(segs) == [sT, "groups", sG];
  }

  lemma CorrectedResolvesFile(root: Element, t: nat, g: nat, f: nat, sT: string, sG: string, sF: string,
                              segs: seq<string>)
    requires PosIn(root, FilePos(t, g, f))
    requires Reads(sT, "target", t + 1) && Reads(sG, "group", g + 1) && Reads(sF, "file", f + 1)
    requires segs == ["project", sT, "groups", sG, "files", sF]
    ensures SegmentsOk(segs) && Resolved(root, SkipFirst(segs)) == Some(PosElem(root, FilePos(t, g, f)))
  {
    ReadsPlain();
    ResolveFilePath(root, t, g, f, sT, "groups", sG, "files", sF);
    assert SkipFirst(segs) == [sT, "groups", sG, "files", sF];
  }

  /** remove_file_by_xpath with the first segment skipped. */
  function CorrectedRemoveFile(root: Element, xpath: string): (r: Result<Element>)
    requires PathOk(xpath)
    ensures r.Err? ==> r.message in {"not found parent", "bad index", "file not found"}
  {
    match Walk(root, SkipFirst(ParentSegments(xpath)))
    case None => Err("not found parent")
    case Some(addr) =>
      match ParseLastIndex(LastSegment(xpath))
      case Err(msg) => Err(msg)
      case Ok(n) => RemoveNthFile(root, addr, n)
  }

  lemma ResolveFilesContainer(root: Element, t: nat, g: nat, f: nat)
    requires PosIn(root, FilePos(t, g, f))
    ensures PosIn(root, GroupPos(t, g)) && HasFilesContainer(root, t, g) && PathOk(PosPath(FilePos(t, g, f)))
    ensures Walk(root, SkipFirst(ParentSegments(PosPath(FilePos(t, g, f))))).Some?
    ensures Resolved(root, SkipFirst(ParentSegments(PosPath(FilePos(t, g, f)))))
            == Some(FilesContainer(root, t, g))
    ensures LastSegment(PosPath(FilePos(t, g, f))) == IndexedSegment("file", f + 1)
  {
    var xpath := PosPath(FilePos(t, g, f));
    PosPathOk(FilePos(t, g, f));
    FilePathSegments(t, g, f);
    var segs := Segments(xpath);
    assert ParentSegments(xpath) == segs[..5];
    assert segs[..5] == ["project", IndexedSegment("target", t + 1), "groups", IndexedSegment("group", g + 1), "files"];
    ReadsIndexes(t, g, f);
    ContainerSegments(root, t, g, f, IndexedSegment("target", t + 1), IndexedSegment("group", g + 1),
                      ParentSegments(xpath));
  }

  lemma ContainerSegments(root: Element, t: nat, g: nat, f: nat, sT: string, sG: string, parent: seq<string>)
    requires PosIn(root, FilePos(t, g, f)) && Reads(sT, "target", t + 1) && Reads(sG, "group", g + 1)
    requires parent == ["project", sT, "groups", sG, "files"]
    ensures PosIn(root, GroupPos(t, g)) && HasFilesContainer(root, t, g) && SegmentsOk(parent)
    ensures Resolved(root, SkipFirst(parent)) == Some(FilesContainer(root, t, g))
  {
    ReadsPlain();
    ResolveContainerPath(root, t, g, f, sT, "groups", sG, "files");
    assert SkipFirst(parent) == [sT, "groups", sG, "files"];
  }

  /** With the first segment skipped, deleting a recorded file node removes
      exactly that file from its group's `files` container (the one at
      `addr`, found by ResolveFilesContainer): the container's other `file`
      children keep their order. */
  lemma CorrectedDeleteRemoves(root: Element, t: nat, g: nat, f: nat, xpath: string, addr: seq<nat>)
    requires PosIn(root, FilePos(t, g, f)) && xpath == PosPath(FilePos(t, g, f)) && PathOk(xpath)
    requires Walk(root, SkipFirst(ParentSegments(xpath))) == Some(addr)
    ensures PosIn(root, GroupPos(t, g)) && HasFilesContainer(root, t, g)
    ensures CorrectedRemoveFile(root, xpath).Ok?
    ensures ElementAt(CorrectedRemoveFile(root, xpath).value, addr).Some?
    ensures ElementsNamed(ElementAt(CorrectedRemoveFile(root, xpath).value, addr).value.children, "file")
            == RemoveAt(ElementsNamed(FilesContainer(root, t, g).children, "file"), f)
  {
    ResolveFilesContainer(root, t, g, f);
    assert ElementAt(root, addr) == Some(FilesContainer(root, t, g));
    ParseIndexedSegment("file", f + 1);
    RemoveNthFileEffect(root, addr, f + 1, []);
  }
}
