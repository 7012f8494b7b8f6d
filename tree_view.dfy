/** The tree get_tree builds for the user interface and the node map it
    records beside it: one node per project, target, group and file, in
    document order, each with a freshly minted identifier that the node map
    sends to the node's positional path. */
module TreeView {
  import opened Wrappers
  import opened Decimal
  import opened XmlTree
  import opened PathExpr

  /** A node of the tree view (TreeNode in lib.rs; `title` is its `label`). */
  datatype TreeNode = TreeNode(key: string, title: string, children: seq<TreeNode>, nodeType: string)

  /** The position a node stands for: the project, the t-th target, the
      g-th group of the t-th target, or the f-th file of that group (all
      0-based). */
  datatype Pos = ProjectPos | TargetPos(t: nat) | GroupPos(t: nat, g: nat) | FilePos(t: nat, g: nat, f: nat)

  /** The path get_tree formats for a position: `/project`,
      `/project/target[t + 1]`, then `/groups/group[g + 1]`, then
      `/files/file[f + 1]`. */
  function PosPath(p: Pos): string
  {
    match p
    case ProjectPos => RootPath
    case TargetPos(t) => TargetPath(t)
    case GroupPos(t, g) => GroupPath(TargetPath(t), g)
    case FilePos(t, g, f) => FilePath(GroupPath(TargetPath(t), g), f)
  }

  /** Every path get_tree records is one the resolvers can slice. */
  lemma PosPathOk(p: Pos)
    ensures PathOk(PosPath(p))
  {
    match p
    case ProjectPos => RootPathOk();
    case TargetPos(t) => TargetPathOk(t);
    case GroupPos(t, g) => GroupPathOk(t, g);
    case FilePos(t, g, f) => FilePathOk(t, g, f);
  }

  /** A level of the tree under construction: its nodes, the positions
      recorded in the node map for them and their descendants, in the order
      their identifiers were minted, and the next unused identifier. */
  datatype Built = Built(nodes: seq<TreeNode>, entries: seq<Pos>, next: nat)

  /** The n-th freshly minted identifier (`Uuid::new_v4().to_string()`). */
  function NodeId(n: nat): string
  {
    Digits(n)
  }

  lemma NodeIdInjective(m: nat, n: nat)
    requires NodeId(m) == NodeId(n)
    ensures m == n
  {
    DigitsValueOfDigits(m);
    DigitsValueOfDigits(n);
  }

  /** The identifiers minted from `lo` up to, not including, `hi`. */
  function IdRange(lo: nat, hi: nat): set<string>
  {
    set k: nat | lo <= k < hi :: NodeId(k)
  }

  /** Every path in a node map is one the resolvers can slice. */
  predicate PathsOk(nodeMap: map<string, string>)
  {
    forall id <- nodeMap :: PathOk(nodeMap[id])
  }

  /** The node map get_tree leaves behind when the identifiers minted from
      `start` on were inserted with the positions `entries`, one by one. */
  function NodeMapOf(start: nat, entries: seq<Pos>): map<string, string>
    decreases |entries|
  {
    if entries == [] then map[]
    else
      var n := |entries| - 1;
      NodeMapOf(start, entries[..n])[NodeId(start + n) := PosPath(entries[n])]
  }

  /** The node map holds exactly one identifier per insertion (none is
      minted twice) and every path in it is one the resolvers can slice. */
  lemma {:induction false} NodeMapOfKeys(start: nat, entries: seq<Pos>)
    ensures NodeMapOf(start, entries).Keys == IdRange(start, start + |entries|)
    ensures PathsOk(NodeMapOf(start, entries))
    decreases |entries|
  {
    if entries != [] {
      var n := |entries| - 1;
      NodeMapOfKeys(start, entries[..n]);
      PosPathOk(entries[n]);
      assert IdRange(start, start + |entries|) == IdRange(start, start + n) + {NodeId(start + n)};
    }
  }

  /** The identifier minted k-th from `start` is sent to the path of the
      k-th recorded position. */
  lemma {:induction false} NodeMapOfAt(start: nat, entries: seq<Pos>, k: nat)
    requires k < |entries|
    ensures NodeId(start + k) in NodeMapOf(start, entries)
    ensures NodeMapOf(start, entries)[NodeId(start + k)] == PosPath(entries[k])
    decreases |entries|
  {
    var n := |entries| - 1;
    if k < n {
      NodeMapOfAt(start, entries[..n], k);
      if NodeId(start + n) == NodeId(start + k) {
        NodeIdInjective(start + n, start + k);
      }
    }
  }


  // ---------------------------------------------------------------------
  // What get_tree reads of a document.
  // ---------------------------------------------------------------------

  /** What get_tree shows of one element: the title of its node and the
      elements it lists below it. */
  datatype Listing = Listing(title: string, children: seq<Listing>)

  /** The `file` children get_tree lists for a group: those of its first
      `files` child, or none. */
  function GroupFileElems(group: Element): seq<Element>
  {
    match FindChildElement(group, "files")
    case None => []
    case Some(filesEl) => GetChildrenByName(filesEl, "file")
  }

  /** The `group` children get_tree lists for a target: those of its first
      `groups` child, or none. */
  function TargetGroupElems(target: Element): seq<Element>
  {
    match FindChildElement(target, "groups")
    case None => []
    case Some(groupsEl) => GetChildrenByName(groupsEl, "group")
  }

  /** A file is shown by its name; nothing is listed below it. */
  function FileListing(file: Element): Listing
  {
    Listing(NameLabel(file), [])
  }

  function ListFiles(files: seq<Element>): (r: seq<Listing>)
    ensures |r| == |files|
    decreases |files|
  {
    if files == [] then [] else ListFiles(files[..|files| - 1]) + [FileListing(files[|files| - 1])]
  }

  /** A group is shown by its name, with its listed files below it. */
  function GroupListing(group: Element): Listing
  {
    Listing(NameLabel(group), ListFiles(GroupFileElems(group)))
  }

  function ListGroups(groups: seq<Element>): (r: seq<Listing>)
    ensures |r| == |groups|
    decreases |groups|
  {
    if groups == [] then [] else ListGroups(groups[..|groups| - 1]) + [GroupListing(groups[|groups| - 1])]
  }

  /** A target is shown by its name, with its listed groups below it. */
  function TargetListing(target: Element): Listing
  {
    Listing(NameLabel(target), ListGroups(TargetGroupElems(target)))
  }

  function ListTargets(targets: seq<Element>): (r: seq<Listing>)
    ensures |r| == |targets|
    decreases |targets|
  {
    if targets == [] then [] else ListTargets(targets[..|targets| - 1]) + [TargetListing(targets[|targets| - 1])]
  }

  /** The i-th listing is that of the i-th element. */
  lemma {:induction false} ListGroupsAt(groups: seq<Element>, i: nat)
    requires i < |groups|
    ensures ListGroups(groups)[i] == GroupListing(groups[i])
    decreases |groups|
  {
    if i < |groups| - 1 {
      ListGroupsAt(groups[..|groups| - 1], i);
    }
  }

  lemma {:induction false} ListFilesAt(files: seq<Element>, i: nat)
    requires i < |files|
    ensures ListFiles(files)[i] == FileListing(files[i])
    decreases |files|
  {
    if i < |files| - 1 {
      ListFilesAt(files[..|files| - 1], i);
    }
  }

  lemma {:induction false} ListTargetsAt(targets: seq<Element>, i: nat)
    requires i < |targets|
    ensures ListTargets(targets)[i] == TargetListing(targets[i])
    decreases |targets|
  {
    if i < |targets| - 1 {
      ListTargetsAt(targets[..|targets| - 1], i);
    }
  }

  // ---------------------------------------------------------------------
  // The tree and the node map.
  // ---------------------------------------------------------------------

  /** The file nodes of the g-th group of the t-th target (0-based), and
      their positions. */
  function FileLevel(files: seq<Listing>, t: nat, g: nat, start: nat): (r: Built)
    ensures |r.nodes| == |files| && |r.entries| == |files| && r.next == start + |files|
    decreases |files|
  {
    if files == [] then Built([], [], start)
    else
      var i := |files| - 1;
      var b := FileLevel(files[..i], t, g, start);
      Built(b.nodes + [TreeNode(NodeId(b.next), files[i].title, [], "file")],
            b.entries + [FilePos(t, g, i)], b.next + 1)
  }

  /** `b` followed by one more node: its identifier is the next unused one,
      the node map sends it to `pos`, and its children are the level `sub`
      built right after it. */
  function Attach(b: Built, title: string, nodeType: string, pos: Pos, sub: Built): Built
  {
    Built(b.nodes + [TreeNode(NodeId(b.next), title, sub.nodes, nodeType)],
          b.entries + [pos] + sub.entries, sub.next)
  }

  /** The group nodes of the t-th target, each followed in identifier order
      by its file nodes. */
  function GroupLevel(groups: seq<Listing>, t: nat, start: nat): (r: Built)
    ensures |r.nodes| == |groups| && r.next == start + |r.entries|
    decreases |groups|
  {
    if groups == [] then Built([], [], start)
    else
      var i := |groups| - 1;
      var b := GroupLevel(groups[..i], t, start);
      Attach(b, groups[i].title, "group", GroupPos(t, i),
             FileLevel(groups[i].children, t, i, b.next + 1))
  }

  /** The target nodes, each followed in identifier order by its groups. */
  function TargetLevel(targets: seq<Listing>, start: nat): (r: Built)
    ensures |r.nodes| == |targets| && r.next == start + |r.entries|
    decreases |targets|
  {
    if targets == [] then Built([], [], start)
    else
      var i := |targets| - 1;
      var b := TargetLevel(targets[..i], start);
      Attach(b, targets[i].title, "target", TargetPos(i),
             GroupLevel(targets[i].children, i, b.next + 1))
  }

  /** What get_tree returns and records for a document: a single project
      node labelled `/project/<name>` whose identifier is the first one
      minted and is recorded for `/project`, with the target nodes below it. */
  function DocumentTree(root: Element, start: nat): (r: Built)
    ensures |r.nodes| == 1 && r.nodes[0].nodeType == "project" && r.nodes[0].key == NodeId(start)
    ensures r.next == start + |r.entries| && 0 < |r.entries| && r.entries[0] == ProjectPos
  {
    Attach(Built([], [], start), "/project/" + NameLabel(root), "project", ProjectPos,
           TargetLevel(ListTargets(GetChildrenByName(root, "target")), start + 1))
  }

  /** get_tree's node map: exactly the identifiers minted for the nodes
      (one per node, none reused), the project node's identifier sent to
      `/project`, and every path one the resolvers can slice. */
  lemma DocumentTreeNodeMap(root: Element, start: nat)
    ensures var r := DocumentTree(root, start);
            var nodeMap := NodeMapOf(start, r.entries);
            && nodeMap.Keys == IdRange(start, r.next) && PathsOk(nodeMap)
            && NodeId(start) in nodeMap && nodeMap[NodeId(start)] == RootPath
  {
    var r := DocumentTree(root, start);
    NodeMapOfKeys(start, r.entries);
    NodeMapOfAt(start, r.entries, 0);
  }

  /** Each identifier get_tree mints for a document is sent to the path of
      the node it keys: the k-th identifier to the k-th recorded position. */
  lemma DocumentTreeNodeMapAt(root: Element, start: nat, entries: seq<Pos>, k: nat)
    requires entries == DocumentTree(root, start).entries && k < |entries|
    ensures NodeId(start + k) in NodeMapOf(start, entries)
    ensures NodeMapOf(start, entries)[NodeId(start + k)] == PosPath(entries[k])
  {
    NodeMapOfAt(start, entries, k);
  }

  // ---------------------------------------------------------------------
  // Where each node sits.
  // ---------------------------------------------------------------------

  /** `r` continues `p`: it starts with p's nodes and p's entries. */
  predicate Extends(p: Built, r: Built)
  {
    && |p.nodes| <= |r.nodes| && r.nodes[..|p.nodes|] == p.nodes
    && |p.entries| <= |r.entries| && r.entries[..|p.entries|] == p.entries
  }

  lemma ExtendsTrans(a: Built, b: Built, c: Built)
    requires Extends(a, b) && Extends(b, c)
    ensures Extends(a, c)
  {
    assert c.nodes[..|a.nodes|] == c.nodes[..|b.nodes|][..|a.nodes|];
    assert c.entries[..|a.entries|] == c.entries[..|b.entries|][..|a.entries|];
  }

  /** What a level continuing an attached node holds about that node: the
      node itself, its recorded position, and its sub-level's entries right
      after it. */
  lemma AttachWithin(p: Built, title: string, nodeType: string, pos: Pos, sub: Built, r: Built)
    requires Extends(Attach(p, title, nodeType, pos, sub), r)
    ensures |p.nodes| < |r.nodes| && |p.entries| + 1 + |sub.entries| <= |r.entries|
    ensures r.nodes[|p.nodes|] == TreeNode(NodeId(p.next), title, sub.nodes, nodeType)
    ensures r.entries[|p.entries|] == pos
    ensures r.entries[|p.entries| + 1..|p.entries| + 1 + |sub.entries|] == sub.entries
  {
    var q := Attach(p, title, nodeType, pos, sub);
    assert r.nodes[|p.nodes|] == r.nodes[..|q.nodes|][|p.nodes|];
    assert r.entries[|p.entries|] == r.entries[..|q.entries|][|p.entries|];
    assert r.entries[|p.entries| + 1..|p.entries| + 1 + |sub.entries|]
        == r.entries[..|q.entries|][|p.entries| + 1..];
  }

  /** One round of each loop of get_tree: attaching the i-th listed node
      to the level built from the first i. */
  lemma FileStep(listed: seq<Listing>, i: nat, t: nat, g: nat, start: nat, b: Built, title: string)
    requires i < |listed| && b == FileLevel(listed[..i], t, g, start) && title == listed[i].title
    ensures Built(b.nodes + [TreeNode(NodeId(b.next), title, [], "file")], b.entries + [FilePos(t, g, i)], b.next + 1)
            == FileLevel(listed[..i + 1], t, g, start)
  {
    var q := listed[..i + 1];
    assert q[..i] == listed[..i] && q[i] == listed[i] && |q| - 1 == i;
  }

  lemma GroupStep(listed: seq<Listing>, i: nat, t: nat, start: nat, b: Built, title: string, fileNodes: Built)
    requires i < |listed| && b == GroupLevel(listed[..i], t, start) && title == listed[i].title
    requires fileNodes == FileLevel(listed[i].children, t, i, b.next + 1)
    ensures Attach(b, title, "group", GroupPos(t, i), fileNodes) == GroupLevel(listed[..i + 1], t, start)
  {
    var q := listed[..i + 1];
    assert q[..i] == listed[..i] && q[i] == listed[i] && |q| - 1 == i;
  }

  lemma TargetStep(listed: seq<Listing>, i: nat, start: nat, b: Built, title: string, groupNodes: Built)
    requires i < |listed| && b == TargetLevel(listed[..i], start) && title == listed[i].title
    requires groupNodes == GroupLevel(listed[i].children, i, b.next + 1)
    ensures Attach(b, title, "target", TargetPos(i), groupNodes) == TargetLevel(listed[..i + 1], start)
  {
    var q := listed[..i + 1];
    assert q[..i] == listed[..i] && q[i] == listed[i] && |q| - 1 == i;
  }

  /** The i-th file node carries the i-th listed file's title and the i-th
      identifier minted for the level, recorded for that file's position. */
  lemma {:induction false} FileLevelAt(files: seq<Listing>, t: nat, g: nat, start: nat, i: nat)
    requires i < |files|
    ensures FileLevel(files, t, g, start).nodes[i] == TreeNode(NodeId(start + i), files[i].title, [], "file")
    ensures FileLevel(files, t, g, start).entries[i] == FilePos(t, g, i)
    decreases |files|
  {
    var n := |files| - 1;
    if i < n {
      FileLevelAt(files[..n], t, g, start, i);
    }
  }

  lemma {:induction false} GroupLevelPrefix(groups: seq<Listing>, t: nat, start: nat, i: nat)
    requires i <= |groups|
    ensures Extends(GroupLevel(groups[..i], t, start), GroupLevel(groups, t, start))
    decreases |groups|
  {
    var r := GroupLevel(groups, t, start);
    if i == |groups| {
      assert groups[..i] == groups;
      assert r.nodes[..|r.nodes|] == r.nodes;
      assert r.entries[..|r.entries|] == r.entries;
    } else {
      var n := |groups| - 1;
      var b := GroupLevel(groups[..n], t, start);
      assert groups[..n][..i] == groups[..i];
      GroupLevelPrefix(groups[..n], t, start, i);
      assert r.nodes[..|b.nodes|] == b.nodes;
      assert r.entries[..|b.entries|] == b.entries;
      ExtendsTrans(GroupLevel(groups[..i], t, start), b, r);
    }
  }

  /** The i-th group node carries the i-th listed group's title; its
      identifier is recorded for the group's position; its children are the
      group's file nodes, whose entries follow right after it. */
  lemma GroupLevelAt(groups: seq<Listing>, t: nat, start: nat, i: nat, p: Built, fb: Built, r: Built)
    requires i < |groups| && p == GroupLevel(groups[..i], t, start) && r == GroupLevel(groups, t, start)
    requires fb == FileLevel(groups[i].children, t, i, p.next + 1)
    ensures |p.entries| + 1 + |fb.entries| <= |r.entries|
    ensures r.nodes[i] == TreeNode(NodeId(p.next), groups[i].title, fb.nodes, "group")
    ensures r.entries[|p.entries|] == GroupPos(t, i)
    ensures r.entries[|p.entries| + 1..|p.entries| + 1 + |fb.entries|] == fb.entries
  {
    GroupStep(groups, i, t, start, p, groups[i].title, fb);
    GroupLevelPrefix(groups, t, start, i + 1);
    AttachWithin(p, groups[i].title, "group", GroupPos(t, i), fb, r);
  }

  lemma {:induction false} TargetLevelPrefix(targets: seq<Listing>, start: nat, i: nat)
    requires i <= |targets|
    ensures Extends(TargetLevel(targets[..i], start), TargetLevel(targets, start))
    decreases |targets|
  {
    var r := TargetLevel(targets, start);
    if i == |targets| {
      assert targets[..i] == targets;
      assert r.nodes[..|r.nodes|] == r.nodes;
      assert r.entries[..|r.entries|] == r.entries;
    } else {
      var n := |targets| - 1;
      var b := TargetLevel(targets[..n], start);
      assert targets[..n][..i] == targets[..i];
      TargetLevelPrefix(targets[..n], start, i);
      assert r.nodes[..|b.nodes|] == b.nodes;
      assert r.entries[..|b.entries|] == b.entries;
      ExtendsTrans(TargetLevel(targets[..i], start), b, r);
    }
  }

  /** The i-th target node carries the i-th target's title; its identifier
      is recorded for the target's position; its children are the target's
      group nodes, whose entries follow right after it. */
  lemma TargetLevelAt(targets: seq<Listing>, start: nat, i: nat, p: Built, gb: Built, r: Built)
    requires i < |targets| && p == TargetLevel(targets[..i], start) && r == TargetLevel(targets, start)
    requires gb == GroupLevel(targets[i].children, i, p.next + 1)
    ensures |p.entries| + 1 + |gb.entries| <= |r.entries|
    ensures r.nodes[i] == TreeNode(NodeId(p.next), targets[i].title, gb.nodes, "target")
    ensures r.entries[|p.entries|] == TargetPos(i)
    ensures r.entries[|p.entries| + 1..|p.entries| + 1 + |gb.entries|] == gb.entries
  {
    TargetStep(targets, i, start, p, targets[i].title, gb);
    TargetLevelPrefix(targets, start, i + 1);
    AttachWithin(p, targets[i].title, "target", TargetPos(i), gb, r);
  }

  // ---------------------------------------------------------------------
  // The loops of get_tree.
  // ---------------------------------------------------------------------

  /** The innermost loop: one node and one node-map insertion per file. */
  method BuildFileNodes(files: seq<Element>, t: nat, g: nat, start: nat) returns (b: Built)
    ensures b == FileLevel(ListFiles(files), t, g, start)
  {
    ghost var listed := ListFiles(files);
    b := Built([], [], start);
    for i := 0 to |files|
      invariant b == FileLevel(listed[..i], t, g, start)
    {
      ListFilesAt(files, i);
      var fId := NodeId(b.next);
      var fName := GetChildText(files[i], "name");
      FileStep(listed, i, t, g, start, b, fName.GetOr("<no-name>"));
      b := Built(b.nodes + [TreeNode(fId, fName.GetOr("<no-name>"), [], "file")], b.entries + [FilePos(t, g, i)], b.next + 1);
    }
    assert listed[..|files|] == listed;
  }

  /** The loop over the groups of a target. */
  method BuildGroupNodes(groups: seq<Element>, t: nat, start: nat) returns (b: Built)
    ensures b == GroupLevel(ListGroups(groups), t, start)
  {
    ghost var listed := ListGroups(groups);
    b := Built([], [], start);
    for i := 0 to |groups|
      invariant b == GroupLevel(listed[..i], t, start)
    {
      ListGroupsAt(groups, i);
      var gName := GetChildText(groups[i], "name");
      var fileNodes := BuildFileNodes(GroupFileElems(groups[i]), t, i, b.next + 1);
      GroupStep(listed, i, t, start, b, gName.GetOr("<no-name>"), fileNodes);
      b := Attach(b, gName.GetOr("<no-name>"), "group", GroupPos(t, i), fileNodes);
    }
    assert listed[..|groups|] == listed;
  }

  /** The loop over the targets of the document. */
  method BuildTargetNodes(targets: seq<Element>, start: nat) returns (b: Built)
    ensures b == TargetLevel(ListTargets(targets), start)
  {
    ghost var listed := ListTargets(targets);
    b := Built([], [], start);
    for i := 0 to |targets|
      invariant b == TargetLevel(listed[..i], start)
    {
      ListTargetsAt(targets, i);
      var groupNodes := BuildGroupNodes(TargetGroupElems(targets[i]), i, b.next + 1);
      var tName := GetChildText(targets[i], "name");
      TargetStep(listed, i, start, b, tName.GetOr("<no-name>"), groupNodes);
      b := Attach(b, tName.GetOr("<no-name>"), "target", TargetPos(i), groupNodes);
    }
    assert listed[..|targets|] == listed;
  }

  /** The body of get_tree once the document is found. */
  method BuildDocumentTree(root: Element, start: nat) returns (b: Built)
    ensures b == DocumentTree(root, start)
  {
    var name := GetChildText(root, "name");
    var rootLabel := "/project/" + name.GetOr("<no-name>");
    var targetNodes := BuildTargetNodes(GetChildrenByName(root, "target"), start + 1);
    assert rootLabel == "/project/" + NameLabel(root);
    b := Attach(Built([], [], start), rootLabel, "project", ProjectPos, targetNodes);
  }
}
