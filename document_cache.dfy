/** The document cache of lib.rs and the commands that work on it: get_tree
    refills one document's node map with freshly minted identifiers, and
    sort_groups, add_file_to_groups and delete_file_nodes look each given
    identifier up in every cached document's node map, edit that
    document's tree in place and reset its text to the serialised tree. */
module DocumentCache {
  import opened Wrappers
  import opened XmlTree
  import opened PathExpr
  import opened Resolver
  import opened TreeView
  import opened RecordedPaths

  /** One loaded file: where it came from, its editable tree, its latest
      serialised text, and the node identifiers get_tree handed out for it,
      each sent to the positional path of its node. */
  datatype CachedDoc = CachedDoc(path: string, dom: Element, text: string, nodeMap: map<string, string>)

  /** The three tree-editing commands. */
  datatype Command = Sort(ascending: bool) | Add(fileName: string) | Delete

  /** The substring a recorded path must contain for the command to act on
      it: sort and add look for a group, delete for a file. */
  function Filter(cmd: Command): (r: string)
    ensures r == (if cmd.Delete? then "/files/file[" else "/groups/group[")
  {
    match cmd
    case Sort(_) => "/groups/group["
    case Add(_) => "/groups/group["
    case Delete => "/files/file["
  }

  // ---------------------------------------------------------------------
  // One document.
  // ---------------------------------------------------------------------

  /** The edit one node identifier makes to one document's tree. */
  function EditOne(dom: Element, nodeMap: map<string, string>, cmd: Command, nid: string): (r: Result<Element>)
    requires PathsOk(nodeMap)
    ensures nid !in nodeMap || !Contains(nodeMap[nid], Filter(cmd)) ==> r == Ok(dom)
    ensures !cmd.Delete? ==> r.Ok?
    ensures r.Err? ==> r.message in {"not found parent", "bad index", "file not found"}
  {
    if nid !in nodeMap then Ok(dom)
    else
      var xpath := nodeMap[nid];
      if !Contains(xpath, Filter(cmd)) then Ok(dom)
      else
        match cmd
        case Sort(ascending) => Ok(SortStep(dom, xpath, ascending))
        case Add(fileName) => Ok(AddStep(dom, xpath, fileName))
        case Delete => RemoveFileByXPath(dom, xpath)
  }

  /** Where one document's tree is left after the identifiers were tried in
      order, and the error that stopped the command, if one did. */
  datatype Edited = Edited(dom: Element, error: Option<string>)

  /** The identifiers tried in order; the first failure stops everything
      (delete_file_nodes' `?`), the tree keeping the edits made before it. */
  function EditDom(dom: Element, nodeMap: map<string, string>, cmd: Command, ids: seq<string>): (r: Edited)
    requires PathsOk(nodeMap)
    decreases |ids|
  {
    if ids == [] then Edited(dom, None)
    else
      match EditOne(dom, nodeMap, cmd, ids[0])
      case Err(msg) => Edited(dom, Some(msg))
      case Ok(dom') => EditDom(dom', nodeMap, cmd, ids[1..])
  }

  /** Trying `ids` and then `more` is trying `ids + more`, unless trying
      `ids` already failed, in which case `more` is never tried. */
  lemma {:induction false} EditDomAppend(dom: Element, nodeMap: map<string, string>, cmd: Command,
                                         ids: seq<string>, more: seq<string>)
    requires PathsOk(nodeMap)
    ensures EditDom(dom, nodeMap, cmd, ids).error.Some? ==>
              EditDom(dom, nodeMap, cmd, ids + more) == EditDom(dom, nodeMap, cmd, ids)
    ensures EditDom(dom, nodeMap, cmd, ids).error.None? ==>
              EditDom(dom, nodeMap, cmd, ids + more)
              == EditDom(EditDom(dom, nodeMap, cmd, ids).dom, nodeMap, cmd, more)
    decreases |ids|
  {
    if ids == [] {
      assert ids + more == more;
    } else {
      assert (ids + more)[0] == ids[0] && (ids + more)[1..] == ids[1..] + more;
      match EditOne(dom, nodeMap, cmd, ids[0])
      case Err(_) =>
      case Ok(dom') => EditDomAppend(dom', nodeMap, cmd, ids[1..], more);
    }
  }

  /** Sort and add never fail on a document; an identifier the document
      does not know, or whose path the command filters out, leaves it as
      it was. */
  lemma {:induction false} EditDomSkips(dom: Element, nodeMap: map<string, string>, cmd: Command, ids: seq<string>)
    requires PathsOk(nodeMap)
    ensures !cmd.Delete? ==> EditDom(dom, nodeMap, cmd, ids).error.None?
    ensures (forall nid <- ids :: nid !in nodeMap || !Contains(nodeMap[nid], Filter(cmd)))
            ==> EditDom(dom, nodeMap, cmd, ids) == Edited(dom, None)
    decreases |ids|
  {
    if ids != [] {
      assert forall nid <- ids[1..] :: nid in ids;
      match EditOne(dom, nodeMap, cmd, ids[0])
      case Err(_) =>
      case Ok(dom') => EditDomSkips(dom', nodeMap, cmd, ids[1..]);
    }
  }

  /** The inner loop of the three commands: every identifier in turn, the
      ones this document records and whose path passes the filter edited in
      place; a failing removal ends the loop (and the command). */
  method EditDocument(dom: Element, nodeMap: map<string, string>, cmd: Command, ids: seq<string>)
    returns (r: Element, error: Option<string>)
    requires PathsOk(nodeMap)
    ensures Edited(r, error) == EditDom(dom, nodeMap, cmd, ids)
  {
    r := dom;
    var i := 0;
    while i < |ids|
      invariant i <= |ids|
      invariant EditDom(r, nodeMap, cmd, ids[i..]) == EditDom(dom, nodeMap, cmd, ids)
    {
      assert ids[i..][0] == ids[i] && ids[i..][1..] == ids[i + 1..];
      var nid := ids[i];
      if nid in nodeMap {
        var xpath := nodeMap[nid];
        if Contains(xpath, Filter(cmd)) {
          match cmd
          case Sort(ascending) =>
            r := SortGroup(r, xpath, ascending);
          case Add(fileName) =>
            r := AddFile(r, xpath, fileName);
          case Delete =>
            var removed := RemoveFile(r, xpath);
            if removed.Err? {
              return r, Some(removed.message);
            }
            r := removed.value;
        }
      }
      i := i + 1;
    }
    return r, None;
  }

  /** One document's turn in a command: its tree edited, then its text
      reset to the serialised tree; an edit failure or a serialisation
      failure stops the command with the tree edited and the text as it
      was. */
  function RunDoc(doc: CachedDoc, serialize: Element -> Result<string>, cmd: Command, ids: seq<string>): (r: (CachedDoc, Option<string>))
    requires PathsOk(doc.nodeMap)
    ensures r.0.path == doc.path && r.0.nodeMap == doc.nodeMap
    ensures r.0.dom == EditDom(doc.dom, doc.nodeMap, cmd, ids).dom
    ensures r.1.None? <==> EditDom(doc.dom, doc.nodeMap, cmd, ids).error.None? && serialize(r.0.dom).Ok?
    ensures r.1.None? ==> serialize(r.0.dom) == Ok(r.0.text)
    ensures r.1.Some? ==> r.0.text == doc.text
  {
    var edited := EditDom(doc.dom, doc.nodeMap, cmd, ids);
    if edited.error.Some? then (doc.(dom := edited.dom), edited.error)
    else
      match serialize(edited.dom)
      case Err(msg) => (doc.(dom := edited.dom), Some(msg))
      case Ok(text) => (doc.(dom := edited.dom, text := text), None)
  }

  /** One document's turn: edit the tree, then `entry.text =
      serialize_element(&entry.dom)?`. */
  method RunDocument(doc: CachedDoc, serialize: Element -> Result<string>, cmd: Command, ids: seq<string>)
      returns (doc': CachedDoc, error: Option<string>)
    requires PathsOk(doc.nodeMap)
    ensures doc' == RunDoc(doc, serialize, cmd, ids).0 && error == RunDoc(doc, serialize, cmd, ids).1
  {
    var dom;
    dom, error := EditDocument(doc.dom, doc.nodeMap, cmd, ids);
    doc' := doc.(dom := dom);
    if error.None? {
      var text := serialize(dom);
      if text.Err? {
        error := Some(text.message);
      } else {
        doc' := doc'.(text := text.value);
      }
    }
  }

  // ---------------------------------------------------------------------
  // The whole cache.
  // ---------------------------------------------------------------------

  /** The cache after a command, and the error it returned, if any. */
  datatype Run = Run(docs: map<string, CachedDoc>, error: Option<string>)

  predicate MapsOk(docs: map<string, CachedDoc>)
  {
    forall p <- docs :: PathsOk(docs[p].nodeMap)
  }

  /** The documents visited in `order` (the map's iteration order), each
      taking its turn; the first error ends the command. */
  function RunDocs(docs: map<string, CachedDoc>, serialize: Element -> Result<string>, cmd: Command,
                   ids: seq<string>, order: seq<string>): (r: Run)
    requires MapsOk(docs)
    decreases |order|
  {
    if order == [] then Run(docs, None)
    else if order[0] !in docs then RunDocs(docs, serialize, cmd, ids, order[1..])
    else
      var (doc, error) := RunDoc(docs[order[0]], serialize, cmd, ids);
      if error.Some? then Run(docs[order[0] := doc], error)
      else RunDocs(docs[order[0] := doc], serialize, cmd, ids, order[1..])
  }

  /** A command keeps the same documents, each with its source path and
      its node map; a document not in `order` is not touched at all. */
  lemma {:induction false} RunKeeps(docs: map<string, CachedDoc>, serialize: Element -> Result<string>, cmd: Command,
                                    ids: seq<string>, order: seq<string>)
    requires MapsOk(docs)
    ensures RunDocs(docs, serialize, cmd, ids, order).docs.Keys == docs.Keys
    ensures forall p <- docs :: RunDocs(docs, serialize, cmd, ids, order).docs[p].path == docs[p].path
    ensures forall p <- docs :: RunDocs(docs, serialize, cmd, ids, order).docs[p].nodeMap == docs[p].nodeMap
    ensures forall p <- docs :: p !in order ==> RunDocs(docs, serialize, cmd, ids, order).docs[p] == docs[p]
    decreases |order|
  {
    if order != [] {
      assert forall p <- order[1..] :: p in order;
      if order[0] !in docs {
        RunKeeps(docs, serialize, cmd, ids, order[1..]);
      } else {
        var (doc, error) := RunDoc(docs[order[0]], serialize, cmd, ids);
        if error.None? {
          RunKeeps(docs[order[0] := doc], serialize, cmd, ids, order[1..]);
        }
      }
    }
  }

  /** No element of `order` is repeated. */
  predicate Distinct(order: seq<string>)
  {
    forall i, j | 0 <= i < j < |order| :: order[i] != order[j]
  }

  /** When a command returns without error, every document it visited has
      its text reset to the serialisation of its tree, whether or not any
      identifier matched in it. */
  lemma {:induction false} RunTexts(docs: map<string, CachedDoc>, serialize: Element -> Result<string>, cmd: Command,
                                    ids: seq<string>, order: seq<string>)
    requires MapsOk(docs) && Distinct(order)
    ensures RunDocs(docs, serialize, cmd, ids, order).docs.Keys == docs.Keys
    ensures RunDocs(docs, serialize, cmd, ids, order).error.None? ==>
              forall p <- docs :: p in order ==>
                serialize(RunDocs(docs, serialize, cmd, ids, order).docs[p].dom)
                == Ok(RunDocs(docs, serialize, cmd, ids, order).docs[p].text)
    decreases |order|
  {
    RunKeeps(docs, serialize, cmd, ids, order);
    if order != [] {
      var rest := order[1..];
      assert Distinct(rest) by {
        forall i, j | 0 <= i < j < |rest| ensures rest[i] != rest[j] {
          assert rest[i] == order[i + 1] && rest[j] == order[j + 1];
        }
      }
      assert forall p <- rest :: p != order[0] by {
        forall k | 0 <= k < |rest| ensures rest[k] != order[0] {
          assert rest[k] == order[k + 1];
        }
      }
      assert forall p <- order :: p == order[0] || p in rest;
      if order[0] !in docs {
        RunTexts(docs, serialize, cmd, ids, rest);
      } else {
        var (doc, error) := RunDoc(docs[order[0]], serialize, cmd, ids);
        if error.None? {
          var docs' := docs[order[0] := doc];
          RunTexts(docs', serialize, cmd, ids, rest);
          RunKeeps(docs', serialize, cmd, ids, rest);
        }
      }
    }
  }

  /** Visiting `order` and then `more` is visiting `order + more`, unless
      the visit of `order` already failed, in which case no document of
      `more` is visited: an error aborts the whole command. */
  lemma {:induction false} RunAppend(docs: map<string, CachedDoc>, serialize: Element -> Result<string>, cmd: Command,
                                     ids: seq<string>, order: seq<string>, more: seq<string>)
    requires MapsOk(docs)
    ensures MapsOk(RunDocs(docs, serialize, cmd, ids, order).docs)
    ensures RunDocs(docs, serialize, cmd, ids, order).error.Some? ==>
              RunDocs(docs, serialize, cmd, ids, order + more) == RunDocs(docs, serialize, cmd, ids, order)
    ensures RunDocs(docs, serialize, cmd, ids, order).error.None? ==>
              RunDocs(docs, serialize, cmd, ids, order + more)
              == RunDocs(RunDocs(docs, serialize, cmd, ids, order).docs, serialize, cmd, ids, more)
    decreases |order|
  {
    RunKeeps(docs, serialize, cmd, ids, order);
    if order == [] {
      assert order + more == more;
    } else {
      assert (order + more)[0] == order[0] && (order + more)[1..] == order[1..] + more;
      if order[0] !in docs {
        RunAppend(docs, serialize, cmd, ids, order[1..], more);
      } else {
        var (doc, error) := RunDoc(docs[order[0]], serialize, cmd, ids);
        if error.None? {
          RunAppend(docs[order[0] := doc], serialize, cmd, ids, order[1..], more);
        }
      }
    }
  }

  /** Identifiers no document records leave every tree as it was (sort and
      add then return without error exactly when every visited tree
      serialises). */
  lemma {:induction false} RunUnknownIds(docs: map<string, CachedDoc>, serialize: Element -> Result<string>, cmd: Command,
                                         ids: seq<string>, order: seq<string>)
    requires MapsOk(docs)
    requires forall p <- docs :: forall nid <- ids :: nid !in docs[p].nodeMap
    ensures RunDocs(docs, serialize, cmd, ids, order).docs.Keys == docs.Keys
    ensures forall p <- docs :: RunDocs(docs, serialize, cmd, ids, order).docs[p].dom == docs[p].dom
    decreases |order|
  {
    RunKeeps(docs, serialize, cmd, ids, order);
    if order != [] && order[0] in docs {
      var p := order[0];
      EditDomSkips(docs[p].dom, docs[p].nodeMap, cmd, ids);
      var (doc, error) := RunDoc(docs[p], serialize, cmd, ids);
      if error.None? {
        RunUnknownIds(docs[p := doc], serialize, cmd, ids, order[1..]);
      }
    } else if order != [] {
      RunUnknownIds(docs, serialize, cmd, ids, order[1..]);
    }
  }

  // ---------------------------------------------------------------------
  // As written, on node maps get_tree filled.
  // ---------------------------------------------------------------------

  /** Every path in the node map is one get_tree records. */
  ghost predicate Recorded(nodeMap: map<string, string>)
  {
    forall nid <- nodeMap :: exists p: Pos :: nodeMap[nid] == PosPath(p)
  }

  lemma {:induction false} NodeMapOfRecorded(start: nat, entries: seq<Pos>)
    ensures Recorded(NodeMapOf(start, entries))
    decreases |entries|
  {
    if entries != [] {
      NodeMapOfRecorded(start, entries[..|entries| - 1]);
    }
  }

  /** On a `project` element without a `project` child, an identifier from
      get_tree never changes the tree: sort and add leave it as it was, and
      delete fails with "not found parent" on every file node. */
  lemma AsWrittenEditOne(dom: Element, nodeMap: map<string, string>, cmd: Command, nid: string)
    requires PathsOk(nodeMap) && Recorded(nodeMap) && CountNamed(dom.children, "project") == 0
    ensures !cmd.Delete? ==> EditOne(dom, nodeMap, cmd, nid) == Ok(dom)
    ensures cmd.Delete? ==>
              EditOne(dom, nodeMap, cmd, nid)
              == if nid in nodeMap && Contains(nodeMap[nid], "/files/file[") then Err("not found parent") else Ok(dom)
  {
    if nid in nodeMap && Contains(nodeMap[nid], Filter(cmd)) {
      var p: Pos :| nodeMap[nid] == PosPath(p);
      match cmd
      case Sort(ascending) => AsWrittenSortAddNoop(dom, p, ascending, "");
      case Add(fileName) => AsWrittenSortAddNoop(dom, p, true, fileName);
      case Delete =>
        match p
        case ProjectPos => RecordedPathFilters(0, 0, 0);
        case TargetPos(t) => RecordedPathFilters(t, 0, 0);
        case GroupPos(t, g) => RecordedPathFilters(t, g, 0);
        case FilePos(t, g, f) => AsWrittenDeleteFails(dom, t, g, f);
    }
  }

  /** So, as written, sort_groups and add_file_to_groups change no tree of
      a document whose node map get_tree filled. */
  lemma {:induction false} AsWrittenEditsKeepTree(dom: Element, nodeMap: map<string, string>, cmd: Command, ids: seq<string>)
    requires PathsOk(nodeMap) && Recorded(nodeMap) && CountNamed(dom.children, "project") == 0
    requires !cmd.Delete?
    ensures EditDom(dom, nodeMap, cmd, ids) == Edited(dom, None)
    decreases |ids|
  {
    if ids != [] {
      AsWrittenEditOne(dom, nodeMap, cmd, ids[0]);
      AsWrittenEditsKeepTree(dom, nodeMap, cmd, ids[1..]);
    }
  }

  /** And delete_file_nodes, given any file node's identifier, fails with
      "not found parent" without having changed the tree. */
  lemma {:induction false} AsWrittenDeleteStops(dom: Element, nodeMap: map<string, string>, ids: seq<string>)
    requires PathsOk(nodeMap) && Recorded(nodeMap) && CountNamed(dom.children, "project") == 0
    ensures EditDom(dom, nodeMap, Delete, ids).dom == dom
    ensures EditDom(dom, nodeMap, Delete, ids).error.None?
            <==> forall nid <- ids :: nid !in nodeMap || !Contains(nodeMap[nid], "/files/file[")
    ensures EditDom(dom, nodeMap, Delete, ids).error.Some? ==>
              EditDom(dom, nodeMap, Delete, ids).error == Some("not found parent")
    decreases |ids|
  {
    if ids != [] {
      assert forall nid <- ids :: nid == ids[0] || nid in ids[1..];
      assert forall nid <- ids[1..] :: nid in ids;
      AsWrittenEditOne(dom, nodeMap, Delete, ids[0]);
      AsWrittenDeleteStops(dom, nodeMap, ids[1..]);
    }
  }

  // ---------------------------------------------------------------------
  // The cache object.
  // ---------------------------------------------------------------------

  /** The global cache: the documents by the path they were loaded from,
      the number of node identifiers minted so far, and the serialiser
      (xmltree's writer and the UTF-8 check, outside this model). */
  class Cache {
    var docs: map<string, CachedDoc>
    var minted: nat
    const serialize: Element -> Result<string>

    /** Every document is filed under its own path; every node map holds
        sliceable paths under identifiers already minted; no identifier is
        in two documents' node maps. */
    ghost predicate Valid()
      reads this
    {
      CacheOk(docs, minted)
    }

    constructor (serialize: Element -> Result<string>)
      ensures Valid() && docs == map[] && minted == 0 && this.serialize == serialize
    {
      docs := map[];
      minted := 0;
      this.serialize := serialize;
    }

    /** load_files' `cache.insert` for a file just read and parsed: an
        empty node map. */
    method Insert(path: string, dom: Element, text: string)
      requires Valid()
      modifies this
      ensures Valid() && minted == old(minted)
      ensures docs == old(docs)[path := CachedDoc(path, dom, text, map[])]
    {
      docs := docs[path := CachedDoc(path, dom, text, map[])];
    }

    /** get_tree: "not loaded" for an unknown path; otherwise the node map
        is cleared and refilled with one freshly minted identifier per node
        of the tree returned. */
    method GetTree(path: string) returns (r: Result<seq<TreeNode>>)
      requires Valid()
      modifies this
      ensures Valid()
      ensures path !in old(docs) ==> r == Err("not loaded") && docs == old(docs) && minted == old(minted)
      ensures path in old(docs) ==>
                && r == Ok(DocumentTree(old(docs)[path].dom, old(minted)).nodes)
                && minted == DocumentTree(old(docs)[path].dom, old(minted)).next
                && docs == old(docs)[path := old(docs)[path].(nodeMap := NodeMapOf(old(minted), DocumentTree(old(docs)[path].dom, old(minted)).entries))]
    {
      if path !in docs {
        return Err("not loaded");
      }
      var entry := docs[path];
      var b := BuildDocumentTree(entry.dom, minted);
      var nodeMap := FillNodeMap(minted, b.entries);
      RefillKeepsOk(docs, minted, path, b.entries, b.next);
      docs := docs[path := entry.(nodeMap := nodeMap)];
      minted := b.next;
      r := Ok(b.nodes);
    }

    /** The body shared by the three commands: every document in the map's
        iteration order (`order`), each taking its turn as RunDoc says. */
    method Apply(cmd: Command, ids: seq<string>, order: seq<string>) returns (r: Result<()>)
      requires Valid() && Distinct(order) && (forall p <- order :: p in docs) && (forall p <- docs :: p in order)
      modifies this
      ensures Valid() && minted == old(minted)
      ensures docs == RunDocs(old(docs), serialize, cmd, ids, order).docs
      ensures r == (match RunDocs(old(docs), serialize, cmd, ids, order).error
                    case None => Ok(())
                    case Some(msg) => Err(msg))
    {
      var i := 0;
      while i < |order|
        invariant i <= |order| && minted == old(minted) && CacheOk(docs, minted) && docs.Keys == old(docs).Keys
        invariant RunDocs(docs, serialize, cmd, ids, order[i..]) == RunDocs(old(docs), serialize, cmd, ids, order)
      {
        var p := order[i];
        var doc', error := RunDocument(docs[p], serialize, cmd, ids);
        RunTurn(docs, serialize, cmd, ids, order[i..], doc', error);
        assert order[i..][1..] == order[i + 1..];
        TurnKeepsOk(docs, minted, p, doc');
        docs := docs[p := doc'];
        if error.Some? {
          return Err(error.value);
        }
        i := i + 1;
      }
      return Ok(());
    }

    /** sort_groups */
    method SortGroups(nodeIds: seq<string>, ascending: bool, order: seq<string>) returns (r: Result<()>)
      requires Valid() && Distinct(order) && (forall p <- order :: p in docs) && (forall p <- docs :: p in order)
      modifies this
      ensures Valid() && minted == old(minted)
      ensures docs == RunDocs(old(docs), serialize, Sort(ascending), nodeIds, order).docs
      ensures r == (match RunDocs(old(docs), serialize, Sort(ascending), nodeIds, order).error
                    case None => Ok(())
                    case Some(msg) => Err(msg))
    {
      r := Apply(Sort(ascending), nodeIds, order);
    }

    /** add_file_to_groups */
    method AddFileToGroups(nodeIds: seq<string>, fileName: string, order: seq<string>) returns (r: Result<()>)
      requires Valid() && Distinct(order) && (forall p <- order :: p in docs) && (forall p <- docs :: p in order)
      modifies this
      ensures Valid() && minted == old(minted)
      ensures docs == RunDocs(old(docs), serialize, Add(fileName), nodeIds, order).docs
      ensures r == (match RunDocs(old(docs), serialize, Add(fileName), nodeIds, order).error
                    case None => Ok(())
                    case Some(msg) => Err(msg))
    {
      r := Apply(Add(fileName), nodeIds, order);
    }

    /** delete_file_nodes */
    method DeleteFileNodes(nodeIds: seq<string>, order: seq<string>) returns (r: Result<()>)
      requires Valid() && Distinct(order) && (forall p <- order :: p in docs) && (forall p <- docs :: p in order)
      modifies this
      ensures Valid() && minted == old(minted)
      ensures docs == RunDocs(old(docs), serialize, Delete, nodeIds, order).docs
      ensures r == (match RunDocs(old(docs), serialize, Delete, nodeIds, order).error
                    case None => Ok(())
                    case Some(msg) => Err(msg))
    {
      r := Apply(Delete, nodeIds, order);
    }
  }

  /** get_tree's `node_map.insert` calls, one per minted identifier, in
      minting order, into the cleared map. */
  method FillNodeMap(start: nat, entries: seq<Pos>) returns (nodeMap: map<string, string>)
    ensures nodeMap == NodeMapOf(start, entries)
  {
    nodeMap := map[];
    for k := 0 to |entries|
      invariant nodeMap == NodeMapOf(start, entries[..k])
    {
      assert entries[..k + 1][..k] == entries[..k];
      nodeMap := nodeMap[NodeId(start + k) := PosPath(entries[k])];
    }
    assert entries[..|entries|] == entries;
  }

  /** What the cache object keeps true (its Valid()). */
  ghost predicate CacheOk(docs: map<string, CachedDoc>, minted: nat)
  {
    && MapsOk(docs)
    && (forall p <- docs :: docs[p].path == p && docs[p].nodeMap.Keys <= IdRange(0, minted))
    && (forall p <- docs, q <- docs :: p != q ==> docs[p].nodeMap.Keys !! docs[q].nodeMap.Keys)
  }

  /** get_tree's refill keeps the cache valid: the new identifiers were
      never handed out before, so no other document records them. */
  lemma RefillKeepsOk(docs: map<string, CachedDoc>, minted: nat, path: string, entries: seq<Pos>, next: nat)
    requires CacheOk(docs, minted) && path in docs && next == minted + |entries|
    ensures CacheOk(docs[path := docs[path].(nodeMap := NodeMapOf(minted, entries))], next)
  {
    var nodeMap := NodeMapOf(minted, entries);
    NodeMapOfKeys(minted, entries);
    IdRangeGrows(minted, next);
    IdRangesApart(minted, next);
    var docs' := docs[path := docs[path].(nodeMap := nodeMap)];
    forall p <- docs', q <- docs' | p != q
      ensures docs'[p].nodeMap.Keys !! docs'[q].nodeMap.Keys
    {
      if p == path {
        assert docs'[q].nodeMap.Keys <= IdRange(0, minted);
      } else if q == path {
        assert docs'[p].nodeMap.Keys <= IdRange(0, minted);
      }
    }
  }

  /** A document's turn changes only its tree and text. */
  lemma TurnKeepsOk(docs: map<string, CachedDoc>, minted: nat, p: string, doc: CachedDoc)
    requires CacheOk(docs, minted) && p in docs && doc.path == docs[p].path && doc.nodeMap == docs[p].nodeMap
    ensures CacheOk(docs[p := doc], minted)
  {
  }

  /** One turn of the command loop, as RunDocs takes it. */
  lemma RunTurn(docs: map<string, CachedDoc>, serialize: Element -> Result<string>, cmd: Command,
                ids: seq<string>, order: seq<string>, doc: CachedDoc, error: Option<string>)
    requires MapsOk(docs) && order != [] && order[0] in docs
    requires doc == RunDoc(docs[order[0]], serialize, cmd, ids).0 && error == RunDoc(docs[order[0]], serialize, cmd, ids).1
    ensures error.Some? ==> RunDocs(docs, serialize, cmd, ids, order) == Run(docs[order[0] := doc], error)
    ensures error.None? ==> RunDocs(docs, serialize, cmd, ids, order) == RunDocs(docs[order[0] := doc], serialize, cmd, ids, order[1..])
  {
  }

  lemma IdRangeGrows(m: nat, n: nat)
    requires m <= n
    ensures IdRange(0, m) <= IdRange(0, n) && IdRange(m, n) <= IdRange(0, n)
  {
  }

  /** Identifiers minted before `m` and from `m` on never coincide. */
  lemma IdRangesApart(m: nat, n: nat)
    ensures IdRange(0, m) !! IdRange(m, n)
  {
    forall id | id in IdRange(0, m) && id in IdRange(m, n)
      ensures false
    {
      var a: nat :| a < m && id == NodeId(a);
      var b: nat :| m <= b < n && id == NodeId(b);
      NodeIdInjective(a, b);
    }
  }
}
