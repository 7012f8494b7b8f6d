# Project-file tree editor: a Dafny model

This project models the core of a desktop tool that edits XML project files.
A project file has a `project` root. Under the root are `target` elements.
Each target has a `groups` element holding `group`s, and each group has a
`files` element holding `file` entries. Each entry is named by a `<name>`
child.

The tool keeps every loaded file in a global cache. For each file it keeps:

- the editable element tree (`dom`);
- the latest serialised text;
- a node map from node identifiers to positional paths such as
  `/project/target[1]/groups/group[2]/files/file[3]`.

`get_tree` builds the four-level tree the user interface shows and refills
the node map. `sort_groups`, `add_file_to_groups` and `delete_file_nodes`
take node identifiers from that tree. They resolve each identifier's path
segment by segment down the element tree, edit the element they reach in
place, and then reserialise every document. `common_parent` finds the
deepest directory shared by some paths, kept only when it lies inside the
repository root. A second, simpler cache in `xmltree_sample.rs` indexes a
target's `group`s by their `name` attribute. It sorts, removes and adds
`file` children of those cached groups.

## How the model is laid out

| module (file) | what it holds |
|---|---|
| `Wrappers` (wrappers.dfy) | `Option` and `Result` |
| `Decimal` (decimal.dfy) | `format!("{}", n)` and `parse::<usize>()` on indices |
| `XmlTree` (xml_tree.dfy) | the element tree; the child-search helpers; addresses (`ElementAt`/`ReplaceAt`) standing for the resolvers' raw-pointer cursor |
| `StableSort` (stable_sort.dfy) | the stable sort `sort_by`/`sort_by_key` perform, as an insertion sort, with its permutation, order and stability lemmas |
| `PathExpr` (path_expr.dfy) | the positional paths: `trim_matches`/`split`, segment parsing, the paths `get_tree` formats and the `contains` filters |
| `Resolver` (resolver.dfy) | `find_group_files_mut`, `remove_file_by_xpath` and the per-identifier edits of the three commands |
| `TreeView` (tree_view.dfy) | `get_tree`'s nested loops and the node map they fill |
| `RecordedPaths` (recorded_paths.dfy) | what happens when recorded paths are resolved, as written and with the leading `project` skipped |
| `DocumentCache` (document_cache.dfy) | the global cache as a class, `get_tree` and the three commands over every cached document |
| `CommonParent` (common_parent.dfy) | `common_parent` |
| `SampleCache` (project_cache.dfy) | `ProjectCache` of `xmltree_sample.rs` |

### Modelling choices

- **Tree values and addresses.** Elements are values. The Rust code walks
  a raw pointer down the tree and edits the element under it. Here the
  walk computes an address (child positions from the root), and the edit
  replaces the element at that address.
- **Loops become methods.** Each loop in the modelled functions is a
  `method` with that loop, proved equal to a specification function. This covers the
  cursor walk, the counting searches, `find_child_element`'s early-return
  loop, the `retain` of sort_groups, `get_child_text`'s `push_str`,
  `get_tree`'s three nested loops and its `node_map.insert`s, the push
  loops, the command loops over identifiers and over documents,
  `common_parent`'s labelled loop, and the `groups.insert` loop of
  `load_from_file`.
- **Node identifiers** come from a counter (`minted`). The n-th
  identifier is the decimal text of n. Identifiers from different
  `get_tree` calls never coincide, which the class invariant records.
- **HashMap order.** The order in which `cache.iter_mut()` visits
  documents is a parameter: any order that lists every cached path once.
- **Serialisation** (`serialize_element`) is a function-valued field of
  the cache that may fail. Its text is uninterpreted.
- **Commands follow the code as written.** The resolvers do not skip the
  leading `project` segment (see Findings). The command layer
  (`DocumentCache`) uses the resolvers exactly as written, because that
  is what the commands do. The corrected resolution is defined and proved
  beside it in `RecordedPaths`.
- **Filters.** The sort and add filter `/groups/group[` also matches
  file paths, so those two commands act on file identifiers as well as
  group identifiers. `PathExpr.RecordedPathFilters` states which recorded
  paths pass which filter.

## Model

| member | source | states |
|---|---|---|
| XmlTree.CountNamedConcat | src-tauri/src/lib.rs:389-400 | counting same-named element children is additive over concatenation |
| XmlTree.NthNamed | src-tauri/src/lib.rs:389-407 | the position of the idx-th (1-based) element child with a name: that child is so named and is preceded by idx-1 of them; none exactly when idx is 0 or fewer exist |
| XmlTree.NthNamedUnique | src-tauri/src/lib.rs:389-407 | a position with that defining property is the one the search returns |
| XmlTree.FindNthNamed | src-tauri/src/lib.rs:389-407 | the counting loop (`count += 1; if count == idx { break }`) returns NthNamed |
| XmlTree.ElementsNamed | src-tauri/src/lib.rs:337-352 | the filter_map keeps exactly the element children of that name, in order, and as many as CountNamed |
| XmlTree.GetChildrenByName | src-tauri/src/lib.rs:337-352 | get_children_by_name returns the same-named element children, all carrying the name |
| XmlTree.ElementsNamedAt | src-tauri/src/lib.rs:337-352 | the k-th element get_children_by_name lists is the child a resolver selects with index k+1 |
| XmlTree.FirstNamed | src-tauri/src/lib.rs:325-334 | the first same-named element child, which is the one at NthNamed(..., 1) |
| XmlTree.FindChildElement | src-tauri/src/lib.rs:325-334 | None exactly when no child element has the name; otherwise the first such child |
| XmlTree.ChildText | src-tauri/src/lib.rs:308-323 | None exactly when there is no such child or its concatenated text is empty; never Some("") |
| XmlTree.FindChild | src-tauri/src/lib.rs:325-334 | the loop that returns at the first element child with the name computes FindChildElement: None exactly when there is none |
| XmlTree.GetChildText | src-tauri/src/lib.rs:308-323 | the `push_str` loop over text children computes ChildText |
| XmlTree.ReplaceAtRead | src-tauri/src/lib.rs:421-425 | an edit through the cursor is read back at the same address |
| XmlTree.ReplaceAtFrame | src-tauri/src/lib.rs:421-425 | an edit through the cursor leaves every element off its path unchanged |
| XmlTree.ReplaceAtSame | src-tauri/src/lib.rs:421-425 | writing back the element already there changes nothing |
| StableSort.SortByPerm | src-tauri/src/lib.rs:212-220 | the sort's result is a permutation of its input |
| StableSort.SortBySorted | src-tauri/src/lib.rs:212-220 | the result is ordered by the comparator (ascending, or reversed) |
| StableSort.SortByStable | src-tauri/src/lib.rs:212-220 | for every key, elements carrying it keep their original relative order |
| StableSort.SortByOfSorted | src-tauri/src/lib.rs:212-220 | an already ordered sequence is left as it is |
| StableSort.SortByIdempotent | src-tauri/src/xmltree_sample.rs:73 | sorting twice gives the result of sorting once |
| StableSort.LexLeTotal | src-tauri/src/lib.rs:216 | `String::cmp` (lexicographic order) is total |
| StableSort.LexLeTrans | src-tauri/src/lib.rs:216 | `String::cmp` is transitive |
| StableSort.LexLeAntisym | src-tauri/src/lib.rs:216 | `String::cmp` is antisymmetric |
| Decimal.Digits | src-tauri/src/lib.rs:127 | `format!("{}", n)` is a non-empty string of decimal digits |
| Decimal.DigitsValueOfDigits | src-tauri/src/lib.rs:127 | the formatted digits denote n |
| Decimal.ParseUsize | src-tauri/src/lib.rs:383 | `parse::<usize>()` gives only values within usize |
| Decimal.ParseUsizeDigits | src-tauri/src/lib.rs:383 | parsing a formatted index gives it back (up to usize::MAX) |
| Decimal.ParseUsizeRejectsEmpty | src-tauri/src/lib.rs:524-531 | an empty index, as in `file[]`, and a lone `+` do not parse |
| Decimal.ParseUsizeRejectsNonDigit | src-tauri/src/lib.rs:524-531 | text with a non-digit after the first character does not parse |
| PathExpr.IndexOf | src-tauri/src/lib.rs:380 | `seg.find('[')`: the first position of the character, None exactly when it is absent |
| PathExpr.Split | src-tauri/src/lib.rs:371 | `split('/')` gives at least one piece and no piece holds '/' |
| PathExpr.Segments | src-tauri/src/lib.rs:371 | `trim_matches('/').split('/')` gives at least one segment |
| PathExpr.ParseStep | src-tauri/src/lib.rs:380-387 | a segment without '[' reads as (segment, 1); otherwise the name is the text before the first '[' and an unparsable index reads as 1; defined only on segments the byte slice can cut (`SegmentOk`: the '[' is not last and the last character is ASCII) |
| PathExpr.ParseLastIndex | src-tauri/src/lib.rs:524-531 | the last segment's index as delete reads it: 1 without '[', "bad index" when the bracketed text does not parse; defined on the same `SegmentOk` segments |
| PathExpr.ContainsMiddle | src-tauri/src/lib.rs:204 | `str::contains` finds a pattern placed inside a string |
| PathExpr.ContainsNeedsChar | src-tauri/src/lib.rs:204 | a pattern with a character the text lacks is not contained |
| PathExpr.RemoveSpacesConcat | src-tauri/src/lib.rs:140 | `.replace(" ", "")` distributes over concatenation |
| PathExpr.RemoveSpacesSeparator | src-tauri/src/lib.rs:140 | the replace in get_tree only drops the separating space of `"{} /groups/group[{}]"` |
| PathExpr.GroupPathAppends | src-tauri/src/lib.rs:140 | a group path is the target path followed by `/groups/group[g+1]` |
| PathExpr.SplitJoin | src-tauri/src/lib.rs:371 | splitting a joined body gives its segments back |
| PathExpr.SegmentsOfJoin | src-tauri/src/lib.rs:371 | cutting a path built from plain segments gives those segments back |
| PathExpr.ParseIndexedSegment | src-tauri/src/lib.rs:380-387 | `name[n]` reads back as (name, n) in both resolvers |
| PathExpr.ParsePlainSegment | src-tauri/src/lib.rs:386 | a bracket-free segment reads as (segment, 1) |
| PathExpr.TargetPathSegments | src-tauri/src/lib.rs:127 | `/project/target[t+1]` cuts into `project`, `target[t+1]` |
| PathExpr.GroupPathSegments | src-tauri/src/lib.rs:140 | a group path cuts into `project`, `target[t+1]`, `groups`, `group[g+1]` |
| PathExpr.FilePathSegments | src-tauri/src/lib.rs:153 | a file path cuts into those four segments, then `files`, `file[f+1]` |
| PathExpr.RootPathSegments | src-tauri/src/lib.rs:121 | `/project` cuts into the single segment `project` |
| PathExpr.RootPathOk | src-tauri/src/lib.rs:121 | the root path never makes the resolvers' slice panic |
| PathExpr.TargetPathOk | src-tauri/src/lib.rs:127 | no target path makes the resolvers' slice panic |
| PathExpr.GroupPathOk | src-tauri/src/lib.rs:140 | no group path makes the resolvers' slice panic |
| PathExpr.FilePathOk | src-tauri/src/lib.rs:153 | no file path makes the resolvers' slice panic |
| PathExpr.GroupPathFilter | src-tauri/src/lib.rs:204 | every group path passes the `/groups/group[` filter |
| PathExpr.FilePathGroupFilter | src-tauri/src/lib.rs:246 | file paths pass the `/groups/group[` filter too |
| PathExpr.FilePathFileFilter | src-tauri/src/lib.rs:276 | every file path passes the `/files/file[` filter |
| PathExpr.RecordedPathFilters | src-tauri/src/lib.rs:204-276 | root and target paths pass neither filter; group paths pass only the group filter; file paths pass both |
| Resolver.Walk | src-tauri/src/lib.rs:377-407 | the cursor walk consuming every segment: when it ends, its address has one step per segment and names an element |
| Resolver.WalkCons | src-tauri/src/lib.rs:389-406 | one step: the cursor moves to the idx-th child of the segment's name, then the walk goes on from there |
| Resolver.WalkEndsNamed | src-tauri/src/lib.rs:389-406 | the element reached carries the last segment's name |
| Resolver.CursorStep | src-tauri/src/lib.rs:389-406 | a failed search ends the walk with None; a found child becomes the cursor |
| Resolver.ResolveCursor | src-tauri/src/lib.rs:377-407 | the cursor loop both resolvers share computes Walk and leaves the cursor on the element at its address |
| Resolver.GroupFiles | src-tauri/src/lib.rs:365-462 | find_group_files_mut: None exactly when the walk fails, and then the tree is unchanged |
| Resolver.FilesAppendedFound | src-tauri/src/lib.rs:440-456 | a group without `files` gets one appended at its end, and the second search finds it there |
| Resolver.GroupFilesFound | src-tauri/src/lib.rs:408-458 | the returned container is a `files` child of the group, first in the group; its returned files are clones of its `file` children in order; empty when it was created |
| Resolver.WalkReplaceSameName | src-tauri/src/lib.rs:377-407 | replacing the reached element by one of the same name leaves the walk unchanged |
| Resolver.GroupFilesTwice | src-tauri/src/lib.rs:249-252 | a second call finds the container the first left and creates no other |
| Resolver.FindGroupFilesMut | src-tauri/src/lib.rs:365-462 | the method with the walk and the `find_map` searches computes GroupFiles |
| Resolver.NonFiles | src-tauri/src/lib.rs:222-224 | `retain(!is_element_named(c, "file"))` keeps no file and drops exactly the file children |
| Resolver.NonFilesConcat | src-tauri/src/lib.rs:222-224 | the retain distributes over concatenation |
| Resolver.RetainNonFiles | src-tauri/src/lib.rs:222-224 | the retain, as one pass over the children, computes NonFiles: every non-file child in order, and no `file` element |
| Resolver.ElementsNamedConcat | src-tauri/src/lib.rs:337-352 | the filter_map distributes over concatenation |
| Resolver.PushAll | src-tauri/src/lib.rs:225-229 | the push loop appends the elements in order |
| Resolver.SortedChildrenSpec | src-tauri/src/lib.rs:212-229 | after sort the container holds its non-file children first, in order, then its files as a permutation ordered by name text and stable; the child count is unchanged |
| Resolver.SortStepEffect | src-tauri/src/lib.rs:207-230 | one sort step: no change when the path does not resolve; otherwise the container is rebuilt as above and nothing off its path changes |
| Resolver.SortGroup | src-tauri/src/lib.rs:207-230 | the method for one identifier computes SortStep |
| Resolver.NewFileName | src-tauri/src/lib.rs:253-258 | the appended `<file><name>file_name</name></file>` reads back as file_name, both as a sort key and as a tree label (`<no-name>` when empty) |
| Resolver.AddStepEffect | src-tauri/src/lib.rs:249-261 | one add step: no change when the path does not resolve; otherwise exactly one new file is appended as the container's last child, earlier children kept, nothing off its path changed |
| Resolver.AddFile | src-tauri/src/lib.rs:249-261 | the method for one identifier computes AddStep |
| Resolver.RemoveAt | src-tauri/src/lib.rs:550 | `children.remove(pos)` shortens by one |
| Resolver.ParentSegments | src-tauri/src/lib.rs:486-487 | the pop of the last segment leaves segments the walk can read |
| Resolver.RemoveFileByXPath | src-tauri/src/lib.rs:467-556 | remove_file_by_xpath fails only with "not found parent", "bad index" or "file not found" |
| Resolver.ElementsNamedRemove | src-tauri/src/lib.rs:533-551 | removing the n-th file child removes exactly the (n-1)-th listed file |
| Resolver.NonFilesRemove | src-tauri/src/lib.rs:549-551 | removing a file child keeps every non-file child |
| Resolver.RemoveNthFileEffect | src-tauri/src/lib.rs:533-555 | "file not found" when fewer than n files exist; otherwise exactly the n-th file goes, the rest keep their order, and nothing off the path changes |
| Resolver.RemoveFileErrors | src-tauri/src/lib.rs:491-555 | "not found parent" exactly when the parent walk fails; then "bad index" exactly when the index does not parse; then "file not found" |
| Resolver.RemoveFile | src-tauri/src/lib.rs:467-556 | the method with the cursor walk and the counting loop computes RemoveFileByXPath |
| TreeView.PosPathOk | src-tauri/src/lib.rs:121-157 | every path get_tree records can be sliced by the resolvers |
| TreeView.NodeIdInjective | src-tauri/src/lib.rs:118 | distinct counters give distinct identifiers (what fresh UUIDs provide) |
| TreeView.NodeMapOfKeys | src-tauri/src/lib.rs:108-157 | after the clear and the inserts, the node map's keys are exactly the identifiers minted, and its paths are sliceable |
| TreeView.NodeMapOfAt | src-tauri/src/lib.rs:118-157 | the k-th minted identifier maps to the path of the k-th recorded position |
| TreeView.ListGroupsAt | src-tauri/src/lib.rs:137-144 | the i-th group listing is that of the i-th group child |
| TreeView.ListFilesAt | src-tauri/src/lib.rs:150-157 | the i-th file listing is that of the i-th file child |
| TreeView.ListTargetsAt | src-tauri/src/lib.rs:126-131 | the i-th target listing is that of the i-th target child |
| TreeView.FileLevel | src-tauri/src/lib.rs:150-165 | one node, one identifier and one recorded position per file |
| TreeView.GroupLevel | src-tauri/src/lib.rs:137-175 | one node per group; identifiers run on consecutively |
| TreeView.TargetLevel | src-tauri/src/lib.rs:124-183 | one node per target; identifiers run on consecutively |
| TreeView.DocumentTree | src-tauri/src/lib.rs:103-191 | get_tree returns a single `project` node with the first identifier, recorded at `/project` |
| TreeView.DocumentTreeNodeMap | src-tauri/src/lib.rs:108-157 | the node map's keys are exactly the identifiers minted for the tree, every recorded path can be sliced by the resolvers, and the project node's identifier maps to `/project` |
| TreeView.DocumentTreeNodeMapAt | src-tauri/src/lib.rs:108-157 | the k-th identifier minted for a document is in the node map and maps to the path of the k-th recorded node |
| TreeView.FileLevelAt | src-tauri/src/lib.rs:150-165 | the i-th file node carries the i-th file's label, the i-th identifier and the position FilePos(t, g, i) |
| TreeView.GroupLevelAt | src-tauri/src/lib.rs:137-175 | the i-th group node carries its label and identifier, is recorded at GroupPos(t, i) and is followed by its files' entries |
| TreeView.TargetLevelAt | src-tauri/src/lib.rs:124-183 | the i-th target node carries its label and identifier, is recorded at TargetPos(i) and is followed by its groups' entries |
| TreeView.BuildFileNodes | src-tauri/src/lib.rs:150-165 | the innermost loop computes FileLevel |
| TreeView.BuildGroupNodes | src-tauri/src/lib.rs:137-175 | the group loop computes GroupLevel |
| TreeView.BuildTargetNodes | src-tauri/src/lib.rs:124-183 | the target loop computes TargetLevel |
| TreeView.BuildDocumentTree | src-tauri/src/lib.rs:103-191 | the body of get_tree computes DocumentTree |
| RecordedPaths.MissesFromProject | src-tauri/src/lib.rs:377-407 | a walk whose first segment is `project` fails from an element with no `project` child |
| RecordedPaths.PosPathStartsAtProject | src-tauri/src/lib.rs:121-157 | every recorded path's first segment is `project` |
| RecordedPaths.AsWrittenMisses | src-tauri/src/lib.rs:371-377 | as written, no recorded path resolves from a `project` root without a `project` child |
| RecordedPaths.AsWrittenSortAddNoop | src-tauri/src/lib.rs:207-261 | so one sort or add step leaves such a tree unchanged |
| RecordedPaths.AsWrittenDeleteFails | src-tauri/src/lib.rs:489-520 | and deleting any recorded file path fails with "not found parent" |
| RecordedPaths.ResolvedNamed | src-tauri/src/lib.rs:389-406 | a segment read as (name, n+1) moves the walk to the n-th listed child of that name |
| RecordedPaths.FirstListed | src-tauri/src/lib.rs:325-334 | the first listed child of a name is find_child_element's result |
| RecordedPaths.ResolveTargetPath | src-tauri/src/lib.rs:126-127 | `target[t+1]` resolves to the t-th listed target |
| RecordedPaths.ResolveGroupPath | src-tauri/src/lib.rs:138-140 | `target[t+1]/groups/group[g+1]` resolves to the group get_tree listed there |
| RecordedPaths.ResolveFilePath | src-tauri/src/lib.rs:151-153 | the file segments resolve to the file get_tree listed there |
| RecordedPaths.ResolveContainerPath | src-tauri/src/lib.rs:151 | the `files` segment resolves to the container get_tree listed the files of |
| RecordedPaths.CorrectedResolves | src-tauri/src/lib.rs:121-157 | with the first segment skipped, every recorded path resolves to the element its tree node was built from |
| RecordedPaths.CorrectedRemoveFile | src-tauri/src/lib.rs:489-555 | remove_file_by_xpath with the first segment skipped fails only with its three messages |
| RecordedPaths.ResolveFilesContainer | src-tauri/src/lib.rs:486-531 | with the skip, a recorded file path's parent segments reach the group's `files` container, and its last segment is `file[f+1]` |
| RecordedPaths.CorrectedDeleteRemoves | src-tauri/src/lib.rs:489-555 | with the skip, deleting a recorded file succeeds and removes exactly that file from the container |
| DocumentCache.Filter | src-tauri/src/lib.rs:204-276 | delete acts on paths containing `/files/file[`, sort and add on paths containing `/groups/group[` |
| DocumentCache.EditOne | src-tauri/src/lib.rs:201-281 | an unknown identifier or a filtered-out path leaves the tree; sort and add never fail; delete fails only with the resolver's messages |
| DocumentCache.EditDomAppend | src-tauri/src/lib.rs:271-287 | trying ids then more is trying ids + more, except that an error stops everything (the `?`) |
| DocumentCache.EditDomSkips | src-tauri/src/lib.rs:201-205 | sort and add never fail on a document; identifiers it does not record or that are filtered out leave it unchanged |
| DocumentCache.EditDocument | src-tauri/src/lib.rs:201-231 | the loop over identifiers computes EditDom |
| DocumentCache.RunDoc | src-tauri/src/lib.rs:234 | a document's turn keeps its path and node map; its text is the serialisation of its new tree unless the edit or the serialisation failed, in which case the text is as it was and the command stops |
| DocumentCache.RunDocument | src-tauri/src/lib.rs:234 | the method for one document's turn computes RunDoc |
| DocumentCache.RunKeeps | src-tauri/src/lib.rs:200-236 | a command keeps the same documents, each with its path and node map; documents it does not reach are untouched |
| DocumentCache.RunTexts | src-tauri/src/lib.rs:234 | when a command succeeds, every document's text is the serialisation of its tree |
| DocumentCache.RunAppend | src-tauri/src/lib.rs:200-236 | visiting documents one after another, and the first error aborts the rest |
| DocumentCache.RunUnknownIds | src-tauri/src/lib.rs:200-236 | identifiers no document records leave every tree as it was |
| DocumentCache.NodeMapOfRecorded | src-tauri/src/lib.rs:121-157 | every path in a node map get_tree filled is one it formats for some position |
| DocumentCache.AsWrittenEditOne | src-tauri/src/lib.rs:204-280 | as written, on a `project` root without a `project` child, sort and add leave the tree; delete fails with "not found parent" exactly on file paths |
| DocumentCache.AsWrittenEditsKeepTree | src-tauri/src/lib.rs:197-268 | as written, sort_groups and add_file_to_groups change no such tree |
| DocumentCache.AsWrittenDeleteStops | src-tauri/src/lib.rs:271-287 | as written, delete_file_nodes leaves the tree and fails with "not found parent" exactly when some identifier names a file |
| DocumentCache.Cache.constructor | src-tauri/src/lib.rs:29 | the cache starts empty |
| DocumentCache.Cache.Insert | src-tauri/src/lib.rs:56-63 | load_files files a parsed document under its path with an empty node map, replacing any earlier one |
| DocumentCache.Cache.GetTree | src-tauri/src/lib.rs:103-191 | "not loaded" for an unknown path; otherwise the tree returned is DocumentTree, and that document's node map is cleared and refilled with exactly the new identifiers |
| DocumentCache.Cache.Apply | src-tauri/src/lib.rs:200-236 | the command loop over documents leaves the cache RunDocs describes and returns its error; the cache invariant is kept |
| DocumentCache.Cache.SortGroups | src-tauri/src/lib.rs:197-237 | sort_groups over the whole cache: the cache becomes RunDocs of the old one, and the result is Ok or carries RunDocs' first error message (the serialiser's), as the `?` passes it on |
| DocumentCache.Cache.AddFileToGroups | src-tauri/src/lib.rs:241-268 | add_file_to_groups over the whole cache: the cache becomes RunDocs of the old one, and the result is Ok or carries RunDocs' first error message (the serialiser's) |
| DocumentCache.Cache.DeleteFileNodes | src-tauri/src/lib.rs:271-287 | delete_file_nodes over the whole cache: the cache becomes RunDocs of the old one, and the result is Ok or carries RunDocs' first error message: "not found parent", "bad index", "file not found" or the serialiser's |
| DocumentCache.FillNodeMap | src-tauri/src/lib.rs:121-157 | the `node_map.insert` calls build NodeMapOf |
| DocumentCache.RefillKeepsOk | src-tauri/src/lib.rs:108-118 | refilling one node map with freshly minted identifiers keeps every node map disjoint from the others |
| DocumentCache.IdRangesApart | src-tauri/src/lib.rs:118 | identifiers minted before and after a point never coincide |
| CommonParent.Lcp2 | src-tauri/src/lib.rs:598-609 | the common prefix of two component lists is a prefix of both |
| CommonParent.Lcp2Longest | src-tauri/src/lib.rs:598-609 | every prefix both share is a prefix of it |
| CommonParent.LcpShared | src-tauri/src/lib.rs:598-609 | the longest common prefix of the paths is shared by all, and every shared prefix is a prefix of it |
| CommonParent.StopsAtLcp | src-tauri/src/lib.rs:598-609 | a shared prefix at which the column scan stops is the longest common prefix |
| CommonParent.CommonParentOf | src-tauri/src/lib.rs:587-620 | the result always starts with repo_root, and is either repo_root or the longest common prefix |
| CommonParent.CommonParentShared | src-tauri/src/lib.rs:587-620 | the result is repo_root or lies above every path; no deeper shared path inside repo_root exists |
| CommonParent.CommonParent | src-tauri/src/lib.rs:587-620 | the labelled loop and the rebuild compute CommonParentOf: repo_root for no paths, else the longest common prefix when it starts with repo_root, else repo_root |
| SampleCache.IndexGroupsSpec | src-tauri/src/xmltree_sample.rs:30-45 | a name is indexed exactly when some group carries it, and it maps to the last group that does |
| SampleCache.FillGroups | src-tauri/src/xmltree_sample.rs:30-45 | the insert loop computes IndexGroups |
| SampleCache.LoadFromFile | src-tauri/src/xmltree_sample.rs:16-53 | "target not found" exactly when the root has no `target` child; otherwise the cache holds the root, its first target and the named `group` children of that target |
| SampleCache.SortedGroupSpec | src-tauri/src/xmltree_sample.rs:56-87 | the group's non-file children come first, in order; then its files, as a permutation ordered ascending by `name` attribute and stable; the child count and the group's name and attributes are unchanged |
| SampleCache.SortedGroupIdempotent | src-tauri/src/xmltree_sample.rs:56-87 | sorting a group twice gives the same group as sorting it once |
| SampleCache.WithoutFileConcat | src-tauri/src/xmltree_sample.rs:92-102 | the retain distributes over concatenation |
| SampleCache.WithoutFileSpec | src-tauri/src/xmltree_sample.rs:92-102 | every kept node was an input node that does not match; every non-matching input node is kept; non-file children are kept in order |
| SampleCache.UnnamedFilesKept | src-tauri/src/xmltree_sample.rs:95-98 | files without a `name` attribute survive remove_file |
| SampleCache.WithoutFileIdempotent | src-tauri/src/xmltree_sample.rs:90-104 | removing a name twice removes nothing more |
| SampleCache.RetainOthers | src-tauri/src/xmltree_sample.rs:92-102 | the retain, as a loop, computes WithoutFile |
| SampleCache.FileElement | src-tauri/src/xmltree_sample.rs:109-112 | the new element is a childless `file` whose `name` attribute is file_name |
| SampleCache.AddedGroupSpec | src-tauri/src/xmltree_sample.rs:107-115 | exactly one file, named file_name, is appended after the existing children, which are untouched; no de-duplication |
| SampleCache.RemoveAfterAdd | src-tauri/src/xmltree_sample.rs:90-115 | removing a name just added leaves what removing it alone leaves |
| SampleCache.ProjectCache.constructor | src-tauri/src/xmltree_sample.rs:47-52 | the cache holds the given path, project, target and groups |
| SampleCache.ProjectCache.SortGroupFiles | src-tauri/src/xmltree_sample.rs:56-87 | an unknown group is a no-op; otherwise only that group changes, to SortedGroup; project, target and path are unchanged |
| SampleCache.ProjectCache.RemoveFile | src-tauri/src/xmltree_sample.rs:90-104 | an unknown group is a no-op; otherwise only that group's children change, to WithoutFile; project, target and path are unchanged |
| SampleCache.ProjectCache.AddFile | src-tauri/src/xmltree_sample.rs:107-115 | an unknown group is a no-op; otherwise only that group changes, to AddedGroup; project, target and path are unchanged |

## Left out

- File I/O: `fs::read_to_string` and `fs::write` in load_files, save_file,
  load_from_file and save. `Cache.Insert` and `LoadFromFile` take the
  already parsed tree.
- XML parsing and writing (`Element::parse`, `Element::write`,
  `String::from_utf8`) and `extract_project_name_from_text`. Serialisation
  is an uninterpreted, possibly failing function, so no parse/serialise
  round-trip is stated.
- `save_file`, `ProjectCache::save` and the sample's `main`: I/O only.
- The Tauri command plumbing, `async` and the global `Mutex`. The cache is
  a single object and commands run one at a time.
- `build_tree`, `build_external_node`, `get_include_tree_nodes` and
  `find_git_root`: directory listing, hard-coded paths and an external
  `git` process.
- `Uuid::new_v4`: randomness. Identifiers come from a counter, which gives
  the freshness the code relies on.
- HashMap iteration order: a caller-supplied order of the cached paths.
  The `order` parameter of the commands is that order.
- The unused prefix computation at the start of remove_file_by_xpath
  (lib.rs:469-475): it computes values that are never read.
- The `segs.len() < 1` check in remove_file_by_xpath ("invalid xpath"):
  `split` always yields at least one piece (`PathExpr.Segments`), so it
  cannot fire.
- Resolver.Walk: paths whose segment ends in its first '[', or ends in a
  character that takes more than one byte in UTF-8, would make the byte
  slice `seg[start + 1..seg.len() - 1]` panic. Strings are otherwise taken
  as sequences of characters; on the slices the resolvers take from such
  segments, byte and character offsets select the same text. The resolvers require paths
  free of such segments (`PathOk`), and every path get_tree records is
  proved to be one (`TreeView.PosPathOk`).
- RecordedPaths.CorrectedResolves: positions are bounded by usize
  (`PosIn`), because `parse::<usize>` rejects larger indices.
- CommonParent.CommonParent: paths are taken as their component lists.
  `Path::components` normalisation and Windows prefixes are not modelled,
  and a `PathBuf` rebuilt by pushing components is taken to have those
  components.
- Label texts of tree nodes: the project label `/project/<name>` and the
  `<no-name>` fallback are modelled, but the JSON serialisation of
  TreeNode is not.
- The 64-bit width of `count` in the counting loops: no document has
  2^64 children.

## Findings

| source | as written | input that shows it | evidently intended | confidence | as-written member | corrected member |
|---|---|---|---|---|---|---|
| src-tauri/src/lib.rs:375-377 | find_group_files_mut walks every segment, including the leading `project`, starting from the root element itself (the `.skip(1)` is commented out) | a document `<project><target><groups><group/></groups></target></project>` and the node id get_tree recorded for `/project/target[1]/groups/group[1]`: the walk looks for a `project` child of the root, finds none, and sort_groups and add_file_to_groups change nothing | skip the first segment, so each recorded path reaches the element its tree node was built from | high (proved; not executed) | RecordedPaths.AsWrittenSortAddNoop | RecordedPaths.CorrectedResolves |
| src-tauri/src/lib.rs:489-491 | remove_file_by_xpath walks the parent segments from the root, including the leading `project` | the same document with `<files><file/></files>` in the group, and the id recorded for `/project/target[1]/groups/group[1]/files/file[1]`: delete_file_nodes returns "not found parent" and removes nothing | skip the first segment, so the recorded file is removed | high (proved; not executed) | RecordedPaths.AsWrittenDeleteFails | RecordedPaths.CorrectedDeleteRemoves |

`DocumentCache.AsWrittenEditsKeepTree` and `DocumentCache.AsWrittenDeleteStops`
lift these two findings to the commands: as written, on any document whose
root has no `project` child, sort and add never change the tree, and delete
fails on the first file identifier. The command layer keeps the resolvers as
written because that is what the commands do. The corrected walk is proved
in `RecordedPaths` beside it.
