/** The pseudo-XPath strings lib.rs records for tree nodes
    (`/project/target[1]/groups/group[2]/files/file[3]`): how get_tree
    builds them, how the resolvers cut them into segments and read each
    segment's name and 1-based index, and the substring tests the commands
    filter them with. */
module PathExpr {
  import opened Wrappers
  import opened Decimal

  /** First position of `c` in `s` (`str::find` on a character). */
  function IndexOf(s: string, c: char): (r: Option<nat>)
    ensures r.Some? ==> r.value < |s| && s[r.value] == c && c !in s[..r.value]
    ensures r.None? <==> c !in s
    decreases |s|
  {
    if s == [] then None
    else if s[0] == c then Some(0)
    else
      var rest := IndexOf(s[1..], c);
      if rest.Some? then
        assert s[..rest.value + 1] == [s[0]] + s[1..][..rest.value];
        Some(rest.value + 1)
      else
        assert s == [s[0]] + s[1..];
        None
  }

  function TrimStart(s: string): (r: string)
    decreases |s|
  {
    if |s| > 0 && s[0] == '/' then TrimStart(s[1..]) else s
  }

  function TrimEnd(s: string): (r: string)
    decreases |s|
  {
    if |s| > 0 && s[|s| - 1] == '/' then TrimEnd(s[..|s| - 1]) else s
  }

  /** `trim_matches('/')`: every leading and trailing slash removed. */
  function TrimSlashes(s: string): string
  {
    TrimEnd(TrimStart(s))
  }

  /** `split('/')`: the pieces between slashes; empty pieces are kept and
      there is always at least one piece. */
  function Split(s: string): (r: seq<string>)
    ensures |r| >= 1
    ensures forall piece <- r :: '/' !in piece
    decreases |s|
  {
    match IndexOf(s, '/')
    case None => [s]
    case Some(i) => [s[..i]] + Split(s[i + 1..])
  }

  /** `xpath.trim_matches('/').split('/')`, the first step of both resolvers. */
  function Segments(xpath: string): (r: seq<string>)
    ensures |r| >= 1
  {
    Split(TrimSlashes(xpath))
  }

  /** A segment the resolvers can slice. `seg[start + 1..seg.len() - 1]`
      takes byte offsets: it panics when the first `[` is the segment's
      last character, and when the last character takes more than one
      byte in UTF-8 (code point 128 or above), since `seg.len() - 1` then
      falls inside it. With an ASCII last character the byte slice holds
      the same characters as the slice taken here. */
  predicate SegmentOk(seg: string)
  {
    match IndexOf(seg, '[')
    case None => true
    case Some(start) => start < |seg| - 1 && seg[|seg| - 1] as int < 128
  }

  predicate PathOk(xpath: string)
  {
    forall seg <- Segments(xpath) :: SegmentOk(seg)
  }

  /** The resolver's reading of one segment: the name is the text before the
      first `[`, the index the text between it and the segment's last
      character; no bracket, or an index that does not parse, means 1. */
  function ParseStep(seg: string): (r: (string, nat))
    requires SegmentOk(seg)
    ensures IndexOf(seg, '[').None? ==> r == (seg, 1)
    ensures IndexOf(seg, '[').Some? ==> r.0 == seg[..IndexOf(seg, '[').value]
  {
    match IndexOf(seg, '[')
    case None => (seg, 1)
    case Some(start) => (seg[..start], ParseUsize(seg[start + 1..|seg| - 1]).GetOr(1))
  }

  /** remove_file_by_xpath's reading of the last segment's index: the same
      slice, but an index that does not parse is the error "bad index". */
  function ParseLastIndex(seg: string): (r: Result<nat>)
    requires SegmentOk(seg)
    ensures r.Err? ==> r.message == "bad index" && IndexOf(seg, '[').Some?
  {
    match IndexOf(seg, '[')
    case None => Ok(1)
    case Some(start) =>
      match ParseUsize(seg[start + 1..|seg| - 1])
      case None => Err("bad index")
      case Some(n) => Ok(n)
  }

  predicate StartsWith(s: string, t: string)
  {
    |t| <= |s| && s[..|t|] == t
  }

  /** `str::contains` on a string pattern. */
  predicate Contains(s: string, t: string)
    decreases |s|
  {
    StartsWith(s, t) || (|s| > 0 && Contains(s[1..], t))
  }

  lemma {:induction false} ContainsMiddle(a: string, t: string, b: string)
    ensures Contains(a + t + b, t)
    decreases |a|
  {
    if a == [] {
      assert (a + t + b)[..|t|] == t;
    } else {
      assert (a + t + b)[1..] == a[1..] + t + b;
      ContainsMiddle(a[1..], t, b);
    }
  }

  /** A pattern holding a character the text lacks does not occur in it. */
  lemma {:induction false} ContainsNeedsChar(s: string, t: string, c: char)
    requires c in t && c !in s
    ensures !Contains(s, t)
    decreases |s|
  {
    if |s| > 0 {
      assert forall x <- s[1..] :: x in s;
      ContainsNeedsChar(s[1..], t, c);
    }
  }

  /** `.replace(" ", "")` */
  function RemoveSpaces(s: string): (r: string)
    decreases |s|
  {
    if s == [] then "" else (if s[0] == ' ' then "" else [s[0]]) + RemoveSpaces(s[1..])
  }

  lemma {:induction false} RemoveSpacesConcat(a: string, b: string)
    ensures RemoveSpaces(a + b) == RemoveSpaces(a) + RemoveSpaces(b)
    decreases |a|
  {
    if a == [] {
      assert a + b == b;
    } else {
      assert (a + b)[1..] == a[1..] + b;
      RemoveSpacesConcat(a[1..], b);
    }
  }

  lemma {:induction false} RemoveSpacesNoSpace(s: string)
    requires ' ' !in s
    ensures RemoveSpaces(s) == s
    decreases |s|
  {
    if s != [] {
      assert forall x <- s[1..] :: x in s;
      RemoveSpacesNoSpace(s[1..]);
      assert s == [s[0]] + s[1..];
    }
  }

  // ---------------------------------------------------------------------
  // The paths get_tree records.
  // ---------------------------------------------------------------------

  const RootPath: string := "/project"

  /** `format!("/project/target[{}]", t_idx + 1)` */
  function TargetPath(t: nat): string
  {
    "/project/target[" + Digits(t + 1) + "]"
  }

  /** `format!("{} /groups/group[{}]", t_xpath, g_idx + 1).replace(" ", "")` */
  function GroupPath(tPath: string, g: nat): string
  {
    RemoveSpaces(tPath + " /groups/group[" + Digits(g + 1) + "]")
  }

  /** `format!("{}/files/file[{}]", g_xpath, f_idx + 1)` */
  function FilePath(gPath: string, f: nat): string
  {
    gPath + "/files/file[" + Digits(f + 1) + "]"
  }

  /** A segment `name[n]`. */
  function IndexedSegment(name: string, n: nat): string
  {
    name + "[" + Digits(n) + "]"
  }

  /** The path whose segments are `segs`. */
  function Join(segs: seq<string>): string
    decreases |segs|
  {
    if segs == [] then "" else "/" + segs[0] + Join(segs[1..])
  }

  predicate PlainSegment(seg: string)
  {
    seg != "" && '/' !in seg
  }

  lemma JoinCons(a: string, rest: seq<string>)
    ensures Join([a] + rest) == "/" + a + Join(rest)
  {
    assert ([a] + rest)[1..] == rest;
  }

  lemma {:induction false} JoinLast(segs: seq<string>)
    requires |segs| > 0 && forall seg <- segs :: PlainSegment(seg)
    ensures Join(segs) != "" && Join(segs)[|Join(segs)| - 1] != '/'
    decreases |segs|
  {
    JoinCons(segs[0], segs[1..]);
    assert segs == [segs[0]] + segs[1..];
    assert segs[0] in segs;
    if |segs| > 1 {
      assert forall seg <- segs[1..] :: seg in segs;
      JoinLast(segs[1..]);
    } else {
      assert Join(segs) == "/" + segs[0];
      assert segs[0][|segs[0]| - 1] in segs[0];
    }
  }

  lemma {:induction false} IndexOfAfter(a: string, rest: string, c: char)
    requires c !in a && |rest| > 0 && rest[0] == c
    ensures IndexOf(a + rest, c) == Some(|a|)
    decreases |a|
  {
    if a != [] {
      assert (a + rest)[1..] == a[1..] + rest;
      assert forall x <- a[1..] :: x in a;
      IndexOfAfter(a[1..], rest, c);
    }
  }

  lemma {:induction false} JoinAppend(a: seq<string>, b: seq<string>)
    ensures Join(a + b) == Join(a) + Join(b)
    decreases |a|
  {
    if a == [] {
      assert a + b == b;
    } else {
      JoinCons(a[0], a[1..] + b);
      assert a + b == [a[0]] + (a[1..] + b);
      JoinAppend(a[1..], b);
      JoinCons(a[0], a[1..]);
      assert a == [a[0]] + a[1..];
    }
  }

  /** Splitting at the first slash. */
  lemma SplitCons(a: string, tail: string)
    requires '/' !in a
    ensures Split(a + "/" + tail) == [a] + Split(tail)
  {
    var s := a + "/" + tail;
    assert s == a + ("/" + tail);
    IndexOfAfter(a, "/" + tail, '/');
    assert s[..|a|] == a;
    assert s[|a| + 1..] == tail;
  }

  lemma {:induction false} SplitJoin(segs: seq<string>)
    requires |segs| > 0 && forall seg <- segs :: PlainSegment(seg)
    ensures Split(segs[0] + Join(segs[1..])) == segs
    decreases |segs|
  {
    assert segs[0] in segs;
    if |segs| == 1 {
      assert segs[0] + Join(segs[1..]) == segs[0];
      assert segs == [segs[0]];
    } else {
      var rest := segs[1..];
      JoinCons(rest[0], rest[1..]);
      assert rest == [rest[0]] + rest[1..];
      assert segs[0] + Join(rest) == segs[0] + "/" + (rest[0] + Join(rest[1..]));
      SplitCons(segs[0], rest[0] + Join(rest[1..]));
      assert forall seg <- rest :: seg in segs;
      SplitJoin(rest);
      assert segs == [segs[0]] + rest;
    }
  }

  lemma TrimStartPlain(body: string)
    requires body != "" && body[0] != '/'
    ensures TrimStart("/" + body) == body
  {
    assert ("/" + body)[1..] == body;
  }

  lemma TrimSlashesOnce(body: string)
    requires body != "" && body[0] != '/' && body[|body| - 1] != '/'
    ensures TrimSlashes("/" + body) == body
  {
    TrimStartPlain(body);
  }

  lemma JoinHead(segs: seq<string>)
    requires |segs| > 0
    ensures Join(segs) == "/" + (segs[0] + Join(segs[1..]))
  {
  }

  lemma JoinBodyEnds(segs: seq<string>)
    requires |segs| > 0 && forall seg <- segs :: PlainSegment(seg)
    ensures var body := segs[0] + Join(segs[1..]);
            body != "" && body[0] != '/' && body[|body| - 1] != '/'
  {
    var body := segs[0] + Join(segs[1..]);
    assert segs[0] in segs;
    assert body[0] == segs[0][0];
    assert segs[0][0] in segs[0];
    JoinLast(segs);
    JoinHead(segs);
    assert body[|body| - 1] == Join(segs)[|Join(segs)| - 1];
  }

  /** Trimming a joined path removes exactly its leading slash. */
  lemma TrimSlashesJoin(segs: seq<string>)
    requires |segs| > 0 && forall seg <- segs :: PlainSegment(seg)
    ensures TrimSlashes(Join(segs)) == segs[0] + Join(segs[1..])
  {
    JoinHead(segs);
    JoinBodyEnds(segs);
    TrimSlashesOnce(segs[0] + Join(segs[1..]));
  }

  /** Cutting a path built from plain segments gives those segments back. */
  lemma SegmentsOfJoin(segs: seq<string>)
    requires |segs| > 0 && forall seg <- segs :: PlainSegment(seg)
    ensures Segments(Join(segs)) == segs
  {
    TrimSlashesJoin(segs);
    SplitJoin(segs);
  }

  lemma TargetPathJoin(t: nat)
    ensures TargetPath(t) == Join(["project", IndexedSegment("target", t + 1)])
  {
    assert "/project/target[" == "/" + "project" + "/" + "target[";
    JoinCons(IndexedSegment("target", t + 1), []);
    JoinCons("project", [IndexedSegment("target", t + 1)]);
  }

  /** The `.replace(" ", "")` in get_tree only removes the separating space. */
  lemma RemoveSpacesLeadingSpace(b: string)
    ensures RemoveSpaces(" " + b) == RemoveSpaces(b)
  {
    assert (" " + b)[0] == ' ';
    assert (" " + b)[1..] == b;
  }

  lemma RemoveSpacesSeparator(a: string, b: string)
    requires ' ' !in a && ' ' !in b
    ensures RemoveSpaces(a + (" " + b)) == a + b
  {
    calc {
      RemoveSpaces(a + (" " + b));
      { RemoveSpacesConcat(a, " " + b); }
      RemoveSpaces(a) + RemoveSpaces(" " + b);
      { RemoveSpacesLeadingSpace(b); }
      RemoveSpaces(a) + RemoveSpaces(b);
      { RemoveSpacesNoSpace(a); RemoveSpacesNoSpace(b); }
      a + b;
    }
  }

  lemma GroupPathAppends(tPath: string, g: nat)
    requires ' ' !in tPath
    ensures GroupPath(tPath, g) == tPath + "/groups/group[" + Digits(g + 1) + "]"
  {
    var rest := "/groups/group[" + Digits(g + 1) + "]";
    assert forall c <- Digits(g + 1) :: IsDigit(c);
    assert ' ' !in rest;
    assert " /groups/group[" == " " + "/groups/group[";
    assert tPath + " /groups/group[" + Digits(g + 1) + "]" == tPath + (" " + rest);
    RemoveSpacesSeparator(tPath, rest);
  }

  lemma TargetPathNoSpace(t: nat)
    ensures ' ' !in TargetPath(t)
  {
    assert forall c <- Digits(t + 1) :: IsDigit(c);
  }

  /** `name/item[n]` as a two-segment path. */
  lemma PairJoin(name: string, item: string, n: nat)
    ensures "/" + name + "/" + item + "[" + Digits(n) + "]" == Join([name, IndexedSegment(item, n)])
  {
    JoinCons(IndexedSegment(item, n), []);
    JoinCons(name, [IndexedSegment(item, n)]);
  }

  lemma GroupPathJoin(t: nat, g: nat)
    ensures GroupPath(TargetPath(t), g)
         == Join(["project", IndexedSegment("target", t + 1), "groups", IndexedSegment("group", g + 1)])
  {
    var st, sg := IndexedSegment("target", t + 1), IndexedSegment("group", g + 1);
    TargetPathNoSpace(t);
    GroupPathAppends(TargetPath(t), g);
    TargetPathJoin(t);
    assert "/groups/group[" + Digits(g + 1) + "]" == Join(["groups", sg]) by {
      assert "/groups/group[" == "/" + "groups" + "/" + "group" + "[";
      PairJoin("groups", "group", g + 1);
    }
    JoinAppend(["project", st], ["groups", sg]);
    assert ["project", st] + ["groups", sg] == ["project", st, "groups", sg];
  }

  lemma FilePathJoin(t: nat, g: nat, f: nat)
    ensures FilePath(GroupPath(TargetPath(t), g), f)
         == Join(["project", IndexedSegment("target", t + 1), "groups", IndexedSegment("group", g + 1),
                  "files", IndexedSegment("file", f + 1)])
  {
    var st, sg, sf := IndexedSegment("target", t + 1), IndexedSegment("group", g + 1), IndexedSegment("file", f + 1);
    GroupPathJoin(t, g);
    assert "/files/file[" + Digits(f + 1) + "]" == Join(["files", sf]) by {
      assert "/files/file[" == "/" + "files" + "/" + "file" + "[";
      PairJoin("files", "file", f + 1);
    }
    JoinAppend(["project", st, "groups", sg], ["files", sf]);
    assert ["project", st, "groups", sg] + ["files", sf] == ["project", st, "groups", sg, "files", sf];
  }

  lemma IndexedSegmentPlain(name: string, n: nat)
    requires '/' !in name
    ensures PlainSegment(IndexedSegment(name, n))
  {
    assert forall c <- Digits(n) :: c != '/';
  }

  /** An indexed segment is read back as its name and index. */
  lemma ParseIndexedSegment(name: string, n: nat)
    requires '[' !in name && n <= UsizeMax
    ensures SegmentOk(IndexedSegment(name, n))
    ensures ParseStep(IndexedSegment(name, n)) == (name, n)
    ensures ParseLastIndex(IndexedSegment(name, n)) == Ok(n)
  {
    var seg := IndexedSegment(name, n);
    assert seg[|name|] == '[';
    assert seg[..|name|] == name;
    assert IndexOf(seg, '[') == Some(|name|);
    assert seg[|seg| - 1] == ']';
    assert seg[|name| + 1..|seg| - 1] == Digits(n);
    ParseUsizeDigits(n);
  }

  lemma ParsePlainSegment(name: string)
    requires '[' !in name
    ensures SegmentOk(name) && ParseStep(name) == (name, 1) && ParseLastIndex(name) == Ok(1)
  {
  }

  /** The segments of the path get_tree records for the f-th file of the
      g-th group of the t-th target (all 0-based). */
  lemma FilePathSegments(t: nat, g: nat, f: nat)
    ensures Segments(FilePath(GroupPath(TargetPath(t), g), f))
         == ["project", IndexedSegment("target", t + 1), "groups", IndexedSegment("group", g + 1),
             "files", IndexedSegment("file", f + 1)]
  {
    FilePathJoin(t, g, f);
    IndexedSegmentPlain("target", t + 1);
    IndexedSegmentPlain("group", g + 1);
    IndexedSegmentPlain("file", f + 1);
    SegmentsOfJoin(["project", IndexedSegment("target", t + 1), "groups", IndexedSegment("group", g + 1),
                    "files", IndexedSegment("file", f + 1)]);
  }

  lemma GroupPathSegments(t: nat, g: nat)
    ensures Segments(GroupPath(TargetPath(t), g))
         == ["project", IndexedSegment("target", t + 1), "groups", IndexedSegment("group", g + 1)]
  {
    GroupPathJoin(t, g);
    IndexedSegmentPlain("target", t + 1);
    IndexedSegmentPlain("group", g + 1);
    SegmentsOfJoin(["project", IndexedSegment("target", t + 1), "groups", IndexedSegment("group", g + 1)]);
  }

  lemma TargetPathSegments(t: nat)
    ensures Segments(TargetPath(t)) == ["project", IndexedSegment("target", t + 1)]
  {
    TargetPathJoin(t);
    IndexedSegmentPlain("target", t + 1);
    SegmentsOfJoin(["project", IndexedSegment("target", t + 1)]);
  }

  lemma RootPathSegments()
    ensures Segments(RootPath) == ["project"]
  {
    assert RootPath == Join(["project"]);
    SegmentsOfJoin(["project"]);
  }

  /** No path get_tree records makes the resolvers' slicing panic. */
  lemma RootPathOk()
    ensures PathOk(RootPath)
  {
    RootPathSegments();
  }

  lemma TargetPathOk(t: nat)
    ensures PathOk(TargetPath(t))
  {
    TargetPathSegments(t);
    IndexedSegmentOk("target", t + 1);
  }

  lemma GroupPathOk(t: nat, g: nat)
    ensures PathOk(GroupPath(TargetPath(t), g))
  {
    GroupPathSegments(t, g);
    IndexedSegmentOk("target", t + 1);
    IndexedSegmentOk("group", g + 1);
  }

  lemma FilePathOk(t: nat, g: nat, f: nat)
    ensures PathOk(FilePath(GroupPath(TargetPath(t), g), f))
  {
    FilePathSegments(t, g, f);
    IndexedSegmentOk("target", t + 1);
    IndexedSegmentOk("group", g + 1);
    IndexedSegmentOk("file", f + 1);
  }

  lemma IndexedSegmentOk(name: string, n: nat)
    requires '[' !in name
    ensures SegmentOk(IndexedSegment(name, n))
  {
    var seg := IndexedSegment(name, n);
    assert seg[|name|] == '[';
    assert seg[..|name|] == name;
    assert IndexOf(seg, '[') == Some(|name|);
    assert seg[|seg| - 1] == ']';
  }

  lemma TargetPathChars(t: nat)
    ensures 'u' !in TargetPath(t) && 'f' !in TargetPath(t)
  {
    var d := Digits(t + 1);
    assert forall c <- d :: IsDigit(c);
    assert TargetPath(t) == "/project/target[" + (d + "]");
    assert forall c <- TargetPath(t) :: c in "/project/target[" || c in d || c == ']';
  }

  lemma GroupPathChars(t: nat, g: nat)
    ensures 'f' !in GroupPath(TargetPath(t), g)
  {
    var tp, d := TargetPath(t), Digits(g + 1);
    TargetPathChars(t);
    TargetPathNoSpace(t);
    GroupPathAppends(tp, g);
    assert forall c <- d :: IsDigit(c);
    assert GroupPath(tp, g) == tp + ("/groups/group[" + (d + "]"));
    assert forall c <- GroupPath(tp, g) :: c in tp || c in "/groups/group[" || c in d || c == ']';
  }

  lemma GroupPathFilter(t: nat, g: nat)
    ensures Contains(GroupPath(TargetPath(t), g), "/groups/group[")
  {
    var tp, d := TargetPath(t), Digits(g + 1);
    TargetPathNoSpace(t);
    GroupPathAppends(tp, g);
    assert GroupPath(tp, g) == tp + "/groups/group[" + (d + "]");
    ContainsMiddle(tp, "/groups/group[", d + "]");
  }

  lemma FilePathGroupFilter(t: nat, g: nat, f: nat)
    ensures Contains(FilePath(GroupPath(TargetPath(t), g), f), "/groups/group[")
  {
    var tp, d2, d3 := TargetPath(t), Digits(g + 1), Digits(f + 1);
    TargetPathNoSpace(t);
    GroupPathAppends(tp, g);
    var rest := d2 + "]" + "/files/file[" + d3 + "]";
    assert FilePath(GroupPath(tp, g), f) == tp + "/groups/group[" + rest;
    ContainsMiddle(tp, "/groups/group[", rest);
  }

  lemma FilePathFileFilter(gp: string, f: nat)
    ensures Contains(FilePath(gp, f), "/files/file[")
  {
    var d := Digits(f + 1);
    assert FilePath(gp, f) == gp + "/files/file[" + (d + "]");
    ContainsMiddle(gp, "/files/file[", d + "]");
  }

  /** Which command filters each recorded path passes: `/groups/group[`
      (sort and add) matches group AND file paths; `/files/file[` (delete)
      matches file paths only; the root and target paths match neither. */
  lemma RecordedPathFilters(t: nat, g: nat, f: nat)
    ensures !Contains(RootPath, "/groups/group[") && !Contains(RootPath, "/files/file[")
    ensures !Contains(TargetPath(t), "/groups/group[") && !Contains(TargetPath(t), "/files/file[")
    ensures Contains(GroupPath(TargetPath(t), g), "/groups/group[")
    ensures !Contains(GroupPath(TargetPath(t), g), "/files/file[")
    ensures Contains(FilePath(GroupPath(TargetPath(t), g), f), "/groups/group[")
    ensures Contains(FilePath(GroupPath(TargetPath(t), g), f), "/files/file[")
  {
    assert "/groups/group["[4] == 'u' && "/files/file["[1] == 'f';
    ContainsNeedsChar(RootPath, "/groups/group[", 'u');
    ContainsNeedsChar(RootPath, "/files/file[", 'f');
    TargetPathChars(t);
    ContainsNeedsChar(TargetPath(t), "/groups/group[", 'u');
    ContainsNeedsChar(TargetPath(t), "/files/file[", 'f');
    GroupPathChars(t, g);
    ContainsNeedsChar(GroupPath(TargetPath(t), g), "/files/file[", 'f');
    GroupPathFilter(t, g);
    FilePathGroupFilter(t, g, f);
    FilePathFileFilter(GroupPath(TargetPath(t), g), f);
  }
}
