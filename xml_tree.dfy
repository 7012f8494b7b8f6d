/** The in-memory element tree of an xmltree document and the read-only
    helpers of lib.rs that search it: element children are counted and
    selected by tag name, 1-based, in document order. */
module XmlTree {
  import opened Wrappers

  /** An element: tag name, attributes and ordered children. */
  datatype Element = Element(name: string, attributes: map<string, string>, children: seq<XmlNode>)

  /** A child node. `Other` stands for comments, CDATA sections and
      processing instructions, which every helper here passes over. */
  datatype XmlNode = Elem(element: Element) | Text(text: string) | Other

  /** An element with no attributes and no children (`Element::new`). */
  function NewElement(name: string): Element
  {
    Element(name, map[], [])
  }

  /** is_element_named */
  predicate IsElementNamed(node: XmlNode, name: string)
  {
    node.Elem? && node.element.name == name
  }

  /** Number of element children called `name`. */
  function CountNamed(nodes: seq<XmlNode>, name: string): nat
    decreases |nodes|
  {
    if nodes == [] then 0
    else (if IsElementNamed(nodes[0], name) then 1 else 0) + CountNamed(nodes[1..], name)
  }

  lemma {:induction false} CountNamedConcat(a: seq<XmlNode>, b: seq<XmlNode>, name: string)
    ensures CountNamed(a + b, name) == CountNamed(a, name) + CountNamed(b, name)
    decreases |a|
  {
    if a == [] {
      assert a + b == b;
    } else {
      assert (a + b)[1..] == a[1..] + b;
      CountNamedConcat(a[1..], b, name);
    }
  }

  /** Position of the `idx`-th (1-based) element child called `name`, the
      way the resolver loops count: only same-named elements are counted. */
  function NthNamed(nodes: seq<XmlNode>, name: string, idx: nat): (r: Option<nat>)
    ensures r.Some? ==> r.value < |nodes| && IsElementNamed(nodes[r.value], name)
                        && CountNamed(nodes[..r.value], name) + 1 == idx
    ensures r.None? <==> idx == 0 || CountNamed(nodes, name) < idx
    decreases |nodes|
  {
    if |nodes| == 0 || idx == 0 then None
    else if IsElementNamed(nodes[0], name) && idx == 1 then
      assert nodes[..0] == [];
      Some(0)
    else
      var rest := NthNamed(nodes[1..], name, if IsElementNamed(nodes[0], name) then idx - 1 else idx);
      if rest.Some? then
        assert nodes[..rest.value + 1] == [nodes[0]] + nodes[1..][..rest.value];
        CountNamedConcat([nodes[0]], nodes[1..][..rest.value], name);
        Some(rest.value + 1)
      else None
  }

  /** A position with the defining property of NthNamed is the one it returns. */
  lemma {:induction false} NthNamedUnique(nodes: seq<XmlNode>, name: string, idx: nat, p: nat)
    requires p < |nodes| && IsElementNamed(nodes[p], name)
    requires CountNamed(nodes[..p], name) + 1 == idx
    ensures NthNamed(nodes, name, idx) == Some(p)
    decreases p
  {
    if p == 0 {
      assert nodes[..0] == [];
    } else {
      assert nodes[..p] == [nodes[0]] + nodes[1..][..p - 1];
      CountNamedConcat([nodes[0]], nodes[1..][..p - 1], name);
      if IsElementNamed(nodes[0], name) {
        assert idx >= 2;
        NthNamedUnique(nodes[1..], name, idx - 1, p - 1);
      } else {
        NthNamedUnique(nodes[1..], name, idx, p - 1);
      }
    }
  }

  /** The counting loop shared by find_group_files_mut and
      remove_file_by_xpath: walk the children, count those called `name`,
      stop at the `idx`-th. */
  method FindNthNamed(nodes: seq<XmlNode>, name: string, idx: nat) returns (pos: Option<nat>)
    ensures pos == NthNamed(nodes, name, idx)
    ensures pos.Some? ==> pos.value < |nodes| && nodes[pos.value].Elem? && nodes[pos.value].element.name == name
  {
    var count := 0;
    var i := 0;
    while i < |nodes|
      invariant 0 <= i <= |nodes|
      invariant count == CountNamed(nodes[..i], name)
      invariant idx == 0 || count < idx
    {
      assert nodes[..i + 1] == nodes[..i] + [nodes[i]];
      CountNamedConcat(nodes[..i], [nodes[i]], name);
      if IsElementNamed(nodes[i], name) {
        count := count + 1;
        if count == idx {
          NthNamedUnique(nodes, name, idx, i);
          return Some(i);
        }
      }
      i := i + 1;
    }
    assert nodes[..i] == nodes;
    return None;
  }

  /** The element children called `name`, in document order (the filter_map
      of get_children_by_name). */
  function ElementsNamed(nodes: seq<XmlNode>, name: string): (r: seq<Element>)
    ensures |r| == CountNamed(nodes, name)
    ensures forall e <- r :: e.name == name
    decreases |nodes|
  {
    if nodes == [] then []
    else (if IsElementNamed(nodes[0], name) then [nodes[0].element] else []) + ElementsNamed(nodes[1..], name)
  }

  /** get_children_by_name */
  function GetChildrenByName(el: Element, name: string): (r: seq<Element>)
    ensures |r| == CountNamed(el.children, name)
    ensures forall e <- r :: e.name == name
  {
    ElementsNamed(el.children, name)
  }

  /** The k-th element returned by get_children_by_name is the child the
      resolver selects with index k + 1: the tree view and the resolver count
      siblings the same way. */
  lemma {:induction false} ElementsNamedAt(nodes: seq<XmlNode>, name: string, k: nat)
    requires k < |ElementsNamed(nodes, name)|
    ensures NthNamed(nodes, name, k + 1).Some?
    ensures nodes[NthNamed(nodes, name, k + 1).value] == Elem(ElementsNamed(nodes, name)[k])
    decreases |nodes|
  {
    var rest := ElementsNamed(nodes[1..], name);
    if IsElementNamed(nodes[0], name) {
      if k > 0 {
        ElementsNamedAt(nodes[1..], name, k - 1);
      }
    } else {
      ElementsNamedAt(nodes[1..], name, k);
    }
  }

  /** First element child called `name`, searched front to back. */
  function FirstNamed(nodes: seq<XmlNode>, name: string): (r: Option<Element>)
    ensures r.None? <==> NthNamed(nodes, name, 1).None?
    ensures r.Some? ==> nodes[NthNamed(nodes, name, 1).value] == Elem(r.value)
    decreases |nodes|
  {
    if nodes == [] then None
    else if IsElementNamed(nodes[0], name) then Some(nodes[0].element)
    else FirstNamed(nodes[1..], name)
  }

  /** find_child_element: the first child element called `name`, which is
      the one a path segment without an index selects. */
  function FindChildElement(el: Element, name: string): (r: Option<Element>)
    ensures r.None? <==> CountNamed(el.children, name) == 0
    ensures r.Some? ==> r.value.name == name
    ensures r.Some? ==> el.children[NthNamed(el.children, name, 1).value] == Elem(r.value)
  {
    FirstNamed(el.children, name)
  }

  /** find_child_element's loop over the children, returning at the first
      element child called `name`. */
  method FindChild(el: Element, name: string) returns (r: Option<Element>)
    ensures r == FindChildElement(el, name)
  {
    var i := 0;
    assert el.children[0..] == el.children;
    while i < |el.children|
      invariant i <= |el.children|
      invariant FirstNamed(el.children, name) == FirstNamed(el.children[i..], name)
    {
      if IsElementNamed(el.children[i], name) {
        return Some(el.children[i].element);
      }
      assert el.children[i..][1..] == el.children[i + 1..];
      i := i + 1;
    }
    return None;
  }

  /** Concatenation of the text children (other kinds of child are skipped). */
  function TextContent(nodes: seq<XmlNode>): string
    decreases |nodes|
  {
    if nodes == [] then ""
    else TextContent(nodes[..|nodes| - 1]) + (if nodes[|nodes| - 1].Text? then nodes[|nodes| - 1].text else "")
  }

  /** The value get_child_text computes: the concatenated text of the first
      child element called `name`, or None when there is no such child or its
      text is empty. */
  function ChildText(el: Element, name: string): (r: Option<string>)
    ensures r.Some? ==> r.value != ""
    ensures r.None? <==> FindChildElement(el, name).None? || TextContent(FindChildElement(el, name).value.children) == ""
  {
    match FindChildElement(el, name)
    case None => None
    case Some(c) =>
      var s := TextContent(c.children);
      if s == "" then None else Some(s)
  }

  /** get_child_text: accumulates the text children with push_str. */
  method GetChildText(el: Element, name: string) returns (r: Option<string>)
    ensures r == ChildText(el, name)
  {
    var found := FindChild(el, name);
    if found.None? {
      return None;
    }
    var c := found.value;
    var s := "";
    var i := 0;
    while i < |c.children|
      invariant 0 <= i <= |c.children|
      invariant s == TextContent(c.children[..i])
    {
      assert c.children[..i + 1][..i] == c.children[..i];
      if c.children[i].Text? {
        s := s + c.children[i].text;
      }
      i := i + 1;
    }
    assert c.children[..i] == c.children;
    if s == "" {
      r := None;
    } else {
      r := Some(s);
    }
  }

  /** The label the tree view shows for an element. */
  function NameLabel(el: Element): string
  {
    ChildText(el, "name").GetOr("<no-name>")
  }

  // ---------------------------------------------------------------------
  // Addresses: the positions, in each children list, of the elements a
  // resolver cursor passes through.  An in-place edit through the cursor is
  // the replacement of the element at that address.
  // ---------------------------------------------------------------------

  function ElementAt(root: Element, addr: seq<nat>): Option<Element>
    decreases |addr|
  {
    if addr == [] then Some(root)
    else if addr[0] < |root.children| && root.children[addr[0]].Elem? then
      ElementAt(root.children[addr[0]].element, addr[1..])
    else None
  }

  function ReplaceAt(root: Element, addr: seq<nat>, e: Element): Element
    decreases |addr|
  {
    if addr == [] then e
    else if addr[0] < |root.children| && root.children[addr[0]].Elem? then
      root.(children := root.children[addr[0] := Elem(ReplaceAt(root.children[addr[0]].element, addr[1..], e))])
    else root
  }

  /** Two addresses neither of which lies on the path to the other. */
  predicate Apart(a: seq<nat>, b: seq<nat>)
    decreases |a|
  {
    |a| > 0 && |b| > 0 && (a[0] != b[0] || Apart(a[1..], b[1..]))
  }

  /** Writing through the cursor is read back at the same address. */
  lemma {:induction false} ReplaceAtRead(root: Element, addr: seq<nat>, e: Element)
    requires ElementAt(root, addr).Some?
    ensures ElementAt(ReplaceAt(root, addr, e), addr) == Some(e)
    decreases |addr|
  {
    if addr != [] {
      ReplaceAtRead(root.children[addr[0]].element, addr[1..], e);
    }
  }

  /** Writing through the cursor leaves every element off its path alone. */
  lemma {:induction false} ReplaceAtFrame(root: Element, addr: seq<nat>, e: Element, other: seq<nat>)
    requires Apart(addr, other)
    ensures ElementAt(ReplaceAt(root, addr, e), other) == ElementAt(root, other)
    decreases |addr|
  {
    if addr[0] < |root.children| && root.children[addr[0]].Elem? && addr[0] == other[0] {
      ReplaceAtFrame(root.children[addr[0]].element, addr[1..], e, other[1..]);
    }
  }

  /** Replacing an element by the one already there changes nothing. */
  lemma {:induction false} ReplaceAtSame(root: Element, addr: seq<nat>)
    requires ElementAt(root, addr).Some?
    ensures ReplaceAt(root, addr, ElementAt(root, addr).value) == root
    decreases |addr|
  {
    if addr != [] {
      var c := root.children[addr[0]].element;
      ReplaceAtSame(c, addr[1..]);
      assert root.children[addr[0] := Elem(c)] == root.children;
    }
  }
}
