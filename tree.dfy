/** The explorer's tree: a forest of nodes, searched and pruned by plain
    recursive traversal (`findLabelById`, `removeItemById`). */
module TreeStore {
  import opened Common
  import opened NodeIds

  /** One tree item: `{itemId, label, isFolder, children}`. A missing
      `children` array behaves like an empty one in every traversal. */
  datatype Node = Node(itemId: string, title: string, isFolder: bool, children: seq<Node>)

  /** A backend record `{id, name}`, its id already rendered as text. */
  datatype Entry = Entry(id: string, name: string)

  /** The node the component builds for a backend folder record. */
  function FolderNode(e: Entry): (n: Node)
    ensures n.isFolder && n.children == [] && n.title == e.name
    ensures Part(n.itemId, 0) == Some(FolderTag)
    ensures Separator !in e.id ==> Part(n.itemId, 1) == Some(e.id)
  {
    FolderIdRoundTrip(e.id);
    Node(FolderId(e.id), e.name, true, [])
  }

  /** The root forest built from a list of backend folders, in order. */
  function Roots(folders: seq<Entry>): (roots: seq<Node>)
    ensures |roots| == |folders|
    ensures forall i :: 0 <= i < |folders| ==>
      roots[i].itemId == FolderId(folders[i].id) && roots[i].title == folders[i].name &&
      roots[i].isFolder && roots[i].children == []
  {
    seq(|folders|, i requires 0 <= i < |folders| => FolderNode(folders[i]))
  }

  /** A node with its subtree cut off: what is left when only its own fields matter. */
  function Header(n: Node): Node
  {
    n.(children := [])
  }

  /** Every node of the forest, at any depth, in pre-order. */
  function Flatten(nodes: seq<Node>): seq<Node>
    decreases nodes
  {
    if nodes == [] then []
    else [nodes[0]] + Flatten(nodes[0].children) + Flatten(nodes[1..])
  }

  /** The outline of the forest: every node's header with its depth, in
      pre-order. The outline determines the forest (`OutlineInjective`). */
  function Outline(nodes: seq<Node>, depth: nat): seq<(nat, Node)>
    decreases nodes
  {
    if nodes == [] then []
    else [(depth, Header(nodes[0]))] + Outline(nodes[0].children, depth + 1) + Outline(nodes[1..], depth)
  }

  /** The label of the first node of a flat list with the given id. */
  function FirstLabel(ns: seq<Node>, id: string): Option<string>
  {
    if ns == [] then None
    else if ns[0].itemId == id then Some(ns[0].title)
    else FirstLabel(ns[1..], id)
  }

  /** `findLabelById`: depth-first, pre-order search for the node's label.
      A label found in a subtree is returned only when it is truthy (not the
      empty string); a label matched at this level is returned as it is. */
  function FindLabel(nodes: seq<Node>, id: string): (r: Option<string>)
    ensures r.Some? ==> exists m :: m in Flatten(nodes) && m.itemId == id && m.title == r.value
    decreases nodes
  {
    if nodes == [] then None
    else
      var n := nodes[0];
      if n.itemId == id then Some(n.title)
      else
        var result := if |n.children| > 0 then FindLabel(n.children, id) else None;
        if result.Some? && result.value != "" then result
        else FindLabel(nodes[1..], id)
  }

  /** `removeItemById`: drops every node with the id, with its whole subtree,
      at any depth; other nodes are kept in order, their children pruned in turn. */
  function Remove(nodes: seq<Node>, id: string): (r: seq<Node>)
    ensures |r| <= |nodes|
    ensures forall m :: m in Flatten(r) ==> m.itemId != id
    decreases nodes
  {
    if nodes == [] then []
    else
      var n := nodes[0];
      var rest := Remove(nodes[1..], id);
      if n.itemId == id then rest
      else if |n.children| > 0 then
        var n' := n.(children := Remove(n.children, id));
        FlattenCons(n', rest);
        [n'] + rest
      else
        FlattenCons(n, rest);
        [n] + rest
  }

  /** Reference for removal: the outline of the forest with every subtree
      rooted at a node with the id left out. */
  function Outside(nodes: seq<Node>, id: string, depth: nat): seq<(nat, Node)>
    decreases nodes
  {
    if nodes == [] then []
    else if nodes[0].itemId == id then Outside(nodes[1..], id, depth)
    else [(depth, Header(nodes[0]))] + Outside(nodes[0].children, id, depth + 1) + Outside(nodes[1..], id, depth)
  }

  /** `a` is `b` with some elements left out, the rest in the same order. */
  predicate IsSubseq<T(==)>(a: seq<T>, b: seq<T>)
    decreases |b|
  {
    a == [] || (b != [] && ((a[0] == b[0] && IsSubseq(a[1..], b[1..])) || IsSubseq(a, b[1..])))
  }

  lemma FlattenCons(n: Node, rest: seq<Node>)
    ensures Flatten([n] + rest) == [n] + Flatten(n.children) + Flatten(rest)
  {
    assert ([n] + rest)[0] == n && ([n] + rest)[1..] == rest;
  }

  lemma OutlineCons(n: Node, rest: seq<Node>, depth: nat)
    ensures Outline([n] + rest, depth) == [(depth, Header(n))] + Outline(n.children, depth + 1) + Outline(rest, depth)
  {
    assert ([n] + rest)[0] == n && ([n] + rest)[1..] == rest;
  }

  lemma {:induction false} FirstLabelAppend(a: seq<Node>, b: seq<Node>, id: string)
    ensures FirstLabel(a + b, id) == if FirstLabel(a, id).Some? then FirstLabel(a, id) else FirstLabel(b, id)
    decreases |a|
  {
    if a == [] {
      assert a + b == b;
    } else {
      assert (a + b)[0] == a[0] && (a + b)[1..] == a[1..] + b;
      FirstLabelAppend(a[1..], b, id);
    }
  }

  lemma {:induction false} FirstLabelFound(ns: seq<Node>, id: string)
    requires FirstLabel(ns, id).Some?
    ensures exists m :: m in ns && m.itemId == id && m.title == FirstLabel(ns, id).value
    decreases |ns|
  {
    if ns[0].itemId != id {
      FirstLabelFound(ns[1..], id);
    }
  }

  /** When every node carrying the id has a non-empty label, lookup returns
      the label of the first such node in pre-order, or null if there is none. */
  lemma {:induction false} FindLabelFirstInPreorder(nodes: seq<Node>, id: string)
    requires forall m :: m in Flatten(nodes) && m.itemId == id ==> m.title != ""
    ensures FindLabel(nodes, id) == FirstLabel(Flatten(nodes), id)
    decreases nodes
  {
    if nodes != [] {
      var n := nodes[0];
      var rest := nodes[1..];
      assert Flatten(nodes) == [n] + Flatten(n.children) + Flatten(rest);
      FirstLabelAppend([n] + Flatten(n.children), Flatten(rest), id);
      FirstLabelAppend([n], Flatten(n.children), id);
      if n.itemId != id {
        FindLabelFirstInPreorder(n.children, id);
        FindLabelFirstInPreorder(rest, id);
        var r := FindLabel(n.children, id);
        if r.Some? {
          FirstLabelFound(Flatten(n.children), id);
        }
      }
    }
  }

  /** The falsy-label skip: when the search of a parent's children finds
      nothing or an empty label, it is passed over and the search goes on with
      the parent's later siblings. */
  lemma FindLabelSkipsEmptyNestedLabel(parent: Node, rest: seq<Node>, id: string)
    requires parent.itemId != id
    requires FindLabel(parent.children, id).None? || FindLabel(parent.children, id).value == ""
    ensures FindLabel([parent] + rest, id) == FindLabel(rest, id)
  {
    assert ([parent] + rest)[1..] == rest;
  }

  /** Removing an id no node carries changes nothing. */
  lemma {:induction false} RemoveAbsent(nodes: seq<Node>, id: string)
    requires forall m :: m in Flatten(nodes) ==> m.itemId != id
    ensures Remove(nodes, id) == nodes
    decreases nodes
  {
    if nodes != [] {
      var n := nodes[0];
      RemoveAbsent(n.children, id);
      RemoveAbsent(nodes[1..], id);
      assert n.(children := n.children) == n;
      assert [n] + nodes[1..] == nodes;
    }
  }

  /** Removal is idempotent. */
  lemma {:induction false} RemoveIdempotent(nodes: seq<Node>, id: string)
    ensures Remove(Remove(nodes, id), id) == Remove(nodes, id)
  {
    RemoveAbsent(Remove(nodes, id), id);
  }

  /** After removal, looking the id up finds nothing. */
  lemma {:induction false} FindLabelAfterRemove(nodes: seq<Node>, id: string)
    ensures FindLabel(Remove(nodes, id), id) == None
  {
    var r := Remove(nodes, id);
    assert FindLabel(r, id).Some? ==> exists m :: m in Flatten(r) && m.itemId == id;
  }

  /** Every surviving node keeps its id, label, folder flag and depth, and the
      survivors are exactly the nodes outside the removed subtrees, in the same
      pre-order: each stays under the parent it had. */
  lemma {:induction false} RemovePreorder(nodes: seq<Node>, id: string, depth: nat)
    ensures Outline(Remove(nodes, id), depth) == Outside(nodes, id, depth)
    decreases nodes
  {
    if nodes != [] {
      var n := nodes[0];
      RemovePreorder(nodes[1..], id, depth);
      if n.itemId != id {
        RemovePreorder(n.children, id, depth + 1);
        var n' := n.(children := Remove(n.children, id));
        assert |n.children| == 0 ==> n == n';
        assert Header(n') == Header(n);
        OutlineCons(n', Remove(nodes[1..], id), depth);
      }
    }
  }

  lemma {:induction false} SubseqPrepend<T>(a: seq<T>, b: seq<T>, c: seq<T>)
    requires IsSubseq(a, b)
    ensures IsSubseq(a, c + b)
    decreases |c|
  {
    if c != [] {
      SubseqPrepend(a, b, c[1..]);
      assert (c + b)[1..] == c[1..] + b;
    } else {
      assert c + b == b;
    }
  }

  lemma {:induction false} SubseqConcat<T>(a1: seq<T>, b1: seq<T>, a2: seq<T>, b2: seq<T>)
    requires IsSubseq(a1, b1) && IsSubseq(a2, b2)
    ensures IsSubseq(a1 + a2, b1 + b2)
    decreases |b1|
  {
    if a1 == [] {
      assert a1 + a2 == a2;
      SubseqPrepend(a2, b2, b1);
    } else {
      assert (b1 + b2)[1..] == b1[1..] + b2;
      if a1[0] == b1[0] && IsSubseq(a1[1..], b1[1..]) {
        SubseqConcat(a1[1..], b1[1..], a2, b2);
        assert (a1 + a2)[1..] == a1[1..] + a2;
      } else {
        SubseqConcat(a1, b1[1..], a2, b2);
      }
    }
  }

  lemma {:induction false} SubseqReflexive<T>(a: seq<T>)
    ensures IsSubseq(a, a)
    decreases |a|
  {
    if a != [] {
      SubseqReflexive(a[1..]);
    }
  }

  /** Removal keeps relative order: the survivors' outline is a subsequence
      of the original forest's outline. */
  lemma {:induction false} RemoveKeepsOrder(nodes: seq<Node>, id: string)
    ensures IsSubseq(Outline(Remove(nodes, id), 0), Outline(nodes, 0))
  {
    RemovePreorder(nodes, id, 0);
    OutsideIsSubseq(nodes, id, 0);
  }

  lemma {:induction false} OutsideIsSubseq(nodes: seq<Node>, id: string, depth: nat)
    ensures IsSubseq(Outside(nodes, id, depth), Outline(nodes, depth))
    decreases nodes
  {
    if nodes != [] {
      var n := nodes[0];
      var rest := nodes[1..];
      OutsideIsSubseq(n.children, id, depth + 1);
      OutsideIsSubseq(rest, id, depth);
      var top := [(depth, Header(n))];
      var front := top + Outline(n.children, depth + 1);
      assert Outline(nodes, depth) == front + Outline(rest, depth);
      if n.itemId == id {
        SubseqPrepend(Outside(rest, id, depth), Outline(rest, depth), front);
      } else {
        SubseqReflexive(top);
        SubseqConcat(top, top, Outside(n.children, id, depth + 1), Outline(n.children, depth + 1));
        SubseqConcat(top + Outside(n.children, id, depth + 1), front, Outside(rest, id, depth), Outline(rest, depth));
      }
    }
  }

  /** Every depth in an outline is at least the starting depth, and a
      non-empty outline starts at exactly that depth. */
  lemma {:induction false} OutlineDepths(nodes: seq<Node>, depth: nat)
    ensures forall i :: 0 <= i < |Outline(nodes, depth)| ==> Outline(nodes, depth)[i].0 >= depth
    ensures nodes != [] ==> Outline(nodes, depth)[0].0 == depth
    decreases nodes
  {
    if nodes != [] {
      OutlineDepths(nodes[0].children, depth + 1);
      OutlineDepths(nodes[1..], depth);
    }
  }

  /** The position of the first entry at depth `depth` or shallower. */
  function FirstShallow(s: seq<(nat, Node)>, depth: nat): nat
  {
    if s == [] || s[0].0 <= depth then 0 else 1 + FirstShallow(s[1..], depth)
  }

  lemma {:induction false} FirstShallowAt(x: seq<(nat, Node)>, y: seq<(nat, Node)>, depth: nat)
    requires forall i :: 0 <= i < |x| ==> x[i].0 > depth
    requires y == [] || y[0].0 <= depth
    ensures FirstShallow(x + y, depth) == |x|
    decreases |x|
  {
    if x == [] {
      assert x + y == y;
    } else {
      assert (x + y)[1..] == x[1..] + y;
      FirstShallowAt(x[1..], y, depth);
    }
  }

  /** An entry, then entries deeper than it, then entries that start no deeper:
      such a sequence splits back into its three pieces in only one way. */
  lemma OutlineSplitUnique(h1: (nat, Node), x1: seq<(nat, Node)>, y1: seq<(nat, Node)>,
                           h2: (nat, Node), x2: seq<(nat, Node)>, y2: seq<(nat, Node)>, depth: nat)
    requires [h1] + x1 + y1 == [h2] + x2 + y2
    requires forall i :: 0 <= i < |x1| ==> x1[i].0 > depth
    requires forall i :: 0 <= i < |x2| ==> x2[i].0 > depth
    requires y1 == [] || y1[0].0 <= depth
    requires y2 == [] || y2[0].0 <= depth
    ensures h1 == h2 && x1 == x2 && y1 == y2
  {
    var s1, s2 := [h1] + x1 + y1, [h2] + x2 + y2;
    assert h1 == s1[0] && h2 == s2[0];
    assert x1 + y1 == s1[1..] && x2 + y2 == s2[1..];
    FirstShallowAt(x1, y1, depth);
    FirstShallowAt(x2, y2, depth);
    assert x1 == (x1 + y1)[..|x1|] && y1 == (x1 + y1)[|x1|..];
    assert x2 == (x2 + y2)[..|x2|] && y2 == (x2 + y2)[|x2|..];
  }

  /** The outline determines the forest: two forests with the same outline
      are equal, so an outline equation fixes every node's place. */
  lemma {:induction false} OutlineInjective(a: seq<Node>, b: seq<Node>, depth: nat)
    requires Outline(a, depth) == Outline(b, depth)
    ensures a == b
    decreases a
  {
    if a != [] {
      assert b != [];
      OutlineDepths(a[0].children, depth + 1);
      OutlineDepths(a[1..], depth);
      OutlineDepths(b[0].children, depth + 1);
      OutlineDepths(b[1..], depth);
      OutlineSplitUnique((depth, Header(a[0])), Outline(a[0].children, depth + 1), Outline(a[1..], depth),
                         (depth, Header(b[0])), Outline(b[0].children, depth + 1), Outline(b[1..], depth), depth);
      OutlineInjective(a[0].children, b[0].children, depth + 1);
      OutlineInjective(a[1..], b[1..], depth);
      assert a[0] == Header(a[0]).(children := a[0].children);
      assert b[0] == Header(b[0]).(children := b[0].children);
      assert a == [a[0]] + a[1..] && b == [b[0]] + b[1..];
    } else {
      assert b == [];
    }
  }

  /** Removal is fully characterised by the outline reference: the forest it
      returns is the only one whose outline is the original's outline with
      the removed subtrees left out. */
  lemma RemoveCharacterised(nodes: seq<Node>, id: string, other: seq<Node>)
    requires Outline(other, 0) == Outside(nodes, id, 0)
    ensures other == Remove(nodes, id)
  {
    RemovePreorder(nodes, id, 0);
    OutlineInjective(other, Remove(nodes, id), 0);
  }

  /** After the roots load, each folder's label can be looked up by its node id
      (backend ids being distinct), whatever the name, even an empty one. */
  lemma {:induction false} RootsFindable(folders: seq<Entry>, i: nat)
    requires i < |folders|
    requires forall j, k :: 0 <= j < k < |folders| ==> folders[j].id != folders[k].id
    ensures FindLabel(Roots(folders), FolderId(folders[i].id)) == Some(folders[i].name)
    decreases |folders|
  {
    var roots := Roots(folders);
    if i > 0 {
      assert roots[1..] == Roots(folders[1..]);
      RootsFindable(folders[1..], i - 1);
      if roots[0].itemId == FolderId(folders[i].id) {
        FolderIdInjective(folders[0].id, folders[i].id);
      }
    }
  }

  /** A node appended at the end of the roots is found by its id, provided no
      node already in the forest carries that id. */
  lemma {:induction false} FindLabelAppendedRoot(nodes: seq<Node>, n: Node)
    requires forall m :: m in Flatten(nodes) ==> m.itemId != n.itemId
    ensures FindLabel(nodes + [n], n.itemId) == Some(n.title)
    decreases nodes
  {
    if nodes == [] {
      assert nodes + [n] == [n];
    } else {
      var head := nodes[0];
      assert (nodes + [n])[0] == head && (nodes + [n])[1..] == nodes[1..] + [n];
      FindLabelAppendedRoot(nodes[1..], n);
    }
  }
}
