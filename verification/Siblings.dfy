/** The XML tree of the validator: the pointer surgery of cvl/cvl_semantics.go against the lists of
    children it stands for. */
module Siblings {

  class Node {
    var Parent: Node?
    var FirstChild: Node?
    var LastChild: Node?
    var PrevSibling: Node?
    var NextSibling: Node?
    var Data: string
    const isText: bool
    var leafList: bool    // carries the "leaf-list" attribute

    constructor (data: string, isText: bool)
      ensures Data == data && this.isText == isText && !leafList
      ensures Parent == null && FirstChild == null && LastChild == null
      ensures PrevSibling == null && NextSibling == null
    {
      Data, this.isText, leafList := data, isText, false;
      Parent, FirstChild, LastChild, PrevSibling, NextSibling := null, null, null, null, null;
    }
  }

  // ----- lists of siblings -----

  predicate Distinct(cs: seq<Node>) {
    forall i, j :: 0 <= i < j < |cs| ==> cs[i] != cs[j]
  }

  predicate Disjoint(cs: seq<Node>, ss: seq<Node>) {
    forall c :: c in cs ==> c !in ss
  }

  /** cs is linked in both directions, with nothing before or after it. */
  predicate Chain(cs: seq<Node>)
    reads cs`PrevSibling, cs`NextSibling
  {
    && Distinct(cs)
    && (cs != [] ==> cs[0].PrevSibling == null && cs[|cs| - 1].NextSibling == null)
    && (forall i :: 0 <= i < |cs| - 1 ==> cs[i].NextSibling == cs[i + 1])
    && (forall i :: 0 < i < |cs| ==> cs[i].PrevSibling == cs[i - 1])
  }

  /** cs are the children of p, in order. A text node has no parent pointer. */
  predicate Children(p: Node, cs: seq<Node>)
    reads p`FirstChild, p`LastChild, cs`Parent, cs`PrevSibling, cs`NextSibling
  {
    && Chain(cs)
    && p.FirstChild == (if cs == [] then null else cs[0])
    && p.LastChild == (if cs == [] then null else cs[|cs| - 1])
    && forall c :: c in cs ==> c.Parent == p || (c.isText && c.Parent == null)
  }

  /** A node determines its list of children. */
  lemma {:induction false} ChildrenUnique(p: Node, cs: seq<Node>, ds: seq<Node>)
    requires Children(p, cs) && Children(p, ds)
    ensures cs == ds
  {
    var n := 0;
    while n < |cs| && n < |ds|
      invariant n <= |cs| && n <= |ds|
      invariant forall i :: 0 <= i < n ==> cs[i] == ds[i]
    {
      if n > 0 {
        assert cs[n - 1].NextSibling == cs[n] && ds[n - 1].NextSibling == ds[n];
      }
      n := n + 1;
    }
  }

  /** Two half-open chains, linked at the joint. */
  lemma ChainConcat(cs: seq<Node>, ss: seq<Node>)
    requires cs != [] && ss != [] && Distinct(cs) && Distinct(ss) && Disjoint(cs, ss)
    requires cs[0].PrevSibling == null && ss[|ss| - 1].NextSibling == null
    requires forall i :: 0 <= i < |cs| - 1 ==> cs[i].NextSibling == cs[i + 1]
    requires forall i :: 0 < i < |cs| ==> cs[i].PrevSibling == cs[i - 1]
    requires forall i :: 0 <= i < |ss| - 1 ==> ss[i].NextSibling == ss[i + 1]
    requires forall i :: 0 < i < |ss| ==> ss[i].PrevSibling == ss[i - 1]
    requires cs[|cs| - 1].NextSibling == ss[0] && ss[0].PrevSibling == cs[|cs| - 1]
    ensures Chain(cs + ss)
  {
    forall i, j | 0 <= i < j < |cs + ss|
      ensures (cs + ss)[i] != (cs + ss)[j]
    {
      if i < |cs| <= j {
        assert cs[i] in cs && ss[j - |cs|] in ss;
      }
    }
  }

  // ----- the shape of a whole document -----

  /** The children of every node of a document. */
  type Shape = map<Node, seq<Node>>

  ghost predicate Closed(shape: Shape, nodes: set<Node>) {
    forall p, c :: p in nodes && p in shape && c in shape[p] ==> c in nodes
  }

  ghost predicate Holds(nodes: set<Node>, tops: seq<Node>) {
    forall t :: t in tops ==> t in nodes
  }

  /** d is one of the given nodes or lies below one of them, at any depth. */
  ghost predicate Under(shape: Shape, tops: seq<Node>, d: Node) {
    forall nodes | nodes <= shape.Keys :: Closed(shape, nodes) && Holds(nodes, tops) ==> d in nodes
  }

  /** Some node of the set has no child in the set. */
  ghost predicate HasBottom(shape: Shape, nodes: set<Node>) {
    exists n :: n in nodes && n in shape && forall c :: c in shape[n] ==> c !in nodes
  }

  /** No way down ever comes back. */
  ghost predicate Acyclic(shape: Shape) {
    forall nodes | nodes <= shape.Keys :: nodes != {} ==> HasBottom(shape, nodes)
  }

  /** No node is in two lists. */
  ghost predicate Single(shape: Shape) {
    forall p, q :: p in shape && q in shape && p != q ==> Disjoint(shape[p], shape[q])
  }

  ghost predicate Forest(shape: Shape) {
    Closed(shape, shape.Keys) && Single(shape) && Acyclic(shape)
  }

  /** The heap holds exactly these lists of children, and no other parent pointer. */
  ghost predicate Linked(shape: Shape)
    requires Closed(shape, shape.Keys)
    reads shape.Keys
  {
    && (forall p :: p in shape ==> Children(p, shape[p]))
    && forall n :: n in shape && n.Parent != null ==> n.Parent in shape && n in shape[n.Parent]
  }

  ghost predicate Document(shape: Shape)
    reads shape.Keys
  {
    Forest(shape) && Linked(shape)
  }

  /** Nodes of the document without a parent. */
  ghost predicate Loose(shape: Shape, ss: seq<Node>) {
    forall s :: s in ss ==> s in shape && forall p :: p in shape ==> s !in shape[p]
  }

  lemma FewerIsAcyclic(shape: Shape, after: Shape)
    requires Acyclic(shape) && after.Keys == shape.Keys
    requires forall p, c :: p in shape && c in after[p] ==> c in shape[p]
    ensures Acyclic(after)
  {
    forall nodes | nodes <= after.Keys && nodes != {}
      ensures HasBottom(after, nodes)
    {
      assert HasBottom(shape, nodes);
      var n :| n in nodes && n in shape && forall c :: c in shape[n] ==> c !in nodes;
      assert n in after;
    }
  }

  /** Losing children keeps a forest a forest. */
  lemma FewerChildren(shape: Shape, p: Node, kids: seq<Node>)
    requires Forest(shape) && p in shape && forall c :: c in kids ==> c in shape[p]
    ensures Forest(shape[p := kids])
  {
    FewerIsAcyclic(shape, shape[p := kids]);
  }

  /** A new node, over loose ones, keeps a forest a forest. */
  lemma NewNode(shape: Shape, n: Node, kids: seq<Node>)
    requires Forest(shape) && n !in shape && Loose(shape, kids)
    ensures Forest(shape[n := kids]) && Loose(shape[n := kids], [n])
  {
    NewIsAcyclic(shape, n, shape[n := kids]);
  }

  lemma NewIsAcyclic(shape: Shape, n: Node, after: Shape)
    requires Closed(shape, shape.Keys) && Acyclic(shape) && n !in shape && n in after && n !in after[n]
    requires after == shape[n := after[n]]
    ensures Acyclic(after)
  {
    forall nodes | nodes <= after.Keys && nodes != {}
      ensures HasBottom(after, nodes)
    {
      if nodes == {n} {
        assert n in nodes && n in after;
      } else {
        assert nodes - {n} <= shape.Keys;
        NewBottom(shape, n, after, nodes);
      }
    }
  }

  lemma NewBottom(shape: Shape, n: Node, after: Shape, nodes: set<Node>)
    requires Closed(shape, shape.Keys) && n !in shape && forall p :: p in shape ==> p in after && after[p] == shape[p]
    requires HasBottom(shape, nodes - {n})
    ensures HasBottom(after, nodes)
  {
    var m :| m in nodes - {n} && m in shape && forall c :: c in shape[m] ==> c !in nodes - {n};
    assert m in nodes && m in after;
  }

  /** Moving loose nodes below dest keeps a forest a forest exactly when dest is not below them. */
  lemma GraftExactly(shape: Shape, dest: Node, ss: seq<Node>)
    requires Forest(shape) && dest in shape && Loose(shape, ss)
    ensures Forest(shape[dest := shape[dest] + ss]) <==> !Under(shape, ss, dest)
  {
    var after := shape[dest := shape[dest] + ss];
    if !Under(shape, ss, dest) {
      GraftIsAcyclic(shape, after, dest, ss);
    } else {
      GraftCycles(shape, dest, ss);
    }
  }

  lemma BottomBelow(shape: Shape, after: Shape, nodes: set<Node>, below: set<Node>)
    requires Closed(shape, below) && forall n :: n in shape && n in below ==> n in after && after[n] == shape[n]
    requires HasBottom(shape, nodes * below)
    ensures HasBottom(after, nodes)
  {
    var n :| n in nodes * below && n in shape && forall c :: c in shape[n] ==> c !in nodes * below;
    assert n in nodes && n in after;
  }

  lemma BottomAbove(shape: Shape, after: Shape, nodes: set<Node>, below: set<Node>)
    requires nodes * below == {} && HasBottom(shape, nodes)
    requires forall n, c :: n in shape && n in after && c in after[n] ==> c in shape[n] || c in below
    requires nodes <= after.Keys
    ensures HasBottom(after, nodes)
  {
    var n :| n in nodes && n in shape && forall c :: c in shape[n] ==> c !in nodes;
    forall c | c in after[n]
      ensures c !in nodes
    {
      assert c in nodes * below <==> c in nodes && c in below;
    }
  }

  lemma GraftIsAcyclic(shape: Shape, after: Shape, dest: Node, ss: seq<Node>)
    requires Acyclic(shape) && dest in shape && !Under(shape, ss, dest)
    requires after == shape[dest := shape[dest] + ss]
    ensures Acyclic(after)
  {
    var below :| below <= shape.Keys && Closed(shape, below) && Holds(below, ss) && dest !in below;
    forall nodes | nodes <= after.Keys && nodes != {}
      ensures HasBottom(after, nodes)
    {
      if nodes * below != {} {
        assert nodes * below <= shape.Keys;
        BottomBelow(shape, after, nodes, below);
      } else {
        assert HasBottom(shape, nodes);
        BottomAbove(shape, after, nodes, below);
      }
    }
  }

  lemma GraftCycles(shape: Shape, dest: Node, ss: seq<Node>)
    requires Forest(shape) && dest in shape && Loose(shape, ss) && Under(shape, ss, dest)
    ensures !Acyclic(shape[dest := shape[dest] + ss])
  {
    var after := shape[dest := shape[dest] + ss];
    var above := set n | n in shape && Under(shape, [n], dest);
    forall n | n in above
      ensures exists c :: c in after[n] && c in above
    {
      StepAbove(shape, dest, ss, above, n);
    }
    assert dest in above;
    NeverDown(after, above);
  }

  lemma NeverDown(shape: Shape, nodes: set<Node>)
    requires nodes <= shape.Keys && nodes != {}
    requires forall n :: n in nodes ==> exists c :: c in shape[n] && c in nodes
    ensures !Acyclic(shape)
  {
    assert !HasBottom(shape, nodes);
  }

  lemma StepAbove(shape: Shape, dest: Node, ss: seq<Node>, above: set<Node>, n: Node)
    requires Closed(shape, shape.Keys) && dest in shape && Holds(shape.Keys, ss) && Under(shape, ss, dest)
    requires n in above && above == set n | n in shape && Under(shape, [n], dest)
    ensures exists c :: c in shape[dest := shape[dest] + ss][n] && c in above
  {
    if n == dest {
      FirstStep(shape, dest, ss, above);
    } else {
      ChildrenAbove(shape, dest, n);
      assert Holds(shape.Keys, shape[n]);
      FirstStep(shape, dest, shape[n], above);
    }
  }

  lemma ChildrenAbove(shape: Shape, dest: Node, n: Node)
    requires n in shape && n != dest && Under(shape, [n], dest)
    ensures Under(shape, shape[n], dest)
  {
    forall nodes | nodes <= shape.Keys && Closed(shape, nodes) && Holds(nodes, shape[n])
      ensures dest in nodes
    {
      assert Closed(shape, nodes + {n});
    }
  }

  /** Whatever dest lies under, one of these nodes is above it. */
  lemma FirstStep(shape: Shape, dest: Node, tops: seq<Node>, above: set<Node>)
    requires Closed(shape, shape.Keys) && dest in shape && Holds(shape.Keys, tops)
    requires Under(shape, tops, dest) && above == set n | n in shape && Under(shape, [n], dest)
    ensures exists t :: t in tops && t in above
  {
    var others := shape.Keys - above;
    forall p, c | p in others && c in shape[p]
      ensures c in others
    {
      var below :| below <= shape.Keys && Closed(shape, below) && Holds(below, [p]) && dest !in below;
      assert p in [p];
    }
    assert dest in [dest] && dest in above;
  }

  // ----- operations -----

  function Last(shape: Shape, p: Node?): (r: set<Node>)
  {
    if p != null && p in shape && shape[p] != [] then {shape[p][|shape[p]| - 1]} else {}
  }

  function Given(p: Node?): set<Node> {
    if p == null then {} else {p}
  }

  /** The loop of appendSubtree and detachSubtree: walk the chain and set every parent. */
  method SetParents(src: Node, parent: Node?, ghost ss: seq<Node>) returns (last: Node)
    requires Chain(ss) && ss != [] && ss[0] == src
    modifies ss`Parent
    ensures last == ss[|ss| - 1] && forall s :: s in ss ==> s.Parent == parent
  {
    last := src;
    var node: Node? := src;
    ghost var n := 0;
    while node != null
      invariant 0 <= n <= |ss|
      invariant node == if n < |ss| then ss[n] else null
      invariant last == if n == 0 then src else ss[n - 1]
      invariant forall i :: 0 <= i < n ==> ss[i].Parent == parent
      decreases |ss| - n
    {
      node.Parent := parent;
      last := node;
      if n + 1 < |ss| {
        assert ss[n].NextSibling == ss[n + 1];
      }
      node := node.NextSibling;
      n := n + 1;
    }
  }

  lemma ChildrenConcat(p: Node, cs: seq<Node>, ss: seq<Node>)
    requires cs != [] && ss != [] && Chain(cs + ss) && p.FirstChild == cs[0] && p.LastChild == ss[|ss| - 1]
    requires forall c :: c in cs ==> c.Parent == p || (c.isText && c.Parent == null)
    requires forall s :: s in ss ==> s.Parent == p
    ensures Children(p, cs + ss)
  {
  }

  method LinkFirst(dest: Node, src: Node, lastSibling: Node, ghost ss: seq<Node>)
    requires Chain(ss) && ss != [] && ss[0] == src && ss[|ss| - 1] == lastSibling
    requires forall s :: s in ss ==> s.Parent == dest
    modifies dest`FirstChild, dest`LastChild
    ensures Children(dest, ss)
  {
    dest.FirstChild := src;
    dest.LastChild := lastSibling;
  }

  method LinkBehind(dest: Node, src: Node, lastSibling: Node, ghost cs: seq<Node>, ghost ss: seq<Node>)
    requires Children(dest, cs) && Chain(ss) && cs != [] && ss != [] && ss[0] == src && ss[|ss| - 1] == lastSibling
    requires Disjoint(cs, ss) && forall s :: s in ss ==> s.Parent == dest
    modifies dest`FirstChild, dest`LastChild, src`PrevSibling, {cs[|cs| - 1]}`NextSibling
    ensures Children(dest, cs + ss)
  {
    assert dest.LastChild in cs && src in ss;
    dest.LastChild.NextSibling := src;
    src.PrevSibling := dest.LastChild;
    dest.LastChild := lastSibling;
    ChainConcat(cs, ss);
    ChildrenConcat(dest, cs, ss);
  }

  /** appendSubtree: the whole chain ss goes behind the children of dest, with all that is below it. */
  method AppendSubtree(dest: Node?, src: Node?, ghost shape: Shape, ghost ss: seq<Node>) returns (ok: bool)
    requires Document(shape) && (dest != null ==> dest in shape)
    requires src == null <==> ss == []
    requires src != null ==> Chain(ss) && ss[0] == src && Loose(shape, ss)
    requires dest != null && src != null ==> !Under(shape, ss, dest)
    modifies (if dest == null then [] else ss)`Parent, Given(if dest == null then null else src)`PrevSibling
    modifies Given(if src == null then null else dest)`FirstChild, Given(if src == null then null else dest)`LastChild
    modifies Last(shape, if src == null then null else dest)`NextSibling
    ensures ok <==> dest != null && src != null
    ensures Document(if dest == null then shape else shape[dest := shape[dest] + ss])
  {
    if dest == null || src == null {
      assert dest != null ==> shape[dest] + ss == shape[dest] && shape[dest := shape[dest]] == shape;
      return false;
    }
    GraftExactly(shape, dest, ss);
    LinkSubtree(dest, src, shape, ss, shape[dest := shape[dest] + ss]);
    return true;
  }

  method LinkSubtree(dest: Node, src: Node, ghost shape: Shape, ghost ss: seq<Node>, ghost after: Shape)
    requires Closed(shape, shape.Keys) && Single(shape) && Linked(shape) && Closed(after, after.Keys) && dest in shape
    requires Chain(ss) && ss != [] && ss[0] == src && Loose(shape, ss) && dest !in ss
    requires after == shape[dest := shape[dest] + ss]
    modifies ss`Parent, src`PrevSibling, dest`FirstChild, dest`LastChild, Last(shape, dest)`NextSibling
    ensures Linked(after)
  {
    ghost var nodes := Nodes(ss) + Last(shape, dest);
    assert src in nodes;
    ListsApart(shape, dest, ss);
    LinkChain(dest, src, shape[dest], ss, shape[dest] + ss);
    forall q | q in shape && q != dest
      ensures Children(q, shape[q])
    {
      assert old(Children(q, shape[q])) && Apart(shape[q], nodes);
    }
  }

  method LinkChain(dest: Node, src: Node, ghost cs: seq<Node>, ghost ss: seq<Node>, ghost all: seq<Node>)
    requires all == cs + ss && Children(dest, cs) && Chain(ss) && ss != [] && ss[0] == src && Disjoint(cs, ss)
    modifies ss`Parent, src`PrevSibling, dest`FirstChild, dest`LastChild
    modifies (if cs == [] then {} else {cs[|cs| - 1]})`NextSibling
    ensures Children(dest, all) && forall s :: s in ss ==> s.Parent == dest
  {
    var lastSibling := SetParents(src, dest, ss);
    if dest.LastChild == null {
      assert all == ss;
      LinkFirst(dest, src, lastSibling, all);
    } else {
      LinkBehind(dest, src, lastSibling, cs, ss);
    }
  }

  function Nodes(cs: seq<Node>): set<Node> {
    set c | c in cs
  }

  predicate Apart(cs: seq<Node>, nodes: set<Node>) {
    forall c :: c in cs ==> c !in nodes
  }

  lemma ListsApart(shape: Shape, p: Node, ss: seq<Node>)
    requires Closed(shape, shape.Keys) && Single(shape) && Loose(shape, ss) && p in shape
    ensures forall q :: q in shape && q != p ==> Apart(shape[q], Nodes(ss) + Nodes(shape[p]))
    ensures forall q :: q in shape && q != p ==> Apart(shape[q], Nodes(ss) + Last(shape, p))
  {
    forall q | q in shape && q != p
      ensures Apart(shape[q], Nodes(ss) + Nodes(shape[p])) && Apart(shape[q], Nodes(ss) + Last(shape, p))
    {
      assert Disjoint(shape[q], shape[p]) && Last(shape, p) <= Nodes(shape[p]);
    }
  }

  /** detachSubtree: all children leave as one chain, each with all that is below it. */
  method DetachSubtree(parent: Node, ghost shape: Shape) returns (child: Node?)
    requires Document(shape) && parent in shape
    modifies parent`FirstChild, parent`LastChild, shape[parent]`Parent
    ensures Document(shape[parent := []]) && Loose(shape[parent := []], shape[parent]) && Chain(shape[parent])
    ensures child == if shape[parent] == [] then null else shape[parent][0]
  {
    ListsApart(shape, parent, []);
    FewerChildren(shape, parent, []);
    child := CutAll(parent, shape[parent], Nodes(shape[parent]), shape - {parent});
  }

  method CutAll(parent: Node, ghost cs: seq<Node>, ghost nodes: set<Node>, ghost others: Shape) returns (child: Node?)
    requires Children(parent, cs) && nodes == Nodes(cs)
    requires forall q :: q in others ==> q != parent && Apart(others[q], nodes) && Children(q, others[q])
    modifies parent`FirstChild, parent`LastChild, cs`Parent
    ensures Children(parent, []) && forall c :: c in cs ==> c.Parent == null
    ensures child == if cs == [] then null else cs[0]
    ensures forall q :: q in others ==> Children(q, others[q])
  {
    child := parent.FirstChild;
    if child != null {
      parent.FirstChild := null;
      parent.LastChild := null;
    } else {
      return null;
    }
    var _ := SetParents(child, null, cs);
    forall q | q in others
      ensures Children(q, others[q])
    {
      assert old(Children(q, others[q])) && Apart(others[q], nodes);
    }
  }

  function Without(cs: seq<Node>, i: nat): seq<Node>
    requires i < |cs|
  {
    cs[..i] + cs[i + 1..]
  }

  lemma InWithout(cs: seq<Node>, i: nat)
    requires i < |cs|
    ensures forall c :: c in cs && c != cs[i] ==> c in Without(cs, i)
  {
    forall c | c in cs && c != cs[i]
      ensures c in Without(cs, i)
    {
      var j :| 0 <= j < |cs| && cs[j] == c;
      assert Without(cs, i)[if j < i then j else j - 1] == c;
    }
  }

  /** The neighbours of a node that is about to be cut out. */
  function Neighbours(cs: seq<Node>, i: nat): set<Node>
    requires i < |cs|
  {
    (if i > 0 then {cs[i - 1]} else {}) + (if i + 1 < |cs| then {cs[i + 1]} else {})
  }

  /** cs without its i-th node is linked, but for that node. */
  ghost predicate Spliced(p: Node, cs: seq<Node>, i: nat)
    requires i < |cs|
    reads p, cs
  {
    && (forall j :: 0 <= j < |cs| - 1 && j != i && j + 1 != i ==> cs[j].NextSibling == cs[j + 1])
    && (forall j :: 0 < j < |cs| && j != i && j - 1 != i ==> cs[j].PrevSibling == cs[j - 1])
    && (i > 0 ==> cs[0].PrevSibling == null && cs[i - 1].NextSibling == if i + 1 < |cs| then cs[i + 1] else null)
    && (i + 1 < |cs| ==> cs[|cs| - 1].NextSibling == null && cs[i + 1].PrevSibling == if i > 0 then cs[i - 1] else null)
    && p.FirstChild == (if i > 0 then cs[0] else if i + 1 < |cs| then cs[1] else null)
    && p.LastChild == (if i + 1 < |cs| then cs[|cs| - 1] else if i > 0 then cs[i - 1] else null)
  }

  lemma SplicedChildren(p: Node, cs: seq<Node>, i: nat)
    requires i < |cs| && Distinct(cs) && Spliced(p, cs, i)
    requires forall j :: 0 <= j < |cs| && j != i ==> cs[j].Parent == p || (cs[j].isText && cs[j].Parent == null)
    ensures Children(p, Without(cs, i))
  {
    ghost var rest := Without(cs, i);
    assert forall j :: 0 <= j < |rest| ==> rest[j] == if j < i then cs[j] else cs[j + 1];
  }

  /** The relinking of detachNode, for the i-th child of a parent. */
  method Splice(node: Node, parent: Node, ghost cs: seq<Node>, ghost i: nat)
    requires Children(parent, cs) && i < |cs| && cs[i] == node
    modifies parent`FirstChild, parent`LastChild, Neighbours(cs, i)`NextSibling, Neighbours(cs, i)`PrevSibling
    ensures Spliced(parent, cs, i)
  {
    if i + 1 < |cs| {
      assert cs[i].NextSibling == cs[i + 1];
    }
    if i > 0 {
      assert cs[i].PrevSibling == cs[i - 1];
    }
    if parent.FirstChild == node && parent.LastChild == node {
      parent.FirstChild := null;
      parent.LastChild := null;
    } else if parent.FirstChild == node {
      parent.FirstChild := node.NextSibling;
      node.NextSibling.PrevSibling := null;
    } else {
      node.PrevSibling.NextSibling := node.NextSibling;
      if node.NextSibling != null {
        node.NextSibling.PrevSibling := node.PrevSibling;
      } else {
        parent.LastChild := node.PrevSibling;
      }
    }
  }

  method CutChild(node: Node, ghost cs: seq<Node>, ghost i: nat)
    requires node.Parent != null && Children(node.Parent, cs) && i < |cs| && cs[i] == node
    modifies node`Parent, node`PrevSibling, node`NextSibling
    modifies node.Parent`FirstChild, node.Parent`LastChild, Neighbours(cs, i)`NextSibling, Neighbours(cs, i)`PrevSibling
    ensures Children(old(node.Parent), Without(cs, i))
    ensures node.Parent == null && Chain([node])
  {
    var parent := node.Parent;
    Splice(node, parent, cs, i);
    node.Parent := null;
    node.PrevSibling := null;
    node.NextSibling := null;
    SplicedChildren(parent, cs, i);
  }

  ghost predicate ChildAt(shape: Shape, p: Node, i: nat, node: Node) {
    p in shape && i < |shape[p]| && shape[p][i] == node
  }

  method CutFrom(node: Node, ghost p: Node, ghost i: nat, ghost shape: Shape, ghost after: Shape)
    requires Closed(shape, shape.Keys) && Single(shape) && Linked(shape) && Closed(after, after.Keys)
    requires node.Parent == p && ChildAt(shape, p, i, node) && after == shape[p := Without(shape[p], i)]
    modifies node`Parent, p`FirstChild, p`LastChild, shape[p]`PrevSibling, shape[p]`NextSibling
    ensures Linked(after) && node.Parent == null && Chain([node])
  {
    ListsApart(shape, p, []);
    OtherParents(shape, p, i, node);
    CutWithin(node, p, shape[p], i, after[p], Nodes(shape[p]), shape - {p});
  }

  lemma OtherParents(shape: Shape, p: Node, i: nat, node: Node)
    requires Closed(shape, shape.Keys) && Linked(shape) && ChildAt(shape, p, i, node)
    ensures var after := shape[p := Without(shape[p], i)];
            forall n :: n in shape && n != node && n.Parent != null ==> n.Parent in after && n in after[n.Parent]
  {
    InWithout(shape[p], i);
  }

  /** The cut touches no other list. */
  method CutWithin(node: Node, ghost p: Node, ghost cs: seq<Node>, ghost i: nat, ghost kids: seq<Node>,
                   ghost nodes: set<Node>, ghost others: Shape)
    requires node.Parent == p && Children(p, cs) && i < |cs| && cs[i] == node
    requires kids == Without(cs, i) && nodes == Nodes(cs)
    requires forall q :: q in others ==> q != p && Apart(others[q], nodes) && Children(q, others[q])
    modifies node`Parent, p`FirstChild, p`LastChild, nodes`PrevSibling, nodes`NextSibling
    ensures Children(p, kids) && node.Parent == null && Chain([node])
    ensures forall q :: q in others ==> Children(q, others[q])
  {
    assert node in nodes && Neighbours(cs, i) <= nodes;
    CutChild(node, cs, i);
    forall q | q in others
      ensures Children(q, others[q])
    {
      assert old(Children(q, others[q])) && Apart(others[q], nodes);
    }
  }

  lemma CutIsLoose(shape: Shape, p: Node, i: nat, node: Node)
    requires Forest(shape) && ChildAt(shape, p, i, node) && Distinct(shape[p])
    ensures Forest(shape[p := Without(shape[p], i)]) && Loose(shape[p := Without(shape[p], i)], [node])
  {
    FewerChildren(shape, p, Without(shape[p], i));
    forall q | q in shape && q != p
      ensures node !in shape[q]
    {
      assert Disjoint(shape[q], shape[p]);
    }
  }

  /** detachNode: exactly that node leaves its list, with all that is below it. */
  method DetachNode(node: Node?, ghost shape: Shape, ghost p: Node, ghost i: nat) returns (ok: bool)
    requires Document(shape) && (node != null ==> node in shape)
    requires node != null && node.Parent != null ==> node.Parent == p && ChildAt(shape, p, i, node)
    modifies Moving(node)`Parent
    modifies (if Moving(node) == {} then {} else {p})`FirstChild, (if Moving(node) == {} then {} else {p})`LastChild
    modifies (if Moving(node) == {} then [] else shape[p])`PrevSibling
    modifies (if Moving(node) == {} then [] else shape[p])`NextSibling
    ensures ok <==> node != null
    ensures Document(if old(Moving(node)) == {} then shape else shape[p := Without(shape[p], i)])
    ensures node != null && old(node.Parent) != null ==>
              node.Parent == null && Chain([node]) && Loose(shape[p := Without(shape[p], i)], [node])
  {
    if node == null {
      return false;
    }
    if node.Parent == null {
      return true;
    }
    CutIsLoose(shape, p, i, node);
    CutFrom(node, p, i, shape, shape[p := Without(shape[p], i)]);
    return true;
  }

  /** The node that detachNode is about to cut out, if it has a parent. */
  function Moving(node: Node?): set<Node>
    reads Given(node)
  {
    if node == null || node.Parent == null then {} else {node}
  }

  lemma NewInDocument(shape: Shape, n: Node, kids: seq<Node>) returns (after: Shape)
    requires Document(shape) && n !in shape && Loose(shape, kids) && Children(n, kids) && n.Parent == null
    ensures Document(after) && Loose(after, [n]) && after == shape[n := kids]
  {
    NewNode(shape, n, kids);
    after := shape[n := kids];
  }

  method NewLeaf(name: string, value: string) returns (node: Node, textNode: Node?)
    ensures fresh(node) && node.Data == name && !node.isText && !node.leafList && node.Parent == null && Chain([node])
    ensures textNode == null <==> value == ""
    ensures textNode == null ==> Children(node, [])
    ensures textNode != null ==> fresh(textNode) && textNode.isText && textNode.Data == value && textNode.Parent == null
                                 && textNode != node && Children(node, [textNode]) && Children(textNode, [])
  {
    node := new Node(name, false);
    textNode := null;
    if value != "" {
      textNode := new Node(value, true);
      node.FirstChild := textNode;
      node.LastChild := textNode;
    }
  }

  /** addYangNode, up to the parent: the node, and the text node that holds its value. */
  method NewYangNode(name: string, value: string, ghost shape: Shape) returns (node: Node, ghost after: Shape)
    requires Document(shape)
    ensures fresh(node) && node.Data == name && !node.isText && !node.leafList && node.Parent == null && Chain([node])
    ensures Document(after) && Loose(after, [node]) && Planted(shape, after, node, value)
  {
    var textNode;
    node, textNode := NewLeaf(name, value);
    if textNode != null {
      after := NewInDocument(shape, textNode, []);
      after := NewInDocument(after, node, [textNode]);
    } else {
      after := NewInDocument(shape, node, []);
    }
  }

  /** node is new, over a text node of its own when there is a value. */
  ghost predicate Planted(shape: Shape, after: Shape, node: Node, value: string)
    reads node, node.FirstChild
  {
    var text := node.FirstChild;
    if value == "" then after == shape[node := []]
    else
      && text != null && text.isText && text.Data == value && text.Parent == null
      && text !in shape && after == shape[text := []][node := [text]]
  }

  /** addYangNode: the new node becomes the last child of the parent, if there is one. */
  method AddYangNode(parent: Node?, name: string, value: string, ghost shape: Shape)
    returns (node: Node, ghost planted: Shape)
    requires Document(shape) && (parent != null ==> parent in shape)
    modifies Given(parent)`FirstChild, Given(parent)`LastChild, Last(shape, parent)`NextSibling
    ensures fresh(node) && node.Data == name && !node.isText && !node.leafList && Planted(shape, planted, node, value)
    ensures Document(if parent == null then planted else planted[parent := shape[parent] + [node]])
    ensures parent == null ==> Loose(planted, [node]) && Chain([node])
  {
    node, planted := NewYangNode(name, value, shape);
    if parent == null {
      return;
    }
    NothingUnderNew(shape, planted, node, parent);
    GraftExactly(planted, parent, [node]);
    LinkNew(parent, node, planted, planted[parent := shape[parent] + [node]]);
  }

  lemma NothingUnderNew(shape: Shape, planted: Shape, node: Node, p: Node)
    requires Closed(shape, shape.Keys) && p in shape && node !in shape && node in planted
    requires planted == shape[node := planted[node]]
             || exists text :: text !in shape && planted == shape[text := []][node := [text]]
    requires forall c :: c in planted[node] ==> c in planted && c !in shape && planted[c] == []
    ensures !Under(planted, [node], p)
  {
    var below := {node} + Nodes(planted[node]);
    assert Closed(planted, below) && Holds(below, [node]);
  }

  method LinkNew(parent: Node, node: Node, ghost shape: Shape, ghost after: Shape)
    requires Closed(shape, shape.Keys) && Single(shape) && Linked(shape) && Closed(after, after.Keys) && parent in shape
    requires Chain([node]) && Loose(shape, [node]) && node != parent && after == shape[parent := shape[parent] + [node]]
    modifies node`Parent, node`PrevSibling, parent`FirstChild, parent`LastChild, Last(shape, parent)`NextSibling
    ensures Linked(after)
  {
    ghost var nodes := Nodes([node]) + Last(shape, parent);
    assert node in nodes;
    ListsApart(shape, parent, [node]);
    LinkNode(parent, node, shape[parent]);
    forall q | q in shape && q != parent
      ensures Children(q, shape[q])
    {
      assert old(Children(q, shape[q])) && Apart(shape[q], nodes);
    }
  }

  /** The end of addYangNode. */
  method LinkNode(parent: Node, node: Node, ghost cs: seq<Node>)
    requires Children(parent, cs) && Chain([node]) && node !in cs
    modifies node`Parent, node`PrevSibling, parent`FirstChild, parent`LastChild
    modifies (if cs == [] then {} else {cs[|cs| - 1]})`NextSibling
    ensures Children(parent, cs + [node]) && node.Parent == parent
  {
    node.Parent := parent;
    if parent.FirstChild == null {
      parent.FirstChild := node;
      parent.LastChild := node;
      assert cs + [node] == [node];
    } else {
      var tmp := parent.LastChild;
      assert tmp in cs;
      tmp.NextSibling := node;
      node.PrevSibling := tmp;
      parent.LastChild := node;
      ChainConcat(cs, [node]);
    }
  }

  // ----- removing children -----

  /** One turn of the loops below: the step to the next sibling, and the removal of this one. */
  method VisitChild(node: Node, remove: bool, ghost doc: Shape, ghost p: Node, ghost k: nat)
    returns (next: Node?, ghost gone: bool)
    requires Document(doc) && ChildAt(doc, p, k, node)
    modifies node`Parent, p`FirstChild, p`LastChild, doc[p]`PrevSibling, doc[p]`NextSibling
    ensures next == if k + 1 < |doc[p]| then doc[p][k + 1] else null
    ensures gone <==> remove && old(node.Parent) != null
    ensures Document(if gone then doc[p := Without(doc[p], k)] else doc)
  {
    assert Children(p, doc[p]);
    if k + 1 < |doc[p]| {
      assert doc[p][k].NextSibling == doc[p][k + 1];
    }
    next := node.NextSibling;
    gone := remove && node.Parent != null;
    if remove {
      var _ := DetachNode(node, doc, p, k);
    }
  }

  /** The children that are not cut, in order. */
  function Kept(cs: seq<Node>, cut: seq<bool>): seq<Node>
    requires |cut| == |cs|
  {
    if cs == [] then [] else (if cut[0] then [] else [cs[0]]) + Kept(cs[1..], cut[1..])
  }

  /** After n children: what is left, and how many of them have been passed. */
  function Visited(cs: seq<Node>, cut: seq<bool>, n: nat): (r: (seq<Node>, nat))
    requires n <= |cs| == |cut|
    ensures |r.0| == |cs| - n + r.1
    ensures forall c :: c in r.0 ==> c in cs
  {
    if n == 0 then (cs, 0)
    else
      var (now, k) := Visited(cs, cut, n - 1);
      if cut[n - 1] then (Without(now, k), k) else (now, k + 1)
  }

  lemma {:induction false} VisitedAre(cs: seq<Node>, cut: seq<bool>, n: nat)
    requires n <= |cs| == |cut|
    ensures var (now, k) := Visited(cs, cut, n);
            now[k..] == cs[n..] && Kept(cs, cut) == now[..k] + Kept(cs[n..], cut[n..])
  {
    if n == 0 {
      assert cs[0..] == cs && cut[0..] == cut;
    } else {
      VisitedAre(cs, cut, n - 1);
      var (now, k) := Visited(cs, cut, n - 1);
      SplitOff(now, k, cs, n - 1);
      CutAt(now, k);
      KeptNext(cs, cut, n - 1);
      var x, rest := now[..k], Kept(cs[n..], cut[n..]);
      if cut[n - 1] {
        assert [] + rest == rest;
      } else {
        assert x + ([now[k]] + rest) == (x + [now[k]]) + rest;
      }
    }
  }

  lemma KeptNext(cs: seq<Node>, cut: seq<bool>, n: nat)
    requires n < |cs| == |cut|
    ensures Kept(cs[n..], cut[n..]) == (if cut[n] then [] else [cs[n]]) + Kept(cs[n + 1..], cut[n + 1..])
  {
    assert cs[n..][1..] == cs[n + 1..] && cut[n..][1..] == cut[n + 1..];
  }

  lemma SplitOff(now: seq<Node>, k: nat, cs: seq<Node>, n: nat)
    requires k <= |now| && n < |cs| && now[k..] == cs[n..]
    ensures k < |now| && now[k] == cs[n] && now[k + 1..] == cs[n + 1..] && cs[n..][1..] == cs[n + 1..]
  {
    assert now[k..][0] == cs[n..][0];
    assert now[k..][1..] == cs[n..][1..];
  }

  lemma CutAt(s: seq<Node>, k: nat)
    requires k < |s|
    ensures s[..k + 1] == s[..k] + [s[k]]
    ensures Without(s, k)[..k] == s[..k] && Without(s, k)[k..] == s[k + 1..]
  {
  }

  /** Where the walk stands after n children. */
  lemma VisitedNext(cs: seq<Node>, cut: seq<bool>, n: nat)
    requires n <= |cs| == |cut|
    ensures var (now, k) := Visited(cs, cut, n);
            (n < |cs| ==> k < |now| && now[k] == cs[n]) && (n == |cs| ==> k == |now| && now == Kept(cs, cut))
  {
    VisitedAre(cs, cut, n);
    var (now, k) := Visited(cs, cut, n);
    if n < |cs| {
      assert now[k] == now[k..][0] == cs[n..][0];
    } else {
      assert now[..k] == now && cs[n..] == [];
    }
  }

  lemma VisitedStep(cs: seq<Node>, cut: seq<bool>, n: nat, now: seq<Node>, k: nat)
    requires n < |cs| == |cut| && Visited(cs, cut, n) == (now, k)
    ensures k < |now| && now[k] == cs[n]
    ensures n + 1 < |cs| <==> k + 1 < |now|
    ensures n + 1 < |cs| ==> now[k + 1] == cs[n + 1]
    ensures Visited(cs, cut, n + 1) == if cut[n] then (Without(now, k), k) else (now, k + 1)
  {
    VisitedNext(cs, cut, n);
    VisitedNext(cs, cut, n + 1);
  }

  /** getNodeName: leaf lists carry the suffix of their database field. */
  function NodeName(node: Node): string
    reads node`Data, node`leafList
  {
    if node.leafList then node.Data + "@" else node.Data
  }

  /** The children whose field is being deleted; a text node, without a parent, cannot be detached. */
  function FieldMarks(cs: seq<Node>, fields: set<string>): (cut: seq<bool>)
    reads cs
    ensures |cut| == |cs|
    ensures forall n :: 0 <= n < |cs| ==> (cut[n] <==> NodeName(cs[n]) in fields && cs[n].Parent != null)
  {
    seq(|cs|, n requires 0 <= n < |cs| reads cs => NodeName(cs[n]) in fields && cs[n].Parent != null)
  }

  /** A walk over children: the number visited, what the document is now, and the number passed. */
  datatype Walker = Walker(n: nat, doc: Shape, k: nat)

  ghost predicate Walk(shape: Shape, p: Node, cut: seq<bool>, w: Walker) {
    && p in shape && w.n <= |shape[p]| == |cut| && p in w.doc && w.doc == shape[p := w.doc[p]]
    && (w.doc[p], w.k) == Visited(shape[p], cut, w.n)
  }

  function NextWalker(w: Walker, p: Node, gone: bool): Walker
    requires p in w.doc && w.k < |w.doc[p]|
  {
    if gone then Walker(w.n + 1, w.doc[p := Without(w.doc[p], w.k)], w.k) else Walker(w.n + 1, w.doc, w.k + 1)
  }

  lemma WalkOn(shape: Shape, p: Node, cut: seq<bool>, w: Walker)
    requires Walk(shape, p, cut, w) && w.n < |cut|
    ensures w.k < |w.doc[p]| && w.doc[p][w.k] == shape[p][w.n]
    ensures w.n + 1 < |cut| <==> w.k + 1 < |w.doc[p]|
    ensures w.n + 1 < |cut| ==> w.doc[p][w.k + 1] == shape[p][w.n + 1]
    ensures Walk(shape, p, cut, NextWalker(w, p, cut[w.n]))
  {
    VisitedStep(shape[p], cut, w.n, w.doc[p], w.k);
  }

  lemma WalkEnds(shape: Shape, p: Node, cut: seq<bool>, w: Walker)
    requires Walk(shape, p, cut, w) && forall j :: w.n <= j < |cut| ==> !cut[j]
    ensures w.doc == shape[p := Kept(shape[p], cut)]
    decreases |cut| - w.n
  {
    if w.n < |cut| {
      WalkOn(shape, p, cut, w);
      WalkEnds(shape, p, cut, NextWalker(w, p, false));
    } else {
      VisitedNext(shape[p], cut, w.n);
    }
  }

  lemma WalkStarts(shape: Shape, p: Node, cut: seq<bool>, n: nat)
    requires p in shape && n <= |shape[p]| == |cut| && forall j :: 0 <= j < n ==> !cut[j]
    ensures Walk(shape, p, cut, Walker(n, shape, n))
  {
    if n > 0 {
      WalkStarts(shape, p, cut, n - 1);
    }
  }

  method VisitNext(node: Node, remove: bool, ghost shape: Shape, ghost p: Node, ghost cut: seq<bool>, ghost w: Walker,
                   ghost nodes: set<Node>)
    returns (next: Node?, ghost w': Walker)
    requires Document(w.doc) && Walk(shape, p, cut, w) && w.n < |cut| && shape[p][w.n] == node
    requires nodes == Nodes(shape[p]) && (cut[w.n] <==> remove && node.Parent != null)
    modifies node`Parent, p`FirstChild, p`LastChild, nodes`PrevSibling, nodes`NextSibling
    ensures Document(w'.doc) && Walk(shape, p, cut, w') && w'.n == w.n + 1
    ensures next == if w'.n < |cut| then shape[p][w'.n] else null
  {
    WalkOn(shape, p, cut, w);
    ghost var gone;
    next, gone := VisitChild(node, remove, w.doc, p, w.k);
    w' := NextWalker(w, p, gone);
  }

  /** deleteLeafNodes: removes the children whose field is being deleted, keeping the order. */
  method DeleteLeafNodes(topNode: Node, cfgData: set<string>, ghost shape: Shape)
    requires Document(shape) && topNode in shape
    modifies topNode`FirstChild, topNode`LastChild
    modifies Nodes(shape[topNode])`Parent, Nodes(shape[topNode])`PrevSibling, Nodes(shape[topNode])`NextSibling
    ensures Document(shape[topNode := Kept(shape[topNode], old(FieldMarks(shape[topNode], cfgData)))])
  {
    CutFields(topNode, cfgData, shape, FieldMarks(shape[topNode], cfgData));
  }

  /** The fields of the children still to be visited are marked. */
  ghost predicate Marked(cs: seq<Node>, from: nat, cut: seq<bool>, fields: set<string>)
    reads cs
  {
    |cut| == |cs| && forall j :: from <= j < |cs| ==> (cut[j] <==> NodeName(cs[j]) in fields && cs[j].Parent != null)
  }

  method VisitField(node: Node, cfgData: set<string>, ghost shape: Shape,
                    ghost p: Node, ghost cut: seq<bool>, ghost w: Walker,
                    ghost nodes: set<Node>)
    returns (next: Node?, ghost w': Walker)
    requires Document(w.doc) && Walk(shape, p, cut, w) && w.n < |cut| && shape[p][w.n] == node
    requires nodes == Nodes(shape[p]) && Distinct(shape[p]) && Marked(shape[p], w.n, cut, cfgData)
    modifies nodes`Parent, p`FirstChild, p`LastChild, nodes`PrevSibling, nodes`NextSibling
    ensures Document(w'.doc) && Walk(shape, p, cut, w') && w'.n == w.n + 1 && Marked(shape[p], w'.n, cut, cfgData)
    ensures next == if w'.n < |cut| then shape[p][w'.n] else null
  {
    var remove := NodeName(node) in cfgData;
    next, w' := VisitNext(node, remove, shape, p, cut, w, nodes);
    forall j | w'.n <= j < |cut|
      ensures cut[j] <==> NodeName(shape[p][j]) in cfgData && shape[p][j].Parent != null
    {
      assert shape[p][j] != node;
    }
  }

  method CutFields(topNode: Node, cfgData: set<string>, ghost shape: Shape, ghost cut: seq<bool>)
    requires Document(shape) && topNode in shape && Marked(shape[topNode], 0, cut, cfgData)
    modifies topNode`FirstChild, topNode`LastChild
    modifies Nodes(shape[topNode])`Parent, Nodes(shape[topNode])`PrevSibling, Nodes(shape[topNode])`NextSibling
    ensures Document(shape[topNode := Kept(shape[topNode], cut)])
  {
    ghost var cs, w := shape[topNode], Walker(0, shape, 0);
    assert Children(topNode, cs);
    var node := topNode.FirstChild;
    while node != null
      invariant Document(w.doc) && Walk(shape, topNode, cut, w) && Marked(cs, w.n, cut, cfgData)
      invariant node == if w.n < |cs| then cs[w.n] else null
      decreases |cs| - w.n
    {
      node, w := VisitField(node, cfgData, shape, topNode, cut, w, Nodes(cs));
    }
    WalkEnds(shape, topNode, cut, w);
  }

  /** The end of the run of equal names that starts at i. */
  function RunEnd(names: seq<string>, i: nat, name: string): (j: nat)
    requires i <= |names|
    ensures i <= j <= |names|
    ensures forall n :: i <= n < j ==> names[n] == name
    ensures j < |names| ==> names[j] != name
    decreases |names| - i
  {
    if i < |names| && names[i] == name then RunEnd(names, i + 1, name) else i
  }

  function Names(cs: seq<Node>): (names: seq<string>)
    reads cs
    ensures |names| == |cs| && forall n :: 0 <= n < |cs| ==> names[n] == cs[n].Data
  {
    seq(|cs|, n requires 0 <= n < |cs| reads cs => cs[n].Data)
  }

  /** The siblings of one name that start at the i-th child. */
  function RunMarks(cs: seq<Node>, i: nat, name: string): (cut: seq<bool>)
    requires i <= |cs|
    reads cs
    ensures |cut| == |cs|
    ensures forall n :: 0 <= n < |cs| ==> (cut[n] <==> i <= n < RunEnd(Names(cs), i, name) && cs[n].Parent != null)
  {
    var end := RunEnd(Names(cs), i, name);
    seq(|cs|, n requires 0 <= n < |cs| reads cs => i <= n < end && cs[n].Parent != null)
  }

  /** deleteDestLeafList: removes the run of equally named siblings that starts at dest. */
  method DeleteDestLeafList(dest: Node, ghost shape: Shape, ghost p: Node, ghost i: nat)
    requires Document(shape) && ChildAt(shape, p, i, dest)
    modifies p`FirstChild, p`LastChild
    modifies Nodes(shape[p])`Parent, Nodes(shape[p])`PrevSibling, Nodes(shape[p])`NextSibling
    ensures Document(shape[p := Kept(shape[p], old(RunMarks(shape[p], i, dest.Data)))])
  {
    ghost var end := RunEnd(Names(shape[p]), i, dest.Data);
    CutRun(dest, shape, p, i, end, RunMarks(shape[p], i, dest.Data));
  }

  /** The rest of the run is marked. */
  ghost predicate RunMarked(cs: seq<Node>, from: nat, end: nat, cut: seq<bool>, name: string)
    reads cs
  {
    && |cut| == |cs| && from <= end <= |cs|
    && (forall j :: from <= j < |cs| ==> (cut[j] <==> j < end && cs[j].Parent != null))
    && (forall j :: from <= j < end ==> cs[j].Data == name)
    && (end < |cs| ==> cs[end].Data != name)
  }

  method VisitRun(node: Node, name: string, ghost shape: Shape, ghost p: Node, ghost cut: seq<bool>, ghost w: Walker,
                  ghost nodes: set<Node>, ghost end: nat)
    returns (next: Node?, ghost w': Walker)
    requires Document(w.doc) && Walk(shape, p, cut, w) && w.n < |cut| && shape[p][w.n] == node && node.Data == name
    requires nodes == Nodes(shape[p]) && Distinct(shape[p]) && RunMarked(shape[p], w.n, end, cut, name)
    modifies nodes`Parent, p`FirstChild, p`LastChild, nodes`PrevSibling, nodes`NextSibling
    ensures Document(w'.doc) && Walk(shape, p, cut, w') && w'.n == w.n + 1 && RunMarked(shape[p], w'.n, end, cut, name)
    ensures next == if w'.n < |cut| then shape[p][w'.n] else null
  {
    next, w' := VisitNext(node, true, shape, p, cut, w, nodes);
  }

  method CutRun(dest: Node, ghost shape: Shape, ghost p: Node, ghost i: nat, ghost end: nat, ghost cut: seq<bool>)
    requires Document(shape) && ChildAt(shape, p, i, dest) && RunMarked(shape[p], i, end, cut, dest.Data)
    requires forall j :: 0 <= j < i ==> !cut[j]
    modifies p`FirstChild, p`LastChild
    modifies Nodes(shape[p])`Parent, Nodes(shape[p])`PrevSibling, Nodes(shape[p])`NextSibling
    ensures Document(shape[p := Kept(shape[p], cut)])
  {
    ghost var cs, w := shape[p], Walker(i, shape, i);
    assert Children(p, cs);
    WalkStarts(shape, p, cut, i);
    var leafListName := dest.Data;
    var node: Node? := dest;
    while node != null && node.Data == leafListName
      invariant Document(w.doc) && Walk(shape, p, cut, w) && RunMarked(cs, w.n, end, cut, leafListName)
      invariant node == if w.n < |cs| then cs[w.n] else null
      decreases |cs| - w.n
    {
      node, w := VisitRun(node, leafListName, shape, p, cut, w, Nodes(cs), end);
    }
    WalkEnds(shape, p, cut, w);
  }

  /** When a single run is cut, the children before and after it are left. */
  lemma {:induction false} KeptAroundRun(cs: seq<Node>, cut: seq<bool>, i: nat, j: nat)
    requires i <= j <= |cs| == |cut| && forall n :: 0 <= n < |cut| ==> (cut[n] <==> i <= n < j)
    ensures Kept(cs, cut) == cs[..i] + cs[j..]
  {
    if i > 0 {
      KeptAroundRun(cs[1..], cut[1..], i - 1, j - 1);
      assert cs[1..][..i - 1] == cs[1..i] && cs[1..][j - 1..] == cs[j..];
      assert cs[..i] == [cs[0]] + cs[1..i];
    } else if j > 0 {
      KeptAroundRun(cs[1..], cut[1..], 0, j - 1);
      assert cs[1..][j - 1..] == cs[j..];
    } else if cs != [] {
      KeptAroundRun(cs[1..], cut[1..], 0, 0);
      assert [cs[0]] + cs[1..] == cs;
    }
  }

  // ----- moving nodes between lists, as the merge does -----

  lemma UnderFewer(shape: Shape, p: Node, kids: seq<Node>, tops: seq<Node>, d: Node)
    requires p in shape && (forall c :: c in kids ==> c in shape[p]) && !Under(shape, tops, d)
    ensures !Under(shape[p := kids], tops, d)
  {
    var below :| below <= shape.Keys && Closed(shape, below) && Holds(below, tops) && d !in below;
    assert Closed(shape[p := kids], below);
  }

  /** A node becomes the last child of another, with all that is below it; nothing else moves. */
  method MoveNode(node: Node, dest: Node, ghost shape: Shape, ghost p: Node, ghost i: nat)
    requires Document(shape) && ChildAt(shape, p, i, node) && node.Parent != null
    requires dest in shape && !Under(shape, [node], dest)
    modifies node`Parent, p`FirstChild, p`LastChild, dest`FirstChild, dest`LastChild
    modifies shape[p]`PrevSibling, shape[p]`NextSibling, Last(shape, dest)`NextSibling
    ensures var cut := shape[p := Without(shape[p], i)];
            Document(cut[dest := cut[dest] + [node]])
  {
    UnderFewer(shape, p, Without(shape[p], i), [node], dest);
    assert Children(p, shape[p]);
    var _ := DetachNode(node, shape, p, i);
    ghost var cut := shape[p := Without(shape[p], i)];
    assert Last(cut, dest) <= Last(shape, dest) + Nodes(shape[p]);
    var _ := AppendSubtree(dest, node, cut, [node]);
  }

  /** All children of one node go behind the children of another, with all that is below them. */
  method MoveSubtree(source: Node, dest: Node, ghost shape: Shape)
    requires Document(shape) && source in shape && dest in shape && !Under(shape, shape[source], dest)
    modifies source`FirstChild, source`LastChild, dest`FirstChild, dest`LastChild
    modifies shape[source]`Parent, shape[source]`PrevSibling, Last(shape, dest)`NextSibling
    ensures var cut := shape[source := []];
            Document(cut[dest := cut[dest] + shape[source]])
  {
    UnderFewer(shape, source, [], shape[source], dest);
    var subTree := DetachSubtree(source, shape);
    ghost var cut := shape[source := []];
    if subTree != null {
      var _ := AppendSubtree(dest, subTree, cut, shape[source]);
    } else {
      assert cut[dest] + shape[source] == cut[dest] && cut[dest := cut[dest]] == cut;
    }
  }
}
