/**
  Removal from nodes in memory: the methods do to the nodes what `Removes` does to values,
  and free exactly the nodes that leave the tree.
 */
module Removal {
  import opened Params
  import opened Rects
  import opened Trees
  import opened Nodes
  import opened Insertion
  import I = Inserts
  import R = Removes

  /** The linked list of nodes whose branches wait for re-insertion. */
  class ListNode {
    var m_next: ListNode?
    var m_node: Node
    ghost var nodes: seq<Node>
    ghost var cells: set<object>

    ghost predicate Valid()
      reads this, cells
      decreases cells
      ensures Valid() ==> this in cells
    {
      && this in cells
      && if m_next == null then nodes == [m_node] && cells == {this}
         else
           && m_next in cells && m_next.cells <= cells && this !in m_next.cells && m_next.Valid()
           && nodes == [m_node] + m_next.nodes && cells == {this} + m_next.cells
    }

    constructor (node: Node, next: ListNode?)
      requires next != null ==> next.Valid()
      ensures Valid() && m_node == node && m_next == next
      ensures nodes == [node] + NodesOf(next) && cells == {this} + CellsOf(next)
    {
      m_node, m_next := node, next;
      nodes := [node] + NodesOf(next);
      cells := {this} + CellsOf(next);
    }
  }

  ghost function NodesOf(l: ListNode?): seq<Node>
    reads l
  {
    if l == null then [] else l.nodes
  }

  ghost function CellsOf(l: ListNode?): set<object>
    reads l
  {
    if l == null then {} else l.cells
  }

  ghost predicate ListOk(l: ListNode?)
    reads l, CellsOf(l)
  {
    l != null ==> l.Valid()
  }

  /** ReInsert: a node goes to the front of the list. */
  method ReInsert(mem: Memory, n: Node, l: ListNode?) returns (l': ListNode)
    requires ListOk(l) && mem !in CellsOf(l)
    modifies mem
    ensures l'.Valid() && fresh(l') && NodesOf(l') == [n] + NodesOf(l) && CellsOf(l') == {l'} + CellsOf(l)
    ensures mem.live == old(mem.live) + {l'}
  {
    l' := new ListNode(n, l);
    mem.live := mem.live + {l'};
  }

  // ---------------------------------------------------------------- DisconnectBranch

  lemma DisconnectForest(items: seq<Item>, bs: seq<Branch>, k: nat, level: int)
    requires k < |bs| == |items|
    requires ForestOk(Rest(bs, k), level) && Mirrors(Rest(items, k), Rest(bs, k))
    ensures ForestOk(R.Disconnect(bs, k), level) && Mirrors(R.Disconnect(items, k), R.Disconnect(bs, k))
    ensures Footprint(R.Disconnect(bs, k)) == Footprint(Rest(bs, k))
    ensures Kids(R.Disconnect(bs, k)) <= Footprint(R.Disconnect(bs, k))
  {
    hide BranchOk, ItemOf, Owned, Footprint, Kids;
    var rest, ritems, out, oitems := Rest(bs, k), Rest(items, k), R.Disconnect(bs, k), R.Disconnect(items, k);
    var n := |rest|;
    forall i | 0 <= i < n
      ensures var j := if i == k then n - 1 else if i < k then i else i - 1;
        out[i] == rest[j] && oitems[i] == ritems[j]
    {
    }
    forall i | 0 <= i < n
      ensures BranchOk(out[i], level)
      ensures oitems[i] == ItemOf(out[i])
    {
      var j := if i == k then n - 1 else if i < k then i else i - 1;
      assert out[i] == rest[j] && oitems[i] == ritems[j];
    }
    forall i, j | 0 <= i < j < n
      ensures Owned(out[i]) !! Owned(out[j])
    {
      var i' := if i == k then n - 1 else if i < k then i else i - 1;
      var j' := if j == k then n - 1 else if j < k then j else j - 1;
      assert out[i] == rest[i'] && out[j] == rest[j'] && i' != j';
      assert Owned(rest[i']) !! Owned(rest[j']);
    }
    SameFootprint(rest, out, k);
    KidsOwned(out, level);
  }

  lemma SameFootprint(rest: seq<Branch>, out: seq<Branch>, k: nat)
    requires |rest| == |out| && k <= |rest|
    requires forall i | 0 <= i < |rest| :: out[i] == rest[if i == k then |rest| - 1 else if i < k then i else i - 1]
    ensures Footprint(rest) == Footprint(out)
  {
    forall b
      ensures b in rest <==> b in out
    {
      if b in rest {
        var j :| 0 <= j < |rest| && rest[j] == b;
        var i := if j < k then j else if j < |rest| - 1 then j + 1 else if k < |rest| then k else j;
        assert out[if k == |rest| then j else i] == b;
      }
    }
  }

  /** The last branch moves into slot `k` of a node that is open there. */
  method DisconnectBranch(n: Node, ghost bs: seq<Branch>, k: int)
    requires 0 <= k < |bs| && OpenAt(n, bs, k)
    modifies n, n.m_branch
    ensures n.Valid() && n.m_level == old(n.m_level)
    ensures n.tree == Tree(old(n.tree).level, R.Disconnect(old(n.tree.items), k))
    ensures n.Repr == old(Around(n, bs, k))
  {
    hide ForestOk, BranchOk, ItemOf, Owned, Footprint, Kids, Mirrors;
    ghost var items := n.tree.items;
    DisconnectForest(items, bs, k, n.m_level);
    n.m_branch[k] := n.m_branch[n.m_count - 1];
    n.m_count := n.m_count - 1;
    n.tree := Tree(n.tree.level, R.Disconnect(items, k));
    n.Repr := Around(n, bs, k);
    assert n.m_branch[..n.m_count] == R.Disconnect(bs, k);
  }

  // ---------------------------------------------------------------- dissolved nodes

  ghost function ReprsOf(nodes: seq<Node>): set<object>
    reads nodes
  {
    set n, o | n in nodes && o in n.Repr :: o
  }

  /** Nodes outside of the tree, valid and apart, standing for the given trees. */
  ghost predicate Orphans(nodes: seq<Node>, trees: seq<Tree>)
    reads nodes, ReprsOf(nodes)
  {
    && |nodes| == |trees|
    && (forall i | 0 <= i < |nodes| :: nodes[i].Valid() && nodes[i].tree == trees[i])
    && (forall i, j | 0 <= i < j < |nodes| :: nodes[i].Repr !! nodes[j].Repr)
  }

  lemma ReprsOfCons(n: Node, nodes: seq<Node>)
    ensures ReprsOf([n] + nodes) == n.Repr + ReprsOf(nodes)
    ensures forall i | 0 <= i < |nodes| :: nodes[i].Repr <= ReprsOf(nodes)
  {
  }

  lemma OrphansCons(n: Node, nodes: seq<Node>, trees: seq<Tree>)
    requires n.Valid() && Orphans(nodes, trees) && n.Repr !! ReprsOf(nodes)
    ensures Orphans([n] + nodes, [n.tree] + trees)
    ensures ReprsOf([n] + nodes) == n.Repr + ReprsOf(nodes)
  {
    hide Node.Valid, ReprsOf;
    ReprsOfCons(n, nodes);
    var all, alltrees := [n] + nodes, [n.tree] + trees;
    forall i | 0 <= i < |all|
      ensures all[i].Valid() && all[i].tree == alltrees[i]
    {
      assert i > 0 ==> all[i] == nodes[i - 1] && alltrees[i] == trees[i - 1];
    }
    forall i, j | 0 <= i < j < |all|
      ensures all[i].Repr !! all[j].Repr
    {
      assert all[j] == nodes[j - 1] && (i > 0 ==> all[i] == nodes[i - 1]);
    }
  }

  lemma OrphansOwned(nodes: seq<Node>, trees: seq<Tree>)
    requires Orphans(nodes, trees)
    ensures forall n | n in nodes :: n in ReprsOf(nodes)
  {
  }

  lemma OrphansLength(nodes: seq<Node>, trees: seq<Tree>)
    requires Orphans(nodes, trees)
    ensures |nodes| == |trees| && (nodes == [] ==> ReprsOf(nodes) == {})
  {
  }

  lemma NoOrphans()
    ensures Orphans([], []) && ReprsOf([]) == {}
  {
  }

  lemma OrphansHead(nodes: seq<Node>, trees: seq<Tree>)
    requires Orphans(nodes, trees) && nodes != []
    ensures nodes[0].Valid() && nodes[0].tree == trees[0]
    ensures Orphans(nodes[1..], trees[1..])
    ensures ReprsOf(nodes) == nodes[0].Repr + ReprsOf(nodes[1..])
    ensures nodes[0].Repr !! ReprsOf(nodes[1..])
  {
    hide Node.Valid;
    assert nodes == [nodes[0]] + nodes[1..];
    forall i | 0 <= i < |nodes| - 1
      ensures nodes[1..][i].Repr !! nodes[0].Repr
    {
    }
  }

  // ---------------------------------------------------------------- RemoveRectRec

  /** What a descent below `n` leaves behind, against the outcome on values. */
  twostate predicate Removed(res: R.Removed, before: set<object>, mem: Memory, n: Node, l: ListNode?,
                             notFound: bool, new l': ListNode?, new dissolved: seq<Node>)
    reads mem, n, n.Repr, before, l', CellsOf(l'), dissolved, ReprsOf(dissolved)
  {
    && n.m_level == old(n.m_level)
    && match res
       case NotFound =>
         notFound && l' == l && dissolved == [] && mem.live == old(mem.live) && unchanged(before)
       case Found(t, trees, _) =>
         && !notFound && n.Valid() && n.tree == t
         && Orphans(dissolved, trees) && n.Repr !! ReprsOf(dissolved)
         && n.Repr + ReprsOf(dissolved) == before
         && ListOk(l') && NodesOf(l') == dissolved + old(NodesOf(l))
         && old(CellsOf(l)) <= CellsOf(l') && fresh(CellsOf(l') - old(CellsOf(l)))
         && mem.live == old(mem.live) + CellsOf(l')
  }

  method RemoveRectRec(mem: Memory, rect: Rect, id: Id, n: Node, l: ListNode?)
      returns (notFound: bool, l': ListNode?, ghost dissolved: seq<Node>)
    requires n.Valid() && Body(n.tree) && ListOk(l)
    requires CellsOf(l) !! n.Repr && mem.Holds(n.Repr + CellsOf(l))
    modifies mem, n.Repr
    ensures Removed(R.RemoveFrom(rect, id, old(n.tree), 0), old(n.Repr), mem, n, l, notFound, l', dissolved)
    decreases n.m_level
  {
    hide ForestOk, BranchOk, ItemOf, Owned, Footprint, Kids, Mirrors, Body, ItemOk, Orphans;
    if n.IsInternalNode() {
      notFound, l', dissolved := RemoveBelow(mem, rect, id, n, l);
    } else {
      NoOrphans();
      notFound := RemoveHere(rect, id, n);
      l', dissolved := l, [];
    }
  }

  /** The leaf case of RemoveRectRec, which looks at ids only. */
  method RemoveHere(rect: Rect, id: Id, n: Node) returns (notFound: bool)
    requires n.Valid() && Body(n.tree) && n.m_level == 0
    modifies n, n.m_branch
    ensures n.m_level == old(n.m_level)
    ensures match R.RemoveFrom(rect, id, old(n.tree), 0)
      case NotFound => notFound && unchanged(n) && unchanged(n.m_branch)
      case Found(t, trees, _) => !notFound && n.Valid() && n.tree == t && trees == [] && n.Repr == old(n.Repr)
  {
    hide ForestOk, Footprint, Kids, Mirrors, Body, ItemOk;
    ghost var bs := n.m_branch[..n.m_count];
    MirrorsLength(n.tree.items, bs);
    for index := 0 to n.m_count
      invariant unchanged(n) && unchanged(n.m_branch)
      invariant R.RemoveFrom(rect, id, n.tree, 0) == R.RemoveFrom(rect, id, n.tree, index)
    {
      R.LeafSlot(n.tree, index);
      OpenUp(n, index);
      if n.m_branch[index].m_data == id {
        DisconnectBranch(n, bs, index);
        return false;
      }
    }
    return true;
  }

  /** The child in slot `k` and the nodes in `gone` are outside of what `n` owns besides. */
  ghost predicate Parted(mem: Memory, n: Node, bs: seq<Branch>, k: nat, l: ListNode?, gone: seq<Node>, sub: R.Removed)
    requires k < |bs| && bs[k].m_child != null
    reads mem, n, n.m_branch, Kids(Rest(bs, k)), Footprint(Rest(bs, k)), bs[k].m_child, bs[k].m_child.Repr
    reads l, CellsOf(l), gone, ReprsOf(gone)
  {
    && Halfway(mem, n, bs, k, null)
    && sub.Found? && bs[k].m_child.tree == sub.t && Orphans(gone, sub.orphans) && ListOk(l)
    && ReprsOf(gone) !! Around(n, bs, k) + bs[k].m_child.Repr
    && CellsOf(l) !! Around(n, bs, k) + bs[k].m_child.Repr + ReprsOf(gone)
    && mem.Holds(CellsOf(l) + ReprsOf(gone))
  }

  /** After a removal below slot `k`: the child's box is recomputed, or the child is dissolved. */
  method Settle(mem: Memory, n: Node, ghost bs: seq<Branch>, k: int, l: ListNode?, ghost gone: seq<Node>,
                ghost sub: R.Removed)
      returns (l': ListNode?, ghost dissolved: seq<Node>)
    requires 0 <= k < |bs| && bs[k].m_child != null && Parted(mem, n, bs, k, l, gone, sub)
    modifies mem, n, n.m_branch
    ensures n.m_level == old(n.m_level) && n.Valid() && n.tree == R.Shrink(old(n.tree), k, sub).t
    ensures Orphans(dissolved, R.Shrink(old(n.tree), k, sub).orphans) && n.Repr !! ReprsOf(dissolved)
    ensures n.Repr + ReprsOf(dissolved) == old(Around(n, bs, k) + bs[k].m_child.Repr + ReprsOf(gone))
    ensures ListOk(l') && old(CellsOf(l)) <= CellsOf(l') && fresh(CellsOf(l') - old(CellsOf(l)))
    ensures exists first: seq<Node> :: dissolved == first + gone && NodesOf(l') == first + old(NodesOf(l))
    ensures mem.live == old(mem.live) + (CellsOf(l') - old(CellsOf(l)))
  {
    hide ForestOk, Footprint, Kids, Mirrors, Orphans, ReprsOf, Around;
    assert n.m_branch[k] == n.m_branch[..n.m_count][k] == bs[k];
    var child := n.m_branch[k].m_child;
    MirrorsLength(child.tree.items, child.m_branch[..child.m_count]);
    if child.m_count >= MIN {
      Keep(mem, n, bs, k, l, gone, sub);
      l', dissolved := l, gone;
      assert dissolved == [] + gone && NodesOf(l') == [] + NodesOf(l);
    } else {
      l' := Dissolve(mem, n, bs, k, l, gone, sub);
      dissolved := [child] + gone;
    }
  }

  method Keep(ghost mem: Memory, n: Node, ghost bs: seq<Branch>, k: int, l: ListNode?, ghost gone: seq<Node>,
              ghost sub: R.Removed)
    requires 0 <= k < |bs| && bs[k].m_child != null && Parted(mem, n, bs, k, l, gone, sub) && |sub.t.items| >= MIN
    modifies n, n.m_branch
    ensures n.m_level == old(n.m_level) && n.Valid() && n.tree == R.Shrink(old(n.tree), k, sub).t
    ensures Orphans(gone, sub.orphans) && n.Repr !! ReprsOf(gone) && ListOk(l)
    ensures n.Repr == old(Around(n, bs, k) + bs[k].m_child.Repr) && ReprsOf(gone) == old(ReprsOf(gone))
  {
    hide ForestOk, Footprint, Kids, Mirrors, Orphans, ReprsOf, CoverOf;
    OrphansOwned(gone, sub.orphans);
    assert n.m_branch[k] == n.m_branch[..n.m_count][k] == bs[k];
    var rect := NodeCover(n.m_branch[k].m_child);
    CloseWith(n, bs, k, n.m_branch[k].(m_rect := rect));
  }

  method Dissolve(mem: Memory, n: Node, ghost bs: seq<Branch>, k: int, l: ListNode?, ghost gone: seq<Node>,
                  ghost sub: R.Removed) returns (l': ListNode)
    requires 0 <= k < |bs| && bs[k].m_child != null && Parted(mem, n, bs, k, l, gone, sub) && |sub.t.items| < MIN
    modifies mem, n, n.m_branch
    ensures n.m_level == old(n.m_level) && n.Valid() && n.tree == R.Shrink(old(n.tree), k, sub).t
    ensures Orphans([bs[k].m_child] + gone, [sub.t] + sub.orphans) && n.Repr !! ReprsOf([bs[k].m_child] + gone)
    ensures n.Repr == old(Around(n, bs, k))
    ensures ReprsOf([bs[k].m_child] + gone) == old(bs[k].m_child.Repr + ReprsOf(gone))
    ensures l'.Valid() && fresh(l')
    ensures NodesOf(l') == [bs[k].m_child] + old(NodesOf(l)) && CellsOf(l') == {l'} + old(CellsOf(l))
    ensures mem.live == old(mem.live) + {l'}
  {
    hide ForestOk, Footprint, Kids, Mirrors, Orphans, ReprsOf, CoverOf, ListNode.Valid, BranchOk, ItemOf, Owned;
    assert n.m_branch[k] == n.m_branch[..n.m_count][k] == bs[k];
    var child := n.m_branch[k].m_child;
    OrphansCons(child, gone, sub.orphans);
    OrphansOwned([child] + gone, [sub.t] + sub.orphans);
    l' := ReInsert(mem, child, l);
    DisconnectBranch(n, bs, k);
  }

  /** The internal case of RemoveRectRec: the children whose boxes overlap, in order. */
  method RemoveBelow(mem: Memory, rect: Rect, id: Id, n: Node, l: ListNode?)
      returns (notFound: bool, l': ListNode?, ghost dissolved: seq<Node>)
    requires n.Valid() && Body(n.tree) && ListOk(l) && n.m_level > 0
    requires CellsOf(l) !! n.Repr && mem.Holds(n.Repr + CellsOf(l))
    modifies mem, n.Repr
    ensures Removed(R.RemoveFrom(rect, id, old(n.tree), 0), old(n.Repr), mem, n, l, notFound, l', dissolved)
    decreases n.m_level, 1
  {
    hide ForestOk, BranchOk, ItemOf, Footprint, Kids, Mirrors, Body, ItemOk, Orphans, ReprsOf, Parted,
      R.Shrink, Overlaps, R.RemovedOk, ListNode.Valid;
    ghost var t, before := n.tree, n.Repr;
    MirrorsLength(t.items, n.m_branch[..n.m_count]);
    for index := 0 to n.m_count
      invariant R.RemoveFrom(rect, id, t, 0) == R.RemoveFrom(rect, id, t, index)
      invariant unchanged(before) && mem.live == old(mem.live)
      invariant n.Valid() && n.tree == t && n.Repr == before && n.m_count == |t.items| && n.m_level > 0
      invariant ListOk(l) && NodesOf(l) == old(NodesOf(l)) && CellsOf(l) == old(CellsOf(l))
    {
      I.ChildOk(t, index);
      ItemInSlot(n, index);
      var overlaps := Overlap(rect, n.m_branch[index].m_rect);
      if overlaps {
        notFound, l', dissolved := VisitChild(mem, rect, id, n, index, l);
        if !notFound {
          return;
        }
      }
    }
    return true, l, [];
  }

  /** One child of RemoveRectRec, and the repair of its parent when something was found. */
  method VisitChild(mem: Memory, rect: Rect, id: Id, n: Node, k: int, l: ListNode?)
      returns (notFound: bool, l': ListNode?, ghost dissolved: seq<Node>)
    requires n.Valid() && ListOk(l) && n.m_level > 0 && 0 <= k < n.m_count == |n.tree.items|
    requires n.tree.items[k].Sub? && Body(n.tree.items[k].child)
    requires CellsOf(l) !! n.Repr && mem.Holds(n.Repr + CellsOf(l))
    modifies mem, n.Repr
    ensures var sub := R.RemoveFrom(rect, id, old(n.tree).items[k].child, 0);
      Removed(if sub.NotFound? then sub else R.Shrink(old(n.tree), k, sub),
              old(n.Repr), mem, n, l, notFound, l', dissolved)
    decreases n.m_level, 0, 1
  {
    hide ForestOk, BranchOk, ItemOf, Footprint, Kids, Mirrors, Body, ItemOk, Orphans, ReprsOf, Parted, Around,
      R.Shrink, R.RemoveFrom, R.RemovedOk, Bag, ListNode.Valid, ListOk, CellsOf, NodesOf, Node.Valid;
    NodeFacts(n);
    ghost var bs := n.m_branch[..n.m_count];
    ghost var sub := R.RemoveFrom(rect, id, n.tree.items[k].child, 0);
    notFound, l', dissolved := RemoveChild(mem, rect, id, n, k, l, sub);
    if !notFound {
      ghost var gone, waiting, cells := dissolved, NodesOf(l'), CellsOf(l');
      l', dissolved := Settle(mem, n, bs, k, l', dissolved, sub);
      assert old(CellsOf(l)) <= cells <= CellsOf(l') && mem.live == old(mem.live) + CellsOf(l');
      assert CellsOf(l') - old(CellsOf(l)) == (CellsOf(l') - cells) + (cells - old(CellsOf(l)));
      ghost var first: seq<Node> :| dissolved == first + gone && NodesOf(l') == first + waiting;
      assert first + (gone + old(NodesOf(l))) == (first + gone) + old(NodesOf(l));
    }
  }

  lemma ItemInSlot(n: Node, k: nat)
    requires n.Valid() && k < n.m_count
    ensures n.tree.items[k] == ItemOf(n.m_branch[k]) && n.tree.items[k].rect == n.m_branch[k].m_rect
    ensures n.tree.items[k].Sub? <==> n.m_branch[k].m_child != null
  {
    hide ForestOk, Footprint;
  }

  /** The recursive call for one child: nothing changed, or the parts are ready to be settled. */
  method RemoveChild(mem: Memory, rect: Rect, id: Id, n: Node, k: int, l: ListNode?, ghost sub: R.Removed)
      returns (notFound: bool, l': ListNode?, ghost dissolved: seq<Node>)
    requires n.Valid() && ListOk(l) && n.m_level > 0 && 0 <= k < n.m_count
    requires n.tree.items[k].Sub? && Body(n.tree.items[k].child)
    requires sub == R.RemoveFrom(rect, id, n.tree.items[k].child, 0)
    requires CellsOf(l) !! n.Repr && mem.Holds(n.Repr + CellsOf(l))
    modifies mem, n.Repr
    ensures notFound == sub.NotFound?
    ensures notFound ==> l' == l && dissolved == [] && mem.live == old(mem.live) && unchanged(old(n.Repr))
    ensures !notFound ==> n.m_level == old(n.m_level) && n.tree == old(n.tree)
    ensures !notFound ==>
      var bs := old(n.m_branch[..n.m_count]);
      && bs[k].m_child != null && Parted(mem, n, bs, k, l', dissolved, sub)
      && Around(n, bs, k) + bs[k].m_child.Repr + ReprsOf(dissolved) == old(n.Repr)
      && NodesOf(l') == dissolved + old(NodesOf(l))
      && old(CellsOf(l)) <= CellsOf(l') && fresh(CellsOf(l') - old(CellsOf(l)))
      && mem.live == old(mem.live) + CellsOf(l')
    decreases n.m_level, 0, 0
  {
    hide ForestOk, Footprint, Kids, Mirrors, Body, ItemOk, Orphans, ReprsOf, R.RemoveFrom, R.RemovedOk,
      Overlaps, Bag, ListNode.Valid, ListOk, CellsOf, NodesOf;
    ghost var bs := n.m_branch[..n.m_count];
    ghost var around := Around(n, bs, k);
    OpenUp(n, k);
    notFound, l', dissolved := RemoveRectRec(mem, rect, id, n.m_branch[k].m_child, l);
    if !notFound {
      assert OpenAt(n, bs, k) && Around(n, bs, k) == around;
    }
  }

  // ---------------------------------------------------------------- RemoveRect

  /** The branches of a dissolved node go back into the tree, each at the level of that node. */
  method ReinsertBranches(mem: Memory, o: Node, root: Node) returns (newRoot: Node)
    requires o.Valid() && root.Valid() && o.Repr !! root.Repr
    requires Body(o.tree) && Loose(root.tree) && o.tree.level <= root.tree.level
    requires mem.Holds(o.Repr + root.Repr)
    modifies mem, o.Repr, root.Repr
    ensures newRoot.Valid() && newRoot.tree == R.Reinsert(old(root.tree), old(o.tree))
    ensures Shell(o) !! newRoot.Repr && old(root.Repr + o.Repr) <= newRoot.Repr + Shell(o)
    ensures fresh(newRoot.Repr - old(root.Repr + o.Repr))
    ensures mem.live == old(mem.live) + newRoot.Repr
  {
    hide ForestOk, BranchOk, ItemOf, Owned, Footprint, Kids, Mirrors, Body, ItemOk, Bag, Loose, R.ReinsertItems,
      I.InsertRect, Pending;
    newRoot := root;
    ghost var t, bs, before := o.tree, o.m_branch[..o.m_count], root.Repr + o.Repr;
    MirrorsLength(t.items, bs);
    PendingStart(mem, o, root);
    for index := 0 to o.m_count
      invariant unchanged(o) && unchanged(o.m_branch)
      invariant newRoot.Valid() && Loose(newRoot.tree) && t.level <= newRoot.tree.level
      invariant R.ReinsertItems(newRoot.tree, t, index) == R.Reinsert(old(root.tree), t)
      invariant Pending(mem, o, newRoot, t, bs, index) && Shell(o) !! newRoot.Repr
      invariant Footprint(bs[index..]) <= before <= newRoot.Repr + Shell(o) + Footprint(bs[index..])
      invariant fresh(newRoot.Repr - before)
      invariant mem.live == old(mem.live) + newRoot.Repr
    {
      R.ReinsertStep(newRoot.tree, t, index);
      newRoot := ReinsertOne(mem, o, newRoot, t, bs, index);
    }
    FootprintNone(bs);
    R.ReinsertDone(newRoot.tree, t);
  }

  /** The branches from `index` on are still to be re-inserted. */
  ghost predicate Pending(mem: Memory, o: Node, root: Node, t: Tree, bs: seq<Branch>, index: nat)
    requires index <= |bs| == |t.items|
    reads mem, root, Kids(bs[index..]), Footprint(bs[index..])
  {
    && ForestOk(bs[index..], t.level) && Mirrors(t.items[index..], bs[index..])
    && Kids(bs[index..]) <= Footprint(bs[index..])
    && Footprint(bs[index..]) !! root.Repr && Shell(o) !! root.Repr + Footprint(bs[index..])
    && mem.Holds(Shell(o) + root.Repr + Footprint(bs[index..]))
  }

  lemma PendingStart(mem: Memory, o: Node, root: Node)
    requires o.Valid() && o.Repr !! root.Repr && mem.Holds(o.Repr + root.Repr)
    ensures |o.tree.items| == o.m_count
    ensures Pending(mem, o, root, o.tree, o.m_branch[..o.m_count], 0)
    ensures Footprint(o.m_branch[..o.m_count][0..]) + Shell(o) == o.Repr
  {
    hide BranchOk, ItemOf, Owned, Footprint, Kids;
    var bs := o.m_branch[..o.m_count];
    KidsOwned(bs, o.m_level);
    assert bs[0..] == bs && o.tree.items[0..] == o.tree.items;
  }

  method ReinsertOne(mem: Memory, o: Node, root: Node, ghost t: Tree, ghost bs: seq<Branch>, index: int)
      returns (newRoot: Node)
    requires 0 <= index < |bs| == |t.items| && o.m_branch.Length == MAX >= |bs| && o.m_branch[..|bs|] == bs
    requires o.m_level == t.level && Body(t)
    requires root.Valid() && Loose(root.tree) && t.level <= root.tree.level
    requires Pending(mem, o, root, t, bs, index) && ItemOk(t.items[index], t.level)
    modifies mem, root.Repr
    ensures newRoot.Valid()
    ensures Pending(mem, o, newRoot, t, bs, index + 1) && Shell(o) !! newRoot.Repr
    ensures old(root.Repr + Footprint(bs[index..])) <= newRoot.Repr + Footprint(bs[index + 1..])
    ensures fresh(newRoot.Repr - old(root.Repr + Footprint(bs[index..])))
    ensures Footprint(bs[index + 1..]) <= old(Footprint(bs[index..])) && old(root.Repr) <= newRoot.Repr
    ensures mem.live == old(mem.live) + newRoot.Repr
    ensures newRoot.tree == I.InsertRect(old(root.tree), t.items[index], t.level)
  {
    hide ForestOk, BranchOk, ItemOf, Footprint, Kids, Mirrors, Body, ItemOk, Bag, Owned, Loose, I.InsertRect;
    var b := o.m_branch[index];
    assert b == o.m_branch[..|bs|][index];
    assert bs[index..][1..] == bs[index + 1..] && t.items[index..][1..] == t.items[index + 1..];
    TakeFirst(t.items[index..], bs[index..], t.level);
    var grew;
    grew, newRoot := InsertRect(mem, b, root, o.m_level);
  }

  /** The list waits for re-insertion, with the tree and everything else apart. */
  ghost predicate Waiting(mem: Memory, root: Node, l: ListNode?, trees: seq<Tree>)
    reads mem, root, root.Repr, l, CellsOf(l), NodesOf(l), ReprsOf(NodesOf(l))
  {
    && root.Valid() && Loose(root.tree) && ListOk(l)
    && Orphans(NodesOf(l), trees) && R.OrphansOk(trees, root.tree.level)
    && ReprsOf(NodesOf(l)) !! root.Repr
    && CellsOf(l) !! root.Repr + ReprsOf(NodesOf(l))
    && mem.Holds(root.Repr + ReprsOf(NodesOf(l)) + CellsOf(l))
  }

  /** What belongs to the waiting list: its cells, and the nodes with all they own. */
  ghost function Backlog(l: ListNode?): set<object>
    reads l, NodesOf(l)
  {
    CellsOf(l) + ReprsOf(NodesOf(l))
  }

  /** The first node of the list can be taken apart from the others. */
  lemma Unchain(mem: Memory, root: Node, l: ListNode, trees: seq<Tree>)
    requires Waiting(mem, root, l, trees) && trees != []
    ensures l.m_node.Valid() && l.m_node.tree == trees[0] && Body(trees[0]) && trees[0].level < root.tree.level
    ensures NodesOf(l) == [l.m_node] + NodesOf(l.m_next) && CellsOf(l) == {l} + CellsOf(l.m_next)
    ensures l !in CellsOf(l.m_next) && ListOk(l.m_next)
    ensures Orphans(NodesOf(l.m_next), trees[1..])
    ensures forall n | n in NodesOf(l.m_next) :: n in ReprsOf(NodesOf(l.m_next))
    ensures ReprsOf(NodesOf(l)) == l.m_node.Repr + ReprsOf(NodesOf(l.m_next))
    ensures l.m_node.Repr !! ReprsOf(NodesOf(l.m_next))
  {
    hide Node.Valid, Body, ReprsOf;
    OrphansHead(NodesOf(l), trees);
    R.OrphansHead(trees, root.tree.level);
    assert NodesOf(l)[1..] == NodesOf(l.m_next);
    OrphansOwned(NodesOf(l.m_next), trees[1..]);
  }

  /** The bookkeeping of one round, on sets alone. */
  lemma Ledger(live: set<object>, root: set<object>, node: set<object>, shell: set<object>, newRoot: set<object>,
               cell: set<object>, rest: set<object>)
    requires root + node <= newRoot + shell && shell <= node && newRoot * live <= root + node
    ensures (live + newRoot - shell - cell) - newRoot - rest == live - root - (cell + node + rest)
  {
    forall x
      ensures x in (live + newRoot - shell - cell) - newRoot - rest <==> x in live - root - (cell + node + rest)
    {
      assert x in newRoot * live ==> x in root + node;
      assert x in root + node ==> x in newRoot + shell;
    }
  }

  /** One element of the list: its branches go back in, and it is freed. */
  method ReinsertFirst(mem: Memory, root: Node, l: ListNode, ghost trees: seq<Tree>)
      returns (newRoot: Node, rest: ListNode?)
    requires Waiting(mem, root, l, trees) && trees != []
    modifies mem, root.Repr, l.m_node.Repr
    ensures newRoot.tree == R.Reinsert(old(root.tree), trees[0]) && Waiting(mem, newRoot, rest, trees[1..])
    ensures ReprsOf(NodesOf(rest)) <= old(ReprsOf(NodesOf(l))) && rest == old(l.m_next)
    ensures fresh(newRoot.Repr - old(root.Repr + l.m_node.Repr))
    ensures mem.live - newRoot.Repr - Backlog(rest) == old(mem.live - root.Repr - Backlog(l))
  {
    hide ForestOk, Footprint, Kids, Mirrors, Body, ItemOk, Bag, Loose, ReprsOf, Orphans, R.Reinsert, R.OrphansOk,
      Node.Valid, ListNode.Valid;
    Unchain(mem, root, l, trees);
    var tempNode := l.m_node;
    rest := l.m_next;
    ghost var nodes, cells, reprs := NodesOf(rest), CellsOf(rest), ReprsOf(NodesOf(rest));
    newRoot := ReinsertBranches(mem, tempNode, root);
    assert NodesOf(rest) == nodes && CellsOf(rest) == cells && ReprsOf(nodes) == reprs;
    assert ListOk(rest) && Orphans(nodes, trees[1..]);
    R.OrphansTail(trees, old(root.tree).level, newRoot.tree.level);
    mem.FreeNode(tempNode);
    FreeListNode(mem, l);
    Ledger(old(mem.live), old(root.Repr), old(tempNode.Repr), Shell(tempNode), newRoot.Repr, {l}, Backlog(rest));
  }

  method FreeListNode(mem: Memory, l: ListNode)
    requires l in mem.live
    modifies mem
    ensures mem.live == old(mem.live) - {l}
  {
    mem.live := mem.live - {l};
  }

  /** All of the list, front to back. */
  method ReinsertWaiting(mem: Memory, root: Node, list: ListNode?, ghost orphans: seq<Tree>) returns (newRoot: Node)
    requires Waiting(mem, root, list, orphans)
    modifies mem, root.Repr, ReprsOf(NodesOf(list))
    ensures newRoot.Valid() && newRoot.tree == R.ReinsertAll(old(root.tree), orphans)
    ensures fresh(newRoot.Repr - old(root.Repr + ReprsOf(NodesOf(list))))
    ensures mem.live - newRoot.Repr == old(mem.live - root.Repr - Backlog(list)) && mem.Holds(newRoot.Repr)
  {
    hide ForestOk, Footprint, Kids, Mirrors, Body, ItemOk, Bag, Loose, ReprsOf, Orphans, R.Reinsert, R.ReinsertAll,
      R.OrphansOk, Node.Valid;
    newRoot := root;
    var reInsertList := list;
    ghost var trees, before := orphans, root.Repr + ReprsOf(NodesOf(list));
    while reInsertList != null
      invariant Waiting(mem, newRoot, reInsertList, trees)
      invariant R.ReinsertAll(newRoot.tree, trees) == R.ReinsertAll(old(root.tree), orphans)
      invariant ReprsOf(NodesOf(reInsertList)) <= before && fresh(newRoot.Repr - before)
      invariant mem.live - newRoot.Repr - Backlog(reInsertList) == old(mem.live - root.Repr - Backlog(list))
      decreases |trees|
    {
      OrphansLength(NodesOf(reInsertList), trees);
      Unchain(mem, newRoot, reInsertList, trees);
      R.ReinsertAllStep(newRoot.tree, trees);
      newRoot, reInsertList := ReinsertFirst(mem, newRoot, reInsertList, trees);
      trees := trees[1..];
    }
    OrphansLength([], trees);
    R.ReinsertAllStep(newRoot.tree, trees);
  }

  /** RemoveRect: the descent, the re-insertions, and the collapse of a redundant root. */
  method RemoveRect(mem: Memory, rect: Rect, id: Id, root: Node) returns (notFound: bool, newRoot: Node)
    requires root.Valid() && WellFormed(root.tree) && mem.Holds(root.Repr)
    modifies mem, root.Repr
    ensures newRoot.Valid() && newRoot.tree == R.RemoveRect(old(root.tree), rect, id).0
    ensures notFound <==> R.RemoveRect(old(root.tree), rect, id).1 == []
    ensures notFound ==> newRoot == root && unchanged(old(root.Repr))
    ensures fresh(newRoot.Repr - old(root.Repr)) && mem.Holds(newRoot.Repr)
    ensures mem.live - newRoot.Repr == old(mem.live - root.Repr)
  {
    hide ForestOk, BranchOk, Footprint, Kids, Mirrors, Body, ItemOk, Bag, ReprsOf, Orphans, R.OrphansOk, Loose,
      R.RemoveFrom, R.RemoveRect, R.ReinsertAll, R.Collapse, Node.Valid, ListNode.Valid;
    R.RemoveRectStep(root.tree, rect, id);
    WellFormedBody(root.tree);
    var reInsertList;
    ghost var gone;
    notFound, reInsertList, gone := RemoveRectRec(mem, rect, id, root, null);
    if notFound {
      return true, root;
    }
    assert NodesOf(reInsertList) == gone;
    newRoot := ReinsertWaiting(mem, root, reInsertList, R.RemoveFrom(rect, id, old(root.tree), 0).orphans);
    newRoot := CollapseRoot(mem, newRoot);
  }

  lemma WellFormedBody(t: Tree)
    requires WellFormed(t)
    ensures Body(t)
  {
  }

  /** A root with a single child is freed and the child takes its place. */
  method CollapseRoot(mem: Memory, root: Node) returns (newRoot: Node)
    requires root.Valid() && Loose(root.tree) && mem.Holds(root.Repr)
    modifies mem
    ensures newRoot.Valid() && newRoot.tree == R.Collapse(root.tree) && newRoot.Repr <= root.Repr
    ensures mem.live - newRoot.Repr == old(mem.live) - root.Repr && mem.Holds(newRoot.Repr)
  {
    hide ForestOk, Footprint, Kids, Body, ItemOk;
    MirrorsLength(root.tree.items, root.m_branch[..root.m_count]);
    newRoot := root;
    if root.m_count == 1 && root.IsInternalNode() {
      I.ChildOk(root.tree, 0);
      OpenUp(root, 0);
      OnlySlot(root.m_branch[..root.m_count]);
      var tempNode := root.m_branch[0].m_child;
      mem.FreeNode(root);
      newRoot := tempNode;
    }
  }

  lemma OnlySlot(bs: seq<Branch>)
    requires |bs| == 1
    ensures Footprint(Rest(bs, 0)) == {}
  {
  }
}
