/**
  Insertion into nodes in memory: the methods do to the nodes what `Inserts` does to values.
 */
module Insertion {
  import opened Params
  import opened Rects
  import opened Trees
  import opened Nodes
  import opened Splitting
  import I = Inserts

  method PickBranch(r: Rect, n: Node) returns (best: int)
    requires n.Valid() && n.m_count > 0
    ensures 0 <= best < n.m_count
    ensures best == I.PickBranch(r, RectsOf(n.tree.items))
  {
    hide ForestOk, BranchOk, Footprint, Kids, Volume, Combine;
    ghost var cs := I.Costs(r, RectsOf(n.tree.items));
    var firstTime := true;
    var bestIncr, bestArea := -1.0, -1.0;
    best := 0;
    for index := 0 to n.m_count
      invariant firstTime <==> index == 0
      invariant index > 0 ==> best == I.PickUpTo(cs, index) && cs[best] == I.Cost(bestIncr, bestArea)
    {
      var curRect := n.m_branch[index].m_rect;
      var area := CalcRectVolume(curRect);
      var tempRect := CombineRect(r, curRect);
      var tempArea := CalcRectVolume(tempRect);
      var increase := tempArea - area;
      assert cs[index] == I.Cost(increase, area);
      if increase < bestIncr || firstTime {
        best, bestArea, bestIncr, firstTime := index, area, increase, false;
      } else if NearEqual(increase, bestIncr) && area < bestArea {
        best, bestArea, bestIncr := index, area, increase;
      }
    }
  }

  const NO_DATA: Id := 0

  /** Everything that must hold before `b` is inserted below `n` at a level. */
  ghost predicate Insertable(b: Branch, n: Node, level: int)
    reads n, n.Repr, b.m_child, Owned(b)
  {
    && n.Valid() && 0 <= level <= n.m_level && Loose(n.tree)
    && BranchOk(b, level) && Owned(b) !! n.Repr && ItemOk(ItemOf(b), level)
  }

  method InsertRectRec(mem: Memory, b: Branch, n: Node, level: int) returns (split: bool, newNode: Node?)
    requires Insertable(b, n, level)
    requires mem.Holds(n.Repr + Owned(b))
    modifies mem, n.Repr
    ensures n.Valid() && n.m_level == old(n.m_level)
    ensures Became(I.InsertRec(old(n.tree), old(ItemOf(b)), level), n, split, newNode)
    ensures old(n.Repr + Owned(b)) <= Together(n, newNode) && fresh(Together(n, newNode) - old(n.Repr + Owned(b)))
    ensures mem.live == old(mem.live) + Together(n, newNode)
    decreases n.m_level, 2
  {
    hide ForestOk, BranchOk, ItemOf, Owned, Footprint, Kids, Mirrors, Body, ItemOk, I.InsertRec, I.AddItem;
    if n.m_level > level {
      split, newNode := Descend(mem, b, n, level);
    } else {
      I.InsertRecHere(n.tree, ItemOf(b));
      split, newNode := AddBranch(mem, b, n, true);
    }
  }

  /** Node `n` is open at slot `k`, whose child was perhaps split in two. */
  ghost predicate Halfway(mem: Memory, n: Node, bs: seq<Branch>, k: nat, other: Node?)
    requires k < |bs| && bs[k].m_child != null
    reads mem, n, n.m_branch, Kids(Rest(bs, k)), Footprint(Rest(bs, k)), bs[k].m_child, bs[k].m_child.Repr, other
  {
    && OpenAt(n, bs, k) && n.m_level > 0
    && bs[k].m_child.m_level == n.m_level - 1 && bs[k].m_child.Valid()
    && Together(bs[k].m_child, other) !! Around(n, bs, k)
    && mem.Holds(Around(n, bs, k) + Together(bs[k].m_child, other))
  }

  /** What `n` owns outside of slot `k`. */
  ghost function Around(n: Node, bs: seq<Branch>, k: nat): set<object>
    requires k < |bs|
    reads Kids(Rest(bs, k))
  {
    Shell(n) + Footprint(Rest(bs, k))
  }

  /** The recursive case of InsertRectRec. */
  method Descend(mem: Memory, b: Branch, n: Node, level: int) returns (split: bool, newNode: Node?)
    requires Insertable(b, n, level) && level < n.m_level
    requires mem.Holds(n.Repr + Owned(b))
    modifies mem, n.Repr
    ensures n.Valid() && n.m_level == old(n.m_level)
    ensures Became(I.InsertRec(old(n.tree), old(ItemOf(b)), level), n, split, newNode)
    ensures old(n.Repr + Owned(b)) <= Together(n, newNode) && fresh(Together(n, newNode) - old(n.Repr + Owned(b)))
    ensures mem.live == old(mem.live) + Together(n, newNode)
    decreases n.m_level, 1
  {
    hide ForestOk, BranchOk, Footprint, Kids, Mirrors, Body, ItemOk, Owned, OpenAt, Halfway, Around,
      I.InsertRec, I.AddItem, I.PickBranch, Combine, CoverOf, RectsOf, Loose, Bag, I.Grown.Bag;
    ghost var bs := n.m_branch[..n.m_count];
    I.InsertRecStep(n.tree, ItemOf(b), level);
    MirrorsLength(n.tree.items, bs);
    ghost var k := I.PickBranch(b.m_rect, RectsOf(n.tree.items));
    ghost var g := I.InsertRec(n.tree.items[k].child, ItemOf(b), level);
    var index, childWasSplit, otherNode := InsertBelow(mem, b, n, level, k, g);
    if !childWasSplit {
      Enlarge(mem, n, bs, index, b.m_rect);
      split, newNode := false, null;
    } else {
      split, newNode := Adopt(mem, n, bs, index, otherNode);
    }
  }

  /** The descent itself: afterwards the picked child has taken the record and `n` is open there. */
  method InsertBelow(mem: Memory, b: Branch, n: Node, level: int, ghost k: nat, ghost g: I.Grown)
      returns (index: int, childWasSplit: bool, otherNode: Node?)
    requires Insertable(b, n, level) && level < n.m_level
    requires mem.Holds(n.Repr + Owned(b))
    requires n.tree.items != [] && k == I.PickBranch(b.m_rect, RectsOf(n.tree.items)) && k < n.m_count
    requires n.tree.items[k].Sub? && n.tree.items[k].child.level == n.tree.level - 1
    requires Loose(n.tree.items[k].child) && g == I.InsertRec(n.tree.items[k].child, ItemOf(b), level)
    modifies mem, n.Repr
    ensures index == k && n.m_level == old(n.m_level) && n.tree == old(n.tree)
    ensures var bs := old(n.m_branch[..n.m_count]); var c := bs[k].m_child;
      && c != null && bs[k].m_rect == n.tree.items[k].rect
      && Halfway(mem, n, bs, k, otherNode)
      && Became(g, c, childWasSplit, otherNode)
      && old(n.Repr + Owned(b)) <= Around(n, bs, k) + Together(c, otherNode)
      && fresh(Around(n, bs, k) + Together(c, otherNode) - old(n.Repr + Owned(b)))
      && mem.live == old(mem.live) + Around(n, bs, k) + Together(c, otherNode)
    decreases n.m_level, 0
  {
    hide ForestOk, Footprint, Kids, Mirrors, Body, ItemOk, I.InsertRec, I.AddItem, I.PickBranch, RectsOf, Bag, CoverOf,
      Combine, I.Grown.Ok, I.Grown.Bag, EntriesOf, ItemEntries, Node.Valid;
    NodeFacts(n);
    index := PickBranch(b.m_rect, n);
    OpenUp(n, index);
    var child := n.m_branch[index].m_child;
    childWasSplit, otherNode := InsertRectRec(mem, b, child, level);
  }

  /** The child took the record without a split: its box is merged with the record's. */
  method Enlarge(ghost mem: Memory, n: Node, ghost bs: seq<Branch>, index: int, r: Rect)
    requires 0 <= index < |bs| && bs[index].m_child != null && Halfway(mem, n, bs, index, null)
    modifies n, n.m_branch
    ensures n.Valid() && n.m_level == old(n.m_level)
    ensures n.tree == I.WithChild(old(n.tree), index, Combine(r, bs[index].m_rect), bs[index].m_child.tree)
    ensures n.Repr == old(Around(n, bs, index) + bs[index].m_child.Repr)
    ensures bs[index].m_child.tree == old(bs[index].m_child.tree)
  {
    hide ForestOk, Footprint, Kids, Mirrors, Combine, Node.Valid;
    assert n.m_branch[index] == n.m_branch[..n.m_count][index] == bs[index];
    var rect := CombineRect(r, n.m_branch[index].m_rect);
    CloseWith(n, bs, index, n.m_branch[index].(m_rect := rect));
  }

  /** The child was split: both boxes are computed afresh and the new sibling is added. */
  method Adopt(mem: Memory, n: Node, ghost bs: seq<Branch>, index: int, other: Node)
      returns (split: bool, newNode: Node?)
    requires 0 <= index < |bs| && bs[index].m_child != null && Halfway(mem, n, bs, index, other)
    requires other.Valid() && other.m_level == n.m_level - 1 && other.Repr !! bs[index].m_child.Repr
    requires other.tree.items != [] && bs[index].m_child.tree.items != []
    requires Body(I.WithChild(n.tree, index, CoverOf(bs[index].m_child.tree), bs[index].m_child.tree))
    requires ItemOk(Sub(CoverOf(other.tree), other.tree), n.m_level)
    modifies mem, n, n.m_branch
    ensures n.Valid() && n.m_level == old(n.m_level)
    ensures Became(old(I.AddItem(I.WithChild(n.tree, index, CoverOf(bs[index].m_child.tree), bs[index].m_child.tree),
                                 Sub(CoverOf(other.tree), other.tree))), n, split, newNode)
    ensures Together(n, newNode) == Shell(newNode) + old(Around(n, bs, index) + Together(bs[index].m_child, other))
    ensures mem.live == old(mem.live) + Shell(newNode) && fresh(Shell(newNode))
  {
    hide ForestOk, Footprint, Kids, Mirrors, I.AddItem, ItemOk, Body, CoverOf, RectsOf, Combine;
    assert n.m_branch[index] == n.m_branch[..n.m_count][index] == bs[index];
    var rect := NodeCover(n.m_branch[index].m_child);
    CloseWith(n, bs, index, n.m_branch[index].(m_rect := rect));
    var otherRect := NodeCover(other);
    split, newNode := AddBranch(mem, Branch(otherRect, other, NO_DATA), n, true);
  }

  /** InsertRect: insertion at a level, under a new root if the old one was split. */
  method InsertRect(mem: Memory, b: Branch, root: Node, level: int) returns (grew: bool, newRoot: Node)
    requires Insertable(b, root, level)
    requires mem.Holds(root.Repr + Owned(b))
    modifies mem, root.Repr
    ensures newRoot.Valid() && newRoot.tree == I.InsertRect(old(root.tree), old(ItemOf(b)), level)
    ensures old(root.Repr + Owned(b)) <= newRoot.Repr && fresh(newRoot.Repr - old(root.Repr + Owned(b)))
    ensures mem.live == old(mem.live) + newRoot.Repr
    ensures if grew then newRoot.m_level == old(root.m_level) + 1 && newRoot != root
            else newRoot.m_level == old(root.m_level) && newRoot == root
  {
    hide ForestOk, BranchOk, Footprint, Kids, Mirrors, Body, ItemOk, Owned, I.InsertRec, I.InsertRect,
      CoverOf, RectsOf, Loose, Bag, I.Grown.Ok, I.Grown.Bag;
    I.InsertRectStep(root.tree, ItemOf(b), level);
    var newNode;
    grew, newNode := InsertRectRec(mem, b, root, level);
    if !grew {
      return false, root;
    }
    newRoot := GrowRoot(mem, root, newNode);
  }

  /** The root split in two: a new root one level up takes both halves. */
  method GrowRoot(mem: Memory, root: Node, newNode: Node) returns (newRoot: Node)
    requires root.Valid() && newNode.Valid() && root.m_level == newNode.m_level >= 0 && root.Repr !! newNode.Repr
    requires root.tree.items != [] && newNode.tree.items != []
    requires ItemOk(Sub(CoverOf(root.tree), root.tree), root.m_level + 1)
    requires ItemOk(Sub(CoverOf(newNode.tree), newNode.tree), root.m_level + 1)
    requires mem.Holds(root.Repr + newNode.Repr)
    modifies mem
    ensures newRoot.Valid() && newRoot.Repr == Shell(newRoot) + root.Repr + newNode.Repr && fresh(Shell(newRoot))
    ensures newRoot.tree
         == Tree(root.m_level + 1, [Sub(CoverOf(root.tree), root.tree)] + [Sub(CoverOf(newNode.tree), newNode.tree)])
    ensures mem.live == old(mem.live) + Shell(newRoot)
  {
    hide ForestOk, BranchOk, Footprint, Kids, Mirrors, ItemOk, CoverOf, Body, Node.Valid;
    newRoot := mem.AllocNode();
    newRoot.m_level := root.m_level + 1;
    Begin(newRoot);
    I.BodyOfSome([], newRoot.tree.level, []);
    AddHalf(mem, root, newRoot);
    AddHalf(mem, newNode, newRoot);
  }

  /** One half of the old root goes below the new one. */
  method AddHalf(mem: Memory, half: Node, newRoot: Node)
    requires half.Valid() && newRoot.Valid() && half.m_level == newRoot.m_level - 1 && half.Repr !! newRoot.Repr
    requires half.tree.items != [] && newRoot.tree.level == newRoot.m_level && |newRoot.tree.items| < MAX
    requires Body(newRoot.tree) && ItemOk(Sub(CoverOf(half.tree), half.tree), newRoot.m_level)
    requires mem.Holds(half.Repr + newRoot.Repr)
    modifies mem, newRoot, newRoot.m_branch
    ensures newRoot.Valid() && newRoot.m_level == old(newRoot.m_level) && Body(newRoot.tree)
    ensures newRoot.tree
         == Tree(old(newRoot.tree).level, old(newRoot.tree).items + [Sub(CoverOf(half.tree), half.tree)])
    ensures newRoot.Repr == old(newRoot.Repr) + half.Repr
    ensures mem.live == old(mem.live)
  {
    hide ForestOk, Footprint, Kids, Mirrors, ItemOk, CoverOf, I.Half, Body;
    MirrorsLength(newRoot.tree.items, newRoot.m_branch[..newRoot.m_count]);
    var rect := NodeCover(half);
    var _, _ := AddBranch(mem, Branch(rect, half, NO_DATA), newRoot, false);
  }
}
