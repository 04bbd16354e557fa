/**
  Walking over all nodes of a tree to free them or to copy them.
 */
module Copying {
  import opened Params
  import opened Nodes

  /** RemoveAllRec: children first, each node exactly once. */
  method RemoveAllRec(mem: Memory, n: Node)
    requires n.Valid() && mem.Holds(n.Repr)
    modifies mem
    ensures mem.live == old(mem.live) - n.Repr
    decreases n.m_level
  {
    hide ForestOk, BranchOk, Footprint, Mirrors;
    ghost var bs := n.m_branch[..n.m_count];
    KidsOwned(bs, n.m_level);
    assert bs[..|bs|] == bs;
    if n.IsInternalNode() {
      FootprintOfNone(bs);
      for index := 0 to n.m_count
        invariant mem.live == old(mem.live) - Footprint(bs[..index])
      {
        SlotFacts(n, index);
        ForestApart(bs, n.m_level, index);
        assert bs[index] == n.m_branch[index];
        assert mem !in Kids(bs[..index]) && mem !in Kids(bs[..index + 1]);
        RemoveAllRec(mem, n.m_branch[index].m_child);
      }
    } else {
      LeafOwnsNothing(bs);
    }
    mem.FreeNode(n);
  }

  lemma FootprintOfNone(bs: seq<Branch>)
    ensures Footprint(bs[..0]) == {}
  {
  }

  lemma LeafOwnsNothing(bs: seq<Branch>)
    requires ForestOk(bs, 0)
    ensures Footprint(bs) == {}
  {
  }

  /** CopyRec: a node of the same shape, all of whose descendants are new. */
  method CopyRec(mem: Memory, current: Node, other: Node)
    requires other.Valid() && Shell(current) !! other.Repr && current.m_branch.Length == MAX
    requires mem.Holds(Shell(current)) && mem !in other.Repr
    modifies mem, current, current.m_branch
    ensures current.Valid() && current.tree == other.tree
    ensures Shell(current) <= current.Repr && fresh(current.Repr - Shell(current))
    ensures mem.live == old(mem.live) + current.Repr
    decreases other.m_level
  {
    hide ForestOk, BranchOk, ItemOf, Owned, Kids, Footprint, Mirrors;
    ghost var t := other.tree;
    MirrorsLength(t.items, other.m_branch[..other.m_count]);
    current.m_level := other.m_level;
    current.m_count := other.m_count;
    FilledNone(current, t.level, t.items);
    for index := 0 to current.m_count
      invariant current.m_level == t.level && current.m_count == |t.items|
      invariant Filled(current, t.level, t.items, index)
      invariant fresh(Footprint(current.m_branch[..index]))
      invariant mem.live == old(mem.live) + Footprint(current.m_branch[..index])
    {
      CopySlot(mem, current, other, index);
    }
    Complete(current, t);
  }

  /** One slot of CopyRec. */
  method CopySlot(mem: Memory, current: Node, other: Node, index: int)
    requires other.Valid() && Shell(current) !! other.Repr && current.m_branch.Length == MAX
    requires 0 <= index < other.m_count == |other.tree.items| && current.m_level == other.m_level
    requires Filled(current, other.m_level, other.tree.items, index)
    requires mem.Holds(Shell(current) + Footprint(current.m_branch[..index])) && mem !in other.Repr
    modifies mem, current.m_branch
    ensures Filled(current, other.m_level, other.tree.items, index + 1)
    ensures var more := Footprint(current.m_branch[..index + 1]);
      && old(Footprint(current.m_branch[..index])) <= more
      && fresh(more - old(Footprint(current.m_branch[..index])))
      && mem.live == old(mem.live) + more
    decreases other.m_level, 0, 1
  {
    hide ForestOk, BranchOk, ItemOf, Kids, Footprint, Mirrors;
    SlotFacts(other, index);
    ghost var before := current.m_branch[..index];
    var b := CopyBranch(mem, other, index, current.m_branch[index].m_data);
    current.m_branch[index] := b;
    assert current.m_branch[..index] == before;
    FilledStep(current, other.m_level, other.tree.items, index);
  }

  /** What CopyRec puts into a slot: the same box, and below it a copy of the subtree or the same id. */
  method CopyBranch(mem: Memory, other: Node, index: int, data: Id) returns (b: Branch)
    requires other.Valid() && 0 <= index < other.m_count == |other.tree.items|
    requires mem.Holds({}) && mem !in other.Repr
    modifies mem
    ensures BranchOk(b, other.m_level) && ItemOf(b) == other.tree.items[index] && fresh(Owned(b))
    ensures b.m_child != null ==> fresh(b.m_child)
    ensures mem.live == old(mem.live) + Owned(b)
    decreases other.m_level, 0, 0
  {
    hide ForestOk, Kids, Footprint, Mirrors;
    SlotFacts(other, index);
    if other.IsInternalNode() {
      var child := mem.AllocNode();
      CopyRec(mem, child, other.m_branch[index].m_child);
      b := Branch(other.m_branch[index].m_rect, child, data);
    } else {
      b := Branch(other.m_branch[index].m_rect, null, other.m_branch[index].m_data);
    }
  }
}
