/**
  The explicit-stack iterator over the nodes of a tree in memory.
 */
module Iterators {
  import opened Trees
  import opened Nodes
  import opened Iterations

  /** kMaxStackSize. */
  const MAX_STACK_SIZE: nat := 32

  datatype StackElement = StackElement(m_node: Node?, m_branchIndex: int)

  class Iterator {
    const m_stack: array<StackElement>
    var m_tos: int
    /** What the stack stands for. */
    ghost var stack: seq<Position>

    /** The iterator walks over the tree at `root`. */
    ghost predicate On(root: Node)
      reads this, m_stack, root, root.Repr
    {
      && m_stack.Length == MAX_STACK_SIZE && m_stack !in root.Repr && this !in root.Repr
      && m_tos == |stack| <= MAX_STACK_SIZE
      && root.m_level < MAX_STACK_SIZE
      && Descending(stack) && (stack != [] ==> stack[0].t.level <= root.m_level)
      && forall k | 0 <= k < m_tos :: Shows(m_stack[k], stack[k], root)
    }

    /** Between two calls the top of the stack is a leaf. */
    ghost predicate AtData()
      reads this
    {
      stack != [] ==> stack[|stack| - 1].t.level == 0
    }

    constructor ()
      ensures m_tos == 0 && stack == [] && m_stack.Length == MAX_STACK_SIZE && fresh(m_stack)
    {
      m_stack := new StackElement[MAX_STACK_SIZE](_ => StackElement(null, 0));
      m_tos := 0;
      stack := [];
    }

    method Init()
      modifies this
      ensures m_tos == 0 && stack == []
    {
      m_tos, stack := 0, [];
    }

    predicate IsNull()
      reads this
    {
      m_tos <= 0
    }

    /** Push; the assertion on the stack size always holds. */
    method Push(n: Node, i: int, ghost root: Node)
      requires On(root) && root.Valid() && n in root.Repr && n.Repr <= root.Repr && n.Valid() && Body(n.tree)
      requires 0 <= i < n.m_count && n.m_level <= root.m_level
      requires stack != [] ==> n.m_level < stack[|stack| - 1].t.level
      modifies this, m_stack
      ensures On(root) && stack == old(stack) + [Position(n.tree, i)]
    {
      hide ForestOk, Kids, Footprint, Body;
      MirrorsLength(n.tree.items, n.m_branch[..n.m_count]);
      RoomToPush(stack, Position(n.tree, i), root.m_level);
      m_stack[m_tos] := StackElement(n, i);
      m_tos := m_tos + 1;
      stack := stack + [Position(n.tree, i)];
      assert m_tos <= MAX_STACK_SIZE;
    }

    method Pop(ghost root: Node) returns (e: StackElement)
      requires On(root) && m_tos > 0
      modifies this
      ensures On(root) && stack == old(stack)[..|old(stack)| - 1]
      ensures Shows(e, old(stack)[|old(stack)| - 1], root)
    {
      m_tos := m_tos - 1;
      e := m_stack[m_tos];
      stack := stack[..m_tos];
    }

    /** The current entry: the first one pending. */
    method Current(ghost root: Node) returns (e: Entry)
      requires On(root) && AtData() && !IsNull()
      ensures Pending(stack) != [] && e == Pending(stack)[0]
    {
      hide ForestOk, Kids, Footprint, Body;
      var curTos := m_stack[m_tos - 1];
      ghost var top := stack[|stack| - 1];
      assert Shows(curTos, top, root);
      var curBranch := curTos.m_node.m_branch[curTos.m_branchIndex];
      SlotFacts(curTos.m_node, curTos.m_branchIndex);
      EntriesFrom(top.t.items, top.i);
      e := Entry(curBranch.m_rect, curBranch.m_data);
    }

    /** FindNextData: the current entry is done with; the next one, if any, becomes current. */
    method FindNextData(ghost root: Node) returns (more: bool)
      requires root.Valid() && On(root) && AtData()
      modifies this, m_stack
      ensures On(root) && AtData()
      ensures Pending(stack) == if old(Pending(stack)) == [] then [] else old(Pending(stack))[1..]
      ensures more <==> !IsNull()
      ensures more <==> Pending(stack) != []
    {
      hide ForestOk, Kids, Footprint, Body, Shows, PositionOk;
      ghost var all, leaf := Pending(stack), stack != [];
      if m_tos <= 0 {
        return false;
      }
      more := LeaveLeaf(root);
      ghost var rest := all[1..];
      while !more && m_tos > 0
        invariant On(root) && Pending(stack) == rest
        invariant more ==> AtData() && stack != []
        invariant !more && stack != [] ==> stack[|stack| - 1].t.level > 0
        decreases !more, if stack == [] then 0 else stack[|stack| - 1].t.level
      {
        more := EnterChild(root);
      }
      PendingNonEmpty(stack);
    }

    /** The top of the stack is taken off and its next sibling, if any, put there instead. */
    method Advance(ghost root: Node) returns (curTos: StackElement, moved: bool)
      requires root.Valid() && On(root) && m_tos > 0
      modifies this, m_stack
      ensures On(root)
      ensures var top, below := old(stack)[|old(stack)| - 1], old(stack)[..|old(stack)| - 1];
        && Shows(curTos, top, root) && PositionOk(top) && top.i < |top.t.items| && top.t.level <= root.m_level
        && moved == (top.i + 1 < |top.t.items|)
        && stack == (if moved then below + [Position(top.t, top.i + 1)] else below)
        && (stack != [] ==> stack[|stack| - 1].t.level >= top.t.level)
    {
      hide ForestOk, Kids, Footprint, Body, PositionOk, Descending, Shows, Node.Valid;
      ghost var top, below := stack[|stack| - 1], stack[..|stack| - 1];
      assert stack == below + [top];
      TopOff(below, top);
      PositionInRange(top);
      curTos := Pop(root);
      ShowsFacts(curTos, top, root);
      moved := curTos.m_branchIndex + 1 < curTos.m_node.m_count;
      if moved {
        Push(curTos.m_node, curTos.m_branchIndex + 1, root);
      }
    }

    /** One round of FindNextData with a leaf on top: its next slot, or the level below the top. */
    method LeaveLeaf(ghost root: Node) returns (more: bool)
      requires root.Valid() && On(root) && AtData() && m_tos > 0
      modifies this, m_stack
      ensures On(root) && old(Pending(stack)) != [] && Pending(stack) == old(Pending(stack))[1..]
      ensures more ==> AtData() && stack != []
      ensures !more && stack != [] ==> stack[|stack| - 1].t.level > 0
    {
      hide ForestOk, Kids, Footprint, Body, PositionOk, Descending, Pending, Shows, Node.Valid;
      ghost var top, below := stack[|stack| - 1], stack[..|stack| - 1];
      assert stack == below + [top];
      LeafConsumed(below, top);
      var _, moved := Advance(root);
      more := moved;
    }

    /** One round of FindNextData with an internal node on top: its slot is entered. */
    method EnterChild(ghost root: Node) returns (more: bool)
      requires root.Valid() && On(root) && m_tos > 0 && stack[|stack| - 1].t.level > 0
      modifies this, m_stack
      ensures On(root) && Pending(stack) == old(Pending(stack)) && stack != []
      ensures more <==> stack[|stack| - 1].t.level == 0
      ensures stack[|stack| - 1].t.level < old(stack[|stack| - 1].t.level)
    {
      hide ForestOk, Kids, Footprint, Body, PositionOk, Descending, Pending, Shows, Node.Valid;
      ghost var top, below := stack[|stack| - 1], stack[..|stack| - 1];
      assert stack == below + [top];
      ChildEntered(below, top);
      var curTos, _ := Advance(root);
      ShowsFacts(curTos, top, root);
      var nextLevelnode := curTos.m_node.m_branch[curTos.m_branchIndex].m_child;
      Push(nextLevelnode, 0, root);
      more := nextLevelnode.IsLeaf();
    }
  }

  lemma PositionInRange(p: Position)
    requires PositionOk(p)
    ensures p.i < |p.t.items| && Body(p.t)
  {
  }

  lemma ShowsFacts(e: StackElement, p: Position, root: Node)
    requires Shows(e, p, root) && p.i < |p.t.items|
    ensures e.m_node != null && e.m_node in root.Repr && e.m_node.Repr <= root.Repr && e.m_node.Valid()
    ensures e.m_node.tree == p.t && e.m_branchIndex == p.i
    ensures e.m_node.m_count == |p.t.items| <= e.m_node.m_branch.Length && e.m_node.m_level == p.t.level
    ensures p.t.level > 0 && p.t.items[p.i].Sub? ==>
      var c := e.m_node.m_branch[p.i].m_child;
      && c != null && c in root.Repr && c.Repr <= root.Repr && c.Valid()
      && c.tree == p.t.items[p.i].child && c.m_level == p.t.level - 1 && c.m_count == |c.tree.items|
  {
    hide ForestOk, Kids, Footprint;
    MirrorsLength(p.t.items, e.m_node.m_branch[..e.m_node.m_count]);
    if p.t.level > 0 {
      SlotFacts(e.m_node, p.i);
    }
  }

  ghost predicate Shows(e: StackElement, p: Position, root: Node)
    reads root, root.Repr
  {
    && e.m_node != null && e.m_node in root.Repr && e.m_node.Repr <= root.Repr && e.m_node.Valid()
    && e.m_node.tree == p.t && e.m_branchIndex == p.i
  }

  /** GetFirst: the leftmost path down, with the later siblings of each step left on the stack. */
  method GetFirst(root: Node, it: Iterator)
    requires root.Valid() && Loose(root.tree) && root.m_level < MAX_STACK_SIZE
    requires it.m_stack.Length == MAX_STACK_SIZE && it !in root.Repr && it.m_stack !in root.Repr
    modifies it, it.m_stack
    ensures it.On(root) && it.AtData() && Pending(it.stack) == Entries(root.tree)
  {
    hide ForestOk, Kids, Footprint, Body, PositionOk, Descending, Pending, EntriesOf, Shows, Loose;
    it.Init();
    StackOfNone(root.tree);
    var first := root;
    while first.IsInternalNode()
      invariant first.Valid() && first in root.Repr && first.Repr <= root.Repr && Loose(first.tree)
      invariant first.m_level <= root.m_level && it.On(root)
      invariant if first == root then it.stack == [] else first.tree.items != []
      invariant it.stack != [] ==> first.m_level < it.stack[|it.stack| - 1].t.level
      invariant Entries(first.tree) + Pending(it.stack) == Entries(root.tree)
      decreases first.m_level
    {
      first := GoDown(root, it, first);
    }
    NodeFacts(first);
    FirstLeaf(it.stack, first.tree);
    if first.m_count > 0 {
      it.Push(first, 0, root);
    }
  }

  /** One step of GetFirst below an internal node. */
  method GoDown(ghost root: Node, it: Iterator, first: Node) returns (next: Node)
    requires root.Valid() && first.Valid() && first in root.Repr && first.Repr <= root.Repr && Loose(first.tree)
    requires 0 < first.m_level <= root.m_level && it.On(root)
    requires it.stack != [] ==> first.m_level < it.stack[|it.stack| - 1].t.level
    modifies it, it.m_stack
    ensures next.Valid() && next in root.Repr && next.Repr <= root.Repr && Loose(next.tree)
    ensures next.m_level == first.m_level - 1 && it.On(root) && next.tree.items != []
    ensures it.stack != [] ==> next.m_level < it.stack[|it.stack| - 1].t.level
    ensures Entries(next.tree) + Pending(it.stack) == old(Entries(first.tree) + Pending(it.stack))
  {
    hide ForestOk, Kids, Footprint, Body, ItemOk, PositionOk, Descending, Pending, EntriesOf, Shows, Node.Valid;
    NodeFacts(first);
    SlotFacts(first, 0);
    FirstChild(it.stack, first.tree);
    if first.m_count > 1 {
      it.Push(first, 1, root);
    }
    next := first.m_branch[0].m_child;
  }

  /** The current entry, and on to the next one. */
  method Next(root: Node, it: Iterator) returns (e: Entry)
    requires root.Valid() && it.On(root) && it.AtData() && !it.IsNull()
    modifies it, it.m_stack
    ensures it.On(root) && it.AtData()
    ensures old(Pending(it.stack)) == [e] + Pending(it.stack)
  {
    hide ForestOk, Kids, Footprint, Body, Pending, Shows, Iterator.On;
    e := it.Current(root);
    var _ := it.FindNextData(root);
  }

  /** The loop of the plotting methods, without the drawing: every entry once, in order. */
  method Walk(root: Node) returns (visited: seq<Entry>)
    requires root.Valid() && WellFormed(root.tree) && root.m_level < MAX_STACK_SIZE
    ensures visited == Entries(root.tree)
  {
    hide ForestOk, Kids, Footprint, Body, PositionOk, Descending, Pending, EntriesOf, Shows, Iterator.On, Node.Valid;
    NodeFacts(root);
    RootIsLoose(root.tree);
    var it := new Iterator();
    GetFirst(root, it);
    visited := [];
    while !it.IsNull()
      invariant fresh(it) && fresh(it.m_stack) && it.On(root) && it.AtData()
      invariant visited + Pending(it.stack) == Entries(root.tree)
      decreases |Pending(it.stack)|
    {
      var e := Next(root, it);
      visited := visited + [e];
    }
    NothingPending(it, root);
  }

  lemma RootIsLoose(t: Tree)
    requires WellFormed(t)
    ensures Loose(t)
  {
  }

  lemma NothingPending(it: Iterator, root: Node)
    requires it.On(root) && it.IsNull()
    ensures Pending(it.stack) == []
  {
  }
}
