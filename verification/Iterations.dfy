/**
  Iteration on tree values: an explicit stack of positions, and the entries it still holds.
 */
module Iterations {
  import opened Trees

  /** A node and a slot of it; on the stack, the slots from there on are still to be visited. */
  datatype Position = Position(t: Tree, i: nat)

  /** Bottom first; the top is the deepest position. */
  function Pending(stack: seq<Position>): seq<Entry>
    decreases |stack|
  {
    if stack == [] then []
    else
      var top := stack[|stack| - 1];
      (if top.i <= |top.t.items| then EntriesOf(top.t.items[top.i..]) else []) + Pending(stack[..|stack| - 1])
  }

  ghost predicate PositionOk(p: Position) {
    p.i < |p.t.items| && Body(p.t)
  }

  /** Levels fall strictly from bottom to top, so the stack is never deeper than the tree is high. */
  ghost predicate Descending(stack: seq<Position>) {
    && (forall k | 0 <= k < |stack| :: PositionOk(stack[k]))
    && (forall k | 0 < k < |stack| :: stack[k].t.level < stack[k - 1].t.level)
  }

  lemma {:induction false} DepthBound(stack: seq<Position>, k: nat)
    requires Descending(stack) && k < |stack|
    ensures stack[k].t.level + k <= stack[0].t.level
    decreases k
  {
    hide PositionOk;
    if k > 0 {
      DepthBound(stack, k - 1);
    }
  }

  /** A stack over a tree of height H has at most H + 1 positions. */
  lemma StackFits(stack: seq<Position>, height: nat)
    requires Descending(stack) && (stack != [] ==> stack[0].t.level <= height)
    ensures |stack| <= height + 1
  {
    if stack != [] {
      DepthBound(stack, |stack| - 1);
    }
  }

  /** Room for one more position below the top. */
  lemma RoomToPush(stack: seq<Position>, p: Position, height: nat)
    requires Descending(stack) && PositionOk(p) && p.t.level <= height
    requires stack != [] ==> stack[0].t.level <= height && p.t.level < stack[|stack| - 1].t.level
    ensures Descending(stack + [p]) && |stack| + 1 <= height + 1
    ensures (stack + [p])[0].t.level <= height
  {
    hide PositionOk;
    StackFits(stack + [p], height);
  }

  lemma PendingPush(stack: seq<Position>, p: Position)
    requires Descending(stack) && PositionOk(p)
    ensures Pending(stack + [p]) == EntriesOf(p.t.items[p.i..]) + Pending(stack)
  {
    assert (stack + [p])[..|stack|] == stack;
  }

  lemma EntriesFrom(items: seq<Item>, i: nat)
    requires i < |items|
    ensures EntriesOf(items[i..]) == ItemEntries(items[i]) + EntriesOf(items[i + 1..])
  {
    assert items[i..] == [items[i]] + items[i + 1..];
    EntriesOfConcat([items[i]], items[i + 1..]);
    EntriesOfOne(items[i]);
  }

  lemma EntriesFromEnd(items: seq<Item>)
    ensures EntriesOf(items[|items|..]) == []
  {
  }

  lemma PendingNonEmpty(stack: seq<Position>)
    requires Descending(stack)
    ensures stack == [] <==> Pending(stack) == []
  {
    if stack != [] {
      var top := stack[|stack| - 1];
      assert PositionOk(top);
      assert AllOk(top.t.items[top.i..], top.t.level) by {
        forall k | 0 <= k < |top.t.items[top.i..]|
          ensures ItemOk(top.t.items[top.i..][k], top.t.level)
        {
          assert ItemOk(top.t.items[top.i + k], top.t.level);
        }
      }
      ItemsCover(top.t.items[top.i..], top.t.level);
    }
  }

  lemma TopOff(below: seq<Position>, top: Position)
    requires Descending(below + [top])
    ensures Descending(below) && PositionOk(top)
    ensures below != [] ==> top.t.level < below[|below| - 1].t.level
    ensures top.t.level <= (below + [top])[0].t.level
    ensures forall i | PositionOk(Position(top.t, i)) :: Descending(below + [Position(top.t, i)])
  {
    hide PositionOk;
    var all := below + [top];
    DepthBound(all, |below|);
    assert PositionOk(all[|below|]);
    assert forall k | 0 <= k < |below| :: below[k] == all[k];
  }

  lemma SlotParts(p: Position)
    requires PositionOk(p)
    ensures p.i < |p.t.items| && Body(p.t) && ItemOk(p.t.items[p.i], p.t.level)
    ensures p.t.level == 0 ==> |ItemEntries(p.t.items[p.i])| == 1
    ensures p.t.level > 0 ==>
      var it := p.t.items[p.i];
      && it.Sub? && it.child.level == p.t.level - 1 && PositionOk(Position(it.child, 0))
      && EntriesOf(it.child.items[0..]) == ItemEntries(it)
    ensures p.i + 1 < |p.t.items| ==> PositionOk(Position(p.t, p.i + 1))
    ensures EntriesOf(p.t.items[p.i..]) == ItemEntries(p.t.items[p.i]) + EntriesOf(p.t.items[p.i + 1..])
    ensures p.i + 1 == |p.t.items| ==> EntriesOf(p.t.items[p.i + 1..]) == []
  {
    var it := p.t.items[p.i];
    assert ItemOk(it, p.t.level);
    EntriesFrom(p.t.items, p.i);
    EntriesFromEnd(p.t.items);
    if p.t.level > 0 {
      assert it.child.items[0..] == it.child.items;
    }
  }

  lemma FirstDropped<T>(one: seq<T>, more: seq<T>, rest: seq<T>)
    requires |one| == 1
    ensures one + more + rest != [] && (one + more + rest)[1..] == more + rest
    ensures more == [] ==> more + rest == rest
  {
  }

  /** Moving on within a leaf, or dropping it after its last slot, consumes one entry. */
  lemma LeafConsumed(below: seq<Position>, top: Position)
    requires Descending(below + [top]) && top.t.level == 0
    ensures top.i < |top.t.items| && Body(top.t)
    ensures Pending(below + [top]) != []
    ensures top.i + 1 < |top.t.items| ==>
      Pending(below + [Position(top.t, top.i + 1)]) == Pending(below + [top])[1..]
    ensures top.i + 1 == |top.t.items| ==> Pending(below) == Pending(below + [top])[1..]
    ensures below != [] ==> below[|below| - 1].t.level > 0
    ensures top.t.level <= (below + [top])[0].t.level
  {
    hide PositionOk, Descending, Body, ItemOk, EntriesOf, ItemEntries, Pending;
    TopOff(below, top);
    SlotParts(top);
    PendingPush(below, top);
    FirstDropped(ItemEntries(top.t.items[top.i]), EntriesOf(top.t.items[top.i + 1..]), Pending(below));
    if top.i + 1 < |top.t.items| {
      PendingPush(below, Position(top.t, top.i + 1));
    }
  }

  /** Entering a child, with its later siblings left on the stack, keeps what is pending. */
  lemma ChildEntered(below: seq<Position>, top: Position)
    requires Descending(below + [top]) && top.t.level > 0
    ensures top.i < |top.t.items| && Body(top.t) && top.t.items[top.i].Sub?
    ensures below != [] ==> top.t.level < below[|below| - 1].t.level
    ensures top.t.level <= (below + [top])[0].t.level
    ensures var c := top.t.items[top.i].child;
      && c.level == top.t.level - 1 && Body(c) && c.items != []
      && Pending(below + [top])
         == (if top.i + 1 < |top.t.items| then Pending(below + [Position(top.t, top.i + 1)] + [Position(c, 0)])
             else Pending(below + [Position(c, 0)]))
  {
    hide PositionOk, Descending, ItemOk, EntriesOf, ItemEntries, Pending;
    TopOff(below, top);
    SlotParts(top);
    PendingPush(below, top);
    var c := top.t.items[top.i].child;
    SlotParts(Position(c, 0));
    if top.i + 1 < |top.t.items| {
      PendingPush(below, Position(top.t, top.i + 1));
      PendingPush(below + [Position(top.t, top.i + 1)], Position(c, 0));
    } else {
      PendingPush(below, Position(c, 0));
    }
  }

  lemma StackOfNone(t: Tree)
    ensures Descending([]) && Entries(t) + Pending([]) == Entries(t)
  {
  }

  /** On the way down to the first leaf: the first child first, its siblings later. */
  lemma FirstChild(stack: seq<Position>, t: Tree)
    requires Descending(stack) && Loose(t) && t.level > 0
    ensures t.items != [] && t.items[0].Sub? && Loose(t.items[0].child) && t.items[0].child.items != [] && Body(t)
    ensures var c := t.items[0].child;
      && (|t.items| > 1 ==>
            Entries(c) + Pending(stack + [Position(t, 1)]) == Entries(t) + Pending(stack))
      && (|t.items| == 1 ==> Entries(c) + Pending(stack) == Entries(t) + Pending(stack))
  {
    hide PositionOk, Descending, Body, ItemOk, EntriesOf, ItemEntries, Pending;
    assert PositionOk(Position(t, 0)) by {
      FirstPosition(t);
    }
    SlotParts(Position(t, 0));
    assert t.items[0..] == t.items && t.items[0].child.items[0..] == t.items[0].child.items;
    ChildIsLoose(t);
    if |t.items| > 1 {
      PendingPush(stack, Position(t, 1));
    }
  }

  lemma FirstPosition(t: Tree)
    requires Body(t) && t.items != []
    ensures PositionOk(Position(t, 0))
  {
  }

  lemma ChildIsLoose(t: Tree)
    requires Body(t) && t.items != [] && t.level > 0
    ensures t.items[0].Sub? && Loose(t.items[0].child) && t.items[0].child.items != []
  {
    assert ItemOk(t.items[0], t.level);
  }

  lemma FirstLeaf(stack: seq<Position>, t: Tree)
    requires Descending(stack) && Loose(t)
    ensures t.items != [] ==> Pending(stack + [Position(t, 0)]) == Entries(t) + Pending(stack)
    ensures t.items == [] ==> Entries(t) + Pending(stack) == Pending(stack)
    ensures Body(t)
  {
    if t.items != [] {
      FirstPosition(t);
      assert t.items[0..] == t.items;
      PendingPush(stack, Position(t, 0));
    }
  }
}
