/**
  The methods that only read a tree: counting, searching and joining.
 */
module Readers {
  import opened Params
  import opened Rects
  import opened Trees
  import opened Nodes
  import Q = Queries
  import J = Joins

  lemma EntriesUpTo(items: seq<Item>, n: nat)
    requires n < |items|
    ensures EntriesOf(items[..n + 1]) == EntriesOf(items[..n]) + ItemEntries(items[n])
  {
    J.EntriesUpTo(items, n + 1);
  }

  method CountRec(n: Node, a_count: int) returns (count: int)
    requires n.Valid()
    ensures count == a_count + |Entries(n.tree)|
    decreases n.m_level
  {
    hide ForestOk, Kids, Footprint, Mirrors;
    count := a_count;
    ghost var items := n.tree.items;
    MirrorsLength(items, n.m_branch[..n.m_count]);
    assert items[..n.m_count] == items && items[..0] == [];
    if n.IsInternalNode() {
      for index := 0 to n.m_count
        invariant count == a_count + |EntriesOf(items[..index])|
      {
        SlotFacts(n, index);
        EntriesUpTo(items, index);
        count := CountRec(n.m_branch[index].m_child, count);
      }
    } else {
      LeafSize(n, n.m_count);
      count := count + n.m_count;
    }
  }

  lemma {:induction false} LeafSize(n: Node, k: nat)
    requires n.Valid() && n.m_level == 0 && k <= n.m_count == |n.tree.items|
    ensures |EntriesOf(n.tree.items[..k])| == k
    decreases k
  {
    hide ForestOk, Kids, Footprint, Mirrors;
    if k == 0 {
      assert n.tree.items[..0] == [];
    } else {
      LeafSize(n, k - 1);
      SlotFacts(n, k - 1);
      EntriesUpTo(n.tree.items, k - 1);
    }
  }

  /**
    Search: the callback is told the ids of all entries overlapping the query, in
    depth-first order, until it objects.
   */
  method Search(n: Node, rect: Rect, a_foundCount: nat, callback: Q.Callback, a_told: seq<Id>)
      returns (goOn: bool, foundCount: nat, told: seq<Id>)
    requires n.Valid() && Body(n.tree)
    ensures Q.Scan(goOn, told, foundCount)
         == Q.Deliver(Q.Hits(rect, Entries(n.tree)), callback, Q.Scan(true, a_told, a_foundCount))
    decreases n.m_level
  {
    hide ForestOk, Kids, Footprint, Mirrors, Body, Overlaps, Q.Told, Q.Deliver, Q.Hits;
    ghost var items, start := n.tree.items, Q.Scan(true, a_told, a_foundCount);
    MirrorsLength(items, n.m_branch[..n.m_count]);
    Q.ToldNothing(rect, items, callback, start);
    foundCount, told := a_foundCount, a_told;
    for index := 0 to n.m_count
      invariant Q.Scan(true, told, foundCount) == Q.Told(rect, items, index, callback, start)
    {
      SlotFacts(n, index);
      BodySlot(n.tree, index);
      Q.ToldStep(rect, items, index, callback, start);
      var overlaps := Overlap(rect, n.m_branch[index].m_rect);
      if !overlaps {
        Q.MissedSlot(rect, items[index], n.m_level);
        NothingDelivered(callback, Q.Scan(true, told, foundCount));
      } else if n.IsInternalNode() {
        goOn, foundCount, told := Search(n.m_branch[index].m_child, rect, foundCount, callback, told);
        if !goOn {
          Q.ToldAll(rect, items, index + 1, callback, start);
          return;
        }
      } else {
        var id := n.m_branch[index].m_data;
        Q.HitOne(rect, Entry(n.m_branch[index].m_rect, id), callback, Q.Scan(true, told, foundCount));
        foundCount := foundCount + 1;
        if callback.Callback? {
          told := told + [id];
          if !callback.answer(told) {
            Q.ToldAll(rect, items, index + 1, callback, start);
            return false, foundCount, told;
          }
        }
      }
    }
    Q.ToldAll(rect, items, n.m_count, callback, start);
    goOn := true;
  }

  lemma NothingDelivered(cb: Q.Callback, s: Q.Scan)
    ensures Q.Deliver([], cb, s) == s
  {
  }

  lemma BodySlot(t: Tree, k: nat)
    requires Body(t) && k < |t.items|
    ensures ItemOk(t.items[k], t.level)
    ensures t.items[k].Sub? ==> Body(t.items[k].child)
  {
  }

  /** CheckNodes, in the version that collects pairs of ids. */
  method CheckNodes(nA: Node, nB: Node, a_result: set<(Id, Id)>) returns (ocnt: nat, result: set<(Id, Id)>)
    requires nA.Valid() && Body(nA.tree) && nB.Valid() && Body(nB.tree)
    ensures ocnt == |J.Join(nA.tree, nB.tree)|
    ensures result == a_result + J.IdPairs(J.Join(nA.tree, nB.tree))
    decreases nA.m_level + nB.m_level, 1
  {
    hide ForestOk, Kids, Footprint, Mirrors, Body, Overlaps, J.JoinSlots, J.IdPairs;
    ghost var a, b := nA.tree, nB.tree;
    MirrorsLength(a.items, nA.m_branch[..nA.m_count]);
    MirrorsLength(b.items, nB.m_branch[..nB.m_count]);
    J.IdPairsConcat([], []);
    ocnt, result := 0, a_result;
    for index := 0 to nA.m_count
      invariant ocnt == |J.JoinRows(a, b, index)|
      invariant result == a_result + J.IdPairs(J.JoinRows(a, b, index))
    {
      for index2 := 0 to nB.m_count
        invariant ocnt == |J.JoinRows(a, b, index)| + |J.JoinRow(a, b, index, index2)|
        invariant result == a_result + J.IdPairs(J.JoinRows(a, b, index)) + J.IdPairs(J.JoinRow(a, b, index, index2))
      {
        ocnt, result := CheckSlots(nA, nB, index, index2, ocnt, result);
        J.IdPairsConcat(J.JoinRow(a, b, index, index2), J.JoinSlots(a, b, index, index2));
      }
      J.IdPairsConcat(J.JoinRows(a, b, index), J.JoinRow(a, b, index, nB.m_count));
    }
  }

  /** The body of the two loops of CheckNodes. */
  method CheckSlots(nA: Node, nB: Node, index: int, index2: int, a_cnt: nat, a_result: set<(Id, Id)>)
      returns (ocnt: nat, result: set<(Id, Id)>)
    requires nA.Valid() && Body(nA.tree) && nB.Valid() && Body(nB.tree)
    requires 0 <= index < nA.m_count == |nA.tree.items| && 0 <= index2 < nB.m_count == |nB.tree.items|
    ensures ocnt == a_cnt + |J.JoinSlots(nA.tree, nB.tree, index, index2)|
    ensures result == a_result + J.IdPairs(J.JoinSlots(nA.tree, nB.tree, index, index2))
    decreases nA.m_level + nB.m_level, 0
  {
    hide ForestOk, Kids, Footprint, Mirrors, Body, Overlaps, J.Join;
    SlotFacts(nA, index);
    SlotFacts(nB, index2);
    BodySlot(nA.tree, index);
    BodySlot(nB.tree, index2);
    ocnt, result := a_cnt, a_result;
    var overlaps := Overlap(nA.m_branch[index].m_rect, nB.m_branch[index2].m_rect);
    if overlaps {
      var more;
      if nA.m_level > 0 {
        if nB.m_level > 0 {
          more, result := CheckNodes(nA.m_branch[index].m_child, nB.m_branch[index2].m_child, result);
        } else {
          more, result := CheckNodes(nA.m_branch[index].m_child, nB, result);
        }
        ocnt := ocnt + more;
      } else if nB.m_level > 0 {
        more, result := CheckNodes(nA, nB.m_branch[index2].m_child, result);
        ocnt := ocnt + more;
      } else {
        result := result + {(nA.m_branch[index].m_data, nB.m_branch[index2].m_data)};
        ocnt := ocnt + 1;
      }
    }
  }
}
