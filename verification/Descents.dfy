/**
  Which leaves a removal opens: those whose own cover overlaps the query, in depth-first
  order.  The entry it takes is the first with the id in them.
 */
module Descents {
  import opened Params
  import opened Rects
  import opened Trees
  import R = Removes

  // ---------------------------------------------------------------- leaves

  /** The leaves of a tree in depth-first order. */
  function Leaves(t: Tree): seq<Tree>
    decreases t, 1
  {
    if t.level == 0 then [t] else LeavesFrom(t.items, 0)
  }

  function LeavesFrom(items: seq<Item>, i: nat): seq<Tree>
    requires i <= |items|
    decreases items, |items| - i
  {
    if i == |items| then [] else ItemLeaves(items[i]) + LeavesFrom(items, i + 1)
  }

  function ItemLeaves(it: Item): seq<Tree>
    decreases it, 0
  {
    match it
    case Data(_, _) => []
    case Sub(_, c) => Leaves(c)
  }

  function AllOf(leaves: seq<Tree>): seq<Entry>
    decreases |leaves|
  {
    if leaves == [] then [] else Entries(leaves[0]) + AllOf(leaves[1..])
  }

  /** A leaf whose cover overlaps the query. */
  predicate Touched(r: Rect, leaf: Tree) {
    leaf.items != [] && Overlaps(r, CoverOf(leaf))
  }

  /** The entries of the leaves whose cover overlaps the query. */
  function Opened(r: Rect, leaves: seq<Tree>): seq<Entry>
    decreases |leaves|
  {
    if leaves == [] then []
    else (if Touched(r, leaves[0]) then Entries(leaves[0]) else []) + Opened(r, leaves[1..])
  }

  lemma {:induction false} AllOfConcat(a: seq<Tree>, b: seq<Tree>)
    ensures AllOf(a + b) == AllOf(a) + AllOf(b)
    decreases |a|
  {
    hide Entries;
    if a == [] {
      assert a + b == b;
    } else {
      assert (a + b)[1..] == a[1..] + b;
      AllOfConcat(a[1..], b);
    }
  }

  lemma {:induction false} OpenedConcat(r: Rect, a: seq<Tree>, b: seq<Tree>)
    ensures Opened(r, a + b) == Opened(r, a) + Opened(r, b)
    decreases |a|
  {
    hide Entries, Touched;
    if a == [] {
      assert a + b == b;
    } else {
      assert (a + b)[1..] == a[1..] + b;
      OpenedConcat(r, a[1..], b);
    }
  }

  /** The leaves hold all entries, in order. */
  lemma {:induction false} LeavesHoldAll(t: Tree)
    requires Body(t)
    ensures AllOf(Leaves(t)) == Entries(t)
    decreases t, 1
  {
    hide Body, EntriesOf;
    if t.level == 0 {
      assert [t][1..] == [];
    } else {
      LeavesFromHold(t, 0);
      assert t.items[0..] == t.items;
    }
  }

  lemma {:induction false} LeavesFromHold(t: Tree, i: nat)
    requires Body(t) && t.level > 0 && i <= |t.items|
    ensures AllOf(LeavesFrom(t.items, i)) == EntriesOf(t.items[i..])
    decreases t, 0, |t.items| - i
  {
    hide Body, EntriesOf;
    if i == |t.items| {
      NothingFrom(t.items);
    } else {
      SlotChild(t, i);
      LeavesHoldAll(t.items[i].child);
      LeavesFromHold(t, i + 1);
      AllOfConcat(ItemLeaves(t.items[i]), LeavesFrom(t.items, i + 1));
      EntriesOfConcat([t.items[i]], t.items[i + 1..]);
      EntriesOfOne(t.items[i]);
      assert t.items[i..] == [t.items[i]] + t.items[i + 1..];
    }
  }

  lemma NothingFrom(items: seq<Item>)
    ensures EntriesOf(items[|items|..]) == []
  {
  }

  lemma SlotChild(t: Tree, i: nat)
    requires Body(t) && t.level > 0 && i < |t.items|
    ensures var it := t.items[i];
      && it.Sub? && Body(it.child) && it.child.level == t.level - 1 && it.child.items != []
      && it.rect == CoverOf(it.child) && ItemEntries(it) == Entries(it.child)
  {
    assert ItemOk(t.items[i], t.level);
  }

  // ---------------------------------------------------------------- boxes on the way down

  /** Every leaf has its cover inside the cover of what it lies below. */
  lemma {:induction false} LeavesInside(t: Tree, s: Tree)
    requires Body(t) && t.items != [] && s in Leaves(t)
    ensures s.level == 0 && Body(s) && s.items != [] && Contains(CoverOf(t), CoverOf(s))
    decreases t, 1
  {
    hide Body, CoverOf, Contains;
    if t.level == 0 {
      ContainsSelf(CoverOf(t));
    } else {
      var i := LeafSlot(t, s, 0);
      SlotChild(t, i);
      LeavesInside(t.items[i].child, s);
      SlotInCover(t, i);
      ContainsTransitive(CoverOf(t), t.items[i].rect, CoverOf(s));
    }
  }

  lemma ContainsSelf(r: Rect)
    ensures Contains(r, r)
  {
  }

  lemma SlotInCover(t: Tree, i: nat)
    requires i < |t.items|
    ensures Contains(CoverOf(t), t.items[i].rect)
  {
    CoverIsLeast(RectsOf(t.items));
    assert RectsOf(t.items)[i] == t.items[i].rect;
  }

  lemma {:induction false} LeafSlot(t: Tree, s: Tree, from: nat) returns (i: nat)
    requires Body(t) && t.level > 0 && from <= |t.items| && s in LeavesFrom(t.items, from)
    ensures from <= i < |t.items| && t.items[i].Sub? && s in Leaves(t.items[i].child)
    decreases |t.items| - from
  {
    hide Body;
    SlotChild(t, from);
    if s in ItemLeaves(t.items[from]) {
      i := from;
    } else {
      i := LeafSlot(t, s, from + 1);
    }
  }

  /** Below a box that misses the query no leaf is opened. */
  lemma NothingOpened(r: Rect, t: Tree)
    requires Body(t) && t.items != [] && !Overlaps(r, CoverOf(t))
    ensures Opened(r, Leaves(t)) == []
  {
    hide Body, Overlaps, CoverOf;
    forall s | s in Leaves(t)
      ensures !Touched(r, s)
    {
      LeavesInside(t, s);
      if Overlaps(r, CoverOf(s)) {
        OverlapMonotone(r, CoverOf(t), CoverOf(s));
      }
    }
    NoneTouched(r, Leaves(t));
  }

  lemma {:induction false} NoneTouched(r: Rect, leaves: seq<Tree>)
    requires forall s | s in leaves :: !Touched(r, s)
    ensures Opened(r, leaves) == []
    decreases |leaves|
  {
    hide Touched;
    if leaves != [] {
      assert leaves[0] in leaves;
      NoneTouched(r, leaves[1..]);
    }
  }

  // ---------------------------------------------------------------- what the descent reaches

  lemma {:induction false} LeafReachesAll(t: Tree, r: Rect, i: nat)
    requires Body(t) && t.level == 0 && i <= |t.items|
    ensures R.Reached(r, t.items, i) == EntriesOf(t.items[i..])
    decreases |t.items| - i
  {
    hide Overlaps;
    if i < |t.items| {
      R.LeafSlot(t, i);
      LeafReachesAll(t, r, i + 1);
      assert t.items[i..] == [t.items[i]] + t.items[i + 1..];
      EntriesOfConcat([t.items[i]], t.items[i + 1..]);
      EntriesOfOne(t.items[i]);
    }
  }

  /** The descent below an internal node reaches the leaves whose cover overlaps the query, and no other. */
  lemma {:induction false} ReachedAreOpened(t: Tree, r: Rect, i: nat)
    requires Body(t) && t.level > 0 && i <= |t.items|
    ensures R.Reached(r, t.items, i) == Opened(r, LeavesFrom(t.items, i))
    decreases t, |t.items| - i
  {
    hide Body, Overlaps, EntriesOf, Touched, CoverOf;
    if i < |t.items| {
      ReachedAreOpened(t, r, i + 1);
      OpenedConcat(r, ItemLeaves(t.items[i]), LeavesFrom(t.items, i + 1));
      SlotChild(t, i);
      var c := t.items[i].child;
      if !Overlaps(r, t.items[i].rect) {
        NothingOpened(r, c);
      } else if c.level > 0 {
        ReachedAreOpened(c, r, 0);
        assert ItemLeaves(t.items[i]) == Leaves(c) == LeavesFrom(c.items, 0);
      } else {
        OneLeafOpened(c, r);
      }
    }
  }

  lemma OneLeafOpened(c: Tree, r: Rect)
    requires Body(c) && c.level == 0 && c.items != [] && Overlaps(r, CoverOf(c))
    ensures R.Reached(r, c.items, 0) == Opened(r, Leaves(c))
  {
    hide Overlaps, EntriesOf;
    LeafReachesAll(c, r, 0);
    assert c.items[0..] == c.items && [c][1..] == [];
    assert Opened(r, []) == [];
  }

  lemma {:induction false} OpenedHas(r: Rect, leaves: seq<Tree>, e: Entry)
    ensures e in Opened(r, leaves) <==> exists s | s in leaves && Touched(r, s) :: e in Entries(s)
    decreases |leaves|
  {
    hide Touched, Entries;
    if leaves != [] {
      OpenedHas(r, leaves[1..], e);
      assert leaves == [leaves[0]] + leaves[1..];
      if e in Opened(r, leaves[1..]) {
        var s :| s in leaves[1..] && Touched(r, s) && e in Entries(s);
        assert s in leaves;
      }
    }
  }

  /** Below an internal root exactly the entries of leaves whose cover overlaps the query are reached. */
  lemma ReachedIff(t: Tree, r: Rect, e: Entry)
    requires WellFormed(t) && t.level > 0
    ensures e in R.Reached(r, t.items, 0)
       <==> exists s | s in Leaves(t) && s.items != [] && Overlaps(r, CoverOf(s)) :: e in Entries(s)
  {
    hide Overlaps, CoverOf, Entries;
    ReachedAreOpened(t, r, 0);
    OpenedHas(r, Leaves(t), e);
  }

  // ---------------------------------------------------------------- removal

  /** The place of a sequence element among the opened leaves. */
  lemma {:induction false} OpenedPlace(r: Rect, leaves: seq<Tree>, k: nat) returns (m: nat, j: nat)
    requires k < |Opened(r, leaves)|
    ensures m < |leaves| && Touched(r, leaves[m]) && j < |Entries(leaves[m])|
    ensures Entries(leaves[m])[j] == Opened(r, leaves)[k]
    ensures forall n, i | 0 <= n < m && Touched(r, leaves[n]) && 0 <= i < |Entries(leaves[n])| ::
              Entries(leaves[n])[i] in Opened(r, leaves)[..k]
    ensures forall i | 0 <= i < j :: Entries(leaves[m])[i] in Opened(r, leaves)[..k]
    decreases |leaves|
  {
    hide Touched, Entries;
    var head, all := if Touched(r, leaves[0]) then Entries(leaves[0]) else [], Opened(r, leaves);
    var rest := Opened(r, leaves[1..]);
    assert all == head + rest;
    if k < |head| {
      m, j := 0, k;
      assert forall i | 0 <= i < j :: all[..k][i] == Entries(leaves[0])[i];
    } else {
      m, j := OpenedPlace(r, leaves[1..], k - |head|);
      m := m + 1;
      assert all[..k] == head + rest[..k - |head|];
      forall n, i | 0 <= n < m && Touched(r, leaves[n]) && 0 <= i < |Entries(leaves[n])|
        ensures Entries(leaves[n])[i] in all[..k]
      {
        if n > 0 {
          assert leaves[n] == leaves[1..][n - 1];
        }
      }
    }
  }

  /**
    What a removal takes, leaf by leaf.  It takes nothing if and only if no leaf it opens has
    the id; otherwise it takes the first entry with the id in the first such leaf.  A leaf is
    opened if it is the root, or if the query overlaps its cover.
   */
  lemma RemovalByLeaves(t: Tree, r: Rect, id: Id) returns (m: nat, j: nat)
    requires WellFormed(t)
    ensures R.RemoveRect(t, r, id).1 == []
       <==> forall s, e | s in Leaves(t) && e in Entries(s) && (t.level == 0 || (s.items != [] && Overlaps(r, CoverOf(s))))
              :: e.id != id
    ensures R.RemoveRect(t, r, id).1 != [] ==>
      var ls := Leaves(t);
      && m < |ls| && (t.level == 0 || (ls[m].items != [] && Overlaps(r, CoverOf(ls[m]))))
      && j < |Entries(ls[m])| && Entries(ls[m])[j].id == id && R.RemoveRect(t, r, id).1 == [Entries(ls[m])[j]]
      && (forall i | 0 <= i < j :: Entries(ls[m])[i].id != id)
      && (forall n, i | 0 <= n < m && ls[n].items != [] && Overlaps(r, CoverOf(ls[n])) && 0 <= i < |Entries(ls[n])| ::
            Entries(ls[n])[i].id != id)
  {
    hide WellFormed, Overlaps, CoverOf, Entries, R.RemoveRect, R.Reached, R.FirstWith;
    m, j := 0, 0;
    R.RemoveIsExact(t, r, id);
    ReachedAll(t, r);
    var seen := R.Reached(r, t.items, 0);
    var gone := R.RemoveRect(t, r, id).1;
    if t.level == 0 {
      assert Leaves(t) == [t];
      if gone != [] {
        j := R.FirstPlace(seen, id);
      }
    } else {
      forall e
        ensures e in seen <==> exists s | s in Leaves(t) && s.items != [] && Overlaps(r, CoverOf(s)) :: e in Entries(s)
      {
        ReachedIff(t, r, e);
      }
      if gone != [] {
        var k := R.FirstPlace(seen, id);
        m, j := OpenedPlace(r, Leaves(t), k);
      }
    }
  }

  lemma ReachedAll(t: Tree, r: Rect)
    requires WellFormed(t)
    ensures t.level == 0 ==> R.Reached(r, t.items, 0) == Entries(t)
    ensures t.level > 0 ==> R.Reached(r, t.items, 0) == Opened(r, Leaves(t))
  {
    hide Overlaps, CoverOf;
    if t.level == 0 {
      LeafReachesAll(t, r, 0);
      assert t.items[0..] == t.items;
    } else {
      ReachedAreOpened(t, r, 0);
    }
  }

  /** A query that misses an internal tree leaves it alone. */
  lemma MissedTreeIsUntouched(t: Tree, r: Rect, id: Id)
    requires WellFormed(t) && t.level > 0 && !Overlaps(r, CoverOf(t))
    ensures R.RemoveRect(t, r, id) == (t, [])
  {
    hide Overlaps, CoverOf, Entries, R.RemoveRect, R.Reached;
    R.RemoveIsExact(t, r, id);
    ReachedAll(t, r);
    NothingOpened(r, t);
  }
}
