/**
  Removal on tree values: the pruned descent, dissolution of underfull nodes,
  re-insertion of their branches at their own level, and collapse of a redundant root.
 */
module Removes {
  import opened Params
  import opened Rects
  import opened Trees
  import opened Inserts

  // ---------------------------------------------------------------- DisconnectBranch

  /** The last slot moves into the gap. */
  function Disconnect<T>(items: seq<T>, k: nat): (r: seq<T>)
    requires k < |items|
    ensures |r| == |items| - 1
    ensures forall i | 0 <= i < |r| :: r[i] == items[if i == k then |items| - 1 else i]
    ensures forall x | x in r :: x in items
  {
    items[k := items[|items| - 1]][..|items| - 1]
  }

  lemma DisconnectSlots<T>(items: seq<T>, k: nat)
    requires k < |items|
    ensures var n := |items| - 1; Disconnect(items, k) == if k < n then items[..n][k := items[n]] else items[..n]
  {
  }

  lemma DisconnectBag(items: seq<Item>, k: nat)
    requires k < |items|
    ensures multiset(EntriesOf(items))
         == multiset(EntriesOf(Disconnect(items, k))) + multiset(ItemEntries(items[k]))
  {
    hide ItemEntries, EntriesOf, Disconnect;
    var n := |items| - 1;
    var front, last := items[..n], items[n];
    assert items == front + [last];
    BagOfPush(front, last);
    DisconnectSlots(items, k);
    if k < n {
      BagOfUpdate(front, k, last);
    }
  }

  // ---------------------------------------------------------------- RemoveRectRec

  /** The outcome of a descent; the orphans are the dissolved nodes, the latest first. */
  datatype Removed =
    | NotFound
    | Found(t: Tree, orphans: seq<Tree>, victim: Entry)

  function OrphanEntries(orphans: seq<Tree>): seq<Entry> {
    if orphans == [] then [] else Entries(orphans[0]) + OrphanEntries(orphans[1..])
  }

  /** A dissolved node lost one branch too many and is fine otherwise. */
  ghost predicate OrphanOk(o: Tree, below: nat) {
    o.level < below && Body(o) && |o.items| == MIN - 1
  }

  ghost predicate OrphansOk(orphans: seq<Tree>, below: nat) {
    forall i | 0 <= i < |orphans| :: OrphanOk(orphans[i], below)
  }

  lemma OrphansCons(o: Tree, orphans: seq<Tree>, below: nat, higher: nat)
    requires OrphansOk(orphans, below) && below <= higher && OrphanOk(o, higher)
    ensures OrphansOk([o] + orphans, higher)
  {
    var all := [o] + orphans;
    forall i | 0 <= i < |all|
      ensures OrphanOk(all[i], higher)
    {
      assert i > 0 ==> OrphanOk(orphans[i - 1], below);
    }
  }

  ghost predicate RemovedOk(t: Tree, id: Id, res: Removed) {
    res.Found? ==>
      && res.t.level == t.level && Body(res.t) && |t.items| - 1 <= |res.t.items| <= |t.items|
      && OrphansOk(res.orphans, t.level)
      && res.victim.id == id
      && Bag(t) == Bag(res.t) + multiset(OrphanEntries(res.orphans)) + multiset{res.victim}
  }

  /** The child in slot `k` shrank to `c`: its box is recomputed, or the child dissolved. */
  function Shrink(t: Tree, k: nat, sub: Removed): (res: Removed)
    requires k < |t.items| && sub.Found?
    requires |sub.t.items| >= MIN ==> sub.t.items != []
    ensures res.Found?
  {
    if |sub.t.items| >= MIN then
      Found(WithChild(t, k, CoverOf(sub.t), sub.t), sub.orphans, sub.victim)
    else
      Found(Tree(t.level, Disconnect(t.items, k)), [sub.t] + sub.orphans, sub.victim)
  }

  lemma ShrinkOk(t: Tree, k: nat, id: Id, sub: Removed)
    requires Body(t) && k < |t.items| && t.level > 0 && t.items[k].Sub?
    requires sub.Found? && RemovedOk(t.items[k].child, id, sub) && t.items[k].child.level == t.level - 1
    requires MIN <= |t.items[k].child.items|
    ensures RemovedOk(t, id, Shrink(t, k, sub))
  {
    hide EntriesOf, CoverOf;
    var c := t.items[k].child;
    var res := Shrink(t, k, sub);
    var rest := multiset(OrphanEntries(sub.orphans)) + multiset{sub.victim};
    if |sub.t.items| >= MIN {
      WithChildOk(t, k, sub.t);
      Withdraw(Bag(res.t), Bag(c), Bag(t), Bag(sub.t), rest);
    } else {
      DisconnectBag(t.items, k);
      BodyOfSome(t.items, t.level, res.t.items);
      assert OrphanOk(sub.t, t.level);
      OrphansCons(sub.t, sub.orphans, c.level, t.level);
      assert res.orphans[1..] == sub.orphans;
      assert ItemEntries(t.items[k]) == Entries(c);
    }
  }

  lemma Withdraw<T>(w: multiset<T>, c: multiset<T>, m: multiset<T>, g: multiset<T>, rest: multiset<T>)
    requires w + c == m + g && c == g + rest
    ensures m == w + rest
  {
    forall x
      ensures m[x] == (w + rest)[x]
    {
      assert (w + c)[x] == (m + g)[x] && c[x] == (g + rest)[x];
    }
  }

  /** The scan of a node from slot `i` on. */
  function RemoveFrom(r: Rect, id: Id, t: Tree, i: nat): (res: Removed)
    requires Body(t) && i <= |t.items|
    ensures RemovedOk(t, id, res)
    decreases t, |t.items| - i
  {
    if i == |t.items| then NotFound
    else if t.level > 0 then
      ChildOk(t, i);
      var sub := if Overlaps(r, t.items[i].rect) then RemoveFrom(r, id, t.items[i].child, 0) else NotFound;
      if sub.Found? then
        ShrinkOk(t, i, id, sub);
        Shrink(t, i, sub)
      else RemoveFrom(r, id, t, i + 1)
    else
      LeafSlot(t, i);
      if t.items[i].id == id then
        DisconnectBag(t.items, i);
        BodyOfSome(t.items, t.level, Disconnect(t.items, i));
        Found(Tree(t.level, Disconnect(t.items, i)), [], Entry(t.items[i].rect, t.items[i].id))
      else RemoveFrom(r, id, t, i + 1)
  }

  lemma LeafSlot(t: Tree, i: nat)
    requires Body(t) && i < |t.items| && t.level == 0
    ensures t.items[i].Data?
    ensures ItemEntries(t.items[i]) == [Entry(t.items[i].rect, t.items[i].id)]
  {
    assert ItemOk(t.items[i], t.level);
  }

  // ---------------------------------------------------------------- which entry goes

  /** The entries of the leaves a query reaches, whose own boxes are not looked at. */
  function Reached(r: Rect, items: seq<Item>, i: nat): seq<Entry>
    requires i <= |items|
    decreases items, |items| - i
  {
    if i == |items| then [] else ItemReached(r, items[i]) + Reached(r, items, i + 1)
  }

  function ItemReached(r: Rect, it: Item): seq<Entry>
    decreases it, 0
  {
    match it
    case Data(box, id) => [Entry(box, id)]
    case Sub(box, c) => if Overlaps(r, box) then Reached(r, c.items, 0) else []
  }

  /** The first entry with an id. */
  function FirstWith(es: seq<Entry>, id: Id): (first: seq<Entry>)
    ensures first == [] <==> forall e | e in es :: e.id != id
    ensures first != [] ==> |first| == 1 && first[0] in es && first[0].id == id
  {
    if es == [] then [] else if es[0].id == id then es[..1] else FirstWith(es[1..], id)
  }

  /** It is the first indeed. */
  lemma {:induction false} FirstPlace(es: seq<Entry>, id: Id) returns (k: nat)
    requires FirstWith(es, id) != []
    ensures k < |es| && FirstWith(es, id) == [es[k]] && es[k].id == id
    ensures forall i | 0 <= i < k :: es[i].id != id
    decreases |es|
  {
    if es[0].id == id {
      k := 0;
    } else {
      k := FirstPlace(es[1..], id);
      k := k + 1;
    }
  }

  lemma {:induction false} FirstWithConcat(a: seq<Entry>, b: seq<Entry>, id: Id)
    ensures FirstWith(a + b, id) == if FirstWith(a, id) != [] then FirstWith(a, id) else FirstWith(b, id)
  {
    if a == [] {
      assert a + b == b;
    } else {
      assert (a + b)[1..] == a[1..] + b;
      FirstWithConcat(a[1..], b, id);
    }
  }

  /** What a removal takes out is the first entry with the id among those reached. */
  lemma {:induction false} VictimIsFirstReached(r: Rect, id: Id, t: Tree, i: nat)
    requires Body(t) && i <= |t.items|
    ensures match RemoveFrom(r, id, t, i)
      case NotFound => FirstWith(Reached(r, t.items, i), id) == []
      case Found(_, _, v) => FirstWith(Reached(r, t.items, i), id) == [v]
    decreases t, |t.items| - i
  {
    hide Overlaps, WithChild, CoverOf, Disconnect, FirstWith, Body, RemovedOk;
    if i < |t.items| {
      FirstWithConcat(ItemReached(r, t.items[i]), Reached(r, t.items, i + 1), id);
      VictimIsFirstReached(r, id, t, i + 1);
      if t.level > 0 {
        ChildOk(t, i);
        VictimIsFirstReached(r, id, t.items[i].child, 0);
      } else {
        LeafSlot(t, i);
      }
    }
  }

  /** Pruning loses nothing: every entry overlapping the query is reached. */
  lemma {:induction false} OverlappingIsReached(r: Rect, items: seq<Item>, level: nat, i: nat, e: Entry)
    requires AllOk(items, level) && i < |items|
    requires e in ItemEntries(items[i]) && Overlaps(r, e.rect)
    ensures e in ItemReached(r, items[i])
    decreases items[i]
  {
    match items[i]
    case Data(_, _) =>
    case Sub(box, c) =>
      assert ItemOk(items[i], level);
      assert AllOk(c.items, c.level) by {
        assert Body(c);
      }
      ItemCovers(items[i], level);
      OverlapMonotone(r, box, e.rect);
      var k := EntryHasSlot(c.items, e);
      OverlappingIsReached(r, c.items, c.level, k, e);
      SlotIsReached(r, c.items, k, 0, e);
  }

  lemma {:induction false} SlotIsReached(r: Rect, items: seq<Item>, k: nat, i: nat, e: Entry)
    requires i <= k < |items| && e in ItemReached(r, items[k])
    ensures e in Reached(r, items, i)
    decreases k - i
  {
    if i < k {
      SlotIsReached(r, items, k, i + 1, e);
    }
  }

  lemma {:induction false} ReachedIsStored(r: Rect, items: seq<Item>, i: nat, e: Entry)
    requires i <= |items| && e in Reached(r, items, i)
    ensures e in EntriesOf(items)
    decreases items, |items| - i
  {
    if e in ItemReached(r, items[i]) {
      ItemReachedIsStored(r, items[i], e);
      ItemEntryInside(items, i, e);
    } else {
      ReachedIsStored(r, items, i + 1, e);
    }
  }

  lemma {:induction false} ItemReachedIsStored(r: Rect, it: Item, e: Entry)
    requires e in ItemReached(r, it)
    ensures e in ItemEntries(it)
    decreases it, 0
  {
    if it.Sub? {
      ReachedIsStored(r, it.child.items, 0, e);
    }
  }

  // ---------------------------------------------------------------- re-insertion

  lemma SlotsFrom(o: Tree, i: nat)
    requires Body(o) && i < |o.items|
    ensures ItemOk(o.items[i], o.level)
    ensures multiset(EntriesOf(o.items[i..]))
         == multiset(ItemEntries(o.items[i])) + multiset(EntriesOf(o.items[i + 1..]))
  {
    hide EntriesOf, ItemEntries;
    assert ItemOk(o.items[i], o.level);
    assert o.items[i..] == [o.items[i]] + o.items[i + 1..];
    EntriesOfConcat([o.items[i]], o.items[i + 1..]);
    EntriesOfOne(o.items[i]);
  }

  /** The slots of one dissolved node, from the `i`-th on, go back in at its level. */
  function ReinsertItems(root: Tree, o: Tree, i: nat): (r: Tree)
    requires Loose(root) && Body(o) && o.level <= root.level && i <= |o.items|
    ensures Loose(r) && root.level <= r.level
    ensures Bag(r) == Bag(root) + multiset(EntriesOf(o.items[i..]))
    decreases |o.items| - i
  {
    if i == |o.items| then root
    else
      SlotsFrom(o, i);
      ReinsertItems(InsertRect(root, o.items[i], o.level), o, i + 1)
  }

  lemma OrphansHead(orphans: seq<Tree>, below: nat)
    requires orphans != [] && OrphansOk(orphans, below)
    ensures Body(orphans[0]) && orphans[0].level < below
    ensures multiset(OrphanEntries(orphans)) == Bag(orphans[0]) + multiset(OrphanEntries(orphans[1..]))
  {
    assert OrphanOk(orphans[0], below);
  }

  lemma OrphansTail(orphans: seq<Tree>, below: nat, higher: nat)
    requires orphans != [] && OrphansOk(orphans, below) && below <= higher
    ensures OrphansOk(orphans[1..], higher)
  {
    forall i | 0 <= i < |orphans| - 1
      ensures OrphanOk(orphans[1..][i], higher)
    {
      assert OrphanOk(orphans[i + 1], below);
    }
  }

  lemma ReinsertDone(root: Tree, o: Tree)
    requires Loose(root) && Body(o) && o.level <= root.level
    ensures ReinsertItems(root, o, |o.items|) == root
  {
  }

  lemma ReinsertStep(root: Tree, o: Tree, i: nat)
    requires Loose(root) && Body(o) && o.level <= root.level && i < |o.items|
    ensures ItemOk(o.items[i], o.level)
    ensures ReinsertItems(root, o, i) == ReinsertItems(InsertRect(root, o.items[i], o.level), o, i + 1)
  {
    hide InsertRect, ItemOk, Loose;
    assert ItemOk(o.items[i], o.level);
  }

  function Reinsert(root: Tree, o: Tree): (r: Tree)
    requires Loose(root) && Body(o) && o.level <= root.level
    ensures Loose(r) && root.level <= r.level
    ensures Bag(r) == Bag(root) + Bag(o)
  {
    assert o.items[0..] == o.items;
    ReinsertItems(root, o, 0)
  }

  function ReinsertAll(root: Tree, orphans: seq<Tree>): (r: Tree)
    requires Loose(root) && OrphansOk(orphans, root.level)
    ensures Loose(r) && root.level <= r.level
    ensures Bag(r) == Bag(root) + multiset(OrphanEntries(orphans))
    decreases |orphans|
  {
    if orphans == [] then root
    else
      OrphansHead(orphans, root.level);
      var next := Reinsert(root, orphans[0]);
      OrphansTail(orphans, root.level, next.level);
      ReinsertAll(next, orphans[1..])
  }

  /** A root left with a single child gives way to it. */
  function Collapse(root: Tree): (r: Tree)
    requires Loose(root)
    ensures WellFormed(r)
    ensures Entries(r) == Entries(root)
  {
    if |root.items| == 1 && root.level > 0 then
      ChildOk(root, 0);
      assert root.items == [root.items[0]];
      EntriesOfOne(root.items[0]);
      root.items[0].child
    else root
  }

  /** RemoveRect: the new root, and the entry removed if there is one. */
  function RemoveRect(root: Tree, r: Rect, id: Id): (res: (Tree, seq<Entry>))
    requires WellFormed(root)
    ensures WellFormed(res.0) && |res.1| <= 1
    ensures Bag(root) == Bag(res.0) + multiset(res.1)
  {
    match RemoveFrom(r, id, root, 0)
    case NotFound => (root, [])
    case Found(t, orphans, victim) =>
      (Collapse(ReinsertAll(t, orphans)), [victim])
  }

  lemma RemoveRectStep(root: Tree, r: Rect, id: Id)
    requires WellFormed(root)
    ensures match RemoveFrom(r, id, root, 0)
      case NotFound => RemoveRect(root, r, id) == (root, [])
      case Found(t, orphans, v) =>
        && Loose(t) && t.level == root.level && OrphansOk(orphans, t.level)
        && RemoveRect(root, r, id) == (Collapse(ReinsertAll(t, orphans)), [v])
  {
    hide Collapse, ReinsertAll, Body;
  }

  lemma ReinsertAllStep(root: Tree, orphans: seq<Tree>)
    requires Loose(root) && OrphansOk(orphans, root.level)
    ensures orphans == [] ==> ReinsertAll(root, orphans) == root
    ensures orphans != [] ==>
      && Body(orphans[0]) && orphans[0].level < root.level
      && OrphansOk(orphans[1..], Reinsert(root, orphans[0]).level)
      && ReinsertAll(root, orphans) == ReinsertAll(Reinsert(root, orphans[0]), orphans[1..])
  {
    hide Reinsert, Body, Loose, OrphansOk;
    if orphans != [] {
      OrphansHead(orphans, root.level);
      OrphansTail(orphans, root.level, Reinsert(root, orphans[0]).level);
    }
  }

  /**
    Removal is exact: it takes the first entry with the id that the descent reaches, and
    it takes none only when no entry with the id overlaps the query.
   */
  lemma RemoveIsExact(root: Tree, r: Rect, id: Id)
    requires WellFormed(root)
    ensures RemoveRect(root, r, id).1 == FirstWith(Reached(r, root.items, 0), id)
    ensures RemoveRect(root, r, id).1 == [] ==> RemoveRect(root, r, id).0 == root
    ensures (exists e | e in Entries(root) :: e.id == id && Overlaps(r, e.rect))
            ==> RemoveRect(root, r, id).1 != []
  {
    VictimIsFirstReached(r, id, root, 0);
    forall e | e in Entries(root) && e.id == id && Overlaps(r, e.rect)
      ensures e in Reached(r, root.items, 0)
    {
      var k := EntryHasSlot(root.items, e);
      OverlappingIsReached(r, root.items, root.level, k, e);
      SlotIsReached(r, root.items, k, 0, e);
    }
  }

  /** When ids are unique and the query overlaps the entry, that very entry goes. */
  lemma RemoveUnique(root: Tree, r: Rect, e: Entry)
    requires WellFormed(root) && e in Entries(root) && Overlaps(r, e.rect)
    requires forall f | f in Entries(root) && f.id == e.id :: f == e
    ensures RemoveRect(root, r, e.id).1 == [e]
    ensures Bag(RemoveRect(root, r, e.id).0) == Bag(root) - multiset{e}
  {
    RemoveIsExact(root, r, e.id);
    var victim := FirstWith(Reached(r, root.items, 0), e.id)[0];
    ReachedIsStored(r, root.items, 0, victim);
  }
}
