/**
  Queries on tree values: pruned search against a linear scan, and the join of two trees
  against all pairs of their entries.
 */
module Queries {
  import opened Params
  import opened Rects
  import opened Trees

  // ---------------------------------------------------------------- search

  /** The linear scan. */
  function Hits(q: Rect, es: seq<Entry>): seq<Entry> {
    if es == [] then []
    else Hits(q, es[..|es| - 1]) + if Overlaps(q, es[|es| - 1].rect) then es[|es| - 1..] else []
  }

  lemma {:induction false} HitsConcat(q: Rect, a: seq<Entry>, b: seq<Entry>)
    ensures Hits(q, a + b) == Hits(q, a) + Hits(q, b)
    decreases |b|
  {
    if b == [] {
      assert a + b == a;
    } else {
      var n := |b| - 1;
      assert (a + b)[..|a| + n] == a + b[..n];
      assert (a + b)[|a| + n..] == b[n..];
      HitsConcat(q, a, b[..n]);
    }
  }

  /** The hits are the overlapping entries in their order: `places` lists where they stand. */
  lemma {:induction false} HitsInOrder(q: Rect, es: seq<Entry>) returns (places: seq<nat>)
    ensures |places| == |Hits(q, es)| && forall k | 0 <= k < |places| :: places[k] < |es|
    ensures forall k | 0 <= k < |places| :: Hits(q, es)[k] == es[places[k]]
    ensures forall k | 0 < k < |places| :: places[k - 1] < places[k]
    ensures forall i: nat | i < |es| :: Overlaps(q, es[i].rect) <==> i in places
    decreases |es|
  {
    hide Overlaps;
    if es == [] {
      places := [];
    } else {
      var n := |es| - 1;
      places := HitsInOrder(q, es[..n]);
      if Overlaps(q, es[n].rect) {
        places := places + [n];
      }
    }
  }

  /** The descent into the slots whose boxes overlap. */
  function Pruned(q: Rect, items: seq<Item>): seq<Entry> {
    if items == [] then []
    else Pruned(q, items[..|items| - 1]) + PrunedItem(q, items[|items| - 1])
  }

  function PrunedItem(q: Rect, it: Item): seq<Entry> {
    if !Overlaps(q, it.rect) then []
    else match it
      case Data(r, id) => [Entry(r, id)]
      case Sub(_, c) => Pruned(q, c.items)
  }

  /** A box that misses the query hides nothing. */
  lemma {:induction false} NothingHidden(q: Rect, r: Rect, es: seq<Entry>)
    requires !Overlaps(q, r) && CoversEntries(r, es)
    ensures Hits(q, es) == []
    decreases |es|
  {
    if es != [] {
      var e := es[|es| - 1];
      if Overlaps(q, e.rect) {
        OverlapMonotone(q, r, e.rect);
      }
      NothingHidden(q, r, es[..|es| - 1]);
    }
  }

  lemma {:induction false} PrunedItemIsScan(q: Rect, it: Item, level: nat)
    requires ItemOk(it, level)
    ensures PrunedItem(q, it) == Hits(q, ItemEntries(it))
    decreases it, 0
  {
    if !Overlaps(q, it.rect) {
      ItemCovers(it, level);
      NothingHidden(q, it.rect, ItemEntries(it));
    } else {
      match it
      case Data(r, id) =>
        assert Hits(q, []) == [] && [Entry(r, id)][..0] == [];
      case Sub(_, c) =>
        PrunedIsScan(q, c.items, c.level);
    }
  }

  /** Pruned search sees exactly what a linear scan sees, in the same order. */
  lemma {:induction false} PrunedIsScan(q: Rect, items: seq<Item>, level: nat)
    requires AllOk(items, level)
    ensures Pruned(q, items) == Hits(q, EntriesOf(items))
    decreases items
  {
    hide ItemOk;
    if items != [] {
      var n := |items| - 1;
      PrunedIsScan(q, items[..n], level);
      PrunedItemIsScan(q, items[n], level);
      HitsConcat(q, EntriesOf(items[..n]), ItemEntries(items[n]));
    }
  }

  // ---------------------------------------------------------------- callbacks

  /** A callback answers from everything it was told so far, the current id included. */
  datatype Callback = NoCallback | Callback(answer: seq<Id> -> bool)

  /** The state of a search: whether to go on, what the callback was told, how many were found. */
  datatype Scan = Scan(goOn: bool, told: seq<Id>, found: nat)

  function Tell(cb: Callback, s: Scan, id: Id): Scan {
    match cb
    case NoCallback => s.(found := s.found + 1)
    case Callback(answer) => Scan(answer(s.told + [id]), s.told + [id], s.found + 1)
  }

  /** The entries are told one by one until the callback objects. */
  function Deliver(es: seq<Entry>, cb: Callback, s: Scan): Scan
    decreases |es|
  {
    if es == [] then s
    else
      var before := Deliver(es[..|es| - 1], cb, s);
      if before.goOn then Tell(cb, before, es[|es| - 1].id) else before
  }

  lemma {:induction false} DeliverConcat(a: seq<Entry>, b: seq<Entry>, cb: Callback, s: Scan)
    ensures Deliver(a + b, cb, s) == Deliver(b, cb, Deliver(a, cb, s))
    decreases |b|
  {
    if b == [] {
      assert a + b == a;
    } else {
      assert (a + b)[..|a + b| - 1] == a + b[..|b| - 1];
      DeliverConcat(a, b[..|b| - 1], cb, s);
    }
  }

  lemma {:induction false} DeliverStopped(es: seq<Entry>, cb: Callback, s: Scan)
    requires !s.goOn
    ensures Deliver(es, cb, s) == s
    decreases |es|
  {
    if es != [] {
      DeliverStopped(es[..|es| - 1], cb, s);
    }
  }

  function Ids(es: seq<Entry>): (ids: seq<Id>)
    ensures |ids| == |es|
    ensures forall i | 0 <= i < |es| :: ids[i] == es[i].id
  {
    seq(|es|, i requires 0 <= i < |es| => es[i].id)
  }

  const START := Scan(true, [], 0)

  /**
    A callback hears a prefix of the list: it accepted all but the last of them, and it
    rejected the last one if the list goes on.
   */
  lemma {:induction false} DeliverIsPrefix(es: seq<Entry>, answer: seq<Id> -> bool)
    ensures var s := Deliver(es, Callback(answer), START);
      && s.found <= |es| && s.told == Ids(es)[..s.found]
      && (forall k | 0 < k < s.found :: answer(Ids(es)[..k]))
      && (s.found < |es| ==> s.found > 0 && !answer(Ids(es)[..s.found]))
      && (s.goOn <==> s.found == 0 || answer(Ids(es)[..s.found]))
    decreases |es|
  {
    if es != [] {
      var n := |es| - 1;
      DeliverIsPrefix(es[..n], answer);
      var s := Deliver(es[..n], Callback(answer), START);
      assert forall k | 0 <= k <= n :: Ids(es)[..k] == Ids(es[..n])[..k];
      if s.goOn {
        assert s.found == n;
        assert Ids(es)[..n + 1] == Ids(es)[..n] + [es[n].id];
      }
    }
  }

  /** Without a callback everything is counted and nobody is told. */
  lemma {:induction false} DeliverCounts(es: seq<Entry>, s: Scan)
    requires s.goOn
    ensures Deliver(es, NoCallback, s) == s.(found := s.found + |es|)
    decreases |es|
  {
    if es != [] {
      DeliverCounts(es[..|es| - 1], s);
    }
  }

  // ---------------------------------------------------------------- slot by slot

  /** The search through the first `n` slots. */
  function Told(q: Rect, items: seq<Item>, n: nat, cb: Callback, s: Scan): Scan
    requires n <= |items|
  {
    Deliver(Hits(q, EntriesOf(items[..n])), cb, s)
  }

  lemma ToldStep(q: Rect, items: seq<Item>, n: nat, cb: Callback, s: Scan)
    requires n < |items|
    ensures Told(q, items, n + 1, cb, s) == Deliver(Hits(q, ItemEntries(items[n])), cb, Told(q, items, n, cb, s))
  {
    hide EntriesOf, ItemEntries, Hits, Deliver;
    assert items[..n + 1] == items[..n] + [items[n]];
    EntriesOfPush(items[..n], items[n]);
    HitsConcat(q, EntriesOf(items[..n]), ItemEntries(items[n]));
    DeliverConcat(Hits(q, EntriesOf(items[..n])), Hits(q, ItemEntries(items[n])), cb, s);
  }

  lemma ToldNothing(q: Rect, items: seq<Item>, cb: Callback, s: Scan)
    ensures Told(q, items, 0, cb, s) == s
  {
  }

  lemma ToldAll(q: Rect, items: seq<Item>, n: nat, cb: Callback, s: Scan)
    requires n <= |items|
    ensures n == |items| ==> Told(q, items, n, cb, s) == Deliver(Hits(q, EntriesOf(items)), cb, s)
    ensures !Told(q, items, n, cb, s).goOn ==> Told(q, items, n, cb, s) == Deliver(Hits(q, EntriesOf(items)), cb, s)
  {
    hide EntriesOf, Hits, Deliver;
    assert items == items[..n] + items[n..];
    assert n == |items| ==> items[..n] == items;
    EntriesOfConcat(items[..n], items[n..]);
    HitsConcat(q, EntriesOf(items[..n]), EntriesOf(items[n..]));
    DeliverConcat(Hits(q, EntriesOf(items[..n])), Hits(q, EntriesOf(items[n..])), cb, s);
    if !Told(q, items, n, cb, s).goOn {
      DeliverStopped(Hits(q, EntriesOf(items[n..])), cb, Told(q, items, n, cb, s));
    }
  }

  /** A slot whose box misses the query tells nothing. */
  lemma MissedSlot(q: Rect, it: Item, level: nat)
    requires ItemOk(it, level) && !Overlaps(q, it.rect)
    ensures Hits(q, ItemEntries(it)) == []
  {
    ItemCovers(it, level);
    NothingHidden(q, it.rect, ItemEntries(it));
  }

  lemma HitOne(q: Rect, e: Entry, cb: Callback, s: Scan)
    requires s.goOn
    ensures Deliver(Hits(q, [e]), cb, s) == if Overlaps(q, e.rect) then Tell(cb, s, e.id) else s
  {
    assert [e][..0] == [];
    assert Hits(q, [e]) == if Overlaps(q, e.rect) then [e] else [];
  }
}
