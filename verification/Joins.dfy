/**
  The overlap join of two trees on values: what it visits, against all overlapping pairs
  of entries.
 */
module Joins {
  import opened Params
  import opened Rects
  import opened Trees

  type Match = (Entry, Entry)

  // ---------------------------------------------------------------- all pairs

  /** The overlapping partners of one entry. */
  function Line(a: Entry, bs: seq<Entry>): multiset<Match>
    decreases |bs|
  {
    if bs == [] then multiset{}
    else
      var b := bs[|bs| - 1];
      Line(a, bs[..|bs| - 1]) + (if Overlaps(a.rect, b.rect) then multiset{(a, b)} else multiset{})
  }

  /** All overlapping pairs, with multiplicity. */
  function Cross(xs: seq<Entry>, ys: seq<Entry>): multiset<Match>
    decreases |xs|
  {
    if xs == [] then multiset{} else Cross(xs[..|xs| - 1], ys) + Line(xs[|xs| - 1], ys)
  }

  lemma {:induction false} LineConcat(a: Entry, ys: seq<Entry>, zs: seq<Entry>)
    ensures Line(a, ys + zs) == Line(a, ys) + Line(a, zs)
    decreases |zs|
  {
    if zs == [] {
      assert ys + zs == ys;
    } else {
      assert (ys + zs)[..|ys + zs| - 1] == ys + zs[..|zs| - 1];
      LineConcat(a, ys, zs[..|zs| - 1]);
    }
  }

  lemma {:induction false} CrossConcatLeft(xs: seq<Entry>, ws: seq<Entry>, ys: seq<Entry>)
    ensures Cross(xs + ws, ys) == Cross(xs, ys) + Cross(ws, ys)
    decreases |ws|
  {
    if ws == [] {
      assert xs + ws == xs;
    } else {
      assert (xs + ws)[..|xs + ws| - 1] == xs + ws[..|ws| - 1];
      CrossConcatLeft(xs, ws[..|ws| - 1], ys);
    }
  }

  lemma {:induction false} CrossConcatRight(xs: seq<Entry>, ys: seq<Entry>, zs: seq<Entry>)
    ensures Cross(xs, ys + zs) == Cross(xs, ys) + Cross(xs, zs)
    decreases |xs|
  {
    if xs != [] {
      CrossConcatRight(xs[..|xs| - 1], ys, zs);
      LineConcat(xs[|xs| - 1], ys, zs);
    }
  }

  lemma {:induction false} LineSound(a: Entry, ys: seq<Entry>, p: Match)
    ensures p in Line(a, ys) <==> p.0 == a && p.1 in ys && Overlaps(a.rect, p.1.rect)
    decreases |ys|
  {
    if ys != [] {
      LineSound(a, ys[..|ys| - 1], p);
    }
  }

  lemma {:induction false} CrossSound(xs: seq<Entry>, ys: seq<Entry>, p: Match)
    ensures p in Cross(xs, ys) <==> p.0 in xs && p.1 in ys && Overlaps(p.0.rect, p.1.rect)
    decreases |xs|
  {
    if xs != [] {
      CrossSound(xs[..|xs| - 1], ys, p);
      LineSound(xs[|xs| - 1], ys, p);
    }
  }

  /** The places at which `a`, standing at place `n`, meets an overlapping partner. */
  ghost function PlacesOf(a: Entry, ys: seq<Entry>, n: nat): set<(nat, nat)> {
    set j: nat | j < |ys| && Overlaps(a.rect, ys[j].rect) :: (n, j)
  }

  /** The pairs of places with overlapping boxes. */
  ghost function Places(xs: seq<Entry>, ys: seq<Entry>): set<(nat, nat)> {
    set i: nat, j: nat | i < |xs| && j < |ys| && Overlaps(xs[i].rect, ys[j].rect) :: (i, j)
  }

  lemma MorePlacesOf(a: Entry, ys: seq<Entry>, n: nat)
    requires ys != []
    ensures var m := |ys| - 1;
      && (n, m) !in PlacesOf(a, ys[..m], n)
      && PlacesOf(a, ys, n) == PlacesOf(a, ys[..m], n) + if Overlaps(a.rect, ys[m].rect) then {(n, m)} else {}
  {
    hide Overlaps;
    var m := |ys| - 1;
    forall p
      ensures p in PlacesOf(a, ys, n)
         <==> p in PlacesOf(a, ys[..m], n) || (p == (n, m) && Overlaps(a.rect, ys[m].rect))
    {
      if p in PlacesOf(a, ys, n) && p != (n, m) {
        assert p.1 < m && ys[..m][p.1] == ys[p.1];
      }
    }
  }

  lemma MorePlaces(xs: seq<Entry>, ys: seq<Entry>)
    requires xs != []
    ensures var n := |xs| - 1;
      && Places(xs[..n], ys) !! PlacesOf(xs[n], ys, n)
      && Places(xs, ys) == Places(xs[..n], ys) + PlacesOf(xs[n], ys, n)
  {
    hide Overlaps;
    var n := |xs| - 1;
    forall p
      ensures p in Places(xs, ys) <==> p in Places(xs[..n], ys) || p in PlacesOf(xs[n], ys, n)
    {
      if p in Places(xs, ys) && p.0 < n {
        assert xs[..n][p.0] == xs[p.0];
      }
    }
  }

  /** The size of a join is the number of pairs of places with overlapping boxes. */
  lemma {:induction false} CrossCountsPairs(xs: seq<Entry>, ys: seq<Entry>)
    ensures |Cross(xs, ys)|
         == |set i: nat, j: nat | i < |xs| && j < |ys| && Overlaps(xs[i].rect, ys[j].rect) :: (i, j)|
  {
    hide Overlaps, Cross;
    CountPlaces(xs, ys);
  }

  lemma {:induction false} CountPlaces(xs: seq<Entry>, ys: seq<Entry>)
    ensures |Cross(xs, ys)| == |Places(xs, ys)|
    decreases |xs|
  {
    hide Overlaps, Line, Places, PlacesOf;
    if xs == [] {
      NoPlaces(ys);
    } else {
      var n := |xs| - 1;
      CountPlaces(xs[..n], ys);
      CountPlacesOf(xs[n], ys, n);
      MorePlaces(xs, ys);
    }
  }

  lemma NoPlaces(ys: seq<Entry>)
    ensures Places([], ys) == {} && forall a, n :: PlacesOf(a, [], n) == {}
  {
  }

  lemma {:induction false} CountPlacesOf(a: Entry, ys: seq<Entry>, n: nat)
    ensures |Line(a, ys)| == |PlacesOf(a, ys, n)|
    decreases |ys|
  {
    hide Overlaps, Places, PlacesOf;
    if ys == [] {
      NoPlaces(ys);
    } else {
      CountPlacesOf(a, ys[..|ys| - 1], n);
      MorePlacesOf(a, ys, n);
    }
  }

  /** Boxes that miss each other have nothing to join. */
  lemma NothingToJoin(r: Rect, xs: seq<Entry>, s: Rect, ys: seq<Entry>)
    requires !Overlaps(r, s) && CoversEntries(r, xs) && CoversEntries(s, ys)
    ensures Cross(xs, ys) == multiset{}
  {
    forall p | p in Cross(xs, ys)
      ensures false
    {
      CrossSound(xs, ys, p);
      OverlapMonotone(p.0.rect, s, p.1.rect);
      OverlapMonotone(s, r, p.0.rect);
    }
  }

  // ---------------------------------------------------------------- CheckNodes

  /** The pairs CheckNodes reports for two nodes, in the order it reports them. */
  function Join(a: Tree, b: Tree): seq<Match>
    requires Body(a) && Body(b)
    decreases a.level + b.level, 2, 0, 0
  {
    JoinRows(a, b, |a.items|)
  }

  /** The first `i` slots of `a` against all of `b`. */
  function JoinRows(a: Tree, b: Tree, i: nat): seq<Match>
    requires Body(a) && Body(b) && i <= |a.items|
    decreases a.level + b.level, 1, i, |b.items| + 1
  {
    if i == 0 then [] else JoinRows(a, b, i - 1) + JoinRow(a, b, i - 1, |b.items|)
  }

  /** Slot `i` of `a` against the first `j` slots of `b`. */
  function JoinRow(a: Tree, b: Tree, i: nat, j: nat): seq<Match>
    requires Body(a) && Body(b) && i < |a.items| && j <= |b.items|
    decreases a.level + b.level, 1, i, j
  {
    if j == 0 then [] else JoinRow(a, b, i, j - 1) + JoinSlots(a, b, i, j - 1)
  }

  function JoinSlots(a: Tree, b: Tree, i: nat, j: nat): seq<Match>
    requires Body(a) && Body(b) && i < |a.items| && j < |b.items|
    decreases a.level + b.level, 0, 0, 0
  {
    SlotOk(a, i);
    SlotOk(b, j);
    var x, y := a.items[i], b.items[j];
    if !Overlaps(x.rect, y.rect) then []
    else if a.level > 0 then
      if b.level > 0 then Join(x.child, y.child) else Join(x.child, b)
    else if b.level > 0 then Join(a, y.child)
    else [(Entry(x.rect, x.id), Entry(y.rect, y.id))]
  }

  lemma SlotOk(t: Tree, i: nat)
    requires Body(t) && i < |t.items|
    ensures ItemOk(t.items[i], t.level)
    ensures t.level > 0 ==> t.items[i].Sub? && Body(t.items[i].child) && t.items[i].child.level == t.level - 1
    ensures t.level == 0 ==> t.items[i].Data?
    ensures CoversEntries(t.items[i].rect, ItemEntries(t.items[i]))
  {
    assert ItemOk(t.items[i], t.level);
    ItemCovers(t.items[i], t.level);
  }

  // ---------------------------------------------------------------- nothing is missed

  /** Every overlapping pair is reported, and with the right multiplicity when `exact`. */
  ghost predicate Reports(out: seq<Match>, all: multiset<Match>, exact: bool) {
    all <= multiset(out) && (exact ==> multiset(out) == all)
  }

  lemma ReportsConcat(out1: seq<Match>, all1: multiset<Match>, out2: seq<Match>, all2: multiset<Match>, exact: bool)
    requires Reports(out1, all1, exact) && Reports(out2, all2, exact)
    ensures Reports(out1 + out2, all1 + all2, exact)
  {
  }

  lemma CrossPartRight(xs: seq<Entry>, items: seq<Item>, j: nat)
    requires j < |items|
    ensures Cross(xs, ItemEntries(items[j])) <= Cross(xs, EntriesOf(items))
  {
    hide EntriesOf, ItemEntries, Cross;
    EntriesOfAround(items, j, items[j]);
    assert items[j := items[j]] == items;
    CrossConcatRight(xs, EntriesOf(items[..j]) + ItemEntries(items[j]), EntriesOf(items[j + 1..]));
    CrossConcatRight(xs, EntriesOf(items[..j]), ItemEntries(items[j]));
  }

  lemma CrossPartLeft(items: seq<Item>, i: nat, ys: seq<Entry>)
    requires i < |items|
    ensures Cross(ItemEntries(items[i]), ys) <= Cross(EntriesOf(items), ys)
  {
    hide EntriesOf, ItemEntries, Cross;
    EntriesOfAround(items, i, items[i]);
    assert items[i := items[i]] == items;
    CrossConcatLeft(EntriesOf(items[..i]) + ItemEntries(items[i]), EntriesOf(items[i + 1..]), ys);
    CrossConcatLeft(EntriesOf(items[..i]), ItemEntries(items[i]), ys);
  }

  lemma CrossOfOne(x: Entry, y: Entry)
    ensures Cross([x], [y]) == if Overlaps(x.rect, y.rect) then multiset{(x, y)} else multiset{}
  {
    assert [x][..0] == [] && [y][..0] == [];
    assert Cross([x], [y]) == Cross([], [y]) + Line(x, [y]);
    assert Line(x, [y]) == Line(x, []) + (if Overlaps(x.rect, y.rect) then multiset{(x, y)} else multiset{});
  }

  lemma {:induction false} JoinReports(a: Tree, b: Tree)
    requires Body(a) && Body(b)
    ensures Reports(Join(a, b), Cross(Entries(a), Entries(b)), a.level == b.level)
    decreases a.level + b.level, 2, 0, 0
  {
    RowsReport(a, b, |a.items|);
    assert a.items[..|a.items|] == a.items;
  }

  lemma {:induction false} RowsReport(a: Tree, b: Tree, i: nat)
    requires Body(a) && Body(b) && i <= |a.items|
    ensures Reports(JoinRows(a, b, i), Cross(EntriesOf(a.items[..i]), Entries(b)), a.level == b.level)
    decreases a.level + b.level, 1, i, |b.items| + 1
  {
    hide Body, ItemEntries, JoinRow, Reports, Cross;
    if i == 0 {
      NoneReported(a, b);
    } else {
      RowsReport(a, b, i - 1);
      RowReport(a, b, i - 1, |b.items|);
      assert b.items[..|b.items|] == b.items;
      EntriesUpTo(a.items, i);
      CrossConcatLeft(EntriesOf(a.items[..i - 1]), ItemEntries(a.items[i - 1]), Entries(b));
      ReportsConcat(JoinRows(a, b, i - 1), Cross(EntriesOf(a.items[..i - 1]), Entries(b)),
                    JoinRow(a, b, i - 1, |b.items|), Cross(ItemEntries(a.items[i - 1]), Entries(b)),
                    a.level == b.level);
    }
  }

  lemma NothingReported(exact: bool)
    ensures Reports([], multiset{}, exact)
  {
  }

  lemma NoneReported(a: Tree, b: Tree)
    requires Body(a) && Body(b)
    ensures Reports(JoinRows(a, b, 0), Cross(EntriesOf(a.items[..0]), Entries(b)), a.level == b.level)
    ensures forall xs :: Cross(xs, []) == multiset{}
  {
    forall xs
      ensures Cross(xs, []) == multiset{}
    {
      CrossWithNone(xs);
    }
  }

  lemma {:induction false} CrossWithNone(xs: seq<Entry>)
    ensures Cross(xs, []) == multiset{}
    decreases |xs|
  {
    if xs != [] {
      CrossWithNone(xs[..|xs| - 1]);
    }
  }

  lemma EntriesUpTo(items: seq<Item>, n: nat)
    requires 0 < n <= |items|
    ensures EntriesOf(items[..n]) == EntriesOf(items[..n - 1]) + ItemEntries(items[n - 1])
  {
    assert items[..n] == items[..n - 1] + [items[n - 1]];
    EntriesOfPush(items[..n - 1], items[n - 1]);
  }

  lemma {:induction false} RowReport(a: Tree, b: Tree, i: nat, j: nat)
    requires Body(a) && Body(b) && i < |a.items| && j <= |b.items|
    ensures Reports(JoinRow(a, b, i, j), Cross(ItemEntries(a.items[i]), EntriesOf(b.items[..j])), a.level == b.level)
    decreases a.level + b.level, 1, i, j
  {
    hide Body, ItemEntries, JoinSlots, Cross, Reports;
    if j == 0 {
      CrossWithNone(ItemEntries(a.items[i]));
      assert b.items[..0] == [];
      NothingReported(a.level == b.level);
    } else {
      RowReport(a, b, i, j - 1);
      SlotsReport(a, b, i, j - 1);
      EntriesUpTo(b.items, j);
      CrossConcatRight(ItemEntries(a.items[i]), EntriesOf(b.items[..j - 1]), ItemEntries(b.items[j - 1]));
      ReportsConcat(JoinRow(a, b, i, j - 1), Cross(ItemEntries(a.items[i]), EntriesOf(b.items[..j - 1])),
                    JoinSlots(a, b, i, j - 1), Cross(ItemEntries(a.items[i]), ItemEntries(b.items[j - 1])),
                    a.level == b.level);
    }
  }

  lemma {:induction false} SlotsReport(a: Tree, b: Tree, i: nat, j: nat)
    requires Body(a) && Body(b) && i < |a.items| && j < |b.items|
    ensures Reports(JoinSlots(a, b, i, j), Cross(ItemEntries(a.items[i]), ItemEntries(b.items[j])), a.level == b.level)
    decreases a.level + b.level, 0, 0, 0
  {
    hide Body, Cross, EntriesOf, Join;
    SlotOk(a, i);
    SlotOk(b, j);
    var x, y := a.items[i], b.items[j];
    if !Overlaps(x.rect, y.rect) {
      NothingToJoin(x.rect, ItemEntries(x), y.rect, ItemEntries(y));
    } else if a.level > 0 {
      if b.level > 0 {
        JoinReports(x.child, y.child);
      } else {
        JoinReports(x.child, b);
        CrossPartRight(ItemEntries(x), b.items, j);
      }
    } else if b.level > 0 {
      JoinReports(a, y.child);
      CrossPartLeft(a.items, i, ItemEntries(y));
    } else {
      CrossOfOne(Entry(x.rect, x.id), Entry(y.rect, y.id));
    }
  }

  // ---------------------------------------------------------------- nothing is made up

  ghost predicate OnlyMatches(out: seq<Match>, xs: seq<Entry>, ys: seq<Entry>) {
    forall p | p in out :: p.0 in xs && p.1 in ys && Overlaps(p.0.rect, p.1.rect)
  }

  lemma {:induction false} JoinIsSound(a: Tree, b: Tree)
    requires Body(a) && Body(b)
    ensures OnlyMatches(Join(a, b), Entries(a), Entries(b))
    decreases a.level + b.level, 1, 0, 0
  {
    RowsAreSound(a, b, |a.items|);
  }

  lemma {:induction false} RowsAreSound(a: Tree, b: Tree, i: nat)
    requires Body(a) && Body(b) && i <= |a.items|
    ensures OnlyMatches(JoinRows(a, b, i), Entries(a), Entries(b))
    decreases a.level + b.level, 0, i, |b.items| + 1
  {
    hide Body, EntriesOf, JoinRow;
    if i > 0 {
      RowsAreSound(a, b, i - 1);
      RowIsSound(a, b, i - 1, |b.items|);
    }
  }

  lemma {:induction false} RowIsSound(a: Tree, b: Tree, i: nat, j: nat)
    requires Body(a) && Body(b) && i < |a.items| && j <= |b.items|
    ensures OnlyMatches(JoinRow(a, b, i, j), Entries(a), Entries(b))
    decreases a.level + b.level, 0, i, j
  {
    hide Body, EntriesOf;
    if j > 0 {
      RowIsSound(a, b, i, j - 1);
      SlotOk(a, i);
      SlotOk(b, j - 1);
      var x, y := a.items[i], b.items[j - 1];
      if a.level > 0 {
        JoinIsSound(x.child, if b.level > 0 then y.child else b);
      } else if b.level > 0 {
        JoinIsSound(a, y.child);
      }
      forall e | e in ItemEntries(x) {
        ItemEntryInside(a.items, i, e);
      }
      forall e | e in ItemEntries(y) {
        ItemEntryInside(b.items, j - 1, e);
      }
    }
  }

  // ---------------------------------------------------------------- the join as a whole

  function IdPairs(ms: seq<Match>): set<(Id, Id)> {
    set m | m in ms :: (m.0.id, m.1.id)
  }

  lemma IdPairsConcat(ms: seq<Match>, ns: seq<Match>)
    ensures IdPairs(ms + ns) == IdPairs(ms) + IdPairs(ns) && IdPairs([]) == {}
  {
  }

  /**
    The join of two trees of any heights: the pairs reported are the overlapping ones, each
    at least as often as it occurs, and exactly as often when the heights agree.
   */
  lemma JoinIsExact(a: Tree, b: Tree)
    requires Body(a) && Body(b)
    ensures forall p :: p in Join(a, b) <==> p.0 in Entries(a) && p.1 in Entries(b) && Overlaps(p.0.rect, p.1.rect)
    ensures |Cross(Entries(a), Entries(b))| <= |Join(a, b)|
    ensures Join(a, b) == [] <==> Cross(Entries(a), Entries(b)) == multiset{}
    ensures a.level == b.level ==> |Join(a, b)| == |Cross(Entries(a), Entries(b))|
  {
    hide Body, Join, Cross, EntriesOf;
    JoinReports(a, b);
    JoinIsSound(a, b);
    var all := Cross(Entries(a), Entries(b));
    forall p
      ensures p in Join(a, b) <==> p.0 in Entries(a) && p.1 in Entries(b) && Overlaps(p.0.rect, p.1.rect)
      ensures p in Join(a, b) <==> p in all
    {
      CrossSound(Entries(a), Entries(b), p);
      assert p in all ==> p in multiset(Join(a, b));
    }
    SubsetSize(all, multiset(Join(a, b)));
    if Join(a, b) != [] {
      assert Join(a, b)[0] in all;
    }
  }

  lemma SubsetSize<T>(a: multiset<T>, b: multiset<T>)
    requires a <= b
    ensures |a| <= |b|
  {
    assert b == a + (b - a);
  }

  /** How many of the first `j` slots touch a box. */
  function Touching(r: Rect, items: seq<Item>, j: nat): nat
    requires j <= |items|
    decreases j
  {
    if j == 0 then 0 else Touching(r, items, j - 1) + if Overlaps(r, items[j - 1].rect) then 1 else 0
  }

  /**
    Why the count is only a bound when the heights differ: against a leaf, each child is
    joined with the whole leaf again for every slot of the leaf that its box touches.
   */
  lemma {:induction false} LeafJoinedRepeatedly(a: Tree, b: Tree, i: nat, j: nat)
    requires Body(a) && Body(b) && i < |a.items| && j <= |b.items| && a.level > 0 && b.level == 0
    ensures a.items[i].Sub? && Body(a.items[i].child)
    ensures |JoinRow(a, b, i, j)| == Touching(a.items[i].rect, b.items, j) * |Join(a.items[i].child, b)|
    decreases j
  {
    hide Body, Join, Overlaps;
    SlotOk(a, i);
    if j > 0 {
      LeafJoinedRepeatedly(a, b, i, j - 1);
      OneMore(Touching(a.items[i].rect, b.items, j - 1), |Join(a.items[i].child, b)|);
    }
  }

  lemma OneMore(k: nat, n: nat)
    ensures (k + 1) * n == k * n + n
  {
  }

  /** Two stored entries with these ids overlap. */
  ghost predicate Meet(a: Tree, b: Tree, p: (Id, Id)) {
    exists x, y | x in Entries(a) && y in Entries(b) :: Overlaps(x.rect, y.rect) && p == (x.id, y.id)
  }

  /** The id pairs of a join are those of all overlapping pairs of entries. */
  lemma IdPairsMeet(a: Tree, b: Tree)
    requires Body(a) && Body(b)
    ensures forall p :: p in IdPairs(Join(a, b)) <==> Meet(a, b, p)
  {
    hide Body, Join, Cross, Entries, Overlaps;
    JoinIsExact(a, b);
    forall p
      ensures p in IdPairs(Join(a, b)) <==> Meet(a, b, p)
    {
      if Meet(a, b, p) {
        var x, y :| x in Entries(a) && y in Entries(b) && Overlaps(x.rect, y.rect) && p == (x.id, y.id);
        assert (x, y) in Join(a, b);
      }
    }
  }
}
