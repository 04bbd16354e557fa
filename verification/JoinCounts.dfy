/**
  When the count of a join is the number of overlapping pairs: an exact condition for two
  trees of any heights, and trees that fail it.
 */
module JoinCounts {
  import opened Params
  import opened Rects
  import opened Trees
  import opened Joins

  // ---------------------------------------------------------------- the condition

  function ChildAt(t: Tree, i: nat): (c: Tree)
    requires Body(t) && t.level > 0 && i < |t.items|
    ensures Body(c) && c.level == t.level - 1 && Entries(c) == ItemEntries(t.items[i])
  {
    SlotOk(t, i);
    t.items[i].child
  }

  /** No entry of one list overlaps one of the other. */
  ghost predicate Apart(xs: seq<Entry>, ys: seq<Entry>) {
    forall x, y | x in xs && y in ys :: !Overlaps(x.rect, y.rect)
  }

  /**
    Nothing is joined twice: wherever a child meets a leaf, either no data below the child
    overlaps the leaf, or the child's box touches exactly one slot of the leaf and the same
    holds further down.  Two internal nodes ask it of every pair of children that is visited.
   */
  ghost predicate Once(a: Tree, b: Tree)
    requires Body(a) && Body(b)
    decreases a.level + b.level
  {
    if a.level > 0 && b.level > 0 then
      forall i, j | 0 <= i < |a.items| && 0 <= j < |b.items| && Overlaps(a.items[i].rect, b.items[j].rect) ::
        Once(ChildAt(a, i), ChildAt(b, j))
    else if a.level > 0 then
      forall i | 0 <= i < |a.items| ::
        || Apart(Entries(ChildAt(a, i)), Entries(b))
        || (Touching(a.items[i].rect, b.items, |b.items|) == 1 && Once(ChildAt(a, i), b))
    else if b.level > 0 then
      forall j | 0 <= j < |b.items| ::
        || Apart(Entries(a), Entries(ChildAt(b, j)))
        || (Touching(b.items[j].rect, a.items, |a.items|) == 1 && Once(a, ChildAt(b, j)))
    else true
  }

  ghost predicate Exact(a: Tree, b: Tree)
    requires Body(a) && Body(b)
  {
    |Join(a, b)| == |Cross(Entries(a), Entries(b))|
  }

  // ---------------------------------------------------------------- sums

  ghost predicate SlotExact(a: Tree, b: Tree, i: nat, j: nat)
    requires Body(a) && Body(b) && i < |a.items| && j < |b.items|
  {
    |JoinSlots(a, b, i, j)| == |Cross(ItemEntries(a.items[i]), ItemEntries(b.items[j]))|
  }

  ghost predicate RowExact(a: Tree, b: Tree, i: nat)
    requires Body(a) && Body(b) && i < |a.items|
  {
    |JoinRow(a, b, i, |b.items|)| == |Cross(ItemEntries(a.items[i]), Entries(b))|
  }

  lemma SlotBound(a: Tree, b: Tree, i: nat, j: nat)
    requires Body(a) && Body(b) && i < |a.items| && j < |b.items|
    ensures var all := |Cross(ItemEntries(a.items[i]), ItemEntries(b.items[j]))|;
      all <= |JoinSlots(a, b, i, j)| && (|JoinSlots(a, b, i, j)| == all <==> SlotExact(a, b, i, j))
  {
    hide Body, Cross, JoinSlots, ItemEntries;
    SlotsReport(a, b, i, j);
    SubsetSize(Cross(ItemEntries(a.items[i]), ItemEntries(b.items[j])), multiset(JoinSlots(a, b, i, j)));
  }

  /** Part by part a row never falls short, so it is exact when every part is. */
  lemma {:induction false} RowCount(a: Tree, b: Tree, i: nat, j: nat)
    requires Body(a) && Body(b) && i < |a.items| && j <= |b.items|
    ensures |Cross(ItemEntries(a.items[i]), EntriesOf(b.items[..j]))| <= |JoinRow(a, b, i, j)|
    ensures |JoinRow(a, b, i, j)| == |Cross(ItemEntries(a.items[i]), EntriesOf(b.items[..j]))|
       <==> forall k | 0 <= k < j :: SlotExact(a, b, i, k)
    decreases j
  {
    hide Body, Cross, JoinSlots, ItemEntries, EntriesOf, SlotExact;
    if j == 0 {
      NoPairs(b.items, ItemEntries(a.items[i]));
    } else {
      RowCount(a, b, i, j - 1);
      SlotBound(a, b, i, j - 1);
      EntriesUpTo(b.items, j);
      CrossConcatRight(ItemEntries(a.items[i]), EntriesOf(b.items[..j - 1]), ItemEntries(b.items[j - 1]));
    }
  }

  lemma NoPairs(items: seq<Item>, ys: seq<Entry>)
    ensures Cross(EntriesOf(items[..0]), ys) == multiset{} == Cross(ys, EntriesOf(items[..0]))
  {
    CrossWithNone(ys);
  }

  lemma RowBound(a: Tree, b: Tree, i: nat)
    requires Body(a) && Body(b) && i < |a.items|
    ensures var all := |Cross(ItemEntries(a.items[i]), Entries(b))|;
      all <= |JoinRow(a, b, i, |b.items|)| && (|JoinRow(a, b, i, |b.items|)| == all <==> RowExact(a, b, i))
  {
    hide Body, JoinRow, ItemEntries, EntriesOf, Cross;
    RowCount(a, b, i, |b.items|);
    assert b.items[..|b.items|] == b.items;
  }

  lemma {:induction false} RowsCount(a: Tree, b: Tree, i: nat)
    requires Body(a) && Body(b) && i <= |a.items|
    ensures |Cross(EntriesOf(a.items[..i]), Entries(b))| <= |JoinRows(a, b, i)|
    ensures |JoinRows(a, b, i)| == |Cross(EntriesOf(a.items[..i]), Entries(b))|
       <==> forall k | 0 <= k < i :: RowExact(a, b, k)
    decreases i
  {
    hide Body, JoinRow, ItemEntries, EntriesOf, Cross, RowExact;
    if i == 0 {
      NoPairs(a.items, Entries(b));
    } else {
      RowsCount(a, b, i - 1);
      RowBound(a, b, i - 1);
      EntriesUpTo(a.items, i);
      CrossConcatLeft(EntriesOf(a.items[..i - 1]), ItemEntries(a.items[i - 1]), Entries(b));
    }
  }

  lemma ExactByRows(a: Tree, b: Tree)
    requires Body(a) && Body(b)
    ensures Exact(a, b) <==> forall k | 0 <= k < |a.items| :: RowExact(a, b, k)
  {
    hide Body, JoinRows, EntriesOf, Cross, RowExact;
    RowsCount(a, b, |a.items|);
    assert a.items[..|a.items|] == a.items;
  }

  lemma RowBySlots(a: Tree, b: Tree, i: nat)
    requires Body(a) && Body(b) && i < |a.items|
    ensures RowExact(a, b, i) <==> forall k | 0 <= k < |b.items| :: SlotExact(a, b, i, k)
  {
    hide Body, JoinRow, EntriesOf, Cross, SlotExact;
    RowCount(a, b, i, |b.items|);
    assert b.items[..|b.items|] == b.items;
  }

  // ---------------------------------------------------------------- a child against a leaf

  /** `t` joins of `j` reports each for `c` pairs. */
  lemma Weigh(t: nat, j: nat, c: nat)
    requires c <= j && (c == 0 <==> j == 0) && (c > 0 ==> t > 0)
    ensures c <= t * j
    ensures t * j == c <==> c == 0 || (t == 1 && j == c)
  {
    if c > 0 {
      assert (t - 1) * j >= 0;
      assert t * j == (t - 1) * j + j;
      if t > 1 {
        assert (t - 1) * j > 0;
      }
    }
  }

  lemma ApartIsEmpty(xs: seq<Entry>, ys: seq<Entry>)
    ensures Apart(xs, ys) <==> |Cross(xs, ys)| == 0
  {
    hide Cross, Overlaps;
    forall x, y | x in xs && y in ys
      ensures (x, y) in Cross(xs, ys) <==> Overlaps(x.rect, y.rect)
    {
      CrossSound(xs, ys, (x, y));
    }
    if |Cross(xs, ys)| > 0 {
      var p :| p in Cross(xs, ys);
      CrossSound(xs, ys, p);
    }
  }

  lemma {:induction false} TouchesSome(r: Rect, items: seq<Item>, k: nat, n: nat)
    requires k < n <= |items| && Overlaps(r, items[k].rect)
    ensures Touching(r, items, n) > 0
    decreases n
  {
    hide Overlaps;
    if k < n - 1 {
      TouchesSome(r, items, k, n - 1);
    }
  }

  /** A box around data overlapping some of a leaf touches a slot of the leaf. */
  lemma OverlappingTouches(r: Rect, xs: seq<Entry>, leaf: Tree)
    requires Body(leaf) && leaf.level == 0 && CoversEntries(r, xs) && !Apart(xs, Entries(leaf))
    ensures Touching(r, leaf.items, |leaf.items|) > 0
  {
    hide Overlaps, EntriesOf;
    var x, y :| x in xs && y in Entries(leaf) && Overlaps(x.rect, y.rect);
    var k := EntryHasSlot(leaf.items, y);
    SlotOk(leaf, k);
    OverlapFlips(x.rect, y.rect);
    OverlapMonotone(y.rect, r, x.rect);
    TouchesSome(r, leaf.items, k, |leaf.items|);
  }

  lemma OverlapFlips(r: Rect, s: Rect)
    ensures Overlaps(r, s) <==> Overlaps(s, r)
  {
  }

  lemma ApartFlips(xs: seq<Entry>, ys: seq<Entry>)
    ensures Apart(xs, ys) <==> Apart(ys, xs)
  {
    hide Overlaps;
    forall x, y | x in xs && y in ys
      ensures Overlaps(x.rect, y.rect) <==> Overlaps(y.rect, x.rect)
    {
      OverlapFlips(x.rect, y.rect);
    }
  }

  /** One child of `a` against the leaf `b`. */
  lemma RowAgainstLeaf(a: Tree, b: Tree, i: nat)
    requires Body(a) && Body(b) && i < |a.items| && a.level > 0 && b.level == 0
    ensures RowExact(a, b, i)
       <==> || Apart(Entries(ChildAt(a, i)), Entries(b))
            || (Touching(a.items[i].rect, b.items, |b.items|) == 1 && Exact(ChildAt(a, i), b))
  {
    hide Body, JoinRow, Join, Cross, EntriesOf, Apart, Touching;
    var c, t := ChildAt(a, i), Touching(a.items[i].rect, b.items, |b.items|);
    SlotOk(a, i);
    LeafJoinedRepeatedly(a, b, i, |b.items|);
    JoinIsExact(c, b);
    ApartIsEmpty(Entries(c), Entries(b));
    if !Apart(Entries(c), Entries(b)) {
      OverlappingTouches(a.items[i].rect, Entries(c), b);
    }
    Weigh(t, |Join(c, b)|, |Cross(Entries(c), Entries(b))|);
  }

  // ---------------------------------------------------------------- a leaf against children

  /** What the first `i` slots of the leaf `a` report against the first `n` children of `b`. */
  function Columns(a: Tree, b: Tree, i: nat, n: nat): nat
    requires Body(a) && Body(b) && a.level == 0 && b.level > 0 && i <= |a.items| && n <= |b.items|
    decreases n
  {
    if n == 0 then 0
    else Columns(a, b, i, n - 1) + Touching(b.items[n - 1].rect, a.items, i) * |Join(a, ChildAt(b, n - 1))|
  }

  lemma {:induction false} NoColumns(a: Tree, b: Tree, n: nat)
    requires Body(a) && Body(b) && a.level == 0 && b.level > 0 && n <= |b.items|
    ensures Columns(a, b, 0, n) == 0
    decreases n
  {
    if n > 0 {
      NoColumns(a, b, n - 1);
    }
  }

  lemma {:induction false} RowInColumns(a: Tree, b: Tree, i: nat, n: nat)
    requires Body(a) && Body(b) && a.level == 0 && b.level > 0 && i < |a.items| && n <= |b.items|
    ensures Columns(a, b, i + 1, n) == Columns(a, b, i, n) + |JoinRow(a, b, i, n)|
    decreases n
  {
    hide Body, Join, Overlaps;
    if n > 0 {
      RowInColumns(a, b, i, n - 1);
      SlotOk(a, i);
      SlotOk(b, n - 1);
      OverlapFlips(a.items[i].rect, b.items[n - 1].rect);
      OneMore(Touching(b.items[n - 1].rect, a.items, i), |Join(a, ChildAt(b, n - 1))|);
    }
  }

  lemma {:induction false} RowsInColumns(a: Tree, b: Tree, i: nat)
    requires Body(a) && Body(b) && a.level == 0 && b.level > 0 && i <= |a.items|
    ensures |JoinRows(a, b, i)| == Columns(a, b, i, |b.items|)
    decreases i
  {
    hide Body, JoinRow, Columns;
    if i == 0 {
      NoColumns(a, b, |b.items|);
    } else {
      RowsInColumns(a, b, i - 1);
      RowInColumns(a, b, i - 1, |b.items|);
    }
  }

  /** One child of `b` against the leaf `a`. */
  ghost predicate ColumnExact(a: Tree, b: Tree, j: nat)
    requires Body(a) && Body(b) && a.level == 0 && b.level > 0 && j < |b.items|
  {
    || Apart(Entries(a), Entries(ChildAt(b, j)))
    || (Touching(b.items[j].rect, a.items, |a.items|) == 1 && Exact(a, ChildAt(b, j)))
  }

  lemma ColumnCount(a: Tree, b: Tree, j: nat)
    requires Body(a) && Body(b) && a.level == 0 && b.level > 0 && j < |b.items|
    ensures var n := Touching(b.items[j].rect, a.items, |a.items|) * |Join(a, ChildAt(b, j))|;
      var c := |Cross(Entries(a), ItemEntries(b.items[j]))|;
      c <= n && (n == c <==> ColumnExact(a, b, j))
  {
    hide Body, Join, Cross, EntriesOf, Apart, Touching;
    var c := ChildAt(b, j);
    SlotOk(b, j);
    JoinIsExact(a, c);
    ApartIsEmpty(Entries(a), Entries(c));
    if !Apart(Entries(a), Entries(c)) {
      ApartFlips(Entries(a), Entries(c));
      OverlappingTouches(b.items[j].rect, Entries(c), a);
    }
    Weigh(Touching(b.items[j].rect, a.items, |a.items|), |Join(a, c)|, |Cross(Entries(a), Entries(c))|);
  }

  lemma {:induction false} ColumnsCount(a: Tree, b: Tree, n: nat)
    requires Body(a) && Body(b) && a.level == 0 && b.level > 0 && n <= |b.items|
    ensures var all := |Cross(Entries(a), EntriesOf(b.items[..n]))|;
      && all <= Columns(a, b, |a.items|, n)
      && (Columns(a, b, |a.items|, n) == all <==> forall j | 0 <= j < n :: ColumnExact(a, b, j))
    decreases n
  {
    hide Body, Join, Cross, Touching, ColumnExact, ItemEntries, EntriesOf;
    if n == 0 {
      NoPairs(b.items, Entries(a));
    } else {
      ColumnsCount(a, b, n - 1);
      ColumnCount(a, b, n - 1);
      EntriesUpTo(b.items, n);
      CrossConcatRight(Entries(a), EntriesOf(b.items[..n - 1]), ItemEntries(b.items[n - 1]));
    }
  }

  lemma ExactByColumns(a: Tree, b: Tree)
    requires Body(a) && Body(b) && a.level == 0 && b.level > 0
    ensures Exact(a, b) <==> forall j | 0 <= j < |b.items| :: ColumnExact(a, b, j)
  {
    hide Body, JoinRows, EntriesOf, Cross, Columns, ColumnExact;
    RowsInColumns(a, b, |a.items|);
    ColumnsCount(a, b, |b.items|);
    assert b.items[..|b.items|] == b.items;
  }

  // ---------------------------------------------------------------- both internal

  lemma ExactBySlots(a: Tree, b: Tree)
    requires Body(a) && Body(b)
    ensures Exact(a, b) <==> forall i, j | 0 <= i < |a.items| && 0 <= j < |b.items| :: SlotExact(a, b, i, j)
  {
    hide Body, Exact, RowExact, SlotExact;
    ExactByRows(a, b);
    forall i | 0 <= i < |a.items|
      ensures RowExact(a, b, i) <==> forall j | 0 <= j < |b.items| :: SlotExact(a, b, i, j)
    {
      RowBySlots(a, b, i);
    }
    if Exact(a, b) {
      forall i, j | 0 <= i < |a.items| && 0 <= j < |b.items|
        ensures SlotExact(a, b, i, j)
      {
        assert RowExact(a, b, i);
      }
    }
  }

  lemma SlotBetweenChildren(a: Tree, b: Tree, i: nat, j: nat)
    requires Body(a) && Body(b) && i < |a.items| && j < |b.items| && a.level > 0 && b.level > 0
    ensures SlotExact(a, b, i, j)
       <==> (Overlaps(a.items[i].rect, b.items[j].rect) ==> Exact(ChildAt(a, i), ChildAt(b, j)))
  {
    hide Body, Join, Cross, EntriesOf, Overlaps;
    SlotOk(a, i);
    SlotOk(b, j);
    if !Overlaps(a.items[i].rect, b.items[j].rect) {
      NothingToJoin(a.items[i].rect, ItemEntries(a.items[i]), b.items[j].rect, ItemEntries(b.items[j]));
    }
  }

  // ---------------------------------------------------------------- the theorem

  /**
    The count returned for two trees of any heights is the number of overlapping pairs if
    and only if nothing is joined twice.
   */
  lemma {:induction false} CountIsExactIffOnce(a: Tree, b: Tree)
    requires Body(a) && Body(b)
    ensures |Join(a, b)| == |Cross(Entries(a), Entries(b))| <==> Once(a, b)
    decreases a.level + b.level
  {
    hide Body, Join, Cross, EntriesOf, Overlaps, Apart, Touching, RowExact, SlotExact;
    if a.level > 0 && b.level > 0 {
      ExactBySlots(a, b);
      forall i, j | 0 <= i < |a.items| && 0 <= j < |b.items|
        ensures SlotExact(a, b, i, j)
           <==> (Overlaps(a.items[i].rect, b.items[j].rect) ==> Once(ChildAt(a, i), ChildAt(b, j)))
      {
        SlotBetweenChildren(a, b, i, j);
        CountIsExactIffOnce(ChildAt(a, i), ChildAt(b, j));
      }
    } else if a.level > 0 {
      ExactByRows(a, b);
      forall i | 0 <= i < |a.items|
        ensures RowExact(a, b, i)
           <==> || Apart(Entries(ChildAt(a, i)), Entries(b))
                || (Touching(a.items[i].rect, b.items, |b.items|) == 1 && Once(ChildAt(a, i), b))
      {
        RowAgainstLeaf(a, b, i);
        CountIsExactIffOnce(ChildAt(a, i), b);
      }
    } else if b.level > 0 {
      ExactByColumns(a, b);
      forall j | 0 <= j < |b.items|
        ensures ColumnExact(a, b, j)
           <==> || Apart(Entries(a), Entries(ChildAt(b, j)))
                || (Touching(b.items[j].rect, a.items, |a.items|) == 1 && Once(a, ChildAt(b, j)))
      {
        CountIsExactIffOnce(a, ChildAt(b, j));
      }
    } else {
      JoinIsExact(a, b);
    }
  }

  /** Trees of equal height always meet the condition. */
  lemma EqualHeightsJoinOnce(a: Tree, b: Tree)
    requires Body(a) && Body(b) && a.level == b.level
    ensures Once(a, b)
  {
    hide Body, Join, Cross, Once;
    JoinIsExact(a, b);
    CountIsExactIffOnce(a, b);
  }

  // ---------------------------------------------------------------- trees that fail it

  function Origin(): (r: Rect)
    ensures Proper(r)
  {
    Rect(seq(DIM, i => 0.0), seq(DIM, i => 0.0))
  }

  function Copies(n: nat): (t: Tree)
    requires 1 <= n <= MAX
    ensures WellFormed(t) && t.level == 0 && |t.items| == n
    ensures forall i | 0 <= i < n :: t.items[i] == Data(Origin(), 0)
  {
    var t := Tree(0, seq(n, i => Data(Origin(), 0)));
    assert forall i | 0 <= i < n :: ItemOk(t.items[i], 0);
    t
  }

  lemma CopiesCover(n: nat)
    requires 1 <= n <= MAX
    ensures CoverOf(Copies(n)) == Origin()
  {
    var rs := RectsOf(Copies(n).items);
    forall i | 0 <= i < |rs|
      ensures rs[i] == Origin() && Contains(Origin(), rs[i])
    {
    }
    forall d | Bounds(d, rs)
      ensures Contains(d, Origin())
    {
      assert Contains(d, rs[0]);
    }
    CoverUnique(Origin(), rs);
  }

  lemma {:induction false} TouchesAll(r: Rect, items: seq<Item>, n: nat)
    requires n <= |items| && forall i | 0 <= i < n :: Overlaps(r, items[i].rect)
    ensures Touching(r, items, n) == n
    decreases n
  {
    hide Overlaps;
    if n > 0 {
      TouchesAll(r, items, n - 1);
    }
  }

  /** Two leaves of equal points under one root, joined with a leaf of two such points. */
  lemma CountCanExceed()
    ensures exists a: Tree, b: Tree | WellFormed(a) && WellFormed(b) ::
              |Join(a, b)| > |Cross(Entries(a), Entries(b))|
  {
    hide Join, Cross, Once;
    var c, b := Copies(MIN), Copies(2);
    var a := Tree(1, [Sub(Origin(), c), Sub(Origin(), c)]);
    CopiesCover(MIN);
    assert WellFormed(a) by {
      assert forall i | 0 <= i < 2 :: ItemOk(a.items[i], 1);
    }
    OnceFails(a, b);
    JoinIsExact(a, b);
    CountIsExactIffOnce(a, b);
    assert WellFormed(a) && WellFormed(b) && |Join(a, b)| > |Cross(Entries(a), Entries(b))|;
  }

  lemma OnceFails(a: Tree, b: Tree)
    requires Body(a) && a.level == 1 && a.items != [] && a.items[0] == Sub(Origin(), Copies(MIN)) && b == Copies(2)
    ensures !Once(a, b)
  {
    hide Body;
    var c := ChildAt(a, 0);
    TouchesAll(Origin(), b.items, 2);
    var e := Entry(Origin(), 0);
    ItemEntryInside(c.items, 0, e);
    ItemEntryInside(b.items, 0, e);
    assert !Apart(Entries(c), Entries(b));
  }
}
