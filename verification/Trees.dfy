/**
  The value of an R-tree: what the nodes in memory stand for, what makes such a value
  well-formed, and the entries it stores.
 */
module Trees {
  import opened Params
  import opened Rects

  datatype Entry = Entry(rect: Rect, id: Id)

  /** One slot of a node: data in a leaf, a subtree anywhere else. */
  datatype Item =
    | Data(rect: Rect, id: Id)
    | Sub(rect: Rect, child: Tree)

  datatype Tree = Tree(level: nat, items: seq<Item>)

  function RectsOf(items: seq<Item>): (rs: seq<Rect>)
    ensures |rs| == |items|
    ensures forall i | 0 <= i < |items| :: rs[i] == items[i].rect
  {
    seq(|items|, i requires 0 <= i < |items| => items[i].rect)
  }

  function CoverOf(t: Tree): Rect
    requires t.items != []
  {
    Cover(RectsOf(t.items))
  }

  // ---------------------------------------------------------------- entries

  /** The stored entries in depth-first order. */
  function EntriesOf(items: seq<Item>): seq<Entry> {
    if items == [] then []
    else EntriesOf(items[..|items| - 1]) + ItemEntries(items[|items| - 1])
  }

  function ItemEntries(it: Item): seq<Entry> {
    match it
    case Data(r, id) => [Entry(r, id)]
    case Sub(_, c) => EntriesOf(c.items)
  }

  function Entries(t: Tree): seq<Entry> {
    EntriesOf(t.items)
  }

  function Bag(t: Tree): multiset<Entry> {
    multiset(Entries(t))
  }

  lemma {:induction false} EntriesOfConcat(a: seq<Item>, b: seq<Item>)
    ensures EntriesOf(a + b) == EntriesOf(a) + EntriesOf(b)
  {
    if b == [] {
      assert a + b == a;
    } else {
      var n := |b| - 1;
      assert (a + b)[..|a + b| - 1] == a + b[..n];
      EntriesOfConcat(a, b[..n]);
    }
  }

  lemma EntriesOfPush(items: seq<Item>, x: Item)
    ensures EntriesOf(items + [x]) == EntriesOf(items) + ItemEntries(x)
  {
    assert (items + [x])[..|items|] == items;
  }

  lemma BagOfPush(items: seq<Item>, x: Item)
    ensures multiset(EntriesOf(items + [x])) == multiset(EntriesOf(items)) + multiset(ItemEntries(x))
  {
    hide EntriesOf, ItemEntries;
    EntriesOfPush(items, x);
  }

  lemma EntriesOfOne(it: Item)
    ensures EntriesOf([it]) == ItemEntries(it)
  {
    assert [it][..0] == [];
  }

  /** The entries around one slot. */
  lemma EntriesOfAround(items: seq<Item>, k: nat, x: Item)
    requires k < |items|
    ensures EntriesOf(items[k := x]) == EntriesOf(items[..k]) + ItemEntries(x) + EntriesOf(items[k + 1..])
  {
    assert items[k := x] == items[..k] + [x] + items[k + 1..];
    EntriesOfConcat(items[..k] + [x], items[k + 1..]);
    EntriesOfConcat(items[..k], [x]);
    EntriesOfOne(x);
  }

  /** Replacing one slot exchanges that slot's entries. */
  lemma BagOfUpdate(items: seq<Item>, k: nat, x: Item)
    requires k < |items|
    ensures multiset(EntriesOf(items[k := x])) + multiset(ItemEntries(items[k]))
         == multiset(EntriesOf(items)) + multiset(ItemEntries(x))
  {
    EntriesOfAround(items, k, x);
    EntriesOfAround(items, k, items[k]);
    assert items[k := items[k]] == items;
  }

  /** The slots of a subtree are found among those of the whole. */
  lemma {:induction false} ItemEntryInside(items: seq<Item>, k: nat, e: Entry)
    requires k < |items| && e in ItemEntries(items[k])
    ensures e in EntriesOf(items)
  {
    EntriesOfAround(items, k, items[k]);
    assert items[k := items[k]] == items;
  }

  lemma {:induction false} EntryHasSlot(items: seq<Item>, e: Entry) returns (k: nat)
    requires e in EntriesOf(items)
    ensures k < |items| && e in ItemEntries(items[k])
  {
    var n := |items| - 1;
    if e in ItemEntries(items[n]) {
      k := n;
    } else {
      k := EntryHasSlot(items[..n], e);
    }
  }

  // ---------------------------------------------------------------- well-formedness

  /**
    A slot fits a node of the given level: data at level 0, otherwise a subtree exactly
    one level down, filled to the minimum, under the tightest possible box.
   */
  ghost predicate ItemOk(it: Item, level: nat) {
    && Proper(it.rect)
    && match it
       case Data(_, _) => level == 0
       case Sub(r, c) =>
         level > 0 && c.level == level - 1 && MIN <= |c.items| && r == CoverOf(c) && Body(c)
  }

  /** Everything but the lower bound on the number of slots. */
  ghost predicate Body(t: Tree) {
    && |t.items| <= MAX
    && forall i | 0 <= i < |t.items| :: ItemOk(t.items[i], t.level)
  }

  /** A root: an empty leaf at the least, and at least two children when internal. */
  ghost predicate WellFormed(t: Tree) {
    Body(t) && (t.level > 0 ==> 2 <= |t.items|)
  }

  /** A root on which removal is still at work. */
  ghost predicate Loose(t: Tree) {
    Body(t) && (t.level > 0 ==> 1 <= |t.items|)
  }

  ghost predicate AllOk(items: seq<Item>, level: nat) {
    forall i | 0 <= i < |items| :: ItemOk(items[i], level)
  }

  lemma CoverProper(t: Tree)
    requires Body(t) && t.items != []
    ensures Proper(CoverOf(t))
  {
    CoverIsLeast(RectsOf(t.items));
    assert Proper(RectsOf(t.items)[0]) by {
      assert ItemOk(t.items[0], t.level);
    }
  }

  /** The item a parent has for a child is acceptable once the child is. */
  lemma SubOk(c: Tree)
    requires Body(c) && MIN <= |c.items|
    ensures ItemOk(Sub(CoverOf(c), c), c.level + 1)
  {
    CoverProper(c);
  }

  // ---------------------------------------------------------------- tight boxes

  ghost predicate CoversEntries(r: Rect, es: seq<Entry>) {
    forall e | e in es :: Contains(r, e.rect)
  }

  lemma {:induction false} ItemCovers(it: Item, level: nat)
    requires ItemOk(it, level)
    ensures ItemEntries(it) != []
    ensures CoversEntries(it.rect, ItemEntries(it))
    ensures forall b | CoversEntries(b, ItemEntries(it)) :: Contains(b, it.rect)
    decreases it
  {
    match it
    case Data(r, id) =>
      forall b | CoversEntries(b, ItemEntries(it))
        ensures Contains(b, r)
      {
        assert Entry(r, id) in ItemEntries(it);
      }
    case Sub(r, c) =>
      ItemsCover(c.items, c.level);
      assert RectsOf(c.items) == RectsOf(c.items);
  }

  /** The cover of a node is the least box around the data below it. */
  lemma {:induction false} ItemsCover(items: seq<Item>, level: nat)
    requires AllOk(items, level) && items != []
    ensures EntriesOf(items) != []
    ensures CoversEntries(Cover(RectsOf(items)), EntriesOf(items))
    ensures forall b | CoversEntries(b, EntriesOf(items)) :: Contains(b, Cover(RectsOf(items)))
    decreases items
  {
    var rs := RectsOf(items);
    CoverIsLeast(rs);
    forall k | 0 <= k < |items|
      ensures ItemEntries(items[k]) != []
      ensures CoversEntries(items[k].rect, ItemEntries(items[k]))
      ensures forall b | CoversEntries(b, ItemEntries(items[k])) :: Contains(b, items[k].rect)
      ensures forall e | e in ItemEntries(items[k]) :: e in EntriesOf(items)
    {
      ItemCovers(items[k], level);
      forall e | e in ItemEntries(items[k]) {
        ItemEntryInside(items, k, e);
      }
    }
    assert ItemEntries(items[0])[0] in EntriesOf(items);
    forall e | e in EntriesOf(items)
      ensures Contains(Cover(rs), e.rect)
    {
      var k := EntryHasSlot(items, e);
      assert Contains(Cover(rs), rs[k]) && Contains(items[k].rect, e.rect);
      ContainsTransitive(Cover(rs), rs[k], e.rect);
    }
    forall b | CoversEntries(b, EntriesOf(items))
      ensures Contains(b, Cover(rs))
    {
      forall k | 0 <= k < |rs|
        ensures Contains(b, rs[k])
      {
        assert CoversEntries(b, ItemEntries(items[k]));
      }
      assert Bounds(b, rs);
    }
  }

  /** The least box around some entries. */
  ghost predicate LeastBox(r: Rect, es: seq<Entry>) {
    CoversEntries(r, es) && forall b | CoversEntries(b, es) :: Contains(b, r)
  }

  /** At every depth, each slot's box is the least one around the data below it. */
  ghost predicate TightBelow(t: Tree)
    decreases t
  {
    forall i | 0 <= i < |t.items| ::
      LeastBox(t.items[i].rect, ItemEntries(t.items[i])) && (t.items[i].Sub? ==> TightBelow(t.items[i].child))
  }

  lemma {:induction false} BoxesAreTight(t: Tree)
    requires Body(t)
    ensures TightBelow(t)
    decreases t
  {
    forall i | 0 <= i < |t.items|
      ensures LeastBox(t.items[i].rect, ItemEntries(t.items[i]))
      ensures t.items[i].Sub? ==> TightBelow(t.items[i].child)
    {
      assert ItemOk(t.items[i], t.level);
      ItemCovers(t.items[i], t.level);
      if t.items[i].Sub? {
        BoxesAreTight(t.items[i].child);
      }
    }
  }

  // ---------------------------------------------------------------- height

  function Pow(b: nat, e: nat): nat {
    if e == 0 then 1 else b * Pow(b, e - 1)
  }

  lemma ProductMonotone(a: nat, b: nat, x: nat, y: nat)
    requires a <= b && x <= y
    ensures a * x <= b * y
  {
    assert a * x <= a * y <= b * y;
  }

  lemma {:induction false} PowMonotone(b: nat, c: nat, e: nat)
    requires b <= c
    ensures Pow(b, e) <= Pow(c, e)
  {
    if e > 0 {
      PowMonotone(b, c, e - 1);
      ProductMonotone(b, c, Pow(b, e - 1), Pow(c, e - 1));
    }
  }

  lemma {:induction false} ManyEntries(it: Item, level: nat)
    requires ItemOk(it, level)
    ensures |ItemEntries(it)| >= Pow(MIN, level)
    decreases it
  {
    match it
    case Data(_, _) =>
    case Sub(_, c) =>
      ManyItems(c.items, level - 1);
      ProductMonotone(MIN, |c.items|, Pow(MIN, level - 1), Pow(MIN, level - 1));
  }

  lemma {:induction false} ManyItems(items: seq<Item>, level: nat)
    requires AllOk(items, level)
    ensures |EntriesOf(items)| >= |items| * Pow(MIN, level)
    decreases items
  {
    if items != [] {
      var n := |items| - 1;
      ManyItems(items[..n], level);
      ManyEntries(items[n], level);
      assert |items| * Pow(MIN, level) == n * Pow(MIN, level) + Pow(MIN, level);
    }
  }

  /** A tree of height H holds at least 2 * MIN^H entries. */
  lemma HeightIsLogarithmic(t: Tree)
    requires WellFormed(t) && t.level > 0
    ensures |Entries(t)| >= 2 * Pow(MIN, t.level)
  {
    ManyItems(t.items, t.level);
    ProductMonotone(2, |t.items|, Pow(MIN, t.level), Pow(MIN, t.level));
  }

  lemma {:induction false} PowerOfTwoBound(e: nat, k: nat)
    requires Pow(2, e) < Pow(2, k)
    ensures e < k
  {
    if k == 0 {
      PowPositive(e);
    } else if e > 0 {
      PowerOfTwoBound(e - 1, k - 1);
    }
  }

  lemma {:induction false} PowPositive(e: nat)
    ensures Pow(2, e) >= 1
  {
    if e > 0 {
      PowPositive(e - 1);
    }
  }

  /** Fewer than 2^31 entries never reach level 30, so 32 iterator slots are plenty. */
  lemma HeightFitsIteratorStack(t: Tree)
    requires WellFormed(t) && |Entries(t)| < 0x8000_0000
    ensures t.level < 30
  {
    assert Pow(2, 31) == 0x8000_0000 by {
      assert Pow(2, 4) == 0x10;
      assert Pow(2, 8) == 0x100;
      assert Pow(2, 12) == 0x1000;
      assert Pow(2, 16) == 0x1_0000;
      assert Pow(2, 20) == 0x10_0000;
      assert Pow(2, 24) == 0x100_0000;
      assert Pow(2, 28) == 0x1000_0000;
    }
    if t.level > 0 {
      HeightIsLogarithmic(t);
      PowMonotone(2, MIN, t.level);
      assert Pow(2, t.level + 1) == 2 * Pow(2, t.level);
      PowerOfTwoBound(t.level + 1, 31);
    }
  }
}
