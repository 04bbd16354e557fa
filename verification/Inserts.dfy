/**
  Insertion on tree values: descent by least enlargement, splitting on the way back up,
  and root growth.  Inserting at any level adds exactly the new item's entries and keeps
  the tree well-formed.
 */
module Inserts {
  import opened Params
  import opened Rects
  import opened Trees
  import opened Partitions

  // ---------------------------------------------------------------- PickBranch

  /** What a branch costs: the growth of its box, and its volume before. */
  datatype Cost = Cost(increase: real, area: real)

  function CostOf(r: Rect, box: Rect): Cost {
    Cost(Volume(Combine(r, box)) - Volume(box), Volume(box))
  }

  function Costs(r: Rect, boxes: seq<Rect>): (cs: seq<Cost>)
    ensures |cs| == |boxes|
    ensures forall i | 0 <= i < |boxes| :: cs[i] == CostOf(r, boxes[i])
  {
    seq(|boxes|, i requires 0 <= i < |boxes| => CostOf(r, boxes[i]))
  }

  /** The best of the first `n` branches, each one challenging the best so far. */
  function PickUpTo(cs: seq<Cost>, n: nat): (best: nat)
    requires 0 < n <= |cs|
    ensures best < n
    decreases n
  {
    if n == 1 then 0
    else
      var best := PickUpTo(cs, n - 1);
      if || cs[n - 1].increase < cs[best].increase
         || (NearEqual(cs[n - 1].increase, cs[best].increase) && cs[n - 1].area < cs[best].area)
      then n - 1 else best
  }

  function PickBranch(r: Rect, boxes: seq<Rect>): (best: nat)
    requires boxes != []
    ensures best < |boxes|
  {
    PickUpTo(Costs(r, boxes), |boxes|)
  }

  /** Ties may drift: each of them can give away up to one tolerance. */
  lemma {:induction false} PickNearLeast(cs: seq<Cost>, n: nat)
    requires 0 < n <= |cs|
    ensures forall i | 0 <= i < n ::
              cs[PickUpTo(cs, n)].increase <= cs[i].increase + (n - 1) as real * ZERO_TOLERANCE
  {
    if n > 1 {
      PickNearLeast(cs, n - 1);
      assert (n - 1) as real * ZERO_TOLERANCE == (n - 2) as real * ZERO_TOLERANCE + ZERO_TOLERANCE;
    }
  }

  /** Increases are equal or a tolerance apart. */
  ghost predicate Separated(cs: seq<Cost>) {
    forall i, j | 0 <= i < |cs| && 0 <= j < |cs| ::
      cs[i].increase == cs[j].increase || !NearEqual(cs[i].increase, cs[j].increase)
  }

  predicate Cheaper(a: Cost, b: Cost) {
    a.increase < b.increase || (a.increase == b.increase && a.area < b.area)
  }

  /** Without near-ties the pick is the first of the cheapest, growth first and then size. */
  lemma {:induction false} PickIsCheapest(cs: seq<Cost>, n: nat)
    requires 0 < n <= |cs| && Separated(cs)
    ensures forall i | 0 <= i < n :: !Cheaper(cs[i], cs[PickUpTo(cs, n)])
    ensures forall i | 0 <= i < PickUpTo(cs, n) :: Cheaper(cs[PickUpTo(cs, n)], cs[i])
  {
    if n > 1 {
      PickIsCheapest(cs, n - 1);
    }
  }

  /** The last branch of least enlargement among the first `n`. */
  function LastLeast(cs: seq<Cost>, n: nat): (l: nat)
    requires 0 < n <= |cs|
    ensures l < n
    ensures forall i | 0 <= i < n :: cs[l].increase <= cs[i].increase
    ensures forall i | l < i < n :: cs[l].increase < cs[i].increase
    decreases n
  {
    if n == 1 then 0
    else
      var l := LastLeast(cs, n - 1);
      if cs[l].increase < cs[n - 1].increase then l else n - 1
  }

  /** The guard of the tie branch: `k` takes the place of the pick `best` made up to `l`. */
  ghost predicate TakesOver(cs: seq<Cost>, k: nat, l: nat, best: nat)
    requires k < |cs| && l < |cs| && best < |cs|
  {
    NearEqual(cs[k].increase, cs[l].increase) && cs[k].area < cs[best].area
  }

  /** No branch behind `l` does. */
  ghost predicate NoneTakesOver(cs: seq<Cost>, l: nat, n: nat, best: nat)
    requires l < n <= |cs| && best < |cs|
  {
    forall k | l < k < n :: !TakesOver(cs, k, l, best)
  }

  ghost predicate IsLeast(cs: seq<Cost>, n: nat, l: nat)
    requires l < n <= |cs|
  {
    forall i | 0 <= i < n :: cs[l].increase <= cs[i].increase
  }

  lemma {:induction false} PickAfterLeast(cs: seq<Cost>, l: nat, n: nat)
    requires l < n <= |cs| && IsLeast(cs, n, l)
    requires forall i | l < i < n :: cs[l].increase < cs[i].increase
    ensures var best := PickUpTo(cs, l + 1);
      if NoneTakesOver(cs, l, n, best) then
        PickUpTo(cs, n) == best && cs[best].increase == cs[l].increase
      else cs[PickUpTo(cs, n)].increase > cs[l].increase
    decreases n
  {
    var best := PickUpTo(cs, l + 1);
    if n > l + 1 {
      PickAfterLeast(cs, l, n - 1);
      assert cs[l].increase < cs[n - 1].increase;
      assert NoneTakesOver(cs, l, n, best) <==> NoneTakesOver(cs, l, n - 1, best) && !TakesOver(cs, n - 1, l, best);
    } else if l > 0 {
      assert cs[l].increase <= cs[PickUpTo(cs, l)].increase;
    }
  }

  /** The pick has the least enlargement if and only if no branch behind the last of the least takes over. */
  lemma PickIsLeastIff(cs: seq<Cost>, n: nat)
    requires 0 < n <= |cs|
    ensures IsLeast(cs, n, PickUpTo(cs, n))
       <==> NoneTakesOver(cs, LastLeast(cs, n), n, PickUpTo(cs, LastLeast(cs, n) + 1))
  {
    hide TakesOver, NoneTakesOver;
    var l, p := LastLeast(cs, n), PickUpTo(cs, n);
    PickAfterLeast(cs, l, n);
    assert IsLeast(cs, n, p) ==> cs[p].increase <= cs[l].increase;
  }

  /** The last of the cheapest among the first `n`, growth first and then size. */
  function LastCheapest(cs: seq<Cost>, n: nat): (c: nat)
    requires 0 < n <= |cs|
    ensures c < n
    ensures forall i | 0 <= i < n :: !Cheaper(cs[i], cs[c])
    ensures forall i | c < i < n :: Cheaper(cs[c], cs[i])
    decreases n
  {
    if n == 1 then 0
    else
      var c := LastCheapest(cs, n - 1);
      if Cheaper(cs[c], cs[n - 1]) then c else n - 1
  }

  ghost predicate IsCheapest(cs: seq<Cost>, n: nat, c: nat)
    requires c < n <= |cs|
  {
    forall i | 0 <= i < n :: !Cheaper(cs[i], cs[c])
  }

  lemma {:induction false} PickAfterCheapest(cs: seq<Cost>, c: nat, n: nat)
    requires c < n <= |cs| && IsCheapest(cs, n, c)
    requires forall i | c < i < n :: Cheaper(cs[c], cs[i])
    ensures cs[PickUpTo(cs, n)] == cs[c] <==> NoneTakesOver(cs, c, n, c)
    decreases n
  {
    if n > c + 1 {
      PickAfterCheapest(cs, c, n - 1);
      assert Cheaper(cs[c], cs[n - 1]);
      assert NoneTakesOver(cs, c, n, c) <==> NoneTakesOver(cs, c, n - 1, c) && !TakesOver(cs, n - 1, c, c);
    } else if c > 0 {
      assert !Cheaper(cs[PickUpTo(cs, c)], cs[c]);
    }
  }

  /**
    The pick is one of the cheapest if and only if no branch behind the last of them takes
    over, by an enlargement within the tolerance and a smaller box.
   */
  lemma PickIsCheapestIff(cs: seq<Cost>, n: nat)
    requires 0 < n <= |cs|
    ensures IsCheapest(cs, n, PickUpTo(cs, n))
       <==> NoneTakesOver(cs, LastCheapest(cs, n), n, LastCheapest(cs, n))
  {
    hide TakesOver, NoneTakesOver, PickUpTo;
    var c, p := LastCheapest(cs, n), PickUpTo(cs, n);
    PickAfterCheapest(cs, c, n);
    assert !Cheaper(cs[p], cs[c]);
    assert IsCheapest(cs, n, p) ==> !Cheaper(cs[c], cs[p]);
  }

  // ---------------------------------------------------------------- the pick, by volumes of boxes

  /** The picked branch enlarges at most by the least plus one tolerance for each other branch. */
  lemma PickBranchNearLeast(r: Rect, boxes: seq<Rect>, i: nat)
    requires i < |boxes|
    ensures var p := PickBranch(r, boxes);
      Volume(Combine(r, boxes[p])) - Volume(boxes[p])
        <= Volume(Combine(r, boxes[i])) - Volume(boxes[i]) + (|boxes| - 1) as real * ZERO_TOLERANCE
  {
    hide Volume, Combine, PickUpTo;
    PickNearLeast(Costs(r, boxes), |boxes|);
    assert Costs(r, boxes)[i] == CostOf(r, boxes[i]);
  }

  /** If enlargements are equal or a tolerance apart, it is the first of the cheapest. */
  lemma PickBranchIsCheapest(r: Rect, boxes: seq<Rect>)
    requires boxes != []
    requires forall i, j | 0 <= i < |boxes| && 0 <= j < |boxes| ::
               var x := Volume(Combine(r, boxes[i])) - Volume(boxes[i]);
               var y := Volume(Combine(r, boxes[j])) - Volume(boxes[j]);
               x == y || x - y <= -ZERO_TOLERANCE || ZERO_TOLERANCE <= x - y
    ensures var p := PickBranch(r, boxes); var best := Volume(Combine(r, boxes[p])) - Volume(boxes[p]);
      && (forall i | 0 <= i < |boxes| ::
            var x := Volume(Combine(r, boxes[i])) - Volume(boxes[i]);
            best < x || (best == x && Volume(boxes[p]) <= Volume(boxes[i])))
      && (forall i | 0 <= i < p ::
            var x := Volume(Combine(r, boxes[i])) - Volume(boxes[i]);
            best < x || (best == x && Volume(boxes[p]) < Volume(boxes[i])))
  {
    hide Volume, Combine, PickUpTo;
    var cs, p := Costs(r, boxes), PickBranch(r, boxes);
    forall i, j | 0 <= i < |cs| && 0 <= j < |cs|
      ensures cs[i].increase == cs[j].increase || !NearEqual(cs[i].increase, cs[j].increase)
    {
      assert cs[i] == CostOf(r, boxes[i]) && cs[j] == CostOf(r, boxes[j]);
    }
    PickIsCheapest(cs, |boxes|);
    forall i | 0 <= i < |boxes|
      ensures !Cheaper(CostOf(r, boxes[i]), CostOf(r, boxes[p]))
      ensures i < p ==> Cheaper(CostOf(r, boxes[p]), CostOf(r, boxes[i]))
    {
      assert cs[i] == CostOf(r, boxes[i]) && cs[p] == CostOf(r, boxes[p]);
    }
  }

  lemma {:induction false} PickFromPrefix(cs: seq<Cost>, m: nat, n: nat)
    requires 0 < n <= m <= |cs|
    ensures PickUpTo(cs[..m], n) == PickUpTo(cs, n)
    decreases n
  {
    if n > 1 {
      PickFromPrefix(cs, m, n - 1);
    }
  }

  lemma PickBranchOfPrefix(r: Rect, boxes: seq<Rect>, n: nat)
    requires 0 < n <= |boxes|
    ensures PickBranch(r, boxes[..n]) == PickUpTo(Costs(r, boxes), n)
  {
    hide PickUpTo, CostOf;
    assert Costs(r, boxes[..n]) == Costs(r, boxes)[..n];
    PickFromPrefix(Costs(r, boxes), n, n);
  }

  /**
    With `l` the last branch of least enlargement, the pick has the least enlargement if and
    only if no branch behind `l` is near it and smaller than what was picked up to `l`.
   */
  lemma PickBranchIsLeastIff(r: Rect, boxes: seq<Rect>, l: nat)
    requires l < |boxes|
    requires forall i | 0 <= i < |boxes| ::
               var x := Volume(Combine(r, boxes[i])) - Volume(boxes[i]);
               var least := Volume(Combine(r, boxes[l])) - Volume(boxes[l]);
               least <= x && (i > l ==> least < x)
    ensures var p := PickBranch(r, boxes);
      (forall i | 0 <= i < |boxes| ::
         Volume(Combine(r, boxes[p])) - Volume(boxes[p]) <= Volume(Combine(r, boxes[i])) - Volume(boxes[i]))
      <==> (forall k | l < k < |boxes| ::
              var over := (Volume(Combine(r, boxes[k])) - Volume(boxes[k]))
                          - (Volume(Combine(r, boxes[l])) - Volume(boxes[l]));
              !(over < ZERO_TOLERANCE && Volume(boxes[k]) < Volume(boxes[PickBranch(r, boxes[..l + 1])])))
  {
    hide Volume, Combine, PickUpTo, NoneTakesOver;
    var cs, n := Costs(r, boxes), |boxes|;
    var p, best := PickBranch(r, boxes), PickBranch(r, boxes[..l + 1]);
    PickBranchOfPrefix(r, boxes, l + 1);
    forall i | 0 <= i < n
      ensures cs[l].increase <= cs[i].increase && (i > l ==> cs[l].increase < cs[i].increase)
    {
      assert cs[i] == CostOf(r, boxes[i]) && cs[l] == CostOf(r, boxes[l]);
    }
    PickAfterLeast(cs, l, n);
    TakesOverByVolume(r, boxes, l, best);
    LeastByVolume(r, boxes, l, p);
  }

  lemma LeastByVolume(r: Rect, boxes: seq<Rect>, l: nat, p: nat)
    requires l < |boxes| && p < |boxes| && IsLeast(Costs(r, boxes), |boxes|, l)
    ensures Costs(r, boxes)[l].increase <= Costs(r, boxes)[p].increase
    ensures (forall i | 0 <= i < |boxes| ::
               Volume(Combine(r, boxes[p])) - Volume(boxes[p]) <= Volume(Combine(r, boxes[i])) - Volume(boxes[i]))
       <==> Costs(r, boxes)[p].increase == Costs(r, boxes)[l].increase
  {
    hide Volume, Combine;
    var cs := Costs(r, boxes);
    assert cs[l].increase <= cs[p].increase;
    assert cs[p] == CostOf(r, boxes[p]) && cs[l] == CostOf(r, boxes[l]);
    forall i | 0 <= i < |boxes|
      ensures cs[l].increase <= Volume(Combine(r, boxes[i])) - Volume(boxes[i])
    {
      assert cs[i] == CostOf(r, boxes[i]);
    }
  }

  lemma TakesOverByVolume(r: Rect, boxes: seq<Rect>, l: nat, best: nat)
    requires l < |boxes| && best < |boxes|
    requires forall i | l < i < |boxes| :: Costs(r, boxes)[l].increase <= Costs(r, boxes)[i].increase
    ensures NoneTakesOver(Costs(r, boxes), l, |boxes|, best)
       <==> (forall k | l < k < |boxes| ::
              var over := (Volume(Combine(r, boxes[k])) - Volume(boxes[k]))
                          - (Volume(Combine(r, boxes[l])) - Volume(boxes[l]));
              !(over < ZERO_TOLERANCE && Volume(boxes[k]) < Volume(boxes[best])))
  {
    hide Volume, Combine;
    var cs := Costs(r, boxes);
    forall k | l < k < |boxes|
      ensures TakesOver(cs, k, l, best)
         <==> var over := (Volume(Combine(r, boxes[k])) - Volume(boxes[k]))
                          - (Volume(Combine(r, boxes[l])) - Volume(boxes[l]));
              over < ZERO_TOLERANCE && Volume(boxes[k]) < Volume(boxes[best])
    {
      assert cs[k] == CostOf(r, boxes[k]) && cs[l] == CostOf(r, boxes[l]) && cs[best] == CostOf(r, boxes[best]);
      assert cs[l].increase <= cs[k].increase;
    }
  }

  /**
    With `c` the last of the cheapest, the pick is as cheap if and only if no branch behind
    `c` is near it and smaller than it.
   */
  lemma PickBranchIsCheapestIff(r: Rect, boxes: seq<Rect>, c: nat)
    requires c < |boxes|
    requires forall i | 0 <= i < |boxes| ::
               var x := Volume(Combine(r, boxes[i])) - Volume(boxes[i]);
               var least := Volume(Combine(r, boxes[c])) - Volume(boxes[c]);
               && (least < x || (least == x && Volume(boxes[c]) <= Volume(boxes[i])))
               && (i > c ==> least < x || (least == x && Volume(boxes[c]) < Volume(boxes[i])))
    ensures var p := PickBranch(r, boxes);
      (Volume(Combine(r, boxes[p])) - Volume(boxes[p]) == Volume(Combine(r, boxes[c])) - Volume(boxes[c])
       && Volume(boxes[p]) == Volume(boxes[c]))
      <==> (forall k | c < k < |boxes| ::
              var over := (Volume(Combine(r, boxes[k])) - Volume(boxes[k]))
                          - (Volume(Combine(r, boxes[c])) - Volume(boxes[c]));
              !(over < ZERO_TOLERANCE && Volume(boxes[k]) < Volume(boxes[c])))
  {
    hide Volume, Combine, PickUpTo, NoneTakesOver;
    var cs, n, p := Costs(r, boxes), |boxes|, PickBranch(r, boxes);
    forall i | 0 <= i < n
      ensures !Cheaper(cs[i], cs[c]) && (i > c ==> Cheaper(cs[c], cs[i])) && cs[c].increase <= cs[i].increase
    {
      assert cs[i] == CostOf(r, boxes[i]) && cs[c] == CostOf(r, boxes[c]);
    }
    PickAfterCheapest(cs, c, n);
    TakesOverByVolume(r, boxes, c, c);
    assert cs[p] == CostOf(r, boxes[p]) && cs[c] == CostOf(r, boxes[c]);
  }

  // ---------------------------------------------------------------- splitting

  /** The items among the first `n` that were given colour `g`, in order. */
  function Select<T>(items: seq<T>, part: seq<int>, g: int, n: nat): (r: seq<T>)
    requires n <= |items| == |part|
    ensures |r| == multiset(part[..n])[g]
    ensures forall x | x in r :: x in items
    decreases n
  {
    if n == 0 then []
    else
      assert part[..n] == part[..n - 1] + [part[n - 1]];
      if part[n - 1] == g then Select(items, part, g, n - 1) + [items[n - 1]]
      else Select(items, part, g, n - 1)
  }

  ghost predicate Splittable(items: seq<Item>) {
    |items| == MAX + 1 && AllProper(RectsOf(items))
  }

  /** Both groups of the partition of a full node plus one hold between MIN and MAX + 1 - MIN. */
  lemma PartitionCounts(rs: seq<Rect>)
    requires AllProper(rs) && |rs| == MAX + 1
    ensures TwoColoured(Partition(rs))
    ensures MIN <= multiset(Partition(rs))[0] <= MAX + 1 - MIN
    ensures MIN <= multiset(Partition(rs))[1] <= MAX + 1 - MIN
  {
    var c := Pair(rs[0], rs[0]);
    PartitionIsBalanced(rs, c, MIN);
    assert Sound(rs, ChoosePartition(rs, c, MIN));
  }

  lemma HalfSize(items: seq<Item>, g: Group)
    requires Splittable(items)
    ensures MIN <= |Select(items, Partition(RectsOf(items)), g, |items|)| <= MAX + 1 - MIN
  {
    hide Partition;
    PartitionCounts(RectsOf(items));
    SelectSize(items, Partition(RectsOf(items)), g);
  }

  lemma SelectSize<T>(items: seq<T>, part: seq<int>, g: int)
    requires |items| == |part|
    ensures |Select(items, part, g, |items|)| == multiset(part)[g]
  {
    assert part[..|part|] == part;
  }

  function Half(items: seq<Item>, g: Group): (r: seq<Item>)
    requires Splittable(items)
    ensures MIN <= |r| <= MAX + 1 - MIN
    ensures forall x | x in r :: x in items
  {
    HalfSize(items, g);
    Select(items, Partition(RectsOf(items)), g, |items|)
  }

  ghost predicate SelectionKeeps(items: seq<Item>, part: seq<int>, n: nat)
    requires n <= |items| == |part|
  {
    multiset(EntriesOf(items[..n]))
      == multiset(EntriesOf(Select(items, part, 0, n))) + multiset(EntriesOf(Select(items, part, 1, n)))
  }

  lemma {:induction false} SelectKeepsEntries(items: seq<Item>, part: seq<int>, n: nat)
    requires n <= |items| == |part| && TwoColoured(part)
    ensures SelectionKeeps(items, part, n)
    decreases n
  {
    if n > 0 {
      SelectKeepsEntries(items, part, n - 1);
      SelectStep(items, part, n);
    }
  }

  lemma SelectStep(items: seq<Item>, part: seq<int>, n: nat)
    requires 0 < n <= |items| == |part| && TwoColoured(part) && SelectionKeeps(items, part, n - 1)
    ensures SelectionKeeps(items, part, n)
  {
    hide ItemEntries, EntriesOf;
    var x, g := items[n - 1], part[n - 1];
    assert items[..n] == items[..n - 1] + [x];
    EntriesOfPush(items[..n - 1], x);
    EntriesOfPush(Select(items, part, g, n - 1), x);
    assert Select(items, part, g, n) == Select(items, part, g, n - 1) + [x];
    assert Select(items, part, 1 - g, n) == Select(items, part, 1 - g, n - 1);
  }

  lemma HalvesKeepEntries(items: seq<Item>)
    requires Splittable(items)
    ensures multiset(EntriesOf(items)) == multiset(EntriesOf(Half(items, 0))) + multiset(EntriesOf(Half(items, 1)))
  {
    hide Partition;
    var rs := RectsOf(items);
    PartitionCounts(rs);
    SelectKeepsEntries(items, Partition(rs), |items|);
    assert items[..|items|] == items;
  }

  // ---------------------------------------------------------------- AddBranch

  /** A node after an insertion: still whole, or split in two. */
  datatype Grown =
    | Whole(t: Tree)
    | Halves(t: Tree, other: Tree)
  {
    ghost function Bag(): multiset<Entry> {
      Trees.Bag(t) + if Halves? then Trees.Bag(other) else multiset{}
    }

    ghost predicate Ok(level: nat) {
      && t.level == level && Body(t)
      && (Halves? ==> MIN <= |t.items| && other.level == level && Body(other) && MIN <= |other.items|)
    }
  }

  lemma AllOkSplittable(items: seq<Item>, level: nat)
    requires AllOk(items, level) && |items| == MAX + 1
    ensures Splittable(items)
  {
    forall i | 0 <= i < |items|
      ensures Proper(RectsOf(items)[i])
    {
      assert ItemOk(items[i], level);
    }
  }

  /** One more item, whole or in halves, adds that item's entries. */
  lemma AddItemBag(t: Tree, it: Item)
    requires Body(t) && ItemOk(it, t.level)
    ensures multiset(EntriesOf(t.items + [it])) == Bag(t) + multiset(ItemEntries(it))
    ensures |t.items| == MAX ==>
      Splittable(t.items + [it]) &&
      multiset(EntriesOf(Half(t.items + [it], 0))) + multiset(EntriesOf(Half(t.items + [it], 1)))
        == Bag(t) + multiset(ItemEntries(it))
  {
    var all := t.items + [it];
    EntriesOfPush(t.items, it);
    if |t.items| == MAX {
      AllOkSplittable(all, t.level);
      HalvesKeepEntries(all);
    }
  }

  lemma BodyOfSome(items: seq<Item>, level: nat, some: seq<Item>)
    requires AllOk(items, level) && |some| <= MAX
    requires forall x | x in some :: x in items
    ensures Body(Tree(level, some))
  {
    forall i | 0 <= i < |some|
      ensures ItemOk(some[i], level)
    {
      assert some[i] in items;
    }
  }

  function AddItem(t: Tree, it: Item): (g: Grown)
    requires Body(t) && ItemOk(it, t.level)
    ensures g.Ok(t.level)
    ensures g.Whole? ==> |g.t.items| == |t.items| + 1
    ensures g.Whole? <==> |t.items| < MAX
    ensures g.Bag() == Bag(t) + multiset(ItemEntries(it))
  {
    AddItemBag(t, it);
    var all := t.items + [it];
    assert AllOk(all, t.level);
    if |t.items| < MAX then
      BodyOfSome(all, t.level, all);
      Whole(Tree(t.level, all))
    else
      var a, b := Half(all, 0), Half(all, 1);
      BodyOfSome(all, t.level, a);
      BodyOfSome(all, t.level, b);
      Halves(Tree(t.level, a), Tree(t.level, b))
  }

  /** With room left, the new item goes behind the others, which stay where they are. */
  lemma ItemGoesLast(t: Tree, it: Item)
    requires Body(t) && ItemOk(it, t.level) && |t.items| < MAX
    ensures AddItem(t, it).Whole? && AddItem(t, it).t.level == t.level
    ensures |AddItem(t, it).t.items| == |t.items| + 1
    ensures forall k: nat | k < |t.items| :: AddItem(t, it).t.items[k] == t.items[k]
    ensures AddItem(t, it).t.items[|t.items|] == it
  {
  }

  // ---------------------------------------------------------------- InsertRectRec

  /** The node after the child in slot `k` became `c`, whose box is now `r`. */
  function WithChild(t: Tree, k: nat, r: Rect, c: Tree): Tree
    requires k < |t.items|
  {
    Tree(t.level, t.items[k := Sub(r, c)])
  }

  lemma ChildOk(t: Tree, k: nat)
    requires Body(t) && k < |t.items| && t.level > 0
    ensures t.items[k].Sub? && t.items[k].child.level == t.level - 1
    ensures Loose(t.items[k].child) && MIN <= |t.items[k].child.items|
    ensures t.items[k].rect == CoverOf(t.items[k].child)
  {
    assert ItemOk(t.items[k], t.level);
  }

  lemma WithChildOk(t: Tree, k: nat, c: Tree)
    requires Body(t) && k < |t.items| && t.level > 0 && c.level == t.level - 1
    requires Body(c) && MIN <= |c.items|
    ensures t.items[k].Sub? && |WithChild(t, k, CoverOf(c), c).items| == |t.items|
    ensures Body(WithChild(t, k, CoverOf(c), c))
    ensures Bag(WithChild(t, k, CoverOf(c), c)) + Bag(t.items[k].child) == Bag(t) + Bag(c)
  {
    assert ItemOk(t.items[k], t.level);
    var x := Sub(CoverOf(c), c);
    assert ItemOk(x, t.level) by {
      SubOk(c);
    }
    BagOfUpdate(t.items, k, x);
    var items := t.items[k := x];
    forall i | 0 <= i < |items|
      ensures ItemOk(items[i], t.level)
    {
      assert i != k ==> ItemOk(t.items[i], t.level);
    }
  }

  /**
    Boxes follow entries: a node whose entries are those of `t` and of `it` is covered by
    the two boxes merged.
   */
  lemma CoverFollowsEntries(t: Tree, it: Item, level: nat, t': Tree)
    requires Body(t) && t.items != [] && Body(t') && t'.items != [] && ItemOk(it, level)
    requires Bag(t') == Bag(t) + multiset(ItemEntries(it))
    ensures CoverOf(t') == Combine(it.rect, CoverOf(t))
  {
    ItemsCover(t.items, t.level);
    ItemsCover(t'.items, t'.level);
    ItemCovers(it, level);
    CombineIsJoin(it.rect, CoverOf(t));
    var c := Combine(it.rect, CoverOf(t));
    forall e | e in Entries(t')
      ensures Contains(c, e.rect)
    {
      assert e in Bag(t');
      if e in ItemEntries(it) {
        ContainsTransitive(c, it.rect, e.rect);
      } else {
        assert e in Entries(t);
        ContainsTransitive(c, CoverOf(t), e.rect);
      }
    }
    assert CoversEntries(c, Entries(t'));
    forall e | e in Entries(t) || e in ItemEntries(it)
      ensures Contains(CoverOf(t'), e.rect)
    {
      assert e in Bag(t');
      assert e in Entries(t');
    }
    assert CoversEntries(CoverOf(t'), Entries(t)) && CoversEntries(CoverOf(t'), ItemEntries(it));
    ContainsAntisymmetric(CoverOf(t'), c);
  }

  lemma GrownCover(c: Tree, it: Item, level: nat, g: Grown)
    requires Body(c) && c.items != [] && g.Ok(c.level) && ItemOk(it, level)
    requires g.Whole? ==> g.t.items != []
    requires g.Bag() == Bag(c) + multiset(ItemEntries(it))
    ensures g.Whole? ==> CoverOf(g.t) == Combine(it.rect, CoverOf(c))
  {
    if g.Whole? {
      CoverFollowsEntries(c, it, level, g.t);
    }
  }

  /** With `c` exchanged for `g`, and `g + more` worth `c + extra`, the extra was added. */
  lemma Exchange<T>(w: multiset<T>, more: multiset<T>, c: multiset<T>, m: multiset<T>, g: multiset<T>,
                    extra: multiset<T>)
    requires w + c == m + g && g + more == c + extra
    ensures w + more == m + extra
  {
    forall x
      ensures (w + more)[x] == (m + extra)[x]
    {
      assert (w + c)[x] == (m + g)[x] && (g + more)[x] == (c + extra)[x];
    }
  }

  lemma AbsorbBag(t: Tree, k: nat, g: Grown, extra: multiset<Entry>)
    requires Body(t) && k < |t.items| && t.level > 0 && g.Ok(t.level - 1) && MIN <= |g.t.items|
    requires t.items[k].Sub? && g.Bag() == Bag(t.items[k].child) + extra
    ensures Bag(WithChild(t, k, CoverOf(g.t), g.t)) + (if g.Halves? then Bag(g.other) else multiset{})
         == Bag(t) + extra
  {
    WithChildOk(t, k, g.t);
    Exchange(Bag(WithChild(t, k, CoverOf(g.t), g.t)), if g.Halves? then Bag(g.other) else multiset{},
             Bag(t.items[k].child), Bag(t), Bag(g.t), extra);
  }

  /** The node at the end of a descent into child `k`, once that child turned into `g`. */
  function Absorb(t: Tree, it: Item, k: nat, g: Grown, ghost extra: multiset<Entry>): (r: Grown)
    requires Body(t) && k < |t.items| && t.level > 0 && g.Ok(t.level - 1)
    requires g.Whole? ==> MIN <= |g.t.items| && Combine(it.rect, t.items[k].rect) == CoverOf(g.t)
    requires t.items[k].Sub? && g.Bag() == Bag(t.items[k].child) + extra
    ensures r.Ok(t.level)
    ensures r.Whole? ==> |t.items| <= |r.t.items|
    ensures r.Bag() == Bag(t) + extra
  {
    WithChildOk(t, k, g.t);
    AbsorbBag(t, k, g, extra);
    if g.Whole? then
      Whole(WithChild(t, k, Combine(it.rect, t.items[k].rect), g.t))
    else
      var x := Sub(CoverOf(g.other), g.other);
      assert ItemOk(x, t.level) by {
        SubOk(g.other);
      }
      assert ItemEntries(x) == Entries(g.other);
      AddItem(WithChild(t, k, CoverOf(g.t), g.t), x)
  }

  /**
    Insertion at a level: exactly the entries of the item are added, and what comes back
    satisfies everything asked of a node.
   */
  function InsertRec(t: Tree, it: Item, level: nat): (g: Grown)
    requires Loose(t) && level <= t.level && ItemOk(it, level)
    ensures g.Ok(t.level)
    ensures g.Whole? ==> |t.items| <= |g.t.items|
    ensures g.Bag() == Bag(t) + multiset(ItemEntries(it))
    decreases t
  {
    if t.level == level then AddItem(t, it)
    else
      var k := PickBranch(it.rect, RectsOf(t.items));
      ChildOk(t, k);
      var c := t.items[k].child;
      var g := InsertRec(c, it, level);
      GrownCover(c, it, level, g);
      Absorb(t, it, k, g, multiset(ItemEntries(it)))
  }

  lemma InsertRecHere(t: Tree, it: Item)
    requires Loose(t) && ItemOk(it, t.level)
    ensures InsertRec(t, it, t.level) == AddItem(t, it)
  {
  }

  /** One level of the descent, in the terms the nodes in memory are updated by. */
  lemma InsertRecStep(t: Tree, it: Item, level: nat)
    requires Loose(t) && level < t.level && ItemOk(it, level)
    ensures t.items != []
    ensures var k := PickBranch(it.rect, RectsOf(t.items)); var c := t.items[k];
      c.Sub? && Loose(c.child) && c.child.level == t.level - 1 &&
      var g := InsertRec(c.child, it, level);
      g.t.items != [] &&
      if g.Whole? then InsertRec(t, it, level) == Whole(WithChild(t, k, Combine(it.rect, c.rect), g.t))
      else
        var w := WithChild(t, k, CoverOf(g.t), g.t);
        && Body(w) && g.other.items != [] && ItemOk(Sub(CoverOf(g.other), g.other), t.level)
        && InsertRec(t, it, level) == AddItem(w, Sub(CoverOf(g.other), g.other))
  {
    hide Body, ItemOk, CoverOf, AddItem, Combine, PickBranch, EntriesOf, ItemEntries;
    var k := PickBranch(it.rect, RectsOf(t.items));
    ChildOk(t, k);
    var c := t.items[k].child;
    var g := InsertRec(c, it, level);
    GrownCover(c, it, level, g);
    WithChildOk(t, k, g.t);
    if g.Halves? {
      SubOk(g.other);
    }
  }

  // ---------------------------------------------------------------- InsertRect

  function NewRoot(a: Tree, b: Tree): Tree
    requires a.items != [] && b.items != []
  {
    Tree(a.level + 1, [Sub(CoverOf(a), a), Sub(CoverOf(b), b)])
  }

  lemma NewRootOk(a: Tree, b: Tree)
    requires Body(a) && Body(b) && a.level == b.level && MIN <= |a.items| && MIN <= |b.items|
    ensures WellFormed(NewRoot(a, b))
    ensures Bag(NewRoot(a, b)) == Bag(a) + Bag(b)
  {
    SubOk(a);
    SubOk(b);
    var x, y := Sub(CoverOf(a), a), Sub(CoverOf(b), b);
    assert [x, y] == [x] + [y];
    EntriesOfConcat([x], [y]);
    EntriesOfOne(x);
    EntriesOfOne(y);
  }

  lemma InsertRectStep(root: Tree, it: Item, level: nat)
    requires Loose(root) && level <= root.level && ItemOk(it, level)
    ensures var g := InsertRec(root, it, level);
      if g.Whole? then InsertRect(root, it, level) == g.t
      else
        && g.t.level == g.other.level == root.level && g.t.items != [] && g.other.items != []
        && ItemOk(Sub(CoverOf(g.t), g.t), root.level + 1)
        && ItemOk(Sub(CoverOf(g.other), g.other), root.level + 1)
        && InsertRect(root, it, level)
           == Tree(root.level + 1, [Sub(CoverOf(g.t), g.t)] + [Sub(CoverOf(g.other), g.other)])
  {
    hide InsertRec, CoverOf, ItemOk;
    var g := InsertRec(root, it, level);
    if g.Halves? {
      SubOk(g.t);
      SubOk(g.other);
    }
  }

  /** Insertion with root growth. */
  function InsertRect(root: Tree, it: Item, level: nat): (r: Tree)
    requires Loose(root) && level <= root.level && ItemOk(it, level)
    ensures Loose(r) && (WellFormed(root) ==> WellFormed(r))
    ensures root.level <= r.level <= root.level + 1
    ensures Bag(r) == Bag(root) + multiset(ItemEntries(it))
  {
    var g := InsertRec(root, it, level);
    if g.Whole? then g.t
    else
      NewRootOk(g.t, g.other);
      NewRoot(g.t, g.other)
  }

  function Insert(root: Tree, e: Entry): (r: Tree)
    requires WellFormed(root) && Proper(e.rect)
    ensures WellFormed(r)
    ensures Bag(r) == Bag(root) + multiset{e}
  {
    InsertRect(root, Data(e.rect, e.id), 0)
  }
}
