/**
  Adding a branch to a node, splitting the node when it is full: the partition variables
  the source fills in place, and the two nodes loaded from them.
 */
module Splitting {
  import opened Params
  import opened Rects
  import opened Trees
  import opened Nodes
  import P = Partitions
  import I = Inserts

  class PartitionVars {
    const m_partition: array<int>
    const m_count: array<int>
    const m_cover: array<Rect>
    const m_area: array<real>
    const m_branchBuf: array<Branch>
    var m_total: int
    var m_minFill: int
    var m_branchCount: int
    var m_coverSplit: Rect
    var m_coverSplitArea: real

    constructor ()
      ensures Shaped()
      ensures fresh(m_partition) && fresh(m_count) && fresh(m_cover) && fresh(m_area) && fresh(m_branchBuf)
    {
      m_partition := new int[MAX + 1];
      m_count := new int[2];
      m_cover := new Rect[2];
      m_area := new real[2];
      m_branchBuf := new Branch[MAX + 1];
      m_total, m_minFill, m_branchCount := 0, 0, 0;
      m_coverSplitArea := 0.0;
    }

    predicate Shaped() {
      && m_partition.Length == MAX + 1 && m_branchBuf.Length == MAX + 1
      && m_count.Length == 2 && m_cover.Length == 2 && m_area.Length == 2
      && m_partition != m_count
    }

    /** The boxes in the branch buffer. */
    ghost function Boxes(): (rs: seq<Rect>)
      reads m_branchBuf
      ensures |rs| == m_branchBuf.Length
      ensures forall i | 0 <= i < |rs| :: rs[i] == m_branchBuf[i].m_rect
    {
      seq(m_branchBuf.Length, i requires 0 <= i < m_branchBuf.Length reads m_branchBuf => m_branchBuf[i].m_rect)
    }

    ghost function Cover(): P.Pair<Rect>
      requires Shaped()
      reads m_cover
    {
      P.Pair(m_cover[0], m_cover[1])
    }

    /** The arrays show the state `st`; areas belong to the covers once there are any. */
    ghost predicate Shows(st: P.Parts)
      requires Shaped()
      reads this, m_partition, m_count, m_cover, m_area
    {
      && m_total == MAX + 1
      && st.part == m_partition[..]
      && st.count.first == m_count[0] && st.count.second == m_count[1]
      && st.cover == Cover()
      && (m_count[0] > 0 ==> m_area[0] == Volume(m_cover[0]))
      && (m_count[1] > 0 ==> m_area[1] == Volume(m_cover[1]))
    }
  }

  method InitParVars(v: PartitionVars, a_maxRects: int, a_minFill: int)
    requires v.Shaped() && a_maxRects == MAX + 1
    modifies v`m_total, v`m_minFill, v.m_partition, v.m_count, v.m_area
    ensures v.m_minFill == a_minFill
    ensures v.Shows(P.Initial(v.Boxes(), v.Cover()))
  {
    v.m_count[0], v.m_count[1] := 0, 0;
    v.m_area[0], v.m_area[1] := 0.0, 0.0;
    v.m_total := a_maxRects;
    v.m_minFill := a_minFill;
    for index := 0 to a_maxRects
      invariant v.m_total == a_maxRects && v.m_minFill == a_minFill
      invariant v.m_count[0] == 0 && v.m_count[1] == 0
      invariant forall i | 0 <= i < index :: v.m_partition[i] == P.NOT_TAKEN
    {
      v.m_partition[index] := P.NOT_TAKEN;
    }
    assert v.m_partition[..] == P.Initial(v.Boxes(), v.Cover()).part;
  }

  method Classify(v: PartitionVars, a_index: int, a_group: P.Group, ghost st: P.Parts)
    requires v.Shaped() && v.Shows(st)
    requires 0 <= a_index <= MAX && v.m_partition[a_index] == P.NOT_TAKEN
    modifies v.m_partition, v.m_count, v.m_cover, v.m_area
    ensures v.Shows(P.Classify(v.Boxes(), st, a_index, a_group))
  {
    hide Volume, Combine;
    v.m_partition[a_index] := a_group;
    if v.m_count[a_group] == 0 {
      v.m_cover[a_group] := v.m_branchBuf[a_index].m_rect;
    } else {
      var c := CombineRect(v.m_branchBuf[a_index].m_rect, v.m_cover[a_group]);
      v.m_cover[a_group] := c;
    }
    var area := CalcRectVolume(v.m_cover[a_group]);
    v.m_area[a_group] := area;
    v.m_count[a_group] := v.m_count[a_group] + 1;
  }

  /** The search of PickSeeds for the two boxes that waste most. */
  method WorstPair(v: PartitionVars) returns (seed0: int, seed1: int)
    requires v.Shaped() && v.m_total == MAX + 1
    requires v.m_coverSplitArea == Volume(Rects.Cover(v.Boxes()))
    ensures seed0 == P.PickSeeds(v.Boxes()).seed0 && seed1 == P.PickSeeds(v.Boxes()).seed1
  {
    hide Volume, Combine, Rects.Cover;
    ghost var rs := v.Boxes();
    seed0, seed1 := 0, 0;
    var area := new real[MAX + 1];
    for index := 0 to v.m_total
      invariant forall i | 0 <= i < index :: area[i] == Volume(rs[i])
      modifies area
    {
      var a := CalcRectVolume(v.m_branchBuf[index].m_rect);
      area[index] := a;
    }
    var worst := -v.m_coverSplitArea - 1.0;
    for indexA := 0 to v.m_total - 1
      invariant P.Seeds(seed0, seed1, worst) == P.SeedRows(rs, indexA)
      modifies {}
    {
      for indexB := indexA + 1 to v.m_total
        invariant P.Seeds(seed0, seed1, worst) == P.SeedRow(rs, indexA, indexB, P.SeedRows(rs, indexA))
        modifies {}
      {
        var oneRect := CombineRect(v.m_branchBuf[indexA].m_rect, v.m_branchBuf[indexB].m_rect);
        var oneArea := CalcRectVolume(oneRect);
        var waste := oneArea - area[indexA] - area[indexB];
        assert waste == P.Waste(rs, indexA, indexB);
        if waste > worst {
          worst, seed0, seed1 := waste, indexA, indexB;
        }
      }
    }
  }

  method PickSeeds(v: PartitionVars, ghost st: P.Parts)
    requires v.Shaped() && v.Shows(st) && st == P.Initial(v.Boxes(), st.cover)
    requires P.AllProper(v.Boxes())
    requires v.m_coverSplitArea == Volume(Rects.Cover(v.Boxes()))
    modifies v.m_partition, v.m_count, v.m_cover, v.m_area
    ensures v.Shows(P.Seeded(v.Boxes(), st.cover))
  {
    hide Volume, Combine, Rects.Cover, P.PickSeeds;
    ghost var rs := v.Boxes();
    var seed0, seed1 := WorstPair(v);
    P.SeedsAreWorstPair(rs);
    Classify(v, seed0, 0, st);
    Classify(v, seed1, 1, P.Classify(rs, st, seed0, 0));
  }

  /** The inner loop of ChoosePartition: the untaken branch most attracted to one group. */
  method Strongest(v: PartitionVars, ghost st: P.Parts) returns (chosen: int, betterGroup: P.Group)
    requires v.Shaped() && v.Shows(st)
    requires P.Sound(v.Boxes(), st) && st.count.first > 0 && st.count.second > 0
    requires st.count.first + st.count.second < MAX + 1
    ensures var c := P.Choose(v.Boxes(), st, MAX + 1);
      c.Choice? && chosen == c.index && betterGroup == c.group
  {
    hide Volume, Combine, P.Preference, P.Preferred, P.Sound, PartitionVars.Boxes;
    ghost var rs := v.Boxes();
    var biggestDiff := -1.0;
    chosen, betterGroup := 0, 0;
    for index := 0 to v.m_total
      invariant match P.Choose(rs, st, index)
        case NoChoice => biggestDiff == -1.0
        case Choice(i, g, d) => chosen == i && betterGroup == g && biggestDiff == d && 0.0 <= d
    {
      if v.m_partition[index] == P.NOT_TAKEN {
        var diff, group := Attraction(v, index, st);
        if diff > biggestDiff {
          biggestDiff, chosen, betterGroup := diff, index, group;
        } else if NearEqual(diff, biggestDiff) && v.m_count[group] < v.m_count[betterGroup] {
          chosen, betterGroup := index, group;
        }
      }
    }
    P.SomeUntaken(rs, st);
  }

  /** The preference of one branch, from the growth it would cause in either group. */
  method Attraction(v: PartitionVars, index: int, ghost st: P.Parts) returns (diff: real, group: P.Group)
    requires v.Shaped() && v.Shows(st) && st.count.first > 0 && st.count.second > 0
    requires 0 <= index <= MAX
    ensures diff == P.Preference(v.Boxes(), st, index) && group == P.Preferred(v.Boxes(), st, index)
    ensures 0.0 <= diff
  {
    hide Volume, Combine;
    var curRect := v.m_branchBuf[index].m_rect;
    var rect0 := CombineRect(curRect, v.m_cover[0]);
    var rect1 := CombineRect(curRect, v.m_cover[1]);
    var volume0 := CalcRectVolume(rect0);
    var volume1 := CalcRectVolume(rect1);
    var growth0 := volume0 - v.m_area[0];
    var growth1 := volume1 - v.m_area[1];
    diff := growth1 - growth0;
    if diff >= 0.0 {
      group := 0;
    } else {
      group := 1;
      diff := -diff;
    }
  }

  /** The main loop of ChoosePartition. */
  method ClassifyRounds(v: PartitionVars, ghost seeded: P.Parts) returns (ghost st: P.Parts)
    requires v.Shaped() && v.Shows(seeded) && P.Sound(v.Boxes(), seeded)
    requires seeded.count.first > 0 && seeded.count.second > 0
    modifies v.m_partition, v.m_count, v.m_cover, v.m_area
    ensures st == P.Rounds(v.Boxes(), seeded, v.m_minFill) && v.Shows(st)
  {
    hide Volume, Combine, P.Sound, P.Classify, P.Round, P.Choose, P.ChooseStep;
    ghost var rs := v.Boxes();
    st := seeded;
    while v.m_count[0] + v.m_count[1] < v.m_total
       && v.m_count[0] < v.m_total - v.m_minFill
       && v.m_count[1] < v.m_total - v.m_minFill
      invariant v.Shows(st) && P.Sound(rs, st) && st.count.first > 0 && st.count.second > 0
      invariant P.Rounds(rs, st, v.m_minFill) == P.Rounds(rs, seeded, v.m_minFill)
      decreases P.Untaken(st)
      modifies v.m_partition, v.m_count, v.m_cover, v.m_area
    {
      var chosen, betterGroup := Strongest(v, st);
      Classify(v, chosen, betterGroup, st);
      st := NextRound(rs, st, chosen, betterGroup);
    }
  }

  method ChoosePartition(v: PartitionVars, a_minFill: int)
    requires v.Shaped() && v.m_branchCount == MAX + 1 && P.AllProper(v.Boxes())
    requires v.m_coverSplitArea == Volume(Rects.Cover(v.Boxes()))
    requires 1 <= a_minFill && 2 * a_minFill <= MAX + 1
    modifies v`m_total, v`m_minFill, v.m_partition, v.m_count, v.m_cover, v.m_area
    ensures v.m_total == MAX + 1
    ensures v.Shows(P.ChoosePartition(v.Boxes(), old(v.Cover()), a_minFill))
  {
    hide Volume, Combine, Proper, Rects.Cover, P.Seeded, P.Initial, P.Sound, P.Rounds, P.RoundsGoOn, P.FillRest;
    ghost var rs := v.Boxes();
    ghost var seeded := P.Seeded(rs, v.Cover());
    InitParVars(v, v.m_branchCount, a_minFill);
    PickSeeds(v, P.Initial(rs, v.Cover()));
    ghost var st := ClassifyRounds(v, seeded);
    if v.m_count[0] + v.m_count[1] < v.m_total {
      ClassifyRest(v, st);
    }
    P.PartitionIsBalanced(rs, old(v.Cover()), a_minFill);
    assert v.m_count[0] + v.m_count[1] == v.m_total;
    assert v.m_count[0] >= v.m_minFill && v.m_count[1] >= v.m_minFill;
  }

  /** The end of ChoosePartition: what is left goes to the group with room. */
  method ClassifyRest(v: PartitionVars, ghost st: P.Parts)
    requires v.Shaped() && v.Shows(st) && P.Sound(v.Boxes(), st)
    modifies v.m_partition, v.m_count, v.m_cover, v.m_area
    ensures v.Shows(P.FillRest(v.Boxes(), st, P.RestGroup(st, v.m_minFill), MAX + 1))
  {
    hide Volume, Combine, P.Sound, P.Classify;
    var group: P.Group := if v.m_count[0] >= v.m_total - v.m_minFill then 1 else 0;
    for index := 0 to v.m_total
      invariant v.Shows(P.FillRest(v.Boxes(), st, group, index))
      modifies v.m_partition, v.m_count, v.m_cover, v.m_area
    {
      if v.m_partition[index] == P.NOT_TAKEN {
        Classify(v, index, group, P.FillRest(v.Boxes(), st, group, index));
      }
    }
  }

  ghost function NextRound(rs: seq<Rect>, st: P.Parts, chosen: nat, group: P.Group): (r: P.Parts)
    requires P.Sound(rs, st) && st.count.first + st.count.second < |rs|
    requires P.Choose(rs, st, |rs|).Choice?
    requires chosen == P.Choose(rs, st, |rs|).index && group == P.Choose(rs, st, |rs|).group
    ensures r == P.Round(rs, st) && r == P.Classify(rs, st, chosen, group)
  {
    P.Round(rs, st)
  }

  // ---------------------------------------------------------------- adding a branch

  /** Everything that must hold before branch `b` goes into node `n`. */
  ghost predicate Addable(b: Branch, n: Node)
    reads n, n.Repr, b.m_child, Owned(b)
  {
    && n.Valid() && BranchOk(b, n.m_level) && Owned(b) !! n.Repr
    && Body(n.tree) && ItemOk(ItemOf(b), n.m_level)
  }

  /** Storing a branch behind the last one. */
  method Append(b: Branch, n: Node)
    requires Addable(b, n) && n.m_count < MAX
    modifies n, n.m_branch
    ensures n.Valid() && n.m_level == old(n.m_level)
    ensures n.tree == Tree(old(n.tree).level, old(n.tree).items + [old(ItemOf(b))])
    ensures n.Repr == old(n.Repr + Owned(b))
    ensures n.m_count == old(n.m_count) + 1
  {
    hide ForestOk, BranchOk, ItemOf, Footprint, Kids, Owned, Mirrors, Body, ItemOk;
    ghost var bs := n.m_branch[..n.m_count];
    ghost var items := n.tree.items + [ItemOf(b)];
    ForestPush(n.tree.items, bs, b, n.m_level);
    n.m_branch[n.m_count] := b;
    n.m_count := n.m_count + 1;
    n.tree := Tree(n.tree.level, items);
    n.Repr := n.Repr + Owned(b);
    assert n.m_branch[..n.m_count] == bs + [b];
  }

  /** AddBranch; `splittable` tells whether the caller has a place for a second node. */
  method AddBranch(mem: Memory, b: Branch, n: Node, splittable: bool) returns (split: bool, newNode: Node?)
    requires Addable(b, n) && (splittable || n.m_count < MAX)
    requires mem.Holds(n.Repr + Owned(b))
    modifies mem, n, n.m_branch
    ensures n.Valid() && n.m_level == old(n.m_level)
    ensures Became(I.AddItem(old(n.tree), old(ItemOf(b))), n, split, newNode)
    ensures Together(n, newNode) == old(n.Repr + Owned(b)) + Shell(newNode)
    ensures mem.live == old(mem.live) + Shell(newNode) && fresh(Shell(newNode))
    decreases splittable, 0, 0
  {
    hide ForestOk, BranchOk, Footprint, Kids, Body, ItemOk, ItemOf, Owned, I.Half;
    if n.m_count < MAX {
      Append(b, n);
      split, newNode := false, null;
    } else {
      newNode := SplitNode(mem, b, n);
      split := true;
    }
  }

  /** Node `n` and perhaps `newNode` are what a value insertion made of a node. */
  ghost predicate Became(g: I.Grown, n: Node, split: bool, newNode: Node?)
    reads n, newNode, if newNode == null then {} else newNode.Repr
  {
    && n.tree == g.t
    && split == g.Halves? && (newNode != null) == split
    && (split ==>
          newNode.Valid() && newNode.m_level == n.m_level && newNode.tree == g.other && newNode.Repr !! n.Repr)
  }

  method SplitNode(mem: Memory, b: Branch, n: Node) returns (newNode: Node)
    requires Addable(b, n) && n.m_count == MAX
    requires mem.Holds(n.Repr + Owned(b))
    modifies mem, n, n.m_branch
    ensures n.Valid() && n.m_level == old(n.m_level)
    ensures Became(I.AddItem(old(n.tree), old(ItemOf(b))), n, true, newNode)
    ensures Together(n, newNode) == old(n.Repr + Owned(b)) + Shell(newNode)
    ensures mem.live == old(mem.live) + Shell(newNode) && fresh(Shell(newNode))
    decreases false, 2, 0
  {
    hide ForestOk, BranchOk, ItemOf, Footprint, Kids, Owned, Mirrors, Body, ItemOk, I.Select, Loaded, P.Partition,
      I.AddItem, I.Splittable, AllOk;
    ghost var bs := n.m_branch[..n.m_count];
    ghost var items := n.tree.items + [ItemOf(b)];
    ForestPush(n.tree.items, bs, b, n.m_level);
    MirrorsLength(n.tree.items, bs);
    FullPlusOne(n.tree, ItemOf(b));
    var v := PartitionOf(n, b, items);
    newNode := Distribute(mem, n, v, items);
  }

  /** The second half of SplitNode: a new node, and the branches dealt out to both. */
  method Distribute(mem: Memory, n: Node, v: PartitionVars, ghost items: seq<Item>) returns (newNode: Node)
    requires v.Shaped() && v.m_total == MAX + 1 && v.m_branchBuf !in Shell(n)
    requires |items| == MAX + 1 && n.m_level >= 0 && n.m_branch.Length == MAX
    requires Shell(n) !! Footprint(v.m_branchBuf[..]) && Kids(v.m_branchBuf[..]) <= Footprint(v.m_branchBuf[..])
    requires ForestOk(v.m_branchBuf[..], n.m_level) && Mirrors(items, v.m_branchBuf[..]) && AllOk(items, n.m_level)
    requires P.TwoColoured(v.m_partition[..])
    requires |I.Select(items, v.m_partition[..], 0, |items|)| <= MAX
    requires |I.Select(items, v.m_partition[..], 1, |items|)| <= MAX
    requires mem.Holds(Shell(n) + Footprint(v.m_branchBuf[..]))
    modifies mem, n, n.m_branch
    ensures n.Valid() && newNode.Valid() && n.Repr !! newNode.Repr && n.m_level == old(n.m_level) == newNode.m_level
    ensures n.tree == Tree(n.m_level, I.Select(items, v.m_partition[..], 0, |items|))
    ensures newNode.tree == Tree(n.m_level, I.Select(items, v.m_partition[..], 1, |items|))
    ensures n.Repr + newNode.Repr == Shell(n) + Shell(newNode) + old(Footprint(v.m_branchBuf[..]))
    ensures mem.live == old(mem.live) + Shell(newNode) && fresh(Shell(newNode))
    decreases false, 1, 1
  {
    hide ForestOk, BranchOk, ItemOf, Footprint, Kids, Owned, Mirrors, Body, ItemOk, I.Select, Loaded, Node.Valid;
    ghost var level := n.m_level;
    newNode := mem.AllocNode();
    newNode.m_level := n.m_level;
    n.m_count := 0;
    LoadNodes(mem, n, newNode, v, items);
    LoadedAll(n, newNode, level, v.m_branchBuf[..], items, v.m_partition[..]);
  }

  /** The first half of SplitNode: the variables filled and the partition found. */
  method PartitionOf(n: Node, b: Branch, ghost items: seq<Item>) returns (v: PartitionVars)
    requires n.m_branch.Length == MAX == n.m_count
    requires Mirrors(items, n.m_branch[..MAX] + [b]) && I.Splittable(items)
    ensures fresh(v) && fresh(v.m_branchBuf) && v.Shaped() && v.m_total == MAX + 1
    ensures v.m_branchBuf[..] == n.m_branch[..MAX] + [b]
    ensures v.m_partition[..] == P.Partition(RectsOf(items))
  {
    hide Mirrors, P.Partition, P.ChoosePartition, Proper, Volume, Rects.Cover;
    RectsMirror(items, n.m_branch[..MAX] + [b]);
    v := new PartitionVars();
    GetBranches(n, b, v);
    assert v.m_branchBuf[..] == n.m_branch[..MAX] + [b];
    assert v.Boxes() == RectsOf(items) by {
      forall i | 0 <= i <= MAX
        ensures v.Boxes()[i] == items[i].rect
      {
        assert v.m_branchBuf[..][i] == v.m_branchBuf[i];
      }
    }
    ghost var cover := v.Cover();
    ChoosePartition(v, MIN);
    P.PartitionFromAnyCover(RectsOf(items), cover);
  }

  lemma RectsMirror(items: seq<Item>, bs: seq<Branch>)
    requires Mirrors(items, bs)
    ensures |items| == |bs| && forall i | 0 <= i < |bs| :: items[i].rect == bs[i].m_rect
  {
  }

  lemma FullPlusOne(t: Tree, it: Item)
    requires Body(t) && |t.items| == MAX && ItemOk(it, t.level)
    ensures AllOk(t.items + [it], t.level) && I.Splittable(t.items + [it])
    ensures var all := t.items + [it]; var part := P.Partition(RectsOf(all));
      && P.TwoColoured(part)
      && |I.Select(all, part, 0, |all|)| <= MAX && |I.Select(all, part, 1, |all|)| <= MAX
      && I.AddItem(t, it) == I.Halves(Tree(t.level, I.Select(all, part, 0, |all|)),
                                      Tree(t.level, I.Select(all, part, 1, |all|)))
  {
    hide I.Select, P.Partition;
    var all := t.items + [it];
    assert AllOk(all, t.level);
    I.AllOkSplittable(all, t.level);
    I.PartitionCounts(RectsOf(all));
    I.HalfSize(all, 0);
    I.HalfSize(all, 1);
  }

  lemma LoadedAll(n: Node, other: Node, level: int, buf: seq<Branch>, items: seq<Item>, part: seq<int>)
    requires |buf| == |items| == |part| && level >= 0
    requires Loaded(n, other, 0, level, buf, items, part, |buf|)
    ensures n.Valid() && other.Valid() && n.Repr !! other.Repr && n.m_level == level == other.m_level
    ensures n.tree == Tree(level, I.Select(items, part, 0, |items|))
    ensures other.tree == Tree(level, I.Select(items, part, 1, |items|))
    ensures n.Repr + other.Repr == Shell(n) + Shell(other) + Footprint(buf)
  {
    assert buf[..|buf|] == buf;
  }

  method GetBranches(n: Node, b: Branch, v: PartitionVars)
    requires n.m_branch.Length == MAX == n.m_count && v.Shaped() && v.m_branchBuf != n.m_branch
    modifies v`m_branchCount, v`m_coverSplit, v`m_coverSplitArea, v.m_branchBuf
    ensures v.m_branchBuf[..] == n.m_branch[..] + [b]
    ensures v.m_branchCount == MAX + 1
    ensures v.m_coverSplitArea == Volume(Rects.Cover(v.Boxes()))
  {
    hide Volume, Combine;
    for index := 0 to MAX
      invariant v.m_branchBuf[..index] == n.m_branch[..index]
      modifies v.m_branchBuf
    {
      v.m_branchBuf[index] := n.m_branch[index];
    }
    v.m_branchBuf[MAX] := b;
    assert v.m_branchBuf[..] == n.m_branch[..] + [b];
    v.m_branchCount := MAX + 1;
    CoverBuffer(v);
  }

  /** The end of GetBranches: the box around everything in the buffer. */
  method CoverBuffer(v: PartitionVars)
    requires v.Shaped()
    modifies v`m_coverSplit, v`m_coverSplitArea
    ensures v.m_coverSplitArea == Volume(Rects.Cover(v.Boxes()))
  {
    hide Volume, Combine;
    v.m_coverSplit := v.m_branchBuf[0].m_rect;
    ghost var rs := v.Boxes();
    assert rs[..1] == [rs[0]];
    for index := 1 to MAX + 1
      invariant v.m_coverSplit == Rects.Cover(rs[..index])
      modifies v`m_coverSplit
    {
      assert rs[..index + 1][..index] == rs[..index];
      v.m_coverSplit := CombineRect(v.m_coverSplit, v.m_branchBuf[index].m_rect);
    }
    assert rs[..MAX + 1] == rs;
    v.m_coverSplitArea := CalcRectVolume(v.m_coverSplit);
  }

  /** Two empty nodes and a buffer of branches that belong to neither. */
  ghost predicate Loadable(nA: Node, nB: Node, level: int, buf: seq<Branch>, items: seq<Item>)
    reads Kids(buf), Footprint(buf)
  {
    && Shell(nA) !! Shell(nB) && Shell(nA) + Shell(nB) !! Footprint(buf) && Kids(buf) <= Footprint(buf)
    && nA.m_branch.Length == MAX && nB.m_branch.Length == MAX && level >= 0
    && ForestOk(buf, level) && Mirrors(items, buf) && AllOk(items, level)
  }

  /** How far LoadNodes has come after `index` branches: `n` takes colour `g`, `other` the rest. */
  ghost predicate Loaded(n: Node, other: Node, g: P.Group, level: int, buf: seq<Branch>, items: seq<Item>,
                         part: seq<int>, index: nat)
    requires index <= |buf| == |items| == |part| && level >= 0
    reads n, other, n.Repr, other.Repr, Kids(buf[..index])
  {
    && n.Valid() && other.Valid() && n.Repr !! other.Repr && n.m_level == level == other.m_level
    && n.tree == Tree(level, I.Select(items, part, g, index))
    && other.tree == Tree(level, I.Select(items, part, 1 - g, index))
    && n.Repr + other.Repr == Shell(n) + Shell(other) + Footprint(buf[..index])
  }

  lemma LoadStep(n: Node, other: Node, g: P.Group, level: int, buf: seq<Branch>, items: seq<Item>, part: seq<int>,
                 index: nat)
    requires index < |buf| == |items| == |part| && P.TwoColoured(part) && part[index] == g
    requires Loadable(n, other, level, buf, items) && Loaded(n, other, g, level, buf, items, part, index)
    requires |I.Select(items, part, g, |items|)| <= MAX
    ensures Addable(buf[index], n) && n.m_count < MAX && |n.tree.items| < MAX
    ensures I.Select(items, part, g, index + 1) == I.Select(items, part, g, index) + [items[index]]
    ensures I.Select(items, part, 1 - g, index + 1) == I.Select(items, part, 1 - g, index)
    ensures items[index] == ItemOf(buf[index])
    ensures Owned(buf[index]) !! n.Repr && Owned(buf[index]) !! other.Repr
    ensures n.Repr + other.Repr + Owned(buf[index]) <= Shell(n) + Shell(other) + Footprint(buf)
    ensures Footprint(buf[..index + 1]) == Footprint(buf[..index]) + Owned(buf[index])
    ensures Kids(buf[..index + 1]) <= Footprint(buf)
  {
    hide ForestOk, BranchOk, ItemOf, Footprint, Owned, Body, ItemOk, I.Select;
    ForestApart(buf, level, index);
    SelectNext(items, part, index, level);
  }

  lemma SelectNext(items: seq<Item>, part: seq<int>, index: nat, level: nat)
    requires index < |items| == |part| && P.TwoColoured(part) && AllOk(items, level)
    requires |I.Select(items, part, part[index], |items|)| <= MAX
    ensures I.Select(items, part, part[index], index + 1) == I.Select(items, part, part[index], index) + [items[index]]
    ensures I.Select(items, part, 1 - part[index], index + 1) == I.Select(items, part, 1 - part[index], index)
    ensures |I.Select(items, part, part[index], index)| < MAX
    ensures Body(Tree(level, I.Select(items, part, part[index], index)))
    ensures ItemOk(items[index], level)
  {
    hide ItemOk, Body;
    SelectGrows(items, part, part[index], index + 1, |items|);
    I.BodyOfSome(items, level, I.Select(items, part, part[index], index));
  }

  lemma {:induction false} SelectGrows<T>(items: seq<T>, part: seq<int>, g: int, n: nat, m: nat)
    requires n <= m <= |items| == |part|
    ensures |I.Select(items, part, g, n)| <= |I.Select(items, part, g, m)|
    decreases m - n
  {
    if n < m {
      SelectGrows(items, part, g, n, m - 1);
    }
  }

  /** The branches of the buffer go to the nodes their colours name; no nested split. */
  method LoadNodes(mem: Memory, nA: Node, nB: Node, v: PartitionVars, ghost items: seq<Item>)
    requires v.Shaped() && v.m_total == MAX + 1 && v.m_branchBuf !in Shell(nA) + Shell(nB)
    requires |items| == MAX + 1 && P.TwoColoured(v.m_partition[..])
    requires nA.m_count == 0 == nB.m_count && nA.m_level == nB.m_level
    requires Loadable(nA, nB, nA.m_level, v.m_branchBuf[..], items)
    requires |I.Select(items, v.m_partition[..], 0, |items|)| <= MAX
    requires |I.Select(items, v.m_partition[..], 1, |items|)| <= MAX
    requires mem.Holds(Shell(nA) + Shell(nB) + Footprint(v.m_branchBuf[..]))
    modifies mem, nA, nA.m_branch, nB, nB.m_branch
    ensures Loaded(nA, nB, 0, old(nA.m_level), v.m_branchBuf[..], items, v.m_partition[..], MAX + 1)
    ensures mem.live == old(mem.live)
    decreases false, 1, 0
  {
    hide ForestOk, BranchOk, ItemOf, Footprint, Kids, Owned, Mirrors, Body, ItemOk, I.Select, Loaded, Node.Valid;
    ghost var buf, part, level := v.m_branchBuf[..], v.m_partition[..], nA.m_level;
    Begin(nA);
    Begin(nB);
    LoadedNone(nA, nB, level, buf, items, part);
    for index := 0 to v.m_total
      invariant mem.live == old(mem.live) && Loadable(nA, nB, level, buf, items)
      invariant Loaded(nA, nB, 0, level, buf, items, part, index)
      modifies mem, nA, nA.m_branch, nB, nB.m_branch
    {
      assert v.m_partition[index] == 0 || v.m_partition[index] == 1;
      if v.m_partition[index] == 0 {
        LoadBranch(mem, nA, nB, 0, v.m_branchBuf[index], level, buf, items, part, index);
      } else {
        LoadedSwap(nA, nB, 0, level, buf, items, part, index);
        LoadBranch(mem, nB, nA, 1, v.m_branchBuf[index], level, buf, items, part, index);
        LoadedSwap(nB, nA, 1, level, buf, items, part, index + 1);
      }
    }
  }

  /** One round of LoadNodes: branch `b` has colour `g` and goes to `n`. */
  method LoadBranch(mem: Memory, n: Node, ghost other: Node, ghost g: P.Group, b: Branch, ghost level: int,
                    ghost buf: seq<Branch>, ghost items: seq<Item>, ghost part: seq<int>, ghost index: nat)
    requires index < |buf| == |items| == |part| && P.TwoColoured(part)
    requires b == buf[index] && g == part[index]
    requires Loadable(n, other, level, buf, items) && Loaded(n, other, g, level, buf, items, part, index)
    requires |I.Select(items, part, g, |items|)| <= MAX
    requires mem.Holds(Shell(n) + Shell(other) + Footprint(buf))
    modifies mem, n, n.m_branch
    ensures Loaded(n, other, g, level, buf, items, part, index + 1)
    ensures mem.live == old(mem.live)
    decreases false, 0, 1
  {
    hide ForestOk, BranchOk, ItemOf, Footprint, Kids, Owned, Mirrors, Body, ItemOk, I.Select, I.Half, Node.Valid;
    LoadStep(n, other, g, level, buf, items, part, index);
    var _, _ := AddBranch(mem, b, n, false);
  }

  lemma LoadedSwap(n: Node, other: Node, g: P.Group, level: int, buf: seq<Branch>, items: seq<Item>, part: seq<int>,
                   index: nat)
    requires index <= |buf| == |items| == |part| && level >= 0
    requires Loaded(n, other, g, level, buf, items, part, index)
    ensures Loaded(other, n, 1 - g, level, buf, items, part, index)
  {
  }

  lemma LoadedNone(nA: Node, nB: Node, level: int, buf: seq<Branch>, items: seq<Item>, part: seq<int>)
    requires |buf| == |items| == |part| && level >= 0
    requires nA.Valid() && nB.Valid() && Shell(nA) !! Shell(nB)
    requires nA.m_level == level == nB.m_level
    requires nA.Repr == Shell(nA) && nB.Repr == Shell(nB)
    requires nA.tree == Tree(level, []) && nB.tree == Tree(level, [])
    ensures Loaded(nA, nB, 0, level, buf, items, part, 0)
  {
    hide Node.Valid;
  }
}
