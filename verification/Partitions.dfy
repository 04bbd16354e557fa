/**
  Choosing a partition of the branches of an overfull node, on values: the state of the
  greedy split, its rounds, and why both groups end up filled.
 */
module Partitions {
  import opened Params
  import opened Rects

  const NOT_TAKEN: int := -1

  type Group = g: int | 0 <= g < 2

  /** `m_partition`, and `m_count` and `m_cover` for each of the two groups. */
  datatype Parts = Parts(part: seq<int>, count: Pair<nat>, cover: Pair<Rect>)

  datatype Pair<T> = Pair(first: T, second: T) {
    function At(g: Group): T {
      if g == 0 then first else second
    }

    function With(g: Group, x: T): Pair<T> {
      if g == 0 then Pair(x, second) else Pair(first, x)
    }
  }

  /** The counters agree with the colours handed out so far. */
  ghost predicate Sound(rs: seq<Rect>, st: Parts) {
    && |st.part| == |rs|
    && (forall i | 0 <= i < |rs| :: st.part[i] == NOT_TAKEN || st.part[i] == 0 || st.part[i] == 1)
    && st.count.first == multiset(st.part)[0]
    && st.count.second == multiset(st.part)[1]
  }

  ghost function Untaken(st: Parts): nat {
    multiset(st.part)[NOT_TAKEN]
  }

  lemma {:induction false} Tally(part: seq<int>)
    requires forall i | 0 <= i < |part| :: part[i] == NOT_TAKEN || part[i] == 0 || part[i] == 1
    ensures multiset(part)[NOT_TAKEN] + multiset(part)[0] + multiset(part)[1] == |part|
  {
    if part != [] {
      var n := |part| - 1;
      assert part == part[..n] + [part[n]];
      Tally(part[..n]);
    }
  }

  // ---------------------------------------------------------------- Classify

  function Classify(rs: seq<Rect>, st: Parts, i: nat, g: Group): (r: Parts)
    requires i < |rs| == |st.part|
  {
    Parts(st.part[i := g],
          st.count.With(g, st.count.At(g) + 1),
          st.cover.With(g, if st.count.At(g) == 0 then rs[i] else Combine(rs[i], st.cover.At(g))))
  }

  lemma ClassifySound(rs: seq<Rect>, st: Parts, i: nat, g: Group)
    requires Sound(rs, st) && i < |rs| && st.part[i] == NOT_TAKEN
    ensures Sound(rs, Classify(rs, st, i, g))
    ensures Untaken(Classify(rs, st, i, g)) == Untaken(st) - 1
  {
    assert multiset(st.part[i := g]) == multiset(st.part) - multiset{NOT_TAKEN} + multiset{g};
  }

  // ---------------------------------------------------------------- PickSeeds

  function Waste(rs: seq<Rect>, a: nat, b: nat): real
    requires a < |rs| && b < |rs|
  {
    Volume(Combine(rs[a], rs[b])) - Volume(rs[a]) - Volume(rs[b])
  }

  datatype Seeds = Seeds(seed0: nat, seed1: nat, worst: real)

  function SeedStep(rs: seq<Rect>, a: nat, b: nat, s: Seeds): Seeds
    requires a < |rs| && b < |rs|
  {
    if Waste(rs, a, b) > s.worst then Seeds(a, b, Waste(rs, a, b)) else s
  }

  /** The best pair once (a, a + 1) up to (a, b - 1) were tried after the pairs behind `s`. */
  function SeedRow(rs: seq<Rect>, a: nat, b: nat, s: Seeds): Seeds
    requires a < b <= |rs|
  {
    if b == a + 1 then s else SeedStep(rs, a, b - 1, SeedRow(rs, a, b - 1, s))
  }

  function SeedRows(rs: seq<Rect>, a: nat): Seeds
    requires a < |rs|
  {
    if a == 0 then Seeds(0, 0, -Volume(Cover(rs)) - 1.0)
    else SeedRow(rs, a - 1, |rs|, SeedRows(rs, a - 1))
  }

  function PickSeeds(rs: seq<Rect>): Seeds
    requires rs != []
  {
    SeedRows(rs, |rs| - 1)
  }

  ghost predicate AllProper(rs: seq<Rect>) {
    forall i | 0 <= i < |rs| :: Proper(rs[i])
  }

  /** Even a pair wasting nothing beats the starting value. */
  lemma WasteExceedsStart(rs: seq<Rect>, a: nat, b: nat)
    requires AllProper(rs) && a < |rs| && b < |rs|
    ensures Waste(rs, a, b) > -Volume(Cover(rs)) - 1.0
  {
    CoverIsLeast(rs);
    CombineIsJoin(rs[a], rs[b]);
    VolumeMonotone(Combine(rs[a], rs[b]), rs[a]);
    VolumeMonotone(Cover(rs), rs[b]);
  }

  /** Pairs of the rows before `a`, and of row `a` before column `b`. */
  ghost predicate Before(a: nat, b: nat, i: nat, j: nat) {
    i < a || (i == a && j < b)
  }

  /** `s` holds the first of the most wasteful pairs before column `b` of row `a`. */
  ghost predicate WorstSoFar(rs: seq<Rect>, s: Seeds, a: nat, b: nat)
    requires rs != []
  {
    if a == 0 && b <= 1 then s == Seeds(0, 0, -Volume(Cover(rs)) - 1.0)
    else
      && s.seed0 < s.seed1 < |rs|
      && s.worst == Waste(rs, s.seed0, s.seed1)
      && (forall i: nat, j: nat | i < j < |rs| && Before(a, b, i, j) :: Waste(rs, i, j) <= s.worst)
      && (forall i: nat, j: nat | i < j < |rs| && Before(s.seed0, s.seed1, i, j) :: Waste(rs, i, j) < s.worst)
      && Before(a, b, s.seed0, s.seed1)
  }

  lemma SeedStepWorst(rs: seq<Rect>, a: nat, b: nat, s: Seeds)
    requires AllProper(rs) && a < b < |rs| && WorstSoFar(rs, s, a, b)
    ensures WorstSoFar(rs, SeedStep(rs, a, b, s), a, b + 1)
  {
    hide Waste;
    var t := SeedStep(rs, a, b, s);
    WasteExceedsStart(rs, a, b);
    assert s.worst <= t.worst && Waste(rs, a, b) <= t.worst;
    assert t.seed0 < t.seed1 < |rs| && t.worst == Waste(rs, t.seed0, t.seed1);
    forall i: nat, j: nat | i < j < |rs| && Before(a, b + 1, i, j)
      ensures Waste(rs, i, j) <= t.worst
    {
      if !Before(a, b, i, j) {
        assert i == a && j == b;
      }
    }
  }

  lemma {:induction false} SeedRowWorst(rs: seq<Rect>, a: nat, b: nat, s: Seeds)
    requires AllProper(rs) && a + 1 <= b <= |rs| && WorstSoFar(rs, s, a, a + 1)
    ensures WorstSoFar(rs, SeedRow(rs, a, b, s), a, b)
    decreases b
  {
    hide Waste, Before, SeedStep;
    if b > a + 1 {
      SeedRowWorst(rs, a, b - 1, s);
      SeedStepWorst(rs, a, b - 1, SeedRow(rs, a, b - 1, s));
    }
  }

  lemma {:induction false} SeedRowsWorst(rs: seq<Rect>, a: nat)
    requires AllProper(rs) && a < |rs|
    ensures WorstSoFar(rs, SeedRows(rs, a), a, a + 1)
  {
    hide Waste;
    if a > 0 {
      SeedRowsWorst(rs, a - 1);
      SeedRowWorst(rs, a - 1, |rs|, SeedRows(rs, a - 1));
    }
  }

  /** The seeds are two different branches, no pair wastes more, and every earlier one less. */
  lemma SeedsAreWorstPair(rs: seq<Rect>)
    requires AllProper(rs) && 2 <= |rs|
    ensures PickSeeds(rs).seed0 < PickSeeds(rs).seed1 < |rs|
    ensures forall i: nat, j: nat | i < j < |rs| ::
              Waste(rs, i, j) <= Waste(rs, PickSeeds(rs).seed0, PickSeeds(rs).seed1)
    ensures forall i: nat, j: nat | i < j < |rs| && Before(PickSeeds(rs).seed0, PickSeeds(rs).seed1, i, j) ::
              Waste(rs, i, j) < Waste(rs, PickSeeds(rs).seed0, PickSeeds(rs).seed1)
  {
    SeedRowsWorst(rs, |rs| - 1);
  }

  // ---------------------------------------------------------------- one greedy round

  /** How much the cover of a group would grow with branch `i`. */
  function Growth(rs: seq<Rect>, st: Parts, i: nat, g: Group): real
    requires i < |rs|
  {
    Volume(Combine(rs[i], st.cover.At(g))) - Volume(st.cover.At(g))
  }

  /** How much more the second cover would grow than the first. */
  function Diff(rs: seq<Rect>, st: Parts, i: nat): real
    requires i < |rs|
  {
    Growth(rs, st, i, 1) - Growth(rs, st, i, 0)
  }

  function Preference(rs: seq<Rect>, st: Parts, i: nat): real
    requires i < |rs|
  {
    if Diff(rs, st, i) >= 0.0 then Diff(rs, st, i) else -Diff(rs, st, i)
  }

  function Preferred(rs: seq<Rect>, st: Parts, i: nat): Group
    requires i < |rs|
  {
    if Diff(rs, st, i) >= 0.0 then 0 else 1
  }

  datatype Choice = NoChoice | Choice(index: nat, group: Group, biggest: real)

  function ChooseStep(rs: seq<Rect>, st: Parts, i: nat, c: Choice): Choice
    requires i < |rs| == |st.part|
  {
    if st.part[i] != NOT_TAKEN then c
    else if c.NoChoice? || Preference(rs, st, i) > c.biggest then
      Choice(i, Preferred(rs, st, i), Preference(rs, st, i))
    else if NearEqual(Preference(rs, st, i), c.biggest)
         && st.count.At(Preferred(rs, st, i)) < st.count.At(c.group) then
      Choice(i, Preferred(rs, st, i), c.biggest)
    else c
  }

  /** The choice among the first `n` branches. */
  function Choose(rs: seq<Rect>, st: Parts, n: nat): (c: Choice)
    requires n <= |rs| == |st.part|
    ensures c.Choice? ==> c.index < n && st.part[c.index] == NOT_TAKEN && c.group == Preferred(rs, st, c.index)
    ensures (exists i | 0 <= i < n :: st.part[i] == NOT_TAKEN) ==> c.Choice?
  {
    if n == 0 then NoChoice else ChooseStep(rs, st, n - 1, Choose(rs, st, n - 1))
  }

  /**
    The chosen branch goes where it causes less growth.  Ties do not drift: the difference
    it makes is within one tolerance of the largest.
   */
  lemma {:induction false} ChoiceNearStrongest(rs: seq<Rect>, st: Parts, n: nat)
    requires n <= |rs| == |st.part| && Choose(rs, st, n).Choice?
    ensures forall i | 0 <= i < n && st.part[i] == NOT_TAKEN ::
              Preference(rs, st, i) <= Choose(rs, st, n).biggest
    ensures var c := Choose(rs, st, n);
      && c.biggest - ZERO_TOLERANCE < Preference(rs, st, c.index) <= c.biggest
      && Growth(rs, st, c.index, 1 - c.group) - Growth(rs, st, c.index, c.group) == Preference(rs, st, c.index) >= 0.0
  {
    hide Growth;
    if n > 0 {
      if Choose(rs, st, n - 1).Choice? {
        ChoiceNearStrongest(rs, st, n - 1);
      }
    }
  }

  /** Preferences are equal or a tolerance apart. */
  ghost predicate Separated(rs: seq<Rect>, st: Parts)
    requires |rs| == |st.part|
  {
    forall i, j | 0 <= i < |rs| && 0 <= j < |rs| ::
      Preference(rs, st, i) == Preference(rs, st, j) || !NearEqual(Preference(rs, st, i), Preference(rs, st, j))
  }

  /** A stronger preference, or one as strong for a group with fewer members. */
  ghost predicate Stronger(rs: seq<Rect>, st: Parts, i: nat, j: nat)
    requires i < |rs| && j < |rs|
  {
    || Preference(rs, st, i) > Preference(rs, st, j)
    || (Preference(rs, st, i) == Preference(rs, st, j)
        && st.count.At(Preferred(rs, st, i)) < st.count.At(Preferred(rs, st, j)))
  }

  /** Without near-ties the choice is the first of the strongest. */
  lemma {:induction false} ChoiceIsStrongest(rs: seq<Rect>, st: Parts, n: nat)
    requires n <= |rs| == |st.part| && Separated(rs, st) && Choose(rs, st, n).Choice?
    ensures var c := Choose(rs, st, n);
      && c.biggest == Preference(rs, st, c.index)
      && (forall i: nat | i < n && st.part[i] == NOT_TAKEN :: !Stronger(rs, st, i, c.index))
      && (forall i: nat | i < c.index && st.part[i] == NOT_TAKEN :: Stronger(rs, st, c.index, i))
  {
    hide Preference, Preferred;
    if n > 0 {
      if Choose(rs, st, n - 1).Choice? {
        ChoiceIsStrongest(rs, st, n - 1);
      }
    }
  }

  /** `f` is the first of the untaken branches of greatest preference among the first `n`. */
  ghost predicate FirstStrongest(rs: seq<Rect>, st: Parts, n: nat, f: nat)
    requires f < n <= |rs| == |st.part|
  {
    && st.part[f] == NOT_TAKEN
    && (forall i | 0 <= i < n && st.part[i] == NOT_TAKEN :: Preference(rs, st, i) <= Preference(rs, st, f))
    && (forall i | 0 <= i < f && st.part[i] == NOT_TAKEN :: Preference(rs, st, i) < Preference(rs, st, f))
  }

  /** The guard of the tie branch: `k` takes the place of `f` for the sake of the smaller group. */
  ghost predicate TakesOver(rs: seq<Rect>, st: Parts, k: nat, f: nat)
    requires k < |rs| == |st.part| && f < |rs|
  {
    && st.part[k] == NOT_TAKEN && NearEqual(Preference(rs, st, k), Preference(rs, st, f))
    && st.count.At(Preferred(rs, st, k)) < st.count.At(Preferred(rs, st, f))
  }

  ghost predicate NoneTakesOver(rs: seq<Rect>, st: Parts, f: nat, n: nat)
    requires f < n <= |rs| == |st.part|
  {
    forall k | f < k < n :: !TakesOver(rs, st, k, f)
  }

  /**
    Which branch a round chooses, ties included: the first of the strongest unless one behind
    it takes over, and then the first that does.  So the choice has the greatest preference
    if and only if none takes over or the first that does has it as well.
   */
  lemma {:induction false} ChoiceWithTies(rs: seq<Rect>, st: Parts, n: nat, f: nat)
    requires f < n <= |rs| == |st.part| && FirstStrongest(rs, st, n, f)
    ensures var c := Choose(rs, st, n);
      && c.Choice? && c.biggest == Preference(rs, st, f)
      && if NoneTakesOver(rs, st, f, n) then c.index == f
         else f < c.index < n && TakesOver(rs, st, c.index, f) && NoneTakesOver(rs, st, f, c.index)
    decreases n
  {
    hide Preference, Preferred;
    if n > f + 1 {
      ChoiceWithTies(rs, st, n - 1, f);
      assert NoneTakesOver(rs, st, f, n) <==> NoneTakesOver(rs, st, f, n - 1) && !TakesOver(rs, st, n - 1, f);
    } else if f > 0 && Choose(rs, st, f).Choice? {
      EarlierIsWeaker(rs, st, f);
    }
  }

  /** Before the first of the strongest everything on record is weaker. */
  lemma {:induction false} EarlierIsWeaker(rs: seq<Rect>, st: Parts, f: nat)
    requires f < |rs| == |st.part| && Choose(rs, st, f).Choice?
    requires forall i | 0 <= i < f && st.part[i] == NOT_TAKEN :: Preference(rs, st, i) < Preference(rs, st, f)
    ensures Choose(rs, st, f).biggest < Preference(rs, st, f)
  {
    var i := BiggestIsSome(rs, st, f);
  }

  lemma {:induction false} BiggestIsSome(rs: seq<Rect>, st: Parts, n: nat) returns (i: nat)
    requires n <= |rs| == |st.part| && Choose(rs, st, n).Choice?
    ensures i < n && st.part[i] == NOT_TAKEN && Choose(rs, st, n).biggest == Preference(rs, st, i)
    decreases n
  {
    hide Preference, Preferred;
    if Choose(rs, st, n - 1).Choice? {
      i := BiggestIsSome(rs, st, n - 1);
      if Choose(rs, st, n).biggest != Choose(rs, st, n - 1).biggest {
        i := n - 1;
      }
    } else {
      i := n - 1;
    }
  }

  // ---------------------------------------------------------------- all rounds

  predicate RoundsGoOn(st: Parts, minFill: int) {
    && st.count.first + st.count.second < |st.part|
    && st.count.first < |st.part| - minFill
    && st.count.second < |st.part| - minFill
  }

  /** As long as the counters fall short there is a branch to choose. */
  lemma SomeUntaken(rs: seq<Rect>, st: Parts)
    requires Sound(rs, st)
    ensures Untaken(st) == |rs| - st.count.first - st.count.second
    ensures Untaken(st) > 0 ==> Choose(rs, st, |rs|).Choice?
  {
    Tally(st.part);
    if Untaken(st) > 0 {
      assert NOT_TAKEN in multiset(st.part);
      assert NOT_TAKEN in st.part;
    }
  }

  function Round(rs: seq<Rect>, st: Parts): (r: Parts)
    requires Sound(rs, st) && st.count.first + st.count.second < |rs|
    ensures Sound(rs, r) && Untaken(r) == Untaken(st) - 1
    ensures r.count.first + r.count.second == st.count.first + st.count.second + 1
    ensures st.count.first <= r.count.first && st.count.second <= r.count.second
  {
    SomeUntaken(rs, st);
    var c := Choose(rs, st, |rs|);
    ClassifySound(rs, st, c.index, c.group);
    Classify(rs, st, c.index, c.group)
  }

  function Rounds(rs: seq<Rect>, st: Parts, minFill: int): (r: Parts)
    requires Sound(rs, st)
    ensures Sound(rs, r) && !RoundsGoOn(r, minFill)
    decreases Untaken(st)
  {
    if RoundsGoOn(st, minFill) then Rounds(rs, Round(rs, st), minFill) else st
  }

  /** No round pushes a group past the point where the other could still be filled. */
  lemma {:induction false} RoundsKeepRoom(rs: seq<Rect>, st: Parts, minFill: int)
    requires Sound(rs, st)
    requires st.count.first <= |rs| - minFill && st.count.second <= |rs| - minFill
    ensures Rounds(rs, st, minFill).count.first <= |rs| - minFill
    ensures Rounds(rs, st, minFill).count.second <= |rs| - minFill
    decreases Untaken(st)
  {
    if RoundsGoOn(st, minFill) {
      RoundsKeepRoom(rs, Round(rs, st), minFill);
    }
  }

  // ---------------------------------------------------------------- the rest

  /** The first `n` branches, where still untaken, go to group `g`. */
  function FillRest(rs: seq<Rect>, st: Parts, g: Group, n: nat): (r: Parts)
    requires Sound(rs, st) && n <= |rs|
    ensures Sound(rs, r)
    ensures forall i | 0 <= i < n :: r.part[i] != NOT_TAKEN
    ensures r.count.At(1 - g) == st.count.At(1 - g)
  {
    if n == 0 then st
    else
      var r := FillRest(rs, st, g, n - 1);
      if r.part[n - 1] == NOT_TAKEN then
        ClassifySound(rs, r, n - 1, g);
        Classify(rs, r, n - 1, g)
      else r
  }

  function Initial(rs: seq<Rect>, cover: Pair<Rect>): (st: Parts)
    ensures Sound(rs, st) && Untaken(st) == |rs|
  {
    var st := Parts(seq(|rs|, i => NOT_TAKEN), Pair(0, 0), cover);
    assert 0 !in st.part && 1 !in st.part;
    Tally(st.part);
    st
  }

  function Seeded(rs: seq<Rect>, cover: Pair<Rect>): (st: Parts)
    requires AllProper(rs) && 2 <= |rs|
    ensures Sound(rs, st) && st.count == Pair(1, 1)
  {
    SeedsAreWorstPair(rs);
    var s := PickSeeds(rs);
    var st := Initial(rs, cover);
    ClassifySound(rs, st, s.seed0, 0);
    var st1 := Classify(rs, st, s.seed0, 0);
    ClassifySound(rs, st1, s.seed1, 1);
    Classify(rs, st1, s.seed1, 1)
  }

  /** The group that takes what the greedy rounds left over. */
  function RestGroup(st: Parts, minFill: int): Group {
    if st.count.first >= |st.part| - minFill then 1 else 0
  }

  function ChoosePartition(rs: seq<Rect>, cover: Pair<Rect>, minFill: nat): (st: Parts)
    requires AllProper(rs) && 2 <= |rs|
    ensures Sound(rs, st)
  {
    var st := Rounds(rs, Seeded(rs, cover), minFill);
    if st.count.first + st.count.second < |rs| then FillRest(rs, st, RestGroup(st, minFill), |rs|) else st
  }

  ghost predicate TwoColoured(part: seq<int>) {
    forall i | 0 <= i < |part| :: part[i] == 0 || part[i] == 1
  }

  lemma NoneUntaken(rs: seq<Rect>, st: Parts)
    requires Sound(rs, st)
    ensures Untaken(st) == 0 <==> TwoColoured(st.part)
  {
    if Untaken(st) == 0 {
      forall i | 0 <= i < |st.part|
        ensures st.part[i] != NOT_TAKEN
      {
        assert st.part[i] in multiset(st.part);
      }
    } else {
      assert NOT_TAKEN in multiset(st.part);
    }
  }

  /** Every branch is coloured and neither group is left below the minimum. */
  lemma PartitionIsBalanced(rs: seq<Rect>, cover: Pair<Rect>, minFill: nat)
    requires AllProper(rs) && 2 <= |rs| && 1 <= minFill && 2 * minFill <= |rs|
    ensures var st := ChoosePartition(rs, cover, minFill);
      && TwoColoured(st.part)
      && st.count.first + st.count.second == |rs|
      && minFill <= st.count.first <= |rs| - minFill
      && minFill <= st.count.second <= |rs| - minFill
  {
    var seeded := Seeded(rs, cover);
    var st := Rounds(rs, seeded, minFill);
    RoundsKeepRoom(rs, seeded, minFill);
    var r := ChoosePartition(rs, cover, minFill);
    SomeUntaken(rs, r);
    SomeUntaken(rs, st);
    NoneUntaken(rs, r);
  }

  // ---------------------------------------------------------------- covers

  /** `c` contains every box of group `g`. */
  ghost predicate Encloses(c: Rect, rs: seq<Rect>, part: seq<int>, g: Group)
    requires |part| == |rs|
  {
    forall i | 0 <= i < |rs| && part[i] == g :: Contains(c, rs[i])
  }

  /** The cover of a group, once it has members, is the least box around them. */
  ghost predicate Tight(rs: seq<Rect>, st: Parts, g: Group)
    requires |st.part| == |rs|
  {
    st.count.At(g) > 0 ==>
      && Encloses(st.cover.At(g), rs, st.part, g)
      && forall d | Encloses(d, rs, st.part, g) :: Contains(d, st.cover.At(g))
  }

  lemma ClassifyTight(rs: seq<Rect>, st: Parts, i: nat, g: Group, h: Group)
    requires Sound(rs, st) && i < |rs| && st.part[i] == NOT_TAKEN && Tight(rs, st, h)
    ensures Tight(rs, Classify(rs, st, i, g), h)
  {
    hide Contains, Combine;
    var r := Classify(rs, st, i, g);
    if g == h && st.count.At(g) == 0 {
      assert multiset(st.part)[g] == 0;
      forall j | 0 <= j < |rs| && r.part[j] == g
        ensures j == i
      {
        assert st.part[j] in multiset(st.part);
      }
      assert Contains(rs[i], rs[i]) by {
        ContainsItself(rs[i]);
      }
    } else if g == h {
      var c := st.cover.At(g);
      CombineIsJoin(rs[i], c);
      forall j | 0 <= j < |rs| && r.part[j] == g
        ensures Contains(r.cover.At(g), rs[j])
      {
        if j != i {
          ContainsTransitive(r.cover.At(g), c, rs[j]);
        }
      }
      forall d | Encloses(d, rs, r.part, g)
        ensures Contains(d, r.cover.At(g))
      {
        assert r.part[i] == g;
        assert Encloses(d, rs, st.part, g) by {
          assert forall j | 0 <= j < |rs| && st.part[j] == g :: r.part[j] == g;
        }
      }
    } else {
      assert forall j | 0 <= j < |rs| :: r.part[j] == h <==> st.part[j] == h;
      assert forall d :: Encloses(d, rs, r.part, h) <==> Encloses(d, rs, st.part, h);
    }
  }

  lemma ContainsItself(r: Rect)
    ensures Contains(r, r)
  {
  }

  lemma SeededTight(rs: seq<Rect>, cover: Pair<Rect>, h: Group)
    requires AllProper(rs) && 2 <= |rs|
    ensures Tight(rs, Seeded(rs, cover), h)
  {
    hide Tight, Classify;
    SeedsAreWorstPair(rs);
    var s, st := PickSeeds(rs), Initial(rs, cover);
    assert Tight(rs, st, h) by {
      NothingToCover(rs, st, h);
    }
    ClassifyTight(rs, st, s.seed0, 0, h);
    ClassifySound(rs, st, s.seed0, 0);
    SeedUntaken(rs, st, s.seed0, s.seed1);
    ClassifyTight(rs, Classify(rs, st, s.seed0, 0), s.seed1, 1, h);
  }

  lemma NothingToCover(rs: seq<Rect>, st: Parts, h: Group)
    requires Sound(rs, st) && Untaken(st) == |rs|
    ensures Tight(rs, st, h)
  {
    Tally(st.part);
  }

  lemma SeedUntaken(rs: seq<Rect>, st: Parts, i: nat, j: nat)
    requires |st.part| == |rs| && i < j < |rs| && st.part[j] == NOT_TAKEN
    ensures Classify(rs, st, i, 0).part[j] == NOT_TAKEN
  {
  }

  lemma {:induction false} RoundsTight(rs: seq<Rect>, st: Parts, minFill: int, h: Group)
    requires Sound(rs, st) && Tight(rs, st, h)
    ensures Tight(rs, Rounds(rs, st, minFill), h)
    decreases Untaken(st)
  {
    hide Tight, Classify;
    if RoundsGoOn(st, minFill) {
      SomeUntaken(rs, st);
      var c := Choose(rs, st, |rs|);
      ClassifyTight(rs, st, c.index, c.group, h);
      RoundsTight(rs, Round(rs, st), minFill, h);
    }
  }

  lemma {:induction false} FillRestTight(rs: seq<Rect>, st: Parts, g: Group, n: nat, h: Group)
    requires Sound(rs, st) && n <= |rs| && Tight(rs, st, h)
    ensures Tight(rs, FillRest(rs, st, g, n), h)
    decreases n
  {
    hide Tight, Classify;
    if n > 0 {
      FillRestTight(rs, st, g, n - 1, h);
      var r := FillRest(rs, st, g, n - 1);
      if r.part[n - 1] == NOT_TAKEN {
        ClassifyTight(rs, r, n - 1, g, h);
      }
    }
  }

  /** At the end each group is covered by the least box around its members. */
  lemma CoversAreTight(rs: seq<Rect>, cover: Pair<Rect>, minFill: nat, h: Group)
    requires AllProper(rs) && 2 <= |rs|
    ensures Tight(rs, ChoosePartition(rs, cover, minFill), h)
  {
    hide Tight, Seeded, Rounds, FillRest;
    SeededTight(rs, cover, h);
    var st := Rounds(rs, Seeded(rs, cover), minFill);
    RoundsTight(rs, Seeded(rs, cover), minFill, h);
    FillRestTight(rs, st, RestGroup(st, minFill), |rs|, h);
  }

  /** The cover a split starts from is overwritten by the seeds. */
  lemma StartCoverIrrelevant(rs: seq<Rect>, c: Pair<Rect>, d: Pair<Rect>)
    requires AllProper(rs) && 2 <= |rs|
    ensures Seeded(rs, c) == Seeded(rs, d)
  {
  }

  /** The partition vector for a full node plus one, as `SplitNode` asks for it. */
  function Partition(rs: seq<Rect>): (part: seq<int>)
    requires AllProper(rs) && |rs| == MAX + 1
    ensures |part| == |rs|
  {
    ChoosePartition(rs, Pair(rs[0], rs[0]), MIN).part
  }

  lemma PartitionFromAnyCover(rs: seq<Rect>, cover: Pair<Rect>)
    requires AllProper(rs) && |rs| == MAX + 1
    ensures ChoosePartition(rs, cover, MIN).part == Partition(rs)
  {
    hide Seeded;
    StartCoverIrrelevant(rs, cover, Pair(rs[0], rs[0]));
  }
}
