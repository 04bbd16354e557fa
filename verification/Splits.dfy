/**
  What a split does, told by its outcome: which two branches it starts from, in which order
  and to which side the others go, and which slots the two nodes end up with.
 */
module Splits {
  import opened Params
  import opened Rects
  import opened Trees
  import opened Partitions
  import I = Inserts

  // ---------------------------------------------------------------- the vocabulary

  ghost predicate InRange(taken: seq<nat>, n: nat) {
    forall m | 0 <= m < |taken| :: taken[m] < n
  }

  ghost predicate Distinct(taken: seq<nat>) {
    forall m, k | 0 <= m < k < |taken| :: taken[m] != taken[k]
  }

  /** `c` contains the boxes of colour `g` among those taken. */
  ghost predicate Around(c: Rect, rs: seq<Rect>, part: seq<int>, taken: seq<nat>, g: int)
    requires |part| == |rs| && InRange(taken, |rs|)
  {
    forall i | i in taken && part[i] == g :: Contains(c, rs[i])
  }

  /** The least such box. */
  ghost predicate LeastAround(c: Rect, rs: seq<Rect>, part: seq<int>, taken: seq<nat>, g: int)
    requires |part| == |rs| && InRange(taken, |rs|)
  {
    Around(c, rs, part, taken, g) && forall d | Around(d, rs, part, taken, g) :: Contains(d, c)
  }

  /** How many of those taken have colour `g`. */
  function Members(part: seq<int>, taken: seq<nat>, g: int): nat
    requires InRange(taken, |part|)
    decreases |taken|
  {
    if taken == [] then 0
    else Members(part, taken[..|taken| - 1], g) + if part[taken[|taken| - 1]] == g then 1 else 0
  }

  /** How much more box `b` would enlarge `c1` than `c0`. */
  function Lean(b: Rect, c0: Rect, c1: Rect): real {
    (Volume(Combine(b, c1)) - Volume(c1)) - (Volume(Combine(b, c0)) - Volume(c0))
  }

  function Abs(x: real): real {
    if x >= 0.0 then x else -x
  }

  function Side(x: real): Group {
    if x >= 0.0 then 0 else 1
  }

  /** Near a branch and leaning to the side with fewer members. */
  ghost predicate Ousts(rs: seq<Rect>, part: seq<int>, taken: seq<nat>, k: nat, f: nat, c0: Rect, c1: Rect)
    requires |part| == |rs| && InRange(taken, |rs|) && k < |rs| && f < |rs|
  {
    var x, y := Lean(rs[k], c0, c1), Lean(rs[f], c0, c1);
    && -ZERO_TOLERANCE < Abs(x) - Abs(y) < ZERO_TOLERANCE
    && Members(part, taken, Side(x)) < Members(part, taken, Side(y))
  }

  /** `f` is the first untaken branch of the strongest lean. */
  ghost predicate LeansMost(rs: seq<Rect>, taken: seq<nat>, f: nat, c0: Rect, c1: Rect)
    requires f < |rs|
  {
    && f !in taken
    && (forall j: nat | j < |rs| && j !in taken :: Abs(Lean(rs[j], c0, c1)) <= Abs(Lean(rs[f], c0, c1)))
    && (forall j: nat | j < f && j !in taken :: Abs(Lean(rs[j], c0, c1)) < Abs(Lean(rs[f], c0, c1)))
  }

  /**
    With `taken` coloured, `i` comes next and goes to the side it leans to: the branch of the
    strongest lean, unless one behind it ousts it, and then the first that does.
   */
  ghost predicate ComesNext(rs: seq<Rect>, part: seq<int>, taken: seq<nat>, i: nat, c0: Rect, c1: Rect)
    requires |part| == |rs| && InRange(taken, |rs|) && i < |rs|
  {
    && i !in taken && part[i] == Side(Lean(rs[i], c0, c1))
    && exists f: nat | f < |rs| && LeansMost(rs, taken, f, c0, c1) ::
         if i == f then forall k: nat | f < k < |rs| && k !in taken :: !Ousts(rs, part, taken, k, f, c0, c1)
         else
           && f < i && Ousts(rs, part, taken, i, f, c0, c1)
           && forall k: nat | f < k < i && k !in taken :: !Ousts(rs, part, taken, k, f, c0, c1)
  }

  /** One greedy round, with the least boxes around the two groups so far. */
  ghost predicate GreedyRound(rs: seq<Rect>, part: seq<int>, taken: seq<nat>, i: nat, cover: Pair<Rect>, minFill: int)
    requires |part| == |rs| && InRange(taken, |rs|) && i < |rs|
  {
    && LeastAround(cover.first, rs, part, taken, 0) && LeastAround(cover.second, rs, part, taken, 1)
    && Members(part, taken, 0) < |rs| - minFill && Members(part, taken, 1) < |rs| - minFill
    && ComesNext(rs, part, taken, i, cover.first, cover.second)
  }

  // ---------------------------------------------------------------- colours already given

  ghost predicate Agree(part: seq<int>, part': seq<int>, taken: seq<nat>)
    requires |part| == |part'| && InRange(taken, |part|)
  {
    forall i | i in taken :: part[i] == part'[i]
  }

  lemma {:induction false} MembersAgree(part: seq<int>, part': seq<int>, taken: seq<nat>, g: int)
    requires |part| == |part'| && InRange(taken, |part|) && Agree(part, part', taken)
    ensures Members(part, taken, g) == Members(part', taken, g)
    decreases |taken|
  {
    if taken != [] {
      var front := taken[..|taken| - 1];
      assert forall m | 0 <= m < |front| :: front[m] == taken[m];
      MembersAgree(part, part', front, g);
    }
  }

  lemma AroundAgree(c: Rect, rs: seq<Rect>, part: seq<int>, part': seq<int>, taken: seq<nat>, g: int)
    requires |part| == |part'| == |rs| && InRange(taken, |rs|) && Agree(part, part', taken)
    ensures LeastAround(c, rs, part, taken, g) <==> LeastAround(c, rs, part', taken, g)
  {
    hide Contains;
    assert forall d :: Around(d, rs, part, taken, g) <==> Around(d, rs, part', taken, g);
  }

  /** A round depends on no colour but those given up to it. */
  lemma RoundAgree(rs: seq<Rect>, part: seq<int>, part': seq<int>, taken: seq<nat>, i: nat, cover: Pair<Rect>,
                   minFill: int)
    requires |part| == |part'| == |rs| && InRange(taken, |rs|) && i < |rs|
    requires Agree(part, part', taken) && part[i] == part'[i]
    requires GreedyRound(rs, part, taken, i, cover, minFill)
    ensures GreedyRound(rs, part', taken, i, cover, minFill)
  {
    hide LeastAround, Lean, Abs, Side, LeansMost;
    AroundAgree(cover.first, rs, part, part', taken, 0);
    AroundAgree(cover.second, rs, part, part', taken, 1);
    MembersAgree(part, part', taken, 0);
    MembersAgree(part, part', taken, 1);
    var c0, c1 := cover.first, cover.second;
    forall k: nat, f: nat | k < |rs| && f < |rs|
      ensures Ousts(rs, part, taken, k, f, c0, c1) <==> Ousts(rs, part', taken, k, f, c0, c1)
    {
    }
  }

  // ---------------------------------------------------------------- following the algorithm

  /** `taken` lists the branches that have a colour, in the order they got it. */
  ghost predicate Traced(rs: seq<Rect>, st: Parts, taken: seq<nat>) {
    && Sound(rs, st) && InRange(taken, |rs|) && Distinct(taken)
    && (forall i: nat | i < |rs| :: st.part[i] != NOT_TAKEN <==> i in taken)
    && st.count.first == Members(st.part, taken, 0) && st.count.second == Members(st.part, taken, 1)
    && Tight(rs, st, 0) && Tight(rs, st, 1)
  }

  lemma MembersPush(part: seq<int>, taken: seq<nat>, i: nat, g: int)
    requires InRange(taken, |part|) && i < |part|
    ensures InRange(taken + [i], |part|)
    ensures Members(part, taken + [i], g) == Members(part, taken, g) + if part[i] == g then 1 else 0
  {
    assert (taken + [i])[..|taken|] == taken;
  }

  lemma TraceStep(rs: seq<Rect>, st: Parts, taken: seq<nat>, i: nat, g: Group)
    requires Traced(rs, st, taken) && i < |rs| && st.part[i] == NOT_TAKEN
    ensures Traced(rs, Classify(rs, st, i, g), taken + [i])
    ensures Agree(st.part, Classify(rs, st, i, g).part, taken)
  {
    hide Tight, Combine, Members;
    var r := Classify(rs, st, i, g);
    ClassifySound(rs, st, i, g);
    ClassifyTight(rs, st, i, g, 0);
    ClassifyTight(rs, st, i, g, 1);
    assert i !in taken;
    assert Agree(st.part, r.part, taken);
    MembersAgree(st.part, r.part, taken, 0);
    MembersAgree(st.part, r.part, taken, 1);
    MembersPush(r.part, taken, i, 0);
    MembersPush(r.part, taken, i, 1);
    assert forall k: nat | k < |rs| :: k in taken + [i] <==> k in taken || k == i;
  }

  lemma TightIsLeast(rs: seq<Rect>, st: Parts, taken: seq<nat>, g: Group)
    requires Traced(rs, st, taken) && st.count.At(g) > 0
    ensures LeastAround(st.cover.At(g), rs, st.part, taken, g)
  {
    hide Contains, Members;
    assert forall d :: Around(d, rs, st.part, taken, g) <==> Encloses(d, rs, st.part, g) by {
      forall d: Rect
        ensures Around(d, rs, st.part, taken, g) <==> Encloses(d, rs, st.part, g)
      {
        assert forall i: nat | i < |rs| && st.part[i] == g :: i in taken;
      }
    }
    assert Tight(rs, st, g);
  }

  /** The choice of a round, in the vocabulary of the outcome. */
  lemma ChoiceComesNext(rs: seq<Rect>, st: Parts, taken: seq<nat>, part: seq<int>)
    requires Traced(rs, st, taken) && st.count.first + st.count.second < |rs|
    requires var c := Choose(rs, st, |rs|);
      c.Choice? && |part| == |rs| && Agree(st.part, part, taken) && part[c.index] == c.group
    ensures ComesNext(rs, part, taken, Choose(rs, st, |rs|).index, st.cover.first, st.cover.second)
  {
    hide Volume, Combine, Choose, Tight, Members;
    var c, c0, c1 := Choose(rs, st, |rs|), st.cover.first, st.cover.second;
    forall j: nat | j < |rs|
      ensures Preference(rs, st, j) == Abs(Lean(rs[j], c0, c1)) && Preferred(rs, st, j) == Side(Lean(rs[j], c0, c1))
    {
    }
    MembersAgree(st.part, part, taken, 0);
    MembersAgree(st.part, part, taken, 1);
    var f := FindFirstStrongest(rs, st, |rs|, c.index);
    ChoiceWithTies(rs, st, |rs|, f);
    forall k: nat | k < |rs| && k !in taken
      ensures TakesOver(rs, st, k, f) <==> Ousts(rs, part, taken, k, f, c0, c1)
    {
    }
    assert LeansMost(rs, taken, f, c0, c1);
  }

  lemma {:induction false} FindFirstStrongest(rs: seq<Rect>, st: Parts, n: nat, some: nat) returns (f: nat)
    requires n <= |rs| == |st.part| && some < n && st.part[some] == NOT_TAKEN
    ensures f < n && FirstStrongest(rs, st, n, f)
    decreases n
  {
    hide Preference;
    if some < n - 1 {
      f := FindFirstStrongest(rs, st, n - 1, some);
      if st.part[n - 1] == NOT_TAKEN && Preference(rs, st, n - 1) > Preference(rs, st, f) {
        f := n - 1;
      }
    } else if i: nat :| i < n - 1 && st.part[i] == NOT_TAKEN {
      f := FindFirstStrongest(rs, st, n - 1, i);
      if Preference(rs, st, n - 1) > Preference(rs, st, f) {
        f := n - 1;
      }
    } else {
      f := n - 1;
    }
  }

  /** The branches from place `from` on were coloured by greedy rounds. */
  ghost predicate GreedyFrom(rs: seq<Rect>, part: seq<int>, order: seq<nat>, from: nat, covers: seq<Pair<Rect>>,
                             minFill: int)
    requires |part| == |rs|
  {
    && from + |covers| == |order|
    && forall k | from <= k < |order| ::
         && InRange(order[..k], |rs|) && order[k] < |rs|
         && GreedyRound(rs, part, order[..k], order[k], covers[k - from], minFill)
  }

  lemma RoundInFront(rs: seq<Rect>, part: seq<int>, order: seq<nat>, from: nat, covers: seq<Pair<Rect>>, minFill: int,
                     cover: Pair<Rect>)
    requires |part| == |rs| && GreedyFrom(rs, part, order, from + 1, covers, minFill)
    requires InRange(order[..from], |rs|) && order[from] < |rs|
    requires GreedyRound(rs, part, order[..from], order[from], cover, minFill)
    ensures GreedyFrom(rs, part, order, from, [cover] + covers, minFill)
  {
    hide GreedyRound, InRange;
    forall k | from <= k < |order|
      ensures InRange(order[..k], |rs|) && order[k] < |rs|
      ensures GreedyRound(rs, part, order[..k], order[k], ([cover] + covers)[k - from], minFill)
    {
      if k > from {
        assert ([cover] + covers)[k - from] == covers[k - (from + 1)];
      }
    }
  }

  /** All rounds: the branches they colour, and the covers each of them starts from. */
  lemma {:induction false} RoundsTrace(rs: seq<Rect>, st: Parts, minFill: int, taken: seq<nat>)
      returns (order: seq<nat>, covers: seq<Pair<Rect>>)
    requires Traced(rs, st, taken) && st.count.first > 0 && st.count.second > 0
    ensures var r := Rounds(rs, st, minFill);
      && Traced(rs, r, order) && Agree(st.part, r.part, taken) && !RoundsGoOn(r, minFill)
      && taken <= order && GreedyFrom(rs, r.part, order, |taken|, covers, minFill)
    decreases Untaken(st)
  {
    hide Classify, Choose, Tight, GreedyRound, Members, Traced, Agree, Sound, Round, InRange, GreedyFrom, RoundsGoOn;
    TracedLength(rs, st, taken);
    if !RoundsGoOn(st, minFill) {
      order, covers := taken, [];
      AgreeWithItself(st, taken, rs);
      NoRounds(rs, st.part, taken, minFill);
    } else {
      GoesOn(st, minFill);
      ColoursGrow(rs, st);
      var c, next := Choose(rs, st, |rs|), Round(rs, st);
      TraceStep(rs, st, taken, c.index, c.group);
      TracedLength(rs, next, taken + [c.index]);
      order, covers := RoundsTrace(rs, next, minFill, taken + [c.index]);
      var r := Rounds(rs, st, minFill);
      assert r == Rounds(rs, next, minFill);
      TracedLength(rs, r, order);
      assert order[..|taken|] == taken && order[|taken|] == c.index;
      StillAgree(st.part, next.part, r.part, taken, c.index);
      FirstRound(rs, st, taken, r.part, minFill);
      RoundInFront(rs, r.part, order, |taken|, covers, minFill, st.cover);
      covers := [st.cover] + covers;
    }
  }

  lemma NoRounds(rs: seq<Rect>, part: seq<int>, taken: seq<nat>, minFill: int)
    requires |part| == |rs|
    ensures GreedyFrom(rs, part, taken, |taken|, [], minFill)
  {
  }

  lemma GoesOn(st: Parts, minFill: int)
    requires RoundsGoOn(st, minFill)
    ensures st.count.first + st.count.second < |st.part|
  {
  }

  lemma TracedLength(rs: seq<Rect>, st: Parts, taken: seq<nat>)
    requires Traced(rs, st, taken)
    ensures |st.part| == |rs| && InRange(taken, |rs|) && Sound(rs, st)
  {
  }

  lemma StillAgree(a: seq<int>, b: seq<int>, c: seq<int>, taken: seq<nat>, i: nat)
    requires |a| == |b| == |c| && InRange(taken + [i], |a|) && InRange(taken, |a|)
    requires Agree(a, b, taken) && Agree(b, c, taken + [i]) && i < |a|
    ensures Agree(a, c, taken) && b[i] == c[i]
  {
    assert i in taken + [i];
    assert forall k | k in taken :: k in taken + [i];
  }

  lemma ColoursGrow(rs: seq<Rect>, st: Parts)
    requires Sound(rs, st) && st.count.first + st.count.second < |rs|
    ensures Untaken(Round(rs, st)) < Untaken(st)
    ensures st.count.first <= Round(rs, st).count.first && st.count.second <= Round(rs, st).count.second
    ensures var c := Choose(rs, st, |rs|);
      c.Choice? && c.index < |rs| && st.part[c.index] == NOT_TAKEN
      && Round(rs, st) == Classify(rs, st, c.index, c.group) && Round(rs, st).part[c.index] == c.group
  {
    SomeUntaken(rs, st);
  }

  lemma FirstRound(rs: seq<Rect>, st: Parts, taken: seq<nat>, part: seq<int>, minFill: int)
    requires Traced(rs, st, taken) && st.count.first > 0 && st.count.second > 0 && RoundsGoOn(st, minFill)
    requires |part| == |rs| && Agree(st.part, part, taken)
    requires Choose(rs, st, |rs|).Choice? && part[Choose(rs, st, |rs|).index] == Choose(rs, st, |rs|).group
    ensures GreedyRound(rs, part, taken, Choose(rs, st, |rs|).index, st.cover, minFill)
  {
    hide Choose, Tight, LeastAround, ComesNext, Members;
    TightIsLeast(rs, st, taken, 0);
    TightIsLeast(rs, st, taken, 1);
    AroundAgree(st.cover.first, rs, st.part, part, taken, 0);
    AroundAgree(st.cover.second, rs, st.part, part, taken, 1);
    MembersAgree(st.part, part, taken, 0);
    MembersAgree(st.part, part, taken, 1);
    ChoiceComesNext(rs, st, taken, part);
  }

  /** The rest: all of it to one side. */
  lemma {:induction false} RestTrace(rs: seq<Rect>, st: Parts, g: Group, n: nat, taken: seq<nat>)
      returns (order: seq<nat>)
    requires Traced(rs, st, taken) && n <= |rs|
    ensures var r := FillRest(rs, st, g, n);
      && Traced(rs, r, order) && Agree(st.part, r.part, taken) && taken <= order
      && forall k | |taken| <= k < |order| :: r.part[order[k]] == g
    decreases n
  {
    hide Tight, Members, Classify, Traced, Agree, Sound;
    TracedLength(rs, st, taken);
    if n == 0 {
      order := taken;
      AgreeWithItself(st, taken, rs);
    } else {
      var front := RestTrace(rs, st, g, n - 1, taken);
      var r := FillRest(rs, st, g, n - 1);
      TracedLength(rs, r, front);
      if r.part[n - 1] == NOT_TAKEN {
        order := RestStep(rs, st, r, g, n - 1, taken, front);
      } else {
        order := front;
      }
    }
  }

  lemma AgreeWithItself(st: Parts, taken: seq<nat>, rs: seq<Rect>)
    requires Traced(rs, st, taken)
    ensures |st.part| == |rs| && InRange(taken, |rs|) && Agree(st.part, st.part, taken)
  {
  }

  lemma RestStep(rs: seq<Rect>, st: Parts, r: Parts, g: Group, i: nat, taken: seq<nat>, front: seq<nat>)
      returns (order: seq<nat>)
    requires Traced(rs, st, taken) && Traced(rs, r, front) && taken <= front && Agree(st.part, r.part, taken)
    requires i < |rs| && r.part[i] == NOT_TAKEN
    requires forall k | |taken| <= k < |front| :: r.part[front[k]] == g
    ensures var r' := Classify(rs, r, i, g);
      && Traced(rs, r', order) && Agree(st.part, r'.part, taken) && taken <= order
      && forall k | |taken| <= k < |order| :: r'.part[order[k]] == g
  {
    hide Tight, Members, Combine;
    TraceStep(rs, r, front, i, g);
    order := front + [i];
    var r' := Classify(rs, r, i, g);
    forall k | k in taken
      ensures st.part[k] == r'.part[k]
    {
      assert k in front;
    }
    forall k | |taken| <= k < |front|
      ensures r'.part[front[k]] == g
    {
      assert front[k] in front;
    }
  }

  // ---------------------------------------------------------------- the outcome

  /** Before anything is coloured. */
  lemma NothingTraced(rs: seq<Rect>, cover: Pair<Rect>)
    ensures Traced(rs, Initial(rs, cover), [])
  {
    var st := Initial(rs, cover);
    Tally(st.part);
    NothingToCover(rs, st, 0);
    NothingToCover(rs, st, 1);
  }

  lemma SeedsTrace(rs: seq<Rect>, cover: Pair<Rect>)
    requires AllProper(rs) && 2 <= |rs|
    ensures var s := PickSeeds(rs); var st := Seeded(rs, cover);
      Traced(rs, st, [s.seed0, s.seed1]) && st.part[s.seed0] == 0 && st.part[s.seed1] == 1
  {
    hide Tight, Members, PickSeeds, Traced;
    SeedsAreWorstPair(rs);
    NothingTraced(rs, cover);
    var s, st := PickSeeds(rs), Initial(rs, cover);
    assert st.part[s.seed0] == NOT_TAKEN && st.part[s.seed1] == NOT_TAKEN;
    TraceStep(rs, st, [], s.seed0, 0);
    assert [] + [s.seed0] == [s.seed0] && [s.seed0] + [s.seed1] == [s.seed0, s.seed1];
    SeedUntaken(rs, st, s.seed0, s.seed1);
    var half := Classify(rs, st, s.seed0, 0);
    TraceStep(rs, half, [s.seed0], s.seed1, 1);
    assert half.part[s.seed0] == 0;
  }

  /** The whole of ChoosePartition, from the seeds over the rounds to the rest. */
  lemma PartitionTrace(rs: seq<Rect>, cover: Pair<Rect>, minFill: nat)
      returns (order: seq<nat>, covers: seq<Pair<Rect>>, stop: nat, rest: Group)
    requires AllProper(rs) && 2 <= |rs| && 1 <= minFill && 2 * minFill <= |rs|
    ensures var st := ChoosePartition(rs, cover, minFill); var s := PickSeeds(rs);
      && Traced(rs, st, order) && |order| == |rs| && 2 <= stop <= |rs|
      && order[0] == s.seed0 && order[1] == s.seed1 && st.part[order[0]] == 0 && st.part[order[1]] == 1
      && GreedyFrom(rs, st.part, order[..stop], 2, covers, minFill)
      && InRange(order[..stop], |rs|)
      && (stop < |rs| ==> Members(st.part, order[..stop], 1 - rest) >= |rs| - minFill)
      && (forall k | stop <= k < |rs| :: st.part[order[k]] == rest)
  {
    hide Tight, Members, PickSeeds, Seeded, Traced, Agree, GreedyFrom, Rounds, FillRest, InRange, Sound;
    SeedsAreWorstPair(rs);
    SeedsTrace(rs, cover);
    var s, seeded := PickSeeds(rs), Seeded(rs, cover);
    var head := [s.seed0, s.seed1];
    order, covers := RoundsTrace(rs, seeded, minFill, head);
    var st, r := ChoosePartition(rs, cover, minFill), Rounds(rs, seeded, minFill);
    stop, rest := |order|, RestGroup(r, minFill);
    var rounds := order;
    TracedLength(rs, seeded, head);
    TracedLength(rs, r, order);
    TracedCounts(rs, r, order);
    if r.count.first + r.count.second < |rs| {
      order := RestTrace(rs, r, rest, |rs|, order);
      TracedLength(rs, st, order);
    } else {
      AgreeWithItself(r, order, rs);
    }
    assert order[..stop] == rounds;
    Outcome(rs, seeded.part, r.part, st.part, head, rounds, covers, minFill);
    PartitionIsBalanced(rs, cover, minFill);
    AllTraced(rs, st, order);
    AgreeAt(seeded.part, st.part, head);
    if stop < |rs| {
      MembersAgree(r.part, st.part, rounds, 1 - rest);
    }
  }

  lemma AgreeAt(a: seq<int>, c: seq<int>, taken: seq<nat>)
    requires |a| == |c| && InRange(taken, |a|) && Agree(a, c, taken)
    ensures forall k | 0 <= k < |taken| :: taken[k] < |a| && a[taken[k]] == c[taken[k]]
  {
  }

  /** Counters of a trace, and the side the rest goes to. */
  lemma TracedCounts(rs: seq<Rect>, st: Parts, taken: seq<nat>)
    requires Traced(rs, st, taken)
    ensures st.count.first + st.count.second == |taken| <= |rs|
    ensures forall g: Group :: st.count.At(g) == Members(st.part, taken, g)
  {
    hide Tight;
    MembersAll(st.part, taken);
    Tally(st.part);
  }

  lemma {:induction false} MembersAll(part: seq<int>, taken: seq<nat>)
    requires InRange(taken, |part|) && forall i | i in taken :: part[i] == 0 || part[i] == 1
    ensures Members(part, taken, 0) + Members(part, taken, 1) == |taken|
    decreases |taken|
  {
    if taken != [] {
      var n := |taken| - 1;
      assert taken[n] in taken && forall i | i in taken[..n] :: i in taken;
      MembersAll(part, taken[..n]);
    }
  }

  /** The last colours are those of the rounds, and those of the seeds. */
  lemma Outcome(rs: seq<Rect>, a: seq<int>, b: seq<int>, c: seq<int>, head: seq<nat>, rounds: seq<nat>,
                covers: seq<Pair<Rect>>, minFill: int)
    requires |a| == |b| == |c| == |rs| && InRange(head, |rs|) && InRange(rounds, |rs|) && head <= rounds
    requires Agree(a, b, head) && Agree(b, c, rounds) && GreedyFrom(rs, b, rounds, |head|, covers, minFill)
    ensures Agree(a, c, head) && GreedyFrom(rs, c, rounds, |head|, covers, minFill)
  {
    hide GreedyRound;
    assert forall i | i in head :: i in rounds;
    forall k | |head| <= k < |rounds|
      ensures InRange(rounds[..k], |rs|) && rounds[k] < |rs|
      ensures GreedyRound(rs, c, rounds[..k], rounds[k], covers[k - |head|], minFill)
    {
      assert rounds[k] in rounds && forall i | i in rounds[..k] :: i in rounds;
      RoundAgree(rs, b, c, rounds[..k], rounds[k], covers[k - |head|], minFill);
    }
  }

  /** A trace of a full colouring lists every branch. */
  lemma AllTraced(rs: seq<Rect>, st: Parts, order: seq<nat>)
    requires Traced(rs, st, order) && st.count.first + st.count.second == |rs|
    ensures |order| == |rs|
  {
    hide Tight;
    TracedCounts(rs, st, order);
  }

  /** The worst pair ends up on different sides; volumes are those of the boxes. */
  lemma WorstPairIsParted(rs: seq<Rect>) returns (a: nat, b: nat)
    requires AllProper(rs) && |rs| == MAX + 1
    ensures a < b < |rs| && Partition(rs)[a] == 0 && Partition(rs)[b] == 1
    ensures forall i: nat, j: nat | i < j < |rs| ::
              Volume(Combine(rs[i], rs[j])) - Volume(rs[i]) - Volume(rs[j])
                <= Volume(Combine(rs[a], rs[b])) - Volume(rs[a]) - Volume(rs[b])
    ensures forall i: nat, j: nat | i < j < |rs| && (i < a || (i == a && j < b)) ::
              Volume(Combine(rs[i], rs[j])) - Volume(rs[i]) - Volume(rs[j])
                < Volume(Combine(rs[a], rs[b])) - Volume(rs[a]) - Volume(rs[b])
  {
    hide Volume, Combine, PickSeeds, ChoosePartition, Members, Traced, GreedyFrom, InRange, Waste;
    var order, covers, stop, rest := PartitionTrace(rs, Pair(rs[0], rs[0]), MIN);
    SeedsAreWorstPair(rs);
    a, b := PickSeeds(rs).seed0, PickSeeds(rs).seed1;
    WasteByVolume(rs);
  }

  lemma WasteByVolume(rs: seq<Rect>)
    ensures forall i: nat, j: nat | i < j < |rs| ::
              Volume(Combine(rs[i], rs[j])) - Volume(rs[i]) - Volume(rs[j]) == Waste(rs, i, j)
  {
    hide Volume, Combine;
  }

  /**
    The whole split of a full node by its outcome.  `order` lists all branches, first the worst
    pair to different sides.  Up to `stop` each next one is the one that leans most to either
    least box of those before it, ties included, and goes where it leans; the least boxes are
    `covers`.  When one side has all but the minimum, the others go to the other side.
   */
  lemma SplitOutcome(rs: seq<Rect>) returns (order: seq<nat>, covers: seq<Pair<Rect>>, stop: nat, rest: Group)
    requires AllProper(rs) && |rs| == MAX + 1
    ensures |order| == |rs| && InRange(order, |rs|) && Distinct(order) && 2 <= stop <= |rs| && |covers| == stop - 2
    ensures order[0] < order[1] && Partition(rs)[order[0]] == 0 && Partition(rs)[order[1]] == 1
    ensures forall k | 2 <= k < stop :: InRange(order[..k], |rs|)
                                     && GreedyRound(rs, Partition(rs), order[..k], order[k], covers[k - 2], MIN)
    ensures forall k | 2 <= k < stop ::
              var b, c := rs[order[k]], covers[k - 2];
              (Partition(rs)[order[k]] == 0
               <==> Volume(Combine(b, c.first)) - Volume(c.first) <= Volume(Combine(b, c.second)) - Volume(c.second))
    ensures InRange(order[..stop], |rs|)
    ensures stop < |rs| ==> Members(Partition(rs), order[..stop], 1 - rest) >= MAX + 1 - MIN
    ensures forall k | stop <= k < |rs| :: Partition(rs)[order[k]] == rest
  {
    hide Volume, Combine, PickSeeds, ChoosePartition, Members, LeastAround, LeansMost, Ousts, Tight;
    order, covers, stop, rest := PartitionTrace(rs, Pair(rs[0], rs[0]), MIN);
    SeedsAreWorstPair(rs);
    var done := order[..stop];
    forall k | 2 <= k < stop
      ensures InRange(order[..k], |rs|) && GreedyRound(rs, Partition(rs), order[..k], order[k], covers[k - 2], MIN)
    {
      assert done[..k] == order[..k] && done[k] == order[k];
    }
  }

  /** What a round takes makes a difference within one tolerance of the largest, by volumes of boxes. */
  lemma RoundIsNearStrongest(rs: seq<Rect>, part: seq<int>, taken: seq<nat>, i: nat, c: Pair<Rect>, minFill: int,
                             j: nat)
    requires |part| == |rs| && InRange(taken, |rs|) && i < |rs| && GreedyRound(rs, part, taken, i, c, minFill)
    requires j < |rs| && j !in taken
    ensures var x := (Volume(Combine(rs[i], c.first)) - Volume(c.first))
                     - (Volume(Combine(rs[i], c.second)) - Volume(c.second));
      var y := (Volume(Combine(rs[j], c.first)) - Volume(c.first))
               - (Volume(Combine(rs[j], c.second)) - Volume(c.second));
      && (part[i] == 0 ==> x <= 0.0) && (part[i] == 1 ==> x > 0.0)
      && -(if x < 0.0 then -x else x) - ZERO_TOLERANCE < y < (if x < 0.0 then -x else x) + ZERO_TOLERANCE
  {
    hide Volume, Combine, Members, LeastAround;
    var f: nat :| f < |rs| && LeansMost(rs, taken, f, c.first, c.second)
      && (if i == f then forall k: nat | f < k < |rs| && k !in taken :: !Ousts(rs, part, taken, k, f, c.first, c.second)
          else
            && f < i && Ousts(rs, part, taken, i, f, c.first, c.second)
            && forall k: nat | f < k < i && k !in taken :: !Ousts(rs, part, taken, k, f, c.first, c.second));
    assert Abs(Lean(rs[j], c.first, c.second)) <= Abs(Lean(rs[f], c.first, c.second));
  }

  // ---------------------------------------------------------------- the two nodes

  /** A branch of colour `g` has as many before it in its node as have that colour before it. */
  lemma {:induction false} SelectedAt<T>(items: seq<T>, part: seq<int>, g: int, n: nat, i: nat)
    requires i < n <= |items| == |part| && part[i] == g
    ensures multiset(part[..i])[g] < |I.Select(items, part, g, n)|
    ensures I.Select(items, part, g, n)[multiset(part[..i])[g]] == items[i]
    decreases n
  {
    assert part[..n] == part[..n - 1] + [part[n - 1]];
    if i < n - 1 {
      SelectedAt(items, part, g, n - 1, i);
    }
  }

  /** Every branch of a full node and the new one is found in the node of its colour, at its place. */
  lemma SplitNodes(t: Tree, it: Item, i: nat)
    requires Body(t) && ItemOk(it, t.level) && |t.items| == MAX && i <= MAX
    ensures AllProper(RectsOf(t.items + [it]))
    ensures var all := t.items + [it]; var part := Partition(RectsOf(all)); var g := I.AddItem(t, it);
      && g.Halves? && g.t.level == g.other.level == t.level
      && |g.t.items| == multiset(part)[0] && |g.other.items| == multiset(part)[1]
      && (part[i] == 0 ==> multiset(part[..i])[0] < |g.t.items| && g.t.items[multiset(part[..i])[0]] == all[i])
      && (part[i] == 1 ==> multiset(part[..i])[1] < |g.other.items| && g.other.items[multiset(part[..i])[1]] == all[i])
  {
    hide Partition;
    var all := t.items + [it];
    assert AllOk(all, t.level);
    I.AllOkSplittable(all, t.level);
    var part := Partition(RectsOf(all));
    assert part[..|part|] == part;
    if part[i] == 0 {
      SelectedAt(all, part, 0, |all|, i);
    } else if part[i] == 1 {
      SelectedAt(all, part, 1, |all|, i);
    }
  }
}
