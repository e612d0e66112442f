/** The allocation rules of js/optimizer.js as values: the greedy pass of
    greedyAllocate (js/optimizer.js:180-265) and the swap search of
    localOptimize (js/optimizer.js:271-314). The class Optimizer runs them
    in place and is proved equal to these definitions.

    Both passes look scored nodes up by the key of the node table and test
    that key against a set seeded with the ids of the nodes already
    allocated. A node whose table key differs from its id therefore escapes
    the test. A `Candidate` carries the name it is tested by: its key for
    the code as written (`CandidatesByKey`), its node id for the intended
    behaviour (`Candidates`). */
module Allocation {
  import opened Basics
  import opened Tree
  import opened Scoring
  import opened Sorting

  /** One element of the allocated list: the node's fields, its score and
      whether the configuration required it. */
  datatype Entry = Entry(node: Node, score: real, required: bool)

  /** A scored node offered to the allocator: the name it is tested against
      the allocated ids by (and added to them by), the node and its total
      score. */
  datatype Candidate = Candidate(ident: string, node: Node, score: real)

  function TotalScore(config: Config, n: Node): real {
    ScoreNode(config, n).total
  }

  /** The node stored under the i-th key. */
  function NodeAt(all: Table, i: int): Node
    requires WellFormed(all) && 0 <= i < |all.keys|
  {
    assert all.keys[i] in all.keys;
    all.nodes[all.keys[i]]
  }

  /** The scored nodes in key order, each tested by its table key, as the
      source does. */
  function CandidatesByKey(config: Config, all: Table): (r: seq<Candidate>)
    requires WellFormed(all)
    ensures |r| == |all.keys|
  {
    seq(|all.keys|, i requires 0 <= i < |all.keys| =>
      Candidate(all.keys[i], NodeAt(all, i), TotalScore(config, NodeAt(all, i))))
  }

  /** The scored nodes in key order, each tested by its node id. */
  function Candidates(config: Config, all: Table): (r: seq<Candidate>)
    requires WellFormed(all)
    ensures |r| == |all.keys|
    ensures forall i :: 0 <= i < |r| ==> r[i].ident == r[i].node.id
  {
    seq(|all.keys|, i requires 0 <= i < |all.keys| =>
      Candidate(NodeAt(all, i).id, NodeAt(all, i), TotalScore(config, NodeAt(all, i))))
  }

  /** The candidates under reading `rd`: tested by key as written, by id
      as intended. */
  function CandidatesFor(rd: Reading, config: Config, all: Table): (r: seq<Candidate>)
    requires WellFormed(all)
    ensures |r| == |all.keys|
  {
    match rd
    case AsWritten => CandidatesByKey(config, all)
    case Intended => Candidates(config, all)
  }

  /** Every node is stored under its own id. */
  ghost predicate KeyedById(all: Table) {
    forall k :: k in all.keys ==> k in all.nodes && all.nodes[k].id == k
  }

  /** Where keys are ids, the code as written tests the right names. */
  lemma KeyedByIdSameCandidates(config: Config, all: Table)
    requires WellFormed(all) && KeyedById(all)
    ensures CandidatesByKey(config, all) == Candidates(config, all)
  {
    var a, b := CandidatesByKey(config, all), Candidates(config, all);
    forall i | 0 <= i < |a|
      ensures a[i] == b[i]
    {
      assert all.keys[i] in all.keys;
    }
  }

  // ---------------------------------------------------------------------
  // Entry lists

  /** The ids of an allocated list: `new Set(allocatedNodes.map(n => n.id))`. */
  function IdsOf(es: seq<Entry>): (r: set<string>)
    ensures forall i :: 0 <= i < |es| ==> es[i].node.id in r
    decreases |es|
  {
    if |es| == 0 then {}
    else IdsOf(es[..|es| - 1]) + {es[|es| - 1].node.id}
  }

  /** IdsOf holds the ids of the list and nothing else. */
  lemma {:induction false} IdsOfExactly(es: seq<Entry>, x: string)
    ensures x in IdsOf(es) <==> exists i :: 0 <= i < |es| && es[i].node.id == x
    decreases |es|
  {
    if |es| > 0 {
      var init := es[..|es| - 1];
      IdsOfExactly(init, x);
      if x in IdsOf(init) {
        var i :| 0 <= i < |init| && init[i].node.id == x;
        assert es[i].node.id == x;
      }
    }
  }

  lemma IdsOfAppend(es: seq<Entry>, e: Entry)
    ensures IdsOf(es + [e]) == IdsOf(es) + {e.node.id}
  {
    assert (es + [e])[..|es|] == es;
  }

  /** No id occurs twice. */
  predicate UniqueIds(es: seq<Entry>) {
    forall i, j :: 0 <= i < j < |es| ==> es[i].node.id != es[j].node.id
  }

  /** The number of entries that satisfy `p`. */
  function Count(es: seq<Entry>, p: Entry -> bool): (n: nat)
    ensures n <= |es|
    decreases |es|
  {
    if |es| == 0 then 0
    else Count(es[..|es| - 1], p) + (if p(es[|es| - 1]) then 1 else 0)
  }

  lemma CountAppend(es: seq<Entry>, e: Entry, p: Entry -> bool)
    ensures Count(es + [e], p) == Count(es, p) + (if p(e) then 1 else 0)
  {
    assert (es + [e])[..|es|] == es;
  }

  /** A keystone with more offense than defense. */
  predicate OffensiveKeystone(e: Entry) {
    e.node.kind == Keystone && e.node.offense > e.node.defense
  }

  /** Any other keystone. */
  predicate DefensiveKeystone(e: Entry) {
    e.node.kind == Keystone && !(e.node.offense > e.node.defense)
  }

  predicate IsNotable(e: Entry) {
    e.node.kind == Notable
  }

  // ---------------------------------------------------------------------
  // The greedy pass

  /** The candidates whose name is not yet allocated, in order. */
  function Unallocated(cs: seq<Candidate>, ids: set<string>): (r: seq<Candidate>)
    ensures forall c :: c in r <==> c in cs && c.ident !in ids
    decreases |cs|
  {
    if |cs| == 0 then []
    else
      var init, last := cs[..|cs| - 1], cs[|cs| - 1];
      assert forall c :: c in cs <==> c in init || c == last;
      Unallocated(init, ids) + (if last.ident !in ids then [last] else [])
  }

  /** The candidates of one node type, in order. */
  function OfKind(cs: seq<Candidate>, kind: NodeType): (r: seq<Candidate>)
    ensures forall c :: c in r <==> c in cs && c.node.kind == kind
    decreases |cs|
  {
    if |cs| == 0 then []
    else
      var init, last := cs[..|cs| - 1], cs[|cs| - 1];
      assert forall c :: c in cs <==> c in init || c == last;
      OfKind(init, kind) + (if last.node.kind == kind then [last] else [])
  }

  function NoRank(c: Candidate): int {
    0
  }

  function ScoreOf(c: Candidate): real {
    c.score
  }

  /** The candidates by descending score, ties in their original order. */
  function ByScore(cs: seq<Candidate>): (r: seq<Candidate>)
    ensures forall i, j :: 0 <= i < j < |r| ==> r[i].score >= r[j].score
    ensures multiset(r) == multiset(cs)
  {
    var r := SortBy(cs, NoRank, ScoreOf);
    assert forall i, j :: 0 <= i < j < |r| ==> InOrder(NoRank, ScoreOf, r[i], r[j]);
    r
  }

  /** The variables of greedyAllocate: the entries it appended, the
      allocated names, the points left and the three quota counters. */
  datatype GState = GState(
    added: seq<Entry>,
    ids: set<string>,
    remaining: int,
    offK: int,
    defK: int,
    notK: int)

  /** Which of the three loops is running, with its targets. */
  datatype Phase =
    | KeystonePhase(offenseTarget: int, defenseTarget: int)
    | NotablePhase(target: int)
    | SmallPhase

  function Add(st: GState, c: Candidate): GState {
    st.(added := st.added + [Entry(c.node, c.score, false)],
        ids := st.ids + {c.ident},
        remaining := st.remaining - 1)
  }

  /** One candidate handled by the loop of the phase: skipped when no
      points remain or its name is allocated, otherwise taken when the
      phase's quota and score threshold allow. */
  function Step(st: GState, c: Candidate, ph: Phase): (r: GState)
    ensures r == st ||
            (st.remaining > 0 && c.ident !in st.ids &&
             r.added == st.added + [Entry(c.node, c.score, false)] &&
             r.ids == st.ids + {c.ident} && r.remaining == st.remaining - 1)
  {
    if st.remaining <= 0 || c.ident in st.ids then st
    else match ph
      case KeystonePhase(ot, dt) =>
        if c.node.offense > c.node.defense then
          if st.offK < ot then Add(st, c).(offK := st.offK + 1) else st
        else if st.defK < dt then Add(st, c).(defK := st.defK + 1) else st
      case NotablePhase(target) =>
        if st.notK >= target || c.score < 3.0 then st else Add(st, c).(notK := st.notK + 1)
      case SmallPhase =>
        if c.score < 1.0 then st else Add(st, c)
  }

  /** The loop of a phase over `cs`, in order. */
  function Fold(st: GState, cs: seq<Candidate>, ph: Phase): GState
    decreases |cs|
  {
    if |cs| == 0 then st
    else Step(Fold(st, cs[..|cs| - 1], ph), cs[|cs| - 1], ph)
  }

  lemma FoldStep(st: GState, cs: seq<Candidate>, ph: Phase, i: int)
    requires 0 <= i < |cs|
    ensures Fold(st, cs[..i + 1], ph) == Step(Fold(st, cs[..i], ph), cs[i], ph)
  {
    assert cs[..i + 1][..i] == cs[..i];
  }

  /** Math.ceil(3 * offenseWeight). */
  function OffenseTarget(offenseWeight: real): int {
    Ceil(3.0 * offenseWeight)
  }

  /** Math.floor(pointsRemaining * 0.35). */
  function NotableTarget(remaining: int): int {
    Floor(remaining as real * 0.35)
  }

  /** The candidates greedyAllocate walks: those whose name is not yet
      allocated, by descending score, ties in key order. */
  function Pool(cands: seq<Candidate>, ids0: set<string>): (r: seq<Candidate>)
    ensures forall c :: c in r ==> c in cands && c.ident !in ids0
    ensures forall i, j :: 0 <= i < j < |r| ==> r[i].score >= r[j].score
    ensures multiset(r) == multiset(Unallocated(cands, ids0))
  {
    var r := ByScore(Unallocated(cands, ids0));
    assert forall c :: c in r ==> c in multiset(Unallocated(cands, ids0));
    r
  }

  /** The state greedyAllocate starts from. */
  function Start(ids0: set<string>, budget: int): GState {
    GState([], ids0, budget, 0, 0, 0)
  }

  /** The keystone loop, with its offense and defense targets. */
  function KeystoneLoop(st: GState, pool: seq<Candidate>, offenseWeight: real): GState {
    var ot := OffenseTarget(offenseWeight);
    Fold(st, OfKind(pool, Keystone), KeystonePhase(ot, 3 - ot))
  }

  /** The notable loop, its target taken from the points left. */
  function NotableLoop(st: GState, pool: seq<Candidate>): GState {
    Fold(st, OfKind(pool, Notable), NotablePhase(NotableTarget(st.remaining)))
  }

  function SmallLoop(st: GState, pool: seq<Candidate>): GState {
    Fold(st, OfKind(pool, Small), SmallPhase)
  }

  /** The state after the keystone loop. */
  function AfterKeystones(cands: seq<Candidate>, ids0: set<string>, budget: int, offenseWeight: real): GState {
    KeystoneLoop(Start(ids0, budget), Pool(cands, ids0), offenseWeight)
  }

  /** greedyAllocate: the final state; `added` is what it appends to the
      allocated list whose ids are `ids0`, with `budget` points. */
  function Greedy(cands: seq<Candidate>, ids0: set<string>, budget: int, offenseWeight: real): GState {
    var pool := Pool(cands, ids0);
    SmallLoop(NotableLoop(AfterKeystones(cands, ids0, budget, offenseWeight), pool), pool)
  }

  // ----- budget

  /** A loop only appends, one entry per point spent, and never spends
      below zero. */
  lemma {:induction false} FoldBudget(st: GState, cs: seq<Candidate>, ph: Phase)
    ensures var r := Fold(st, cs, ph);
            |st.added| <= |r.added| && r.added[..|st.added|] == st.added &&
            r.remaining == st.remaining - (|r.added| - |st.added|) &&
            (st.remaining >= 0 ==> r.remaining >= 0) &&
            (st.remaining <= 0 ==> r == st)
    decreases |cs|
  {
    if |cs| > 0 {
      var prev := Fold(st, cs[..|cs| - 1], ph);
      FoldBudget(st, cs[..|cs| - 1], ph);
      var r := Step(prev, cs[|cs| - 1], ph);
      if r != prev {
        assert r.added[..|prev.added|] == prev.added;
        assert r.added[..|st.added|] == prev.added[..|st.added|];
      }
    }
  }

  lemma KeystoneLoopBudget(st: GState, pool: seq<Candidate>, offenseWeight: real)
    ensures var r := KeystoneLoop(st, pool, offenseWeight);
            r.remaining == st.remaining - (|r.added| - |st.added|) &&
            (st.remaining >= 0 ==> r.remaining >= 0) && (st.remaining <= 0 ==> r == st)
  {
    var ot := OffenseTarget(offenseWeight);
    FoldBudget(st, OfKind(pool, Keystone), KeystonePhase(ot, 3 - ot));
  }

  lemma NotableLoopBudget(st: GState, pool: seq<Candidate>)
    ensures var r := NotableLoop(st, pool);
            r.remaining == st.remaining - (|r.added| - |st.added|) &&
            (st.remaining >= 0 ==> r.remaining >= 0) && (st.remaining <= 0 ==> r == st)
  {
    FoldBudget(st, OfKind(pool, Notable), NotablePhase(NotableTarget(st.remaining)));
  }

  lemma SmallLoopBudget(st: GState, pool: seq<Candidate>)
    ensures var r := SmallLoop(st, pool);
            r.remaining == st.remaining - (|r.added| - |st.added|) &&
            (st.remaining >= 0 ==> r.remaining >= 0) && (st.remaining <= 0 ==> r == st)
  {
    FoldBudget(st, OfKind(pool, Small), SmallPhase);
  }

  /** greedyAllocate appends at most `budget` entries, and nothing when
      the budget is not positive. */
  lemma GreedyBudget(cands: seq<Candidate>, ids0: set<string>, budget: int, offenseWeight: real)
    ensures |Greedy(cands, ids0, budget, offenseWeight).added| <= Max(0, budget)
    ensures budget <= 0 ==> Greedy(cands, ids0, budget, offenseWeight).added == []
  {
    var pool := Pool(cands, ids0);
    var st0 := Start(ids0, budget);
    var st1 := KeystoneLoop(st0, pool, offenseWeight);
    var st2 := NotableLoop(st1, pool);
    KeystoneLoopBudget(st0, pool, offenseWeight);
    NotableLoopBudget(st1, pool);
    SmallLoopBudget(st2, pool);
    assert Greedy(cands, ids0, budget, offenseWeight) == SmallLoop(st2, pool);
  }

  // ----- names

  /** The appended entries have distinct ids, none already allocated, and
      the allocated names are exactly the starting ones and theirs. */
  ghost predicate Tracked(st: GState, ids0: set<string>) {
    st.ids == ids0 + IdsOf(st.added) && UniqueIds(st.added) &&
    forall i :: 0 <= i < |st.added| ==> st.added[i].node.id !in ids0
  }

  lemma StepTracked(st: GState, c: Candidate, ph: Phase, ids0: set<string>)
    requires Tracked(st, ids0) && c.ident == c.node.id
    ensures Tracked(Step(st, c, ph), ids0)
  {
    var r := Step(st, c, ph);
    if r != st {
      IdsOfAppend(st.added, Entry(c.node, c.score, false));
      assert forall i :: 0 <= i < |st.added| ==> st.added[i].node.id in IdsOf(st.added);
    }
  }

  lemma {:induction false} FoldTracked(st: GState, cs: seq<Candidate>, ph: Phase, ids0: set<string>)
    requires Tracked(st, ids0)
    requires forall c :: c in cs ==> c.ident == c.node.id
    ensures Tracked(Fold(st, cs, ph), ids0)
    decreases |cs|
  {
    if |cs| > 0 {
      FoldTracked(st, cs[..|cs| - 1], ph, ids0);
      StepTracked(Fold(st, cs[..|cs| - 1], ph), cs[|cs| - 1], ph, ids0);
    }
  }

  /** Where every candidate is named by its node id, so is every candidate
      of one type taken from the pool. */
  lemma PoolNamedById(cands: seq<Candidate>, ids0: set<string>, kind: NodeType)
    requires forall c :: c in cands ==> c.ident == c.node.id
    ensures forall c :: c in OfKind(Pool(cands, ids0), kind) ==> c.ident == c.node.id
  {
  }

  lemma KeystoneLoopTracked(st: GState, pool: seq<Candidate>, offenseWeight: real, ids0: set<string>)
    requires Tracked(st, ids0)
    requires forall c :: c in OfKind(pool, Keystone) ==> c.ident == c.node.id
    ensures Tracked(KeystoneLoop(st, pool, offenseWeight), ids0)
  {
    var ot := OffenseTarget(offenseWeight);
    FoldTracked(st, OfKind(pool, Keystone), KeystonePhase(ot, 3 - ot), ids0);
  }

  lemma NotableLoopTracked(st: GState, pool: seq<Candidate>, ids0: set<string>)
    requires Tracked(st, ids0)
    requires forall c :: c in OfKind(pool, Notable) ==> c.ident == c.node.id
    ensures Tracked(NotableLoop(st, pool), ids0)
  {
    FoldTracked(st, OfKind(pool, Notable), NotablePhase(NotableTarget(st.remaining)), ids0);
  }

  lemma SmallLoopTracked(st: GState, pool: seq<Candidate>, ids0: set<string>)
    requires Tracked(st, ids0)
    requires forall c :: c in OfKind(pool, Small) ==> c.ident == c.node.id
    ensures Tracked(SmallLoop(st, pool), ids0)
  {
    FoldTracked(st, OfKind(pool, Small), SmallPhase, ids0);
  }

  /** Candidates tested by their node id: greedyAllocate appends no id
      twice and no id that was allocated before it ran. */
  lemma GreedyUnique(cands: seq<Candidate>, ids0: set<string>, budget: int, offenseWeight: real)
    requires forall c :: c in cands ==> c.ident == c.node.id
    ensures var added := Greedy(cands, ids0, budget, offenseWeight).added;
            UniqueIds(added) && forall i :: 0 <= i < |added| ==> added[i].node.id !in ids0
  {
    var pool := Pool(cands, ids0);
    var st0 := Start(ids0, budget);
    var st1 := KeystoneLoop(st0, pool, offenseWeight);
    var st2 := NotableLoop(st1, pool);
    PoolNamedById(cands, ids0, Keystone);
    PoolNamedById(cands, ids0, Notable);
    PoolNamedById(cands, ids0, Small);
    assert Tracked(st0, ids0);
    KeystoneLoopTracked(st0, pool, offenseWeight, ids0);
    NotableLoopTracked(st1, pool, ids0);
    SmallLoopTracked(st2, pool, ids0);
    assert Greedy(cands, ids0, budget, offenseWeight) == SmallLoop(st2, pool);
  }

  /** The greedy pass over the scored node table, tested by node id. */
  lemma GreedyTableUnique(config: Config, all: Table, ids0: set<string>, budget: int)
    requires WellFormed(all)
    ensures var added := Greedy(Candidates(config, all), ids0, budget, config.offenseWeight).added;
            UniqueIds(added) && forall i :: 0 <= i < |added| ==> added[i].node.id !in ids0
  {
    var cands := Candidates(config, all);
    assert forall c :: c in cands ==> c.ident == c.node.id;
    GreedyUnique(cands, ids0, budget, config.offenseWeight);
  }

  // ----- quotas

  /** The counters of the keystone loop count the keystones appended, and
      stay within their targets. */
  ghost predicate KeystoneQuota(st: GState, ot: int, dt: int) {
    st.offK == Count(st.added, OffensiveKeystone) && st.defK == Count(st.added, DefensiveKeystone) &&
    st.offK <= Max(0, ot) && st.defK <= Max(0, dt) && st.notK == 0 && Count(st.added, IsNotable) == 0 &&
    forall i :: 0 <= i < |st.added| ==> st.added[i].node.kind == Keystone
  }

  lemma {:induction false} FoldKeystoneQuota(st: GState, cs: seq<Candidate>, ot: int, dt: int)
    requires KeystoneQuota(st, ot, dt)
    requires forall c :: c in cs ==> c.node.kind == Keystone
    ensures KeystoneQuota(Fold(st, cs, KeystonePhase(ot, dt)), ot, dt)
    decreases |cs|
  {
    if |cs| > 0 {
      var ph := KeystonePhase(ot, dt);
      var prev := Fold(st, cs[..|cs| - 1], ph);
      FoldKeystoneQuota(st, cs[..|cs| - 1], ot, dt);
      var c := cs[|cs| - 1];
      if Step(prev, c, ph) != prev {
        var e := Entry(c.node, c.score, false);
        CountAppend(prev.added, e, OffensiveKeystone);
        CountAppend(prev.added, e, DefensiveKeystone);
        CountAppend(prev.added, e, IsNotable);
      }
    }
  }

  /** The notable counter counts the notables appended and stays within
      the target; every notable appended scores at least 3; the keystone
      counts do not change. */
  ghost predicate NotableQuota(st: GState, target: int, offK: int, defK: int) {
    st.notK == Count(st.added, IsNotable) && st.notK <= Max(0, target) &&
    Count(st.added, OffensiveKeystone) == offK && Count(st.added, DefensiveKeystone) == defK &&
    forall i :: 0 <= i < |st.added| ==>
      st.added[i].node.kind != Small && (st.added[i].node.kind == Notable ==> st.added[i].score >= 3.0)
  }

  lemma {:induction false} FoldNotableQuota(st: GState, cs: seq<Candidate>, target: int, offK: int, defK: int)
    requires NotableQuota(st, target, offK, defK)
    requires forall c :: c in cs ==> c.node.kind == Notable
    ensures NotableQuota(Fold(st, cs, NotablePhase(target)), target, offK, defK)
    decreases |cs|
  {
    if |cs| > 0 {
      var ph := NotablePhase(target);
      var prev := Fold(st, cs[..|cs| - 1], ph);
      FoldNotableQuota(st, cs[..|cs| - 1], target, offK, defK);
      var c := cs[|cs| - 1];
      if Step(prev, c, ph) != prev {
        var e := Entry(c.node, c.score, false);
        CountAppend(prev.added, e, OffensiveKeystone);
        CountAppend(prev.added, e, DefensiveKeystone);
        CountAppend(prev.added, e, IsNotable);
      }
    }
  }

  /** The small loop appends only small nodes scoring at least 1. */
  ghost predicate SmallQuota(st: GState, offK: int, defK: int, notK: int) {
    Count(st.added, OffensiveKeystone) == offK && Count(st.added, DefensiveKeystone) == defK &&
    Count(st.added, IsNotable) == notK &&
    forall i :: 0 <= i < |st.added| ==>
      (st.added[i].node.kind == Notable ==> st.added[i].score >= 3.0) &&
      (st.added[i].node.kind == Small ==> st.added[i].score >= 1.0)
  }

  lemma {:induction false} FoldSmallQuota(st: GState, cs: seq<Candidate>, offK: int, defK: int, notK: int)
    requires SmallQuota(st, offK, defK, notK)
    requires forall c :: c in cs ==> c.node.kind == Small
    ensures SmallQuota(Fold(st, cs, SmallPhase), offK, defK, notK)
    decreases |cs|
  {
    if |cs| > 0 {
      var prev := Fold(st, cs[..|cs| - 1], SmallPhase);
      FoldSmallQuota(st, cs[..|cs| - 1], offK, defK, notK);
      var c := cs[|cs| - 1];
      if Step(prev, c, SmallPhase) != prev {
        var e := Entry(c.node, c.score, false);
        CountAppend(prev.added, e, OffensiveKeystone);
        CountAppend(prev.added, e, DefensiveKeystone);
        CountAppend(prev.added, e, IsNotable);
      }
    }
  }

  lemma KeystoneLoopQuota(st: GState, pool: seq<Candidate>, offenseWeight: real)
    requires var ot := OffenseTarget(offenseWeight); KeystoneQuota(st, ot, 3 - ot)
    ensures var ot := OffenseTarget(offenseWeight); KeystoneQuota(KeystoneLoop(st, pool, offenseWeight), ot, 3 - ot)
  {
    var ot := OffenseTarget(offenseWeight);
    FoldKeystoneQuota(st, OfKind(pool, Keystone), ot, 3 - ot);
  }

  lemma NotableLoopQuota(st: GState, pool: seq<Candidate>, ot: int, dt: int)
    requires KeystoneQuota(st, ot, dt)
    ensures NotableQuota(NotableLoop(st, pool), NotableTarget(st.remaining), st.offK, st.defK)
  {
    var target := NotableTarget(st.remaining);
    assert NotableQuota(st, target, st.offK, st.defK);
    FoldNotableQuota(st, OfKind(pool, Notable), target, st.offK, st.defK);
  }

  lemma SmallLoopQuota(st: GState, pool: seq<Candidate>, target: int, offK: int, defK: int)
    requires NotableQuota(st, target, offK, defK)
    ensures SmallQuota(SmallLoop(st, pool), offK, defK, st.notK)
  {
    assert SmallQuota(st, offK, defK, st.notK);
    FoldSmallQuota(st, OfKind(pool, Small), offK, defK, st.notK);
  }

  /** The quotas of greedyAllocate: at most ceil(3 * offenseWeight)
      offensive keystones, at most 3 minus that many other keystones, at
      most floor(0.35 * points left after the keystones) notables, each
      scoring at least 3, and only small nodes scoring at least 1. */
  lemma GreedyQuotas(cands: seq<Candidate>, ids0: set<string>, budget: int, offenseWeight: real)
    ensures var ot := OffenseTarget(offenseWeight);
            var added := Greedy(cands, ids0, budget, offenseWeight).added;
            Count(added, OffensiveKeystone) <= Max(0, ot) &&
            Count(added, DefensiveKeystone) <= Max(0, 3 - ot) &&
            Count(added, IsNotable) <= Max(0, NotableTarget(AfterKeystones(cands, ids0, budget, offenseWeight).remaining)) &&
            forall i :: 0 <= i < |added| ==>
              (added[i].node.kind == Notable ==> added[i].score >= 3.0) &&
              (added[i].node.kind == Small ==> added[i].score >= 1.0)
  {
    var pool := Pool(cands, ids0);
    var ot := OffenseTarget(offenseWeight);
    var st1 := AfterKeystones(cands, ids0, budget, offenseWeight);
    var st2 := NotableLoop(st1, pool);
    KeystoneLoopQuota(Start(ids0, budget), pool, offenseWeight);
    NotableLoopQuota(st1, pool, ot, 3 - ot);
    SmallLoopQuota(st2, pool, NotableTarget(st1.remaining), st1.offK, st1.defK);
    assert Greedy(cands, ids0, budget, offenseWeight) == SmallLoop(st2, pool);
  }

  /** With 0 <= offenseWeight <= 1 greedyAllocate appends at most three
      keystones. */
  lemma GreedyKeystones(cands: seq<Candidate>, ids0: set<string>, budget: int, offenseWeight: real)
    requires 0.0 <= offenseWeight <= 1.0
    ensures var added := Greedy(cands, ids0, budget, offenseWeight).added;
            Count(added, OffensiveKeystone) + Count(added, DefensiveKeystone) <= 3
  {
    GreedyQuotas(cands, ids0, budget, offenseWeight);
    var ot := OffenseTarget(offenseWeight);
    assert 0 <= ot <= 3;
  }

  // ---------------------------------------------------------------------
  // Local search

  /** localOptimize's first loop over es[..n]: the index of the first
      non-required entry with the least score, if any. */
  function LowestIn(es: seq<Entry>, n: nat): (r: Option<nat>)
    requires n <= |es|
    ensures r.Some? ==> r.value < n
  {
    if n == 0 then None
    else
      var prev := LowestIn(es, n - 1);
      if !es[n - 1].required && (prev.None? || es[n - 1].score < es[prev.value].score) then Some(n - 1)
      else prev
  }

  /** LowestIn finds the first strict minimum by score among the entries
      that were not required, and finds none only when all of them were. */
  lemma {:induction false} LowestInSpec(es: seq<Entry>, n: nat)
    requires n <= |es|
    ensures var r := LowestIn(es, n);
            (r.None? <==> forall j :: 0 <= j < n ==> es[j].required) &&
            (r.Some? ==>
              !es[r.value].required &&
              (forall j :: 0 <= j < n && !es[j].required ==> es[r.value].score <= es[j].score) &&
              (forall j :: 0 <= j < r.value && !es[j].required ==> es[r.value].score < es[j].score))
  {
    if n > 0 {
      LowestInSpec(es, n - 1);
    }
  }

  /** A candidate may replace an entry of `kind`: its name is not
      allocated and it has the same type. */
  predicate Eligible(c: Candidate, ids: set<string>, kind: NodeType) {
    c.ident !in ids && c.node.kind == kind
  }

  /** localOptimize's second loop over cs[..n]: the index of the first
      eligible candidate with the greatest score above `floor`, if any. */
  function BestIn(cs: seq<Candidate>, n: nat, ids: set<string>, kind: NodeType, floor: real): (r: Option<nat>)
    requires n <= |cs|
    ensures r.Some? ==> r.value < n
  {
    if n == 0 then None
    else
      var prev := BestIn(cs, n - 1, ids, kind, floor);
      var bar := if prev.Some? then cs[prev.value].score else floor;
      if Eligible(cs[n - 1], ids, kind) && cs[n - 1].score > bar then Some(n - 1) else prev
  }

  /** BestIn finds the first eligible candidate of greatest score when one
      scores above `floor`, and none otherwise. */
  lemma {:induction false} BestInSpec(cs: seq<Candidate>, n: nat, ids: set<string>, kind: NodeType, floor: real)
    requires n <= |cs|
    ensures var r := BestIn(cs, n, ids, kind, floor);
            (r.None? <==> forall j :: 0 <= j < n && Eligible(cs[j], ids, kind) ==> cs[j].score <= floor) &&
            (r.Some? ==>
              Eligible(cs[r.value], ids, kind) && cs[r.value].score > floor &&
              (forall j :: 0 <= j < n && Eligible(cs[j], ids, kind) ==> cs[j].score <= cs[r.value].score) &&
              (forall j :: 0 <= j < r.value && Eligible(cs[j], ids, kind) ==> cs[j].score < cs[r.value].score))
  {
    if n > 0 {
      BestInSpec(cs, n - 1, ids, kind, floor);
    }
  }

  /** The swap one iteration of localOptimize makes: the index of the
      lowest non-required entry and of the best eligible candidate, when
      that candidate scores more than 1.1 times as much. */
  function FindSwap(es: seq<Entry>, cs: seq<Candidate>): (r: Option<(nat, nat)>)
    ensures r.Some? ==> r.value.0 < |es| && r.value.1 < |cs|
  {
    match LowestIn(es, |es|)
    case None => None
    case Some(i) =>
      match BestIn(cs, |cs|, IdsOf(es), es[i].node.kind, es[i].score)
      case None => None
      case Some(j) =>
        if cs[j].score > es[i].score * 1.1 then Some((i, j)) else None
  }

  /** A swap pairs the lowest non-required entry with an eligible candidate
      scoring more than it and more than 1.1 times it; the search stops
      exactly when the lowest entry has no such candidate. */
  lemma FindSwapSpec(es: seq<Entry>, cs: seq<Candidate>)
    ensures var r := FindSwap(es, cs);
            (r.Some? ==>
              var (i, j) := r.value;
              LowestIn(es, |es|) == Some(i) && !es[i].required &&
              Eligible(cs[j], IdsOf(es), es[i].node.kind) &&
              cs[j].score > es[i].score && cs[j].score > es[i].score * 1.1) &&
            (r.None? <==>
              LowestIn(es, |es|).None? ||
              var low := es[LowestIn(es, |es|).value];
              forall j :: 0 <= j < |cs| && Eligible(cs[j], IdsOf(es), low.node.kind) ==>
                !(cs[j].score > low.score && cs[j].score > low.score * 1.1))
  {
    LowestInSpec(es, |es|);
    match LowestIn(es, |es|)
    case None =>
    case Some(i) =>
      BestInSpec(cs, |cs|, IdsOf(es), es[i].node.kind, es[i].score);
  }

  /** One iteration of localOptimize: the swap made in place, or None when
      the loop breaks. */
  function LocalStep(es: seq<Entry>, cs: seq<Candidate>): (r: Option<seq<Entry>>)
    ensures r.Some? <==> FindSwap(es, cs).Some?
  {
    match FindSwap(es, cs)
    case None => None
    case Some((i, j)) => Some(es[i := Entry(cs[j].node, cs[j].score, false)])
  }

  /** localOptimize with `n` iterations: steps until one finds no swap. */
  function LocalSearch(es: seq<Entry>, cs: seq<Candidate>, n: nat): seq<Entry>
    decreases n
  {
    if n == 0 then es
    else match LocalStep(es, cs)
      case None => es
      case Some(next) => LocalSearch(next, cs, n - 1)
  }

  /** What a search may do to the list: keep its length, keep each
      required entry, keep each position's type and never lower its score. */
  ghost predicate Improves(es: seq<Entry>, r: seq<Entry>) {
    |r| == |es| &&
    forall i :: 0 <= i < |es| ==>
      (es[i].required ==> r[i] == es[i]) &&
      r[i].node.kind == es[i].node.kind && r[i].score >= es[i].score
  }

  /** A swap keeps the list's length, its required entries and its types,
      and raises no score less. */
  lemma LocalStepImproves(es: seq<Entry>, cs: seq<Candidate>)
    ensures LocalStep(es, cs).Some? ==> Improves(es, LocalStep(es, cs).value)
  {
    FindSwapSpec(es, cs);
    match FindSwap(es, cs)
    case None =>
    case Some((i, j)) =>
      assert LocalStep(es, cs).value == es[i := Entry(cs[j].node, cs[j].score, false)];
  }

  /** A swap replaces exactly one non-required entry, by an unallocated
      candidate of the same type with a strictly greater score. */
  lemma LocalStepChangesOne(es: seq<Entry>, cs: seq<Candidate>)
    requires LocalStep(es, cs).Some?
    ensures exists i, j :: 0 <= i < |es| && 0 <= j < |cs| && !es[i].required &&
              Eligible(cs[j], IdsOf(es), es[i].node.kind) && cs[j].score > es[i].score &&
              LocalStep(es, cs).value == es[i := Entry(cs[j].node, cs[j].score, false)]
  {
    FindSwapSpec(es, cs);
    var (i, j) := FindSwap(es, cs).value;
    assert LocalStep(es, cs).value == es[i := Entry(cs[j].node, cs[j].score, false)];
  }

  lemma ImprovesTransitive(a: seq<Entry>, b: seq<Entry>, c: seq<Entry>)
    requires Improves(a, b) && Improves(b, c)
    ensures Improves(a, c)
  {
  }

  /** localOptimize keeps the list's length and every required entry,
      keeps each position's type and never lowers a score. */
  lemma {:induction false} LocalSearchImproves(es: seq<Entry>, cs: seq<Candidate>, n: nat)
    ensures Improves(es, LocalSearch(es, cs, n))
    decreases n
  {
    if n > 0 {
      LocalStepImproves(es, cs);
      match LocalStep(es, cs)
      case None =>
      case Some(next) =>
        LocalSearchImproves(next, cs, n - 1);
        ImprovesTransitive(es, next, LocalSearch(next, cs, n - 1));
    }
  }

  /** Tested by node id, a swap never brings in a node already allocated,
      so a list without repeated ids keeps none. */
  lemma LocalStepUnique(es: seq<Entry>, cs: seq<Candidate>)
    requires UniqueIds(es)
    requires forall c :: c in cs ==> c.ident == c.node.id
    ensures LocalStep(es, cs).Some? ==> UniqueIds(LocalStep(es, cs).value)
  {
    FindSwapSpec(es, cs);
    match FindSwap(es, cs)
    case None =>
    case Some((i, j)) =>
      assert cs[j] in cs;
      var r := es[i := Entry(cs[j].node, cs[j].score, false)];
      assert r[i].node.id !in IdsOf(es);
      forall k | 0 <= k < |es| && k != i
        ensures r[k].node.id != r[i].node.id
      {
        assert es[k].node.id in IdsOf(es);
      }
      assert LocalStep(es, cs).value == r;
  }

  lemma {:induction false} LocalSearchUnique(es: seq<Entry>, cs: seq<Candidate>, n: nat)
    requires UniqueIds(es)
    requires forall c :: c in cs ==> c.ident == c.node.id
    ensures UniqueIds(LocalSearch(es, cs, n))
    decreases n
  {
    if n > 0 {
      LocalStepUnique(es, cs);
      match LocalStep(es, cs)
      case None =>
      case Some(next) =>
        LocalSearchUnique(next, cs, n - 1);
    }
  }

  /** The number of rounds of localOptimize, out of `n`, that swap. */
  function Swaps(es: seq<Entry>, cs: seq<Candidate>, n: nat): (k: nat)
    ensures k <= n
    decreases n
  {
    if n == 0 then 0
    else match LocalStep(es, cs)
      case None => 0
      case Some(next) => 1 + Swaps(next, cs, n - 1)
  }

  /** The number of positions at which two lists of equal length differ. */
  function Changed(a: seq<Entry>, b: seq<Entry>): nat
    requires |a| == |b|
    decreases |a|
  {
    if |a| == 0 then 0
    else Changed(a[..|a| - 1], b[..|b| - 1]) + (if a[|a| - 1] != b[|b| - 1] then 1 else 0)
  }

  lemma {:induction false} ChangedNone(a: seq<Entry>)
    ensures Changed(a, a) == 0
    decreases |a|
  {
    if |a| > 0 {
      ChangedNone(a[..|a| - 1]);
    }
  }

  /** Overwriting one position changes at most that position. */
  lemma {:induction false} ChangedOne(a: seq<Entry>, i: int, x: Entry)
    requires 0 <= i < |a|
    ensures Changed(a, a[i := x]) <= 1
    decreases |a|
  {
    var n := |a|;
    if i == n - 1 {
      assert a[i := x][..n - 1] == a[..n - 1];
      ChangedNone(a[..n - 1]);
    } else {
      assert a[i := x][..n - 1] == a[..n - 1][i := x];
      ChangedOne(a[..n - 1], i, x);
    }
  }

  /** A position that differs between `a` and `c` differs between `a` and
      `b` or between `b` and `c`. */
  lemma {:induction false} ChangedTriangle(a: seq<Entry>, b: seq<Entry>, c: seq<Entry>)
    requires |a| == |b| == |c|
    ensures Changed(a, c) <= Changed(a, b) + Changed(b, c)
    decreases |a|
  {
    if |a| > 0 {
      ChangedTriangle(a[..|a| - 1], b[..|b| - 1], c[..|c| - 1]);
    }
  }

  /** A swap keeps the length and changes one position at most. */
  lemma LocalStepChanged(es: seq<Entry>, cs: seq<Candidate>)
    requires LocalStep(es, cs).Some?
    ensures |LocalStep(es, cs).value| == |es| && Changed(es, LocalStep(es, cs).value) <= 1
  {
    var (i, j) := FindSwap(es, cs).value;
    ChangedOne(es, i, Entry(cs[j].node, cs[j].score, false));
  }

  /** localOptimize makes at most `n` swaps and changes at most that many
      positions; when it makes fewer, it stopped at a round that found no
      swap, so the list it leaves has none left. */
  lemma {:induction false} LocalSearchSwaps(es: seq<Entry>, cs: seq<Candidate>, n: nat)
    ensures |LocalSearch(es, cs, n)| == |es|
    ensures Changed(es, LocalSearch(es, cs, n)) <= Swaps(es, cs, n) <= n
    ensures Swaps(es, cs, n) < n ==> LocalStep(LocalSearch(es, cs, n), cs).None?
    decreases n
  {
    if n == 0 || LocalStep(es, cs).None? {
      ChangedNone(es);
    } else {
      var next := LocalStep(es, cs).value;
      LocalStepChanged(es, cs);
      LocalSearchSwaps(next, cs, n - 1);
      ChangedTriangle(es, next, LocalSearch(next, cs, n - 1));
    }
  }

  // ---------------------------------------------------------------------
  // The key-versus-id mismatch

  lemma FoldSingle(st: GState, c: Candidate, ph: Phase)
    ensures Fold(st, [c], ph) == Step(st, c, ph)
  {
    assert [c][..0] == [];
  }

  lemma OfKindSingle(c: Candidate, kind: NodeType)
    ensures OfKind([c], kind) == if c.node.kind == kind then [c] else []
  {
    assert [c][..0] == [];
  }

  lemma UnallocatedSingle(c: Candidate, ids: set<string>)
    ensures Unallocated([c], ids) == if c.ident in ids then [] else [c]
  {
    assert [c][..0] == [];
  }

  lemma IdsOfPair(x: Entry, y: Entry)
    ensures IdsOf([x]) == {x.node.id} && IdsOf([x, y]) == {x.node.id, y.node.id}
  {
    assert [x][..0] == [];
    assert [x, y][..1] == [x];
  }

  /** As written, a required keystone stored under a key other than its
      id is offered again by the greedy pass and appended a second time. */
  lemma GreedyRepeatsAsWritten(key: string, node: Node, required: real, score: real, budget: int, offenseWeight: real)
    requires key != node.id && node.kind == Keystone && node.offense > node.defense
    requires budget >= 1 && offenseWeight > 0.0
    ensures var ids0 := IdsOf([Entry(node, required, true)]);
            Greedy([Candidate(key, node, score)], ids0, budget, offenseWeight).added == [Entry(node, score, false)]
  {
    var ids0 := IdsOf([Entry(node, required, true)]);
    IdsOfPair(Entry(node, required, true), Entry(node, required, true));
    var c := Candidate(key, node, score);
    UnallocatedSingle(c, ids0);
    var pool := Pool([c], ids0);
    assert pool == [c] by {
      assert multiset(pool) == multiset{c};
      assert |pool| == 1 && pool[0] in multiset(pool);
    }
    OfKindSingle(c, Keystone);
    OfKindSingle(c, Notable);
    OfKindSingle(c, Small);
    var ot := OffenseTarget(offenseWeight);
    assert ot >= 1;
    var st0 := Start(ids0, budget);
    FoldSingle(st0, c, KeystonePhase(ot, 3 - ot));
    var st1 := Step(st0, c, KeystonePhase(ot, 3 - ot));
    assert st1.added == [Entry(node, score, false)];
    assert KeystoneLoop(st0, pool, offenseWeight) == st1;
    assert NotableLoop(st1, pool) == st1;
    assert SmallLoop(st1, pool) == st1;
  }

  /** Tested by node id, the same keystone is not offered again. */
  lemma GreedyNoRepeat(node: Node, required: real, score: real, budget: int, offenseWeight: real)
    ensures var ids0 := IdsOf([Entry(node, required, true)]);
            Greedy([Candidate(node.id, node, score)], ids0, budget, offenseWeight).added == []
  {
    var ids0 := IdsOf([Entry(node, required, true)]);
    var c := Candidate(node.id, node, score);
    UnallocatedSingle(c, ids0);
    var pool := Pool([c], ids0);
    assert pool == [];
    var st0 := Start(ids0, budget);
    assert KeystoneLoop(st0, pool, offenseWeight) == st0;
    assert NotableLoop(st0, pool) == st0;
    assert SmallLoop(st0, pool) == st0;
  }

  /** As written, a node allocated under its id can also be offered under
      another key, and then replaces a weaker entry of its type: the list
      ends up holding it twice. */
  lemma LocalRepeatsAsWritten(key: string, a: Node, b: Node, sa: real, sb: real, s: real)
    requires a.kind == b.kind && a.id != b.id && key != a.id && key != b.id
    requires 0.0 <= sb < sa && s > sb * 1.1 && s > sb
    ensures LocalStep([Entry(a, sa, false), Entry(b, sb, false)], [Candidate(key, a, s)]) ==
            Some([Entry(a, sa, false), Entry(a, s, false)])
  {
    var es := [Entry(a, sa, false), Entry(b, sb, false)];
    var cs := [Candidate(key, a, s)];
    assert LowestIn(es, 1) == Some(0);
    assert LowestIn(es, 2) == Some(1);
    IdsOfPair(es[0], es[1]);
    assert Eligible(cs[0], IdsOf(es), b.kind);
    assert BestIn(cs, 0, IdsOf(es), b.kind, sb) == None;
    assert BestIn(cs, 1, IdsOf(es), b.kind, sb) == Some(0);
    assert FindSwap(es, cs) == Some((1, 0));
    assert es[1 := Entry(a, s, false)] == [Entry(a, sa, false), Entry(a, s, false)];
  }

  /** Tested by node id, the allocated node is not a replacement and the
      search stops. */
  lemma LocalNoRepeat(a: Node, b: Node, sa: real, sb: real, s: real)
    ensures LocalStep([Entry(a, sa, false), Entry(b, sb, false)], [Candidate(a.id, a, s)]) == None
  {
    var es := [Entry(a, sa, false), Entry(b, sb, false)];
    var cs := [Candidate(a.id, a, s)];
    IdsOfPair(es[0], es[1]);
    assert !Eligible(cs[0], IdsOf(es), es[0].node.kind) && !Eligible(cs[0], IdsOf(es), es[1].node.kind);
    assert BestIn(cs, 1, IdsOf(es), es[0].node.kind, es[0].score) == None;
    assert BestIn(cs, 1, IdsOf(es), es[1].node.kind, es[1].score) == None;
  }
}
