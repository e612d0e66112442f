/** The optimizer object of js/optimizer.js: its configuration and the
    results it fills in place while optimizing (js/optimizer.js:54-387).
    Each step is proved equal to the value model of modules Allocation and
    FinalStats, and `Optimized` composes them. The class runs the code as
    written; `Optimized(Intended, ..)` is the intended behaviour (see
    README, "Findings"). */
module Optimizer {
  import opened Basics
  import opened Tree
  import opened Scoring
  import opened StatParse
  import opened Allocation
  import opened FinalStats
  import opened TreeStore

  /** The number of rounds of localOptimize that optimize asks for. */
  const Iterations: nat := 100

  /** The configured required keystones looked up, as written, by key of
      the keystone table: those found, in order, marked required and scored
      as the node of the merged table stored under the same key. Empty
      names are skipped. */
  function RequiredEntries(config: Config, ks: seq<string>, keystones: Table, all: Table): (r: seq<Entry>)
    requires WellFormed(all)
    requires forall k :: k in keystones.nodes ==> k in all.nodes
    ensures |r| <= |ks|
    ensures forall i :: 0 <= i < |r| ==> r[i].required && r[i].node in keystones.nodes.Values
    decreases |ks|
  {
    if |ks| == 0 then []
    else
      var init := RequiredEntries(config, ks[..|ks| - 1], keystones, all);
      var k := ks[|ks| - 1];
      if k != "" && k in keystones.nodes then
        init + [Entry(keystones.nodes[k], TotalScore(config, all.nodes[k]), true)]
      else init
  }

  lemma RequiredEntriesStep(config: Config, ks: seq<string>, keystones: Table, all: Table, i: int)
    requires WellFormed(all)
    requires forall k :: k in keystones.nodes ==> k in all.nodes
    requires 0 <= i < |ks|
    ensures RequiredEntries(config, ks[..i + 1], keystones, all) ==
            var init := RequiredEntries(config, ks[..i], keystones, all);
            if ks[i] != "" && ks[i] in keystones.nodes then
              init + [Entry(keystones.nodes[ks[i]], TotalScore(config, all.nodes[ks[i]]), true)]
            else init
  {
    assert ks[..i + 1][..i] == ks[..i];
  }

  /** The position of the first key, from `from` on, whose node has the
      given id. */
  function KeyOfId(t: Table, id: string, from: nat): (r: Option<nat>)
    requires WellFormed(t)
    ensures r.Some? ==> from <= r.value < |t.keys| && t.keys[r.value] in t.nodes && t.nodes[t.keys[r.value]].id == id
    ensures r.Some? ==> forall j :: from <= j < r.value ==> t.nodes[t.keys[j]].id != id
    ensures r.None? ==> forall j :: from <= j < |t.keys| ==> t.nodes[t.keys[j]].id != id
    decreases |t.keys| - from
  {
    if from >= |t.keys| then None
    else
      assert t.keys[from] in t.keys;
      if t.nodes[t.keys[from]].id == id then Some(from) else KeyOfId(t, id, from + 1)
  }

  /** The required keystones as intended: each configured id, as the
      keystone selects supply it, looked up among the nodes of the keystone
      table; empty ids and ids no keystone carries are skipped. */
  function RequiredById(config: Config, ks: seq<string>, keystones: Table, all: Table): (r: seq<Entry>)
    requires WellFormed(keystones) && WellFormed(all)
    requires forall k :: k in keystones.nodes ==> k in all.nodes
    ensures |r| <= |ks|
    ensures forall i :: 0 <= i < |r| ==> r[i].required && r[i].node in keystones.nodes.Values && r[i].node.id in ks
    decreases |ks|
  {
    if |ks| == 0 then []
    else
      var init := RequiredById(config, ks[..|ks| - 1], keystones, all);
      var id := ks[|ks| - 1];
      match KeyOfId(keystones, id, 0)
      case Some(p) =>
        if id != "" then
          var k := keystones.keys[p];
          init + [Entry(keystones.nodes[k], TotalScore(config, all.nodes[k]), true)]
        else init
      case None => init
  }

  /** Some keystone carries the id. */
  ghost predicate KeystoneId(keystones: Table, id: string) {
    exists k :: k in keystones.nodes && keystones.nodes[k].id == id
  }

  /** Every configured non-empty id that some keystone carries yields a
      required entry for that keystone. */
  lemma {:induction false} RequiredByIdFound(config: Config, ks: seq<string>, keystones: Table, all: Table, id: string)
    requires WellFormed(keystones) && WellFormed(all)
    requires forall k :: k in keystones.nodes ==> k in all.nodes
    requires id in ks && id != ""
    requires KeystoneId(keystones, id)
    ensures exists i :: 0 <= i < |RequiredById(config, ks, keystones, all)| &&
                        RequiredById(config, ks, keystones, all)[i].node.id == id
    decreases |ks|
  {
    var r := RequiredById(config, ks, keystones, all);
    var init := ks[..|ks| - 1];
    if id == ks[|ks| - 1] {
      var k :| k in keystones.nodes && keystones.nodes[k].id == id;
      var j :| 0 <= j < |keystones.keys| && keystones.keys[j] == k;
      assert KeyOfId(keystones, id, 0).Some?;
      assert r[|r| - 1].node.id == id;
    } else {
      assert id in init;
      RequiredByIdFound(config, init, keystones, all, id);
      var i :| 0 <= i < |RequiredById(config, init, keystones, all)| &&
               RequiredById(config, init, keystones, all)[i].node.id == id;
      assert r[i] == RequiredById(config, init, keystones, all)[i];
    }
  }

  /** The required keystones under reading `rd`. */
  function RequiredFor(rd: Reading, config: Config, keystones: Table, all: Table): (r: seq<Entry>)
    requires WellFormed(keystones) && WellFormed(all)
    requires forall k :: k in keystones.nodes ==> k in all.nodes
    ensures forall i :: 0 <= i < |r| ==> r[i].required
  {
    match rd
    case AsWritten => RequiredEntries(config, config.requiredKeystones, keystones, all)
    case Intended => RequiredById(config, config.requiredKeystones, keystones, all)
  }

  /** The points left for the greedy pass once the required keystones are
      in. */
  function PointsLeft(config: Config, required: seq<Entry>): int {
    config.maxPoints - |required|
  }

  /** The list optimize hands to the final statistics: the required
      entries, then the greedy additions with the points left, both
      reshaped by the swap search. */
  function Allocated(rd: Reading, config: Config, keystones: Table, all: Table): seq<Entry>
    requires WellFormed(keystones) && WellFormed(all)
    requires forall k :: k in keystones.nodes ==> k in all.nodes
  {
    var required := RequiredFor(rd, config, keystones, all);
    var cands := CandidatesFor(rd, config, all);
    LocalSearch(required + Greedy(cands, IdsOf(required), PointsLeft(config, required), config.offenseWeight).added,
                cands, Iterations)
  }

  /** optimize on a tree: the final statistics of the allocated list. */
  function Optimized(rd: Reading, config: Config, keystones: Table, all: Table): Results
    requires WellFormed(keystones) && WellFormed(all)
    requires forall k :: k in keystones.nodes ==> k in all.nodes
  {
    Final(rd, Allocated(rd, config, keystones, all))
  }

  /** The stages of optimize, named. */
  lemma AllocatedSteps(rd: Reading, config: Config, keystones: Table, all: Table, required: seq<Entry>, added: seq<Entry>)
    requires WellFormed(keystones) && WellFormed(all)
    requires forall k :: k in keystones.nodes ==> k in all.nodes
    requires required == RequiredFor(rd, config, keystones, all)
    requires added == Greedy(CandidatesFor(rd, config, all), IdsOf(required), PointsLeft(config, required), config.offenseWeight).added
    ensures Allocated(rd, config, keystones, all) == LocalSearch(required + added, CandidatesFor(rd, config, all), Iterations)
  {
  }

  lemma OptimizedIsFinal(rd: Reading, config: Config, keystones: Table, all: Table, es: seq<Entry>)
    requires WellFormed(keystones) && WellFormed(all)
    requires forall k :: k in keystones.nodes ==> k in all.nodes
    requires es == Allocated(rd, config, keystones, all)
    ensures Optimized(rd, config, keystones, all) == Final(rd, es)
  {
  }

  /** The result of optimize holds at most max(maxPoints, number of required
      keystones) nodes, and every required keystone entry among them. */
  lemma OptimizedSize(rd: Reading, config: Config, keystones: Table, all: Table)
    requires WellFormed(keystones) && WellFormed(all)
    requires forall k :: k in keystones.nodes ==> k in all.nodes
    ensures var required := RequiredFor(rd, config, keystones, all);
            var r := Optimized(rd, config, keystones, all);
            |r.allocatedNodes| <= Max(config.maxPoints, |required|) &&
            r.totalPoints == |r.allocatedNodes| &&
            forall e :: e in required ==> e in r.allocatedNodes
  {
    var required := RequiredFor(rd, config, keystones, all);
    var cands := CandidatesFor(rd, config, all);
    var budget := PointsLeft(config, required);
    var added := Greedy(cands, IdsOf(required), budget, config.offenseWeight).added;
    GreedyBudget(cands, IdsOf(required), budget, config.offenseWeight);
    var before := required + added;
    AllocatedSteps(rd, config, keystones, all, required, added);
    var after := Allocated(rd, config, keystones, all);
    LocalSearchImproves(before, cands, Iterations);
    FinalSpec(rd, after);
    RequiredKept(required, added, after);
  }

  /** A list that improves on `required + added`, all of `required` being
      required, still holds every entry of `required`. */
  lemma RequiredKept(required: seq<Entry>, added: seq<Entry>, after: seq<Entry>)
    requires forall i :: 0 <= i < |required| ==> required[i].required
    requires Improves(required + added, after)
    ensures forall e :: e in required ==> e in multiset(after)
  {
    var before := required + added;
    forall e | e in required
      ensures e in multiset(after)
    {
      var i :| 0 <= i < |required| && required[i] == e;
      assert before[i] == e;
      assert after[i] == e;
    }
  }

  /** As intended, every keystone the user requires by id is in the
      result of optimize. */
  lemma RequiredKeystonesAllocated(config: Config, keystones: Table, all: Table, id: string)
    requires WellFormed(keystones) && WellFormed(all)
    requires forall k :: k in keystones.nodes ==> k in all.nodes
    requires id in config.requiredKeystones && id != ""
    requires KeystoneId(keystones, id)
    ensures exists e :: e in Optimized(Intended, config, keystones, all).allocatedNodes && e.node.id == id
  {
    var required := RequiredFor(Intended, config, keystones, all);
    RequiredByIdFound(config, config.requiredKeystones, keystones, all, id);
    var i :| 0 <= i < |required| && required[i].node.id == id;
    OptimizedSize(Intended, config, keystones, all);
    assert required[i] in required;
  }

  /** As written, keystones required by their ids, as the keystone selects
      supply them, are all dropped when no id is also a key of the keystone
      table, as in the sample table (key "ironwill", id "ks_ironwill");
      looked up by id, every non-empty one is found. */
  lemma RequiredByIdAsWritten(config: Config, ks: seq<string>, keystones: Table, all: Table)
    requires WellFormed(keystones) && WellFormed(all)
    requires forall k :: k in keystones.nodes ==> k in all.nodes
    requires forall k :: k in keystones.nodes ==> keystones.nodes[k].id !in keystones.nodes
    requires forall i :: 0 <= i < |ks| ==> KeystoneId(keystones, ks[i])
    ensures RequiredEntries(config, ks, keystones, all) == []
    ensures forall i :: 0 <= i < |ks| && ks[i] != "" ==> HasEntryFor(RequiredById(config, ks, keystones, all), ks[i])
  {
    IdsNotKeys(config, ks, keystones, all);
    var r := RequiredById(config, ks, keystones, all);
    forall i | 0 <= i < |ks| && ks[i] != ""
      ensures HasEntryFor(r, ks[i])
    {
      assert KeystoneId(keystones, ks[i]);
      RequiredByIdFound(config, ks, keystones, all, ks[i]);
    }
  }

  /** Some entry of the list is for the node with the given id. */
  ghost predicate HasEntryFor(es: seq<Entry>, id: string) {
    exists j :: 0 <= j < |es| && es[j].node.id == id
  }

  /** Ids that are not keys find nothing in a lookup by key. */
  lemma {:induction false} IdsNotKeys(config: Config, ks: seq<string>, keystones: Table, all: Table)
    requires WellFormed(all)
    requires forall k :: k in keystones.nodes ==> k in all.nodes
    requires forall k :: k in keystones.nodes ==> keystones.nodes[k].id !in keystones.nodes
    requires forall i :: 0 <= i < |ks| ==> KeystoneId(keystones, ks[i])
    ensures RequiredEntries(config, ks, keystones, all) == []
    decreases |ks|
  {
    if |ks| > 0 {
      var init := ks[..|ks| - 1];
      assert forall i :: 0 <= i < |init| ==> init[i] == ks[i];
      IdsNotKeys(config, init, keystones, all);
      assert KeystoneId(keystones, ks[|ks| - 1]);
    }
  }

  /** When the configured keystones name distinct nodes, the list optimize
      allocates as intended repeats no node id, and its result is a
      reordering of it. */
  lemma OptimizedUnique(config: Config, keystones: Table, all: Table)
    requires WellFormed(keystones) && WellFormed(all)
    requires forall k :: k in keystones.nodes ==> k in all.nodes
    requires UniqueIds(RequiredFor(Intended, config, keystones, all))
    ensures UniqueIds(Allocated(Intended, config, keystones, all))
    ensures multiset(Optimized(Intended, config, keystones, all).allocatedNodes) ==
            multiset(Allocated(Intended, config, keystones, all))
  {
    var required := RequiredFor(Intended, config, keystones, all);
    var cands := Candidates(config, all);
    var added := Greedy(cands, IdsOf(required), PointsLeft(config, required), config.offenseWeight).added;
    GreedyUnique(cands, IdsOf(required), PointsLeft(config, required), config.offenseWeight);
    var before := required + added;
    forall i, j | 0 <= i < j < |before|
      ensures before[i].node.id != before[j].node.id
    {
      if j >= |required| && i < |required| {
        assert before[i].node.id in IdsOf(required);
      }
    }
    LocalSearchUnique(before, cands, Iterations);
    AllocatedSteps(Intended, config, keystones, all, required, added);
    FinalSpec(Intended, Allocated(Intended, config, keystones, all));
  }

  /** The keystone loop of greedyAllocate, its targets named. */
  lemma KeystoneStage(cands: seq<Candidate>, ids0: set<string>, budget: int, w: real, ph: Phase)
    requires ph == KeystonePhase(OffenseTarget(w), 3 - OffenseTarget(w))
    ensures AfterKeystones(cands, ids0, budget, w) ==
            Fold(Start(ids0, budget), OfKind(Pool(cands, ids0), Keystone), ph)
  {
  }

  /** The three loops of greedyAllocate, one after the other. */
  lemma GreedyStages(cands: seq<Candidate>, ids0: set<string>, budget: int, w: real, st1: GState, st2: GState)
    requires st1 == AfterKeystones(cands, ids0, budget, w)
    requires st2 == NotableLoop(st1, Pool(cands, ids0))
    ensures Greedy(cands, ids0, budget, w) == SmallLoop(st2, Pool(cands, ids0))
  {
  }

  /** The scored candidates in key order, read from the scores map and
      named by key, as greedyAllocate and localOptimize name them. */
  function ScoredCandidates(all: Table, scored: map<string, Score>): (r: seq<Candidate>)
    requires WellFormed(all)
    requires forall k :: k in all.keys ==> k in scored
    ensures |r| == |all.keys|
  {
    seq(|all.keys|, i requires 0 <= i < |all.keys| =>
      Candidate(all.keys[i], NodeAt(all, i), scored[all.keys[i]].total))
  }

  /** The scores map holds scoreNode's result for every node of the table. */
  ghost predicate ScoresOf(config: Config, all: Table, scored: map<string, Score>) {
    WellFormed(all) &&
    (forall k :: k in scored <==> k in all.nodes) &&
    forall k :: k in scored && k in all.nodes ==> scored[k] == ScoreNode(config, all.nodes[k])
  }

  lemma ScoredCandidatesAre(config: Config, all: Table, scored: map<string, Score>)
    requires ScoresOf(config, all, scored)
    ensures ScoredCandidates(all, scored) == CandidatesByKey(config, all)
  {
    var a, b := ScoredCandidates(all, scored), CandidatesByKey(config, all);
    forall i | 0 <= i < |a|
      ensures a[i] == b[i]
    {
      assert all.keys[i] in all.keys;
    }
  }

  class Optimizer {
    const config: Config
    var allocatedNodes: seq<Entry>
    var totalPoints: int
    var offenseScore: real
    var defenseScore: real
    var efficiency: int
    var statSummary: map<string, real>

    /** The results object. */
    function Results(): Results
      reads this
    {
      FinalStats.Results(allocatedNodes, totalPoints, offenseScore, defenseScore, efficiency, statSummary)
    }

    constructor (config: Config)
      ensures this.config == config
      ensures Results() == FinalStats.Results([], 0, 0.0, 0.0, 0, map[])
    {
      this.config := config;
      allocatedNodes := [];
      totalPoints := 0;
      offenseScore := 0.0;
      defenseScore := 0.0;
      efficiency := 0;
      statSummary := map[];
    }

    /** scoreAllNodes: scoreNode's result under every key of the table. */
    method ScoreAllNodes(nodes: Table) returns (scored: map<string, Score>)
      requires WellFormed(nodes)
      ensures ScoresOf(config, nodes, scored)
    {
      scored := map[];
      var i := 0;
      while i < |nodes.keys|
        invariant 0 <= i <= |nodes.keys|
        invariant forall k :: k in scored <==> k in nodes.keys[..i]
        invariant forall k :: k in scored ==> k in nodes.nodes && scored[k] == ScoreNode(config, nodes.nodes[k])
      {
        var nodeId := nodes.keys[i];
        assert nodeId in nodes.keys;
        scored := scored[nodeId := ScoreNode(config, nodes.nodes[nodeId])];
        assert forall k :: k in nodes.keys[..i + 1] <==> k in nodes.keys[..i] || k == nodeId;
        i := i + 1;
      }
      assert nodes.keys[..i] == nodes.keys;
    }

    /** optimize: the results are reset and then filled from the tree. */
    method Optimize(data: TreeData)
      requires data.Valid()
      modifies this
      ensures Results() == Optimized(AsWritten, config, data.keystones, data.GetAllNodes())
    {
      allocatedNodes := [];
      totalPoints := 0;
      offenseScore := 0.0;
      defenseScore := 0.0;
      efficiency := 0;
      statSummary := map[];
      var allNodes := data.GetAllNodes();
      var scored := ScoreAllNodes(allNodes);
      ghost var ks := data.keystones;
      Allocate(data.keystones, allNodes, scored);
      OptimizedIsFinal(AsWritten, config, ks, allNodes, allocatedNodes);
      CalculateFinalStats();
    }

    /** The three allocation phases of optimize: required keystones, the
        greedy pass with the points left, the swap search. */
    method Allocate(keystones: Table, all: Table, scored: map<string, Score>)
      requires WellFormed(keystones) && ScoresOf(config, all, scored)
      requires forall k :: k in keystones.nodes ==> k in all.nodes
      requires allocatedNodes == []
      modifies this`allocatedNodes
      ensures allocatedNodes == Allocated(AsWritten, config, keystones, all)
    {
      AllocateRequired(keystones, all, scored);
      ghost var required := allocatedNodes;
      var remainingPoints := PointsLeft(config, allocatedNodes);
      GreedyAllocate(all, scored, remainingPoints);
      ghost var added := allocatedNodes[|required|..];
      assert allocatedNodes == required + added;
      AllocatedSteps(AsWritten, config, keystones, all, required, added);
      LocalOptimize(all, scored, Iterations);
    }

    /** The required-keystone phase of optimize. */
    method AllocateRequired(keystones: Table, all: Table, scored: map<string, Score>)
      requires ScoresOf(config, all, scored)
      requires forall k :: k in keystones.nodes ==> k in all.nodes
      modifies this`allocatedNodes
      ensures allocatedNodes == old(allocatedNodes) + RequiredEntries(config, config.requiredKeystones, keystones, all)
    {
      var requiredKeystones := config.requiredKeystones;
      var i := 0;
      while i < |requiredKeystones|
        invariant 0 <= i <= |requiredKeystones|
        invariant allocatedNodes == old(allocatedNodes) + RequiredEntries(config, requiredKeystones[..i], keystones, all)
      {
        RequiredEntriesStep(config, requiredKeystones, keystones, all, i);
        var keystoneId := requiredKeystones[i];
        if keystoneId != "" && keystoneId in keystones.nodes {
          allocatedNodes := allocatedNodes + [Entry(keystones.nodes[keystoneId], scored[keystoneId].total, true)];
        }
        i := i + 1;
      }
      assert requiredKeystones[..i] == requiredKeystones;
    }

    /** greedyAllocate: appends what the greedy pass chooses. */
    method GreedyAllocate(all: Table, scored: map<string, Score>, pointBudget: int)
      requires ScoresOf(config, all, scored)
      modifies this`allocatedNodes
      ensures allocatedNodes ==
                old(allocatedNodes) + Greedy(CandidatesByKey(config, all), IdsOf(old(allocatedNodes)), pointBudget, config.offenseWeight).added
    {
      var allocatedIds := IdsOf(allocatedNodes);
      ghost var cands := CandidatesByKey(config, all);
      var sortedNodes := SortedCandidates(all, scored, allocatedIds);
      ghost var base := allocatedNodes;
      var keystoneOffenseTarget := OffenseTarget(config.offenseWeight);
      var keystoneDefenseTarget := 3 - keystoneOffenseTarget;
      var ids1, remaining1, offK, defK :=
        AllocateKeystones(sortedNodes, keystoneOffenseTarget, keystoneDefenseTarget, base, allocatedIds, pointBudget);
      KeystoneStage(cands, allocatedIds, pointBudget, config.offenseWeight, KeystonePhase(keystoneOffenseTarget, keystoneDefenseTarget));
      ghost var st1 := AfterKeystones(cands, allocatedIds, pointBudget, config.offenseWeight);
      var ids2, remaining2, notK := AllocateNotables(sortedNodes, ids1, remaining1, base, st1);
      ghost var st2 := NotableLoop(st1, sortedNodes);
      AllocateSmalls(sortedNodes, ids2, remaining2, base, st2);
      GreedyStages(cands, allocatedIds, pointBudget, config.offenseWeight, st1, st2);
    }

    /** Every scored node with its total score, in key order. */
    method CandidateList(all: Table, scored: map<string, Score>) returns (cands: seq<Candidate>)
      requires ScoresOf(config, all, scored)
      ensures cands == CandidatesByKey(config, all)
    {
      cands := ScoredCandidates(all, scored);
      ScoredCandidatesAre(config, all, scored);
    }

    /** The candidates of greedyAllocate: the scored nodes not yet
        allocated, by descending score. */
    method SortedCandidates(all: Table, scored: map<string, Score>, allocatedIds: set<string>)
      returns (sortedNodes: seq<Candidate>)
      requires ScoresOf(config, all, scored)
      ensures sortedNodes == Pool(CandidatesByKey(config, all), allocatedIds)
    {
      var cands := CandidateList(all, scored);
      sortedNodes := Pool(cands, allocatedIds);
    }

    /** The keystone loop of greedyAllocate, with its offense and defense
        targets. */
    method AllocateKeystones(sortedNodes: seq<Candidate>, keystoneOffenseTarget: int, keystoneDefenseTarget: int,
                             ghost base: seq<Entry>, ids: set<string>, remaining: int)
      returns (allocatedIds: set<string>, pointsRemaining: int, offK: int, defK: int)
      requires allocatedNodes == base
      modifies this`allocatedNodes
      ensures var r := Fold(Start(ids, remaining), OfKind(sortedNodes, Keystone),
                            KeystonePhase(keystoneOffenseTarget, keystoneDefenseTarget));
              allocatedNodes == base + r.added && r == GState(r.added, allocatedIds, pointsRemaining, offK, defK, 0)
    {
      var keystones := OfKind(sortedNodes, Keystone);
      ghost var ph := KeystonePhase(keystoneOffenseTarget, keystoneDefenseTarget);
      allocatedIds, pointsRemaining, offK, defK := ids, remaining, 0, 0;
      ghost var st0 := Start(ids, remaining);
      ghost var cur := st0;
      assert base + [] == base;
      var i := 0;
      while i < |keystones|
        invariant 0 <= i <= |keystones|
        invariant cur == Fold(st0, keystones[..i], ph)
        invariant allocatedNodes == base + cur.added
        invariant cur == GState(cur.added, allocatedIds, pointsRemaining, offK, defK, 0)
      {
        FoldStep(st0, keystones, ph, i);
        var ks := keystones[i];
        if pointsRemaining > 0 && ks.ident !in allocatedIds {
          var isOffensive := ks.node.offense > ks.node.defense;
          if isOffensive && offK < keystoneOffenseTarget {
            Push(Entry(ks.node, ks.score, false), base, cur.added);
            allocatedIds := allocatedIds + {ks.ident};
            pointsRemaining := pointsRemaining - 1;
            offK := offK + 1;
          } else if !isOffensive && defK < keystoneDefenseTarget {
            Push(Entry(ks.node, ks.score, false), base, cur.added);
            allocatedIds := allocatedIds + {ks.ident};
            pointsRemaining := pointsRemaining - 1;
            defK := defK + 1;
          }
        }
        cur := Step(cur, ks, ph);
        i := i + 1;
      }
      assert keystones[..i] == keystones;
    }

    /** Appends one entry to the allocated list `base + added`. */
    method Push(e: Entry, ghost base: seq<Entry>, ghost added: seq<Entry>)
      requires allocatedNodes == base + added
      modifies this`allocatedNodes
      ensures allocatedNodes == base + (added + [e])
    {
      allocatedNodes := allocatedNodes + [e];
      assert (base + added) + [e] == base + (added + [e]);
    }

    /** The notable loop of greedyAllocate, its target taken from the
        points left after the keystones. */
    method AllocateNotables(sortedNodes: seq<Candidate>, ids: set<string>, remaining: int,
                            ghost base: seq<Entry>, ghost st: GState)
      returns (allocatedIds: set<string>, pointsRemaining: int, notK: int)
      requires allocatedNodes == base + st.added && st.notK == 0
      requires ids == st.ids && remaining == st.remaining
      modifies this`allocatedNodes
      ensures var r := NotableLoop(st, sortedNodes);
              allocatedNodes == base + r.added &&
              r == GState(r.added, allocatedIds, pointsRemaining, st.offK, st.defK, notK)
    {
      var notables := OfKind(sortedNodes, Notable);
      var notableTarget := NotableTarget(remaining);
      ghost var ph := NotablePhase(notableTarget);
      allocatedIds, pointsRemaining, notK := ids, remaining, 0;
      ghost var cur := st;
      var i := 0;
      while i < |notables|
        invariant 0 <= i <= |notables|
        invariant cur == Fold(st, notables[..i], ph)
        invariant allocatedNodes == base + cur.added
        invariant cur == GState(cur.added, allocatedIds, pointsRemaining, st.offK, st.defK, notK)
      {
        FoldStep(st, notables, ph, i);
        var notable := notables[i];
        if pointsRemaining > 0 && notK < notableTarget && notable.ident !in allocatedIds && notable.score >= 3.0 {
          Push(Entry(notable.node, notable.score, false), base, cur.added);
          allocatedIds := allocatedIds + {notable.ident};
          pointsRemaining := pointsRemaining - 1;
          notK := notK + 1;
        }
        cur := Step(cur, notable, ph);
        i := i + 1;
      }
      assert notables[..i] == notables;
    }

    /** The small-node loop of greedyAllocate. */
    method AllocateSmalls(sortedNodes: seq<Candidate>, ids: set<string>, remaining: int,
                          ghost base: seq<Entry>, ghost st: GState)
      requires allocatedNodes == base + st.added
      requires ids == st.ids && remaining == st.remaining
      modifies this`allocatedNodes
      ensures allocatedNodes == base + SmallLoop(st, sortedNodes).added
    {
      var smalls := OfKind(sortedNodes, Small);
      var allocatedIds, pointsRemaining := ids, remaining;
      ghost var cur := st;
      var i := 0;
      while i < |smalls|
        invariant 0 <= i <= |smalls|
        invariant cur == Fold(st, smalls[..i], SmallPhase)
        invariant allocatedNodes == base + cur.added
        invariant cur == GState(cur.added, allocatedIds, pointsRemaining, st.offK, st.defK, st.notK)
      {
        FoldStep(st, smalls, SmallPhase, i);
        var small := smalls[i];
        if pointsRemaining > 0 && small.ident !in allocatedIds && small.score >= 1.0 {
          Push(Entry(small.node, small.score, false), base, cur.added);
          allocatedIds := allocatedIds + {small.ident};
          pointsRemaining := pointsRemaining - 1;
        }
        cur := Step(cur, small, SmallPhase);
        i := i + 1;
      }
      assert smalls[..i] == smalls;
    }

    /** The first loop of localOptimize: the first non-required entry of
        least score, or -1 when every entry is required. */
    method FindLowest() returns (lowestIndex: int, lowestScore: real)
      ensures lowestIndex == -1 <==> LowestIn(allocatedNodes, |allocatedNodes|).None?
      ensures lowestIndex != -1 ==>
                LowestIn(allocatedNodes, |allocatedNodes|) == Some(lowestIndex) &&
                lowestScore == allocatedNodes[lowestIndex].score
    {
      lowestIndex, lowestScore := -1, 0.0;
      var idx := 0;
      while idx < |allocatedNodes|
        invariant 0 <= idx <= |allocatedNodes|
        invariant lowestIndex == -1 <==> LowestIn(allocatedNodes, idx).None?
        invariant lowestIndex != -1 ==>
                    LowestIn(allocatedNodes, idx) == Some(lowestIndex) &&
                    lowestScore == allocatedNodes[lowestIndex].score
      {
        var node := allocatedNodes[idx];
        if !node.required && (lowestIndex == -1 || node.score < lowestScore) {
          lowestScore := node.score;
          lowestIndex := idx;
        }
        idx := idx + 1;
      }
    }

    /** The second loop of localOptimize: the first eligible candidate of
        greatest score above the lowest score, or -1. */
    method FindReplacement(cands: seq<Candidate>, allocatedIds: set<string>, kind: NodeType, lowestScore: real)
      returns (best: int, bestScore: real)
      ensures best == -1 <==> BestIn(cands, |cands|, allocatedIds, kind, lowestScore).None?
      ensures best != -1 ==>
                BestIn(cands, |cands|, allocatedIds, kind, lowestScore) == Some(best) &&
                bestScore == cands[best].score
    {
      best, bestScore := -1, lowestScore;
      var j := 0;
      while j < |cands|
        invariant 0 <= j <= |cands|
        invariant best == -1 <==> BestIn(cands, j, allocatedIds, kind, lowestScore).None?
        invariant best != -1 ==>
                    BestIn(cands, j, allocatedIds, kind, lowestScore) == Some(best) &&
                    bestScore == cands[best].score
        invariant best == -1 ==> bestScore == lowestScore
      {
        var c := cands[j];
        if c.ident !in allocatedIds && c.node.kind == kind && c.score > bestScore {
          best, bestScore := j, c.score;
        }
        j := j + 1;
      }
    }

    /** localOptimize: up to `iterations` swaps, stopping at the first round
        without one. */
    method LocalOptimize(all: Table, scored: map<string, Score>, iterations: nat)
      requires ScoresOf(config, all, scored)
      modifies this`allocatedNodes
      ensures allocatedNodes == LocalSearch(old(allocatedNodes), CandidatesByKey(config, all), iterations)
    {
      var cands := CandidateList(all, scored);
      SwapRounds(cands, iterations);
    }

    /** The rounds of localOptimize over the scored candidates. */
    method SwapRounds(cands: seq<Candidate>, iterations: nat)
      modifies this`allocatedNodes
      ensures allocatedNodes == LocalSearch(old(allocatedNodes), cands, iterations)
    {
      var i := 0;
      while i < iterations
        invariant 0 <= i <= iterations
        invariant LocalSearch(allocatedNodes, cands, iterations - i) == LocalSearch(old(allocatedNodes), cands, iterations)
      {
        var lowestIndex, lowestScore := FindLowest();
        if lowestIndex == -1 {
          break;
        }
        var allocatedIds := IdsOf(allocatedNodes);
        var best, bestScore := FindReplacement(cands, allocatedIds, allocatedNodes[lowestIndex].node.kind, lowestScore);
        if best != -1 && bestScore > lowestScore * 1.1 {
          allocatedNodes := allocatedNodes[lowestIndex := Entry(cands[best].node, bestScore, false)];
        } else {
          break;
        }
        i := i + 1;
      }
    }

    /** calculateFinalStats: sums, efficiency, stat summary, display order. */
    method CalculateFinalStats()
      modifies this
      ensures Results() == Final(AsWritten, old(allocatedNodes))
    {
      var totalScore, maxPossibleScore := AccumulateStats();
      efficiency := if maxPossibleScore > 0 then Round(totalScore / maxPossibleScore as real * 100.0) else 0;
      allocatedNodes := DisplayOrder(allocatedNodes);
    }

    /** The loop of calculateFinalStats over the allocated list. */
    method AccumulateStats() returns (totalScore: real, maxPossibleScore: int)
      modifies this
      ensures allocatedNodes == old(allocatedNodes) && efficiency == old(efficiency)
      ensures totalPoints == |allocatedNodes| && statSummary == StatSummary(AsWritten, allocatedNodes)
      ensures offenseScore == SumOffense(allocatedNodes) && defenseScore == SumDefense(allocatedNodes)
      ensures totalScore == SumScore(allocatedNodes) && maxPossibleScore == MaxPossible(allocatedNodes)
    {
      var nodes := allocatedNodes;
      totalPoints := |nodes|;
      offenseScore := 0.0;
      defenseScore := 0.0;
      statSummary := map[];
      totalScore := 0.0;
      maxPossibleScore := 0;
      var i := 0;
      while i < |nodes|
        invariant 0 <= i <= |nodes|
        invariant allocatedNodes == nodes && efficiency == old(efficiency) && totalPoints == |nodes|
        invariant offenseScore == SumOffense(nodes[..i]) && defenseScore == SumDefense(nodes[..i])
        invariant totalScore == SumScore(nodes[..i]) && maxPossibleScore == MaxPossible(nodes[..i])
        invariant statSummary == StatSummary(AsWritten, nodes[..i])
      {
        var node := nodes[i];
        assert nodes[..i + 1][..i] == nodes[..i];
        offenseScore := offenseScore + node.node.offense;
        defenseScore := defenseScore + node.node.defense;
        totalScore := totalScore + node.score;
        AddStats(nodes, i);
        maxPossibleScore := maxPossibleScore + Cap(node.node.kind);
        i := i + 1;
      }
      assert nodes[..i] == nodes;
    }

    /** The stats of one entry added into the summary. */
    method AddStats(nodes: seq<Entry>, i: int)
      requires 0 <= i < |nodes|
      requires statSummary == StatSummary(AsWritten, nodes[..i])
      modifies this
      ensures statSummary == StatSummary(AsWritten, nodes[..i + 1])
      ensures allocatedNodes == old(allocatedNodes) && totalPoints == old(totalPoints)
      ensures offenseScore == old(offenseScore) && defenseScore == old(defenseScore) && efficiency == old(efficiency)
    {
      var stats := nodes[i].node.stats;
      ghost var m0 := statSummary;
      assert stats[..0] == [];
      var j := 0;
      while j < |stats|
        invariant 0 <= j <= |stats|
        invariant allocatedNodes == old(allocatedNodes) && totalPoints == old(totalPoints)
        invariant offenseScore == old(offenseScore) && defenseScore == old(defenseScore) && efficiency == old(efficiency)
        invariant statSummary == Summarize(m0, ParsedStats(AsWritten, stats[..j]))
      {
        SummarizeStatStep(AsWritten, m0, stats, j);
        var parsed := ParseStatAsWritten(stats[j]);
        AddParsedStat(parsed);
        j := j + 1;
      }
      assert stats[..j] == stats;
      AllStatsStep(nodes, i);
      ParsedStatsAppend(AsWritten, AllStats(nodes[..i]), stats);
      SummarizeAppend(map[], ParsedStats(AsWritten, AllStats(nodes[..i])), ParsedStats(AsWritten, stats));
    }

    /** One parsed stat added into the summary, when its key is not empty. */
    method AddParsedStat(parsed: Parsed)
      modifies this
      ensures statSummary == AddParsed(old(statSummary), parsed)
      ensures allocatedNodes == old(allocatedNodes) && totalPoints == old(totalPoints)
      ensures offenseScore == old(offenseScore) && defenseScore == old(defenseScore) && efficiency == old(efficiency)
    {
      if parsed.key != "" {
        if parsed.key !in statSummary {
          statSummary := statSummary[parsed.key := 0.0];
        }
        statSummary := statSummary[parsed.key := statSummary[parsed.key] + parsed.value];
      }
    }
  }
}
