/** Node scoring of js/optimizer.js:108-175: a relevance factor from the
    skill's tags and weapon types, the weighted offense and defense values,
    and a multiplier for the node's kind. Arithmetic is on exact reals. */
module Scoring {
  import opened Text
  import opened Tree

  /** The optimizer's configuration. A missing weapon type (null) is the
      empty list: both give no weapon bonus. */
  datatype Config = Config(
    maxPoints: int,
    requiredKeystones: seq<string>,
    offenseWeight: real,
    defenseWeight: real,
    skillTags: seq<string>,
    weaponType: seq<string>,
    ascendancy: string)

  /** The score record of one node. */
  datatype Score = Score(
    nodeId: string,
    relevance: real,
    offense: real,
    defense: real,
    total: real,
    perPoint: real)

  /** Damage types whose match earns the 1.3 bonus. */
  const KeyTags: seq<string> := ["fire", "cold", "lightning", "physical", "chaos", "minion"]

  /** The node's tags that the skill also has, with repetitions, in order. */
  function MatchingTags(tags: seq<string>, skillTags: seq<string>): (r: seq<string>)
    ensures |r| <= |tags|
    ensures forall t :: t in r <==> t in tags && t in skillTags
    decreases |tags|
  {
    if |tags| == 0 then []
    else
      var init := tags[..|tags| - 1];
      var last := tags[|tags| - 1];
      assert forall t :: t in tags <==> t in init || t == last;
      MatchingTags(init, skillTags) + (if last in skillTags then [last] else [])
  }

  predicate HasKeyTag(matching: seq<string>) {
    exists t :: t in matching && t in KeyTags
  }

  /** Some weapon type is one of the node's tags or occurs in one of its
      lower-cased stats. */
  predicate WeaponMatch(weaponType: seq<string>, node: Node) {
    exists w :: w in weaponType &&
      (w in node.tags || exists s :: s in node.stats && Contains(ToLower(s), w))
  }

  /** The relevance factor: 1 without skill tags; otherwise 1 plus one half
      per matching tag, times 1.3 for a key damage type among the matches,
      times 1.4 for a weapon match. */
  function Relevance(config: Config, node: Node): (r: real)
    ensures r >= 1.0
    ensures |config.skillTags| == 0 ==> r == 1.0
  {
    if |config.skillTags| == 0 then 1.0
    else
      var matching := MatchingTags(node.tags, config.skillTags);
      var base := 1.0 + 0.5 * |matching| as real;
      var withKey := if HasKeyTag(matching) then base * 1.3 else base;
      if WeaponMatch(config.weaponType, node) then withKey * 1.4 else withKey
  }

  /** The factor is exactly 1 when the skill has no tags, or when no tag
      matches and no weapon type matches; any match raises it. */
  lemma RelevanceNeutral(config: Config, node: Node)
    ensures Relevance(config, node) == 1.0 <==>
              |config.skillTags| == 0 ||
              (|MatchingTags(node.tags, config.skillTags)| == 0 && !WeaponMatch(config.weaponType, node))
  {
    if |config.skillTags| > 0 {
      var matching := MatchingTags(node.tags, config.skillTags);
      var base := 1.0 + 0.5 * |matching| as real;
      if |matching| > 0 {
        assert base >= 1.5;
      }
    }
  }

  /** The factor never exceeds the value for every tag matching, a key
      damage type and a weapon match together. */
  lemma RelevanceBound(config: Config, node: Node)
    ensures Relevance(config, node) <= (1.0 + 0.5 * |node.tags| as real) * 1.3 * 1.4
  {
    if |config.skillTags| > 0 {
      var matching := MatchingTags(node.tags, config.skillTags);
      var base := 1.0 + 0.5 * |matching| as real;
      var top := 1.0 + 0.5 * |node.tags| as real;
      assert base <= top;
      assert base * 1.3 * 1.4 <= top * 1.3 * 1.4;
    }
  }

  /** 2 for a keystone, 1.5 for a notable, 1 for a small node. */
  function TypeMultiplier(kind: NodeType): (m: real)
    ensures m >= 1.0
  {
    match kind
    case Keystone => 2.0
    case Notable => 1.5
    case Small => 1.0
  }

  /** The weighted sum scaled by relevance and by the kind multiplier. */
  function Scaled(weighted: real, relevance: real, multiplier: real): real {
    weighted * relevance * multiplier
  }

  /** scoreNode: weighted offense plus weighted defense, times relevance,
      times the kind multiplier. */
  function ScoreNode(config: Config, node: Node): (r: Score)
    ensures r.nodeId == node.id && r.perPoint == r.total
    ensures r.relevance == Relevance(config, node)
    ensures r.offense == node.offense * config.offenseWeight && r.defense == node.defense * config.defenseWeight
  {
    var relevance := Relevance(config, node);
    var weightedOffense := node.offense * config.offenseWeight;
    var weightedDefense := node.defense * config.defenseWeight;
    var total := Scaled(weightedOffense + weightedDefense, relevance, TypeMultiplier(node.kind));
    Score(node.id, relevance, weightedOffense, weightedDefense, total, total)
  }

  lemma ScaledAtLeast(w: real, relevance: real, multiplier: real)
    requires w >= 0.0 && relevance >= 1.0 && multiplier >= 1.0
    ensures Scaled(w, relevance, multiplier) >= w
  {
    var p := w * relevance;
    assert p - w == w * (relevance - 1.0);
    assert p * multiplier - p == p * (multiplier - 1.0);
  }

  lemma MulNonNegative(a: real, b: real)
    requires a >= 0.0 && b >= 0.0
    ensures a * b >= 0.0
  {
  }

  /** With non-negative values and weights the total is at least the
      weighted sum, and so never negative. */
  lemma ScoreAtLeastWeighted(config: Config, node: Node)
    requires config.offenseWeight >= 0.0 && config.defenseWeight >= 0.0
    requires node.offense >= 0.0 && node.defense >= 0.0
    ensures var r := ScoreNode(config, node);
            0.0 <= r.offense + r.defense <= r.total
  {
    var r := ScoreNode(config, node);
    MulNonNegative(node.offense, config.offenseWeight);
    MulNonNegative(node.defense, config.defenseWeight);
    ScaledAtLeast(r.offense + r.defense, r.relevance, TypeMultiplier(node.kind));
  }

  /** Relevance looks only at a node's tags and stats. */
  lemma RelevanceOfContent(config: Config, a: Node, b: Node)
    requires a.tags == b.tags && a.stats == b.stats
    ensures Relevance(config, a) == Relevance(config, b)
  {
  }

  /** Scaling by multiplier `m` is scaling by 1 and then by `m`. */
  lemma ScaledByMultiplier(w: real, relevance: real, m: real)
    ensures Scaled(w, relevance, m) == m * Scaled(w, relevance, 1.0)
  {
  }

  /** The same node scores twice as much as a keystone, and one and a half
      times as much as a notable, as it does as a small node. */
  lemma KindMultipliers(config: Config, node: Node)
    ensures ScoreNode(config, node.(kind := Keystone)).total == 2.0 * ScoreNode(config, node.(kind := Small)).total
    ensures ScoreNode(config, node.(kind := Notable)).total == 1.5 * ScoreNode(config, node.(kind := Small)).total
  {
    var k, n, s := node.(kind := Keystone), node.(kind := Notable), node.(kind := Small);
    RelevanceOfContent(config, k, s);
    RelevanceOfContent(config, n, s);
    var w := node.offense * config.offenseWeight + node.defense * config.defenseWeight;
    ScaledByMultiplier(w, Relevance(config, s), 2.0);
    ScaledByMultiplier(w, Relevance(config, s), 1.5);
  }

  /** The total is the weighted offense plus the weighted defense, scaled
      by the relevance factor and by the kind multiplier. */
  lemma ScoreNodeTotal(config: Config, node: Node)
    ensures var r := ScoreNode(config, node);
            r.total == Scaled(r.offense + r.defense, r.relevance, TypeMultiplier(node.kind))
  {
  }

  /** Without skill tags the total is the weighted sum times the kind
      multiplier: tags and weapon types play no part. */
  lemma NoSkillTagsNoRelevance(config: Config, node: Node)
    requires |config.skillTags| == 0
    ensures ScoreNode(config, node).total ==
              (node.offense * config.offenseWeight + node.defense * config.defenseWeight) * TypeMultiplier(node.kind)
  {
  }
}
