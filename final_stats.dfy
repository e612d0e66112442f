/** The final statistics of calculateFinalStats (js/optimizer.js:320-363)
    as values: the sums over the allocated list, the efficiency against the
    per-type maximum, the stat summary built with parseStat, and the
    display order. */
module FinalStats {
  import opened Basics
  import opened Tree
  import opened Sorting
  import opened StatParse
  import opened Allocation

  /** The results object. */
  datatype Results = Results(
    allocatedNodes: seq<Entry>,
    totalPoints: int,
    offenseScore: real,
    defenseScore: real,
    efficiency: int,
    statSummary: map<string, real>)

  function SumOffense(es: seq<Entry>): real
    decreases |es|
  {
    if |es| == 0 then 0.0 else SumOffense(es[..|es| - 1]) + es[|es| - 1].node.offense
  }

  function SumDefense(es: seq<Entry>): real
    decreases |es|
  {
    if |es| == 0 then 0.0 else SumDefense(es[..|es| - 1]) + es[|es| - 1].node.defense
  }

  function SumScore(es: seq<Entry>): real
    decreases |es|
  {
    if |es| == 0 then 0.0 else SumScore(es[..|es| - 1]) + es[|es| - 1].score
  }

  /** The best score a node of each type is taken to reach. */
  function Cap(kind: NodeType): (c: int)
    ensures 5 <= c <= 30
  {
    match kind
    case Keystone => 30
    case Notable => 15
    case Small => 5
  }

  function MaxPossible(es: seq<Entry>): int
    decreases |es|
  {
    if |es| == 0 then 0 else MaxPossible(es[..|es| - 1]) + Cap(es[|es| - 1].node.kind)
  }

  /** The maximum lies between 5 and 30 points per node, so it is positive
      exactly when the list is not empty. */
  lemma {:induction false} MaxPossibleBounds(es: seq<Entry>)
    ensures 5 * |es| <= MaxPossible(es) <= 30 * |es|
    decreases |es|
  {
    if |es| > 0 {
      MaxPossibleBounds(es[..|es| - 1]);
    }
  }

  /** Round(100 * total score / maximum), or 0 when the maximum is 0. */
  function Efficiency(es: seq<Entry>): int {
    var m := MaxPossible(es);
    if m > 0 then Round(SumScore(es) / m as real * 100.0) else 0
  }

  /** An entry scores within the cap of its type. */
  predicate WithinCap(e: Entry) {
    0.0 <= e.score <= Cap(e.node.kind) as real
  }

  lemma {:induction false} SumScoreWithinCaps(es: seq<Entry>)
    requires forall i :: 0 <= i < |es| ==> WithinCap(es[i])
    ensures 0.0 <= SumScore(es) <= MaxPossible(es) as real
    decreases |es|
  {
    if |es| > 0 {
      SumScoreWithinCaps(es[..|es| - 1]);
    }
  }

  lemma RatioAtMostOne(a: real, b: real)
    requires 0.0 <= a <= b && b > 0.0
    ensures 0.0 <= a / b * 100.0 <= 100.0
  {
    var q := a / b;
    assert q * b == a;
  }

  /** The efficiency is 0 for an empty list, and a percentage from 0 to
      100 when every node scores within the cap of its type. */
  lemma EfficiencyRange(es: seq<Entry>)
    ensures |es| == 0 ==> Efficiency(es) == 0
    ensures (forall i :: 0 <= i < |es| ==> WithinCap(es[i])) ==> 0 <= Efficiency(es) <= 100
  {
    MaxPossibleBounds(es);
    if |es| > 0 && forall i :: 0 <= i < |es| ==> WithinCap(es[i]) {
      SumScoreWithinCaps(es);
      RatioAtMostOne(SumScore(es), MaxPossible(es) as real);
    }
  }

  // ---------------------------------------------------------------------
  // The stat summary

  /** The stats of every entry, in list order. */
  function AllStats(es: seq<Entry>): seq<string>
    decreases |es|
  {
    if |es| == 0 then [] else AllStats(es[..|es| - 1]) + es[|es| - 1].node.stats
  }

  lemma AllStatsStep(es: seq<Entry>, i: int)
    requires 0 <= i < |es|
    ensures AllStats(es[..i + 1]) == AllStats(es[..i]) + es[i].node.stats
  {
    assert es[..i + 1][..i] == es[..i];
  }

  /** Every stat parsed with parseStat, in order. */
  function ParsedStats(rd: Reading, stats: seq<string>): (r: seq<Parsed>)
    ensures |r| == |stats|
  {
    seq(|stats|, i requires 0 <= i < |stats| => ParseWith(rd, stats[i]))
  }

  lemma ParsedStatsSnoc(rd: Reading, stats: seq<string>, s: string)
    ensures ParsedStats(rd, stats + [s]) == ParsedStats(rd, stats) + [ParseWith(rd, s)]
  {
  }

  lemma ParsedStatsAppend(rd: Reading, a: seq<string>, b: seq<string>)
    ensures ParsedStats(rd, a + b) == ParsedStats(rd, a) + ParsedStats(rd, b)
  {
    var l, r := ParsedStats(rd, a + b), ParsedStats(rd, a) + ParsedStats(rd, b);
    forall i | 0 <= i < |l|
      ensures l[i] == r[i]
    {
      if i < |a| {
        assert (a + b)[i] == a[i];
      } else {
        assert (a + b)[i] == b[i - |a|];
      }
    }
  }

  /** One parsed stat added into the summary, when its key is not empty. */
  function AddParsed(m: map<string, real>, p: Parsed): map<string, real> {
    if p.key == "" then m
    else m[p.key := (if p.key in m then m[p.key] else 0.0) + p.value]
  }

  /** The summary of a list of parsed stats, in order. */
  function Summarize(m: map<string, real>, ps: seq<Parsed>): map<string, real>
    decreases |ps|
  {
    if |ps| == 0 then m else AddParsed(Summarize(m, ps[..|ps| - 1]), ps[|ps| - 1])
  }

  lemma SummarizeSnoc(m: map<string, real>, ps: seq<Parsed>, p: Parsed)
    ensures Summarize(m, ps + [p]) == AddParsed(Summarize(m, ps), p)
  {
    assert (ps + [p])[..|ps|] == ps;
  }

  lemma {:induction false} SummarizeAppend(m: map<string, real>, a: seq<Parsed>, b: seq<Parsed>)
    ensures Summarize(m, a + b) == Summarize(Summarize(m, a), b)
    decreases |b|
  {
    if |b| == 0 {
      assert a + b == a;
    } else {
      SummarizeAppend(m, a, b[..|b| - 1]);
      assert (a + b)[..|a + b| - 1] == a + b[..|b| - 1];
    }
  }

  /** Summarizing one more stat adds it to the summary. */
  lemma SummarizeStatStep(rd: Reading, m: map<string, real>, stats: seq<string>, j: int)
    requires 0 <= j < |stats|
    ensures Summarize(m, ParsedStats(rd, stats[..j + 1])) ==
            AddParsed(Summarize(m, ParsedStats(rd, stats[..j])), ParseWith(rd, stats[j]))
  {
    assert stats[..j + 1] == stats[..j] + [stats[j]];
    ParsedStatsSnoc(rd, stats[..j], stats[j]);
    SummarizeSnoc(m, ParsedStats(rd, stats[..j]), ParseWith(rd, stats[j]));
  }

  /** The sum of the values parsed under `key`. */
  function KeyTotal(ps: seq<Parsed>, key: string): real
    decreases |ps|
  {
    if |ps| == 0 then 0.0
    else KeyTotal(ps[..|ps| - 1], key) + (if ps[|ps| - 1].key == key then ps[|ps| - 1].value else 0.0)
  }

  /** Some stat parses to `key`. */
  predicate HasKey(ps: seq<Parsed>, key: string) {
    exists i :: 0 <= i < |ps| && ps[i].key == key
  }

  lemma {:induction false} KeyTotalAbsent(ps: seq<Parsed>, key: string)
    requires !HasKey(ps, key)
    ensures KeyTotal(ps, key) == 0.0
    decreases |ps|
  {
    if |ps| > 0 {
      KeyTotalAbsent(ps[..|ps| - 1], key);
    }
  }

  /** The summary has a key exactly when some stat parses to it and it is
      not empty, and holds under it the sum of the values parsed under it. */
  lemma {:induction false} SummarizeSpec(ps: seq<Parsed>, key: string)
    ensures key in Summarize(map[], ps) <==> key != "" && HasKey(ps, key)
    ensures key in Summarize(map[], ps) ==> Summarize(map[], ps)[key] == KeyTotal(ps, key)
    decreases |ps|
  {
    if |ps| > 0 {
      var init := ps[..|ps| - 1];
      SummarizeSpec(init, key);
      if HasKey(init, key) {
        var i :| 0 <= i < |init| && init[i].key == key;
        assert ps[i] == init[i];
      }
      if HasKey(ps, key) && ps[|ps| - 1].key != key {
        var i :| 0 <= i < |ps| && ps[i].key == key;
        assert i < |init| && init[i] == ps[i];
      }
      if key !in Summarize(map[], init) && key != "" {
        KeyTotalAbsent(init, key);
      }
    }
  }

  /** The summary of the allocated list: every stat of every entry. */
  function StatSummary(rd: Reading, es: seq<Entry>): map<string, real> {
    Summarize(map[], ParsedStats(rd, AllStats(es)))
  }

  // ---------------------------------------------------------------------
  // Display order

  function TypeRank(e: Entry): int {
    match e.node.kind
    case Keystone => 0
    case Notable => 1
    case Small => 2
  }

  function EntryScore(e: Entry): real {
    e.score
  }

  /** The list sorted for display: keystones, then notables, then small
      nodes, each group by descending score, ties in list order. */
  function DisplayOrder(es: seq<Entry>): (r: seq<Entry>)
    ensures multiset(r) == multiset(es) && |r| == |es|
    ensures forall i, j :: 0 <= i < j < |r| ==>
              TypeRank(r[i]) < TypeRank(r[j]) ||
              (TypeRank(r[i]) == TypeRank(r[j]) && r[i].score >= r[j].score)
  {
    var r := SortBy(es, TypeRank, EntryScore);
    assert forall i, j :: 0 <= i < j < |r| ==> InOrder(TypeRank, EntryScore, r[i], r[j]);
    r
  }

  /** calculateFinalStats on the allocated list, its stats parsed under
      reading `rd`. */
  function Final(rd: Reading, es: seq<Entry>): Results {
    Results(DisplayOrder(es), |es|, SumOffense(es), SumDefense(es), Efficiency(es),
            StatSummary(rd, es))
  }

  /** Taking the last element off `a` and the same element off `b` leaves
      two lists with the same elements. */
  lemma RemoveMatching(a: seq<Entry>, b: seq<Entry>, k: int)
    requires multiset(a) == multiset(b) && |a| > 0 && 0 <= k < |b| && b[k] == a[|a| - 1]
    ensures multiset(a[..|a| - 1]) == multiset(b[..k] + b[k + 1..])
  {
    var x := a[|a| - 1];
    var A, B := multiset(a[..|a| - 1]), multiset(b[..k] + b[k + 1..]);
    assert A + multiset{x} == B + multiset{x} by {
      assert b == b[..k] + [x] + b[k + 1..];
      assert a == a[..|a| - 1] + [x];
    }
    forall y
      ensures A[y] == B[y]
    {
      assert (A + multiset{x})[y] == (B + multiset{x})[y];
    }
  }

  /** Reordering for display keeps the sums. */
  lemma {:induction false} SumsOfPermutation(a: seq<Entry>, b: seq<Entry>)
    requires multiset(a) == multiset(b)
    ensures SumScore(a) == SumScore(b) && SumOffense(a) == SumOffense(b) &&
            SumDefense(a) == SumDefense(b) && MaxPossible(a) == MaxPossible(b)
    decreases |a|
  {
    if |a| == 0 {
      assert |b| == |multiset(b)| == 0;
    } else {
      var x := a[|a| - 1];
      assert x in multiset(b);
      var k :| 0 <= k < |b| && b[k] == x;
      RemoveMatching(a, b, k);
      SumsOfPermutation(a[..|a| - 1], b[..k] + b[k + 1..]);
      SumsRemove(b, k);
    }
  }

  /** Removing one entry from anywhere lowers each sum by its part. */
  lemma {:induction false} SumsRemove(b: seq<Entry>, k: int)
    requires 0 <= k < |b|
    ensures var b' := b[..k] + b[k + 1..];
            SumScore(b) == SumScore(b') + b[k].score &&
            SumOffense(b) == SumOffense(b') + b[k].node.offense &&
            SumDefense(b) == SumDefense(b') + b[k].node.defense &&
            MaxPossible(b) == MaxPossible(b') + Cap(b[k].node.kind)
    decreases |b|
  {
    var b' := b[..k] + b[k + 1..];
    if k < |b| - 1 {
      var init := b[..|b| - 1];
      SumsRemove(init, k);
      assert init[..k] + init[k + 1..] == b'[..|b'| - 1];
      assert b'[|b'| - 1] == b[|b| - 1];
    } else {
      assert b' == b[..|b| - 1];
    }
  }

  /** The results keep the list's nodes, and the efficiency and sums are
      those of the sorted list as well. */
  lemma FinalSpec(rd: Reading, es: seq<Entry>)
    ensures var r := Final(rd, es);
            r.totalPoints == |r.allocatedNodes| && multiset(r.allocatedNodes) == multiset(es) &&
            r.offenseScore == SumOffense(r.allocatedNodes) &&
            r.defenseScore == SumDefense(r.allocatedNodes) &&
            r.efficiency == Efficiency(r.allocatedNodes)
  {
    SumsOfPermutation(es, DisplayOrder(es));
  }
}
