/** The node lists that generateSampleSmallNodes and generateSampleNotables
    (js/data.js:244-366) put into the tables: eight numbered copies of every
    small-node template, and every notable template with its type and grid
    position. The literal template lists are inputs here. */
module SampleData {
  import opened Tree

  datatype SmallTemplate = SmallTemplate(
    prefix: string,
    name: string,
    stats: seq<string>,
    tags: seq<string>,
    offense: real,
    defense: real)

  datatype NotableTemplate = NotableTemplate(
    id: string,
    name: string,
    stats: seq<string>,
    tags: seq<string>,
    offense: real,
    defense: real)

  /** The template literal `s_${prefix}_${i}` for a copy number 1..8. */
  function SmallId(prefix: string, i: int): (r: string)
    requires 1 <= i <= 8
    ensures |r| == |prefix| + 4
  {
    "s_" + prefix + "_" + [('0' as int + i) as char]
  }

  lemma SmallIdInjective(p: string, i: int, q: string, j: int)
    requires 1 <= i <= 8 && 1 <= j <= 8
    ensures SmallId(p, i) == SmallId(q, j) <==> p == q && i == j
  {
    var a, b := SmallId(p, i), SmallId(q, j);
    if a == b {
      assert a[|a| - 1] == b[|b| - 1];
      assert p == a[2..|a| - 2] && q == b[2..|b| - 2];
    }
  }

  /** The grid slot of the `index`-th generated small node. */
  function SmallPosition(index: nat): Position {
    Position((index % 20) * 50 - 500, (index / 20) * 50 + 200)
  }

  function SampleSmallNode(t: SmallTemplate, i: int, index: nat): Node
    requires 1 <= i <= 8
  {
    Node(SmallId(t.prefix, i), t.name, Small, t.stats, t.tags, t.offense, t.defense, SmallPosition(index))
  }

  /** All generated small nodes in generation order: for each template,
      copies 1 to 8, numbered by a running index. */
  function SampleSmallNodes(templates: seq<SmallTemplate>): seq<Node> {
    seq(8 * |templates|, n requires 0 <= n < 8 * |templates| => SampleSmallNode(templates[n / 8], n % 8 + 1, n))
  }

  /** Exactly eight nodes per template; copy `i` of template `t` is a small
      node with id s_<prefix>_<i> and the template's stats and tags. */
  lemma SampleSmallNodesShape(templates: seq<SmallTemplate>, t: int, i: int)
    requires 0 <= t < |templates| && 1 <= i <= 8
    ensures |SampleSmallNodes(templates)| == 8 * |templates|
    ensures var n := SampleSmallNodes(templates)[8 * t + i - 1];
            n.id == SmallId(templates[t].prefix, i) && n.kind == Small &&
            n.stats == templates[t].stats && n.tags == templates[t].tags &&
            n.name == templates[t].name && n.offense == templates[t].offense && n.defense == templates[t].defense
  {
    var n := 8 * t + i - 1;
    assert n / 8 == t && n % 8 == i - 1;
  }

  /** Copy `i` of template `t` sits at position 8t + i - 1 of the list. */
  lemma SampleSmallNodeAt(templates: seq<SmallTemplate>, t: int, i: int)
    requires 0 <= t < |templates| && 1 <= i <= 8
    ensures 8 * t + i - 1 < |SampleSmallNodes(templates)|
    ensures SampleSmallNodes(templates)[8 * t + i - 1] == SampleSmallNode(templates[t], i, 8 * t + i - 1)
  {
    var n := 8 * t + i - 1;
    assert n / 8 == t && n % 8 == i - 1;
  }

  /** The table after storing the first `n` generated small nodes. */
  ghost function SmallPrefix(base: Table, templates: seq<SmallTemplate>, n: int): (r: Table)
    requires WellFormed(base) && 0 <= n <= 8 * |templates|
    ensures WellFormed(r)
  {
    PutNodes(base, SampleSmallNodes(templates)[..n])
  }

  /** Storing copy `i` of template `t` extends the stored prefix of the
      generated list by one node. */
  lemma SmallCopyStep(base: Table, templates: seq<SmallTemplate>, t: int, i: int)
    requires WellFormed(base) && 0 <= t < |templates| && 1 <= i <= 8
    ensures 8 * t + i <= 8 * |templates|
    ensures SmallPrefix(base, templates, 8 * t + i)
         == Put(SmallPrefix(base, templates, 8 * t + i - 1),
                SmallId(templates[t].prefix, i), SampleSmallNode(templates[t], i, 8 * t + i - 1))
  {
    SampleSmallNodeAt(templates, t, i);
    PutNodesStep(base, SampleSmallNodes(templates), 8 * t + i - 1);
  }

  /** Storing every generated node is storing the whole list. */
  lemma SmallPrefixAll(base: Table, templates: seq<SmallTemplate>)
    requires WellFormed(base)
    ensures SmallPrefix(base, templates, 8 * |templates|) == PutNodes(base, SampleSmallNodes(templates))
  {
    assert SampleSmallNodes(templates)[..8 * |templates|] == SampleSmallNodes(templates);
  }

  /** With distinct prefixes the generated ids are distinct. */
  lemma SampleSmallIdsDistinct(templates: seq<SmallTemplate>)
    requires forall a, b :: 0 <= a < b < |templates| ==> templates[a].prefix != templates[b].prefix
    ensures Distinct(Ids(SampleSmallNodes(templates)))
  {
    var s := SampleSmallNodes(templates);
    forall a, b | 0 <= a < b < |s| ensures s[a].id != s[b].id {
      SmallIdInjective(templates[a / 8].prefix, a % 8 + 1, templates[b / 8].prefix, b % 8 + 1);
    }
  }

  /** The notable nodes: each template with type notable and a slot on a
      ten-wide grid. */
  function SampleNotables(templates: seq<NotableTemplate>): (r: seq<Node>)
    ensures |r| == |templates|
    ensures forall i :: 0 <= i < |templates| ==> r[i].id == templates[i].id && r[i].kind == Notable
  {
    seq(|templates|, i requires 0 <= i < |templates| =>
      var t := templates[i];
      Node(t.id, t.name, Notable, t.stats, t.tags, t.offense, t.defense,
           Position((i % 10) * 80 - 400, (i / 10) * 80 - 300)))
  }

  function Ids(nodes: seq<Node>): (r: seq<string>)
    ensures |r| == |nodes| && forall i :: 0 <= i < |nodes| ==> r[i] == nodes[i].id
  {
    seq(|nodes|, i requires 0 <= i < |nodes| => nodes[i].id)
  }

  /** `table[node.id] = node` for each node in order. */
  function PutNodes(t: Table, nodes: seq<Node>): (r: Table)
    requires WellFormed(t)
    ensures WellFormed(r)
    decreases |nodes|
  {
    if |nodes| == 0 then t
    else
      var last := nodes[|nodes| - 1];
      Put(PutNodes(t, nodes[..|nodes| - 1]), last.id, last)
  }

  /** PutNodes keeps the keys in JavaScript's order, with t's non-index
      keys first among the non-index keys. */
  lemma {:induction false} PutNodesOrder(t: Table, nodes: seq<Node>)
    requires WellFormed(t)
    ensures var r := PutNodes(t, nodes);
            (JsOrdered(t.keys) ==> JsOrdered(r.keys)) &&
            |Named(t.keys)| <= |Named(r.keys)| && Named(r.keys)[..|Named(t.keys)|] == Named(t.keys)
    decreases |nodes|
  {
    if |nodes| > 0 {
      var last := nodes[|nodes| - 1];
      var prev := PutNodes(t, nodes[..|nodes| - 1]);
      PutNodesOrder(t, nodes[..|nodes| - 1]);
      PutOrder(prev, last.id, last);
      var r := Put(prev, last.id, last);
      assert Named(r.keys)[..|Named(prev.keys)|] == Named(prev.keys);
      PrefixOfPrefix(Named(t.keys), Named(prev.keys), Named(r.keys));
    }
  }

  /** One more node at the end of the list is one more Put. */
  lemma PutNodesStep(t: Table, nodes: seq<Node>, i: int)
    requires WellFormed(t) && 0 <= i < |nodes|
    ensures PutNodes(t, nodes[..i + 1]) == Put(PutNodes(t, nodes[..i]), nodes[i].id, nodes[i])
  {
    assert nodes[..i + 1][..i] == nodes[..i];
  }

  /** PutNodes adds exactly the listed ids and leaves every other key as
      it was. */
  lemma {:induction false} PutNodesKeys(t: Table, nodes: seq<Node>, k: string)
    requires WellFormed(t)
    ensures var r := PutNodes(t, nodes);
            (k in r.nodes <==> k in t.nodes || k in Ids(nodes)) &&
            (k in t.nodes && k !in Ids(nodes) ==> r.nodes[k] == t.nodes[k])
    decreases |nodes|
  {
    if |nodes| > 0 {
      var init := nodes[..|nodes| - 1];
      PutNodesKeys(t, init, k);
      assert Ids(init) == Ids(nodes)[..|nodes| - 1];
      assert k in Ids(nodes) <==> k in Ids(init) || k == nodes[|nodes| - 1].id;
    }
  }

  /** A node whose id no later node repeats is stored under its id. */
  lemma {:induction false} PutNodesLast(t: Table, nodes: seq<Node>, i: int)
    requires WellFormed(t) && 0 <= i < |nodes|
    requires forall j :: i < j < |nodes| ==> nodes[j].id != nodes[i].id
    ensures var r := PutNodes(t, nodes);
            nodes[i].id in r.nodes && r.nodes[nodes[i].id] == nodes[i]
    decreases |nodes|
  {
    if i < |nodes| - 1 {
      var init := nodes[..|nodes| - 1];
      assert init[i] == nodes[i];
      PutNodesLast(t, init, i);
    }
  }

  /** With distinct prefixes every generated small node ends up in the
      table under its own id. */
  lemma SampleSmallNodesStored(t: Table, templates: seq<SmallTemplate>)
    requires WellFormed(t)
    requires forall a, b :: 0 <= a < b < |templates| ==> templates[a].prefix != templates[b].prefix
    ensures var s := SampleSmallNodes(templates);
            forall i :: 0 <= i < |s| ==> s[i].id in PutNodes(t, s).nodes && PutNodes(t, s).nodes[s[i].id] == s[i]
  {
    SampleSmallIdsDistinct(templates);
    var s := SampleSmallNodes(templates);
    forall i | 0 <= i < |s| ensures s[i].id in PutNodes(t, s).nodes && PutNodes(t, s).nodes[s[i].id] == s[i] {
      forall j | i < j < |s| ensures s[j].id != s[i].id {
        assert Ids(s)[i] != Ids(s)[j];
      }
      PutNodesLast(t, s, i);
    }
  }
}
