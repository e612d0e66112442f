/** The tree-data object of js/data.js: node tables and the connection table
    that its loaders fill in place. Each loader is proved equal to the value
    model of module Tree, SampleData or Connections. */
module TreeStore {
  import opened Basics
  import opened Tree
  import opened Classes
  import opened SampleData
  import opened Connections

  /** The offense and defense values of a parsed node: one pass over the
      stats, adding the tier weight for each stat that mentions an offense
      (defense) keyword (js/data.js:460-480). */
  method ScoreStats(kind: NodeType, stats: seq<string>) returns (offense: int, defense: int)
    ensures offense == StatScore(kind, stats, OffenseKeywords)
    ensures defense == StatScore(kind, stats, DefenseKeywords)
  {
    offense, defense := 0, 0;
    var i := 0;
    while i < |stats|
      invariant 0 <= i <= |stats|
      invariant offense == StatScore(kind, stats[..i], OffenseKeywords)
      invariant defense == StatScore(kind, stats[..i], DefenseKeywords)
    {
      assert stats[..i + 1][..i] == stats[..i];
      if Mentions(stats[i], OffenseKeywords) {
        offense := offense + Tier(kind);
      }
      if Mentions(stats[i], DefenseKeywords) {
        defense := defense + Tier(kind);
      }
      i := i + 1;
    }
    assert stats[..i] == stats;
  }

  /** One POB node record made into a tree node: its kind, its stats (none
      when absent), offense and defense from the stats, tags from the stats,
      a default name, and its position (js/data.js:449-494). */
  method ParseNode(key: string, raw: RawNode) returns (node: Node)
    ensures node == BuildNode(key, raw)
  {
    var kind := if raw.ks then Keystone else if raw.notable then Notable else Small;
    var offense, defense := ScoreStats(kind, raw.sd);
    var tags := ExtractTagsFromStats(raw.sd);
    node := Node(key, if raw.dn == "" then "Node " + key else raw.dn, kind, raw.sd, tags,
                 offense as real, defense as real, Position(raw.x, raw.y));
  }

  class TreeData {
    var keystones: Table
    var notables: Table
    var smallNodes: Table
    var connections: map<string, seq<string>>
    var isLoaded: bool

    ghost predicate Valid()
      reads this
    {
      WellFormed(keystones) && WellFormed(notables) && WellFormed(smallNodes)
    }

    /** The four tables as a value. */
    function Snapshot(): Store
      reads this
    {
      Store(keystones, notables, smallNodes, connections)
    }

    /** getAllNodes (js/data.js:408-410). */
    function GetAllNodes(): Table
      reads this
      requires Valid()
    {
      Tree.GetAllNodes(keystones, notables, smallNodes)
    }

    /** A tree object holding the given keystone table and nothing else. */
    constructor (keystones: Table)
      requires WellFormed(keystones)
      ensures Valid() && !isLoaded
      ensures Snapshot() == Store(keystones, EmptyTable, EmptyTable, map[])
    {
      this.keystones := keystones;
      notables := EmptyTable;
      smallNodes := EmptyTable;
      connections := map[];
      isLoaded := false;
    }

    /** parsePobtreeNodes: every entry, in order, becomes a node stored under
        its key in the table of its kind; its out-edges, when present,
        replace its connection list. */
    method ParsePobtreeNodes(entries: seq<RawEntry>)
      requires Valid()
      modifies this
      ensures Valid() && isLoaded == old(isLoaded)
      ensures Snapshot() == Ingest(old(Snapshot()), entries)
    {
      ghost var st0 := Snapshot();
      var i := 0;
      while i < |entries|
        invariant 0 <= i <= |entries|
        invariant Valid() && isLoaded == old(isLoaded)
        invariant Snapshot() == Ingest(st0, entries[..i])
      {
        var key, raw := entries[i].key, entries[i].raw;
        var node := ParseNode(key, raw);
        IngestStep(st0, entries, i);
        StoreNode(key, node, raw.out);
        i := i + 1;
      }
      assert entries[..i] == entries;
    }

    /** Stores `node` under `key` in the table of its kind and, when there
        are out-edges, records them as the key's connections
        (js/data.js:496-508). */
    method StoreNode(key: string, node: Node, out: Option<seq<string>>)
      requires Valid()
      modifies this
      ensures Valid() && isLoaded == old(isLoaded)
      ensures Snapshot() == StorePut(old(Snapshot()), key, node, out)
    {
      if node.kind == Keystone {
        keystones := Put(keystones, key, node);
      } else if node.kind == Notable {
        notables := Put(notables, key, node);
      } else {
        smallNodes := Put(smallNodes, key, node);
      }
      if out.Some? {
        connections := connections[key := out.value];
      }
    }

    /** generateSampleNotables: each template, typed notable and placed on
        the grid, is stored under its id. */
    method GenerateSampleNotables(templates: seq<NotableTemplate>)
      requires Valid()
      modifies this`notables
      ensures Valid()
      ensures notables == PutNodes(old(notables), SampleNotables(templates))
    {
      var all := SampleNotables(templates);
      var index := 0;
      while index < |templates|
        invariant 0 <= index <= |templates|
        invariant Valid()
        invariant notables == PutNodes(old(notables), all[..index])
      {
        var t := templates[index];
        var notable := Node(t.id, t.name, Notable, t.stats, t.tags, t.offense, t.defense,
                            Position((index % 10) * 80 - 400, (index / 10) * 80 - 300));
        assert notable == all[index];
        PutNodesStep(old(notables), all, index);
        notables := Put(notables, notable.id, notable);
        index := index + 1;
      }
      assert all[..index] == all;
    }

    /** generateSampleSmallNodes: eight numbered copies of each template,
        placed on a twenty-wide grid by a running index. */
    method GenerateSampleSmallNodes(templates: seq<SmallTemplate>)
      requires Valid()
      modifies this`smallNodes
      ensures Valid()
      ensures smallNodes == PutNodes(old(smallNodes), SampleSmallNodes(templates))
    {
      var nodeIndex := 0;
      var t := 0;
      while t < |templates|
        invariant 0 <= t <= |templates| && nodeIndex == 8 * t
        invariant Valid()
        invariant smallNodes == SmallPrefix(old(smallNodes), templates, nodeIndex)
      {
        nodeIndex := AddCopies(templates, t, nodeIndex, old(smallNodes));
        t := t + 1;
      }
      SmallPrefixAll(old(smallNodes), templates);
    }

    /** The inner loop of generateSampleSmallNodes: the eight copies of
        template `t`, numbered 1 to 8, at the next grid places. */
    method AddCopies(templates: seq<SmallTemplate>, t: int, nodeIndex0: int, ghost base: Table)
      returns (nodeIndex: int)
      requires 0 <= t < |templates| && nodeIndex0 == 8 * t
      requires Valid() && WellFormed(base)
      requires smallNodes == SmallPrefix(base, templates, nodeIndex0)
      modifies this`smallNodes
      ensures Valid() && nodeIndex == nodeIndex0 + 8
      ensures smallNodes == SmallPrefix(base, templates, nodeIndex)
    {
      var nodeType := templates[t];
      nodeIndex := nodeIndex0;
      var i := 1;
      while i <= 8
        invariant 1 <= i <= 9 && nodeIndex == nodeIndex0 + i - 1 && nodeIndex <= 8 * |templates|
        invariant smallNodes == SmallPrefix(base, templates, nodeIndex)
      {
        var node := SampleSmallNode(nodeType, i, nodeIndex);
        SmallCopyStep(base, templates, t, i);
        smallNodes := Put(smallNodes, node.id, node);
        nodeIndex := nodeIndex + 1;
        i := i + 1;
      }
    }

    /** generateConnections: each node of the merged table is linked to the
        other nodes within distance 100, then each class start node is
        linked to the first five small nodes. */
    method GenerateConnections()
      requires Valid()
      modifies this
      ensures Valid()
      ensures connections == Connect(old(connections), GetAllNodes(), smallNodes.keys)
      ensures keystones == old(keystones) && notables == old(notables) && smallNodes == old(smallNodes)
      ensures isLoaded == old(isLoaded)
    {
      var all := GetAllNodes();
      var nodeIds := all.keys;
      var i := 0;
      while i < |nodeIds|
        invariant 0 <= i <= |nodeIds|
        invariant connections == LinkAll(old(connections), all, nodeIds[..i])
        invariant (keystones, notables, smallNodes, isLoaded) == old((keystones, notables, smallNodes, isLoaded))
      {
        LinkAllStep(old(connections), all, nodeIds, i);
        LinkNearby(all, nodeIds[i]);
        i := i + 1;
      }
      assert nodeIds[..i] == nodeIds;
      ghost var linked := connections;
      var starts := StartNodes();
      var first := smallNodes.keys[..Min(5, |smallNodes.keys|)];
      var c := 0;
      while c < |starts|
        invariant 0 <= c <= |starts|
        invariant connections == WireStarts(linked, starts[..c], first)
        invariant (keystones, notables, smallNodes, isLoaded) == old((keystones, notables, smallNodes, isLoaded))
      {
        WireStartsStep(linked, starts, c, first);
        WireStart(starts[c], first);
        c := c + 1;
      }
      assert starts[..c] == starts;
    }

    /** One pass of the first loop of generateConnections: `nodeId` gets the
        list of the other nodes of `all` within distance 100, in key order.
        The list is pushed to in a local variable and stored once; nothing
        reads the connection table in between. */
    method LinkNearby(all: Table, nodeId: string)
      requires WellFormed(all) && nodeId in all.nodes
      modifies this
      ensures connections == old(connections)[nodeId := NeighboursAmong(all, nodeId, all.keys)]
      ensures (keystones, notables, smallNodes, isLoaded) == old((keystones, notables, smallNodes, isLoaded))
    {
      var nodeIds := all.keys;
      var node := all.nodes[nodeId];
      var list := [];
      var j := 0;
      while j < |nodeIds|
        invariant 0 <= j <= |nodeIds|
        invariant list == NeighboursAmong(all, nodeId, nodeIds[..j])
        invariant unchanged(this)
      {
        NeighboursStep(all, nodeId, nodeIds, j);
        var otherId := nodeIds[j];
        if nodeId != otherId {
          var other := all.nodes[otherId];
          var dx := Abs(node.position.x - other.position.x);
          var dy := Abs(node.position.y - other.position.y);
          SquareOfAbs(node.position.x - other.position.x);
          SquareOfAbs(node.position.y - other.position.y);
          if dx * dx + dy * dy < 10000 {
            list := list + [otherId];
          } else {
            assert list + [] == list;
          }
        } else {
          assert list + [] == list;
        }
        j := j + 1;
      }
      assert nodeIds[..j] == nodeIds;
      connections := connections[nodeId := list];
    }

    /** One pass of the second loop of generateConnections: the start node
        gets the list `first`, pushed one by one. */
    method WireStart(start: string, first: seq<string>)
      modifies this
      ensures connections == old(connections)[start := first]
      ensures (keystones, notables, smallNodes, isLoaded) == old((keystones, notables, smallNodes, isLoaded))
    {
      connections := connections[start := []];
      var j := 0;
      while j < |first|
        invariant 0 <= j <= |first|
        invariant connections == old(connections)[start := first[..j]]
        invariant (keystones, notables, smallNodes, isLoaded) == old((keystones, notables, smallNodes, isLoaded))
      {
        assert first[..j + 1] == first[..j] + [first[j]];
        connections := connections[start := connections[start] + [first[j]]];
        j := j + 1;
      }
      assert first[..j] == first;
    }

    /** init: the sample notables, then the sample small nodes, then the
        connections; the data is then marked loaded. */
    method Init(notableTemplates: seq<NotableTemplate>, smallTemplates: seq<SmallTemplate>)
      requires Valid()
      modifies this
      ensures Valid() && isLoaded
      ensures keystones == old(keystones)
      ensures notables == PutNodes(old(notables), SampleNotables(notableTemplates))
      ensures smallNodes == PutNodes(old(smallNodes), SampleSmallNodes(smallTemplates))
      ensures connections == Connect(old(connections), GetAllNodes(), smallNodes.keys)
    {
      GenerateSampleNotables(notableTemplates);
      GenerateSampleSmallNodes(smallTemplates);
      GenerateConnections();
      isLoaded := true;
    }

    /** loadFromJSON: ingests the node list when there is one and marks the
        data loaded; it always reports success. */
    method LoadFromJSON(nodes: Option<seq<RawEntry>>) returns (ok: bool)
      requires Valid()
      modifies this
      ensures Valid() && isLoaded && ok
      ensures Snapshot() == (if nodes.Some? then Ingest(old(Snapshot()), nodes.value) else old(Snapshot()))
    {
      if nodes.Some? {
        ParsePobtreeNodes(nodes.value);
      }
      isLoaded := true;
      ok := true;
    }
  }

  /** Math.abs on integers. */
  function Abs(x: int): (r: nat)
    ensures r == x || r == -x
  {
    if x < 0 then -x else x
  }

  lemma SquareOfAbs(x: int)
    ensures Abs(x) * Abs(x) == x * x
  {
  }
}
