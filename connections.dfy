/** The adjacency that generateConnections (js/data.js:368-405) builds: every
    pair of distinct nodes closer than 100 units is linked, then every class
    start node is linked to the first five small nodes. Nothing in the
    optimizer reads these lists. */
module Connections {
  import opened Basics
  import opened Tree
  import opened Classes

  /** Distance below 100, compared on squares: sqrt(dx*dx + dy*dy) < 100. */
  predicate Near(a: Position, b: Position) {
    (a.x - b.x) * (a.x - b.x) + (a.y - b.y) * (a.y - b.y) < 10000
  }

  lemma NearSymmetric(a: Position, b: Position)
    ensures Near(a, b) <==> Near(b, a)
  {
    assert (a.x - b.x) * (a.x - b.x) == (b.x - a.x) * (b.x - a.x);
    assert (a.y - b.y) * (a.y - b.y) == (b.y - a.y) * (b.y - a.y);
  }

  /** The keys among `others`, in order, that are near `k` and not `k`. */
  function NeighboursAmong(all: Table, k: string, others: seq<string>): seq<string>
    requires k in all.nodes && forall o :: o in others ==> o in all.nodes
    decreases |others|
  {
    if |others| == 0 then []
    else
      var last := others[|others| - 1];
      NeighboursAmong(all, k, others[..|others| - 1]) +
        (if last != k && Near(all.nodes[k].position, all.nodes[last].position) then [last] else [])
  }

  /** The neighbour list holds exactly the other near keys among `others`. */
  lemma {:induction false} NeighboursMembers(all: Table, k: string, others: seq<string>)
    requires k in all.nodes && forall o :: o in others ==> o in all.nodes
    ensures forall o :: o in NeighboursAmong(all, k, others) <==>
              o in others && o != k && Near(all.nodes[k].position, all.nodes[o].position)
    decreases |others|
  {
    if |others| > 0 {
      var init := others[..|others| - 1];
      assert forall o :: o in others <==> o in init || o == others[|others| - 1];
      NeighboursMembers(all, k, init);
    }
  }

  /** One more candidate at the end is appended when it is near and not `k`. */
  lemma NeighboursStep(all: Table, k: string, others: seq<string>, j: int)
    requires k in all.nodes && 0 <= j < |others| && forall o :: o in others ==> o in all.nodes
    ensures NeighboursAmong(all, k, others[..j + 1]) ==
              NeighboursAmong(all, k, others[..j]) +
              (if others[j] != k && Near(all.nodes[k].position, all.nodes[others[j]].position) then [others[j]] else [])
  {
    assert others[..j + 1][..j] == others[..j];
  }

  /** The first loop: each key of `ks` gets its list of near neighbours. */
  function LinkAll(base: map<string, seq<string>>, all: Table, ks: seq<string>): (r: map<string, seq<string>>)
    requires WellFormed(all) && forall k :: k in ks ==> k in all.nodes
    ensures forall k :: k in ks ==> k in r && r[k] == NeighboursAmong(all, k, all.keys)
    ensures forall k :: k !in ks ==> (k in r <==> k in base) && (k in base ==> r[k] == base[k])
    decreases |ks|
  {
    if |ks| == 0 then base
    else
      var init := ks[..|ks| - 1];
      var last := ks[|ks| - 1];
      assert forall k :: k in ks <==> k in init || k == last;
      LinkAll(base, all, init)[last := NeighboursAmong(all, last, all.keys)]
  }

  /** One more key at the end is one more neighbour list. */
  lemma LinkAllStep(base: map<string, seq<string>>, all: Table, ks: seq<string>, i: int)
    requires WellFormed(all) && 0 <= i < |ks| && forall k :: k in ks ==> k in all.nodes
    ensures LinkAll(base, all, ks[..i + 1]) == LinkAll(base, all, ks[..i])[ks[i] := NeighboursAmong(all, ks[i], all.keys)]
  {
    assert ks[..i + 1][..i] == ks[..i];
  }

  /** The second loop: each start node gets the list `first`. */
  function WireStarts(conn: map<string, seq<string>>, starts: seq<string>, first: seq<string>): (r: map<string, seq<string>>)
    ensures forall s :: s in starts ==> s in r && r[s] == first
    ensures forall k :: k !in starts ==> (k in r <==> k in conn) && (k in conn ==> r[k] == conn[k])
    decreases |starts|
  {
    if |starts| == 0 then conn
    else
      var init := starts[..|starts| - 1];
      assert forall k :: k in starts <==> k in init || k == starts[|starts| - 1];
      WireStarts(conn, init, first)[starts[|starts| - 1] := first]
  }

  /** One more start node at the end is one more list. */
  lemma WireStartsStep(conn: map<string, seq<string>>, starts: seq<string>, c: int, first: seq<string>)
    requires 0 <= c < |starts|
    ensures WireStarts(conn, starts[..c + 1], first) == WireStarts(conn, starts[..c], first)[starts[c] := first]
  {
    assert starts[..c + 1][..c] == starts[..c];
  }

  /** The connection table after generateConnections, from the table before,
      the merged node table and the small-node keys. */
  function Connect(base: map<string, seq<string>>, all: Table, smallKeys: seq<string>): map<string, seq<string>>
    requires WellFormed(all)
  {
    WireStarts(LinkAll(base, all, all.keys), StartNodes(), smallKeys[..Min(5, |smallKeys|)])
  }

  /** No node other than a class start is linked to itself. */
  lemma NoSelfLinks(base: map<string, seq<string>>, all: Table, smallKeys: seq<string>, k: string)
    requires WellFormed(all) && k in all.nodes && k !in StartNodes()
    ensures k in Connect(base, all, smallKeys) && k !in Connect(base, all, smallKeys)[k]
  {
    NeighboursMembers(all, k, all.keys);
  }

  /** Among nodes that are not class starts the links go both ways. */
  lemma LinksSymmetric(base: map<string, seq<string>>, all: Table, smallKeys: seq<string>, a: string, b: string)
    requires WellFormed(all)
    requires a in all.nodes && b in all.nodes && a !in StartNodes() && b !in StartNodes()
    ensures var conn := Connect(base, all, smallKeys);
            a in conn && b in conn && (b in conn[a] <==> a in conn[b])
  {
    NearSymmetric(all.nodes[a].position, all.nodes[b].position);
    NeighboursMembers(all, a, all.keys);
    NeighboursMembers(all, b, all.keys);
  }

  /** Each class start node is linked to exactly the first five small nodes. */
  lemma StartLinks(base: map<string, seq<string>>, all: Table, smallKeys: seq<string>, s: string)
    requires WellFormed(all) && s in StartNodes()
    ensures var conn := Connect(base, all, smallKeys);
            s in conn && conn[s] == smallKeys[..Min(5, |smallKeys|)] && |conn[s]| <= 5
  {
  }

  /** A start node that is not itself a tree node is never linked back to. */
  lemma StartLinksOneWay(base: map<string, seq<string>>, all: Table, smallKeys: seq<string>, s: string, k: string)
    requires WellFormed(all) && s in StartNodes() && s !in all.nodes
    requires k in all.nodes && k !in StartNodes()
    ensures var conn := Connect(base, all, smallKeys);
            k in conn && s !in conn[k]
  {
    NeighboursMembers(all, k, all.keys);
  }
}
