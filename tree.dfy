/** The passive-tree data of js/data.js as values: nodes, the insertion-ordered
    node tables, stat scoring and tag extraction at ingestion, the
    distance-based adjacency, the sample small and notable nodes, and the
    class and ascendancy tables. The in-place table updates themselves are
    in module TreeStore. */
module Tree {
  import opened Basics
  import opened Text

  datatype NodeType = Keystone | Notable | Small

  datatype Position = Position(x: int, y: int)

  datatype Node = Node(
    id: string,
    name: string,
    kind: NodeType,
    stats: seq<string>,
    tags: seq<string>,
    offense: real,
    defense: real,
    position: Position)

  predicate Distinct<T(==)>(s: seq<T>) {
    forall i, j :: 0 <= i < j < |s| ==> s[i] != s[j]
  }

  /** A JavaScript object used as a node table: its keys in the order
      Object.keys reports them and the node stored under each key. */
  datatype Table = Table(keys: seq<string>, nodes: map<string, Node>)

  const EmptyTable := Table([], map[])

  /** An array-index key: the canonical decimal form of an integer below
      2^32 - 1, such as the numeric node ids of a POB tree export. */
  predicate IsIndexKey(k: string) {
    |k| > 0 && AllDigits(k) && (k[0] == '0' ==> |k| == 1) && DigitsValue(k) < 4294967295
  }

  /** JavaScript's own-property order puts key `k` before key `other`: array
      indices come before every other string key and in ascending numeric
      order; other string keys keep their insertion order. */
  predicate Precedes(k: string, other: string) {
    IsIndexKey(k) && (!IsIndexKey(other) || DigitsValue(k) < DigitsValue(other))
  }

  /** No key is listed right after a key it precedes; as the order is
      transitive, no key is listed after any key it precedes. */
  predicate JsOrdered(keys: seq<string>) {
    |keys| <= 1 || (!Precedes(keys[1], keys[0]) && JsOrdered(keys[1..]))
  }

  lemma {:induction false} JsOrderedAdjacent(keys: seq<string>, i: int)
    requires JsOrdered(keys) && 0 <= i < |keys| - 1
    ensures !Precedes(keys[i + 1], keys[i])
    decreases i
  {
    if i > 0 {
      JsOrderedAdjacent(keys[1..], i - 1);
    }
  }

  /** What JsOrdered says of any two positions: an array index is listed
      only after array indices that are not larger, and no non-index key
      comes before it. */
  lemma {:induction false} JsOrderedPairs(keys: seq<string>, i: int, j: int)
    requires JsOrdered(keys) && 0 <= i < j < |keys|
    ensures IsIndexKey(keys[j]) ==> IsIndexKey(keys[i]) && DigitsValue(keys[i]) <= DigitsValue(keys[j])
    decreases j
  {
    JsOrderedAdjacent(keys, j - 1);
    if j > i + 1 {
      JsOrderedPairs(keys, i, j - 1);
    }
  }

  /** Conversely, a list in which no key comes after a key it precedes is
      JsOrdered. */
  lemma {:induction false} PairsJsOrdered(keys: seq<string>)
    requires forall i, j :: 0 <= i < j < |keys| ==> !Precedes(keys[j], keys[i])
    ensures JsOrdered(keys)
  {
    if |keys| > 1 {
      var rest := keys[1..];
      forall i, j | 0 <= i < j < |rest| ensures !Precedes(rest[j], rest[i]) {
        assert rest[j] == keys[j + 1] && rest[i] == keys[i + 1];
      }
      PairsJsOrdered(rest);
      assert !Precedes(keys[1], keys[0]);
    }
  }

  /** The keys that are not array indices, in their listed order. */
  function Named(keys: seq<string>): (r: seq<string>)
    ensures |r| <= |keys|
  {
    if |keys| == 0 then []
    else (if IsIndexKey(keys[0]) then [] else [keys[0]]) + Named(keys[1..])
  }

  ghost predicate WellFormed(t: Table) {
    forall k :: k in t.nodes <==> k in t.keys
  }

  /** The key list after a new key `k` is added: `k` goes before the first
      key it precedes, so a non-index key goes to the end. */
  function InsertKey(keys: seq<string>, k: string): (r: seq<string>)
    ensures |r| == |keys| + 1
    ensures forall x :: x in r <==> x in keys || x == k
  {
    if |keys| == 0 then [k]
    else if Precedes(k, keys[0]) then [k] + keys
    else [keys[0]] + InsertKey(keys[1..], k)
  }

  /** Adding a key keeps the key list in JavaScript's order. */
  lemma {:induction false} InsertKeyOrdered(keys: seq<string>, k: string)
    requires JsOrdered(keys)
    ensures JsOrdered(InsertKey(keys, k))
  {
    if |keys| > 0 && !Precedes(k, keys[0]) {
      var rest := keys[1..];
      InsertKeyOrdered(rest, k);
      var r := InsertKey(keys, k);
      assert r[1..] == InsertKey(rest, k);
      assert r[1] == (if |rest| == 0 || Precedes(k, rest[0]) then k else rest[0]);
    } else if |keys| > 0 {
      assert ([k] + keys)[1..] == keys;
    }
  }

  /** Adding a key appends it to the non-index keys, or leaves them alone
      when it is an array index. */
  lemma {:induction false} InsertKeyNamed(keys: seq<string>, k: string)
    ensures Named(InsertKey(keys, k)) == Named(keys) + (if IsIndexKey(k) then [] else [k])
  {
    if |keys| > 0 && !Precedes(k, keys[0]) {
      InsertKeyNamed(keys[1..], k);
      assert InsertKey(keys, k)[1..] == InsertKey(keys[1..], k);
    } else if |keys| > 0 {
      assert ([k] + keys)[1..] == keys;
    }
  }

  /** `table[k] = n`: an existing key keeps its place; a new key takes the
      place JavaScript's property order gives it (PutOrder). */
  function Put(t: Table, k: string, n: Node): (r: Table)
    requires WellFormed(t)
    ensures WellFormed(r)
    ensures r.nodes == t.nodes[k := n]
  {
    if k in t.nodes then Table(t.keys, t.nodes[k := n]) else Table(InsertKey(t.keys, k), t.nodes[k := n])
  }

  /** Put keeps the keys in JavaScript's order, and a new non-index key is
      the last of the non-index keys. */
  lemma PutOrder(t: Table, k: string, n: Node)
    requires WellFormed(t)
    ensures var r := Put(t, k, n);
            (JsOrdered(t.keys) ==> JsOrdered(r.keys)) &&
            Named(r.keys) == Named(t.keys) + (if k in t.nodes || IsIndexKey(k) then [] else [k])
  {
    if k !in t.nodes {
      InsertKeyNamed(t.keys, k);
      if JsOrdered(t.keys) {
        InsertKeyOrdered(t.keys, k);
      }
    }
  }

  /** Puts `m[k]` under each key of `ks`, in order. */
  function PutAll(t: Table, ks: seq<string>, m: map<string, Node>): (r: Table)
    requires WellFormed(t)
    requires forall k :: k in ks ==> k in m
    ensures WellFormed(r)
    ensures forall k :: k in r.nodes <==> k in t.nodes || k in ks
    ensures forall k :: k in ks ==> r.nodes[k] == m[k]
    ensures forall k :: k in t.nodes && k !in ks ==> r.nodes[k] == t.nodes[k]
    decreases |ks|
  {
    if |ks| == 0 then t
    else
      var init := ks[..|ks| - 1];
      var last := ks[|ks| - 1];
      assert forall k :: k in ks <==> k in init || k == last;
      Put(PutAll(t, init, m), last, m[last])
  }

  /** The keys after PutAll are in JavaScript's order, with t's non-index
      keys first among the non-index keys. */
  lemma {:induction false} PutAllOrder(t: Table, ks: seq<string>, m: map<string, Node>)
    requires WellFormed(t)
    requires forall k :: k in ks ==> k in m
    ensures var r := PutAll(t, ks, m);
            (JsOrdered(t.keys) ==> JsOrdered(r.keys)) &&
            |Named(t.keys)| <= |Named(r.keys)| && Named(r.keys)[..|Named(t.keys)|] == Named(t.keys)
    decreases |ks|
  {
    if |ks| > 0 {
      var init := ks[..|ks| - 1];
      var last := ks[|ks| - 1];
      var prev := PutAll(t, init, m);
      PutAllOrder(t, init, m);
      PutOrder(prev, last, m[last]);
      var r := Put(prev, last, m[last]);
      assert Named(r.keys)[..|Named(prev.keys)|] == Named(prev.keys);
      PrefixOfPrefix(Named(t.keys), Named(prev.keys), Named(r.keys));
    }
  }

  /** `{ ...a, ...b }`: b's entries are put over a's, b winning on a clash. */
  function Merge(a: Table, b: Table): (r: Table)
    requires WellFormed(a) && WellFormed(b)
    ensures WellFormed(r)
    ensures forall k :: k in r.nodes <==> k in a.nodes || k in b.nodes
    ensures forall k :: k in b.nodes ==> r.nodes[k] == b.nodes[k]
    ensures forall k :: k in a.nodes && k !in b.nodes ==> r.nodes[k] == a.nodes[k]
  {
    PutAll(a, b.keys, b.nodes)
  }

  /** getAllNodes: `{ ...keystones, ...notables, ...smallNodes }`
      (js/data.js:408-410). */
  function GetAllNodes(keystones: Table, notables: Table, smallNodes: Table): (r: Table)
    requires WellFormed(keystones) && WellFormed(notables) && WellFormed(smallNodes)
    ensures WellFormed(r)
    ensures forall k :: k in r.nodes <==> k in keystones.nodes || k in notables.nodes || k in smallNodes.nodes
    ensures forall k :: k in smallNodes.nodes ==> r.nodes[k] == smallNodes.nodes[k]
    ensures forall k :: k in notables.nodes && k !in smallNodes.nodes ==> r.nodes[k] == notables.nodes[k]
    ensures forall k :: k in keystones.nodes && k !in notables.nodes && k !in smallNodes.nodes ==>
              r.nodes[k] == keystones.nodes[k]
  {
    Merge(Merge(keystones, notables), smallNodes)
  }

  /** The merged keys are in JavaScript's order: array indices first, so
      the keystone names lead only among the non-index keys. */
  lemma GetAllNodesOrder(keystones: Table, notables: Table, smallNodes: Table)
    requires WellFormed(keystones) && WellFormed(notables) && WellFormed(smallNodes)
    ensures var r := GetAllNodes(keystones, notables, smallNodes);
            (JsOrdered(keystones.keys) ==> JsOrdered(r.keys)) &&
            |Named(keystones.keys)| <= |Named(r.keys)| &&
            Named(r.keys)[..|Named(keystones.keys)|] == Named(keystones.keys)
  {
    var m := Merge(keystones, notables);
    var r := Merge(m, smallNodes);
    PutAllOrder(keystones, notables.keys, notables.nodes);
    PutAllOrder(m, smallNodes.keys, smallNodes.nodes);
    PrefixOfPrefix(Named(keystones.keys), Named(m.keys), Named(r.keys));
  }

  lemma PrefixOfPrefix<T>(a: seq<T>, b: seq<T>, c: seq<T>)
    requires |a| <= |b| && b[..|a|] == a
    requires |b| <= |c| && c[..|b|] == b
    ensures |a| <= |c| && c[..|a|] == a
  {
    assert c[..|a|] == c[..|b|][..|a|];
  }

  // ---------------------------------------------------------------------
  // Stat scoring at ingestion (js/data.js:460-480)

  /** Points per matching stat: 10 for a keystone, 5 for a notable, 2 otherwise. */
  function Tier(kind: NodeType): int {
    match kind
    case Keystone => 10
    case Notable => 5
    case Small => 2
  }

  const OffenseKeywords: seq<string> := ["damage", "critical", "attack speed", "cast speed", "multiplier"]
  const DefenseKeywords: seq<string> := ["life", "armour", "evasion", "energy shield", "resistance", "block"]

  /** The lower-cased stat contains one of the keywords. */
  predicate Mentions(stat: string, keywords: seq<string>) {
    exists i :: 0 <= i < |keywords| && Contains(ToLower(stat), keywords[i])
  }

  /** Number of stats that mention one of the keywords. */
  function CountMentioning(stats: seq<string>, keywords: seq<string>): (n: nat)
    ensures n <= |stats|
    decreases |stats|
  {
    if |stats| == 0 then 0
    else CountMentioning(stats[..|stats| - 1], keywords) + (if Mentions(stats[|stats| - 1], keywords) then 1 else 0)
  }

  /** The offense (or defense) value a node of this kind gets from its stats. */
  function StatScore(kind: NodeType, stats: seq<string>, keywords: seq<string>): int {
    Tier(kind) * CountMentioning(stats, keywords)
  }

  lemma {:induction false} CountMentioningZero(stats: seq<string>, keywords: seq<string>)
    ensures CountMentioning(stats, keywords) == 0 <==> forall i :: 0 <= i < |stats| ==> !Mentions(stats[i], keywords)
    decreases |stats|
  {
    if |stats| > 0 {
      var init := stats[..|stats| - 1];
      CountMentioningZero(init, keywords);
      assert forall i :: 0 <= i < |init| ==> init[i] == stats[i];
    }
  }

  /** Ingestion scores are non-negative multiples of the tier weight, at most
      one tier weight per stat, and zero exactly when no stat mentions a
      keyword. */
  lemma StatScoreBounds(kind: NodeType, stats: seq<string>, keywords: seq<string>)
    ensures 0 <= StatScore(kind, stats, keywords) <= Tier(kind) * |stats|
    ensures StatScore(kind, stats, keywords) % Tier(kind) == 0
    ensures StatScore(kind, stats, keywords) == 0 <==> forall i :: 0 <= i < |stats| ==> !Mentions(stats[i], keywords)
  {
    CountMentioningZero(stats, keywords);
  }

  // ---------------------------------------------------------------------
  // Tag extraction (js/data.js:512-544)

  /** The fixed vocabulary: each tag with its keywords, in declaration order. */
  const TagVocabulary: seq<(string, seq<string>)> := [
    ("physical", ["physical"]),
    ("fire", ["fire"]),
    ("cold", ["cold", "freeze", "chill"]),
    ("lightning", ["lightning", "shock"]),
    ("chaos", ["chaos", "poison"]),
    ("elemental", ["elemental"]),
    ("attack", ["attack", "melee", "bow", "axe", "sword", "mace"]),
    ("spell", ["spell", "cast"]),
    ("minion", ["minion", "zombie", "skeleton", "spectre"]),
    ("critical", ["critical"]),
    ("dot", ["damage over time", "burning", "bleed", "poison"]),
    ("life", ["life"]),
    ("mana", ["mana"]),
    ("energyshield", ["energy shield"]),
    ("armour", ["armour", "armor"]),
    ("evasion", ["evasion"]),
    ("resistance", ["resistance"]),
    ("aoe", ["area of effect", "radius"]),
    ("projectile", ["projectile", "arrow", "bolt"])
  ]

  function TagNames(vocab: seq<(string, seq<string>)>): (r: seq<string>)
    ensures |r| == |vocab| && forall i :: 0 <= i < |vocab| ==> r[i] == vocab[i].0
  {
    seq(|vocab|, i requires 0 <= i < |vocab| => vocab[i].0)
  }

  predicate HasKeyword(text: string, keywords: seq<string>) {
    exists i :: 0 <= i < |keywords| && Contains(text, keywords[i])
  }

  /** `a` keeps some of the elements of `b`, in b's order. */
  predicate IsSubsequence(a: seq<string>, b: seq<string>)
    decreases |b|
  {
    |a| == 0 || (|b| > 0 && ((a[0] == b[0] && IsSubsequence(a[1..], b[1..])) || IsSubsequence(a, b[1..])))
  }

  /** The vocabulary's tags whose keywords occur in `text`, in vocabulary order. */
  function TagsIn(text: string, vocab: seq<(string, seq<string>)>): (r: seq<string>)
    ensures IsSubsequence(r, TagNames(vocab))
    ensures forall t :: t in r <==> exists i :: 0 <= i < |vocab| && vocab[i].0 == t && HasKeyword(text, vocab[i].1)
  {
    if |vocab| == 0 then []
    else
      var rest := TagsIn(text, vocab[1..]);
      assert TagNames(vocab)[1..] == TagNames(vocab[1..]);
      assert forall i :: 0 < i < |vocab| ==> vocab[i] == vocab[1..][i - 1];
      if HasKeyword(text, vocab[0].1) then [vocab[0].0] + rest else rest
  }

  /** extractTagsFromStats: match the vocabulary against the lower-cased,
      space-joined stat text. */
  function ExtractTagsFromStats(stats: seq<string>): (r: seq<string>)
    ensures forall t :: t in r <==>
      exists i :: 0 <= i < |TagVocabulary| && TagVocabulary[i].0 == t &&
        HasKeyword(ToLower(Join(stats, " ")), TagVocabulary[i].1)
  {
    TagsIn(ToLower(Join(stats, " ")), TagVocabulary)
  }

  lemma {:induction false} SubsequenceMembers(a: seq<string>, b: seq<string>)
    requires IsSubsequence(a, b)
    ensures forall x :: x in a ==> x in b
    decreases |b|
  {
    if |a| > 0 {
      if a[0] == b[0] && IsSubsequence(a[1..], b[1..]) {
        SubsequenceMembers(a[1..], b[1..]);
        assert forall x :: x in a ==> x == a[0] || x in a[1..];
      } else {
        SubsequenceMembers(a, b[1..]);
      }
    }
  }

  lemma {:induction false} SubsequenceOfDistinct(a: seq<string>, b: seq<string>)
    requires IsSubsequence(a, b) && Distinct(b)
    ensures Distinct(a)
    decreases |b|
  {
    if |a| > 0 {
      assert Distinct(b[1..]);
      if a[0] == b[0] && IsSubsequence(a[1..], b[1..]) {
        SubsequenceOfDistinct(a[1..], b[1..]);
        SubsequenceMembers(a[1..], b[1..]);
        assert b[0] !in b[1..];
        forall i, j | 0 <= i < j < |a| ensures a[i] != a[j] {
          if i == 0 {
            assert a[j] == a[1..][j - 1];
          } else {
            assert a[i] == a[1..][i - 1] && a[j] == a[1..][j - 1];
          }
        }
      } else {
        SubsequenceOfDistinct(a, b[1..]);
      }
    }
  }

  lemma VocabularyTagsDistinct()
    ensures Distinct(TagNames(TagVocabulary))
  {
    var names := TagNames(TagVocabulary);
    assert names == ["physical", "fire", "cold", "lightning", "chaos", "elemental", "attack", "spell",
                     "minion", "critical", "dot", "life", "mana", "energyshield", "armour", "evasion",
                     "resistance", "aoe", "projectile"];
  }

  /** Extracted tags never repeat and follow the vocabulary's order. */
  lemma ExtractedTagsOrdered(stats: seq<string>)
    ensures IsSubsequence(ExtractTagsFromStats(stats), TagNames(TagVocabulary))
    ensures Distinct(ExtractTagsFromStats(stats))
  {
    VocabularyTagsDistinct();
    SubsequenceOfDistinct(ExtractTagsFromStats(stats), TagNames(TagVocabulary));
  }

  predicate KeywordsNonEmpty(vocab: seq<(string, seq<string>)>) {
    forall i, j :: 0 <= i < |vocab| && 0 <= j < |vocab[i].1| ==> |vocab[i].1[j]| > 0
  }

  lemma {:induction false} EmptyTextNoTags(vocab: seq<(string, seq<string>)>)
    requires KeywordsNonEmpty(vocab)
    ensures TagsIn("", vocab) == []
    decreases |vocab|
  {
    if |vocab| > 0 {
      assert KeywordsNonEmpty(vocab[1..]) by {
        forall i, j | 0 <= i < |vocab[1..]| && 0 <= j < |vocab[1..][i].1|
          ensures |vocab[1..][i].1[j]| > 0
        {
          assert vocab[1..][i] == vocab[i + 1];
        }
      }
      EmptyTextNoTags(vocab[1..]);
      assert !HasKeyword("", vocab[0].1) by {
        forall j | 0 <= j < |vocab[0].1| ensures !Contains("", vocab[0].1[j]) {
          assert |vocab[0].1[j]| > 0;
        }
      }
    }
  }

  /** A node without stats gets no tags: the empty text holds no keyword. */
  lemma NoStatsNoTags()
    ensures ExtractTagsFromStats([]) == []
  {
    assert ToLower(Join([], " ")) == "";
    assert KeywordsNonEmpty(TagVocabulary);
    EmptyTextNoTags(TagVocabulary);
  }

  // ---------------------------------------------------------------------
  // Ingestion of a tree definition (js/data.js:447-510)

  /** One entry of the tree definition's node object: `ks` and `not` flags,
      the stat lines `sd`, display name `dn`, position and out-edges. A
      missing `sd` is the empty list, a missing or empty `dn` is "", a missing
      coordinate is 0: the source treats each of those the same way. */
  datatype RawNode = RawNode(
    ks: bool,
    notable: bool,
    sd: seq<string>,
    dn: string,
    x: int,
    y: int,
    out: Option<seq<string>>)

  datatype RawEntry = RawEntry(key: string, raw: RawNode)

  /** The node kind: keystone if `ks` is set, else notable if `not` is set. */
  function Classify(raw: RawNode): (kind: NodeType)
    ensures kind == Keystone <==> raw.ks
    ensures kind == Notable <==> !raw.ks && raw.notable
    ensures kind == Small <==> !raw.ks && !raw.notable
  {
    if raw.ks then Keystone else if raw.notable then Notable else Small
  }

  function BuildNode(key: string, raw: RawNode): (n: Node)
    ensures n.id == key && n.kind == Classify(raw) && n.stats == raw.sd
    ensures n.name == (if raw.dn == "" then "Node " + key else raw.dn)
    ensures n.position == Position(raw.x, raw.y)
  {
    var kind := Classify(raw);
    Node(key, if raw.dn == "" then "Node " + key else raw.dn, kind, raw.sd,
         ExtractTagsFromStats(raw.sd),
         StatScore(kind, raw.sd, OffenseKeywords) as real,
         StatScore(kind, raw.sd, DefenseKeywords) as real,
         Position(raw.x, raw.y))
  }

  /** The four tables the ingestion fills. */
  datatype Store = Store(keystones: Table, notables: Table, smallNodes: Table, connections: map<string, seq<string>>)

  ghost predicate StoreWellFormed(st: Store) {
    WellFormed(st.keystones) && WellFormed(st.notables) && WellFormed(st.smallNodes)
  }

  function TableOf(st: Store, kind: NodeType): Table {
    match kind
    case Keystone => st.keystones
    case Notable => st.notables
    case Small => st.smallNodes
  }

  /** Stores node `n` under `key` in the table of its kind and, when there
      are out-edges, replaces the connection list of `key`. */
  function StorePut(st: Store, key: string, n: Node, out: Option<seq<string>>): (r: Store)
    requires StoreWellFormed(st)
    ensures StoreWellFormed(r)
  {
    Store(if n.kind == Keystone then Put(st.keystones, key, n) else st.keystones,
          if n.kind == Notable then Put(st.notables, key, n) else st.notables,
          if n.kind == Small then Put(st.smallNodes, key, n) else st.smallNodes,
          if out.Some? then st.connections[key := out.value] else st.connections)
  }

  /** Ingests one POB node record. */
  function StoreEntry(st: Store, e: RawEntry): (r: Store)
    requires StoreWellFormed(st)
    ensures StoreWellFormed(r)
  {
    StorePut(st, e.key, BuildNode(e.key, e.raw), e.raw.out)
  }

  function Ingest(st: Store, entries: seq<RawEntry>): (r: Store)
    requires StoreWellFormed(st)
    ensures StoreWellFormed(r)
    decreases |entries|
  {
    if |entries| == 0 then st else StoreEntry(Ingest(st, entries[..|entries| - 1]), entries[|entries| - 1])
  }

  /** One more entry at the end of the list is one more StoreEntry. */
  lemma IngestStep(st: Store, entries: seq<RawEntry>, i: int)
    requires StoreWellFormed(st) && 0 <= i < |entries|
    ensures Ingest(st, entries[..i + 1]) == StoreEntry(Ingest(st, entries[..i]), entries[i])
  {
    assert entries[..i + 1][..i] == entries[..i];
  }

  ghost predicate StoreOrdered(st: Store) {
    JsOrdered(st.keystones.keys) && JsOrdered(st.notables.keys) && JsOrdered(st.smallNodes.keys)
  }

  /** Ingestion keeps every table's keys in JavaScript's order, so numeric
      POB ids are listed before the string keys of the sample nodes. */
  lemma {:induction false} IngestOrdered(st: Store, entries: seq<RawEntry>)
    requires StoreWellFormed(st) && StoreOrdered(st)
    ensures StoreOrdered(Ingest(st, entries))
    decreases |entries|
  {
    if |entries| > 0 {
      var prev := Ingest(st, entries[..|entries| - 1]);
      IngestOrdered(st, entries[..|entries| - 1]);
      var e := entries[|entries| - 1];
      var n := BuildNode(e.key, e.raw);
      PutOrder(prev.keystones, e.key, n);
      PutOrder(prev.notables, e.key, n);
      PutOrder(prev.smallNodes, e.key, n);
    }
  }

  /** The ordering at work: a notable stored under POB id "100" after a
      keystone keyed "ironwill" is listed first. */
  lemma IndexKeyListedFirst()
    ensures InsertKey(["ironwill"], "100") == ["100", "ironwill"]
  {
    assert IsIndexKey("100") && !IsIndexKey("ironwill");
  }

  function KeysOf(entries: seq<RawEntry>): (r: seq<string>)
    ensures |r| == |entries| && forall i :: 0 <= i < |entries| ==> r[i] == entries[i].key
  {
    seq(|entries|, i requires 0 <= i < |entries| => entries[i].key)
  }

  /** The two stores hold the same things under key `k`. */
  ghost predicate SameAt(a: Store, b: Store, k: string) {
    SameIn(a.keystones, b.keystones, k) && SameIn(a.notables, b.notables, k) &&
    SameIn(a.smallNodes, b.smallNodes, k) &&
    (k in a.connections <==> k in b.connections) &&
    (k in a.connections ==> a.connections[k] == b.connections[k])
  }

  ghost predicate SameIn(a: Table, b: Table, k: string) {
    (k in a.nodes <==> k in b.nodes) && (k in a.nodes ==> a.nodes[k] == b.nodes[k])
  }

  lemma StoreEntryEffect(st: Store, e: RawEntry, k: string)
    requires StoreWellFormed(st)
    ensures var r := StoreEntry(st, e);
            var n := BuildNode(e.key, e.raw);
            (k != e.key ==> SameAt(r, st, k)) &&
            (k == e.key ==>
              k in TableOf(r, n.kind).nodes && TableOf(r, n.kind).nodes[k] == n &&
              (n.kind != Keystone ==> SameIn(r.keystones, st.keystones, k)) &&
              (n.kind != Notable ==> SameIn(r.notables, st.notables, k)) &&
              (n.kind != Small ==> SameIn(r.smallNodes, st.smallNodes, k)) &&
              (e.raw.out.Some? ==> k in r.connections && r.connections[k] == e.raw.out.value) &&
              (e.raw.out.None? ==> ((k in r.connections <==> k in st.connections) &&
                (k in st.connections ==> r.connections[k] == st.connections[k]))))
  {
  }

  lemma {:induction false} IngestUntouched(st: Store, entries: seq<RawEntry>, k: string)
    requires StoreWellFormed(st)
    requires k !in KeysOf(entries)
    ensures SameAt(Ingest(st, entries), st, k)
    decreases |entries|
  {
    if |entries| > 0 {
      var init := entries[..|entries| - 1];
      assert KeysOf(init) == KeysOf(entries)[..|entries| - 1];
      IngestUntouched(st, init, k);
      assert entries[|entries| - 1].key != k by {
        assert KeysOf(entries)[|entries| - 1] == entries[|entries| - 1].key;
      }
      StoreEntryEffect(Ingest(st, init), entries[|entries| - 1], k);
    }
  }

  /** Every ingested node is stored, under its key, in exactly the table of
      its kind; the other two tables keep what they held under that key, and
      the connection list is replaced only when the entry has out-edges. */
  lemma {:induction false} IngestPlacement(st: Store, entries: seq<RawEntry>, j: int)
    requires StoreWellFormed(st)
    requires Distinct(KeysOf(entries))
    requires 0 <= j < |entries|
    ensures var k := entries[j].key;
            var n := BuildNode(k, entries[j].raw);
            var r := Ingest(st, entries);
            k in TableOf(r, n.kind).nodes && TableOf(r, n.kind).nodes[k] == n &&
            (n.kind != Keystone ==> SameIn(r.keystones, st.keystones, k)) &&
            (n.kind != Notable ==> SameIn(r.notables, st.notables, k)) &&
            (n.kind != Small ==> SameIn(r.smallNodes, st.smallNodes, k)) &&
            (entries[j].raw.out.Some? ==> k in r.connections && r.connections[k] == entries[j].raw.out.value) &&
            (entries[j].raw.out.None? ==>
              ((k in r.connections <==> k in st.connections) &&
               (k in st.connections ==> r.connections[k] == st.connections[k])))
    decreases |entries|
  {
    var init := entries[..|entries| - 1];
    var last := entries[|entries| - 1];
    var k := entries[j].key;
    assert KeysOf(init) == KeysOf(entries)[..|entries| - 1];
    if j == |entries| - 1 {
      assert k !in KeysOf(init) by {
        forall i | 0 <= i < |init| ensures KeysOf(init)[i] != k {
          assert KeysOf(entries)[i] != KeysOf(entries)[j];
        }
      }
      IngestUntouched(st, init, k);
      StoreEntryEffect(Ingest(st, init), last, k);
    } else {
      assert Distinct(KeysOf(init));
      IngestPlacement(st, init, j);
      assert last.key != k by {
        assert KeysOf(entries)[|entries| - 1] != KeysOf(entries)[j];
      }
      assert init[j] == entries[j];
      StoreEntryEffect(Ingest(st, init), last, k);
    }
  }

  /** Scores of an ingested node: for each of offense and defense, the tier
      weight times the number of stats mentioning a keyword, so both are
      non-negative multiples of the tier weight. */
  lemma BuildNodeScores(key: string, raw: RawNode)
    ensures var n := BuildNode(key, raw);
            n.offense == (Tier(n.kind) * CountMentioning(raw.sd, OffenseKeywords)) as real &&
            n.defense == (Tier(n.kind) * CountMentioning(raw.sd, DefenseKeywords)) as real &&
            0.0 <= n.offense <= (Tier(n.kind) * |raw.sd|) as real &&
            0.0 <= n.defense <= (Tier(n.kind) * |raw.sd|) as real
  {
    var kind := Classify(raw);
    StatScoreBounds(kind, raw.sd, OffenseKeywords);
    StatScoreBounds(kind, raw.sd, DefenseKeywords);
  }
}
