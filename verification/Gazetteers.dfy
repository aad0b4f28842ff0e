/** The gazetteer trie and the walk over it: all nodes that the recased forms of
    consecutive words can reach, kept as a list without repetition. */
module Gazetteers {

  datatype Mode = Soft | HardPre | HardPost

  /** A node; children is a multimap from match sources to nodes. */
  datatype TrieNode = TrieNode(features: seq<nat>, children: seq<(string, nat)>, mode: Mode, entity: nat)

  type Trie = seq<TrieNode>

  ghost predicate TrieOk(trie: Trie)
  {
    |trie| > 0 && forall u, k :: 0 <= u < |trie| && 0 <= k < |trie[u].children| ==> trie[u].children[k].1 < |trie|
  }

  // ------------------------------------------------------------ what the walk means

  /** Some form of the word leads from u to v. */
  ghost predicate Edge(trie: Trie, sources: seq<string>, u: nat, v: nat)
  {
    u < |trie| && exists f :: f in sources && (f, v) in trie[u].children
  }

  /** A path from the root, reading one form of each word from i on. */
  ghost predicate Path(trie: Trie, forms: seq<seq<string>>, i: nat, ns: seq<nat>)
  {
    && 0 < |ns| && i + |ns| - 1 <= |forms| && ns[0] == 0
    && forall k :: 0 <= k < |ns| - 1 ==> Edge(trie, forms[i + k], ns[k], ns[k + 1])
  }

  /** Node v is labelled by one form of each of the words i..j. */
  ghost predicate Reaches(trie: Trie, forms: seq<seq<string>>, i: nat, j: nat, v: nat)
  {
    exists ns :: Path(trie, forms, i, ns) && i + |ns| == j + 1 && ns[|ns| - 1] == v
  }

  lemma ReachesStart(trie: Trie, forms: seq<seq<string>>, i: nat, v: nat)
    requires i <= |forms|
    ensures Reaches(trie, forms, i, i, v) <==> v == 0
  {
    assert Path(trie, forms, i, [0]);
  }

  /** One word more: a node is reached exactly over an edge from a node reached before. */
  lemma ReachesStep(trie: Trie, forms: seq<seq<string>>, i: nat, j: nat, v: nat)
    requires i <= j < |forms|
    ensures Reaches(trie, forms, i, j + 1, v) <==>
            exists u :: Reaches(trie, forms, i, j, u) && Edge(trie, forms[j], u, v)
  {
    if Reaches(trie, forms, i, j + 1, v) {
      var ns :| Path(trie, forms, i, ns) && i + |ns| == j + 2 && ns[|ns| - 1] == v;
      var ms := ns[..|ns| - 1];
      assert Path(trie, forms, i, ms);
      assert Edge(trie, forms[i + (|ns| - 2)], ns[|ns| - 2], ns[|ns| - 1]);
      assert Reaches(trie, forms, i, j, ms[|ms| - 1]);
    }
    if u :| Reaches(trie, forms, i, j, u) && Edge(trie, forms[j], u, v) {
      var ms :| Path(trie, forms, i, ms) && i + |ms| == j + 1 && ms[|ms| - 1] == u;
      var ns := ms + [v];
      forall k | 0 <= k < |ns| - 1 ensures Edge(trie, forms[i + k], ns[k], ns[k + 1]) {
        if k < |ms| - 1 { assert Edge(trie, forms[i + k], ms[k], ms[k + 1]); }
      }
      assert Path(trie, forms, i, ns);
    }
  }

  /** Once nothing is reached, nothing ever is: the walk may stop. */
  lemma {:induction false} ReachesNone(trie: Trie, forms: seq<seq<string>>, i: nat, j: nat, j': nat, v: nat)
    requires i <= j <= j' <= |forms| && forall u :: !Reaches(trie, forms, i, j, u)
    ensures !Reaches(trie, forms, i, j', v)
    decreases j' - j
  {
    if j < j' {
      var next := j + 1;
      forall u ensures !Reaches(trie, forms, i, next, u) { ReachesStep(trie, forms, i, j, u); }
      ReachesNone(trie, forms, i, next, j', v);
    }
  }

  // ------------------------------------------------------------ one word

  ghost predicate NoDup(s: seq<nat>) { forall i, j :: 0 <= i < j < |s| ==> s[i] != s[j] }

  /** append_unless_exists. */
  method AppendUnlessExists(s: seq<nat>, v: nat) returns (r: seq<nat>)
    ensures r == if v in s then s else s + [v]
  {
    var i := |s|;
    while i > 0 && s[i - 1] != v
      invariant 0 <= i <= |s| && forall k :: i <= k < |s| ==> s[k] != v
    {
      i := i - 1;
    }
    r := if i == 0 then s + [v] else s;
  }

  /** Adds the children of a node under one match source. */
  method AddChildren(children: seq<(string, nat)>, source: string, s: seq<nat>) returns (r: seq<nat>)
    requires NoDup(s)
    ensures NoDup(r) && forall v: nat :: v in r <==> v in s || (source, v) in children
  {
    r := s;
    var k := 0;
    while k < |children|
      invariant k <= |children| && NoDup(r) && forall v: nat :: v in r <==> v in s || (source, v) in children[..k]
    {
      assert children[..k + 1] == children[..k] + [children[k]];
      if children[k].0 == source { r := AppendUnlessExists(r, children[k].1); }
      k := k + 1;
    }
    assert children[..k] == children;
  }

  /** Adds the children of a node under all match sources of a word. */
  method AddNode(trie: Trie, node: nat, sources: seq<string>, s: seq<nat>) returns (r: seq<nat>)
    requires node < |trie| && NoDup(s)
    ensures NoDup(r) && forall v: nat :: v in r <==> v in s || Edge(trie, sources, node, v)
  {
    r := s;
    var k := 0;
    while k < |sources|
      invariant k <= |sources| && NoDup(r) && forall v: nat :: v in r <==> v in s || Edge(trie, sources[..k], node, v)
    {
      ghost var before := r;
      r := AddChildren(trie[node].children, sources[k], r);
      forall v: nat ensures v in r <==> v in s || Edge(trie, sources[..k + 1], node, v) {
        EdgeSnoc(trie, sources, k, node, v);
      }
      k := k + 1;
    }
    assert sources[..k] == sources;
  }

  lemma EdgeSnoc(trie: Trie, sources: seq<string>, k: nat, u: nat, v: nat)
    requires k < |sources| && u < |trie|
    ensures Edge(trie, sources[..k + 1], u, v) <==>
            Edge(trie, sources[..k], u, v) || (sources[k], v) in trie[u].children
  {
    assert sources[..k + 1] == sources[..k] + [sources[k]];
    assert sources[k] in sources[..k + 1];
    if Edge(trie, sources[..k], u, v) {
      var f :| f in sources[..k] && (f, v) in trie[u].children;
      assert f in sources[..k + 1];
    }
  }

  /** The new nodes are exactly the children of the old ones, each once. */
  method NextNodes(trie: Trie, nodes: seq<nat>, sources: seq<string>) returns (reached: seq<nat>)
    requires TrieOk(trie) && forall u :: u in nodes ==> u < |trie|
    ensures NoDup(reached) && forall v: nat :: v in reached <==> exists u :: u in nodes && Edge(trie, sources, u, v)
    ensures forall v :: v in reached ==> v < |trie|
  {
    reached := [];
    var k := 0;
    while k < |nodes|
      invariant k <= |nodes| && NoDup(reached) && forall v: nat :: v in reached <==>
                exists u :: u in nodes[..k] && Edge(trie, sources, u, v)
    {
      assert nodes[..k + 1] == nodes[..k] + [nodes[k]];
      assert nodes[k] in nodes;
      ghost var before := reached;
      if trie[nodes[k]].children != [] { reached := AddNode(trie, nodes[k], sources, reached); }
      forall v: nat ensures v in reached <==> exists u :: u in nodes[..k + 1] && Edge(trie, sources, u, v) {
        if v in before || Edge(trie, sources, nodes[k], v) {
          assert nodes[k] in nodes[..k + 1];
        }
      }
      k := k + 1;
    }
    assert nodes[..k] == nodes;
    forall v | v in reached ensures v < |trie| {
      var u :| u in nodes && Edge(trie, sources, u, v);
      EdgeBound(trie, sources, u, v);
    }
  }

  lemma EdgeBound(trie: Trie, sources: seq<string>, u: nat, v: nat)
    requires TrieOk(trie) && Edge(trie, sources, u, v)
    ensures v < |trie|
  {
    var f :| f in sources && (f, v) in trie[u].children;
    var k :| 0 <= k < |trie[u].children| && trie[u].children[k] == (f, v);
  }

  // ------------------------------------------------------------ the walk

  /** The list of nodes stands for all nodes reached over words i..j, each once. */
  ghost predicate Front(trie: Trie, forms: seq<seq<string>>, i: nat, j: nat, nodes: seq<nat>)
  {
    NoDup(nodes) && (forall v :: v in nodes ==> v < |trie|) && forall v: nat :: v in nodes <==>
        Reaches(trie, forms, i, j, v)
  }

  /** One round of the walk keeps the meaning of the node list. */
  method Walk(trie: Trie, forms: seq<seq<string>>, i: nat, j: nat, nodes: seq<nat>) returns (reached: seq<nat>)
    requires TrieOk(trie) && i <= j < |forms| && Front(trie, forms, i, j, nodes)
    ensures Front(trie, forms, i, j + 1, reached)
  {
    reached := NextNodes(trie, nodes, forms[j]);
    forall v: nat ensures v in reached <==> Reaches(trie, forms, i, j + 1, v) { ReachesStep(trie, forms, i, j, v); }
  }

  // ------------------------------------------------------------ the longest hard match

  /** A node of the given mode matches len words from i on, before `until`. */
  ghost predicate Matches(trie: Trie, forms: seq<seq<string>>, i: nat, until: int, mode: Mode, len: nat, v: nat)
  {
    len > 0 && i + len <= until && v < |trie| && trie[v].mode == mode && Reaches(trie, forms, i, i + len, v)
  }

  /** The longest match, with ties to the smallest node; or none. */
  ghost predicate Longest(trie: Trie, forms: seq<seq<string>>, i: nat, until: int, mode: Mode, len: nat, node: nat)
  {
    && (len > 0 ==> Matches(trie, forms, i, until, mode, len, node))
    && forall l: nat, v: nat :: Matches(trie, forms, i, until, mode, l, v) ==> l < len || (l == len && node <= v)
  }

  /** The loop over new nodes that looks for a better hard match. */
  method Improve(trie: Trie, nodes: seq<nat>, mode: Mode, here: nat, length: nat, best: nat)
    returns (length': nat, best': nat)
    requires here > length && forall v :: v in nodes ==> v < |trie|
    ensures (forall v :: v in nodes ==> trie[v].mode != mode) ==> length' == length && best' == best
    ensures (exists v :: v in nodes && trie[v].mode == mode) ==>
            length' == here && best' in nodes && trie[best'].mode == mode
    ensures forall v :: v in nodes && trie[v].mode == mode ==> best' <= v
  {
    length', best' := length, best;
    var k := 0;
    while k < |nodes|
      invariant k <= |nodes| && (forall v :: v in nodes[..k] ==> v < |trie|)
      invariant (length' == length && best' == best && forall v :: v in nodes[..k] ==> trie[v].mode != mode)
             || (length' == here && best' in nodes[..k] && trie[best'].mode == mode
                 && forall v :: v in nodes[..k] && trie[v].mode == mode ==> best' <= v)
    {
      assert nodes[..k + 1] == nodes[..k] + [nodes[k]] && nodes[k] in nodes;
      if trie[nodes[k]].mode == mode && (here > length' || nodes[k] < best') {
        length', best' := here, nodes[k];
      }
      k := k + 1;
    }
    assert nodes[..k] == nodes;
  }

  /** One more word of a walk still inside the limit. */
  lemma LongestStep(trie: Trie, forms: seq<seq<string>>, i: nat, j: nat, mode: Mode, nodes: seq<nat>, length: nat,
                    best: nat, length': nat, best': nat)
    requires i <= j && Front(trie, forms, i, j + 1, nodes) && Longest(trie, forms, i, j, mode, length, best)
    requires (forall v :: v in nodes ==> trie[v].mode != mode) ==> length' == length && best' == best
    requires (exists v :: v in nodes && trie[v].mode == mode) ==>
             length' == j + 1 - i && best' in nodes && trie[best'].mode == mode
    requires forall v :: v in nodes && trie[v].mode == mode ==> best' <= v
    ensures Longest(trie, forms, i, j + 1, mode, length', best')
  {
    hide Reaches, NoDup;
    var next := j + 1;
    forall l: nat, v: nat | Matches(trie, forms, i, next, mode, l, v)
        ensures l < length' || (l == length' && best' <= v) {
      if l == j + 1 - i { assert v in nodes; } else { assert Matches(trie, forms, i, j, mode, l, v); }
    }
  }

  /** A limit beyond which nothing is reached, or words may not be used, does not matter. */
  lemma LongestLater(trie: Trie, forms: seq<seq<string>>, i: nat, j: nat, until: nat, mode: Mode, length: nat,
                     best: nat)
    requires i <= j <= until <= |forms| && Longest(trie, forms, i, j, mode, length, best)
    requires forall v :: !Reaches(trie, forms, i, j, v)
    ensures Longest(trie, forms, i, until, mode, length, best)
  {
    hide Reaches;
    forall l: nat, v: nat | Matches(trie, forms, i, until, mode, l, v)
        ensures l < length || (l == length && best <= v) {
      if i + l >= j { ReachesNone(trie, forms, i, j, i + l, v); }
      assert Matches(trie, forms, i, j, mode, l, v);
    }
  }

  /** The first word from i on that is already decided. */
  ghost function FreeUntil(filled: seq<bool>, i: nat): (r: nat)
    requires i <= |filled|
    ensures i <= r <= |filled| && (forall k :: i <= k < r ==> !filled[k]) && (r < |filled| ==> filled[r])
    decreases |filled| - i
  {
    if i < |filled| && !filled[i] then FreeUntil(filled, i + 1) else i
  }

  /** The inner loop of process_sentence: the walk from word i, and the longest HARD_PRE match
      that uses undecided words only. */
  method FindHardPre(trie: Trie, forms: seq<seq<string>>, filled: seq<bool>, i: nat) returns (length: nat, node: nat)
    requires TrieOk(trie) && i < |forms| == |filled|
    ensures Longest(trie, forms, i, FreeUntil(filled, i), HardPre, length, node)
  {
    hide Reaches, Longest;
    length, node := 0, 0xFFFF_FFFF;
    var possible, nodes, j := true, [0], i;
    FrontStart(trie, forms, i);
    LongestStart(trie, forms, i, HardPre, node);
    ghost var until := FreeUntil(filled, i);
    while j < |forms| && nodes != []
      invariant i <= j <= |forms| && Front(trie, forms, i, j, nodes)
      invariant possible <==> j <= until
      invariant Longest(trie, forms, i, if j <= until then j else until, HardPre, length, node) && length <= j - i
    {
      var reached := Walk(trie, forms, i, j, nodes);
      possible := possible && !filled[j];
      if possible {
        ghost var length0, node0 := length, node;
        length, node := Improve(trie, reached, HardPre, j - i + 1, length, node);
        LongestStep(trie, forms, i, j, HardPre, reached, length0, node0, length, node);
      }
      nodes := reached;
      j := j + 1;
    }
    if j <= until {
      forall v ensures nodes == [] ==> !Reaches(trie, forms, i, j, v) { assert Front(trie, forms, i, j, nodes); }
      if nodes == [] { LongestLater(trie, forms, i, j, until, HardPre, length, node); }
    }
  }

  /** The inner loop of process_entities: the longest HARD_POST match within free words. */
  method FindHardPost(trie: Trie, forms: seq<seq<string>>, until: nat, i: nat) returns (length: nat, node: nat)
    requires TrieOk(trie) && i <= until <= |forms|
    ensures Longest(trie, forms, i, until, HardPost, length, node)
  {
    hide Reaches, Longest;
    length, node := 0, 0xFFFF_FFFF;
    var nodes, j := [0], i;
    FrontStart(trie, forms, i);
    LongestStart(trie, forms, i, HardPost, node);
    while j < until && nodes != []
      invariant i <= j <= until && Front(trie, forms, i, j, nodes)
      invariant Longest(trie, forms, i, j, HardPost, length, node) && length <= j - i
    {
      var reached := Walk(trie, forms, i, j, nodes);
      ghost var length0, node0 := length, node;
      length, node := Improve(trie, reached, HardPost, j - i + 1, length, node);
      LongestStep(trie, forms, i, j, HardPost, reached, length0, node0, length, node);
      nodes := reached;
      j := j + 1;
    }
    forall v ensures nodes == [] ==> !Reaches(trie, forms, i, j, v) { assert Front(trie, forms, i, j, nodes); }
    if nodes == [] { LongestLater(trie, forms, i, j, until, HardPost, length, node); }
  }

  lemma FrontStart(trie: Trie, forms: seq<seq<string>>, i: nat)
    requires TrieOk(trie) && i <= |forms|
    ensures Front(trie, forms, i, i, [0])
  {
    forall v: nat ensures v in [0] <==> Reaches(trie, forms, i, i, v) { ReachesStart(trie, forms, i, v); }
  }

  lemma LongestStart(trie: Trie, forms: seq<seq<string>>, i: nat, mode: Mode, node: nat)
    ensures Longest(trie, forms, i, i, mode, 0, node)
  {
  }
}
