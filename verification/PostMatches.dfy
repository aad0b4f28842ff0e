/** HARD_POST gazetteers: matches that fill the gaps between recognised entities. */
module PostMatches {
  import opened Entities
  import opened Containers
  import opened Gazetteers

  /** Where the next entity after word i starts, or the end of the sentence. */
  ghost function NextStart(es: seq<Ent>, i: nat, n: nat): (r: nat)
  {
    if es == [] then n else if es[0].start > i then es[0].start else NextStart(es[1..], i, n)
  }

  lemma {:induction false} NextStartAt(es: seq<Ent>, i: nat, n: nat, e: nat)
    requires e <= |es| && (forall k :: 0 <= k < e ==> es[k].start <= i) && (e < |es| ==> es[e].start > i)
    ensures NextStart(es, i, n) == if e < |es| then es[e].start else n
  {
    if e > 0 { NextStartAt(es[1..], i, n, e - 1); }
  }

  /** A match added at a word: the longest that ends before the next entity. */
  ghost predicate ChosenPost(trie: Trie, forms: seq<seq<string>>, names: seq<string>, es: seq<Ent>, a: Ent)
  {
    exists v: nat :: v < |trie| && trie[v].entity < |names| && a.kind == names[trie[v].entity] && a.length > 0
      && Longest(trie, forms, a.start, NextStart(es, a.start, |forms|), HardPost, a.length, v)
  }

  ghost predicate NoPost(trie: Trie, forms: seq<seq<string>>, es: seq<Ent>, i: nat)
  {
    forall l: nat, v: nat :: !Matches(trie, forms, i, NextStart(es, i, |forms|), HardPost, l, v)
  }

  ghost predicate CoveredBy(es: seq<Ent>, i: int) { exists x :: x in es && x.Covers(i) }

  /** The output so far: the first e entities and the added matches, by start, and nothing else. */
  ghost predicate Filling(es: seq<Ent>, n: nat, i: nat, e: nat, buffer: seq<Ent>, added: seq<Ent>, until: nat)
  {
    && e <= |es| && until <= n && Placed(buffer, n) && multiset(buffer) == multiset(es[..e]) + multiset(added)
    && (forall k :: 0 <= k < e ==> es[k].start <= i) && (forall k :: e <= k < |es| ==> es[k].start >= i)
    && (forall x :: x in buffer ==> x.start <= i && x.End() <= until)
    && (until > 0 ==> exists x :: x in buffer && x.End() == until)
    && FlatList(added, n)
    && (forall a, k :: a in added && 0 <= k < |es| ==> if k < e then Apart(a, es[k]) else a.End() <= es[k].start)
  }

  ghost predicate Explained(trie: Trie, forms: seq<seq<string>>, names: seq<string>, es: seq<Ent>, i: nat,
                            buffer: seq<Ent>, added: seq<Ent>)
  {
    && (forall a :: a in added ==> ChosenPost(trie, forms, names, es, a))
    && (forall k: nat :: k < i ==> CoveredBy(buffer, k) || NoPost(trie, forms, es, k))
  }

  lemma InBuffer(es: seq<Ent>, e: nat, buffer: seq<Ent>, added: seq<Ent>, x: Ent)
    requires e <= |es| && multiset(buffer) == multiset(es[..e]) + multiset(added)
    ensures x in buffer <==> x in es[..e] || x in added
  {
    assert x in buffer <==> x in multiset(buffer);
  }

  lemma AddedApart(es: seq<Ent>, n: nat, i: nat, e: nat, buffer: seq<Ent>, added: seq<Ent>, until: nat)
    requires Filling(es, n, i, e, buffer, added, until) && e < |es|
    ensures forall a, k :: a in added && 0 <= k < |es| ==> if k < e + 1 then Apart(a, es[k]) else a.End() <= es[k].start
  {
    hide Placed, FlatList;
  }

  /** Taking over the next entity, which starts at word i. */
  lemma TakeEntity(es: seq<Ent>, n: nat, i: nat, e: nat, buffer: seq<Ent>, added: seq<Ent>, until: nat)
    requires Placed(es, n) && Filling(es, n, i, e, buffer, added, until) && e < |es| && es[e].start == i
    ensures Filling(es, n, i, e + 1, buffer + [es[e]], added, if es[e].End() > until then es[e].End() else until)
  {
    hide Placed, FlatList, Apart;
    var x, b := es[e], buffer + [es[e]];
    PlacedAt(es, n, e);
    PlacedSnoc(buffer, n, x);
    OneMore(es, e, buffer, added);
    AddedApart(es, n, i, e, buffer, added, until);
    var until' := if x.End() > until then x.End() else until;
    if x.End() > until { assert x in b && x.End() == until'; }
    else { var y :| y in buffer && y.End() == until; assert y in b; }
  }

  lemma OneMore(es: seq<Ent>, e: nat, buffer: seq<Ent>, added: seq<Ent>)
    requires e < |es| && multiset(buffer) == multiset(es[..e]) + multiset(added)
    ensures multiset(buffer + [es[e]]) == multiset(es[..e + 1]) + multiset(added)
  {
    assert es[..e + 1] == es[..e] + [es[e]];
  }

  lemma PlacedIn(es: seq<Ent>, n: nat, x: Ent)
    requires Placed(es, n) && x in es
    ensures x.length > 0 && x.End() <= n
  {
  }

  lemma MatchApart(es: seq<Ent>, n: nat, i: nat, e: nat, buffer: seq<Ent>, added: seq<Ent>, until: nat, a: Ent)
    requires Filling(es, n, i, e, buffer, added, until) && until <= i && a.start == i && Placed(es, n)
    requires e < |es| ==> a.End() <= es[e].start
    ensures forall k :: 0 <= k < |es| ==> if k < e then Apart(a, es[k]) else a.End() <= es[k].start
  {
    hide Placed, FlatList;
    forall k | 0 <= k < |es| ensures if k < e then Apart(a, es[k]) else a.End() <= es[k].start {
      if k < e {
        InBuffer(es, e, buffer, added, es[k]);
        assert es[k] == es[..e][k];
      } else { PlacedPair(es, n, e, k); }
    }
  }

  /** Adding a match in a gap. */
  lemma AddMatch(es: seq<Ent>, n: nat, i: nat, e: nat, buffer: seq<Ent>, added: seq<Ent>, until: nat, a: Ent)
    requires Filling(es, n, i, e, buffer, added, until) && until <= i && a.start == i && a.length > 0 && a.End() <= n
    requires e < |es| ==> es[e].start > i && a.End() <= es[e].start
    requires Placed(es, n)
    ensures Filling(es, n, i, e, buffer + [a], added + [a], a.End())
  {
    hide Placed, FlatList, Apart, Precedes;
    GapAfter(es, n, i, e, buffer, added, until, a);
    PlacedSnoc(buffer, n, a);
    FlatSnoc(added, n, a);
    MatchApart(es, n, i, e, buffer, added, until, a);
    assert a in buffer + [a];
  }

  /** In a gap everything put out before is over. */
  lemma GapAfter(es: seq<Ent>, n: nat, i: nat, e: nat, buffer: seq<Ent>, added: seq<Ent>, until: nat, a: Ent)
    requires Filling(es, n, i, e, buffer, added, until) && until <= i && a.start == i && a.length > 0
    ensures (forall y :: y in buffer ==> Precedes(y, a)) && forall y :: y in added ==> y.End() <= i
  {
    hide Placed, FlatList, Apart;
    forall y | y in buffer ensures Precedes(y, a) { PlacedIn(buffer, n, y); }
    forall y | y in added ensures y.End() <= i { InBuffer(es, e, buffer, added, y); }
  }

  /** The next word: no entity starts at i any more. */
  lemma NextWord(es: seq<Ent>, n: nat, i: nat, e: nat, buffer: seq<Ent>, added: seq<Ent>, until: nat)
    requires Placed(es, n) && Filling(es, n, i, e, buffer, added, until) && (e < |es| ==> es[e].start > i)
    ensures Filling(es, n, i + 1, e, buffer, added, until)
  {
    hide Placed;
    forall k | e <= k < |es| ensures es[k].start >= i + 1 { PlacedPair(es, n, e, k); }
  }

  lemma MoreCovered(buffer: seq<Ent>, more: seq<Ent>)
    ensures forall i :: CoveredBy(buffer, i) ==> CoveredBy(buffer + more, i)
  {
    forall i | CoveredBy(buffer, i) ensures CoveredBy(buffer + more, i) {
      var x :| x in buffer && x.Covers(i);
      assert x in buffer + more;
    }
  }

  /** The word is inside something already put out. */
  lemma Inside(es: seq<Ent>, n: nat, i: nat, e: nat, buffer: seq<Ent>, added: seq<Ent>, until: nat)
    requires Filling(es, n, i, e, buffer, added, until) && until > i
    ensures CoveredBy(buffer, i)
  {
    var x :| x in buffer && x.End() == until;
  }

  ghost predicate NamesOk(trie: Trie, names: seq<string>)
  {
    forall v :: 0 <= v < |trie| && trie[v].mode == HardPost ==> trie[v].entity < |names|
  }

  lemma FoundPost(trie: Trie, forms: seq<seq<string>>, names: seq<string>, es: seq<Ent>, i: nat, e: nat, length: nat,
                  v: nat)
    requires e <= |es| && (forall k :: 0 <= k < e ==> es[k].start <= i) && (e < |es| ==> es[e].start > i) &&
             NamesOk(trie, names)
    requires Longest(trie, forms, i, if e < |es| then es[e].start else |forms|, HardPost, length, v)
    ensures length == 0 ==> NoPost(trie, forms, es, i)
    ensures length > 0 ==>
            v < |trie| && trie[v].entity < |names| && i + length <= (if e < |es| then es[e].start else |forms|)
    ensures length > 0 ==> ChosenPost(trie, forms, names, es, Ent(i, length, names[trie[v].entity]))
  {
    hide Reaches;
    NextStartAt(es, i, |forms|, e);
    if length > 0 { assert Matches(trie, forms, i, NextStart(es, i, |forms|), HardPost, length, v); }
  }

  // ------------------------------------------------------------ what the output keeps

  /** The output so far ends with the last entity taken over, or with a match. */
  ghost predicate EndsWell(es: seq<Ent>, e: nat, buffer: seq<Ent>, added: seq<Ent>)
    requires e <= |es|
  {
    if buffer == [] then e == 0
    else (e > 0 && buffer[|buffer| - 1] == es[e - 1]) || buffer[|buffer| - 1] in added
  }

  /** Between flat entities the output stays flat, between nested ones nested, and likewise for layers. */
  ghost predicate Stays(es: seq<Ent>, n: nat, e: nat, buffer: seq<Ent>, added: seq<Ent>)
  {
    && e <= |es| && EndsWell(es, e, buffer, added)
    && (FlatList(es, n) ==> FlatList(buffer, n)) && (Nested(es, n) ==> Nested(buffer, n))
    && (Layered(es, n) ==> Layered(buffer, n))
  }

  lemma StaysSo(es: seq<Ent>, n: nat, e: nat, buffer: seq<Ent>, added: seq<Ent>)
    requires Stays(es, n, e, buffer, added)
    ensures (FlatList(es, n) ==> FlatList(buffer, n)) && (Nested(es, n) ==> Nested(buffer, n))
    ensures Layered(es, n) ==> Layered(buffer, n)
  {
  }

  lemma TakeFlat(es: seq<Ent>, n: nat, i: nat, e: nat, buffer: seq<Ent>, added: seq<Ent>, until: nat)
    requires Filling(es, n, i, e, buffer, added, until) && e < |es| && FlatList(es, n) && FlatList(buffer, n)
    ensures FlatList(buffer + [es[e]], n)
  {
    hide Placed, Apart;
    forall y | y in buffer ensures y.End() <= es[e].start {
      InBuffer(es, e, buffer, added, y);
      if y in es[..e] { var k :| 0 <= k < e && es[k] == y; }
    }
    FlatSnoc(buffer, n, es[e]);
  }

  lemma TakeNested(es: seq<Ent>, n: nat, i: nat, e: nat, buffer: seq<Ent>, added: seq<Ent>, until: nat)
    requires Filling(es, n, i, e, buffer, added, until) && e < |es| && es[e].start == i
    requires Nested(es, n) && Nested(buffer, n)
    ensures Nested(buffer + [es[e]], n)
  {
    hide Nested, Placed, FlatList;
    NestedAt(es, n, e);
    forall y | y in buffer ensures Precedes(y, es[e]) {
      InBuffer(es, e, buffer, added, y);
      if y in es[..e] {
        var k :| 0 <= k < e && es[k] == y;
        NestedPair(es, n, k, e);
      } else {
        PlacedIn(buffer, n, y);
      }
    }
    NestedSnoc(buffer, n, es[e]);
  }

  /** An entity that starts inside one taken over before it comes right after its predecessor: a match in
      between would lie inside that one. */
  lemma NoneBetween(es: seq<Ent>, n: nat, i: nat, e: nat, buffer: seq<Ent>, added: seq<Ent>, until: nat, a: nat)
    requires Filling(es, n, i, e, buffer, added, until) && a < e < |es| && StartsIn(es[e], es[a])
    requires EndsWell(es, e, buffer, added)
    ensures buffer != [] && buffer[|buffer| - 1] == es[e - 1]
  {
    hide FlatList, Placed;
    InBuffer(es, e, buffer, added, es[a]);
    assert es[a] == es[..e][a];
    var k :| 0 <= k < |buffer| && buffer[k] == es[a];
    var last := buffer[|buffer| - 1];
    PlacedPair(buffer, n, k, |buffer| - 1);
    if last in added {
      PlacedIn(buffer, n, last);
      assert false;
    }
  }

  lemma TakeLayered(es: seq<Ent>, n: nat, i: nat, e: nat, buffer: seq<Ent>, added: seq<Ent>, until: nat)
    requires Filling(es, n, i, e, buffer, added, until) && e < |es| && es[e].start == i
    requires EndsWell(es, e, buffer, added) && Layered(es, n) && Layered(buffer, n)
    ensures Layered(buffer + [es[e]], n)
  {
    hide Layered, Placed, FlatList, Inner, Boxed, StartsIn, EndsWell;
    var x := es[e];
    LayeredAt(es, n, e);
    forall y | y in buffer
      ensures y.start <= x.start && (y.start == x.start ==> Boxed(y))
      ensures StartsIn(x, y) ==> Inner(buffer + [x], |buffer|) && x.End() <= y.End()
    {
      InBuffer(es, e, buffer, added, y);
      if y in es[..e] {
        var a :| 0 <= a < e && es[a] == y;
        LayeredPair(es, n, a, e);
        if StartsIn(x, y) {
          NoneBetween(es, n, i, e, buffer, added, until, a);
          InnerMoved(es, e, buffer);
        }
      } else {
        MatchOver(es, n, i, e, buffer, added, until, y);
      }
    }
    LayeredSnoc(buffer, n, x);
  }

  lemma MatchOver(es: seq<Ent>, n: nat, i: nat, e: nat, buffer: seq<Ent>, added: seq<Ent>, until: nat, y: Ent)
    requires Filling(es, n, i, e, buffer, added, until) && e < |es| && y in added && y in buffer
    ensures y.start < es[e].start && !StartsIn(es[e], y)
  {
    hide FlatList, Placed;
    PlacedIn(buffer, n, y);
  }

  lemma InnerMoved(es: seq<Ent>, k: nat, w: seq<Ent>)
    requires k < |es| && Inner(es, k) && w != [] && w[|w| - 1] == es[k - 1]
    ensures Inner(w + [es[k]], |w|)
  {
  }

  lemma TakeStays(es: seq<Ent>, n: nat, i: nat, e: nat, buffer: seq<Ent>, added: seq<Ent>, until: nat)
    requires Filling(es, n, i, e, buffer, added, until) && e < |es| && es[e].start == i
    requires Stays(es, n, e, buffer, added)
    ensures Stays(es, n, e + 1, buffer + [es[e]], added)
  {
    hide FlatList, Nested, Layered, Filling;
    if FlatList(es, n) { TakeFlat(es, n, i, e, buffer, added, until); }
    if Nested(es, n) { TakeNested(es, n, i, e, buffer, added, until); }
    if Layered(es, n) { TakeLayered(es, n, i, e, buffer, added, until); }
  }

  /** A match in a gap keeps all that, as everything before it is over. */
  lemma AddStays(es: seq<Ent>, n: nat, i: nat, e: nat, buffer: seq<Ent>, added: seq<Ent>, until: nat, a: Ent)
    requires Filling(es, n, i, e, buffer, added, until) && Stays(es, n, e, buffer, added)
    requires until <= i && a.start == i && a.length > 0 && a.End() <= n
    ensures Stays(es, n, e, buffer + [a], added + [a])
  {
    GapAfter(es, n, i, e, buffer, added, until, a);
    forall y | y in buffer ensures y.start < i && y.End() <= i { PlacedIn(buffer, n, y); }
    hide FlatList, Nested, Layered, Filling, Precedes;
    assert a in added + [a];
    if FlatList(es, n) { FlatSnoc(buffer, n, a); }
    if Nested(es, n) { NestedSnoc(buffer, n, a); }
    if Layered(es, n) { LayeredSnoc(buffer, n, a); }
  }

  lemma FillStart(es: seq<Ent>, n: nat)
    ensures Filling(es, n, 0, 0, [], [], 0) && Stays(es, n, 0, [], [])
  {
  }

  lemma StartsLater(es: seq<Ent>, n: nat, i: nat, e: nat, buffer: seq<Ent>, added: seq<Ent>, until: nat)
    requires Filling(es, n, i, e, buffer, added, until) && !(e < |es| && es[e].start == i)
    ensures e < |es| ==> es[e].start > i
  {
  }

  lemma NextInside(es: seq<Ent>, n: nat, e: nat)
    requires Placed(es, n) && e < |es|
    ensures es[e].start <= n
  {
  }

  /** After the last word every entity has been taken over. */
  lemma AllTaken(es: seq<Ent>, n: nat, e: nat, buffer: seq<Ent>, added: seq<Ent>, until: nat)
    requires Placed(es, n) && Filling(es, n, n, e, buffer, added, until)
    ensures e == |es| && Placed(buffer, n) && multiset(buffer) == multiset(es) + multiset(added)
    ensures FlatList(added, n) && forall a, k :: a in added && 0 <= k < |es| ==> Apart(a, es[k])
  {
    if e < |es| { PlacedAt(es, n, e); assert false; }
    assert es[..e] == es;
  }

  lemma SameCount(es: seq<Ent>, buffer: seq<Ent>, added: seq<Ent>)
    requires multiset(buffer) == multiset(es) + multiset(added) && |buffer| == |es|
    ensures added == [] && forall i :: CoveredBy(buffer, i) ==> CoveredBy(es, i)
  {
    assert |multiset(buffer)| == |multiset(es)| + |multiset(added)|;
    forall i | CoveredBy(buffer, i) ensures CoveredBy(es, i) {
      var x :| x in buffer && x.Covers(i);
      assert x in multiset(buffer);
      assert x in es;
    }
  }

  lemma FillingSize(es: seq<Ent>, n: nat, i: nat, e: nat, buffer: seq<Ent>, added: seq<Ent>, until: nat)
    requires Filling(es, n, i, e, buffer, added, until)
    ensures e <= |es|
  {
  }

  /** The entities that start at word i are taken over. */
  method TakeStarting(es: seq<Ent>, n: nat, i: nat, e0: nat, buffer0: seq<Ent>, ghost added: seq<Ent>, until0: nat)
    returns (e: nat, buffer: seq<Ent>, until: nat)
    requires Placed(es, n) && Filling(es, n, i, e0, buffer0, added, until0) && Stays(es, n, e0, buffer0, added)
    ensures Filling(es, n, i, e, buffer, added, until) && e <= |es| && (e < |es| ==> es[e].start > i)
    ensures Stays(es, n, e, buffer, added)
    ensures forall k :: CoveredBy(buffer0, k) ==> CoveredBy(buffer, k)
  {
    hide CoveredBy, Placed, Filling, Stays;
    e, buffer, until := e0, buffer0, until0;
    FillingSize(es, n, i, e, buffer, added, until);
    while e < |es| && es[e].start == i
      invariant e <= |es| && Filling(es, n, i, e, buffer, added, until) && Stays(es, n, e, buffer, added)
      invariant forall k :: CoveredBy(buffer0, k) ==> CoveredBy(buffer, k)
    {
      TakeEntity(es, n, i, e, buffer, added, until);
      TakeStays(es, n, i, e, buffer, added, until);
      MoreCovered(buffer, [es[e]]);
      if i + es[e].length > until { until := i + es[e].length; }
      buffer := buffer + [es[e]];
      e := e + 1;
    }
    StartsLater(es, n, i, e, buffer, added, until);
  }

  /** A HARD_POST match at word i, if there is place for one. */
  method FillGap(trie: Trie, forms: seq<seq<string>>, names: seq<string>, es: seq<Ent>, i: nat, e: nat,
                 buffer: seq<Ent>, ghost added: seq<Ent>, until: nat)
    returns (buffer': seq<Ent>, ghost added': seq<Ent>, until': nat)
    requires TrieOk(trie) && NamesOk(trie, names) && Placed(es, |forms|) && i < |forms| && e <= |es| &&
             (e < |es| ==> es[e].start > i)
    requires Filling(es, |forms|, i, e, buffer, added, until) && Stays(es, |forms|, e, buffer, added)
    ensures Filling(es, |forms|, i, e, buffer', added', until') && Stays(es, |forms|, e, buffer', added')
    ensures forall k :: CoveredBy(buffer, k) ==> CoveredBy(buffer', k)
    ensures CoveredBy(buffer', i) || NoPost(trie, forms, es, i)
    ensures added' == added || exists a :: added' == added + [a] && ChosenPost(trie, forms, names, es, a)
  {
    hide TrieOk, NamesOk, Longest, ChosenPost, NoPost, CoveredBy, Placed, Stays;
    var n := |forms|;
    buffer', added', until' := buffer, added, until;
    if until <= i {
      var freeUntil := if e < |es| then es[e].start else n;
      if e < |es| { NextInside(es, n, e); }
      var length, node := FindHardPost(trie, forms, freeUntil, i);
      FoundPost(trie, forms, names, es, i, e, length, node);
      if length > 0 {
        var a := Ent(i, length, names[trie[node].entity]);
        hide Filling;
        AddMatch(es, n, i, e, buffer, added, until, a);
        AddStays(es, n, i, e, buffer, added, until, a);
        MoreCovered(buffer, [a]);
        buffer', added', until' := buffer + [a], added + [a], i + length;
        Inside(es, n, i, e, buffer', added', until');
      }
    } else {
      Inside(es, n, i, e, buffer, added, until);
    }
  }

  lemma ExplainNext(trie: Trie, forms: seq<seq<string>>, names: seq<string>, es: seq<Ent>, i: nat,
                    buffer: seq<Ent>, added: seq<Ent>, buffer': seq<Ent>, added': seq<Ent>)
    requires Explained(trie, forms, names, es, i, buffer, added)
    requires forall k :: CoveredBy(buffer, k) ==> CoveredBy(buffer', k)
    requires CoveredBy(buffer', i) || NoPost(trie, forms, es, i)
    requires added' == added || exists a :: added' == added + [a] && ChosenPost(trie, forms, names, es, a)
    ensures Explained(trie, forms, names, es, i + 1, buffer', added')
  {
    hide CoveredBy, NoPost, ChosenPost;
  }

  /** gazetteers_enhanced::process_entities: nothing is dropped, and the added matches are disjoint
      from everything present and from each other. */
  method PostGazetteers(trie: Trie, forms: seq<seq<string>>, names: seq<string>, entities: seq<Ent>)
    returns (result: seq<Ent>, ghost added: seq<Ent>)
    requires TrieOk(trie) && NamesOk(trie, names) && Placed(entities, |forms|)
    ensures Placed(result, |forms|) && multiset(result) == multiset(entities) + multiset(added)
    ensures Nested(entities, |forms|) ==> Nested(result, |forms|)
    ensures FlatList(entities, |forms|) ==> FlatList(result, |forms|)
    ensures Layered(entities, |forms|) ==> Layered(result, |forms|)
    ensures FlatList(added, |forms|) && forall a, k :: a in added && 0 <= k < |entities| ==> Apart(a, entities[k])
    ensures Explained(trie, forms, names, entities, |forms|, result, added)
  {
    hide TrieOk, NamesOk, Placed, Nested, FlatList, Layered, Stays, Filling, Explained, ChosenPost, NoPost, CoveredBy,
         Apart;
    var n := |forms|;
    var buffer, until: nat, i: nat, e: nat := [], 0, 0, 0;
    added := [];
    FillStart(entities, n);
    ExplainStart(trie, forms, names, entities);
    while i < n
      invariant i <= n && Filling(entities, n, i, e, buffer, added, until) && Stays(entities, n, e, buffer, added)
      invariant Explained(trie, forms, names, entities, i, buffer, added)
    {
      ghost var buffer0, added0 := buffer, added;
      e, buffer, until := TakeStarting(entities, n, i, e, buffer, added, until);
      buffer, added, until := FillGap(trie, forms, names, entities, i, e, buffer, added, until);
      ExplainNext(trie, forms, names, entities, i, buffer0, added0, buffer, added);
      NextWord(entities, n, i, e, buffer, added, until);
      i := i + 1;
    }
    AllTaken(entities, n, e, buffer, added, until);
    StaysSo(entities, n, e, buffer, added);
    result := entities;
    if |buffer| != |entities| {
      result := buffer;
    } else {
      SameCount(entities, buffer, added);
      ExplainSame(trie, forms, names, entities, buffer);
    }
  }

  lemma ExplainStart(trie: Trie, forms: seq<seq<string>>, names: seq<string>, es: seq<Ent>)
    ensures Explained(trie, forms, names, es, 0, [], [])
  {
  }

  lemma ExplainSame(trie: Trie, forms: seq<seq<string>>, names: seq<string>, es: seq<Ent>, buffer: seq<Ent>)
    requires Explained(trie, forms, names, es, |forms|, buffer, []) && forall i :: CoveredBy(buffer, i) ==>
             CoveredBy(es, i)
    ensures Explained(trie, forms, names, es, |forms|, es, [])
  {
    hide CoveredBy, NoPost;
  }
}
