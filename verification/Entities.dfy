/** Named entities as the output sees them: ranges of words with a type name, possibly nested. */
module Entities {
  datatype Ent = Ent(start: nat, length: nat, kind: string) {
    function End(): nat { start + length }
    predicate Covers(i: int) { start <= i < start + length }
  }

  /** The order of sort_entities: by start, longer first. */
  predicate Lt(a: Ent, b: Ent) { a.start < b.start || (a.start == b.start && a.length > b.length) }

  /** a may come before b: not after it in that order, and disjoint from it or around it. */
  predicate Precedes(a: Ent, b: Ent)
  {
    !Lt(b, a) && (a.End() <= b.start || b.End() <= a.End())
  }

  /** Non-empty entities within n words, sorted and properly nested. */
  ghost predicate Nested(es: seq<Ent>, n: nat)
  {
    && (forall k :: 0 <= k < |es| ==> es[k].length > 0 && es[k].End() <= n)
    && (forall j, k :: 0 <= j < k < |es| ==> Precedes(es[j], es[k]))
  }

  /** Sorted and pairwise disjoint. */
  ghost predicate FlatList(es: seq<Ent>, n: nat)
  {
    && (forall k :: 0 <= k < |es| ==> es[k].length > 0 && es[k].End() <= n)
    && (forall j, k :: 0 <= j < k < |es| ==> es[j].End() <= es[k].start)
  }

  /** Non-empty entities within n words, by start. */
  ghost predicate Placed(es: seq<Ent>, n: nat)
  {
    && (forall k :: 0 <= k < |es| ==> es[k].length > 0 && es[k].End() <= n)
    && (forall j, k :: 0 <= j < k < |es| ==> es[j].start <= es[k].start)
  }

  lemma PlacedAt(es: seq<Ent>, n: nat, k: nat)
    requires Placed(es, n) && k < |es|
    ensures es[k].length > 0 && es[k].End() <= n
  {
  }

  lemma PlacedPair(es: seq<Ent>, n: nat, j: nat, k: nat)
    requires Placed(es, n) && j <= k < |es|
    ensures es[j].start <= es[k].start
  {
  }

  lemma PlacedSnoc(es: seq<Ent>, n: nat, e: Ent)
    requires Placed(es, n) && e.length > 0 && e.End() <= n && forall x :: x in es ==> x.start <= e.start
    ensures Placed(es + [e], n)
  {
  }

  lemma NestedAt(es: seq<Ent>, n: nat, k: nat)
    requires Nested(es, n) && k < |es|
    ensures es[k].length > 0 && es[k].End() <= n
  {
  }

  lemma NestedPair(es: seq<Ent>, n: nat, j: nat, k: nat)
    requires Nested(es, n) && j < k < |es|
    ensures Precedes(es[j], es[k])
  {
  }

  lemma NestedSnoc(es: seq<Ent>, n: nat, e: Ent)
    requires Nested(es, n) && e.length > 0 && e.End() <= n && forall x :: x in es ==> Precedes(x, e)
    ensures Nested(es + [e], n)
  {
  }

  lemma FlatSnoc(es: seq<Ent>, n: nat, e: Ent)
    requires FlatList(es, n) && e.length > 0 && e.End() <= n && forall x :: x in es ==> x.End() <= e.start
    ensures FlatList(es + [e], n)
  {
  }

  predicate Apart(a: Ent, b: Ent) { a.End() <= b.start || b.End() <= a.start }

  /** e starts inside x, after its first word. */
  predicate StartsIn(e: Ent, x: Ent) { x.start < e.start < x.End() }

  predicate Laminar(a: Ent, b: Ent)
  {
    Apart(a, b) || (a.start <= b.start && b.End() <= a.End()) || (b.start <= a.start && a.End() <= b.End())
  }

  // ------------------------------------------------------------ sort_entities

  ghost predicate Sorted(es: seq<Ent>) { forall j, k :: 0 <= j < k < |es| ==> !Lt(es[k], es[j]) }

  /** The check before sorting: no neighbour is out of order. */
  method IsSorted(es: seq<Ent>) returns (ok: bool)
    ensures ok <==> Sorted(es)
  {
    var k: nat := 1;
    while k < |es|
      invariant 1 <= k && (k <= |es| || |es| == 0) && (|es| > 0 ==> Sorted(es[..k]))
    {
      if Lt(es[k], es[k - 1]) { return false; }
      forall j | 0 <= j < k ensures !Lt(es[k], es[j]) { assert j < k - 1 ==> !Lt(es[..k][k - 1], es[..k][j]); }
      assert es[..k + 1] == es[..k] + [es[k]];
      k := k + 1;
    }
    assert |es| > 0 ==> es[..k] == es;
    ok := true;
  }

  /** sort_entities; the standard library's sort is an insertion sort here. */
  method SortEntities(es: seq<Ent>) returns (r: seq<Ent>)
    ensures Sorted(r) && multiset(r) == multiset(es) && (Sorted(es) ==> r == es)
  {
    var ok := IsSorted(es);
    if ok { return es; }
    r := [];
    var k := 0;
    while k < |es|
      invariant 0 <= k <= |es| && Sorted(r) && multiset(r) == multiset(es[..k])
    {
      assert es[..k + 1] == es[..k] + [es[k]];
      r := InsertSorted(r, es[k]);
      k := k + 1;
    }
    assert es[..k] == es;
  }

  method InsertSorted(s: seq<Ent>, e: Ent) returns (r: seq<Ent>)
    requires Sorted(s)
    ensures Sorted(r) && multiset(r) == multiset(s) + multiset{e}
  {
    var i: nat := 0;
    while i < |s| && !Lt(e, s[i])
      invariant i <= |s| && forall j :: 0 <= j < i ==> !Lt(e, s[j])
    {
      i := i + 1;
    }
    r := s[..i] + [e] + s[i..];
    InsertedSorted(s, e, i);
  }

  lemma InsertedSorted(s: seq<Ent>, e: Ent, i: nat)
    requires Sorted(s) && i <= |s| && (forall j :: 0 <= j < i ==> !Lt(e, s[j])) && (i < |s| ==> Lt(e, s[i]))
    ensures var r := s[..i] + [e] + s[i..]; Sorted(r) && multiset(r) == multiset(s) + multiset{e}
  {
    InsertedBag(s, e, i);
    forall k | i <= k < |s| ensures !Lt(s[k], e) { if k > i { assert !Lt(s[k], s[i]); } }
    hide Lt;
    var r := s[..i] + [e] + s[i..];
    forall j, k | 0 <= j < k < |r| ensures !Lt(r[k], r[j]) {
      InsertedAt(s, e, i, j);
      InsertedAt(s, e, i, k);
    }
  }

  lemma InsertedAt(s: seq<Ent>, e: Ent, i: nat, k: nat)
    requires i <= |s| && k <= |s|
    ensures (s[..i] + [e] + s[i..])[k] == if k < i then s[k] else if k == i then e else s[k - 1]
  {
  }

  lemma InsertedBag(s: seq<Ent>, e: Ent, i: nat)
    requires i <= |s|
    ensures multiset(s[..i] + [e] + s[i..]) == multiset(s) + multiset{e}
  {
    assert s == s[..i] + s[i..];
  }

  /** Sorting a laminar family gives a properly nested list, whatever order it came in. */
  lemma SortedNested(es: seq<Ent>, r: seq<Ent>, n: nat)
    requires Sorted(r) && multiset(r) == multiset(es)
    requires forall k :: 0 <= k < |es| ==> es[k].length > 0 && es[k].End() <= n
    requires forall j, k :: 0 <= j < |es| && 0 <= k < |es| ==> Laminar(es[j], es[k])
    ensures Nested(r, n)
  {
    forall k | 0 <= k < |r| ensures r[k] in es { assert r[k] in multiset(r); }
    forall j, k | 0 <= j < k < |r| ensures Precedes(r[j], r[k]) {
      assert r[j] in es && r[k] in es;
      var a :| 0 <= a < |es| && es[a] == r[j];
      var b :| 0 <= b < |es| && es[b] == r[k];
      assert Laminar(es[a], es[b]) && !Lt(r[k], r[j]);
    }
  }
}
