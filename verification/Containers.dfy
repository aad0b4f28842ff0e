/** Czech containers: a person container P around first names and surnames, a time container T
    around day, month and year. */
module Containers {
  import opened Entities

  predicate Adjacent(es: seq<Ent>, j: int) { 0 < j < |es| && es[j].start == es[j - 1].End() }

  /** The check at a start: the entity before does not end earlier. In a flat list this is adjacency. */
  predicate Touches(es: seq<Ent>, j: int) { 0 < j < |es| && es[j].start <= es[j - 1].End() }

  predicate Kind(es: seq<Ent>, j: int, kind: string) { 0 <= j < |es| && es[j].kind == kind }

  /** The entities i..j follow one another without a gap. */
  ghost predicate Row(es: seq<Ent>, i: nat, j: nat)
  {
    i < j <= |es| && forall k :: i < k < j ==> Adjacent(es, k)
  }

  ghost predicate AllKind(es: seq<Ent>, i: nat, j: nat, kind: string) { forall k :: i <= k < j ==> Kind(es, k, kind) }

  /** All of a gapless row of first names followed by surnames. */
  ghost predicate PersonSplit(es: seq<Ent>, i: nat, m: nat, j: nat)
  {
    i < m < j && AllKind(es, i, m, "pf") && AllKind(es, m, j, "ps")
  }

  ghost predicate IsPerson(es: seq<Ent>, i: nat, j: nat)
  {
    && Row(es, i, j) && (exists m: nat :: PersonSplit(es, i, m, j))
    && !(Touches(es, i) && Kind(es, i - 1, "pf")) && !(Adjacent(es, j) && Kind(es, j, "ps"))
  }

  /** Day and month with the year if it follows, or month and year without a day before. */
  ghost predicate IsTime(es: seq<Ent>, i: nat, j: nat)
  {
    && Row(es, i, j)
    && ((j == i + 2 && Kind(es, i, "td") && Kind(es, i + 1, "tm") && !(Adjacent(es, j) && Kind(es, j, "ty")))
        || (j == i + 3 && Kind(es, i, "td") && Kind(es, i + 1, "tm") && Kind(es, i + 2, "ty"))
        || (j == i + 2 && Kind(es, i, "tm") && Kind(es, i + 1, "ty") && !(Touches(es, i) && Kind(es, i - 1, "td"))))
  }

  ghost predicate IsGroup(es: seq<Ent>, i: nat, j: nat) { IsPerson(es, i, j) || IsTime(es, i, j) }

  /** The end of the run of a kind that goes on at j. */
  method RunEnd(es: seq<Ent>, start: nat, kind: string) returns (j: nat)
    requires 0 < start <= |es|
    ensures start <= j <= |es| && AllKind(es, start, j, kind) && (forall k :: start <= k < j ==> Adjacent(es, k))
    ensures !(Adjacent(es, j) && Kind(es, j, kind))
  {
    j := start;
    while j < |es| && es[j].start == es[j - 1].start + es[j - 1].length && es[j].kind == kind
      invariant start <= j <= |es| && AllKind(es, start, j, kind) && (forall k :: start <= k < j ==> Adjacent(es, k))
    {
      j := j + 1;
    }
  }

  method FindPerson(es: seq<Ent>, i: nat) returns (j: nat)
    requires i < |es|
    ensures if j > 0 then IsPerson(es, i, j) else forall e: nat :: !IsPerson(es, i, e)
  {
    j := 0;
    if es[i].kind == "pf" && (i == 0 || es[i - 1].start + es[i - 1].length < es[i].start || es[i - 1].kind != "pf") {
      var m := RunEnd(es, i + 1, "pf");
      if m < |es| && es[m].start == es[m - 1].start + es[m - 1].length && es[m].kind == "ps" {
        j := RunEnd(es, m + 1, "ps");
        assert PersonSplit(es, i, m, j);
      } else {
        forall e: nat ensures !IsPerson(es, i, e) { NoPerson(es, i, m, e); }
      }
    } else {
      forall e: nat ensures !IsPerson(es, i, e) { if IsPerson(es, i, e) { PersonStart(es, i, e); } }
    }
  }

  lemma PersonStart(es: seq<Ent>, i: nat, j: nat)
    requires IsPerson(es, i, j)
    ensures Kind(es, i, "pf")
  {
    var m: nat :| PersonSplit(es, i, m, j);
  }

  lemma NoPerson(es: seq<Ent>, i: nat, m: nat, j: nat)
    requires i < m && AllKind(es, i + 1, m, "pf") && !(Adjacent(es, m) && (Kind(es, m, "pf") || Kind(es, m, "ps")))
    ensures !IsPerson(es, i, j)
  {
    if IsPerson(es, i, j) {
      var k: nat :| PersonSplit(es, i, k, j);
      var kinds := (Kind(es, k, "ps"), Kind(es, k, "pf"), Kind(es, m, "pf"), Adjacent(es, m));
    }
  }

  method FindTime(es: seq<Ent>, i: nat) returns (j: nat)
    requires i < |es|
    ensures if j > 0 then IsTime(es, i, j) else forall e: nat :: !IsTime(es, i, e)
  {
    j := 0;
    forall e: nat ensures IsTime(es, i, e) ==> Adjacent(es, i + 1) { }
    if es[i].kind == "td" && i + 1 < |es| && es[i + 1].start == es[i].start + es[i].length && es[i + 1].kind == "tm" {
      j := i + 2;
      if j < |es| && es[j].start == es[j - 1].start + es[j - 1].length && es[j].kind == "ty" { j := j + 1; }
    }
    if es[i].kind == "tm" && (i == 0 || es[i - 1].start + es[i - 1].length < es[i].start || es[i - 1].kind != "td") {
      if i + 1 < |es| && es[i + 1].start == es[i].start + es[i].length && es[i + 1].kind == "ty" { j := i + 2; }
    }
  }

  /** Within a row starts and ends only grow. */
  lemma {:induction false} RowOrder(es: seq<Ent>, i: nat, j: nat, k: nat)
    requires Row(es, i, j) && i <= k < j
    ensures es[i].start <= es[k].start && es[k].End() <= es[j - 1].End()
    decreases j
  {
    if i + 1 < j {
      assert Adjacent(es, j - 1);
      RowOrder(es, i, j - 1, if k < j - 1 then k else j - 2);
    }
  }

  /** The range of the entities i..j; for a row it is their exact union. */
  ghost function Container(es: seq<Ent>, i: nat, j: nat): (c: Ent)
    requires i < j <= |es|
  {
    var end := es[j - 1].End();
    Ent(es[i].start, if end < es[i].start then 0 else end - es[i].start, if es[i].kind == "pf" then "P" else "T")
  }

  /** A container covers exactly the words of its members. */
  lemma {:induction false} ContainerIsUnion(es: seq<Ent>, i: nat, j: nat, w: nat)
    requires Row(es, i, j)
    ensures Container(es, i, j).Covers(w) <==> exists k :: i <= k < j && es[k].Covers(w)
    decreases j
  {
    RowOrder(es, i, j, i);
    if i + 1 < j {
      ContainerIsUnion(es, i, j - 1, w);
      RowOrder(es, i, j - 1, i);
      assert Adjacent(es, j - 1);
      if es[j - 1].Covers(w) { assert i <= j - 1 < j; }
    } else {
      assert es[i].Covers(w) ==> i <= i < j;
    }
  }

  /** For each entity, where the group that starts there ends; 0 for no group. */
  ghost predicate Groups(es: seq<Ent>, g: seq<nat>)
  {
    |g| <= |es| && forall i :: 0 <= i < |g| ==> GroupAt(es, i, g[i])
  }

  ghost predicate GroupAt(es: seq<Ent>, i: nat, j: nat)
  {
    if j > 0 then IsGroup(es, i, j) else forall e: nat :: !IsGroup(es, i, e)
  }

  lemma GroupRow(es: seq<Ent>, i: nat, j: nat)
    requires IsGroup(es, i, j)
    ensures Row(es, i, j) && i + 2 <= j
  {
    if IsPerson(es, i, j) { var m: nat :| PersonSplit(es, i, m, j); }
  }

  ghost function ContainerAt(es: seq<Ent>, i: nat, j: nat): (c: seq<Ent>)
    requires i < |es| && GroupAt(es, i, j)
  {
    if j > 0 then GroupRow(es, i, j); [Container(es, i, j)] else []
  }

  /** The entities with each container put before its first member. */
  ghost function Woven(es: seq<Ent>, g: seq<nat>): seq<Ent>
    requires Groups(es, g)
    decreases |g|
  {
    if g == [] then [] else
      var i := |g| - 1;
      assert GroupAt(es, i, g[i]);
      Woven(es, g[..i]) + ContainerAt(es, i, g[i]) + [es[i]]
  }

  ghost function All(es: seq<Ent>, g: seq<nat>): seq<Ent>
    requires Groups(es, g)
    decreases |g|
  {
    if g == [] then [] else
      var i := |g| - 1;
      assert GroupAt(es, i, g[i]);
      All(es, g[..i]) + ContainerAt(es, i, g[i])
  }

  // ------------------------------------------------------------ what the containers keep

  /** Groups do not overlap: none starts inside another. */
  lemma GroupsApart(es: seq<Ent>, i: nat, j: nat, i': nat, j': nat)
    requires IsGroup(es, i, j) && IsGroup(es, i', j') && i < i'
    ensures j <= i'
  {
    GroupKind(es, i', j');
    if i' < j {
      GroupRow(es, i, j);
      assert Adjacent(es, i');
      InsideKind(es, i, j, i');
      assert false;
    }
  }

  /** How a group starts. */
  lemma GroupKind(es: seq<Ent>, i: nat, j: nat)
    requires IsGroup(es, i, j)
    ensures (Kind(es, i, "pf") && !(Touches(es, i) && Kind(es, i - 1, "pf"))) || Kind(es, i, "td")
         || (Kind(es, i, "tm") && !(Touches(es, i) && Kind(es, i - 1, "td")))
  {
    if IsPerson(es, i, j) { PersonStart(es, i, j); }
  }

  /** What may stand inside a group, after its first member. */
  lemma InsideKind(es: seq<Ent>, i: nat, j: nat, k: nat)
    requires IsGroup(es, i, j) && i < k < j
    ensures (Kind(es, k, "pf") && Kind(es, k - 1, "pf")) || Kind(es, k, "ps") ||
            (Kind(es, k, "tm") && Kind(es, k - 1, "td")) || Kind(es, k, "ty")
  {
    if IsPerson(es, i, j) {
      var m: nat :| PersonSplit(es, i, m, j);
      if k < m { assert Kind(es, k, "pf") && Kind(es, k - 1, "pf"); } else { assert Kind(es, k, "ps"); }
    }
  }

  /** An element of the woven list: an entity, or a container that starts at one. */
  ghost predicate Member(es: seq<Ent>, g: seq<nat>, e: Ent, a: int)
    requires Groups(es, g)
  {
    0 <= a < |g| && (e == es[a] || (e in ContainerAt(es, a, g[a])))
  }

  ghost predicate IsMember(es: seq<Ent>, g: seq<nat>, e: Ent)
    requires Groups(es, g)
  {
    exists a :: Member(es, g, e, a)
  }

  lemma GroupsPrefix(es: seq<Ent>, g: seq<nat>, k: nat)
    requires Groups(es, g) && k <= |g|
    ensures Groups(es, g[..k])
  {
  }

  lemma {:induction false} WovenMembers(es: seq<Ent>, g: seq<nat>, e: Ent)
    requires Groups(es, g) && e in Woven(es, g)
    ensures IsMember(es, g, e)
    decreases |g|
  {
    var i := |g| - 1;
    assert GroupAt(es, i, g[i]);
    if e in Woven(es, g[..i]) {
      WovenMembers(es, g[..i], e);
      var a :| Member(es, g[..i], e, a);
      assert Member(es, g, e, a);
    } else {
      assert Member(es, g, e, i);
    }
  }

  /** No container reaches over the end of an entity that begins before it. */
  ghost predicate Fits(es: seq<Ent>)
  {
    forall i: nat, j: nat, a: nat :: a < i && IsGroup(es, i, j) ==> FitsAt(es, i, j, a)
  }

  ghost predicate FitsAt(es: seq<Ent>, i: nat, j: nat, a: nat)
  {
    a < i < j <= |es| && (es[a].End() <= es[i].start || es[j - 1].End() <= es[a].End())
  }

  lemma FlatFits(es: seq<Ent>, n: nat)
    requires FlatList(es, n)
    ensures Fits(es) && Nested(es, n)
  {
    hide IsGroup;
    forall i: nat, j: nat, a: nat | a < i && IsGroup(es, i, j) ensures FitsAt(es, i, j, a) { GroupRow(es, i, j); }
  }

  /** Two neighbours of a list, nested or not, and a container around the later of them. */
  lemma EntityPrecedes(es: seq<Ent>, n: nat, a: nat, i: nat, j: nat)
    requires Nested(es, n) && a < i && IsGroup(es, i, j) && FitsAt(es, i, j, a)
    ensures Precedes(es[a], Container(es, i, j))
  {
    hide IsGroup;
    GroupRow(es, i, j);
    RowOrder(es, i, j, i);
    assert Precedes(es[a], es[i]);
  }

  /** A container precedes whatever comes after its first member. */
  lemma ContainerPrecedes(es: seq<Ent>, n: nat, a: nat, ja: nat, i: nat)
    requires Nested(es, n) && IsGroup(es, a, ja) && a <= i < |es|
    ensures Precedes(Container(es, a, ja), es[i])
  {
    hide IsGroup;
    GroupRow(es, a, ja);
    RowOrder(es, a, ja, a);
    if i < ja { RowOrder(es, a, ja, i); } else { assert Precedes(es[ja - 1], es[i]) && Precedes(es[a], es[i]); }
  }

  lemma ContainersPrecede(es: seq<Ent>, n: nat, a: nat, ja: nat, i: nat, ji: nat)
    requires Nested(es, n) && Fits(es) && IsGroup(es, a, ja) && IsGroup(es, i, ji) && a < i
    ensures Precedes(Container(es, a, ja), Container(es, i, ji))
  {
    hide IsGroup;
    GroupRow(es, a, ja);
    GroupRow(es, i, ji);
    RowOrder(es, a, ja, a);
    RowOrder(es, i, ji, i);
    GroupsApart(es, a, ja, i, ji);
    assert FitsAt(es, i, ji, ja - 1);
    assert Precedes(es[a], es[i]);
  }

  /** Anything woven in before entity i precedes it and the container that starts with it. */
  lemma MemberPrecedes(es: seq<Ent>, n: nat, g: seq<nat>, e: Ent, i: nat)
    requires Nested(es, n) && Fits(es) && Groups(es, g) && i == |g| - 1 && Groups(es, g[..i]) && IsMember(es, g[..i], e)
    ensures Precedes(e, es[i]) && forall c :: c in ContainerAt(es, i, g[i]) ==> Precedes(e, c)
  {
    hide IsGroup, Precedes, FitsAt;
    var a :| Member(es, g[..i], e, a);
    assert GroupAt(es, a, g[a]) && GroupAt(es, i, g[i]);
    NestedPair(es, n, a, i);
    if g[i] > 0 {
      assert FitsAt(es, i, g[i], a);
      EntityPrecedes(es, n, a, i, g[i]);
    }
    if g[a] > 0 {
      ContainerPrecedes(es, n, a, g[a], i);
      if g[i] > 0 { ContainersPrecede(es, n, a, g[a], i, g[i]); }
    }
  }

  lemma SelfPrecedes(es: seq<Ent>, n: nat, i: nat, j: nat)
    requires Nested(es, n) && i < |es| && GroupAt(es, i, j)
    ensures forall c :: c in ContainerAt(es, i, j) ==> Precedes(c, es[i]) && c.length > 0 && c.End() <= n
  {
    hide IsGroup;
    if j > 0 {
      GroupRow(es, i, j);
      RowOrder(es, i, j, i);
      ContainerPrecedes(es, n, i, j, i);
    }
  }

  /** Weaving fitting containers into a nested list gives a nested list. */
  lemma {:induction false} WovenNested(es: seq<Ent>, n: nat, g: seq<nat>)
    requires Nested(es, n) && Fits(es) && Groups(es, g)
    ensures Nested(Woven(es, g), n)
    decreases |g|
  {
    hide Precedes, GroupAt, Fits, Nested, Woven, ContainerAt;
    if g == [] {
      EmptyNested(es, n);
    } else {
      var i := |g| - 1;
      WovenSnoc(es, g);
      WovenNested(es, n, g[..i]);
      var w, c := Woven(es, g[..i]), ContainerAt(es, i, g[i]);
      forall x | x in w ensures Precedes(x, es[i]) && forall y :: y in c ==> Precedes(x, y) {
        WovenMembers(es, g[..i], x);
        MemberPrecedes(es, n, g, x, i);
      }
      SelfPrecedes(es, n, i, g[i]);
      ContainerSize(es, i, g[i]);
      NestedAt(es, n, i);
      NestedStep(w, n, c, es[i]);
    }
  }

  lemma EmptyNested(es: seq<Ent>, n: nat)
    ensures Groups(es, []) && Nested(Woven(es, []), n)
  {
  }

  /** One more entity of a nested list, and perhaps a container before it. */
  lemma NestedStep(w: seq<Ent>, n: nat, c: seq<Ent>, x: Ent)
    requires Nested(w, n) && |c| <= 1 && x.length > 0 && x.End() <= n
    requires forall y :: y in w ==> Precedes(y, x) && forall z :: z in c ==> Precedes(y, z)
    requires forall z :: z in c ==> Precedes(z, x) && z.length > 0 && z.End() <= n
    ensures Nested(w + c + [x], n)
  {
    hide Nested, Precedes;
    if c != [] { NestedSnoc(w, n, c[0]); assert c == [c[0]]; } else { assert w + c == w; }
    NestedSnoc(w + c, n, x);
  }

  /** At most one group starts at an entity. */
  lemma GroupOnce(es: seq<Ent>, i: nat, j: nat, j': nat)
    requires IsGroup(es, i, j) && IsGroup(es, i, j')
    ensures j == j'
  {
    if IsPerson(es, i, j) && IsPerson(es, i, j') {
      PersonOnce(es, i, j, j');
      PersonOnce(es, i, j', j);
    } else {
      if IsPerson(es, i, j) { PersonStart(es, i, j); }
      if IsPerson(es, i, j') { PersonStart(es, i, j'); }
      TimeOnce(es, i, j, j');
    }
  }

  lemma PersonOnce(es: seq<Ent>, i: nat, j: nat, j': nat)
    requires IsPerson(es, i, j) && IsPerson(es, i, j')
    ensures j' <= j
  {
    var m: nat :| PersonSplit(es, i, m, j);
    var m': nat :| PersonSplit(es, i, m', j');
    var terms := (Kind(es, j - 1, "ps"), Kind(es, j - 1, "pf"), Kind(es, j, "ps"), Adjacent(es, j));
  }

  lemma TimeOnce(es: seq<Ent>, i: nat, j: nat, j': nat)
    ensures IsTime(es, i, j) && IsTime(es, i, j') ==> j == j'
  {
    var terms := (Adjacent(es, i + 2), Kind(es, i + 2, "ty"));
  }

  lemma {:induction false} WovenPrefix(es: seq<Ent>, g: seq<nat>, k: nat)
    requires Groups(es, g) && k <= |g|
    ensures Groups(es, g[..k]) && Woven(es, g[..k]) <= Woven(es, g)
    decreases |g|
  {
    GroupsPrefix(es, g, k);
    if k < |g| {
      hide GroupAt, ContainerAt;
      WovenSnoc(es, g);
      WovenPrefix(es, g[..|g| - 1], k);
      assert g[..|g| - 1][..k] == g[..k];
    } else {
      assert g[..k] == g;
    }
  }

  /** An entity stands at the end of what is woven up to it. */
  lemma WovenEntity(es: seq<Ent>, g: seq<nat>, a: nat)
    requires Groups(es, g) && a < |g|
    ensures Groups(es, g[..a + 1]) && Woven(es, g[..a + 1]) <= Woven(es, g)
    ensures |Woven(es, g[..a + 1])| > 0 && Woven(es, g)[|Woven(es, g[..a + 1])| - 1] == es[a]
  {
    hide GroupAt, Woven, ContainerAt;
    WovenPrefix(es, g, a + 1);
    WovenSnoc(es, g[..a + 1]);
  }

  /** A container stands right after what is woven before it. */
  lemma WovenContainer(es: seq<Ent>, g: seq<nat>, i: nat)
    requires Groups(es, g) && i < |g| && g[i] > 0
    ensures Groups(es, g[..i]) && GroupAt(es, i, g[i])
    ensures |Woven(es, g[..i])| < |Woven(es, g)| && Woven(es, g)[|Woven(es, g[..i])|] == Container(es, i, g[i])
  {
    hide GroupAt, Woven, ContainerAt;
    WovenPrefix(es, g, i);
    WovenPrefix(es, g, i + 1);
    WovenSnoc(es, g[..i + 1]);
    assert g[..i + 1][..i] == g[..i];
    ContainerThere(es, i, g[i]);
  }

  /** Where an entity and a later container stand in the woven list. */
  lemma WovenOrder(es: seq<Ent>, g: seq<nat>, a: nat, i: nat) returns (p: nat, q: nat)
    requires Groups(es, g) && a < i < |g| && g[i] > 0
    ensures GroupAt(es, i, g[i]) && p < q < |Woven(es, g)|
    ensures Woven(es, g)[p] == es[a] && Woven(es, g)[q] == Container(es, i, g[i])
  {
    hide GroupAt, Woven, Groups;
    WovenEntity(es, g, a);
    WovenContainer(es, g, i);
    WovenPrefix(es, g[..i], a + 1);
    assert g[..i][..a + 1] == g[..a + 1];
    p, q := |Woven(es, g[..a + 1])| - 1, |Woven(es, g[..i])|;
  }

  lemma ContainerThere(es: seq<Ent>, i: nat, j: nat)
    requires i < |es| && GroupAt(es, i, j) && j > 0
    ensures ContainerAt(es, i, j) == [Container(es, i, j)]
  {
  }

  /** On nested entities the result is nested exactly if every container fits. */
  lemma NestedIfFits(es: seq<Ent>, n: nat, g: seq<nat>)
    requires Nested(es, n) && Groups(es, g) && |g| == |es|
    ensures Nested(Woven(es, g), n) <==> Fits(es)
  {
    hide IsGroup, Woven;
    if Fits(es) { WovenNested(es, n, g); }
    if Nested(Woven(es, g), n) {
      forall i: nat, j: nat, a: nat | a < i && IsGroup(es, i, j) ensures FitsAt(es, i, j, a) {
        GroupRow(es, i, j);
        assert GroupAt(es, i, g[i]);
        GroupOnce(es, i, j, g[i]);
        var p, q := WovenOrder(es, g, a, i);
        NestedPair(Woven(es, g), n, p, q);
        ContainerThere(es, i, j);
        RowOrder(es, i, j, i);
        NestedPair(es, n, a, i);
      }
    }
  }

  /** A container that reaches over the end of an enclosing entity is not nested any more. */
  lemma Crossing()
    ensures var es := [Ent(0, 2, "X"), Ent(1, 1, "pf"), Ent(2, 1, "ps")];
            Nested(es, 3) && IsGroup(es, 1, 3) && !Fits(es)
  {
    var es := [Ent(0, 2, "X"), Ent(1, 1, "pf"), Ent(2, 1, "ps")];
    assert PersonSplit(es, 1, 2, 3);
    assert IsPerson(es, 1, 3);
    assert !FitsAt(es, 1, 3, 0);
  }

  lemma ContainerSize(es: seq<Ent>, i: nat, j: nat)
    requires i < |es| && GroupAt(es, i, j)
    ensures |ContainerAt(es, i, j)| <= 1
  {
  }

  // ------------------------------------------------------------ layers

  /** A container, to judge by its type. */
  predicate Boxed(e: Ent) { e.kind == "P" || e.kind == "T" }

  /** An entity where no group starts, whatever follows it: it goes on from the one before. */
  predicate Inner(es: seq<Ent>, k: int)
  {
    && Adjacent(es, k)
    && ((Kind(es, k, "pf") && Kind(es, k - 1, "pf")) || Kind(es, k, "ps")
        || (Kind(es, k, "tm") && Kind(es, k - 1, "td")) || Kind(es, k, "ty"))
  }

  /** Two entities of a list to which containers may have been added: they do not cross, only containers
      share their start with a later entity, and what starts inside another goes on from its predecessor. */
  ghost predicate Layer(es: seq<Ent>, a: int, k: int)
    requires 0 <= a < |es| && 0 <= k < |es|
  {
    && Laminar(es[a], es[k]) && (a < k && es[a].start == es[k].start ==> Boxed(es[a]))
    && (StartsIn(es[k], es[a]) ==> Inner(es, k))
  }

  /** What every list of a run satisfies, however many container steps and gazetteers came before. */
  ghost predicate Layered(es: seq<Ent>, n: nat)
  {
    Placed(es, n) && forall a, k :: 0 <= a < |es| && 0 <= k < |es| ==> Layer(es, a, k)
  }

  lemma FlatLayered(es: seq<Ent>, n: nat)
    requires FlatList(es, n)
    ensures Layered(es, n)
  {
  }

  lemma LayeredPair(es: seq<Ent>, n: nat, a: nat, k: nat)
    requires Layered(es, n) && a < k < |es|
    ensures es[a].start <= es[k].start && (es[a].start == es[k].start ==> Boxed(es[a]))
    ensures StartsIn(es[k], es[a]) ==> Inner(es, k) && es[k].End() <= es[a].End()
  {
    hide Inner, Boxed;
    assert Layer(es, a, k);
  }

  lemma LayeredPlaced(es: seq<Ent>, n: nat)
    requires Layered(es, n)
    ensures Placed(es, n)
  {
  }

  lemma LayeredSnoc(w: seq<Ent>, n: nat, e: Ent)
    requires Layered(w, n) && e.length > 0 && e.End() <= n
    requires forall x :: x in w ==> x.start <= e.start && (x.start == e.start ==> Boxed(x))
    requires forall x :: x in w && StartsIn(e, x) ==> Inner(w + [e], |w|) && e.End() <= x.End()
    ensures Layered(w + [e], n)
  {
    var r := w + [e];
    PlacedSnoc(w, n, e);
    forall a, k | 0 <= a < |r| && 0 <= k < |r| ensures Layer(r, a, k) {
      if a < |w| && k < |w| {
        assert Layer(w, a, k);
        InnerSnoc(w, e, k);
      } else {
        hide Inner, Boxed;
        assert a < |w| ==> r[a] in w;
        assert k < |w| ==> r[k] in w;
      }
    }
  }

  lemma InnerSnoc(w: seq<Ent>, e: Ent, k: nat)
    requires k < |w|
    ensures Inner(w + [e], k) <==> Inner(w, k)
  {
  }

  /** No group starts at an inner entity. */
  lemma InnerNoGroup(es: seq<Ent>, k: nat, j: nat)
    requires Inner(es, k)
    ensures !IsGroup(es, k, j)
  {
    hide IsGroup;
    if IsGroup(es, k, j) { GroupKind(es, k, j); }
  }

  /** The last member of a group is no container. */
  lemma MemberKind(es: seq<Ent>, i: nat, j: nat, k: nat)
    requires IsGroup(es, i, j) && i <= k < j
    ensures k < |es| && !Boxed(es[k])
  {
    hide IsGroup;
    GroupRow(es, i, j);
    if k == i { GroupKind(es, i, j); } else { InsideKind(es, i, j, k); }
  }

  /** What starts inside a container is a member of it or lies inside its last member, and is inner. */
  lemma InsideContainer(es: seq<Ent>, n: nat, a: nat, j: nat, i: nat)
    requires Layered(es, n) && IsGroup(es, a, j) && a < i < |es|
    requires j <= |es| && StartsIn(es[i], Container(es, a, j))
    ensures Inner(es, i) && es[i].End() <= Container(es, a, j).End()
  {
    hide IsGroup, Layered;
    GroupRow(es, a, j);
    RowOrder(es, a, j, a);
    if i < j {
      InsideKind(es, a, j, i);
      RowOrder(es, a, j, i);
    } else {
      LayeredPair(es, n, j - 1, i);
      MemberKind(es, a, j, j - 1);
    }
  }

  /** An entity that starts inside anything woven in before it is inner. */
  lemma InsideMember(es: seq<Ent>, n: nat, g: seq<nat>, x: Ent, i: nat)
    requires Layered(es, n) && i == |g| - 1 && Groups(es, g) && Groups(es, g[..i]) && IsMember(es, g[..i], x)
    ensures x.start <= es[i].start && (x.start == es[i].start ==> Boxed(x))
    ensures StartsIn(es[i], x) ==> Inner(es, i) && es[i].End() <= x.End()
  {
    hide IsGroup, Layered, Inner, StartsIn;
    var a :| Member(es, g[..i], x, a);
    assert GroupAt(es, a, g[a]);
    LayeredPair(es, n, a, i);
    if x != es[a] {
      GroupRow(es, a, g[a]);
      if StartsIn(es[i], x) { InsideContainer(es, n, a, g[a], i); }
    }
  }

  lemma ContainerInside(es: seq<Ent>, n: nat, i: nat, j: nat)
    requires Layered(es, n) && i < |es| && GroupAt(es, i, j)
    ensures forall c :: c in ContainerAt(es, i, j) ==>
              c.length > 0 && c.End() <= n && c.start == es[i].start && Boxed(c) && !Inner(es, i)
  {
    hide IsGroup, Inner;
    if j > 0 {
      GroupRow(es, i, j);
      RowOrder(es, i, j, i);
      if Inner(es, i) { InnerNoGroup(es, i, j); }
    }
  }

  /** Adding containers keeps a list layered, with no condition. */
  lemma {:induction false} WovenLayered(es: seq<Ent>, n: nat, g: seq<nat>)
    requires Layered(es, n) && Groups(es, g)
    ensures Layered(Woven(es, g), n)
    decreases |g|
  {
    hide GroupAt, Layered, Woven, ContainerAt, Inner, Boxed, StartsIn;
    if g == [] {
      EmptyLayered(es, n);
    } else {
      var i := |g| - 1;
      WovenSnoc(es, g);
      WovenLayered(es, n, g[..i]);
      var w, c := Woven(es, g[..i]), ContainerAt(es, i, g[i]);
      forall x | x in w
        ensures x.start <= es[i].start && (x.start == es[i].start ==> Boxed(x))
        ensures StartsIn(es[i], x) ==> Inner(es, i) && es[i].End() <= x.End()
      {
        WovenMembers(es, g[..i], x);
        InsideMember(es, n, g, x, i);
      }
      ContainerInside(es, n, i, g[i]);
      ContainerSize(es, i, g[i]);
      LayeredAt(es, n, i);
      if i > 0 { WovenLast(es, g[..i]); } else { WovenNothing(es); }
      LayeredStep(w, n, c, es, i);
    }
  }

  /** An entity, and perhaps a container before it, after entities of which none that it starts in may be left. */
  lemma LayeredStep(w: seq<Ent>, n: nat, c: seq<Ent>, es: seq<Ent>, i: nat)
    requires Layered(w, n) && i < |es| && es[i].length > 0 && es[i].End() <= n
    requires if i > 0 then w != [] && w[|w| - 1] == es[i - 1] else w == []
    requires forall x :: x in w ==> x.start <= es[i].start && (x.start == es[i].start ==> Boxed(x))
    requires forall x :: x in w && StartsIn(es[i], x) ==> Inner(es, i) && es[i].End() <= x.End()
    requires |c| <= 1 && forall z :: z in c ==>
               z.length > 0 && z.End() <= n && z.start == es[i].start && Boxed(z) && !Inner(es, i)
    ensures Layered(w + c + [es[i]], n)
  {
    hide Layered, Boxed;
    if c == [] {
      assert w + c == w;
      LayeredSnoc(w, n, es[i]);
    } else {
      hide Inner;
      assert c == [c[0]] && c[0] in c;
      LayeredSnoc(w, n, c[0]);
      LayeredSnoc(w + c, n, es[i]);
    }
  }

  lemma WovenNothing(es: seq<Ent>)
    ensures Groups(es, []) && Woven(es, []) == []
  {
  }

  lemma EmptyLayered(es: seq<Ent>, n: nat)
    ensures Groups(es, []) && Layered(Woven(es, []), n)
  {
  }

  lemma LayeredAt(es: seq<Ent>, n: nat, k: nat)
    requires Layered(es, n) && k < |es|
    ensures es[k].length > 0 && es[k].End() <= n
  {
  }

  /** The woven list ends with its last entity. */
  lemma WovenLast(es: seq<Ent>, g: seq<nat>)
    requires Groups(es, g) && g != []
    ensures Woven(es, g) != [] && Woven(es, g)[|Woven(es, g)| - 1] == es[|g| - 1]
  {
    hide GroupAt, Woven, ContainerAt;
    WovenSnoc(es, g);
  }

  ghost function Bag(s: seq<Ent>): multiset<Ent> { multiset(s) }

  /** Nothing is dropped: the woven list holds the entities and the containers. */
  lemma {:induction false} WovenKeeps(es: seq<Ent>, g: seq<nat>)
    requires Groups(es, g)
    ensures Bag(Woven(es, g)) == Bag(es[..|g|]) + Bag(All(es, g))
    decreases |g|
  {
    hide GroupAt, Woven, All, ContainerAt, Bag;
    if g == [] {
      WovenNone(es);
    } else {
      var i := |g| - 1;
      var h := g[..i];
      WovenSnoc(es, g);
      WovenKeeps(es, h);
      KeepsStep(Woven(es, h), es[..i], All(es, h), ContainerAt(es, i, g[i]), [es[i]]);
      assert es[..|g|] == es[..i] + [es[i]];
    }
  }

  lemma WovenNone(es: seq<Ent>)
    ensures Groups(es, []) && Bag(Woven(es, [])) == Bag(es[..0]) + Bag(All(es, []))
  {
  }

  lemma WovenSnoc(es: seq<Ent>, g: seq<nat>)
    requires Groups(es, g) && g != []
    ensures var i := |g| - 1;
            && Groups(es, g[..i]) && GroupAt(es, i, g[i])
            && Woven(es, g) == Woven(es, g[..i]) + ContainerAt(es, i, g[i]) + [es[i]]
            && All(es, g) == All(es, g[..i]) + ContainerAt(es, i, g[i])
  {
    hide GroupAt;
    GroupsPrefix(es, g, |g| - 1);
    assert GroupAt(es, |g| - 1, g[|g| - 1]);
  }

  lemma KeepsStep(w: seq<Ent>, es: seq<Ent>, cs: seq<Ent>, c: seq<Ent>, e: seq<Ent>)
    requires Bag(w) == Bag(es) + Bag(cs)
    ensures Bag(w + c + e) == Bag(es + e) + Bag(cs + c)
  {
  }

  /** Containers are pairwise disjoint, in order. */
  lemma {:induction false} AllApart(es: seq<Ent>, n: nat, g: seq<nat>)
    requires FlatList(es, n) && Groups(es, g)
    ensures FlatList(All(es, g), n)
    ensures forall c :: c in All(es, g) ==> exists a :: 0 <= a < |g| && c in ContainerAt(es, a, g[a])
    decreases |g|
  {
    if g != [] {
      hide FlatList, GroupAt, Nested;
      FlatFits(es, n);
      var i := |g| - 1;
      GroupsPrefix(es, g, i);
      AllApart(es, n, g[..i]);
      assert GroupAt(es, i, g[i]);
      var cs, c := All(es, g[..i]), ContainerAt(es, i, g[i]);
      SelfPrecedes(es, n, i, g[i]);
      ContainerSize(es, i, g[i]);
      forall x | x in cs + c ensures exists a :: 0 <= a < |g| && x in ContainerAt(es, a, g[a]) {
        if x in cs {
          var a :| 0 <= a < i && x in ContainerAt(es, a, g[..i][a]);
          assert x in ContainerAt(es, a, g[a]);
          if c != [] { ContainersApart(es, n, a, g[a], i, g[i], x, c[0]); }
        }
      }
      if c != [] {
        forall x | x in cs ensures x.End() <= c[0].start {
          var a :| 0 <= a < i && x in ContainerAt(es, a, g[..i][a]);
          ContainersApart(es, n, a, g[a], i, g[i], x, c[0]);
        }
        FlatSnoc(cs, n, c[0]);
        assert cs + c == cs + [c[0]];
      } else {
        assert cs + c == cs;
      }
    }
  }

  lemma ContainersApart(es: seq<Ent>, n: nat, a: nat, ja: nat, i: nat, ji: nat, x: Ent, y: Ent)
    requires FlatList(es, n) && a < i < |es| && GroupAt(es, a, ja) && GroupAt(es, i, ji)
    requires x in ContainerAt(es, a, ja) && y in ContainerAt(es, i, ji)
    ensures x.End() <= y.start
  {
    hide IsGroup;
    GroupRow(es, a, ja);
    GroupRow(es, i, ji);
    GroupsApart(es, a, ja, i, ji);
    RowOrder(es, a, ja, a);
    RowOrder(es, i, ji, i);
  }

  /** An entity of the kind from the start of entity i to the end of entity j - 1. */
  ghost predicate Boxes(result: seq<Ent>, es: seq<Ent>, i: nat, j: nat, kind: string)
  {
    i < j <= |es| && exists c :: c in result && c.start == es[i].start && c.End() == es[j - 1].End() && c.kind == kind
  }

  lemma {:induction false} WovenHas(es: seq<Ent>, g: seq<nat>, i: nat)
    requires Groups(es, g) && i < |g| && g[i] > 0
    ensures GroupAt(es, i, g[i]) && forall c :: c in ContainerAt(es, i, g[i]) ==> c in Woven(es, g)
    decreases |g|
  {
    hide Groups, GroupAt, Woven, All, ContainerAt;
    WovenSnoc(es, g);
    if i < |g| - 1 { WovenHas(es, g[..|g| - 1], i); }
  }

  lemma FirstKind(es: seq<Ent>, i: nat, j: nat)
    ensures IsPerson(es, i, j) ==> Kind(es, i, "pf")
    ensures IsTime(es, i, j) ==> !Kind(es, i, "pf")
  {
    if IsPerson(es, i, j) { PersonStart(es, i, j); }
  }

  lemma BoxIs(result: seq<Ent>, es: seq<Ent>, i: nat, j: nat, kind: string)
    requires i < j <= |es| && es[i].start <= es[j - 1].End()
    requires Ent(es[i].start, es[j - 1].End() - es[i].start, kind) in result
    ensures Boxes(result, es, i, j, kind)
  {
  }

  /** First names and surnames stand in a P, dates in a T, each of exactly their extent. */
  lemma GroupsBoxed(es: seq<Ent>, g: seq<nat>, i: nat, j: nat)
    requires Groups(es, g) && |g| == |es| && IsGroup(es, i, j)
    ensures IsPerson(es, i, j) ==> Boxes(Woven(es, g), es, i, j, "P")
    ensures IsTime(es, i, j) ==> Boxes(Woven(es, g), es, i, j, "T")
  {
    FirstKind(es, i, j);
    GroupRow(es, i, j);
    hide IsGroup, IsPerson, IsTime, Woven, Boxes;
    assert GroupAt(es, i, g[i]);
    GroupOnce(es, i, j, g[i]);
    WovenHas(es, g, i);
    hide Groups;
    ContainerIs(es, i, j);
    var kind := if Kind(es, i, "pf") then "P" else "T";
    hide ContainerAt, GroupAt, Kind;
    BoxIs(Woven(es, g), es, i, j, kind);
  }

  /** czech_add_containers::process_entities, on any list: nothing is dropped and each container stands
      before its first member. Nested entities stay nested exactly if every container fits, and flat
      entities always do, with containers that are pairwise disjoint. */
  method AddContainers(entities: seq<Ent>, ghost n: nat) returns (result: seq<Ent>, ghost g: seq<nat>)
    ensures Groups(entities, g) && |g| == |entities| && result == Woven(entities, g)
    ensures multiset(result) == multiset(entities) + multiset(All(entities, g))
    ensures Nested(entities, n) ==> (Nested(result, n) <==> Fits(entities))
    ensures FlatList(entities, n) ==> Nested(result, n) && FlatList(All(entities, g), n)
    ensures Layered(entities, n) ==> Layered(result, n)
    ensures forall i: nat, j: nat :: IsPerson(entities, i, j) ==> Boxes(result, entities, i, j, "P")
    ensures forall i: nat, j: nat :: IsTime(entities, i, j) ==> Boxes(result, entities, i, j, "T")
  {
    hide FlatList, Nested, Layered, GroupAt, Fits, Woven, All, IsPerson, IsTime, Boxes;
    var buffer;
    buffer, g := WeaveAll(entities);
    WovenKeeps(entities, g);
    assert entities[..|g|] == entities;
    WovenCount(entities, g);
    if Nested(entities, n) { NestedIfFits(entities, n, g); }
    if Layered(entities, n) { WovenLayered(entities, n, g); }
    if FlatList(entities, n) {
      FlatFits(entities, n);
      AllApart(entities, n, g);
    }
    BagIs(Woven(entities, g), entities, All(entities, g));
    forall i: nat, j: nat | IsGroup(entities, i, j)
      ensures IsPerson(entities, i, j) ==> Boxes(buffer, entities, i, j, "P")
      ensures IsTime(entities, i, j) ==> Boxes(buffer, entities, i, j, "T")
    {
      GroupsBoxed(entities, g, i, j);
    }
    result := entities;
    if |buffer| > |entities| { result := buffer; }
  }

  lemma BagIs(w: seq<Ent>, es: seq<Ent>, cs: seq<Ent>)
    requires Bag(w) == Bag(es) + Bag(cs)
    ensures multiset(w) == multiset(es) + multiset(cs)
  {
  }

  /** The loop over all entities. */
  method WeaveAll(entities: seq<Ent>) returns (buffer: seq<Ent>, ghost g: seq<nat>)
    ensures Groups(entities, g) && |g| == |entities| && buffer == Woven(entities, g)
  {
    hide GroupAt, ContainerAt;
    buffer, g := [], [];
    var i := 0;
    while i < |entities|
      invariant 0 <= i <= |entities| && |g| == i && Groups(entities, g) && buffer == Woven(entities, g)
    {
      var more, e := Weave(entities, i);
      assert (g + [e])[..i] == g;
      g := g + [e];
      WovenSnoc(entities, g);
      buffer := buffer + more + [entities[i]];
      i := i + 1;
    }
  }

  /** The containers that start at entity i. */
  method Weave(entities: seq<Ent>, i: nat) returns (more: seq<Ent>, ghost e: nat)
    requires i < |entities|
    ensures GroupAt(entities, i, e) && more == ContainerAt(entities, i, e)
  {
    hide GroupAt, ContainerAt, IsPerson, IsTime;
    var j := FindPerson(entities, i);
    var k := FindTime(entities, i);
    FoundGroup(entities, i, j, k);
    e := if j > 0 then j else k;
    ContainerIs(entities, i, e);
    more := [];
    if j > 0 {
      more := more + [Ent(entities[i].start, entities[j - 1].start + entities[j - 1].length - entities[i].start, "P")];
    }
    if k > 0 {
      more := more + [Ent(entities[i].start, entities[k - 1].start + entities[k - 1].length - entities[i].start, "T")];
    }
  }

  lemma FoundGroup(es: seq<Ent>, i: nat, j: nat, k: nat)
    requires if j > 0 then IsPerson(es, i, j) else forall e: nat :: !IsPerson(es, i, e)
    requires if k > 0 then IsTime(es, i, k) else forall e: nat :: !IsTime(es, i, e)
    ensures j == 0 || k == 0
    ensures GroupAt(es, i, if j > 0 then j else k)
    ensures j > 0 ==> Kind(es, i, "pf")
    ensures k > 0 ==> !Kind(es, i, "pf")
  {
    if j > 0 { PersonStart(es, i, j); }
  }

  lemma ContainerIs(es: seq<Ent>, i: nat, j: nat)
    requires i < |es| && GroupAt(es, i, j)
    ensures j > 0 ==> j <= |es| && es[i].start <= es[j - 1].End()
    ensures j > 0 ==>
            ContainerAt(es, i, j) ==
                [Ent(es[i].start, es[j - 1].End() - es[i].start, if Kind(es, i, "pf") then "P" else "T")]
    ensures j == 0 ==> ContainerAt(es, i, j) == []
  {
    if j > 0 {
      GroupRow(es, i, j);
      RowOrder(es, i, j, i);
    }
  }

  /** A list no longer than the entities is the entities themselves. */
  lemma {:induction false} WovenCount(es: seq<Ent>, g: seq<nat>)
    requires Groups(es, g)
    ensures |Woven(es, g)| >= |g| && (|Woven(es, g)| == |g| ==> Woven(es, g) == es[..|g|])
    decreases |g|
  {
    if g != [] {
      hide GroupAt, Woven, All, ContainerAt;
      var i := |g| - 1;
      WovenSnoc(es, g);
      WovenCount(es, g[..i]);
      assert es[..|g|] == es[..i] + [es[i]];
      var w, c := Woven(es, g[..i]), ContainerAt(es, i, g[i]);
      if |w + c + [es[i]]| == |g| { assert c == [] && w + c == w == es[..i]; }
    }
  }
}
