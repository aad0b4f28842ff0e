/** The son array is a forest of search trees over the suffixes of the window. Each
    position q carries a ghost set D[q] that holds at least the positions below q.
    An insertion only ever shrinks the set of a node already present, so the sets of
    different trees never have to be told apart. */
module MatchTree {
  import opened MatchFinder

  // ------------------------------------------------- ordering whole positions

  ghost predicate LeP(data: seq<bv8>, W: nat, L: nat, x: nat, y: nat)
  {
    W <= x && W <= y && x - W + L <= |data| && y - W + L <= |data| && Le(data, x - W, y - W, L)
  }

  ghost predicate SameP(data: seq<bv8>, W: nat, x: nat, y: nat, n: nat)
  {
    W <= x && W <= y && x - W + n <= |data| && y - W + n <= |data| && Same(data, x - W, y - W, n)
  }

  lemma LePTrans(data: seq<bv8>, W: nat, L: nat, x: nat, y: nat, z: nat)
    requires LeP(data, W, L, x, y) && LeP(data, W, L, y, z)
    ensures LeP(data, W, L, x, z)
  {
    LeTrans(data, x - W, y - W, z - W, L);
  }

  lemma BetweenP(data: seq<bv8>, W: nat, L: nat, lo: nat, x: nat, hi: nat, p: nat, n0: nat, n1: nat)
    requires LeP(data, W, L, lo, x) && LeP(data, W, L, x, hi) && n0 <= L && n1 <= L
    requires SameP(data, W, lo, p, n1) && SameP(data, W, hi, p, n0)
    ensures SameP(data, W, x, p, if n0 < n1 then n0 else n1)
  {
    hide Le, Same;
    var m := if n0 < n1 then n0 else n1;
    SameShorter(data, lo - W, p - W, n1, m);
    SameShorter(data, hi - W, p - W, n0, m);
    SameJoin(data, lo - W, hi - W, p - W, m);
    Between(data, lo - W, x - W, hi - W, L, m);
    SameJoin(data, x - W, p - W, lo - W, m);
  }

  /** Two suffixes that share a prefix with a third share it with each other. */
  lemma SameJoin(data: seq<bv8>, a: nat, b: nat, c: nat, n: nat)
    requires a + n <= |data| && b + n <= |data| && c + n <= |data| && Same(data, a, c, n) &&
             (Same(data, b, c, n) || Same(data, c, b, n))
    ensures Same(data, a, b, n)
  {
  }

  lemma SameShorter(data: seq<bv8>, a: nat, b: nat, n: nat, m: nat)
    requires a + n <= |data| && b + n <= |data| && m <= n && Same(data, a, b, n)
    ensures Same(data, a, b, m)
  {
    assert data[a..a + n][..m] == data[a..a + m] && data[b..b + n][..m] == data[b..b + m];
  }

  // ------------------------------------------------------------ the forest

  /** Everything of S comes before, or after, the suffix at q. */
  ghost predicate Below(data: seq<bv8>, W: nat, L: nat, S: set<nat>, q: nat)
  {
    forall x :: x in S ==> LeP(data, W, L, x, q)
  }
  ghost predicate Above(data: seq<bv8>, W: nat, L: nat, S: set<nat>, q: nat)
  {
    forall x :: x in S ==> LeP(data, W, L, q, x)
  }

  /** The set of a position holds it and nothing newer. */
  ghost predicate SetOk(W: nat, D: seq<set<nat>>, q: nat)
  {
    q < |D| && q in D[q] && forall x :: x in D[q] ==> W <= x <= q
  }

  /** A link of q to l is in order: everything below l is below q, on the right side. */
  ghost predicate LinkOk(data: seq<bv8>, W: nat, p: nat, L: nat, D: seq<set<nat>>, q: nat, l: nat, smaller: bool)
  {
    Live(W, p, l) ==>
      && l < |D| && q < |D| && D[l] <= D[q]
      && if smaller then Below(data, W, L, D[l], q) else Above(data, W, L, D[l], q)
  }

  /** Node q is in order, except for slots that are about to be written. */
  ghost predicate NodeOk(data: seq<bv8>, W: nat, p: nat, L: nat, son: seq<nat>, D: seq<set<nat>>, q: nat,
                         open: set<nat>)
    requires W > 0 && |son| == 2 * W
  {
    var i := Pair(W, q);
    && SetOk(W, D, q)
    && (i !in open ==> LinkOk(data, W, p, L, D, q, son[i], true))
    && (i + 1 !in open ==> LinkOk(data, W, p, L, D, q, son[i + 1], false))
  }

  /** The son array before position p is searched: an ordered forest. */
  ghost predicate TreeInv(data: seq<bv8>, W: nat, p: nat, L: nat, son: seq<nat>, D: seq<set<nat>>)
  {
    && Bounded(W, p, son) && |D| == p
    && forall q: nat :: Live(W, p, q) ==> NodeOk(data, W, p, L, son, D, q, {})
  }

  /** The forest in the middle of a walk: p is already a node, with some slots open. */
  ghost predicate Open(data: seq<bv8>, W: nat, p: nat, L: nat, son: seq<nat>, D: seq<set<nat>>, open: set<nat>)
  {
    && 0 < W <= p && |son| == 2 * W && |D| == p + 1
    && forall q: nat :: q == p || Live(W, p, q) ==> NodeOk(data, W, p, L, son, D, q, open)
  }

  /** What may be put below the slot waiting for smaller suffixes. */
  ghost predicate Fits1(data: seq<bv8>, W: nat, p: nat, L: nat, D: seq<set<nat>>, o1: nat, S: set<nat>)
  {
    o1 < |D| && S <= D[o1] && Below(data, W, L, S, p) && (o1 != p ==> Above(data, W, L, S, o1))
  }

  ghost predicate Fits0(data: seq<bv8>, W: nat, p: nat, L: nat, D: seq<set<nat>>, o0: nat, S: set<nat>)
  {
    o0 < |D| && S <= D[o0] && Above(data, W, L, S, p) && (o0 != p ==> Below(data, W, L, S, o0))
  }

  ghost function NotAfter(data: seq<bv8>, W: nat, L: nat, S: set<nat>, p: nat): (r: set<nat>)
    ensures r <= S && Below(data, W, L, r, p)
  {
    set x | x in S && LeP(data, W, L, x, p)
  }

  ghost function NotBefore(data: seq<bv8>, W: nat, L: nat, S: set<nat>, p: nat): (r: set<nat>)
    ensures r <= S && Above(data, W, L, r, p)
  {
    set x | x in S && LeP(data, W, L, p, x)
  }

  /** The owner of an open slot shares the recorded number of bytes with p. */
  ghost predicate Side(data: seq<bv8>, W: nat, p: nat, L: nat, o: nat, n: nat)
  {
    n <= L && if o == p then n == 0 else SameP(data, W, o, p, n)
  }

  /** Everything below the candidate fits one of the two slots. */
  ghost predicate Candidate(data: seq<bv8>, W: nat, p: nat, L: nat, w: Walk, D: seq<set<nat>>, o0: nat, o1: nat)
  {
    Live(W, p, w.c) ==>
      && w.c < |D|
      && Fits1(data, W, p, L, D, o1, NotAfter(data, W, L, D[w.c], p))
      && Fits0(data, W, p, L, D, o0, NotBefore(data, W, L, D[w.c], p))
      && (o1 != p ==> Above(data, W, L, D[w.c], o1))
      && (o0 != p ==> Below(data, W, L, D[w.c], o0))
  }

  /** ptr1 is the left slot of p or the right slot of a smaller node; ptr0 mirrors it. */
  ghost predicate Slots(W: nat, p: nat, w: Walk, o0: nat, o1: nat)
  {
    W > 0 && w.ptr1 == Slot1(W, p, o1) && w.ptr0 == Slot0(W, p, o0)
  }

  ghost function Slot1(W: nat, p: nat, o1: nat): (i: nat) requires W > 0 ensures i < 2 * W
  {
    Pair(W, o1) + if o1 == p then 0 else 1
  }
  ghost function Slot0(W: nat, p: nat, o0: nat): (i: nat) requires W > 0 ensures i < 2 * W
  {
    Pair(W, o0) + if o0 == p then 1 else 0
  }

  /** Where p's own links are already written, they lead to older positions. */
  ghost predicate Top(W: nat, p: nat, son: seq<nat>, o0: nat, o1: nat)
    requires W > 0 && |son| == 2 * W
  {
    && (o1 == p || Older(W, p, son[Pair(W, p)]))
    && (o0 == p || Older(W, p, son[Pair(W, p) + 1]))
  }

  ghost predicate Older(W: nat, p: nat, l: nat) { l == 0 || W <= l < p }

  ghost predicate WalkTree(data: seq<bv8>, W: nat, p: nat, L: nat, w: Walk, D: seq<set<nat>>, o0: nat, o1: nat)
  {
    && Walking(data, W, p, L, w, o0, o1) && Open(data, W, p, L, w.son, D, {w.ptr0, w.ptr1}) && Slots(W, p, w, o0, o1)
    && Side(data, W, p, L, o0, w.len0) && Side(data, W, p, L, o1, w.len1)
    && Candidate(data, W, p, L, w, D, o0, o1) && Top(W, p, w.son, o0, o1)
  }

  // --------------------------------------------------------- one round

  /** Starting at the shorter known prefix is justified: the candidate agrees with p that far. */
  lemma Justified(data: seq<bv8>, W: nat, p: nat, L: nat, w: Walk, D: seq<set<nat>>, o0: nat, o1: nat)
    requires WalkTree(data, W, p, L, w, D, o0, o1) && Live(W, p, w.c)
    ensures SameP(data, W, w.c, p, AgreeLen(data, W, p, L, w))
  {
    hide Bounded, Owns, Le, Same, LinkOk, Below, Above;
    var m := if w.len0 < w.len1 then w.len0 else w.len1;
    assert NodeOk(data, W, p, L, w.son, D, w.c, {w.ptr0, w.ptr1});
    if o0 == p || o1 == p {
      SameNone(data, w.c - W, p - W);
    } else {
      AboveAt(data, W, L, D[w.c], o1, w.c);
      BelowAt(data, W, L, D[w.c], o0, w.c);
      BetweenP(data, W, L, o1, w.c, o0, p, w.len0, w.len1);
    }
  }

  lemma SameNone(data: seq<bv8>, a: nat, b: nat)
    requires a <= |data| && b <= |data|
    ensures Same(data, a, b, 0)
  {
  }

  lemma AboveAt(data: seq<bv8>, W: nat, L: nat, S: set<nat>, q: nat, x: nat)
    requires Above(data, W, L, S, q) && x in S
    ensures LeP(data, W, L, q, x)
  {
  }

  lemma BelowAt(data: seq<bv8>, W: nat, L: nat, S: set<nat>, q: nat, x: nat)
    requires Below(data, W, L, S, q) && x in S
    ensures LeP(data, W, L, x, q)
  {
  }

  /** The comparison at the end of the common prefix orders the candidate and p. */
  lemma Ordered(data: seq<bv8>, W: nat, p: nat, L: nat, w: Walk, D: seq<set<nat>>, o0: nat, o1: nat)
    requires WalkTree(data, W, p, L, w, D, o0, o1) && Live(W, p, w.c)
    ensures var len := AgreeLen(data, W, p, L, w);
            if len == L then LeP(data, W, L, w.c, p) && LeP(data, W, L, p, w.c)
            else if Smaller(data, W, p, w, len) then LeP(data, W, L, w.c, p) else LeP(data, W, L, p, w.c)
  {
    hide Bounded, Open, Owns, Le, Same, Candidate, Slots, Side, Extend;
    hide AgreeLen;
    Justified(data, W, p, L, w, D, o0, o1);
    AgreeEnds(data, W, p, L, w);
    var len := AgreeLen(data, W, p, L, w);
    var a, b := w.c - W, p - W;
    if len == L { SameLe(data, a, b, L); }
    else if data[a + len] < data[b + len] { MismatchLe(data, a, b, L, len); }
    else {
      SameSym(data, a, b, len);
      MismatchLe(data, b, a, L, len);
    }
  }

  lemma SameSym(data: seq<bv8>, a: nat, b: nat, n: nat)
    requires a + n <= |data| && b + n <= |data| && Same(data, a, b, n)
    ensures Same(data, b, a, n)
  {
  }

  // ------------------------------------------------- writing slots, shrinking sets

  ghost predicate Owner(W: nat, p: nat, q: nat) { q == p || Live(W, p, q) }

  /** Writing a slot of owner o with a link that is in order closes that slot. */
  lemma Fill(data: seq<bv8>, W: nat, p: nat, L: nat, son: seq<nat>, D: seq<set<nat>>, open: set<nat>, o: nat,
             smaller: bool, l: nat)
    requires Open(data, W, p, L, son, D, open) && Owner(W, p, o) && LinkOk(data, W, p, L, D, o, l, smaller)
    ensures var i := Pair(W, o) + if smaller then 0 else 1;
            i < 2 * W && Open(data, W, p, L, SetAt(son, i, l), D, open - {i})
  {
    hide LinkOk, SetOk;
    var i := Pair(W, o) + if smaller then 0 else 1;
    forall q: nat | q == p || Live(W, p, q) ensures NodeOk(data, W, p, L, SetAt(son, i, l), D, q, open - {i}) {
      assert NodeOk(data, W, p, L, son, D, q, open);
      if q < o { SlotsDiffer(W, q, o); }
      if o < q { SlotsDiffer(W, o, q); }
    }
  }

  /** Opening more slots asks less. */
  lemma Reopen(data: seq<bv8>, W: nat, p: nat, L: nat, son: seq<nat>, D: seq<set<nat>>, open: set<nat>, more: set<nat>)
    requires Open(data, W, p, L, son, D, open) && open <= more
    ensures Open(data, W, p, L, son, D, more)
  {
    hide LinkOk, SetOk;
    forall q: nat | q == p || Live(W, p, q) ensures NodeOk(data, W, p, L, son, D, q, more) {
      assert NodeOk(data, W, p, L, son, D, q, open);
    }
  }

  /** The set of c may shrink to S, as long as the closed links of c still fit. */
  lemma Shrink(data: seq<bv8>, W: nat, p: nat, L: nat, son: seq<nat>, D: seq<set<nat>>, open: set<nat>, c: nat,
               S: set<nat>)
    requires Open(data, W, p, L, son, D, open) && Live(W, p, c) && S <= D[c] && c in S
    requires LinksLead(W, p, son, c)
    requires var i := Pair(W, c); i !in open && Live(W, p, son[i]) ==> D[son[i]] <= S
    requires var i := Pair(W, c) + 1; i !in open && Live(W, p, son[i]) ==> D[son[i]] <= S
    ensures Open(data, W, p, L, son, D[c := S], open)
  {
    hide Below, Above;
    var D' := D[c := S];
    forall q: nat | q == p || Live(W, p, q) ensures NodeOk(data, W, p, L, son, D', q, open) {
      assert NodeOk(data, W, p, L, son, D, q, open);
      ShrinkLink(data, W, p, L, D, c, S, q, son[Pair(W, q)], true);
      ShrinkLink(data, W, p, L, D, c, S, q, son[Pair(W, q) + 1], false);
    }
  }

  ghost predicate LinksLead(W: nat, p: nat, son: seq<nat>, c: nat)
    requires W > 0 && |son| == 2 * W
  {
    son[Pair(W, c)] != c && son[Pair(W, c) + 1] != c
  }

  lemma ShrinkLink(data: seq<bv8>, W: nat, p: nat, L: nat, D: seq<set<nat>>, c: nat, S: set<nat>, q: nat, l: nat,
                   smaller: bool)
    requires c < |D| && S <= D[c]
    ensures LinkOk(data, W, p, L, D, q, l, smaller) && (q == c && Live(W, p, l) ==> l != c && l < |D| && D[l] <= S)
            ==> LinkOk(data, W, p, L, D[c := S], q, l, smaller)
  {
  }

  /** Shrinking below p keeps everything that hangs on c's smaller side. */
  lemma BelowIn(data: seq<bv8>, W: nat, L: nat, T: set<nat>, S: set<nat>, c: nat, p: nat)
    requires T <= S && Below(data, W, L, T, c) && LeP(data, W, L, c, p)
    ensures T <= NotAfter(data, W, L, S, p) && Below(data, W, L, T, p)
  {
    forall x | x in T ensures x in NotAfter(data, W, L, S, p) && LeP(data, W, L, x, p) {
      LePTrans(data, W, L, x, c, p);
    }
  }

  lemma AboveIn(data: seq<bv8>, W: nat, L: nat, T: set<nat>, S: set<nat>, c: nat, p: nat)
    requires T <= S && Above(data, W, L, T, c) && LeP(data, W, L, p, c)
    ensures T <= NotBefore(data, W, L, S, p) && Above(data, W, L, T, p)
  {
    forall x | x in T ensures x in NotBefore(data, W, L, S, p) && LeP(data, W, L, p, x) {
      LePTrans(data, W, L, p, c, x);
    }
  }

  lemma Fits1Link(data: seq<bv8>, W: nat, p: nat, L: nat, D: seq<set<nat>>, o1: nat, l: nat)
    requires l < |D| && Fits1(data, W, p, L, D, o1, D[l])
    ensures LinkOk(data, W, p, L, D, o1, l, o1 == p)
  {
  }

  lemma Fits0Link(data: seq<bv8>, W: nat, p: nat, L: nat, D: seq<set<nat>>, o0: nat, l: nat)
    requires l < |D| && Fits0(data, W, p, L, D, o0, D[l])
    ensures LinkOk(data, W, p, L, D, o0, l, o0 != p)
  {
  }

  /** A smaller candidate: its set loses what comes after p, and its larger side stays open. */
  lemma HangSmaller(data: seq<bv8>, W: nat, p: nat, L: nat, w: Walk, D: seq<set<nat>>, o0: nat, o1: nat)
    requires WalkTree(data, W, p, L, w, D, o0, o1) && Live(W, p, w.c) && LeP(data, W, L, w.c, p)
    ensures w.ptr1 < |w.son| && w.c < |D|
    ensures Open(data, W, p, L, SetAt(w.son, w.ptr1, w.c), D[w.c := NotAfter(data, W, L, D[w.c], p)],
            {w.ptr0, Pair(W, w.c) + 1})
  {
    hide Below, Above, LeP, Open, Bounded, Fits0, NotBefore, Side;
    var c, S, i := w.c, NotAfter(data, W, L, D[w.c], p), Pair(W, w.c);
    OpenAt(data, W, p, L, w.son, D, {w.ptr0, w.ptr1}, c);
    NotAfterHas(data, W, L, D[c], p, c);
    var open := {w.ptr0, w.ptr1, i + 1};
    Reopen(data, W, p, L, w.son, D, {w.ptr0, w.ptr1}, open);
    BoundedAt(W, p, w.son, c);
    if i !in open && Live(W, p, w.son[i]) { BelowIn(data, W, L, D[w.son[i]], D[c], c, p); }
    Shrink(data, W, p, L, w.son, D, open, c, S);
    var D' := D[c := S];
    Fits1Link(data, W, p, L, D', o1, c);
    Fill(data, W, p, L, w.son, D', open, o1, o1 == p, c);
    Reopen(data, W, p, L, SetAt(w.son, w.ptr1, c), D', open - {w.ptr1}, {w.ptr0, i + 1});
  }

  lemma HangLarger(data: seq<bv8>, W: nat, p: nat, L: nat, w: Walk, D: seq<set<nat>>, o0: nat, o1: nat)
    requires WalkTree(data, W, p, L, w, D, o0, o1) && Live(W, p, w.c) && LeP(data, W, L, p, w.c)
    ensures w.ptr0 < |w.son| && w.c < |D|
    ensures Open(data, W, p, L, SetAt(w.son, w.ptr0, w.c), D[w.c := NotBefore(data, W, L, D[w.c], p)],
            {Pair(W, w.c), w.ptr1})
  {
    hide Below, Above, LeP, Open, Bounded, Fits1, NotAfter, Side;
    var c, S, i := w.c, NotBefore(data, W, L, D[w.c], p), Pair(W, w.c);
    OpenAt(data, W, p, L, w.son, D, {w.ptr0, w.ptr1}, c);
    NotBeforeHas(data, W, L, D[c], p, c);
    var open := {w.ptr0, w.ptr1, i};
    Reopen(data, W, p, L, w.son, D, {w.ptr0, w.ptr1}, open);
    BoundedAt(W, p, w.son, c);
    if i + 1 !in open && Live(W, p, w.son[i + 1]) { AboveIn(data, W, L, D[w.son[i + 1]], D[c], c, p); }
    Shrink(data, W, p, L, w.son, D, open, c, S);
    var D' := D[c := S];
    Fits0Link(data, W, p, L, D', o0, c);
    Fill(data, W, p, L, w.son, D', open, o0, o0 != p, c);
    Reopen(data, W, p, L, SetAt(w.son, w.ptr0, c), D', open - {w.ptr0}, {i, w.ptr1});
  }

  lemma OpenAt(data: seq<bv8>, W: nat, p: nat, L: nat, son: seq<nat>, D: seq<set<nat>>, open: set<nat>, q: nat)
    requires Open(data, W, p, L, son, D, open) && Owner(W, p, q)
    ensures W > 0 && |son| == 2 * W && |D| == p + 1 && NodeOk(data, W, p, L, son, D, q, open)
  {
  }

  lemma NotAfterHas(data: seq<bv8>, W: nat, L: nat, S: set<nat>, p: nat, x: nat)
    requires x in S && LeP(data, W, L, x, p)
    ensures x in NotAfter(data, W, L, S, p)
  {
  }

  lemma NotBeforeHas(data: seq<bv8>, W: nat, L: nat, S: set<nat>, p: nat, x: nat)
    requires x in S && LeP(data, W, L, p, x)
    ensures x in NotBefore(data, W, L, S, p)
  {
  }

  /** The open slots belong to newer positions, so the candidate's own slots are not among them. */
  lemma NotOpen(W: nat, p: nat, w: Walk, o0: nat, o1: nat, c: nat)
    requires Slots(W, p, w, o0, o1) && Live(W, p, c) && c < o0 <= p && c < o1 <= p
    ensures Pair(W, c) !in {w.ptr0, w.ptr1} && Pair(W, c) + 1 !in {w.ptr0, w.ptr1}
  {
    SlotsDiffer(W, c, o0);
    SlotsDiffer(W, c, o1);
  }

  lemma SubsetAbove(data: seq<bv8>, W: nat, L: nat, T: set<nat>, S: set<nat>, q: nat)
    requires T <= S && Above(data, W, L, S, q)
    ensures Above(data, W, L, T, q)
  {
  }

  lemma SubsetBelow(data: seq<bv8>, W: nat, L: nat, T: set<nat>, S: set<nat>, q: nat)
    requires T <= S && Below(data, W, L, S, q)
    ensures Below(data, W, L, T, q)
  {
  }

  lemma SubsetParts(data: seq<bv8>, W: nat, L: nat, T: set<nat>, S: set<nat>, p: nat)
    requires T <= S
    ensures NotAfter(data, W, L, T, p) <= NotAfter(data, W, L, S, p) &&
            NotBefore(data, W, L, T, p) <= NotBefore(data, W, L, S, p)
  {
  }

  /** The next candidate, below the larger side of a smaller one. */
  lemma NextSmaller(data: seq<bv8>, W: nat, p: nat, L: nat, w: Walk, D: seq<set<nat>>, o0: nat, o1: nat, w': Walk)
    requires WalkTree(data, W, p, L, w, D, o0, o1) && Live(W, p, w.c)
    requires w'.c == SetAt(w.son, w.ptr1, w.c)[Pair(W, w.c) + 1]
    ensures w.c < |D| && Candidate(data, W, p, L, w', D[w.c := NotAfter(data, W, L, D[w.c], p)], o0, w.c)
  {
    hide Below, Above, LeP, Open, Bounded, NotBefore, NotAfter, Side, Le, Same;
    var c, c' := w.c, w'.c;
    OpenAt(data, W, p, L, w.son, D, {w.ptr0, w.ptr1}, c);
    NotOpen(W, p, w, o0, o1, c);
    assert c' == w.son[Pair(W, c) + 1];
    BoundedAt(W, p, w.son, c);
    if Live(W, p, c') {
      SubsetParts(data, W, L, D[c'], D[c], p);
      SubsetAbove(data, W, L, NotAfter(data, W, L, D[c'], p), D[c'], c);
      if o0 != p {
        SubsetBelow(data, W, L, D[c'], D[c], o0);
        SubsetBelow(data, W, L, NotBefore(data, W, L, D[c'], p), D[c'], o0);
      }
    }
  }

  lemma NextLarger(data: seq<bv8>, W: nat, p: nat, L: nat, w: Walk, D: seq<set<nat>>, o0: nat, o1: nat, w': Walk)
    requires WalkTree(data, W, p, L, w, D, o0, o1) && Live(W, p, w.c)
    requires w'.c == SetAt(w.son, w.ptr0, w.c)[Pair(W, w.c)]
    ensures w.c < |D| && Candidate(data, W, p, L, w', D[w.c := NotBefore(data, W, L, D[w.c], p)], w.c, o1)
  {
    hide Below, Above, LeP, Open, Bounded, NotBefore, NotAfter, Side, Le, Same;
    var c, c' := w.c, w'.c;
    OpenAt(data, W, p, L, w.son, D, {w.ptr0, w.ptr1}, c);
    NotOpen(W, p, w, o0, o1, c);
    assert c' == w.son[Pair(W, c)];
    BoundedAt(W, p, w.son, c);
    if Live(W, p, c') {
      SubsetParts(data, W, L, D[c'], D[c], p);
      SubsetBelow(data, W, L, NotBefore(data, W, L, D[c'], p), D[c'], c);
      if o1 != p {
        SubsetAbove(data, W, L, D[c'], D[c], o1);
        SubsetAbove(data, W, L, NotAfter(data, W, L, D[c'], p), D[c'], o1);
      }
    }
  }

  lemma TopSet1(W: nat, p: nat, son: seq<nat>, o0: nat, o1: nat, o1': nat, l: nat)
    requires W > 0 && |son| == 2 * W && Owner(W, p, o1) && Top(W, p, son, o0, o1) && Older(W, p, l)
    ensures Top(W, p, SetAt(son, Slot1(W, p, o1), l), o0, o1')
  {
    if o1 != p { SlotsDiffer(W, o1, p); }
  }

  lemma TopSet0(W: nat, p: nat, son: seq<nat>, o0: nat, o1: nat, o0': nat, l: nat)
    requires W > 0 && |son| == 2 * W && Owner(W, p, o0) && Top(W, p, son, o0, o1) && Older(W, p, l)
    ensures Top(W, p, SetAt(son, Slot0(W, p, o0), l), o0', o1)
  {
    if o0 != p { SlotsDiffer(W, o0, p); }
  }

  /** A round of the walk keeps the forest. */
  lemma WalkTreeOn(data: seq<bv8>, W: nat, p: nat, L: nat, w: Walk, D: seq<set<nat>>, o0: nat, o1: nat)
    returns (D': seq<set<nat>>, o0': nat, o1': nat)
    requires WalkTree(data, W, p, L, w, D, o0, o1) && !Stops(data, W, p, L, w)
    ensures WalkTree(data, W, p, L, Advance(data, W, p, L, w), D', o0', o1')
    ensures if Smaller(data, W, p, w, AgreeLen(data, W, p, L, w)) then o0' == o0 && o1' == w.c
            else o0' == w.c && o1' == o1
  {
    hide Open, Bounded, Candidate, NotAfter, NotBefore, Advance, AgreeLen, Smaller, LeP, SetAt, Top;
    o0', o1' := WalkingOn(data, W, p, L, w, o0, o1);
    Justified(data, W, p, L, w, D, o0, o1);
    Ordered(data, W, p, L, w, D, o0, o1);
    AdvanceIs(data, W, p, L, w);
    var w' := Advance(data, W, p, L, w);
    if Smaller(data, W, p, w, AgreeLen(data, W, p, L, w)) {
      HangSmaller(data, W, p, L, w, D, o0, o1);
      NextSmaller(data, W, p, L, w, D, o0, o1, w');
      TopSet1(W, p, w.son, o0, o1, w.c, w.c);
      D' := D[w.c := NotAfter(data, W, L, D[w.c], p)];
    } else {
      HangLarger(data, W, p, L, w, D, o0, o1);
      NextLarger(data, W, p, L, w, D, o0, o1, w');
      TopSet0(W, p, w.son, o0, o1, w.c, w.c);
      D' := D[w.c := NotBefore(data, W, L, D[w.c], p)];
    }
  }

  // ------------------------------------------------------------ the end of a walk

  lemma OpenClosed(data: seq<bv8>, W: nat, p: nat, L: nat, son: seq<nat>, D: seq<set<nat>>)
    requires Open(data, W, p, L, son, D, {}) && Bounded(W, p, son) && Top(W, p, son, 0, 0)
    ensures TreeInv(data, W, p + 1, L, son, D)
  {
    hide LinkOk, SetOk;
    var p' := p + 1;
    BoundedNext(W, p, son);
    forall q: nat | Live(W, p', q) ensures NodeOk(data, W, p', L, son, D, q, {}) {
      OpenAt(data, W, p, L, son, D, {}, q);
      LinksBefore(W, p', son, q);
      LinkLater(data, W, p, L, D, q, son[Pair(W, q)], true);
      LinkLater(data, W, p, L, D, q, son[Pair(W, q) + 1], false);
    }
  }

  lemma BoundedNext(W: nat, p: nat, son: seq<nat>)
    requires Bounded(W, p, son) && Top(W, p, son, 0, 0)
    ensures Bounded(W, p + 1, son)
  {
    var p' := p + 1;
    forall q: nat | Live(W, p', q) ensures LinksBelow(W, son, q) { if q < p { BoundedAt(W, p, son, q); } }
  }

  lemma LinksBefore(W: nat, p: nat, son: seq<nat>, q: nat)
    requires Bounded(W, p, son) && Live(W, p, q)
    ensures |son| == 2 * W && W > 0 && son[Pair(W, q)] < q && son[Pair(W, q) + 1] < q
  {
    BoundedAt(W, p, son, q);
  }

  lemma LinkLater(data: seq<bv8>, W: nat, p: nat, L: nat, D: seq<set<nat>>, q: nat, l: nat, smaller: bool)
    requires LinkOk(data, W, p, L, D, q, l, smaller) && l < p
    ensures LinkOk(data, W, p + 1, L, D, q, l, smaller)
  {
  }

  lemma FillBoth(data: seq<bv8>, W: nat, p: nat, L: nat, son: seq<nat>, D: seq<set<nat>>, o0: nat, o1: nat, l: nat,
                 r: nat)
    requires W > 0 && Open(data, W, p, L, son, D, {Slot0(W, p, o0), Slot1(W, p, o1)}) && Owner(W, p, o0) &&
             Owner(W, p, o1)
    requires LinkOk(data, W, p, L, D, o1, l, o1 == p) && LinkOk(data, W, p, L, D, o0, r, o0 != p)
    ensures |son| == 2 * W && Open(data, W, p, L, SetAt(SetAt(son, Slot1(W, p, o1), l), Slot0(W, p, o0), r), D, {})
  {
    hide Open, LinkOk, SetAt, Pair;
    var i, j := Slot0(W, p, o0), Slot1(W, p, o1);
    OpenAt(data, W, p, L, son, D, {i, j}, p);
    Fill(data, W, p, L, son, D, {i, j}, o1, o1 == p, l);
    Fill(data, W, p, L, SetAt(son, j, l), D, {i, j} - {j}, o0, o0 != p, r);
    Reopen(data, W, p, L, SetAt(SetAt(son, j, l), i, r), D, {i, j} - {j} - {i}, {});
  }

  lemma BoundedBoth(W: nat, p: nat, son: seq<nat>, o0: nat, o1: nat, l: nat, r: nat)
    requires Bounded(W, p, son) && Owner(W, p, o0) && Owner(W, p, o1) && Older(W, o1, l) && Older(W, o0, r)
    ensures Bounded(W, p, SetAt(SetAt(son, Slot1(W, p, o1), l), Slot0(W, p, o0), r))
  {
    hide LinksBelow, SetAt;
    BoundedSet(W, p, son, o1, Slot1(W, p, o1), l);
    BoundedSet(W, p, SetAt(son, Slot1(W, p, o1), l), o0, Slot0(W, p, o0), r);
  }

  /** Filling the two slots that a walk leaves open gives the forest for the next position. */
  lemma Closed(data: seq<bv8>, W: nat, p: nat, L: nat, w: Walk, D: seq<set<nat>>, o0: nat, o1: nat, l: nat, r: nat)
    requires WalkTree(data, W, p, L, w, D, o0, o1) && Older(W, o1, l) && Older(W, o0, r)
    requires LinkOk(data, W, p, L, D, o1, l, o1 == p) && LinkOk(data, W, p, L, D, o0, r, o0 != p)
    ensures w.ptr1 < |w.son| && w.ptr0 < |w.son| &&
            TreeInv(data, W, p + 1, L, SetAt(SetAt(w.son, w.ptr1, l), w.ptr0, r), D)
  {
    hide Open, Bounded, Candidate, LinkOk, Side, LinksBelow, SetAt, Top, Slot0, Slot1, TreeInv;
    FillBoth(data, W, p, L, w.son, D, o0, o1, l, r);
    BoundedBoth(W, p, w.son, o0, o1, l, r);
    TopSet1(W, p, w.son, o0, o1, 0, l);
    TopSet0(W, p, SetAt(w.son, Slot1(W, p, o1), l), o0, 0, 0, r);
    OpenClosed(data, W, p, L, SetAt(SetAt(w.son, w.ptr1, l), w.ptr0, r), D);
  }

  /** An ending walk leaves a forest. */
  lemma FinishTree(data: seq<bv8>, W: nat, p: nat, L: nat, w: Walk, D: seq<set<nat>>, o0: nat, o1: nat)
    requires WalkTree(data, W, p, L, w, D, o0, o1) && Stops(data, W, p, L, w)
    ensures TreeInv(data, W, p + 1, L, Finish(W, p, w), D)
  {
    hide Open, Bounded, LinkOk, Side, LinksBelow, SetAt, Top, Slot0, Slot1, TreeInv, AgreeLen, Candidate;
    if w.cut == 0 || !Live(W, p, w.c) {
      LinkNone(data, W, p, L, D, o1, o1 == p);
      LinkNone(data, W, p, L, D, o0, o0 != p);
      Closed(data, W, p, L, w, D, o0, o1, 0, 0);
    } else {
      var i := Pair(W, w.c);
      var l, r := w.son[i], w.son[i + 1];
      EqualChildren(data, W, p, L, w, D, o0, o1);
      Closed(data, W, p, L, w, D, o0, o1, l, r);
    }
  }

  lemma LinkNone(data: seq<bv8>, W: nat, p: nat, L: nat, D: seq<set<nat>>, q: nat, smaller: bool)
    requires W > 0
    ensures LinkOk(data, W, p, L, D, q, 0, smaller)
  {
  }

  /** An equal suffix leaves the tree; its children fit where it would have gone. */
  lemma EqualChildren(data: seq<bv8>, W: nat, p: nat, L: nat, w: Walk, D: seq<set<nat>>, o0: nat, o1: nat)
    requires WalkTree(data, W, p, L, w, D, o0, o1) && Live(W, p, w.c) && AgreeLen(data, W, p, L, w) == L
    ensures var l, r := w.son[Pair(W, w.c)], w.son[Pair(W, w.c) + 1];
            && Older(W, w.c, l) && Older(W, w.c, r) && SetAt(w.son, w.ptr1, l)[Pair(W, w.c) + 1] == r
            && LinkOk(data, W, p, L, D, o1, l, o1 == p) && LinkOk(data, W, p, L, D, o0, r, o0 != p)
  {
    hide Open, Bounded, Below, Above, LeP, NotAfter, NotBefore, Side, AgreeLen;
    var c := w.c;
    Ordered(data, W, p, L, w, D, o0, o1);
    NotOpen(W, p, w, o0, o1, c);
    OpenAt(data, W, p, L, w.son, D, {w.ptr0, w.ptr1}, c);
    BoundedAt(W, p, w.son, c);
    var l, r := w.son[Pair(W, c)], w.son[Pair(W, c) + 1];
    if Live(W, p, l) {
      BelowIn(data, W, L, D[l], D[c], c, p);
      if o1 != p { SubsetAbove(data, W, L, D[l], D[c], o1); }
    }
    if Live(W, p, r) {
      AboveIn(data, W, L, D[r], D[c], c, p);
      if o0 != p { SubsetBelow(data, W, L, D[r], D[c], o0); }
    }
  }

  // ------------------------------------------------------------ whole walks

  lemma {:induction false} InsertTree(data: seq<bv8>, W: nat, p: nat, L: nat, w: Walk, D: seq<set<nat>>, o0: nat,
                                      o1: nat)
    returns (D': seq<set<nat>>)
    requires WalkTree(data, W, p, L, w, D, o0, o1)
    ensures TreeInv(data, W, p + 1, L, Insert(data, W, p, L, w), D')
    decreases w.cut
  {
    hide WalkTree, TreeInv, Advance, Finish, Stops, Found;
    WalkTreeSize(data, W, p, L, w, D, o0, o1);
    WalkUnfold(data, W, p, L, w, 0);
    if Stops(data, W, p, L, w) {
      FinishTree(data, W, p, L, w, D, o0, o1);
      D' := D;
    } else {
      var D1, q0, q1 := WalkTreeOn(data, W, p, L, w, D, o0, o1);
      D' := InsertTree(data, W, p, L, Advance(data, W, p, L, w), D1, q0, q1);
    }
  }

  lemma WalkTreeSize(data: seq<bv8>, W: nat, p: nat, L: nat, w: Walk, D: seq<set<nat>>, o0: nat, o1: nat)
    requires WalkTree(data, W, p, L, w, D, o0, o1)
    ensures WalkOk(data, W, p, L, w)
  {
  }

  /** A reported pair is a match of the input, inside the window. */
  ghost predicate TrueMatch(data: seq<bv8>, W: nat, p: nat, L: nat, m: (nat, nat))
  {
    m.0 <= L && m.1 + 1 < W && W + m.1 + 1 <= p && SameP(data, W, p - m.1 - 1, p, m.0)
  }

  ghost predicate TrueMatches(data: seq<bv8>, W: nat, p: nat, L: nat, ms: seq<(nat, nat)>, above: nat)
  {
    && (forall i :: 0 <= i < |ms| ==> above < ms[i].0 && TrueMatch(data, W, p, L, ms[i]))
    && (forall i, j :: 0 <= i < j < |ms| ==> ms[i].0 < ms[j].0)
  }

  lemma TrueMatchesCons(data: seq<bv8>, W: nat, p: nat, L: nat, m: (nat, nat), ms: seq<(nat, nat)>, above: nat)
    requires TrueMatch(data, W, p, L, m) && above < m.0 && TrueMatches(data, W, p, L, ms, m.0)
    ensures TrueMatches(data, W, p, L, [m] + ms, above)
  {
    hide TrueMatch;
  }

  lemma {:induction false} FoundTrue(data: seq<bv8>, W: nat, p: nat, L: nat, w: Walk, D: seq<set<nat>>, o0: nat,
                                     o1: nat, maxLen: nat)
    requires WalkTree(data, W, p, L, w, D, o0, o1)
    ensures TrueMatches(data, W, p, L, Found(data, W, p, L, w, maxLen), maxLen)
    decreases w.cut
  {
    hide WalkTree, Advance, Finish, Insert, Found, TrueMatches, AgreeLen;
    WalkTreeSize(data, W, p, L, w, D, o0, o1);
    WalkUnfold(data, W, p, L, w, maxLen);
    TrueMatchesNil(data, W, p, L, maxLen);
    if w.cut > 0 && Live(W, p, w.c) {
      var len := AgreeLen(data, W, p, L, w);
      Justified(data, W, p, L, w, D, o0, o1);
      var m := (len, p - w.c - 1);
      TrueMatchesNil(data, W, p, L, len);
      if len == L {
        if maxLen < len {
          TrueMatchesCons(data, W, p, L, m, [], maxLen);
          assert [m] + [] == [m];
        }
      } else {
        var D1, q0, q1 := WalkTreeOn(data, W, p, L, w, D, o0, o1);
        var w' := Advance(data, W, p, L, w);
        var max' := if maxLen < len then len else maxLen;
        FoundTrue(data, W, p, L, w', D1, q0, q1, max');
        if maxLen < len { TrueMatchesCons(data, W, p, L, m, Found(data, W, p, L, w', len), maxLen); }
        assert [] + Found(data, W, p, L, w', max') == Found(data, W, p, L, w', max');
      }
    }
  }

  lemma TrueMatchesNil(data: seq<bv8>, W: nat, p: nat, L: nat, above: nat)
    ensures TrueMatches(data, W, p, L, [], above)
  {
  }

  // ------------------------------------------------------------ whole runs

  ghost function AllUpTo(W: nat, p: nat): (r: set<nat>)
    ensures forall x :: x in r <==> W <= x <= p
  {
    if p < W then {} else if p == 0 then {0} else AllUpTo(W, p - 1) + {p}
  }

  /** A forest with p added as a node whose two slots are still open. */
  lemma StartOpen(data: seq<bv8>, W: nat, p: nat, L: nat, son: seq<nat>, D: seq<set<nat>>)
    requires TreeInv(data, W, p, L, son, D)
    ensures Open(data, W, p, L, son, D + [AllUpTo(W, p)], {Slot0(W, p, p), Slot1(W, p, p)})
  {
    hide Bounded, LinkOk;
    BoundedSize(W, p, son);
    var D', open := D + [AllUpTo(W, p)], {Slot0(W, p, p), Slot1(W, p, p)};
    forall q: nat | q == p || Live(W, p, q) ensures NodeOk(data, W, p, L, son, D', q, open) {
      if q < p {
        assert NodeOk(data, W, p, L, son, D, q, {});
        BoundedAt(W, p, son, q);
        LinkMore(data, W, p, L, D, AllUpTo(W, p), q, son[Pair(W, q)], true);
        LinkMore(data, W, p, L, D, AllUpTo(W, p), q, son[Pair(W, q) + 1], false);
      }
    }
  }

  lemma LinkMore(data: seq<bv8>, W: nat, p: nat, L: nat, D: seq<set<nat>>, S: set<nat>, q: nat, l: nat, smaller: bool)
    requires LinkOk(data, W, p, L, D, q, l, smaller)
    ensures LinkOk(data, W, p, L, D + [S], q, l, smaller)
  {
  }

  lemma StartTree(data: seq<bv8>, W: nat, p: nat, L: nat, son: seq<nat>, D: seq<set<nat>>, head: nat, cut: nat)
    requires TreeInv(data, W, p, L, son, D) && Older(W, p, head) && p - W + L <= |data|
    ensures WalkTree(data, W, p, L, StartWalk(W, p, son, head, cut), D + [AllUpTo(W, p)], p, p)
  {
    hide Bounded, LinkOk, Open, NotAfter, NotBefore;
    StartOpen(data, W, p, L, son, D);
    BoundedSize(W, p, son);
    OwnsSelf(W, p);
    if Live(W, p, head) { assert NodeOk(data, W, p, L, son, D, head, {}); }
  }

  /** A forest for longer comparisons is one for shorter ones. */
  lemma TreeShorter(data: seq<bv8>, W: nat, p: nat, L: nat, M: nat, son: seq<nat>, D: seq<set<nat>>)
    requires TreeInv(data, W, p, L, son, D) && M <= L
    ensures TreeInv(data, W, p, M, son, D)
  {
    hide Bounded, LinkOk;
    BoundedSize(W, p, son);
    forall q: nat | Live(W, p, q) ensures NodeOk(data, W, p, M, son, D, q, {}) {
      assert NodeOk(data, W, p, L, son, D, q, {});
      LinkShorter(data, W, p, L, M, D, q, son[Pair(W, q)], true);
      LinkShorter(data, W, p, L, M, D, q, son[Pair(W, q) + 1], false);
    }
  }

  lemma LinkShorter(data: seq<bv8>, W: nat, p: nat, L: nat, M: nat, D: seq<set<nat>>, q: nat, l: nat, smaller: bool)
    requires LinkOk(data, W, p, L, D, q, l, smaller) && M <= L
    ensures LinkOk(data, W, p, M, D, q, l, smaller)
  {
    if Live(W, p, l) {
      forall x | x in D[l] && LeP(data, W, L, x, q) ensures LeP(data, W, M, x, q) {
        LeShorter(data, x - W, q - W, L, M);
      }
      forall x | x in D[l] && LeP(data, W, L, q, x) ensures LeP(data, W, M, q, x) {
        LeShorter(data, q - W, x - W, L, M);
      }
    }
  }

  /** There is a forest in the son array. */
  ghost predicate Forest(data: seq<bv8>, W: nat, p: nat, L: nat, son: seq<nat>)
  {
    exists D :: TreeInv(data, W, p, L, son, D)
  }

  /** Searching and inserting a position: a forest stays a forest, and what is reported are
      true matches of ever greater length. */
  lemma WalkSound(data: seq<bv8>, W: nat, p: nat, L: nat, son: seq<nat>, head: nat, cut: nat, maxLen: nat)
    requires Forest(data, W, p, L, son) && Older(W, p, head) && p - W + L <= |data|
    ensures W > 0 && WalkOk(data, W, p, L, StartWalk(W, p, son, head, cut))
    ensures Forest(data, W, p + 1, L, Insert(data, W, p, L, StartWalk(W, p, son, head, cut)))
    ensures TrueMatches(data, W, p, L, Found(data, W, p, L, StartWalk(W, p, son, head, cut), maxLen), maxLen)
  {
    hide TreeInv, WalkTree, Insert, Found, TrueMatches;
    var D :| TreeInv(data, W, p, L, son, D);
    StartTree(data, W, p, L, son, D, head, cut);
    var D0, w := D + [AllUpTo(W, p)], StartWalk(W, p, son, head, cut);
    WalkTreeSize(data, W, p, L, w, D0, p, p);
    var D1 := InsertTree(data, W, p, L, w, D0, p, p);
    FoundTrue(data, W, p, L, w, D0, p, p, maxLen);
  }

  lemma ForestShorter(data: seq<bv8>, W: nat, p: nat, L: nat, M: nat, son: seq<nat>)
    requires Forest(data, W, p, L, son) && M <= L
    ensures Forest(data, W, p, M, son)
  {
    hide TreeInv;
    var D :| TreeInv(data, W, p, L, son, D);
    TreeShorter(data, W, p, L, M, son, D);
  }

  /** At the start no position is in the window, whatever the array holds. */
  lemma ForestStart(data: seq<bv8>, W: nat, L: nat, son: seq<nat>)
    requires W > 0 && |son| == 2 * W
    ensures Forest(data, W, W, L, son)
  {
    assert TreeInv(data, W, W, L, son, seq(W, i => {}));
  }
}
