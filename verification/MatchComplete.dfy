/** The search trees lose nothing: an insertion keeps every position of the tree it walks through, but for
    one that the new position equals, and a walk that is not cut off finds the longest match of its tree. */
module MatchComplete {
  import opened MatchFinder
  import opened MatchTree

  // ------------------------------------------------------------ paths

  /** Position x can be reached from c by links that are not in `open`. */
  ghost predicate InTree(W: nat, son: seq<nat>, open: set<nat>, c: nat, x: nat)
    decreases c
  {
    && W > 0 && |son| == 2 * W && W <= x <= c
    && var i := Pair(W, c);
       || x == c
       || (i !in open && son[i] < c && InTree(W, son, open, son[i], x))
       || (i + 1 !in open && son[i + 1] < c && InTree(W, son, open, son[i + 1], x))
  }

  /** j is one of the two slots of z. */
  ghost predicate SlotOf(W: nat, z: nat, j: nat) { W > 0 && (j == Pair(W, z) || j == Pair(W, z) + 1) }

  /** The positions from x to c and z have slots of their own. */
  ghost predicate Near(W: nat, x: nat, c: nat, z: nat) { z - x < W && c - z < W && c - x < W }

  lemma SlotNear(W: nat, c: nat, z: nat, j: nat)
    requires SlotOf(W, z, j) && c != z && z - c < W && c - z < W
    ensures Pair(W, c) != j && Pair(W, c) + 1 != j
  {
    if c < z { SlotsDiffer(W, c, z); } else { SlotsDiffer(W, z, c); }
  }

  lemma {:induction false} TreeFewer(W: nat, son: seq<nat>, open: set<nat>, more: set<nat>, c: nat, x: nat)
    requires InTree(W, son, more, c, x) && open <= more
    ensures InTree(W, son, open, c, x)
    decreases c
  {
    hide Pair;
    if x != c {
      var i := Pair(W, c);
      if i !in more && son[i] < c && InTree(W, son, more, son[i], x) {
        TreeFewer(W, son, open, more, son[i], x);
      } else {
        TreeFewer(W, son, open, more, son[i + 1], x);
      }
    }
  }

  /** A slot that is closed to the path does not matter. */
  lemma {:induction false} TreeSet(W: nat, son: seq<nat>, open: set<nat>, c: nat, x: nat, j: nat, v: nat)
    requires InTree(W, son, open, c, x) && j in open && j < |son|
    ensures InTree(W, SetAt(son, j, v), open, c, x)
    decreases c
  {
    hide Pair;
    if x != c {
      var i := Pair(W, c);
      if i !in open && son[i] < c && InTree(W, son, open, son[i], x) {
        TreeSet(W, son, open, son[i], x, j, v);
      } else {
        TreeSet(W, son, open, son[i + 1], x, j, v);
      }
    }
  }

  lemma {:induction false} TreeTrans(W: nat, son: seq<nat>, open: set<nat>, c: nat, y: nat, x: nat)
    requires InTree(W, son, open, c, y) && InTree(W, son, open, y, x)
    ensures InTree(W, son, open, c, x)
    decreases c
  {
    hide Pair;
    if y != c {
      var i := Pair(W, c);
      if i !in open && son[i] < c && InTree(W, son, open, son[i], y) {
        TreeTrans(W, son, open, son[i], y, x);
      } else {
        TreeTrans(W, son, open, son[i + 1], y, x);
      }
    }
  }

  lemma TreeSelf(W: nat, son: seq<nat>, open: set<nat>, c: nat)
    requires 0 < W <= c && |son| == 2 * W
    ensures InTree(W, son, open, c, c)
  {
  }

  /** On from a node that is reached, by one of its slots. */
  lemma TreeLink(W: nat, son: seq<nat>, open: set<nat>, c: nat, z: nat, j: nat, x: nat)
    requires InTree(W, son, open, c, z) && SlotOf(W, z, j) && j !in open && j < |son| && son[j] < z
    requires InTree(W, son, open, son[j], x)
    ensures InTree(W, son, open, c, x)
  {
    hide Pair;
    assert InTree(W, son, open, z, x);
    TreeTrans(W, son, open, c, z, x);
  }

  /** The path to x does not use the slots of a node that it does not come through, or ends before. */
  lemma {:induction false} TreeAvoids(W: nat, son: seq<nat>, open: set<nat>, c: nat, x: nat, z: nat, j: nat)
    requires InTree(W, son, open, c, x) && SlotOf(W, z, j) && Near(W, x, c, z)
    requires z <= x || !InTree(W, son, open, c, z)
    ensures InTree(W, son, open + {j}, c, x)
    decreases c
  {
    hide Pair;
    if x != c {
      var i := Pair(W, c);
      if z == c { TreeSelf(W, son, open, c); }
      SlotNear(W, c, z, j);
      if i !in open && son[i] < c && InTree(W, son, open, son[i], x) {
        TreeAvoids(W, son, open, son[i], x, z, j);
      } else {
        TreeAvoids(W, son, open, son[i + 1], x, z, j);
      }
    }
  }

  /** A path leads through a slot or not at all. */
  lemma {:induction false} TreeThrough(W: nat, son: seq<nat>, open: set<nat>, c: nat, x: nat, j: nat)
    requires InTree(W, son, open, c, x) && j < |son|
    ensures InTree(W, son, open + {j}, c, x) || InTree(W, son, open, son[j], x)
    decreases c
  {
    hide Pair;
    if x != c {
      var i := Pair(W, c);
      if i !in open && son[i] < c && InTree(W, son, open, son[i], x) {
        TreeThrough(W, son, open, son[i], x, j);
      } else {
        TreeThrough(W, son, open, son[i + 1], x, j);
      }
    }
  }

  lemma TreeBounds(W: nat, son: seq<nat>, open: set<nat>, c: nat, x: nat)
    requires InTree(W, son, open, c, x)
    ensures W > 0 && |son| == 2 * W && W <= x <= c
  {
  }

  /** What a slot of z holds does not matter to a tree without z. */
  lemma SetElsewhere(W: nat, son: seq<nat>, d: nat, x: nat, z: nat, j: nat, v: nat)
    requires SlotOf(W, z, j) && Near(W, x, d, z) && W <= z && j < |son| && !InTree(W, son, {}, d, z)
    ensures InTree(W, SetAt(son, j, v), {}, d, x) <==> InTree(W, son, {}, d, x)
  {
    hide Pair, InTree;
    var son' := SetAt(son, j, v);
    if InTree(W, son, {}, d, x) {
      TreeAvoids(W, son, {}, d, x, z, j);
      TreeSet(W, son, {} + {j}, d, x, j, v);
      TreeFewer(W, son', {}, {} + {j}, d, x);
    }
    if InTree(W, son', {}, d, x) {
      if InTree(W, son', {}, d, z) {
        TreeBounds(W, son', {}, d, z);
        TreeAvoids(W, son', {}, d, z, z, j);
        SetBack(W, son, {} + {j}, d, z, j, v);
        TreeFewer(W, son, {}, {} + {j}, d, z);
        assert false;
      }
      TreeAvoids(W, son', {}, d, x, z, j);
      SetBack(W, son, {} + {j}, d, x, j, v);
      TreeFewer(W, son, {}, {} + {j}, d, x);
    }
  }

  lemma SetBack(W: nat, son: seq<nat>, open: set<nat>, c: nat, x: nat, j: nat, v: nat)
    requires j < |son| && InTree(W, SetAt(son, j, v), open, c, x) && j in open
    ensures InTree(W, son, open, c, x)
  {
    hide InTree;
    var son' := SetAt(son, j, v);
    TreeSet(W, son', open, c, x, j, son[j]);
    assert SetAt(son', j, son[j]) == son;
  }

  // ------------------------------------------------------------ one round of a walk

  /** A position of the window, or the one being inserted. */
  ghost predicate Near0(W: nat, p: nat, x: nat) { W <= x <= p && p - x < W }

  /** A path below c < z is the same with another value in a slot of z. */
  lemma BelowSet(W: nat, p: nat, son: seq<nat>, open: set<nat>, c: nat, x: nat, z: nat, j: nat, v: nat)
    requires Near0(W, p, x) && Near0(W, p, z) && c < z && SlotOf(W, z, j) && j < |son|
    ensures InTree(W, son, open, c, x) ==> InTree(W, SetAt(son, j, v), open + {j}, c, x)
    ensures InTree(W, SetAt(son, j, v), open, c, x) ==> InTree(W, son, open + {j}, c, x)
  {
    hide InTree, SetAt, Pair;
    var son' := SetAt(son, j, v);
    if InTree(W, son, open, c, x) {
      TreeBounds(W, son, open, c, x);
      if InTree(W, son, open, c, z) { TreeBounds(W, son, open, c, z); }
      TreeAvoids(W, son, open, c, x, z, j);
      TreeSet(W, son, open + {j}, c, x, j, v);
    }
    if InTree(W, son', open, c, x) {
      TreeBounds(W, son', open, c, x);
      if InTree(W, son', open, c, z) { TreeBounds(W, son', open, c, z); }
      TreeAvoids(W, son', open, c, x, z, j);
      SetBack(W, son, open + {j}, c, x, j, v);
    }
  }

  /** What hangs from p already, given the two open slots, or is still below the candidate. */
  ghost predicate Holds(W: nat, p: nat, son: seq<nat>, ptr: nat, oth: nat, c: nat, x: nat)
  {
    InTree(W, son, {ptr, oth}, p, x) || InTree(W, son, {}, c, x)
  }

  /** The candidate c is hung into slot `ptr` of o; its own slot s takes over the part of `ptr`. */
  ghost predicate Hanging(W: nat, p: nat, son: seq<nat>, ptr: nat, oth: nat, o: nat, oo: nat, c: nat, s: nat, t: nat)
  {
    && 0 < W <= p && |son| == 2 * W && Near0(W, p, o) && Near0(W, p, oo) && Near0(W, p, c) && c < o && c < oo
    && SlotOf(W, o, ptr) && SlotOf(W, oo, oth) && SlotOf(W, c, s) && SlotOf(W, c, t) && s != t && ptr != oth
    && son[s] < c && son[t] < c
    && InTree(W, son, {ptr, oth}, p, o) && InTree(W, son, {ptr, oth}, p, oo)
  }

  /** What hung from p and does not come through slot s of c still does. */
  lemma StillPlaced(W: nat, p: nat, son: seq<nat>, ptr: nat, oth: nat, s: nat, c: nat, x: nat)
    requires ptr < |son| && InTree(W, son, {ptr, oth} + {s}, p, x)
    ensures InTree(W, SetAt(son, ptr, c), {oth, s}, p, x)
  {
    hide InTree, SetAt;
    TreeSet(W, son, {ptr, oth} + {s}, p, x, ptr, c);
    TreeFewer(W, SetAt(son, ptr, c), {oth, s}, {ptr, oth} + {s}, p, x);
  }

  lemma OwnersPlaced(W: nat, p: nat, son: seq<nat>, ptr: nat, oth: nat, o: nat, oo: nat, c: nat, s: nat, t: nat)
    requires Hanging(W, p, son, ptr, oth, o, oo, c, s, t)
    ensures ptr < |son| && InTree(W, SetAt(son, ptr, c), {oth, s}, p, o)
    ensures InTree(W, SetAt(son, ptr, c), {oth, s}, p, oo)
    ensures InTree(W, SetAt(son, ptr, c), {oth, s}, p, c)
  {
    hide InTree, Pair;
    TreeAvoids(W, son, {ptr, oth}, p, o, c, s);
    StillPlaced(W, p, son, ptr, oth, s, c, o);
    TreeAvoids(W, son, {ptr, oth}, p, oo, c, s);
    StillPlaced(W, p, son, ptr, oth, s, c, oo);
    SlotNear(W, o, c, s);
    var son' := SetAt(son, ptr, c);
    TreeSelf(W, son', {oth, s}, c);
    TreeLink(W, son', {oth, s}, p, o, ptr, c);
  }

  /** What is below the closed side of c hangs from p with c. */
  lemma SidePlaced(W: nat, p: nat, son: seq<nat>, ptr: nat, oth: nat, o: nat, oo: nat, c: nat, s: nat, t: nat, x: nat)
    requires Hanging(W, p, son, ptr, oth, o, oo, c, s, t) && Near0(W, p, x) && InTree(W, son, {}, son[t], x)
    ensures ptr < |son| && InTree(W, SetAt(son, ptr, c), {oth, s}, p, x)
  {
    hide InTree, Pair;
    OwnersPlaced(W, p, son, ptr, oth, o, oo, c, s, t);
    var son', l := SetAt(son, ptr, c), son[t];
    SlotNear(W, o, c, t);
    SlotNear(W, oo, c, t);
    BelowSet(W, p, son, {}, l, x, o, ptr, c);
    BelowAvoids(W, p, son', {} + {ptr}, l, x, oo, oth);
    BelowAvoids(W, p, son', {} + {ptr} + {oth}, l, x, c, s);
    TreeFewer(W, son', {oth, s}, {} + {ptr} + {oth} + {s}, l, x);
    TreeLink(W, son', {oth, s}, p, c, t, x);
  }

  lemma BelowAvoids(W: nat, p: nat, son: seq<nat>, open: set<nat>, c: nat, x: nat, z: nat, j: nat)
    requires InTree(W, son, open, c, x) && Near0(W, p, x) && Near0(W, p, z) && c < z && SlotOf(W, z, j)
    ensures InTree(W, son, open + {j}, c, x)
  {
    hide InTree, Pair;
    TreeBounds(W, son, open, c, x);
    if InTree(W, son, open, c, z) { TreeBounds(W, son, open, c, z); }
    TreeAvoids(W, son, open, c, x, z, j);
  }

  /** The open side of c is the next candidate's tree. */
  lemma OpenSide(W: nat, p: nat, son: seq<nat>, ptr: nat, oth: nat, o: nat, oo: nat, c: nat, s: nat, t: nat, x: nat)
    requires Hanging(W, p, son, ptr, oth, o, oo, c, s, t) && Near0(W, p, x)
    ensures ptr < |son| && (InTree(W, SetAt(son, ptr, c), {}, son[s], x) <==> InTree(W, son, {}, son[s], x))
  {
    hide InTree, Pair;
    var son' := SetAt(son, ptr, c);
    BelowSet(W, p, son, {}, son[s], x, o, ptr, c);
    if InTree(W, son, {}, son[s], x) { TreeFewer(W, son', {}, {} + {ptr}, son[s], x); }
    if InTree(W, son', {}, son[s], x) { TreeFewer(W, son, {}, {} + {ptr}, son[s], x); }
  }

  /** Hanging a candidate neither loses nor adds a position. */
  lemma HangHolds(W: nat, p: nat, son: seq<nat>, ptr: nat, oth: nat, o: nat, oo: nat, c: nat, s: nat, t: nat, x: nat)
    requires Hanging(W, p, son, ptr, oth, o, oo, c, s, t) && Near0(W, p, x)
    ensures ptr < |son| && (Holds(W, p, SetAt(son, ptr, c), s, oth, son[s], x) <==> Holds(W, p, son, ptr, oth, c, x))
  {
    hide InTree, Pair;
    OwnersPlaced(W, p, son, ptr, oth, o, oo, c, s, t);
    OpenSide(W, p, son, ptr, oth, o, oo, c, s, t, x);
    assert {s, oth} == {oth, s};
    if Holds(W, p, son, ptr, oth, c, x) { HangKeeps(W, p, son, ptr, oth, o, oo, c, s, t, x); }
    if Holds(W, p, SetAt(son, ptr, c), s, oth, son[s], x) { HangAdds(W, p, son, ptr, oth, o, oo, c, s, t, x); }
  }

  lemma HangKeeps(W: nat, p: nat, son: seq<nat>, ptr: nat, oth: nat, o: nat, oo: nat, c: nat, s: nat, t: nat, x: nat)
    requires Hanging(W, p, son, ptr, oth, o, oo, c, s, t) && Near0(W, p, x) && Holds(W, p, son, ptr, oth, c, x)
    ensures ptr < |son|
    ensures InTree(W, SetAt(son, ptr, c), {oth, s}, p, x) || InTree(W, SetAt(son, ptr, c), {}, son[s], x)
  {
    hide InTree, Pair;
    OwnersPlaced(W, p, son, ptr, oth, o, oo, c, s, t);
    OpenSide(W, p, son, ptr, oth, o, oo, c, s, t, x);
    if InTree(W, son, {ptr, oth}, p, x) {
      TreeThrough(W, son, {ptr, oth}, p, x, s);
      if InTree(W, son, {ptr, oth} + {s}, p, x) { StillPlaced(W, p, son, ptr, oth, s, c, x); }
      else { TreeFewer(W, son, {}, {ptr, oth}, son[s], x); }
    } else {
      TreeDown(W, son, c, x, s, t);
      if InTree(W, son, {}, son[t], x) { SidePlaced(W, p, son, ptr, oth, o, oo, c, s, t, x); }
    }
  }

  lemma TreeDown(W: nat, son: seq<nat>, c: nat, x: nat, s: nat, t: nat)
    requires InTree(W, son, {}, c, x) && SlotOf(W, c, s) && SlotOf(W, c, t) && s != t
    ensures x == c || InTree(W, son, {}, son[s], x) || InTree(W, son, {}, son[t], x)
  {
  }

  lemma TreeUp(W: nat, son: seq<nat>, c: nat, x: nat, s: nat)
    requires SlotOf(W, c, s) && s < |son| && son[s] < c && InTree(W, son, {}, son[s], x)
    ensures InTree(W, son, {}, c, x)
  {
  }

  lemma HangAdds(W: nat, p: nat, son: seq<nat>, ptr: nat, oth: nat, o: nat, oo: nat, c: nat, s: nat, t: nat, x: nat)
    requires Hanging(W, p, son, ptr, oth, o, oo, c, s, t) && Near0(W, p, x)
    requires ptr < |son|
    requires InTree(W, SetAt(son, ptr, c), {oth, s}, p, x) || InTree(W, SetAt(son, ptr, c), {}, son[s], x)
    ensures Holds(W, p, son, ptr, oth, c, x)
  {
    hide InTree, Pair;
    OpenSide(W, p, son, ptr, oth, o, oo, c, s, t, x);
    var son' := SetAt(son, ptr, c);
    if InTree(W, son, {}, son[s], x) {
      TreeUp(W, son, c, x, s);
    } else {
      TreeThrough(W, son', {oth, s}, p, x, ptr);
      if InTree(W, son', {oth, s} + {ptr}, p, x) {
        SetBack(W, son, {oth, s} + {ptr}, p, x, ptr, c);
        TreeFewer(W, son, {ptr, oth}, {oth, s} + {ptr}, p, x);
      } else {
        BelowSet(W, p, son, {oth, s}, c, x, o, ptr, c);
        TreeFewer(W, son, {}, {oth, s} + {ptr}, c, x);
      }
    }
  }

  // ------------------------------------------------------------ whole walks

  /** What the walk has in hand. */
  ghost predicate Held(W: nat, p: nat, w: Walk, x: nat) { Holds(W, p, w.son, w.ptr1, w.ptr0, w.c, x) }

  /** The owners of the two open slots hang from p. */
  ghost predicate Spine(W: nat, p: nat, w: Walk, o0: nat, o1: nat)
  {
    && w.ptr0 != w.ptr1
    && InTree(W, w.son, {w.ptr1, w.ptr0}, p, o0) && InTree(W, w.son, {w.ptr1, w.ptr0}, p, o1)
  }

  lemma HoldsEither(W: nat, p: nat, son: seq<nat>, a: nat, b: nat, c: nat, x: nat)
    ensures Holds(W, p, son, a, b, c, x) == Holds(W, p, son, b, a, c, x)
  {
    assert {a, b} == {b, a};
  }

  /** A round of a walk is a candidate being hung. */
  lemma RoundHangs(data: seq<bv8>, W: nat, p: nat, L: nat, w: Walk, o0: nat, o1: nat)
    requires Walking(data, W, p, L, w, o0, o1) && Live(W, p, w.c) && Spine(W, p, w, o0, o1)
    ensures var i := Pair(W, w.c);
            && Hanging(W, p, w.son, w.ptr1, w.ptr0, o1, o0, w.c, i + 1, i)
            && Hanging(W, p, w.son, w.ptr0, w.ptr1, o0, o1, w.c, i, i + 1)
  {
    hide InTree, Pair;
    BoundedAt(W, p, w.son, w.c);
    assert {w.ptr1, w.ptr0} == {w.ptr0, w.ptr1};
  }

  lemma RoundHolds(data: seq<bv8>, W: nat, p: nat, L: nat, w: Walk, o0: nat, o1: nat, o0': nat, o1': nat)
    requires Walking(data, W, p, L, w, o0, o1) && !Stops(data, W, p, L, w) && Spine(W, p, w, o0, o1)
    requires if Smaller(data, W, p, w, AgreeLen(data, W, p, L, w)) then o0' == o0 && o1' == w.c
             else o0' == w.c && o1' == o1
    ensures var w' := Advance(data, W, p, L, w);
            Spine(W, p, w', o0', o1') && forall x :: Near0(W, p, x) ==> (Held(W, p, w', x) <==> Held(W, p, w, x))
  {
    hide InTree, Bounded, Advance, AgreeLen, Smaller, Hanging, Holds, Walking;
    WalkingSize(data, W, p, L, w, o0, o1);
    var c, i, w' := w.c, Pair(W, w.c), Advance(data, W, p, L, w);
    RoundHangs(data, W, p, L, w, o0, o1);
    AdvanceIs(data, W, p, L, w);
    hide Pair;
    if Smaller(data, W, p, w, AgreeLen(data, W, p, L, w)) {
      RoundSlots(W, p, w.son, w.ptr1, w.ptr0, o1, o0, c, i + 1, i);
      OwnersPlaced(W, p, w.son, w.ptr1, w.ptr0, o1, o0, c, i + 1, i);
      assert {w.ptr0, i + 1} == {i + 1, w.ptr0};
      forall x | Near0(W, p, x) ensures Held(W, p, w', x) <==> Held(W, p, w, x) {
        HangHolds(W, p, w.son, w.ptr1, w.ptr0, o1, o0, c, i + 1, i, x);
      }
    } else {
      RoundSlots(W, p, w.son, w.ptr0, w.ptr1, o0, o1, c, i, i + 1);
      OwnersPlaced(W, p, w.son, w.ptr0, w.ptr1, o0, o1, c, i, i + 1);
      forall x | Near0(W, p, x) ensures Held(W, p, w', x) <==> Held(W, p, w, x) {
        HangHolds(W, p, w.son, w.ptr0, w.ptr1, o0, o1, c, i, i + 1, x);
        HoldsEither(W, p, w.son, w.ptr1, w.ptr0, c, x);
        HoldsEither(W, p, w'.son, w'.ptr1, w'.ptr0, w'.c, x);
      }
    }
  }

  /** The slots of the candidate are not the open ones, so its links are read after writing as before. */
  lemma RoundSlots(W: nat, p: nat, son: seq<nat>, ptr: nat, oth: nat, o: nat, oo: nat, c: nat, s: nat, t: nat)
    requires Hanging(W, p, son, ptr, oth, o, oo, c, s, t)
    ensures ptr < |son| && s != oth && s != ptr && s < |son| && SetAt(son, ptr, c)[s] == son[s]
  {
    hide InTree, Pair;
    SlotNear(W, o, c, s);
    SlotNear(W, oo, c, s);
  }

  /** A walk that is not cut off. */
  ghost predicate Exhausts(data: seq<bv8>, W: nat, p: nat, L: nat, w: Walk)
    requires WalkOk(data, W, p, L, w)
    decreases w.cut
  {
    w.cut > 0 && (!Stops(data, W, p, L, w) ==> Exhausts(data, W, p, L, Advance(data, W, p, L, w)))
  }

  /** A budget as large as the window is never used up. */
  lemma {:induction false} BudgetSuffices(data: seq<bv8>, W: nat, p: nat, L: nat, w: Walk, o0: nat, o1: nat)
    requires Walking(data, W, p, L, w, o0, o1) && w.cut > 0 && (Live(W, p, w.c) ==> w.cut + p > w.c + W)
    ensures Exhausts(data, W, p, L, w)
    decreases w.cut
  {
    hide Walking, Advance, AgreeLen, Smaller;
    WalkingSize(data, W, p, L, w, o0, o1);
    if !Stops(data, W, p, L, w) {
      var o0', o1' := WalkingOn(data, W, p, L, w, o0, o1);
      var w' := Advance(data, W, p, L, w);
      WalkingOlder(data, W, p, L, w', o0', o1');
      BudgetSuffices(data, W, p, L, w', o0', o1');
    }
  }

  lemma WalkingSize(data: seq<bv8>, W: nat, p: nat, L: nat, w: Walk, o0: nat, o1: nat)
    requires Walking(data, W, p, L, w, o0, o1)
    ensures WalkOk(data, W, p, L, w)
  {
  }

  lemma WalkingOlder(data: seq<bv8>, W: nat, p: nat, L: nat, w: Walk, o0: nat, o1: nat)
    requires Walking(data, W, p, L, w, o0, o1)
    ensures w.c == 0 || (w.c < o0 && w.c < o1)
  {
  }

  // ------------------------------------------------------------ the end of a walk

  /** Writing both open slots: with a link to what was below the candidate, or to nothing. */
  lemma FinishKeeps(W: nat, p: nat, son: seq<nat>, a: nat, b: nat, u: nat, v: nat, x: nat)
    requires a < |son| && b < |son| && InTree(W, son, {a, b}, p, x)
    ensures InTree(W, SetAt(SetAt(son, a, u), b, v), {}, p, x)
  {
    hide InTree;
    TreeSet(W, son, {a, b}, p, x, a, u);
    TreeSet(W, SetAt(son, a, u), {a, b}, p, x, b, v);
    TreeFewer(W, SetAt(SetAt(son, a, u), b, v), {}, {a, b}, p, x);
  }

  lemma FinishBack(W: nat, p: nat, son: seq<nat>, a: nat, b: nat, u: nat, v: nat, x: nat)
    requires a < |son| && b < |son| && a != b && InTree(W, SetAt(SetAt(son, a, u), b, v), {}, p, x)
    ensures var r := SetAt(SetAt(son, a, u), b, v);
            InTree(W, son, {a, b}, p, x) || InTree(W, r, {}, u, x) || InTree(W, r, {}, v, x)
  {
    hide InTree;
    var r := SetAt(SetAt(son, a, u), b, v);
    TreeThrough(W, r, {}, p, x, a);
    if InTree(W, r, {} + {a}, p, x) {
      TreeThrough(W, r, {} + {a}, p, x, b);
      if InTree(W, r, {} + {a} + {b}, p, x) {
        SetBack(W, SetAt(son, a, u), {} + {a} + {b}, p, x, b, v);
        SetBack(W, son, {} + {a} + {b}, p, x, a, u);
        assert {} + {a} + {b} == {a, b};
      } else {
        TreeFewer(W, r, {}, {} + {a}, v, x);
      }
    }
  }

  lemma NothingBelow(W: nat, son: seq<nat>, open: set<nat>, c: nat, x: nat)
    requires c < x || c < W
    ensures !InTree(W, son, open, c, x)
  {
  }

  /** Whatever hangs from p in the end was in hand. */
  lemma FinishOnly(data: seq<bv8>, W: nat, p: nat, L: nat, w: Walk, o0: nat, o1: nat, x: nat)
    requires Walking(data, W, p, L, w, o0, o1) && Spine(W, p, w, o0, o1) && Near0(W, p, x)
    requires InTree(W, Finish(W, p, w), {}, p, x)
    ensures Held(W, p, w, x)
  {
    hide InTree, Bounded;
    if w.cut == 0 || !Live(W, p, w.c) {
      FinishBack(W, p, w.son, w.ptr1, w.ptr0, 0, 0, x);
      NothingBelow(W, Finish(W, p, w), {}, 0, x);
    } else {
      var i := Pair(W, w.c);
      RoundHangs(data, W, p, L, w, o0, o1);
      hide Pair;
      RoundSlots(W, p, w.son, w.ptr1, w.ptr0, o1, o0, w.c, i + 1, i);
      FinishBack(W, p, w.son, w.ptr1, w.ptr0, w.son[i], w.son[i + 1], x);
      EqualSides(W, p, w, o0, o1, i, x);
    }
  }

  /** The children of an equal suffix are the same trees before and after. */
  lemma EqualSides(W: nat, p: nat, w: Walk, o0: nat, o1: nat, i: nat, x: nat)
    requires Hanging(W, p, w.son, w.ptr1, w.ptr0, o1, o0, w.c, i + 1, i) && Near0(W, p, x)
    ensures w.ptr1 < |w.son| && w.ptr0 < |w.son| && i + 1 < |w.son|
    ensures var r := SetAt(SetAt(w.son, w.ptr1, w.son[i]), w.ptr0, w.son[i + 1]);
            && (InTree(W, r, {}, w.son[i], x) <==> InTree(W, w.son, {}, w.son[i], x))
            && (InTree(W, r, {}, w.son[i + 1], x) <==> InTree(W, w.son, {}, w.son[i + 1], x))
    ensures InTree(W, w.son, {}, w.son[i], x) || InTree(W, w.son, {}, w.son[i + 1], x) ==> InTree(W, w.son, {}, w.c, x)
  {
    hide InTree, Pair;
    BothSet(W, p, w.son, w.ptr1, w.ptr0, o1, o0, w.son[i], w.son[i + 1], w.son[i], w.c, x);
    BothSet(W, p, w.son, w.ptr1, w.ptr0, o1, o0, w.son[i], w.son[i + 1], w.son[i + 1], w.c, x);
    if InTree(W, w.son, {}, w.son[i], x) { TreeUp(W, w.son, w.c, x, i); }
    if InTree(W, w.son, {}, w.son[i + 1], x) { TreeUp(W, w.son, w.c, x, i + 1); }
  }

  lemma BothSet(W: nat, p: nat, son: seq<nat>, a: nat, b: nat, o: nat, oo: nat, u: nat, v: nat, l: nat, c: nat, x: nat)
    requires Near0(W, p, x) && Near0(W, p, o) && Near0(W, p, oo) && l < c < o && c < oo && a < |son| && b < |son|
    requires SlotOf(W, o, a) && SlotOf(W, oo, b)
    ensures InTree(W, SetAt(SetAt(son, a, u), b, v), {}, l, x) <==> InTree(W, son, {}, l, x)
  {
    hide InTree, Pair, SetAt;
    var m := SetAt(son, a, u);
    BelowSame(W, p, son, l, x, o, a, u);
    BelowSame(W, p, m, l, x, oo, b, v);
  }

  lemma BelowSame(W: nat, p: nat, son: seq<nat>, c: nat, x: nat, z: nat, j: nat, v: nat)
    requires Near0(W, p, x) && Near0(W, p, z) && c < z && SlotOf(W, z, j) && j < |son|
    ensures InTree(W, SetAt(son, j, v), {}, c, x) <==> InTree(W, son, {}, c, x)
  {
    hide InTree, Pair, SetAt;
    BelowSet(W, p, son, {}, c, x, z, j, v);
    if InTree(W, son, {}, c, x) { TreeFewer(W, SetAt(son, j, v), {}, {} + {j}, c, x); }
    if InTree(W, SetAt(son, j, v), {}, c, x) { TreeFewer(W, son, {}, {} + {j}, c, x); }
  }

  /** Unless the budget ran out, all that was in hand hangs from p, but for an equal suffix. */
  lemma FinishAll(data: seq<bv8>, W: nat, p: nat, L: nat, w: Walk, o0: nat, o1: nat, x: nat)
    requires Walking(data, W, p, L, w, o0, o1) && Spine(W, p, w, o0, o1) && Near0(W, p, x)
    requires w.cut > 0 && Held(W, p, w, x) && !(Live(W, p, w.c) && x == w.c)
    ensures InTree(W, Finish(W, p, w), {}, p, x)
  {
    hide InTree, Bounded;
    if InTree(W, w.son, {w.ptr1, w.ptr0}, p, x) {
      if Live(W, p, w.c) {
        var i := Pair(W, w.c);
        RoundHangs(data, W, p, L, w, o0, o1);
        hide Pair;
        RoundSlots(W, p, w.son, w.ptr1, w.ptr0, o1, o0, w.c, i + 1, i);
        FinishKeeps(W, p, w.son, w.ptr1, w.ptr0, w.son[i], w.son[i + 1], x);
      } else {
        FinishKeeps(W, p, w.son, w.ptr1, w.ptr0, 0, 0, x);
      }
    } else if Live(W, p, w.c) {
      FinishEqual(data, W, p, L, w, o0, o1, x);
    } else {
      NothingBelow(W, w.son, {}, w.c, x);
    }
  }

  lemma FinishEqual(data: seq<bv8>, W: nat, p: nat, L: nat, w: Walk, o0: nat, o1: nat, x: nat)
    requires Walking(data, W, p, L, w, o0, o1) && Spine(W, p, w, o0, o1) && Near0(W, p, x)
    requires w.cut > 0 && Live(W, p, w.c) && x != w.c && InTree(W, w.son, {}, w.c, x)
    ensures InTree(W, Finish(W, p, w), {}, p, x)
  {
    hide InTree, Bounded;
    var i := Pair(W, w.c);
    RoundHangs(data, W, p, L, w, o0, o1);
    hide Pair;
    var l, r := w.son[i], w.son[i + 1];
    var f := Finish(W, p, w);
    RoundSlots(W, p, w.son, w.ptr1, w.ptr0, o1, o0, w.c, i + 1, i);
    TreeDown(W, w.son, w.c, x, i, i + 1);
    EqualSides(W, p, w, o0, o1, i, x);
    FinishKeeps(W, p, w.son, w.ptr1, w.ptr0, l, r, o0);
    FinishKeeps(W, p, w.son, w.ptr1, w.ptr0, l, r, o1);
    if InTree(W, w.son, {}, l, x) { TreeLink(W, f, {}, p, o1, w.ptr1, x); }
    else { TreeLink(W, f, {}, p, o0, w.ptr0, x); }
  }

  // ------------------------------------------------------------ nothing is lost

  /** An insertion adds nothing to the tree but p, and unless its budget runs out it loses nothing but a
      position that agrees with p as far as bytes are compared. */
  lemma {:induction false} InsertHolds(data: seq<bv8>, W: nat, p: nat, L: nat, w: Walk, D: seq<set<nat>>, o0: nat,
                                       o1: nat, x: nat)
    requires WalkTree(data, W, p, L, w, D, o0, o1) && Spine(W, p, w, o0, o1) && Near0(W, p, x)
    ensures WalkOk(data, W, p, L, w)
    ensures InTree(W, Insert(data, W, p, L, w), {}, p, x) ==> Held(W, p, w, x)
    ensures Held(W, p, w, x) && Exhausts(data, W, p, L, w) ==>
              InTree(W, Insert(data, W, p, L, w), {}, p, x) || (x < p && SameP(data, W, x, p, L))
    decreases w.cut
  {
    hide WalkTree, InTree, Spine, Held, Advance, Finish, Found, SameP, AgreeLen, Smaller;
    WalkTreeSize(data, W, p, L, w, D, o0, o1);
    WalkTreeWalks(data, W, p, L, w, D, o0, o1);
    WalkUnfold(data, W, p, L, w, 0);
    if Stops(data, W, p, L, w) {
      if InTree(W, Finish(W, p, w), {}, p, x) { FinishOnly(data, W, p, L, w, o0, o1, x); }
      if w.cut > 0 && Held(W, p, w, x) {
        if Live(W, p, w.c) && x == w.c {
          Justified(data, W, p, L, w, D, o0, o1);
        } else {
          FinishAll(data, W, p, L, w, o0, o1, x);
        }
      }
    } else {
      var D', o0', o1' := WalkTreeOn(data, W, p, L, w, D, o0, o1);
      RoundHolds(data, W, p, L, w, o0, o1, o0', o1');
      InsertHolds(data, W, p, L, Advance(data, W, p, L, w), D', o0', o1', x);
    }
  }

  lemma WalkTreeWalks(data: seq<bv8>, W: nat, p: nat, L: nat, w: Walk, D: seq<set<nat>>, o0: nat, o1: nat)
    requires WalkTree(data, W, p, L, w, D, o0, o1)
    ensures Walking(data, W, p, L, w, o0, o1)
  {
  }

  // ------------------------------------------------------------ other trees

  /** No position of the window below d is in hand. */
  ghost predicate Foreign(W: nat, p: nat, w: Walk, d: nat)
  {
    d < p && p - d < W && forall y :: Near0(W, p, y) && InTree(W, w.son, {}, d, y) ==> !Held(W, p, w, y)
  }

  lemma HeldOwners(data: seq<bv8>, W: nat, p: nat, L: nat, w: Walk, o0: nat, o1: nat)
    requires Walking(data, W, p, L, w, o0, o1) && Spine(W, p, w, o0, o1)
    ensures W > 0 && |w.son| == 2 * W && w.ptr0 < 2 * W && w.ptr1 < 2 * W
    ensures Near0(W, p, o0) && Near0(W, p, o1) && Held(W, p, w, o0) && Held(W, p, w, o1)
    ensures SlotOf(W, o0, w.ptr0) && SlotOf(W, o1, w.ptr1)
  {
    hide InTree, Bounded, Pair;
  }

  /** Writing a slot of something in hand does not touch a foreign tree. */
  lemma ForeignSet(W: nat, p: nat, w: Walk, d: nat, z: nat, j: nat, v: nat, x: nat)
    requires Foreign(W, p, w, d) && Near0(W, p, z) && Held(W, p, w, z) && SlotOf(W, z, j) && j < |w.son|
    requires Near0(W, p, x)
    ensures InTree(W, SetAt(w.son, j, v), {}, d, x) <==> InTree(W, w.son, {}, d, x)
  {
    hide InTree, Held, Pair;
    SetElsewhere(W, w.son, d, x, z, j, v);
  }

  lemma ForeignRound(data: seq<bv8>, W: nat, p: nat, L: nat, w: Walk, o0: nat, o1: nat, o0': nat, o1': nat, d: nat)
    requires Walking(data, W, p, L, w, o0, o1) && !Stops(data, W, p, L, w) && Spine(W, p, w, o0, o1)
    requires if Smaller(data, W, p, w, AgreeLen(data, W, p, L, w)) then o0' == o0 && o1' == w.c
             else o0' == w.c && o1' == o1
    requires Foreign(W, p, w, d)
    ensures var w' := Advance(data, W, p, L, w);
            && Foreign(W, p, w', d)
            && forall x :: Near0(W, p, x) ==> (InTree(W, w'.son, {}, d, x) <==> InTree(W, w.son, {}, d, x))
  {
    hide InTree, Bounded, Advance, AgreeLen, Smaller, Held, Walking, Pair;
    WalkingSize(data, W, p, L, w, o0, o1);
    HeldOwners(data, W, p, L, w, o0, o1);
    RoundHolds(data, W, p, L, w, o0, o1, o0', o1');
    AdvanceIs(data, W, p, L, w);
    var w' := Advance(data, W, p, L, w);
    forall x | Near0(W, p, x) ensures InTree(W, w'.son, {}, d, x) <==> InTree(W, w.son, {}, d, x) {
      if Smaller(data, W, p, w, AgreeLen(data, W, p, L, w)) {
        ForeignSet(W, p, w, d, o1, w.ptr1, w.c, x);
      } else {
        ForeignSet(W, p, w, d, o0, w.ptr0, w.c, x);
      }
    }
  }

  lemma ForeignFinish(data: seq<bv8>, W: nat, p: nat, L: nat, w: Walk, o0: nat, o1: nat, d: nat, x: nat)
    requires Walking(data, W, p, L, w, o0, o1) && Spine(W, p, w, o0, o1) && Foreign(W, p, w, d) && Near0(W, p, x)
    ensures InTree(W, Finish(W, p, w), {}, d, x) <==> InTree(W, w.son, {}, d, x)
  {
    hide InTree, Bounded, Held, Walking, Pair;
    HeldOwners(data, W, p, L, w, o0, o1);
    if w.cut == 0 || !Live(W, p, w.c) {
      ForeignBoth(W, p, w, d, o0, o1, 0, 0, x);
    } else {
      var i := Pair(W, w.c);
      var son' := SetAt(w.son, w.ptr1, w.son[i]);
      ForeignBoth(W, p, w, d, o0, o1, w.son[i], son'[i + 1], x);
    }
  }

  lemma ForeignBoth(W: nat, p: nat, w: Walk, d: nat, o0: nat, o1: nat, u: nat, v: nat, x: nat)
    requires Foreign(W, p, w, d) && Near0(W, p, x) && w.ptr1 < |w.son| && w.ptr0 < |w.son|
    requires Near0(W, p, o1) && Held(W, p, w, o1) && SlotOf(W, o1, w.ptr1)
    requires Near0(W, p, o0) && Held(W, p, w, o0) && SlotOf(W, o0, w.ptr0)
    ensures InTree(W, SetAt(SetAt(w.son, w.ptr1, u), w.ptr0, v), {}, d, x) <==> InTree(W, w.son, {}, d, x)
  {
    hide InTree, Held, Pair;
    ForeignSet(W, p, w, d, o1, w.ptr1, u, x);
    ForeignSet(W, p, w, d, o1, w.ptr1, u, o0);
    SetElsewhere(W, SetAt(w.son, w.ptr1, u), d, x, o0, w.ptr0, v);
  }

  /** A tree that shares no position with the one walked through is left as it is. */
  lemma {:induction false} InsertForeign(data: seq<bv8>, W: nat, p: nat, L: nat, w: Walk, D: seq<set<nat>>, o0: nat,
                                         o1: nat, d: nat, x: nat)
    requires WalkTree(data, W, p, L, w, D, o0, o1) && Spine(W, p, w, o0, o1) && Foreign(W, p, w, d) && Near0(W, p, x)
    ensures WalkOk(data, W, p, L, w)
    ensures InTree(W, Insert(data, W, p, L, w), {}, d, x) <==> InTree(W, w.son, {}, d, x)
    decreases w.cut
  {
    hide WalkTree, InTree, Spine, Foreign, Advance, Finish, Found, AgreeLen, Smaller;
    WalkTreeSize(data, W, p, L, w, D, o0, o1);
    WalkTreeWalks(data, W, p, L, w, D, o0, o1);
    WalkUnfold(data, W, p, L, w, 0);
    if Stops(data, W, p, L, w) {
      ForeignFinish(data, W, p, L, w, o0, o1, d, x);
    } else {
      var D', o0', o1' := WalkTreeOn(data, W, p, L, w, D, o0, o1);
      ForeignRound(data, W, p, L, w, o0, o1, o0', o1', d);
      RoundHolds(data, W, p, L, w, o0, o1, o0', o1');
      InsertForeign(data, W, p, L, Advance(data, W, p, L, w), D', o0', o1', d, x);
    }
  }

  // ------------------------------------------------------------ the longest match

  /** How long a match is known after some reports. */
  ghost function Best(ms: seq<(nat, nat)>, maxLen: nat): nat { if ms == [] then maxLen else ms[|ms| - 1].0 }

  lemma BestNext(m: (nat, nat), ms: seq<(nat, nat)>, maxLen: nat)
    ensures Best([m] + ms, maxLen) == Best(ms, m.0)
  {
  }

  lemma BestGrows(data: seq<bv8>, W: nat, p: nat, L: nat, ms: seq<(nat, nat)>, maxLen: nat)
    requires TrueMatches(data, W, p, L, ms, maxLen)
    ensures maxLen <= Best(ms, maxLen)
  {
    hide TrueMatch;
  }

  /** What can be reached below a node is in its set. */
  lemma {:induction false} InSet(data: seq<bv8>, W: nat, p: nat, L: nat, son: seq<nat>, D: seq<set<nat>>,
                                 open: set<nat>, c: nat, x: nat)
    requires Open(data, W, p, L, son, D, open) && Live(W, p, c) && Live(W, p, x) && InTree(W, son, open, c, x)
    ensures c < |D| && x in D[c]
    decreases c
  {
    hide Below, Above, Pair;
    OpenAt(data, W, p, L, son, D, open, c);
    if x != c {
      var i := Pair(W, c);
      if i !in open && son[i] < c && InTree(W, son, open, son[i], x) {
        TreeBounds(W, son, open, son[i], x);
        InSet(data, W, p, L, son, D, open, son[i], x);
      } else {
        TreeBounds(W, son, open, son[i + 1], x);
        InSet(data, W, p, L, son, D, open, son[i + 1], x);
      }
    }
  }

  /** A position on the side of the candidate away from p agrees with p no further than the candidate. */
  lemma AwayShorter(data: seq<bv8>, W: nat, p: nat, L: nat, c: nat, x: nat, n: nat, len: nat)
    requires (LeP(data, W, L, x, c) && LeP(data, W, L, c, p)) || (LeP(data, W, L, p, c) && LeP(data, W, L, c, x))
    requires SameP(data, W, x, p, n) && n <= L && len < L && data[c - W + len] != data[p - W + len]
    ensures n <= len
  {
    hide Same, Le;
    if n > len {
      SameWhole(data, W, p, n);
      if LeP(data, W, L, x, c) && LeP(data, W, L, c, p) { BetweenP(data, W, L, x, c, p, p, n, n); }
      else { BetweenP(data, W, L, p, c, x, p, n, n); }
      SameAt(data, c - W, p - W, n, len);
    }
  }

  lemma SameWhole(data: seq<bv8>, W: nat, p: nat, n: nat)
    requires W <= p && p - W + n <= |data|
    ensures SameP(data, W, p, p, n)
  {
  }

  /** Only so far does the candidate itself agree. */
  lemma HereShorter(data: seq<bv8>, W: nat, p: nat, L: nat, w: Walk, n: nat)
    requires WalkOk(data, W, p, L, w) && Live(W, p, w.c) && SameP(data, W, w.c, p, n) && n <= L
    ensures n <= AgreeLen(data, W, p, L, w)
  {
    hide AgreeLen, Same;
    AgreeEnds(data, W, p, L, w);
    var len := AgreeLen(data, W, p, L, w);
    if n > len { SameAt(data, w.c - W, p - W, n, len); }
  }

  /** A position below the candidate is passed by, with a match at least as long, or is below the next one. */
  lemma PassedBy(data: seq<bv8>, W: nat, p: nat, L: nat, w: Walk, D: seq<set<nat>>, o0: nat, o1: nat, x: nat, n: nat)
    requires WalkTree(data, W, p, L, w, D, o0, o1) && !Stops(data, W, p, L, w)
    requires Live(W, p, x) && InTree(W, w.son, {}, w.c, x) && SameP(data, W, x, p, n) && n <= L
    ensures var w' := Advance(data, W, p, L, w);
            n <= AgreeLen(data, W, p, L, w) || InTree(W, w'.son, {}, w'.c, x)
  {
    hide InTree, Bounded, Advance, AgreeLen, Smaller, Open, SameP, Candidate, Side, Top;
    var c, i, len, w' := w.c, Pair(W, w.c), AgreeLen(data, W, p, L, w), Advance(data, W, p, L, w);
    AgreeEnds(data, W, p, L, w);
    AdvanceIs(data, W, p, L, w);
    Ordered(data, W, p, L, w, D, o0, o1);
    if x == c {
      HereShorter(data, W, p, L, w, n);
    } else {
      SideOf(data, W, p, L, w, D, o0, o1, x);
      if Smaller(data, W, p, w, len) {
        if InTree(W, w.son, {}, w.son[i], x) { AwayShorter(data, W, p, L, c, x, n, len); }
        else { NextSide(W, p, w, o1, w.ptr1, i + 1, x); }
      } else {
        if InTree(W, w.son, {}, w.son[i + 1], x) { AwayShorter(data, W, p, L, c, x, n, len); }
        else { NextSide(W, p, w, o0, w.ptr0, i, x); }
      }
    }
  }

  /** The next candidate's tree is not touched by hanging this one. */
  lemma NextSide(W: nat, p: nat, w: Walk, o: nat, ptr: nat, s: nat, x: nat)
    requires Live(W, p, w.c) && Near0(W, p, o) && w.c < o && SlotOf(W, o, ptr) && SlotOf(W, w.c, s)
    requires |w.son| == 2 * W && ptr < 2 * W && s < 2 * W && w.son[s] < w.c && Live(W, p, x)
    requires InTree(W, w.son, {}, w.son[s], x)
    ensures SetAt(w.son, ptr, w.c)[s] == w.son[s] && InTree(W, SetAt(w.son, ptr, w.c), {}, w.son[s], x)
  {
    hide InTree, Pair;
    SlotNear(W, o, w.c, s);
    BelowSame(W, p, w.son, w.son[s], x, o, ptr, w.c);
  }

  /** A position below the candidate is on one of its two sides, and in order there. */
  lemma SideOf(data: seq<bv8>, W: nat, p: nat, L: nat, w: Walk, D: seq<set<nat>>, o0: nat, o1: nat, x: nat)
    requires WalkTree(data, W, p, L, w, D, o0, o1) && Live(W, p, w.c) && Live(W, p, x) && x != w.c
    requires InTree(W, w.son, {}, w.c, x)
    ensures var i := Pair(W, w.c);
            && w.son[i] < w.c && w.son[i + 1] < w.c
            && (InTree(W, w.son, {}, w.son[i], x) || InTree(W, w.son, {}, w.son[i + 1], x))
            && (InTree(W, w.son, {}, w.son[i], x) ==> LeP(data, W, L, x, w.c))
            && (InTree(W, w.son, {}, w.son[i + 1], x) ==> LeP(data, W, L, w.c, x))
  {
    hide InTree, Bounded, Open, Candidate, Side, Top, Below, Above;
    var c, i, open := w.c, Pair(W, w.c), {w.ptr0, w.ptr1};
    BoundedAt(W, p, w.son, c);
    TreeDown(W, w.son, c, x, i, i + 1);
    OpenAt(data, W, p, L, w.son, D, open, c);
    NotOpen(W, p, w, o0, o1, c);
    if InTree(W, w.son, {}, w.son[i], x) {
      SideIn(data, W, p, L, w, D, o0, o1, w.son[i], x);
      BelowAt(data, W, L, D[w.son[i]], c, x);
    }
    if InTree(W, w.son, {}, w.son[i + 1], x) {
      SideIn(data, W, p, L, w, D, o0, o1, w.son[i + 1], x);
      AboveAt(data, W, L, D[w.son[i + 1]], c, x);
    }
  }

  lemma SideIn(data: seq<bv8>, W: nat, p: nat, L: nat, w: Walk, D: seq<set<nat>>, o0: nat, o1: nat, l: nat, x: nat)
    requires WalkTree(data, W, p, L, w, D, o0, o1) && Live(W, p, w.c) && Live(W, p, x) && l < w.c
    requires InTree(W, w.son, {}, l, x)
    ensures Live(W, p, l) && l < |D| && x in D[l]
  {
    hide InTree, Bounded, Open, Candidate, Side, Top, Pair;
    TreeBounds(W, w.son, {}, l, x);
    BelowAvoids(W, p, w.son, {}, l, x, o0, w.ptr0);
    BelowAvoids(W, p, w.son, {} + {w.ptr0}, l, x, o1, w.ptr1);
    assert {} + {w.ptr0} + {w.ptr1} == {w.ptr0, w.ptr1};
    InSet(data, W, p, L, w.son, D, {w.ptr0, w.ptr1}, l, x);
  }

  /** A walk that is not cut off reports a match as long as any in its tree. */
  lemma {:induction false} FoundLongest(data: seq<bv8>, W: nat, p: nat, L: nat, w: Walk, D: seq<set<nat>>, o0: nat,
                                        o1: nat, maxLen: nat, x: nat, n: nat)
    requires WalkTree(data, W, p, L, w, D, o0, o1) && WalkOk(data, W, p, L, w) && Exhausts(data, W, p, L, w)
    requires Live(W, p, x) && InTree(W, w.son, {}, w.c, x) && SameP(data, W, x, p, n) && n <= L
    ensures n <= Best(Found(data, W, p, L, w, maxLen), maxLen)
    decreases w.cut
  {
    hide WalkTree, InTree, Advance, Finish, Insert, Found, SameP, AgreeLen, Smaller, Best, TrueMatches;
    TreeBounds(W, w.son, {}, w.c, x);
    WalkTreeWalks(data, W, p, L, w, D, o0, o1);
    WalkingOlder(data, W, p, L, w, o0, o1);
    CandidateLive(data, W, p, L, w, o0, o1, x);
    var len := AgreeLen(data, W, p, L, w);
    WalkUnfold(data, W, p, L, w, maxLen);
    if len == L {
      BestOne((len, p - w.c - 1), maxLen);
    } else {
      PassedBy(data, W, p, L, w, D, o0, o1, x, n);
      var w' := Advance(data, W, p, L, w);
      var D', o0', o1' := WalkTreeOn(data, W, p, L, w, D, o0, o1);
      var max' := if maxLen < len then len else maxLen;
      var rest := Found(data, W, p, L, w', max');
      FoundTrue(data, W, p, L, w', D', o0', o1', max');
      BestGrows(data, W, p, L, rest, max');
      if n > len { FoundLongest(data, W, p, L, w', D', o0', o1', max', x, n); }
      BestNext((len, p - w.c - 1), rest, maxLen);
      assert [] + rest == rest;
    }
  }

  lemma BestOne(m: (nat, nat), maxLen: nat)
    ensures Best([m], maxLen) == m.0 && Best([], maxLen) == maxLen
  {
  }

  lemma CandidateLive(data: seq<bv8>, W: nat, p: nat, L: nat, w: Walk, o0: nat, o1: nat, x: nat)
    requires Walking(data, W, p, L, w, o0, o1) && Live(W, p, x) && x <= w.c
    ensures Live(W, p, w.c)
  {
  }
}
