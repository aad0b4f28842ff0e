/** With a budget of at least the window, the match finder misses nothing of four bytes or more: in every state
    of a run the last match reported is as long as any with a position of the window. */
module Bt4Complete {
  import opened MatchFinder
  import opened MatchTree
  import opened MatchComplete
  import opened Bt4

  /** Everything in the tree of a bucket has its hash. */
  ghost predicate Hashed(g: Config, s: Finder)
  {
    forall h, x: nat :: Live(g.W, s.pos, x) && InTree(g.W, s.son, {}, Head(s.hash4, h), x) ==>
      x - g.W + 3 < |g.data| && Hash4(g, x - g.W) == h
  }

  /** The position is in its tree, or a later one is that agrees with it as far as bytes are compared. */
  ghost predicate Covered(g: Config, s: Finder, q: nat)
  {
    && g.W <= q && q - g.W + 3 < |g.data| && g.W <= s.pos <= g.W + |g.data|
    && exists r :: CoveredBy(g, s, q, r)
  }

  ghost predicate CoveredBy(g: Config, s: Finder, q: nat, r: nat)
    requires g.W <= q && q - g.W + 3 < |g.data| && g.W <= s.pos <= g.W + |g.data|
  {
    && q <= r && Live(g.W, s.pos, r) && InTree(g.W, s.son, {}, Head(s.hash4, Hash4(g, q - g.W)), r)
    && SameP(g.data, g.W, q, r, LenLimit(g, s.pos))
  }

  ghost predicate AllCovered(g: Config, s: Finder) { forall q: nat :: Live(g.W, s.pos, q) ==> Covered(g, s, q) }

  /** What a run keeps beyond the order of the forest: nothing of the window is missing from it. */
  ghost predicate CompleteOk(g: Config, s: Finder)
  {
    && FinderOk(g, s) && (LenLimit(g, s.pos) >= 4 ==> Hashed(g, s) && AllCovered(g, s))
  }

  // ------------------------------------------------------------ one step

  lemma StartHeld(W: nat, p: nat, son: seq<nat>, head: nat, cut: nat)
    requires 0 < W <= p && |son| == 2 * W
    ensures Spine(W, p, StartWalk(W, p, son, head, cut), p, p)
    ensures forall x :: Held(W, p, StartWalk(W, p, son, head, cut), x) <==> x == p || InTree(W, son, {}, head, x)
  {
    hide Pair;
    var w := StartWalk(W, p, son, head, cut);
    forall x ensures InTree(W, son, {w.ptr1, w.ptr0}, p, x) <==> x == p { }
  }

  /** The walk of a position, with what is known at its start. */
  lemma WalkStarts(g: Config, s: Finder) returns (D: seq<set<nat>>)
    requires FinderOk(g, s) && LenLimit(g, s.pos) >= 4
    ensures var w := WalkAt(g, s);
            && WalkTree(g.data, g.W, s.pos, LenLimit(g, s.pos), w, D, s.pos, s.pos)
            && Spine(g.W, s.pos, w, s.pos, s.pos) && s.pos - g.W + 3 < |g.data|
            && forall x :: Held(g.W, s.pos, w, x)
                 <==> x == s.pos || InTree(g.W, s.son, {}, Head(s.hash4, Hash4(g, s.pos - g.W)), x)
    ensures g.cut >= g.W ==> Exhausts(g.data, g.W, s.pos, LenLimit(g, s.pos), WalkAt(g, s))
  {
    hide TreeInv, WalkTree, Spine, Held, InTree, Hash4, Exhausts;
    var L, head := LenLimit(g, s.pos), Head(s.hash4, Hash4(g, s.pos - g.W));
    var D0 :| TreeInv(g.data, g.W, s.pos, L, s.son, D0);
    HeadsOlder(g, s);
    StartTree(g.data, g.W, s.pos, L, s.son, D0, head, g.cut);
    D := D0 + [AllUpTo(g.W, s.pos)];
    StartHeld(g.W, s.pos, s.son, head, g.cut);
    WalkTreeWalks(g.data, g.W, s.pos, L, WalkAt(g, s), D, s.pos, s.pos);
    if g.cut >= g.W { BudgetSuffices(g.data, g.W, s.pos, L, WalkAt(g, s), s.pos, s.pos); }
  }

  /** The tree of another bucket has nothing in common with the one walked through. */
  lemma OtherBucket(g: Config, s: Finder, h: Bucket, x: nat)
    requires FinderOk(g, s) && LenLimit(g, s.pos) >= 4 && Hashed(g, s) && s.pos - g.W + 3 < |g.data|
    requires h != Hash4(g, s.pos - g.W) && Near0(g.W, s.pos, x)
    ensures InTree(g.W, Insert(g.data, g.W, s.pos, LenLimit(g, s.pos), WalkAt(g, s)), {}, Head(s.hash4, h), x)
       <==> InTree(g.W, s.son, {}, Head(s.hash4, h), x)
  {
    hide WalkTree, Spine, Held, InTree, Hash4, Insert, Exhausts, FinderOk;
    var D := WalkStarts(g, s);
    var w, d, L := WalkAt(g, s), Head(s.hash4, h), LenLimit(g, s.pos);
    BucketOlder(g, s, h);
    if d < x {
      NothingBelow(g.W, s.son, {}, d, x);
      NothingBelow(g.W, Insert(g.data, g.W, s.pos, L, w), {}, d, x);
    } else {
      forall y: nat | Near0(g.W, s.pos, y) && InTree(g.W, s.son, {}, d, y) ensures !Held(g.W, s.pos, w, y) {
        TreeBounds(g.W, s.son, {}, d, y);
        assert Live(g.W, s.pos, y);
        assert Hash4(g, y - g.W) == h;
        if InTree(g.W, s.son, {}, Head(s.hash4, Hash4(g, s.pos - g.W)), y) {
          assert false;
        }
      }
      InsertForeign(g.data, g.W, s.pos, L, w, D, s.pos, s.pos, d, x);
    }
  }

  lemma BucketOlder(g: Config, s: Finder, h: Bucket)
    requires FinderOk(g, s) && LenLimit(g, s.pos) >= 4
    ensures Older(g.W, s.pos, Head(s.hash4, h))
    ensures WalkAt(g, s).son == s.son
  {
    hide Hash2, Hash3, Hash4, Forest;
  }

  lemma OwnBucket(g: Config, s: Finder, x: nat)
    requires FinderOk(g, s) && LenLimit(g, s.pos) >= 4 && Near0(g.W, s.pos, x) && s.pos - g.W + 3 < |g.data|
    ensures var head, son' := Head(s.hash4, Hash4(g, s.pos - g.W)),
                              Insert(g.data, g.W, s.pos, LenLimit(g, s.pos), WalkAt(g, s));
            && (InTree(g.W, son', {}, s.pos, x) ==> x == s.pos || InTree(g.W, s.son, {}, head, x))
            && (g.cut >= g.W && InTree(g.W, s.son, {}, head, x) ==>
                  InTree(g.W, son', {}, s.pos, x)
                  || (x < s.pos && SameP(g.data, g.W, x, s.pos, LenLimit(g, s.pos))))
  {
    hide WalkTree, Spine, Held, InTree, Hash4, Insert, Exhausts, FinderOk, SameP;
    var D := WalkStarts(g, s);
    InsertHolds(g.data, g.W, s.pos, LenLimit(g, s.pos), WalkAt(g, s), D, s.pos, s.pos, x);
  }

  /** A position of the next window is the current one or in the current window. */
  lemma LiveBefore(W: nat, p: nat, x: nat)
    requires Live(W, p + 1, x)
    ensures Near0(W, p, x) && (x == p || Live(W, p, x))
  {
  }

  lemma StepFields(g: Config, s: Finder)
    requires FinderOk(g, s) && LenLimit(g, s.pos) >= 4
    ensures s.pos - g.W + 3 < |g.data| && s.pos < g.W + |g.data|
    ensures var h, s' := Hash4(g, s.pos - g.W), Step(g, s);
            && s'.pos == s.pos + 1 && s'.son == Insert(g.data, g.W, s.pos, LenLimit(g, s.pos), WalkAt(g, s))
            && Head(s'.hash4, h) == s.pos && forall k :: k != h ==> Head(s'.hash4, k) == Head(s.hash4, k)
  {
    hide Hash2, Hash3, Hash4, Insert, Forest;
  }

  lemma HashedStep(g: Config, s: Finder)
    requires FinderOk(g, s) && LenLimit(g, s.pos) >= 4 && Hashed(g, s)
    ensures s.pos < g.W + |g.data| && Hashed(g, Step(g, s))
  {
    hide InTree, Hash4, Insert, FinderOk, Step, WalkAt;
    StepFields(g, s);
    var s', here := Step(g, s), Hash4(g, s.pos - g.W);
    forall h, x: nat | Live(g.W, s'.pos, x) && InTree(g.W, s'.son, {}, Head(s'.hash4, h), x)
      ensures x - g.W + 3 < |g.data| && Hash4(g, x - g.W) == h
    {
      LiveBefore(g.W, s.pos, x);
      if h == here {
        OwnBucket(g, s, x);
      } else {
        OtherBucket(g, s, h, x);
        BucketOlder(g, s, h);
        TreeBounds(g.W, s.son, {}, Head(s.hash4, h), x);
      }
    }
  }

  lemma SamePJoin(data: seq<bv8>, W: nat, a: nat, b: nat, c: nat, n: nat, m: nat)
    requires SameP(data, W, a, b, n) && SameP(data, W, b, c, n) && m <= n
    ensures SameP(data, W, a, c, m)
  {
    SameShorter(data, a - W, b - W, n, m);
    SameShorter(data, b - W, c - W, n, m);
  }

  lemma SamePShorter(data: seq<bv8>, W: nat, a: nat, b: nat, n: nat, m: nat)
    requires SameP(data, W, a, b, n) && m <= n
    ensures SameP(data, W, a, b, m)
  {
    SameShorter(data, a - W, b - W, n, m);
  }

  /** What was covered still is, by the same position or by the one just inserted. */
  lemma CoveredStep(g: Config, s: Finder, q: nat)
    requires FinderOk(g, s) && LenLimit(g, s.pos) >= 4 && Hashed(g, s) && AllCovered(g, s) && g.cut >= g.W
    requires s.pos < g.W + |g.data| && Live(g.W, s.pos + 1, q)
    ensures Covered(g, Step(g, s), q)
  {
    hide InTree, Hash4, Insert, FinderOk, Step, WalkAt, SameP, Hashed;
    StepFields(g, s);
    LiveBefore(g.W, s.pos, q);
    var s', here, L := Step(g, s), Hash4(g, s.pos - g.W), LenLimit(g, s.pos);
    var L' := LenLimit(g, s'.pos);
    WindowPositive(g, s);
    SonSize(g, s);
    if q == s.pos {
      TreeSelf(g.W, s'.son, {}, q);
      SameWhole(g.data, g.W, q, L');
      assert CoveredBy(g, s', q, q);
    } else {
      assert Covered(g, s, q);
      var r :| CoveredBy(g, s, q, r);
      SamePShorter(g.data, g.W, q, r, L, L');
      if Hash4(g, q - g.W) == here {
        OwnBucket(g, s, r);
        if InTree(g.W, s'.son, {}, s.pos, r) {
          assert CoveredBy(g, s', q, r);
        } else {
          SamePJoin(g.data, g.W, q, r, s.pos, L, L');
          TreeSelf(g.W, s'.son, {}, s.pos);
          assert CoveredBy(g, s', q, s.pos);
        }
      } else {
        OtherBucket(g, s, Hash4(g, q - g.W), r);
        assert CoveredBy(g, s', q, r);
      }
    }
  }

  lemma WindowPositive(g: Config, s: Finder)
    requires FinderOk(g, s) && s.pos < g.W + |g.data|
    ensures 0 < g.W <= s.pos && LenLimit(g, s.pos + 1) <= LenLimit(g, s.pos)
    ensures s.pos + 1 - g.W + LenLimit(g, s.pos + 1) <= |g.data|
  {
  }

  lemma SonSize(g: Config, s: Finder)
    requires FinderOk(g, s) && LenLimit(g, s.pos) >= 4
    ensures |Insert(g.data, g.W, s.pos, LenLimit(g, s.pos), WalkAt(g, s))| == 2 * g.W
  {
  }

  /** Every step keeps the trees complete. */
  lemma CompleteStep(g: Config, s: Finder)
    requires CompleteOk(g, s) && s.pos < g.W + |g.data| && g.cut >= g.W
    ensures CompleteOk(g, Step(g, s))
  {
    hide Hashed, Covered, FinderOk, Step, Hash4, InTree, Insert;
    StepOk(g, s);
    StepPos(g, s);
    WindowPositive(g, s);
    if LenLimit(g, s.pos + 1) >= 4 {
      HashedStep(g, s);
      forall q | Live(g.W, s.pos + 1, q) ensures Covered(g, Step(g, s), q) { CoveredStep(g, s, q); }
    }
  }

  /** A run from the start, whatever the son array held. */
  lemma {:induction false} RunComplete(g: Config, s: Finder, n: nat)
    requires CompleteOk(g, s) && s.pos + n <= g.W + |g.data| && g.cut >= g.W
    ensures CompleteOk(g, Steps(g, s, n))
    decreases n
  {
    hide Hashed, AllCovered, Step, FinderOk;
    if n > 0 {
      CompleteStep(g, s);
      StepPos(g, s);
      RunComplete(g, Step(g, s), n - 1);
    }
  }

  lemma CompleteFinder(g: Config, s: Finder)
    requires CompleteOk(g, s)
    ensures FinderOk(g, s)
  {
  }

  lemma StartComplete(g: Config, son: seq<nat>)
    requires g.W > 0 && |son| == 2 * g.W
    ensures CompleteOk(g, Finder(g.W, son, map[], map[], map[]))
  {
    hide InTree;
    ForestStart(g.data, g.W, LenLimit(g, g.W), son);
  }

  // ------------------------------------------------------------ the short hashes

  /** The two- and three-byte buckets hold the latest position with their hash. */
  ghost predicate Latest(g: Config, s: Finder)
  {
    forall q: nat :: g.W <= q < s.pos && q - g.W + 3 < |g.data| ==> NotAfterHeads(g, s, q)
  }

  ghost predicate NotAfterHeads(g: Config, s: Finder, q: nat)
    requires g.W <= q && q - g.W + 3 < |g.data|
  {
    q <= Head(s.hash2, Hash2(g, q - g.W)) && q <= Head(s.hash3, Hash3(g, q - g.W))
  }

  lemma LatestStep(g: Config, s: Finder)
    requires FinderOk(g, s) && s.pos < g.W + |g.data| && LenLimit(g, s.pos) >= 4 && Latest(g, s)
    ensures Latest(g, Step(g, s))
  {
    hide Hash2, Hash3, Hash4, Insert, FinderOk;
    FinderPos(g, s);
    var s' := Step(g, s);
    forall q: nat | g.W <= q < s'.pos && q - g.W + 3 < |g.data| ensures NotAfterHeads(g, s', q) {
      if q < s.pos { assert NotAfterHeads(g, s, q); }
    }
  }

  /** In every state of a run in which positions are still put into the buckets. */
  lemma {:induction false} RunLatest(g: Config, s: Finder, n: nat)
    requires FinderOk(g, s) && s.pos + n <= g.W + |g.data| && Latest(g, s) && LenLimit(g, s.pos + n) >= 4
    ensures Latest(g, Steps(g, s, n))
    decreases n
  {
    hide Latest, Step, FinderOk;
    FinderPos(g, s);
    if n > 0 {
      LatestStep(g, s);
      StepOk(g, s);
      StepPos(g, s);
      RunLatest(g, Step(g, s), n - 1);
    }
  }

  // ------------------------------------------------------------ the longest match

  lemma FourBytes(g: Config, i: nat, j: nat, n: nat)
    requires i + n <= |g.data| && j + n <= |g.data| && Same(g.data, i, j, n) && n >= 4
    ensures Hash4(g, i) == Hash4(g, j)
  {
    hide Same, Mix4;
    SameAt(g.data, i, j, n, 0);
    SameAt(g.data, i, j, n, 1);
    SameAt(g.data, i, j, n, 2);
    SameAt(g.data, i, j, n, 3);
  }

  /** Whatever position of the window shares four bytes or more with the current one, a match at least as long
      is the last to be reported. */
  lemma LongestReported(g: Config, s: Finder, q: nat, n: nat)
    requires CompleteOk(g, s) && s.pos < g.W + |g.data| && g.cut >= g.W
    requires Live(g.W, s.pos, q) && 4 <= n <= LenLimit(g, s.pos) && SameP(g.data, g.W, q, s.pos, n)
    ensures var ms := Reported(g, s); ms != [] && n <= ms[|ms| - 1].0
  {
    hide InTree, Hash4, Found, FinderOk, Hashed, WalkTree, Spine, Held, Exhausts, Short, Same;
    var L, short, w := LenLimit(g, s.pos), ShortAt(g, s), WalkAt(g, s);
    assert Covered(g, s, q);
    var r :| CoveredBy(g, s, q, r);
    FourBytes(g, q - g.W, s.pos - g.W, n);
    SamePBack(g.data, g.W, q, r, s.pos, L, n);
    var D := WalkStarts(g, s);
    BucketOlder(g, s, Hash4(g, s.pos - g.W));
    WalkHead(g, s);
    FoundLongest(g.data, g.W, s.pos, L, w, D, s.pos, s.pos, Longest(short), r, n);
    BestOfBoth(short, Found(g.data, g.W, s.pos, L, w, Longest(short)), n);
  }

  lemma WalkHead(g: Config, s: Finder)
    requires FinderOk(g, s) && LenLimit(g, s.pos) >= 4
    ensures s.pos - g.W + 3 < |g.data| && WalkAt(g, s).c == Head(s.hash4, Hash4(g, s.pos - g.W))
  {
    hide Hash4, Forest;
  }

  lemma SamePBack(data: seq<bv8>, W: nat, q: nat, r: nat, p: nat, n: nat, m: nat)
    requires SameP(data, W, q, r, n) && SameP(data, W, q, p, m) && m <= n
    ensures SameP(data, W, r, p, m)
  {
    SameShorter(data, q - W, r - W, n, m);
  }

  lemma BestOfBoth(short: seq<(nat, nat)>, found: seq<(nat, nat)>, n: nat)
    requires n >= 4 && n <= Best(found, Longest(short))
    ensures short + found != [] && n <= (short + found)[|short + found| - 1].0
  {
  }

  /** So it is in every state of a run. */
  lemma LongestInRun(g: Config, son: seq<nat>, k: nat, q: nat, n: nat)
    requires 0 < g.W <= g.cut && |son| == 2 * g.W && k < |g.data|
    requires Live(g.W, g.W + k, q) && 4 <= n <= LenLimit(g, g.W + k) && SameP(g.data, g.W, q, g.W + k, n)
    ensures FinderOk(g, Finder(g.W, son, map[], map[], map[]))
    ensures var ms := Reported(g, Steps(g, Finder(g.W, son, map[], map[], map[]), k));
            ms != [] && n <= ms[|ms| - 1].0
  {
    hide CompleteOk, FinderOk, Reported, SameP, Steps;
    var s := Finder(g.W, son, map[], map[], map[]);
    StartComplete(g, son);
    CompleteFinder(g, s);
    RunComplete(g, s, k);
    CompleteFinder(g, Steps(g, s, k));
    LongestReported(g, Steps(g, s, k), q, n);
  }
}
