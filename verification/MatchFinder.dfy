/** The binary-tree match finder. Positions count from cyclicBufferSize on, so that 0
    is never inside the window; position q is the byte data[q - cyclicBufferSize].

    The son array holds, for each position of the window, the roots of the smaller and
    the larger suffixes below it. Searching a position and inserting it are one walk. */
module MatchFinder {
  import opened Arithmetic

  // ------------------------------------------------------- comparing suffixes

  /** The first L bytes at a are lexicographically at most those at b. */
  ghost predicate Le(data: seq<bv8>, a: nat, b: nat, L: nat)
    requires a + L <= |data| && b + L <= |data|
    decreases L
  {
    L == 0 || data[a] < data[b] || (data[a] == data[b] && Le(data, a + 1, b + 1, L - 1))
  }

  /** The first L bytes at a and at b are the same. */
  ghost predicate Same(data: seq<bv8>, a: nat, b: nat, L: nat)
    requires a + L <= |data| && b + L <= |data|
  {
    data[a..a + L] == data[b..b + L]
  }

  lemma {:induction false} LeTrans(data: seq<bv8>, a: nat, b: nat, c: nat, L: nat)
    requires a + L <= |data| && b + L <= |data| && c + L <= |data| && Le(data, a, b, L) && Le(data, b, c, L)
    ensures Le(data, a, c, L)
    decreases L
  {
    if L > 0 && data[a] == data[b] == data[c] { LeTrans(data, a + 1, b + 1, c + 1, L - 1); }
  }

  lemma {:induction false} LeShorter(data: seq<bv8>, a: nat, b: nat, L: nat, M: nat)
    requires a + L <= |data| && b + L <= |data| && M <= L && Le(data, a, b, L)
    ensures Le(data, a, b, M)
    decreases L
  {
    if M > 0 && data[a] == data[b] { LeShorter(data, a + 1, b + 1, L - 1, M - 1); }
  }

  lemma SameAt(data: seq<bv8>, a: nat, b: nat, n: nat, k: nat)
    requires a + n <= |data| && b + n <= |data| && Same(data, a, b, n) && k < n
    ensures data[a + k] == data[b + k]
  {
    assert data[a..a + n][k] == data[b..b + n][k];
  }

  lemma SameCons(data: seq<bv8>, a: nat, b: nat, L: nat)
    requires a + L <= |data| && b + L <= |data| && L > 0
    ensures Same(data, a, b, L) <==> data[a] == data[b] && Same(data, a + 1, b + 1, L - 1)
  {
    var s, t := data[a..a + L], data[b..b + L];
    assert s == [data[a]] + data[a + 1..a + L] && t == [data[b]] + data[b + 1..b + L];
    assert s[0] == data[a] && t[0] == data[b] && s[1..] == data[a + 1..a + L] && t[1..] == data[b + 1..b + L];
  }

  lemma SameSnoc(data: seq<bv8>, a: nat, b: nat, L: nat)
    requires a + L < |data| && b + L < |data|
    ensures Same(data, a, b, L + 1) <==> Same(data, a, b, L) && data[a + L] == data[b + L]
  {
    var s, t := data[a..a + L + 1], data[b..b + L + 1];
    assert s == data[a..a + L] + [data[a + L]] && t == data[b..b + L] + [data[b + L]];
    assert s[..L] == data[a..a + L] && t[..L] == data[b..b + L] && s[L] == data[a + L] && t[L] == data[b + L];
  }

  lemma {:induction false} SameLe(data: seq<bv8>, a: nat, b: nat, L: nat)
    requires a + L <= |data| && b + L <= |data| && Same(data, a, b, L)
    ensures Le(data, a, b, L) && Le(data, b, a, L)
    decreases L
  {
    if L > 0 {
      SameCons(data, a, b, L);
      SameLe(data, a + 1, b + 1, L - 1);
    }
  }

  /** The first difference decides. */
  lemma {:induction false} MismatchLe(data: seq<bv8>, a: nat, b: nat, L: nat, k: nat)
    requires a + L <= |data| && b + L <= |data| && k < L && Same(data, a, b, k) && data[a + k] < data[b + k]
    ensures Le(data, a, b, L)
    decreases L
  {
    if k > 0 {
      SameCons(data, a, b, k);
      MismatchLe(data, a + 1, b + 1, L - 1, k - 1);
    }
  }

  /** What lies between two suffixes with a common prefix shares that prefix: this
      justifies starting each comparison at min(len0, len1). */
  lemma {:induction false} Between(data: seq<bv8>, lo: nat, x: nat, hi: nat, L: nat, m: nat)
    requires lo + L <= |data| && x + L <= |data| && hi + L <= |data| && m <= L
    requires Le(data, lo, x, L) && Le(data, x, hi, L) && Same(data, lo, hi, m)
    ensures Same(data, x, lo, m)
    decreases m
  {
    if m > 0 {
      SameCons(data, lo, hi, m);
      assert data[x] == data[lo];
      Between(data, lo + 1, x + 1, hi + 1, L - 1, m - 1);
      SameCons(data, x, lo, m);
    }
  }

  /** The length of the common prefix, counted from `len` up to `limit`. */
  function Extend(data: seq<bv8>, a: nat, b: nat, len: nat, limit: nat): (r: nat)
    requires len <= limit && a + limit <= |data| && b + limit <= |data|
    ensures len <= r <= limit
    ensures Same(data, a, b, len) ==> Same(data, a, b, r)
    ensures r < limit ==> data[a + r] != data[b + r]
    decreases limit - len
  {
    if len < limit && data[a + len] == data[b + len] then
      SameSnoc(data, a, b, len);
      Extend(data, a, b, len + 1, limit)
    else len
  }

  // ------------------------------------------------------------ the walk

  /** A position of the window that the walk at p may visit. */
  predicate Live(W: nat, p: nat, c: nat) { W <= c < p && p - c < W }

  /** Where the son array keeps a position's two links. */
  function Pair(W: nat, q: nat): (r: nat)
    requires W > 0
    ensures r + 1 < 2 * W
  {
    q % W * 2
  }

  /** A walk in progress: candidate c is next; `ptr1` waits for smaller suffixes and
      `ptr0` for larger ones, which are known to share len1 and len0 bytes with p. */
  datatype Walk = Walk(son: seq<nat>, ptr0: nat, ptr1: nat, c: nat, len0: nat, len1: nat, cut: nat)

  ghost predicate WalkOk(data: seq<bv8>, W: nat, p: nat, L: nat, w: Walk)
  {
    && 0 < W <= p && p - W + L <= |data| && |w.son| == 2 * W
    && w.ptr0 < 2 * W && w.ptr1 < 2 * W && w.len0 <= L && w.len1 <= L
  }

  /** How far the candidate agrees with p, looking only from the shorter known prefix on. */
  function AgreeLen(data: seq<bv8>, W: nat, p: nat, L: nat, w: Walk): (len: nat)
    requires WalkOk(data, W, p, L, w) && Live(W, p, w.c)
    ensures len <= L
  {
    Extend(data, w.c - W, p - W, if w.len0 < w.len1 then w.len0 else w.len1, L)
  }

  /** It looks as far as the candidate agrees: at the end the two differ, or the limit is reached. */
  lemma AgreeEnds(data: seq<bv8>, W: nat, p: nat, L: nat, w: Walk)
    requires WalkOk(data, W, p, L, w) && Live(W, p, w.c)
    ensures var len := AgreeLen(data, W, p, L, w); len < L ==> data[w.c - W + len] != data[p - W + len]
  {
    hide Extend, Same;
  }

  /** The walk ends here: out of budget, out of the window, or an equal suffix. */
  ghost predicate Stops(data: seq<bv8>, W: nat, p: nat, L: nat, w: Walk)
    requires WalkOk(data, W, p, L, w)
  {
    w.cut == 0 || !Live(W, p, w.c) || AgreeLen(data, W, p, L, w) == L
  }

  /** The son array that an ending walk leaves: nothing below p, or the equal suffix's children. */
  ghost function Finish(W: nat, p: nat, w: Walk): (r: seq<nat>)
    requires 0 < W && |w.son| == 2 * W && w.ptr0 < 2 * W && w.ptr1 < 2 * W
    ensures |r| == 2 * W
  {
    if w.cut == 0 || !Live(W, p, w.c) then SetAt(SetAt(w.son, w.ptr1, 0), w.ptr0, 0) else
      var son' := SetAt(w.son, w.ptr1, w.son[Pair(W, w.c)]);
      SetAt(son', w.ptr0, son'[Pair(W, w.c) + 1])
  }

  function SetAt(s: seq<nat>, i: nat, v: nat): (r: seq<nat>)
    requires i < |s|
    ensures |r| == |s|
  {
    s[i := v]
  }

  /** The candidate's suffix is smaller than p's. */
  predicate Smaller(data: seq<bv8>, W: nat, p: nat, w: Walk, len: nat)
    requires Live(W, p, w.c) && p - W + len < |data|
  {
    data[w.c - W + len] < data[p - W + len]
  }

  /** One round: the candidate is hung below the side it belongs to. */
  ghost function Advance(data: seq<bv8>, W: nat, p: nat, L: nat, w: Walk): (r: Walk)
    requires WalkOk(data, W, p, L, w) && !Stops(data, W, p, L, w)
    ensures WalkOk(data, W, p, L, r) && r.cut == w.cut - 1
  {
    var pair, len := Pair(W, w.c), AgreeLen(data, W, p, L, w);
    if Smaller(data, W, p, w, len) then
      var son' := SetAt(w.son, w.ptr1, w.c);
      w.(son := son', ptr1 := pair + 1, c := son'[pair + 1], len1 := len, cut := w.cut - 1)
    else
      var son' := SetAt(w.son, w.ptr0, w.c);
      w.(son := son', ptr0 := pair, c := son'[pair], len0 := len, cut := w.cut - 1)
  }

  /** The son array after the whole walk. */
  ghost function Insert(data: seq<bv8>, W: nat, p: nat, L: nat, w: Walk): (r: seq<nat>)
    requires WalkOk(data, W, p, L, w)
    ensures |r| == 2 * W
    decreases w.cut
  {
    if Stops(data, W, p, L, w) then Finish(W, p, w) else Insert(data, W, p, L, Advance(data, W, p, L, w))
  }

  /** The matches reported along the walk, as (length, distance) beyond maxLen. */
  ghost function Found(data: seq<bv8>, W: nat, p: nat, L: nat, w: Walk, maxLen: nat): seq<(nat, nat)>
    requires WalkOk(data, W, p, L, w)
    decreases w.cut
  {
    if w.cut == 0 || !Live(W, p, w.c) then [] else
      var len := AgreeLen(data, W, p, L, w);
      var here := if maxLen < len then [(len, p - w.c - 1)] else [];
      if len == L then here
      else here + Found(data, W, p, L, Advance(data, W, p, L, w), if maxLen < len then len else maxLen)
  }

  /** Where the walk at p starts: below the head of its hash chain. */
  function StartWalk(W: nat, p: nat, son: seq<nat>, head: nat, cut: nat): Walk
    requires W > 0
  {
    Walk(son, Pair(W, p) + 1, Pair(W, p), head, 0, 0, cut)
  }

  /** The source's cyclic index of a position delta bytes back is its residue. */
  lemma CyclicIndex(W: nat, p: nat, delta: nat)
    requires 0 < delta < W <= p
    ensures p % W - delta + (if delta > p % W then W else 0) == (p - delta) % W
  {
    var k, r := p / W, p % W;
    assert p == k * W + r;
    if delta <= r {
      ModUnique(p - delta, W, k, r - delta);
    } else {
      assert (k - 1) * W == k * W - W;
      ModUnique(p - delta, W, k - 1, r - delta + W);
    }
  }

  /** cyclicBufferPos is the slot of the current position. */
  ghost predicate CyclicAt(W: nat, p: nat, cyclicPos: nat) { W > 0 && cyclicPos == p % W }

  lemma CyclicPair(W: nat, p: nat, c: nat, cyclicPos: nat)
    requires Live(W, p, c) && CyclicAt(W, p, cyclicPos)
    ensures (cyclicPos - (p - c) + (if p - c > cyclicPos then W else 0)) * 2 == Pair(W, c)
  {
    CyclicIndex(W, p, p - c);
  }

  lemma OwnPair(W: nat, p: nat, cyclicPos: nat)
    requires CyclicAt(W, p, cyclicPos)
    ensures W > 0 && Pair(W, p) == cyclicPos * 2
  {
  }

  /** Positions less than a window apart have different slots. */
  lemma SlotsDiffer(W: nat, a: nat, b: nat)
    requires 0 < W && a < b && b - a < W
    ensures a % W != b % W
  {
    if a % W == b % W {
      var i, j := a / W, b / W;
      assert a == i * W + a % W && b == j * W + b % W;
      MulDiff(j, i, W);
      MulDiff(i, j, W);
      if j > i { MulGe(j - i, W); }
      if i > j { MulGe(i - j, W); }
    }
  }

  /** Links of the window lead to older positions or nowhere. */
  ghost predicate Bounded(W: nat, p: nat, son: seq<nat>)
  {
    && 0 < W <= p && |son| == 2 * W
    && forall q: nat :: Live(W, p, q) ==> LinksBelow(W, son, q)
  }

  ghost predicate LinksBelow(W: nat, son: seq<nat>, q: nat)
    requires W > 0 && |son| == 2 * W
  {
    var l, r := son[Pair(W, q)], son[Pair(W, q) + 1];
    (l == 0 || W <= l < q) && (r == 0 || W <= r < q)
  }

  /** The slot ptr belongs to `owner`, a node of the window or p itself. */
  ghost predicate Owns(W: nat, p: nat, owner: nat, ptr: nat)
  {
    0 < W && (owner == p || Live(W, p, owner)) && (ptr == Pair(W, owner) || ptr == Pair(W, owner) + 1)
  }

  lemma BoundedSet(W: nat, p: nat, son: seq<nat>, owner: nat, ptr: nat, c: nat)
    requires Bounded(W, p, son) && Owns(W, p, owner, ptr) && (c == 0 || W <= c < owner)
    ensures ptr < 2 * W && Bounded(W, p, SetAt(son, ptr, c))
  {
    forall q: nat | Live(W, p, q) ensures LinksBelow(W, SetAt(son, ptr, c), q) {
      assert LinksBelow(W, son, q);
      if q != owner { if q < owner { SlotsDiffer(W, q, owner); } else { SlotsDiffer(W, owner, q); } }
    }
  }

  lemma BoundedAt(W: nat, p: nat, son: seq<nat>, q: nat)
    requires Bounded(W, p, son) && Live(W, p, q)
    ensures LinksBelow(W, son, q)
  {
  }

  /** What a walk keeps: bounded links, and a candidate older than the owners of both slots. */
  ghost predicate Walking(data: seq<bv8>, W: nat, p: nat, L: nat, w: Walk, o0: nat, o1: nat)
  {
    && WalkOk(data, W, p, L, w) && Bounded(W, p, w.son)
    && Owns(W, p, o0, w.ptr0) && Owns(W, p, o1, w.ptr1)
    && (w.c == 0 || (W <= w.c < p && w.c < o0 && w.c < o1))
  }

  lemma WalkingOn(data: seq<bv8>, W: nat, p: nat, L: nat, w: Walk, o0: nat, o1: nat) returns (o0': nat, o1': nat)
    requires Walking(data, W, p, L, w, o0, o1) && !Stops(data, W, p, L, w)
    ensures Walking(data, W, p, L, Advance(data, W, p, L, w), o0', o1')
    ensures if Smaller(data, W, p, w, AgreeLen(data, W, p, L, w)) then o0' == o0 && o1' == w.c
            else o0' == w.c && o1' == o1
  {
    hide Bounded, AgreeLen, Smaller;
    o0', o1' := o0, o1;
    var len := AgreeLen(data, W, p, L, w);
    if Smaller(data, W, p, w, len) {
      BoundedSet(W, p, w.son, o1, w.ptr1, w.c);
      o1' := w.c;
    } else {
      BoundedSet(W, p, w.son, o0, w.ptr0, w.c);
      o0' := w.c;
    }
    var r := Advance(data, W, p, L, w);
    BoundedAt(W, p, r.son, w.c);
    BoundedSize(W, p, r.son);
  }

  lemma BoundedSize(W: nat, p: nat, son: seq<nat>)
    requires Bounded(W, p, son)
    ensures 0 < W <= p && |son| == 2 * W
  {
  }

  /** The inner comparison loops: how far cur and the candidate agree. */
  method CommonLength(data: seq<bv8>, pb: nat, cur: nat, start: nat, lenLimit: nat) returns (len: nat)
    requires start <= lenLimit && pb + lenLimit <= |data| && cur + lenLimit <= |data|
    ensures len == Extend(data, pb, cur, start, lenLimit)
  {
    hide Extend, Same;
    len := start;
    while len != lenLimit && data[pb + len] == data[cur + len]
      invariant start <= len <= lenLimit &&
                Extend(data, pb, cur, len, lenLimit) == Extend(data, pb, cur, start, lenLimit)
    {
      ExtendOn(data, pb, cur, len, lenLimit);
      len := len + 1;
    }
    ExtendOn(data, pb, cur, len, lenLimit);
  }

  lemma ExtendOn(data: seq<bv8>, a: nat, b: nat, len: nat, limit: nat)
    requires len <= limit && a + limit <= |data| && b + limit <= |data|
    ensures Extend(data, a, b, len, limit)
         == if len < limit && data[a + len] == data[b + len] then Extend(data, a, b, len + 1, limit) else len
  {
    hide Same;
  }

  /** A write through a CLzRef pointer. */
  method Store(son: array<nat>, ptr: nat, v: nat)
    requires ptr < son.Length
    modifies son
    ensures son[..] == SetAt(old(son[..]), ptr, v)
  {
    son[ptr] := v;
  }

  /** The walk ends without an equal suffix. */
  method CloseEmpty(W: nat, p: nat, son: array<nat>, ptr0: nat, ptr1: nat, ghost w: Walk)
    requires 0 < W && son.Length == 2 * W && w.son == son[..] && w.ptr0 == ptr0 < 2 * W && w.ptr1 == ptr1 < 2 * W
    requires w.cut == 0 || !Live(W, p, w.c)
    modifies son
    ensures son[..] == Finish(W, p, w)
  {
    Store(son, ptr1, 0);
    Store(son, ptr0, 0);
  }

  /** The walk ends at an equal suffix, whose children p takes over. */
  method CloseEqual(W: nat, p: nat, son: array<nat>, ptr0: nat, ptr1: nat, pair: nat, ghost w: Walk)
    requires 0 < W && son.Length == 2 * W && w.son == son[..] && w.ptr0 == ptr0 < 2 * W && w.ptr1 == ptr1 < 2 * W
    requires w.cut > 0 && Live(W, p, w.c) && pair == Pair(W, w.c)
    modifies son
    ensures son[..] == Finish(W, p, w)
  {
    Store(son, ptr1, son[pair]);
    Store(son, ptr0, son[pair + 1]);
  }

  /** The end of a round: the candidate goes below the side it belongs to. */
  method Hang(data: seq<bv8>, L: nat, W: nat, p: nat, son: array<nat>, pair: nat, len: nat,
              c: nat, ptr0: nat, ptr1: nat, len0: nat, len1: nat, ghost w: Walk)
    returns (c': nat, ptr0': nat, ptr1': nat, len0': nat, len1': nat)
    requires WalkOk(data, W, p, L, w) && !Stops(data, W, p, L, w)
    requires w == Walk(son[..], ptr0, ptr1, c, len0, len1, w.cut)
    requires pair == Pair(W, c) && len == AgreeLen(data, W, p, L, w)
    modifies son
    ensures Advance(data, W, p, L, w) == Walk(son[..], ptr0', ptr1', c', len0', len1', w.cut - 1)
    ensures if Smaller(data, W, p, w, len) then len1' == len && len0' == len0 else len0' == len && len1' == len1
  {
    hide Extend, Advance, SetAt;
    AdvanceIs(data, W, p, L, w);
    c', ptr0', ptr1', len0', len1' := c, ptr0, ptr1, len0, len1;
    if data[c - W + len] < data[p - W + len] {
      Store(son, ptr1, c);
      ptr1' := pair + 1;
      c' := son[ptr1'];
      len1' := len;
    } else {
      Store(son, ptr0, c);
      ptr0' := pair;
      c' := son[ptr0'];
      len0' := len;
    }
  }

  /** The source's pair pointer and candidate comparison, for one round. */
  method Compare(data: seq<bv8>, L: nat, W: nat, p: nat, cyclicPos: nat, c: nat, len0: nat, len1: nat, ghost w: Walk)
    returns (pair: nat, len: nat)
    requires WalkOk(data, W, p, L, w) && Live(W, p, c) && CyclicAt(W, p, cyclicPos)
    requires w.c == c && w.len0 == len0 && w.len1 == len1
    ensures pair == Pair(W, c) && len == AgreeLen(data, W, p, L, w)
  {
    hide Extend, Pair, CyclicAt, AgreeLen;
    var delta := p - c;
    CyclicPair(W, p, c, cyclicPos);
    AgreeIs(data, W, p, L, w);
    pair := (cyclicPos - delta + (if delta > cyclicPos then W else 0)) * 2;
    len := CommonLength(data, c - W, p - W, if len0 < len1 then len0 else len1, L);
  }

  lemma AgreeIs(data: seq<bv8>, W: nat, p: nat, L: nat, w: Walk)
    requires WalkOk(data, W, p, L, w) && Live(W, p, w.c)
    ensures w.c - W + L <= |data| && p - W + L <= |data| && w.len0 <= L && w.len1 <= L
    ensures AgreeLen(data, W, p, L, w)
         == Extend(data, w.c - W, p - W, if w.len0 < w.len1 then w.len0 else w.len1, L)
  {
    hide Extend;
  }

  /** GetMatchesSpec1: inserts pos and reports ever longer matches on the way. */
  method GetMatchesSpec1(data: seq<bv8>, lenLimit: nat, curMatch: nat, pos: nat, son: array<nat>,
                         cyclicBufferPos: nat, cyclicBufferSize: nat, cutValue: nat, maxLen: nat)
    returns (distances: seq<(nat, nat)>)
    requires 0 < cyclicBufferSize <= pos && CyclicAt(cyclicBufferSize, pos, cyclicBufferPos)
    requires pos - cyclicBufferSize + lenLimit <= |data| && maxLen < lenLimit
    requires Bounded(cyclicBufferSize, pos, son[..]) && (curMatch == 0 || cyclicBufferSize <= curMatch < pos)
    modifies son
    ensures var w := StartWalk(cyclicBufferSize, pos, old(son[..]), curMatch, cutValue);
            && WalkOk(data, cyclicBufferSize, pos, lenLimit, w)
            && son[..] == Insert(data, cyclicBufferSize, pos, lenLimit, w)
            && distances == Found(data, cyclicBufferSize, pos, lenLimit, w, maxLen)
  {
    hide Bounded, Insert, Found, Owns, Advance, Extend, SetAt, Pair, CyclicAt, Finish, AgreeLen, Smaller;
    var W, cut, max := cyclicBufferSize, cutValue, maxLen;
    StartWalking(data, W, pos, lenLimit, son[..], curMatch, cut, cyclicBufferPos);
    ghost var w, o0, o1 := StartWalk(W, pos, son[..], curMatch, cut), pos, pos;
    ghost var r, f := Insert(data, W, pos, lenLimit, w), Found(data, W, pos, lenLimit, w, max);
    var ptr0: nat, ptr1: nat, len0: nat, len1: nat, c := cyclicBufferPos * 2 + 1, cyclicBufferPos * 2, 0, 0, curMatch;
    distances := [];
    while true
      invariant w == Walk(son[..], ptr0, ptr1, c, len0, len1, cut) && Walking(data, W, pos, lenLimit, w, o0, o1)
      invariant len0 <= max < lenLimit && len1 <= max
      invariant r == Insert(data, W, pos, lenLimit, w) && f == distances + Found(data, W, pos, lenLimit, w, max)
      decreases cut
    {
      WalkUnfold(data, W, pos, lenLimit, w, max);
      if cut == 0 || pos - c >= W {
        CloseEmpty(W, pos, son, ptr0, ptr1, w);
        return;
      }
      var pair, len := Compare(data, lenLimit, W, pos, cyclicBufferPos, c, len0, len1, w);
      FoundOn(data, W, pos, lenLimit, w, max, distances);
      if max < len {
        max := len;
        distances := distances + [(len, pos - c - 1)];
        if len == lenLimit {
          CloseEqual(W, pos, son, ptr0, ptr1, pair, w);
          return;
        }
      }
      o0, o1 := WalkingOn(data, W, pos, lenLimit, w, o0, o1);
      ghost var w' := Advance(data, W, pos, lenLimit, w);
      c, ptr0, ptr1, len0, len1 := Hang(data, lenLimit, W, pos, son, pair, len, c, ptr0, ptr1, len0, len1, w);
      cut, w := cut - 1, w';
    }
  }

  /** SkipMatchesSpec: the same insertion, with nothing to report. */
  method SkipMatchesSpec(data: seq<bv8>, lenLimit: nat, curMatch: nat, pos: nat, son: array<nat>,
                         cyclicBufferPos: nat, cyclicBufferSize: nat, cutValue: nat)
    requires 0 < cyclicBufferSize <= pos && CyclicAt(cyclicBufferSize, pos, cyclicBufferPos)
    requires pos - cyclicBufferSize + lenLimit <= |data| && 0 < lenLimit
    requires Bounded(cyclicBufferSize, pos, son[..]) && (curMatch == 0 || cyclicBufferSize <= curMatch < pos)
    modifies son
    ensures var w := StartWalk(cyclicBufferSize, pos, old(son[..]), curMatch, cutValue);
            && WalkOk(data, cyclicBufferSize, pos, lenLimit, w)
            && son[..] == Insert(data, cyclicBufferSize, pos, lenLimit, w)
  {
    hide Bounded, Insert, Found, Owns, Advance, Extend, SetAt, Pair, CyclicAt, Finish, AgreeLen, Smaller;
    var W, cut := cyclicBufferSize, cutValue;
    StartWalking(data, W, pos, lenLimit, son[..], curMatch, cut, cyclicBufferPos);
    ghost var w, o0, o1 := StartWalk(W, pos, son[..], curMatch, cut), pos, pos;
    ghost var r := Insert(data, W, pos, lenLimit, w);
    var ptr0: nat, ptr1: nat, len0: nat, len1: nat, c := cyclicBufferPos * 2 + 1, cyclicBufferPos * 2, 0, 0, curMatch;
    while true
      invariant w == Walk(son[..], ptr0, ptr1, c, len0, len1, cut) && Walking(data, W, pos, lenLimit, w, o0, o1)
      invariant r == Insert(data, W, pos, lenLimit, w)
      decreases cut
    {
      WalkUnfold(data, W, pos, lenLimit, w, 0);
      if cut == 0 || pos - c >= W {
        CloseEmpty(W, pos, son, ptr0, ptr1, w);
        return;
      }
      var pair, len := Compare(data, lenLimit, W, pos, cyclicBufferPos, c, len0, len1, w);
      if len == lenLimit {
        CloseEqual(W, pos, son, ptr0, ptr1, pair, w);
        return;
      }
      o0, o1 := WalkingOn(data, W, pos, lenLimit, w, o0, o1);
      ghost var w' := Advance(data, W, pos, lenLimit, w);
      c, ptr0, ptr1, len0, len1 := Hang(data, lenLimit, W, pos, son, pair, len, c, ptr0, ptr1, len0, len1, w);
      cut, w := cut - 1, w';
    }
  }

  lemma StartWalking(data: seq<bv8>, W: nat, p: nat, L: nat, son: seq<nat>, head: nat, cut: nat, cyclicPos: nat)
    requires CyclicAt(W, p, cyclicPos) && Bounded(W, p, son) && (head == 0 || W <= head < p) && p - W + L <= |data|
    ensures W > 0 && StartWalk(W, p, son, head, cut) == Walk(son, cyclicPos * 2 + 1, cyclicPos * 2, head, 0, 0, cut)
    ensures Walking(data, W, p, L, StartWalk(W, p, son, head, cut), p, p)
  {
    hide Owns;
    OwnPair(W, p, cyclicPos);
    OwnsSelf(W, p);
  }

  lemma OwnsSelf(W: nat, p: nat)
    requires W > 0
    ensures Owns(W, p, p, Pair(W, p)) && Owns(W, p, p, Pair(W, p) + 1)
  {
  }

  lemma AdvanceIs(data: seq<bv8>, W: nat, p: nat, L: nat, w: Walk)
    requires WalkOk(data, W, p, L, w) && !Stops(data, W, p, L, w)
    ensures var pair, len := Pair(W, w.c), AgreeLen(data, W, p, L, w);
            Advance(data, W, p, L, w) ==
            if Smaller(data, W, p, w, len)
            then w.(son := SetAt(w.son, w.ptr1, w.c), ptr1 := pair + 1, c := SetAt(w.son, w.ptr1, w.c)[pair + 1],
                    len1 := len, cut := w.cut - 1)
            else w.(son := SetAt(w.son, w.ptr0, w.c), ptr0 := pair, c := SetAt(w.son, w.ptr0, w.c)[pair],
                    len0 := len, cut := w.cut - 1)
  {
  }

  /** A round of the search reports what it finds after what was reported before. */
  lemma FoundOn(data: seq<bv8>, W: nat, p: nat, L: nat, w: Walk, maxLen: nat, ds: seq<(nat, nat)>)
    requires WalkOk(data, W, p, L, w) && w.cut > 0 && Live(W, p, w.c)
    ensures var len := AgreeLen(data, W, p, L, w);
            var ds' := if maxLen < len then ds + [(len, p - w.c - 1)] else ds;
            ds + Found(data, W, p, L, w, maxLen)
            == if len == L then ds'
               else ds' + Found(data, W, p, L, Advance(data, W, p, L, w), if maxLen < len then len else maxLen)
  {
    hide Advance, AgreeLen;
  }

  lemma WalkUnfold(data: seq<bv8>, W: nat, p: nat, L: nat, w: Walk, maxLen: nat)
    requires WalkOk(data, W, p, L, w)
    ensures Stops(data, W, p, L, w) ==> Insert(data, W, p, L, w) == Finish(W, p, w)
    ensures !Stops(data, W, p, L, w) ==> Insert(data, W, p, L, w) == Insert(data, W, p, L, Advance(data, W, p, L, w))
    ensures if w.cut == 0 || !Live(W, p, w.c) then Found(data, W, p, L, w, maxLen) == [] else
            var len := AgreeLen(data, W, p, L, w);
            var here := if maxLen < len then [(len, p - w.c - 1)] else [];
            Found(data, W, p, L, w, maxLen) == if len == L then here
              else here + Found(data, W, p, L, Advance(data, W, p, L, w), if maxLen < len then len else maxLen)
  {
  }
}
