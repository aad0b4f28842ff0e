/** The four-byte binary-tree match finder: hash heads for two, three and four bytes, and
    one search tree for each four-byte hash. The data is in memory, under four gigabytes. */
module Bt4 {
  import opened Arithmetic
  import opened MatchFinder
  import opened MatchTree
  import Bytes
  import Symbols
  import Codec

  /** What a run never changes: the data, the window, the longest match looked for, the
      number of candidates to try, the CRC table and the mask of the four-byte hash. */
  datatype Config = Config(data: seq<bv8>, W: nat, matchMaxLen: nat, cut: nat, crc: bv8 -> bv32, hashMask: bv32)

  /** What a run changes. A hash bucket that is absent is empty. */
  datatype Finder =
    Finder(pos: nat, son: seq<nat>, hash2: map<Bucket, nat>, hash3: map<Bucket, nat>, hash4: map<Bucket, nat>)

  function Head(hash: map<Bucket, nat>, h: Bucket): nat { if h in hash then hash[h] else 0 }

  function Min(a: nat, b: nat): (r: nat) { if a < b then a else b }

  /** How many bytes may be compared at a position. */
  function LenLimit(g: Config, pos: nat): (r: nat)
    requires g.W <= pos <= g.W + |g.data|
  {
    Min(g.matchMaxLen, g.W + |g.data| - pos)
  }

  // ------------------------------------------------------------------ hashing

  datatype Bucket = Bucket(value: bv32)

  function Mix2(crc0: bv32, b1: bv8): bv32 { (crc0 ^ (b1 as bv32)) & 0x3FF }
  function Mix3(crc0: bv32, b1: bv8, b2: bv8): bv32 { (crc0 ^ (b1 as bv32) ^ ((b2 as bv32) << 8)) & 0xFFFF }
  function Mix4(crc0: bv32, b1: bv8, b2: bv8, crc3: bv32, mask: bv32): bv32
  {
    (crc0 ^ (b1 as bv32) ^ ((b2 as bv32) << 8) ^ (crc3 << 5)) & mask
  }

  function Hash2(g: Config, i: nat): Bucket
    requires i + 1 < |g.data|
  {
    Bucket(Mix2(g.crc(g.data[i]), g.data[i + 1]))
  }

  function Hash3(g: Config, i: nat): Bucket
    requires i + 2 < |g.data|
  {
    Bucket(Mix3(g.crc(g.data[i]), g.data[i + 1], g.data[i + 2]))
  }

  function Hash4(g: Config, i: nat): Bucket
    requires i + 3 < |g.data|
  {
    Bucket(Mix4(g.crc(g.data[i]), g.data[i + 1], g.data[i + 2], g.crc(g.data[i + 3]), g.hashMask))
  }

  lemma TwoBytes(x: bv32, a: bv8, b: bv8)
    requires Mix2(x, a) == Mix2(x, b)
    ensures a == b
  {
  }

  lemma ThreeBytes(x: bv32, a: bv8, b: bv8, c: bv8, d: bv8)
    requires Mix3(x, a, b) == Mix3(x, c, d)
    ensures a == c && b == d
  {
  }

  lemma Bytes2(g: Config, i: nat, j: nat)
    requires i + 1 < |g.data| && j + 1 < |g.data| && Hash2(g, i) == Hash2(g, j) && g.data[i] == g.data[j]
    ensures g.data[i + 1] == g.data[j + 1]
  {
    hide Mix2;
    TwoBytes(g.crc(g.data[i]), g.data[i + 1], g.data[j + 1]);
  }

  lemma Bytes3(g: Config, i: nat, j: nat)
    requires i + 2 < |g.data| && j + 2 < |g.data| && Hash3(g, i) == Hash3(g, j) && g.data[i] == g.data[j]
    ensures g.data[i + 1] == g.data[j + 1] && g.data[i + 2] == g.data[j + 2]
  {
    hide Mix3;
    ThreeBytes(g.crc(g.data[i]), g.data[i + 1], g.data[i + 2], g.data[j + 1], g.data[j + 2]);
  }

  /** The same two-byte hash and the same first byte are two equal bytes. */
  lemma HashTwo(g: Config, i: nat, j: nat)
    requires i + 1 < |g.data| && j + 1 < |g.data| && Hash2(g, i) == Hash2(g, j) && g.data[i] == g.data[j]
    ensures Same(g.data, i, j, 2)
  {
    hide Hash2, Same;
    Bytes2(g, i, j);
    SameNone(g.data, i, j);
    SameSnoc(g.data, i, j, 0);
    SameSnoc(g.data, i, j, 1);
  }

  /** The same three-byte hash and the same first byte are three equal bytes. */
  lemma HashThree(g: Config, i: nat, j: nat)
    requires i + 2 < |g.data| && j + 2 < |g.data| && Hash3(g, i) == Hash3(g, j) && g.data[i] == g.data[j]
    ensures Same(g.data, i, j, 3)
  {
    hide Hash3, Same;
    Bytes3(g, i, j);
    SameNone(g.data, i, j);
    SameSnoc(g.data, i, j, 0);
    SameSnoc(g.data, i, j, 1);
    SameSnoc(g.data, i, j, 2);
  }

  // ------------------------------------------------------------ the meaning of a step

  /** Bucket entries are earlier positions with that hash; four bytes are there at each. */
  ghost predicate Entries2(g: Config, pos: nat, hash: map<Bucket, nat>)
  {
    forall h :: h in hash ==> g.W <= hash[h] < pos && hash[h] - g.W + 3 < |g.data| && Hash2(g, hash[h] - g.W) == h
  }

  ghost predicate Entries3(g: Config, pos: nat, hash: map<Bucket, nat>)
  {
    forall h :: h in hash ==> g.W <= hash[h] < pos && hash[h] - g.W + 3 < |g.data| && Hash3(g, hash[h] - g.W) == h
  }

  ghost predicate Entries4(g: Config, pos: nat, hash: map<Bucket, nat>)
  {
    forall h :: h in hash ==> g.W <= hash[h] < pos
  }

  /** The invariant of a run: while whole hashes remain to be read, the buckets and the
      son array are in order. */
  ghost predicate FinderOk(g: Config, s: Finder)
  {
    && g.W > 0 && g.W <= s.pos <= g.W + |g.data| && |s.son| == 2 * g.W
    && (LenLimit(g, s.pos) >= 4 ==>
          && Entries2(g, s.pos, s.hash2) && Entries3(g, s.pos, s.hash3) && Entries4(g, s.pos, s.hash4)
          && Forest(g.data, g.W, s.pos, LenLimit(g, s.pos), s.son))
  }

  /** The tree walk at the current position. */
  ghost function WalkAt(g: Config, s: Finder): (w: Walk)
    requires FinderOk(g, s) && LenLimit(g, s.pos) >= 4
    ensures WalkOk(g.data, g.W, s.pos, LenLimit(g, s.pos), w)
  {
    StartWalk(g.W, s.pos, s.son, Head(s.hash4, Hash4(g, s.pos - g.W)), g.cut)
  }

  /** Moving past one position, with or without asking for matches. */
  ghost function Step(g: Config, s: Finder): (r: Finder)
    requires FinderOk(g, s) && s.pos < g.W + |g.data|
  {
    if LenLimit(g, s.pos) < 4 then s.(pos := s.pos + 1) else
      var i := s.pos - g.W;
      Finder(s.pos + 1, Insert(g.data, g.W, s.pos, LenLimit(g, s.pos), WalkAt(g, s)),
             s.hash2[Hash2(g, i) := s.pos], s.hash3[Hash3(g, i) := s.pos], s.hash4[Hash4(g, i) := s.pos])
  }

  lemma Entries2Set(g: Config, pos: nat, hash: map<Bucket, nat>)
    requires Entries2(g, pos, hash) && g.W <= pos && pos - g.W + 3 < |g.data|
    ensures Entries2(g, pos + 1, hash[Hash2(g, pos - g.W) := pos])
  {
    hide Hash2;
    var hash' := hash[Hash2(g, pos - g.W) := pos];
    forall h | h in hash'
        ensures g.W <= hash'[h] < pos + 1 && hash'[h] - g.W + 3 < |g.data| && Hash2(g, hash'[h] - g.W) == h {
      if h != Hash2(g, pos - g.W) { assert h in hash; }
    }
  }

  lemma Entries3Set(g: Config, pos: nat, hash: map<Bucket, nat>)
    requires Entries3(g, pos, hash) && g.W <= pos && pos - g.W + 3 < |g.data|
    ensures Entries3(g, pos + 1, hash[Hash3(g, pos - g.W) := pos])
  {
    hide Hash3;
    var hash' := hash[Hash3(g, pos - g.W) := pos];
    forall h | h in hash'
        ensures g.W <= hash'[h] < pos + 1 && hash'[h] - g.W + 3 < |g.data| && Hash3(g, hash'[h] - g.W) == h {
      if h != Hash3(g, pos - g.W) { assert h in hash; }
    }
  }

  lemma Entries4Set(g: Config, pos: nat, hash: map<Bucket, nat>, key: Bucket)
    requires Entries4(g, pos, hash) && g.W <= pos
    ensures Entries4(g, pos + 1, hash[key := pos])
  {
    var hash' := hash[key := pos];
    forall h | h in hash' ensures g.W <= hash'[h] < pos + 1 { if h != key { assert h in hash; } }
  }

  lemma HeadOlder(g: Config, s: Finder, h: Bucket)
    requires Entries4(g, s.pos, s.hash4)
    ensures Older(g.W, s.pos, Head(s.hash4, h))
  {
  }

  /** Every step keeps the invariant. */
  lemma StepOk(g: Config, s: Finder)
    requires FinderOk(g, s) && s.pos < g.W + |g.data|
    ensures FinderOk(g, Step(g, s))
  {
    hide Hash2, Hash3, Hash4, Forest, Entries2, Entries3, Entries4, StartWalk, Insert, WalkOk;
    if LenLimit(g, s.pos) >= 4 {
      var L, i := LenLimit(g, s.pos), s.pos - g.W;
      var head := Head(s.hash4, Hash4(g, i));
      Entries2Set(g, s.pos, s.hash2);
      Entries3Set(g, s.pos, s.hash3);
      Entries4Set(g, s.pos, s.hash4, Hash4(g, i));
      HeadOlder(g, s, Hash4(g, i));
      WalkSound(g.data, g.W, s.pos, L, s.son, head, g.cut, 0);
      ForestShorter(g.data, g.W, s.pos + 1, L, LenLimit(g, s.pos + 1), Step(g, s).son);
    }
  }

  ghost function Steps(g: Config, s: Finder, n: nat): (r: Finder)
    requires FinderOk(g, s) && s.pos + n <= g.W + |g.data|
    ensures FinderOk(g, r) && r.pos == s.pos + n
    decreases n
  {
    if n == 0 then s else StepOk(g, s); Steps(g, Step(g, s), n - 1)
  }

  lemma {:induction false} StepsSnoc(g: Config, s: Finder, n: nat)
    requires FinderOk(g, s) && s.pos + n < g.W + |g.data|
    ensures Steps(g, s, n + 1) == Step(g, Steps(g, s, n))
    decreases n
  {
    hide FinderOk, Step;
    FinderPos(g, s);
    if n > 0 {
      StepOk(g, s);
      StepPos(g, s);
      StepsSnoc(g, Step(g, s), n - 1);
    } else {
      StepOk(g, s);
      StepPos(g, s);
      assert Steps(g, Step(g, s), 0) == Step(g, s);
    }
  }

  lemma FinderPos(g: Config, s: Finder)
    requires FinderOk(g, s)
    ensures g.W > 0 && g.W <= s.pos <= g.W + |g.data|
  {
  }

  lemma StepShort(g: Config, s: Finder)
    requires FinderOk(g, s) && s.pos < g.W + |g.data| && LenLimit(g, s.pos) < 4
    ensures Step(g, s) == s.(pos := s.pos + 1)
  {
  }

  lemma StepLong(g: Config, s: Finder)
    requires FinderOk(g, s) && LenLimit(g, s.pos) >= 4
    ensures s.pos - g.W + 3 < |g.data| && |s.son| == 2 * g.W
    ensures var L, i := LenLimit(g, s.pos), s.pos - g.W;
            var w := StartWalk(g.W, s.pos, s.son, Head(s.hash4, Hash4(g, i)), g.cut);
            WalkOk(g.data, g.W, s.pos, L, w) &&
            Step(g, s) == Finder(s.pos + 1, Insert(g.data, g.W, s.pos, L, w),
                                 s.hash2[Hash2(g, i) := s.pos], s.hash3[Hash3(g, i) := s.pos],
                                 s.hash4[Hash4(g, i) := s.pos])
  {
  }

  lemma StepPos(g: Config, s: Finder)
    requires FinderOk(g, s) && s.pos < g.W + |g.data|
    ensures Step(g, s).pos == s.pos + 1
  {
  }

  // ------------------------------------------------------------ what is reported

  /** A hash head that is inside the window and starts with the current byte. */
  predicate Hit(g: Config, pos: nat, q: nat)
    requires g.W <= pos < g.W + |g.data| && (q == 0 || g.W <= q < pos)
  {
    q > 0 && pos - q < g.W && g.data[q - g.W] == g.data[pos - g.W]
  }

  /** The match at an earlier position, already known for `from` bytes, at its full length. */
  function FullMatch(g: Config, pos: nat, q: nat, from: nat): (m: (nat, nat))
    requires g.W <= q < pos <= g.W + |g.data| && from <= LenLimit(g, pos)
  {
    (Extend(g.data, q - g.W, pos - g.W, from, LenLimit(g, pos)), pos - q - 1)
  }

  /** The matches taken from the two- and three-byte heads q2 and q3; the last is extended. */
  function Short(g: Config, pos: nat, q2: nat, q3: nat): (ms: seq<(nat, nat)>)
    requires g.W <= pos < g.W + |g.data| && (q2 == 0 || g.W <= q2 < pos) && (q3 == 0 || g.W <= q3 < pos) &&
             LenLimit(g, pos) >= 4
    ensures |ms| <= 2
  {
    var hit2, hit3 := Hit(g, pos, q2), q2 != q3 && Hit(g, pos, q3);
    if hit2 && hit3 then [(2, pos - q2 - 1), FullMatch(g, pos, q3, 3)]
    else if hit3 then [FullMatch(g, pos, q3, 3)]
    else if hit2 then [FullMatch(g, pos, q2, 2)]
    else []
  }

  /** The length that the tree search has to beat. */
  function Longest(ms: seq<(nat, nat)>): (n: nat)
    ensures n >= 3
  {
    if ms != [] && ms[|ms| - 1].0 > 3 then ms[|ms| - 1].0 else 3
  }

  ghost function ShortAt(g: Config, s: Finder): (ms: seq<(nat, nat)>)
    requires FinderOk(g, s) && LenLimit(g, s.pos) >= 4
  {
    var i := s.pos - g.W;
    Short(g, s.pos, Head(s.hash2, Hash2(g, i)), Head(s.hash3, Hash3(g, i)))
  }

  /** Everything reported at a position: the short matches, then what the tree holds beyond them. */
  ghost function Reported(g: Config, s: Finder): (ms: seq<(nat, nat)>)
    requires FinderOk(g, s) && s.pos < g.W + |g.data|
  {
    if LenLimit(g, s.pos) < 4 then [] else
      var short := ShortAt(g, s);
      if short != [] && short[|short| - 1].0 == LenLimit(g, s.pos) then short
      else short + Found(g.data, g.W, s.pos, LenLimit(g, s.pos), WalkAt(g, s), Longest(short))
  }

  lemma ReportedIs(g: Config, s: Finder)
    requires FinderOk(g, s) && s.pos < g.W + |g.data|
    ensures LenLimit(g, s.pos) < 4 ==> Reported(g, s) == []
    ensures LenLimit(g, s.pos) >= 4 ==>
              var L, i := LenLimit(g, s.pos), s.pos - g.W;
              var q2, q3, q4 := Head(s.hash2, Hash2(g, i)), Head(s.hash3, Hash3(g, i)), Head(s.hash4, Hash4(g, i));
              Older(g.W, s.pos, q2) && Older(g.W, s.pos, q3) && |s.son| == 2 * g.W &&
              var short, w := Short(g, s.pos, q2, q3), StartWalk(g.W, s.pos, s.son, q4, g.cut);
              WalkOk(g.data, g.W, s.pos, L, w) &&
              Reported(g, s) == if short != [] && short[|short| - 1].0 == L then short
                  else short + Found(g.data, g.W, s.pos, L, w, Longest(short))
  {
    hide Hash2, Hash3, Hash4, Found, Short, Forest;
  }

  lemma ShortShorter(g: Config, pos: nat, q2: nat, q3: nat)
    requires g.W <= pos < g.W + |g.data| && (q2 == 0 || g.W <= q2 < pos) && (q3 == 0 || g.W <= q3 < pos) &&
             LenLimit(g, pos) >= 4
    ensures var ms := Short(g, pos, q2, q3); ms == [] || ms[|ms| - 1].0 <= LenLimit(g, pos)
  {
  }

  lemma FullMatchTrue(g: Config, pos: nat, q: nat, from: nat)
    requires g.W <= q < pos <= g.W + |g.data| && pos - q < g.W && from <= LenLimit(g, pos) &&
             Same(g.data, q - g.W, pos - g.W, from)
    ensures var m := FullMatch(g, pos, q, from); m.0 >= from && TrueMatch(g.data, g.W, pos, LenLimit(g, pos), m)
  {
    hide Extend, Same;
  }

  lemma Hit2True(g: Config, s: Finder, q: nat)
    requires FinderOk(g, s) && LenLimit(g, s.pos) >= 4 && q == Head(s.hash2, Hash2(g, s.pos - g.W)) && Hit(g, s.pos, q)
    ensures Same(g.data, q - g.W, s.pos - g.W, 2)
  {
    hide Hash2, Hash3, Forest, Entries3, Entries4, Same;
    HashTwo(g, q - g.W, s.pos - g.W);
  }

  lemma Hit3True(g: Config, s: Finder, q: nat)
    requires FinderOk(g, s) && LenLimit(g, s.pos) >= 4 && q == Head(s.hash3, Hash3(g, s.pos - g.W)) && Hit(g, s.pos, q)
    ensures Same(g.data, q - g.W, s.pos - g.W, 3)
  {
    hide Hash2, Hash3, Forest, Entries2, Entries4, Same;
    HashThree(g, q - g.W, s.pos - g.W);
  }

  /** Short matches accepted from equal hashes and one equal byte are true. */
  lemma ShortTrue(g: Config, s: Finder)
    requires FinderOk(g, s) && LenLimit(g, s.pos) >= 4
    ensures TrueMatches(g.data, g.W, s.pos, LenLimit(g, s.pos), ShortAt(g, s), 1)
  {
    hide Hash2, Hash3, FinderOk, Same, FullMatch, LenLimit;
    FinderPos(g, s);
    HeadsOlder(g, s);
    var L, i := LenLimit(g, s.pos), s.pos - g.W;
    var q2, q3 := Head(s.hash2, Hash2(g, i)), Head(s.hash3, Hash3(g, i));
    if Hit(g, s.pos, q2) {
      Hit2True(g, s, q2);
      FullMatchTrue(g, s.pos, q2, 2);
    }
    if Hit(g, s.pos, q3) {
      Hit3True(g, s, q3);
      FullMatchTrue(g, s.pos, q3, 3);
    }
  }

  lemma HeadsOlder(g: Config, s: Finder)
    requires FinderOk(g, s) && LenLimit(g, s.pos) >= 4
    ensures s.pos - g.W + 3 < |g.data|
    ensures Older(g.W, s.pos, Head(s.hash2, Hash2(g, s.pos - g.W)))
    ensures Older(g.W, s.pos, Head(s.hash3, Hash3(g, s.pos - g.W)))
    ensures Older(g.W, s.pos, Head(s.hash4, Hash4(g, s.pos - g.W)))
  {
    hide Hash2, Hash3, Hash4, Forest;
  }

  lemma TrueMatchesAppend(data: seq<bv8>, W: nat, p: nat, L: nat, ms: seq<(nat, nat)>, ns: seq<(nat, nat)>, above: nat,
                          mid: nat)
    requires TrueMatches(data, W, p, L, ms, above) && TrueMatches(data, W, p, L, ns, mid) && above <= mid
    requires forall i :: 0 <= i < |ms| ==> ms[i].0 <= mid
    ensures TrueMatches(data, W, p, L, ms + ns, above)
  {
    hide TrueMatch;
  }

  /** Match-finder soundness: in every reachable state, everything reported is a true match of
      at least two bytes inside the window, and the lengths strictly increase. */
  lemma ReportedTrue(g: Config, s: Finder)
    requires FinderOk(g, s) && s.pos < g.W + |g.data|
    ensures TrueMatches(g.data, g.W, s.pos, LenLimit(g, s.pos), Reported(g, s), 1)
  {
    hide Hash2, Hash3, Hash4, Entries2, Entries3, Entries4, Forest, Found, TrueMatch, Short, StartWalk;
    if LenLimit(g, s.pos) >= 4 {
      var L, short := LenLimit(g, s.pos), ShortAt(g, s);
      ShortTrue(g, s);
      HeadsOlder(g, s);
      WalkSound(g.data, g.W, s.pos, L, s.son, Head(s.hash4, Hash4(g, s.pos - g.W)), g.cut, Longest(short));
      TrueMatchesAppend(g.data, g.W, s.pos, L, short, Found(g.data, g.W, s.pos, L, WalkAt(g, s), Longest(short)), 1,
          Longest(short));
    }
  }

  /** A match of full length: as far as bytes are compared, or up to the first difference. */
  ghost predicate Whole(g: Config, pos: nat, m: (nat, nat))
    requires g.W <= pos < g.W + |g.data|
  {
    && g.W + m.1 + 1 <= pos && m.0 <= LenLimit(g, pos)
    && (m.0 < LenLimit(g, pos) ==> g.data[pos - g.W - m.1 - 1 + m.0] != g.data[pos - g.W + m.0])
  }

  /** The match with position q is reported, of n bytes at least, and perhaps of its full length. */
  ghost predicate Tells(g: Config, pos: nat, ms: seq<(nat, nat)>, q: nat, n: nat, whole: bool)
    requires g.W <= pos < g.W + |g.data|
  {
    exists m :: m in ms && m.1 == pos - q - 1 && m.0 >= n && (whole ==> Whole(g, pos, m))
  }

  lemma FullMatchWhole(g: Config, pos: nat, q: nat, from: nat)
    requires g.W <= q < pos < g.W + |g.data| && from <= LenLimit(g, pos)
    ensures var m := FullMatch(g, pos, q, from); Whole(g, pos, m) && m.0 >= from && m.1 == pos - q - 1
  {
    hide Extend, Same;
  }

  lemma ToldBy(g: Config, pos: nat, ms: seq<(nat, nat)>, more: seq<(nat, nat)>, i: nat, q: nat, n: nat, whole: bool)
    requires g.W <= pos < g.W + |g.data| && i < |ms| && ms[i].1 == pos - q - 1 && ms[i].0 >= n
    requires whole ==> Whole(g, pos, ms[i])
    ensures Tells(g, pos, ms, q, n, whole) && Tells(g, pos, ms + more, q, n, whole)
  {
    hide Whole;
    assert ms[i] in ms && ms[i] in ms + more;
  }

  lemma ShortTells(g: Config, pos: nat, q2: nat, q3: nat, more: seq<(nat, nat)>)
    requires g.W <= pos < g.W + |g.data| && Older(g.W, pos, q2) && Older(g.W, pos, q3) && LenLimit(g, pos) >= 4
    requires pos - g.W + 3 < |g.data| && (Hit(g, pos, q3) ==> Same(g.data, q3 - g.W, pos - g.W, 3))
    ensures var ms := Short(g, pos, q2, q3);
            && (Hit(g, pos, q3) ==> Tells(g, pos, ms, q3, 3, true) && Tells(g, pos, ms + more, q3, 3, true))
            && (Hit(g, pos, q2) ==> Tells(g, pos, ms, q2, 2, !Hit(g, pos, q3))
                                    && Tells(g, pos, ms + more, q2, 2, !Hit(g, pos, q3)))
  {
    hide Tells, FullMatch, Whole, LenLimit, Same;
    var ms := Short(g, pos, q2, q3);
    if Hit(g, pos, q3) && q2 != q3 {
      FullMatchWhole(g, pos, q3, 3);
      ToldBy(g, pos, ms, more, |ms| - 1, q3, 3, true);
      if Hit(g, pos, q2) { ToldBy(g, pos, ms, more, 0, q2, 2, false); }
    } else if Hit(g, pos, q2) {
      FullMatchWhole(g, pos, q2, 2);
      ToldBy(g, pos, ms, more, 0, q2, 2, true);
      if q2 == q3 {
        PastThree(g, pos, q2);
        ToldBy(g, pos, ms, more, 0, q3, 3, true);
        WholeAnyway(g, pos, ms, q2);
        WholeAnyway(g, pos, ms + more, q2);
      }
    }
  }

  /** Three equal bytes are found from two on. */
  lemma PastThree(g: Config, pos: nat, q: nat)
    requires g.W <= q < pos < g.W + |g.data| && LenLimit(g, pos) >= 4 && pos - g.W + 3 < |g.data|
    requires Same(g.data, q - g.W, pos - g.W, 3)
    ensures FullMatch(g, pos, q, 2).0 >= 3
  {
    hide Extend, Same;
    SameAt(g.data, q - g.W, pos - g.W, 3, 2);
  }

  lemma WholeAnyway(g: Config, pos: nat, ms: seq<(nat, nat)>, q: nat)
    requires g.W <= pos < g.W + |g.data| && Tells(g, pos, ms, q, 2, true)
    ensures forall whole :: Tells(g, pos, ms, q, 2, whole)
  {
    hide Whole;
  }

  /** Match-finder completeness for short matches: a match with the position in the three-byte bucket is
      reported with all its bytes, and one with the position in the two-byte bucket is reported, with all its
      bytes unless the other bucket has one. */
  lemma HitsReported(g: Config, s: Finder)
    requires FinderOk(g, s) && LenLimit(g, s.pos) >= 4
    ensures s.pos - g.W + 3 < |g.data|
    ensures var q2, q3 := Head(s.hash2, Hash2(g, s.pos - g.W)), Head(s.hash3, Hash3(g, s.pos - g.W));
            && Older(g.W, s.pos, q2) && Older(g.W, s.pos, q3)
            && (Hit(g, s.pos, q3) ==> Tells(g, s.pos, Reported(g, s), q3, 3, true))
            && (Hit(g, s.pos, q2) ==> Tells(g, s.pos, Reported(g, s), q2, 2, !Hit(g, s.pos, q3)))
  {
    hide Hash2, Hash3, Hash4, Found, Short, Forest, Tells, Hit, Same, Entries2, Entries3, Entries4;
    HeadsOlder(g, s);
    var i := s.pos - g.W;
    if Hit(g, s.pos, Head(s.hash3, Hash3(g, i))) { Hit3True(g, s, Head(s.hash3, Hash3(g, i))); }
    ShortTells(g, s.pos, Head(s.hash2, Hash2(g, i)), Head(s.hash3, Hash3(g, i)),
               Found(g.data, g.W, s.pos, LenLimit(g, s.pos), WalkAt(g, s), Longest(ShortAt(g, s))));
  }

  // ------------------------------------------------------------ the object

  lemma CyclicNext(W: nat, p: nat)
    requires W > 0
    ensures (p + 1) % W == if p % W + 1 == W then 0 else p % W + 1
  {
    var k, r := p / W, p % W;
    assert p == k * W + r;
    if r + 1 == W {
      assert (k + 1) * W == k * W + W;
      ModUnique(p + 1, W, k + 1, 0);
    } else {
      ModUnique(p + 1, W, k, r + 1);
    }
  }

  const MAX_VAL_FOR_NORMALIZE: nat := 0xFFFFFFFF

  lemma Deltas(g: Config, pos: nat, q: nat)
    requires g.W <= pos < g.W + |g.data| && Older(g.W, pos, q)
    ensures pos - q < g.W ==> g.W <= q < pos && pos - g.W - (pos - q) == q - g.W
    ensures pos - q < g.W && g.data[q - g.W] == g.data[pos - g.W] <==> Hit(g, pos, q)
  {
  }

  lemma FullMatchIs(g: Config, pos: nat, q: nat, from: nat)
    requires g.W <= q < pos <= g.W + |g.data| && from <= LenLimit(g, pos)
    ensures FullMatch(g, pos, q, from) == (Extend(g.data, q - g.W, pos - g.W, from, LenLimit(g, pos)), pos - q - 1)
    ensures pos - g.W + LenLimit(g, pos) <= |g.data|
  {
    hide Extend, Same;
  }

  /** The matches from the two- and three-byte hash heads. */
  method ShortMatches(g: Config, pos: nat, lenLimit: nat, q2: nat, q3: nat)
    returns (distances: seq<(nat, nat)>, maxLen: nat)
    requires g.W <= pos < g.W + |g.data| && lenLimit == LenLimit(g, pos) >= 4 && Older(g.W, pos, q2) &&
             Older(g.W, pos, q3)
    ensures distances == Short(g, pos, q2, q3)
    ensures if distances == [] then maxLen == 1 else maxLen == distances[|distances| - 1].0
  {
    hide Extend, FullMatch, LenLimit, Same;
    var delta2, delta3, i := pos - q2, pos - q3, pos - g.W;
    maxLen, distances := 1, [];
    Deltas(g, pos, q2);
    Deltas(g, pos, q3);
    var q := q2;
    if delta2 < g.W && g.data[i - delta2] == g.data[i] {
      maxLen := 2;
      distances := [(2, delta2 - 1)];
    }
    if delta2 != delta3 && delta3 < g.W && g.data[i - delta3] == g.data[i] {
      maxLen := 3;
      distances := distances + [(3, delta3 - 1)];
      q := q3;
    }
    if distances != [] {
      Deltas(g, pos, q);
      FullMatchIs(g, pos, q, maxLen);
      maxLen := CommonLength(g.data, q - g.W, i, maxLen, lenLimit);
      distances := distances[|distances| - 1 := (maxLen, pos - q - 1)];
    }
  }

  class Bt4MatchFinder {
    const g: Config
    const keepSizeAfter: nat
    const streamPos: nat
    const son: array<nat>
    var pos: nat
    var posLimit: nat
    var lenLimit: nat
    var cyclicBufferPos: nat
    var hash2: map<Bucket, nat>
    var hash3: map<Bucket, nat>
    var hash4: map<Bucket, nat>

    ghost function Abs(): (s: Finder)
      reads this, son
    {
      Finder(pos, son[..], hash2, hash3, hash4)
    }

    /** The settings: one-call input below four gigabytes. */
    ghost predicate Set()
    {
      && g.W > 0 && streamPos == g.W + |g.data| < MAX_VAL_FOR_NORMALIZE && g.matchMaxLen <= keepSizeAfter &&
         son.Length == 2 * g.W
    }

    /** The cached limits: until posLimit the comparison limit and the cyclic position only step on. */
    ghost predicate Limits()
      reads this`pos, this`cyclicBufferPos, this`lenLimit, this`posLimit
    {
      && g.W <= pos <= streamPos && CyclicAt(g.W, pos, cyclicBufferPos)
      && lenLimit == Min(g.matchMaxLen, streamPos - pos)
      && (pos < streamPos ==> pos < posLimit && (posLimit == pos + 1 || posLimit + g.matchMaxLen <= streamPos))
      && posLimit <= pos + (g.W - cyclicBufferPos)
    }

    ghost predicate Valid()
      reads this, son
    {
      Set() && Limits() && FinderOk(g, Abs())
    }

    /** MatchFinder_Init, on whatever the freshly allocated son array holds. */
    constructor (g: Config, keepSizeAfter: nat, son: array<nat>)
      requires g.W > 0 && g.W + |g.data| < MAX_VAL_FOR_NORMALIZE && g.matchMaxLen <= keepSizeAfter &&
               son.Length == 2 * g.W
      ensures Valid() && this.g == g && this.son == son && Abs() == Finder(g.W, old(son[..]), map[], map[], map[])
    {
      this.g, this.keepSizeAfter, this.son := g, keepSizeAfter, son;
      streamPos, pos, cyclicBufferPos := g.W + |g.data|, g.W, 0;
      hash2, hash3, hash4 := map[], map[], map[];
      new;
      CyclicStart(g.W);
      SetLimits();
      ForestStart(g.data, g.W, lenLimit, son[..]);
    }

    method SetLimits()
      requires Set() && g.W <= pos <= streamPos && CyclicAt(g.W, pos, cyclicBufferPos)
      modifies this`lenLimit, this`posLimit
      ensures Limits()
    {
      CyclicBound(g.W, pos, cyclicBufferPos);
      var limit := MAX_VAL_FOR_NORMALIZE - pos;
      var limit2 := g.W - cyclicBufferPos;
      if limit2 < limit { limit := limit2; }
      limit2 := streamPos - pos;
      if limit2 <= keepSizeAfter {
        if limit2 > 0 { limit2 := 1; }
      } else {
        limit2 := limit2 - keepSizeAfter;
      }
      if limit2 < limit { limit := limit2; }
      lenLimit := streamPos - pos;
      if lenLimit > g.matchMaxLen { lenLimit := g.matchMaxLen; }
      posLimit := pos + limit;
    }

    /** MOVE_POS. */
    method MovePos()
      requires Set() && Limits() && pos < streamPos
      modifies this`pos, this`cyclicBufferPos, this`lenLimit, this`posLimit
      ensures Limits() && pos == old(pos) + 1
    {
      CyclicNext(g.W, pos);
      CyclicBound(g.W, pos, cyclicBufferPos);
      cyclicBufferPos := cyclicBufferPos + 1;
      pos := pos + 1;
      if pos == posLimit {
        if cyclicBufferPos == g.W { cyclicBufferPos := 0; }
        SetLimits();
      }
    }

    /** Reads the three hash heads of the current position and puts it in their place. */
    method TakeHeads() returns (q2: nat, q3: nat, curMatch: nat)
      requires Valid() && LenLimit(g, pos) >= 4
      modifies this`hash2, this`hash3, this`hash4
      ensures var i := pos - g.W;
              && q2 == Head(old(hash2), Hash2(g, i)) && q3 == Head(old(hash3), Hash3(g, i)) &&
                 curMatch == Head(old(hash4), Hash4(g, i))
              && hash2 == old(hash2)[Hash2(g, i) := pos] && hash3 == old(hash3)[Hash3(g, i) := pos] &&
                 hash4 == old(hash4)[Hash4(g, i) := pos]
      ensures Older(g.W, pos, q2) && Older(g.W, pos, q3) && Older(g.W, pos, curMatch)
    {
      hide FinderOk, Limits, Hash2, Hash3, Hash4;
      HeadsOlder(g, Abs());
      FinderPos(g, Abs());
      var i := pos - g.W;
      q2, q3, curMatch := Head(hash2, Hash2(g, i)), Head(hash3, Hash3(g, i)), Head(hash4, Hash4(g, i));
      hash2, hash3, hash4 := hash2[Hash2(g, i) := pos], hash3[Hash3(g, i) := pos], hash4[Hash4(g, i) := pos];
    }

    /** The matches from the three hash heads, and the insertion. */
    method Search(q2: nat, q3: nat, curMatch: nat) returns (distances: seq<(nat, nat)>)
      requires Set() && g.W <= pos < streamPos && CyclicAt(g.W, pos, cyclicBufferPos)
      requires lenLimit == LenLimit(g, pos) >= 4 && Bounded(g.W, pos, son[..])
      requires Older(g.W, pos, q2) && Older(g.W, pos, q3) && Older(g.W, pos, curMatch)
      modifies son
      ensures var w := StartWalk(g.W, pos, old(son[..]), curMatch, g.cut);
              && WalkOk(g.data, g.W, pos, lenLimit, w) && son[..] == Insert(g.data, g.W, pos, lenLimit, w)
              && var short := Short(g, pos, q2, q3);
                 distances == if short != [] && short[|short| - 1].0 == lenLimit then short
                     else short + Found(g.data, g.W, pos, lenLimit, w, Longest(short))
    {
      hide Insert, Found, WalkOk, Bounded, StartWalk, CyclicAt, Short;
      var maxLen: nat;
      distances, maxLen := ShortMatches(g, pos, lenLimit, q2, q3);
      if distances != [] && maxLen == lenLimit {
        SkipMatchesSpec(g.data, lenLimit, curMatch, pos, son, cyclicBufferPos, g.W, g.cut);
      } else {
        if maxLen < 3 { maxLen := 3; }
        ShortShorter(g, pos, q2, q3);
        var more := GetMatchesSpec1(g.data, lenLimit, curMatch, pos, son, cyclicBufferPos, g.W, g.cut, maxLen);
        distances := distances + more;
      }
    }

    /** Bt4_MatchFinder_GetMatches. */
    method GetMatches() returns (distances: seq<(nat, nat)>)
      requires Valid() && pos < streamPos
      modifies this`pos, this`cyclicBufferPos, this`lenLimit, this`posLimit, this`hash2, this`hash3, this`hash4, son
      ensures Valid() && Abs() == Step(g, old(Abs()))
      ensures distances == Reported(g, old(Abs()))
    {
      hide FinderOk, Limits, Hash2, Hash3, Hash4, Insert, Found, WalkOk, Bounded, StartWalk, Step, CyclicAt, Head,
          Short, Reported;
      ghost var s := Abs();
      StepOk(g, s);
      LimitsAre();
      FinderPos(g, s);
      ReportedIs(g, s);
      if lenLimit < 4 {
        StepShort(g, s);
        MovePos();
        return [];
      }
      FinderForest(g, s);
      StepLong(g, s);
      var q2, q3, curMatch := TakeHeads();
      distances := Search(q2, q3, curMatch);
      MovePos();
    }

    /** Bt4_MatchFinder_Skip: moves past num positions without reporting anything. */
    method Skip(num: nat)
      requires Valid() && 0 < num <= streamPos - pos
      modifies this`pos, this`cyclicBufferPos, this`lenLimit, this`posLimit, this`hash2, this`hash3, this`hash4, son
      ensures Valid() && Abs() == Steps(g, old(Abs()), num)
    {
      hide FinderOk, Limits, Step;
      FinderPos(g, Abs());
      var n: nat := 0;
      while n < num
        invariant n <= num && Valid() && old(Abs()).pos + n == pos <= old(Abs()).pos + num <= streamPos
        invariant Abs() == Steps(g, old(Abs()), n)
      {
        StepsSnoc(g, old(Abs()), n);
        StepPos(g, Abs());
        SkipOne();
        n := n + 1;
      }
    }

    method SkipOne()
      requires Valid() && pos < streamPos
      modifies this`pos, this`cyclicBufferPos, this`lenLimit, this`posLimit, this`hash2, this`hash3, this`hash4, son
      ensures Valid() && Abs() == Step(g, old(Abs()))
    {
      hide FinderOk, Limits, Hash2, Hash3, Hash4, Insert, WalkOk, Bounded, StartWalk, Step, CyclicAt, Head;
      ghost var s := Abs();
      StepOk(g, s);
      LimitsAre();
      FinderPos(g, s);
      if lenLimit < 4 {
        StepShort(g, s);
        MovePos();
        return;
      }
      FinderForest(g, s);
      StepLong(g, s);
      var _, _, curMatch := TakeHeads();
      SkipMatchesSpec(g.data, lenLimit, curMatch, pos, son, cyclicBufferPos, g.W, g.cut);
      MovePos();
    }

    lemma LimitsAre()
      requires Limits()
      ensures g.W <= pos <= streamPos && CyclicAt(g.W, pos, cyclicBufferPos) &&
              lenLimit == Min(g.matchMaxLen, streamPos - pos)
    {
    }
  }

  lemma CyclicStart(W: nat)
    requires W > 0
    ensures CyclicAt(W, W, 0)
  {
    ModUnique(W, W, 1, 0);
  }

  lemma CyclicBound(W: nat, p: nat, cyclicPos: nat)
    requires CyclicAt(W, p, cyclicPos)
    ensures cyclicPos < W
  {
  }

  lemma FinderForest(g: Config, s: Finder)
    requires FinderOk(g, s) && LenLimit(g, s.pos) >= 4
    ensures Bounded(g.W, s.pos, s.son) && |s.son| == 2 * g.W
  {
  }

  // ------------------------------------------------------------ feeding the encoder

  /** Every reported match, cut to any length from two on, is an operation that describes the data. */
  lemma ReportedDescribes(g: Config, s: Finder, p: Codec.Props, bytes: seq<Bytes.byte>, reps: seq<nat>, i: nat,
                          len: nat)
    requires FinderOk(g, s) && s.pos < g.W + |g.data| && |reps| == 4
    requires g.W == p.dictSize + 1 && p.dictSize <= 0xFFFF_FFFF && g.matchMaxLen <= 273
    requires |bytes| == |g.data| && forall k :: 0 <= k < |bytes| ==> bytes[k] as int == g.data[k] as int
    requires i < |Reported(g, s)| && 2 <= len <= Reported(g, s)[i].0
    ensures Codec.Describes(p, bytes, s.pos - g.W, reps, Symbols.Match(Reported(g, s)[i].1, len))
  {
    hide FinderOk, Reported;
    FinderPos(g, s);
    ReportedTrue(g, s);
    var m, at := Reported(g, s)[i], s.pos - g.W;
    assert TrueMatch(g.data, g.W, s.pos, LenLimit(g, s.pos), m);
    var a := at - m.1 - 1;
    forall k | at <= k < at + len ensures g.data[k] == g.data[k - m.1 - 1] {
      assert g.data[a..a + m.0][k - at] == g.data[at..at + m.0][k - at];
    }
  }
}
