/** Bit trees: what the encoder sends for a symbol and how the decoder reads it back.

    A symbol of an n-level tree is identified with its leaf 2^n + symbol; the
    ancestors of a leaf w are w / 2, w / 4, ..., 1. */
module Trees {
  import opened Bytes
  import opened RangeCoder
  import opened BitModels

  /** v >> n. */
  function Shr(v: nat, n: nat): nat
    decreases n
  {
    if n == 0 then v else Shr(v / 2, n - 1)
  }

  // ---------------------------------------------------------- encoder's events

  /** RcTree_Encode: from the root down to leaf w. */
  ghost function TreeEvents(t: Table, base: int, w: nat): seq<Event>
    requires w > 0
  {
    if w == 1 then [] else TreeEvents(t, base, w / 2) + [Adaptive(t, base + w / 2, w % 2)]
  }

  /** RcTree_ReverseEncode below node m: the n lowest bits of v, lowest first. */
  ghost function ReverseEvents(t: Table, base: int, m: nat, n: nat, v: nat): seq<Event>
    decreases n
  {
    if n == 0 then [] else
      [Adaptive(t, base + m, v % 2)] + ReverseEvents(t, base, 2 * m + v % 2, n - 1, v / 2)
  }

  /** RangeEnc_EncodeDirectBits: the n lowest bits of v, highest first. */
  ghost function DirectEvents(n: nat, v: nat): seq<Event>
    decreases n
  {
    if n == 0 then [] else DirectEvents(n - 1, v / 2) + [Direct(v % 2)]
  }

  /** The part of a literal table used at node w / 2 when the match byte leads to mw:
      as long as both paths agree, the next bit of the match byte selects it. */
  function MatchedOffset(w: nat, mw: nat): nat
  {
    if w / 2 != mw / 2 then 0 else 0x100 + mw % 2 * 0x100
  }

  /** LitEnc_EncodeMatched: from the root down to leaf w, the match byte's leaf being mw. */
  ghost function MatchedEvents(base: int, w: nat, mw: nat): seq<Event>
    requires w > 0
    decreases w
  {
    if w == 1 then [] else
      MatchedEvents(base, w / 2, mw / 2) + [Adaptive(Literal, base + MatchedOffset(w, mw) + w / 2, w % 2)]
  }

  // --------------------------------------------------------- decoder's readers

  /** TREE_DECODE from node i; the value read is the final node minus `limit`. */
  function TreeDecode(input: seq<byte>, d: Receiver, base: nat, i: nat, limit: nat): (r: (Receiver, nat))
    requires Ready(d.rc) && 0 < i < 2 * limit && base + limit <= |d.probs|
    ensures Ready(r.0.rc) && |r.0.probs| == |d.probs| && limit <= r.1 < 2 * limit
    decreases 2 * limit - i
  {
    if i >= limit then (d, i) else
      var (d', b) := Take(input, d, base + i);
      TreeDecode(input, d', base, 2 * i + b, limit)
  }

  /** The literal loop guided by a match byte. `offs` is 0 or 0x100, so the source's
      masks become: bit = matchByte & offs, offs & ~bit = offs - bit, offs & bit = bit. */
  function MatchedDecode(input: seq<byte>, d: Receiver, base: nat, offs: nat, symbol: nat, matchByte: nat)
    : (r: (Receiver, nat))
    requires Ready(d.rc) && 0 < symbol < 0x200 && offs in {0, 0x100} && base + 0x300 <= |d.probs|
    ensures Ready(r.0.rc) && |r.0.probs| == |d.probs| && 0x100 <= r.1 < 0x200
    decreases 0x200 - symbol
  {
    if symbol >= 0x100 then (d, symbol) else
      var m := matchByte * 2;
      var bit := if offs == 0 then 0 else m / 0x100 % 2 * 0x100;
      var (d', b) := Take(input, d, base + offs + bit + symbol);
      MatchedDecode(input, d', base, if b == 0 then offs - bit else bit, 2 * symbol + b, m)
  }

  /** The largest node reached by n reverse bits from node i. */
  function LastNode(i: nat, n: nat): nat
    decreases n
  {
    if n <= 1 then i else LastNode(2 * i + 1, n - 1)
  }

  lemma {:induction false} LastNodeGrows(i: nat, j: nat, n: nat)
    requires i <= j
    ensures i <= LastNode(i, n) <= LastNode(j, n)
    decreases n
  {
    if n > 1 { LastNodeGrows(2 * i + 1, 2 * j + 1, n - 1); }
  }

  /** The reverse tree loop: n bits from node i, lowest first. */
  function ReverseDecode(input: seq<byte>, d: Receiver, base: int, i: nat, n: nat): (r: (Receiver, nat))
    requires Ready(d.rc) && 0 <= base + i && (n > 0 ==> base + LastNode(i, n) < |d.probs|)
    ensures Ready(r.0.rc) && |r.0.probs| == |d.probs|
    decreases n
  {
    if n == 0 then (d, 0) else
      LastNodeGrows(i, i, n);
      var (d', b) := Take(input, d, base + i);
      LastNodeGrows(2 * i + b, 2 * i + 1, n - 1);
      LastNodeGrows(2 * i + 1, 2 * i + 1, n - 1);
      var (d'', v) := ReverseDecode(input, d', base, 2 * i + b, n - 1);
      (d'', b + 2 * v)
  }

  /** n direct bits appended to acc. */
  function DirectDecode(input: seq<byte>, d: Receiver, acc: nat, n: nat): (r: (Receiver, nat))
    requires Ready(d.rc)
    ensures Ready(r.0.rc) && r.0.probs == d.probs
    decreases n
  {
    if n == 0 then (d, acc) else
      var (d', b) := TakeDirect(input, d);
      DirectDecode(input, d', 2 * acc + b, n - 1)
  }

  // ----------------------------------------------------------------- read back

  lemma {:induction false} TreeOk(t: Table, base: nat, w: nat, limit: nat, lits: nat)
    requires 0 < w < 2 * limit && base + limit <= Size(t, lits)
    ensures EventsOk(TreeEvents(t, base, w), lits)
  {
    if w > 1 { TreeOk(t, base, w / 2, limit, lits); }
  }

  /** Reading the ancestors of w brings the decoder's loop to node w. */
  lemma {:induction false} TreePrefix(input: seq<byte>, d: Receiver, t: Table, base: nat, w: nat, limit: nat, lits: nat)
    requires ReceiverOk(d, lits) && 0 < w < 2 * limit && base + limit <= Size(t, lits)
    requires Base(t) + Size(t, lits) <= NumProbs(lits)
    requires EventsOk(TreeEvents(t, base, w), lits) && Carries(input, d, TreeEvents(t, base, w), lits)
    ensures TreeDecode(input, d, Base(t) + base, 1, limit)
         == TreeDecode(input, After(input, d, TreeEvents(t, base, w), lits), Base(t) + base, w, limit)
  {
    hide Take;
    if w > 1 {
      var up, last := TreeEvents(t, base, w / 2), Adaptive(t, base + w / 2, w % 2);
      TreeOk(t, base, w / 2, limit, lits);
      CarriesSnoc(input, d, up, last, lits);
      TreePrefix(input, d, t, base, w / 2, limit, lits);
    }
  }

  /** TREE_DECODE reads the symbol that RcTree_Encode sent. */
  lemma TreeRead(input: seq<byte>, d: Receiver, t: Table, base: nat, v: nat, limit: nat, lits: nat)
    requires ReceiverOk(d, lits) && v < limit && base + limit <= Size(t, lits)
    requires EventsOk(TreeEvents(t, base, limit + v), lits) && Carries(input, d, TreeEvents(t, base, limit + v), lits)
    ensures Base(t) + Size(t, lits) <= NumProbs(lits)
    ensures TreeDecode(input, d, Base(t) + base, 1, limit)
         == (After(input, d, TreeEvents(t, base, limit + v), lits), limit + v)
  {
    TablesInside(t, lits);
    TreePrefix(input, d, t, base, limit + v, limit, lits);
  }

  lemma {:induction false} MatchedOk(base: nat, w: nat, mw: nat, lits: nat)
    requires 0 < w < 0x200 && base + 0x300 <= 768 * lits
    ensures EventsOk(MatchedEvents(base, w, mw), lits)
    decreases w
  {
    if w > 1 { MatchedOk(base, w / 2, mw / 2, lits); }
  }

  /** The node at depth k on the way to leaf v of an 8-level tree. */
  function NodeAt(v: nat, k: nat): nat
    requires k <= 8
  {
    match k case 0 => v / 0x100 case 1 => v / 0x80 case 2 => v / 0x40 case 3 => v / 0x20
    case 4 => v / 0x10 case 5 => v / 8 case 6 => v / 4 case 7 => v / 2 case 8 => v
  }

  /** The match byte after k left shifts. */
  function Shifted(b: nat, k: nat): nat
    requires k <= 8
  {
    match k case 0 => b case 1 => b * 2 case 2 => b * 4 case 3 => b * 8
    case 4 => b * 0x10 case 5 => b * 0x20 case 6 => b * 0x40 case 7 => b * 0x80 case 8 => b * 0x100
  }

  lemma MatchRoot(v: nat)
    requires 0x100 <= v < 0x200
    ensures NodeAt(v, 0) == 1 && Shifted(v - 0x100, 0) == v - 0x100
  {
  }

  lemma NodeHalf(v: nat, k: nat)
    requires 0x100 <= v < 0x200 && k < 8
    ensures NodeAt(v, k + 1) / 2 == NodeAt(v, k) && 1 < NodeAt(v, k + 1) < 0x200
  {
  }

  lemma ShiftTwice(b: nat, k: nat)
    requires k < 8
    ensures Shifted(b, k + 1) == Shifted(b, k) * 2
  {
  }

  /** At depth k the decoder's shifted match byte supplies the match path's next bit. */
  lemma MatchBit(v: nat, k: nat)
    requires 0x100 <= v < 0x200 && k < 8
    ensures Shifted(v - 0x100, k + 1) / 0x100 % 2 == NodeAt(v, k + 1) % 2
  {
    if k < 4 { MatchBitHigh(v - 0x100, k); } else { MatchBitLow(v - 0x100, k); }
  }

  lemma MatchBitHigh(x: nat, k: nat)
    requires x < 0x100 && k < 4
    ensures Shifted(x, k + 1) / 0x100 % 2 == NodeAt(x + 0x100, k + 1) % 2
  {
    match k {
      case 0 => assert x * 2 / 0x100 == (x + 0x100) / 0x80 - 2;
      case 1 => assert x * 4 / 0x100 == (x + 0x100) / 0x40 - 4;
      case 2 => assert x * 8 / 0x100 == (x + 0x100) / 0x20 - 8;
      case 3 => assert x * 0x10 / 0x100 == (x + 0x100) / 0x10 - 0x10;
    }
  }

  lemma MatchBitLow(x: nat, k: nat)
    requires x < 0x100 && 4 <= k < 8
    ensures Shifted(x, k + 1) / 0x100 % 2 == NodeAt(x + 0x100, k + 1) % 2
  {
    match k {
      case 4 => assert x * 0x20 / 0x100 == (x + 0x100) / 8 - 0x20;
      case 5 => assert x * 0x40 / 0x100 == (x + 0x100) / 4 - 0x40;
      case 6 => assert x * 0x80 / 0x100 == (x + 0x100) / 2 - 0x80;
      case 7 => assert x * 0x100 / 0x100 == x;
    }
  }

  /** One round of the matched-literal loop, at node u / 2 with the match path at mu / 2. */
  lemma MatchedStep(input: seq<byte>, d: Receiver, base: nat, u: nat, mu: nat, m: nat)
    requires Ready(d.rc) && 1 < u < 0x200 && base + 0x300 <= |d.probs|
    requires m * 2 / 0x100 % 2 == mu % 2
    requires Take(input, d, base + MatchedOffset(u, mu) + u / 2).1 == u % 2
    ensures MatchedDecode(input, d, base, if u / 2 == mu / 2 then 0x100 else 0, u / 2, m)
         == MatchedDecode(input, Take(input, d, base + MatchedOffset(u, mu) + u / 2).0, base,
                          if u == mu then 0x100 else 0, u, m * 2)
  {
    hide Take;
  }

  lemma EventRoots(base: nat)
    ensures TreeEvents(Literal, base, 1) == [] && MatchedEvents(base, 1, 1) == []
  {
  }

  lemma MatchedSnoc(base: nat, w: nat, mw: nat)
    requires w > 1
    ensures MatchedEvents(base, w, mw)
         == MatchedEvents(base, w / 2, mw / 2) + [Adaptive(Literal, base + MatchedOffset(w, mw) + w / 2, w % 2)]
    ensures MatchedOffset(w, mw) == if w / 2 != mw / 2 then 0 else 0x100 + mw % 2 * 0x100
  {
  }

  /** Reading the first k matched-literal bits of leaf w brings the loop to depth k. */
  lemma {:induction false} MatchedPrefix(input: seq<byte>, d: Receiver, base: nat, w: nat, mw: nat, k: nat, lits: nat)
    requires ReceiverOk(d, lits) && base + 0x300 <= 768 * lits
    requires 0x100 <= w < 0x200 && 0x100 <= mw < 0x200 && k <= 8 && 0 < NodeAt(w, k) < 0x200
    requires EventsOk(MatchedEvents(base, NodeAt(w, k), NodeAt(mw, k)), lits)
    requires Carries(input, d, MatchedEvents(base, NodeAt(w, k), NodeAt(mw, k)), lits)
    ensures MatchedDecode(input, d, 1846 + base, 0x100, 1, mw - 0x100)
         == MatchedDecode(input, After(input, d, MatchedEvents(base, NodeAt(w, k), NodeAt(mw, k)), lits), 1846 + base,
                          if NodeAt(w, k) == NodeAt(mw, k) then 0x100 else 0, NodeAt(w, k), Shifted(mw - 0x100, k))
    decreases k
  {
    hide MatchedDecode, Take, NodeAt, Shifted, MatchedOffset, MatchedEvents, Carries, After, EventsOk;
    MatchRoot(w);
    MatchRoot(mw);
    if k == 0 {
      EventRoots(base);
      CarriesNil(input, d, lits);
    } else {
      NodeHalf(w, k - 1);
      NodeHalf(mw, k - 1);
      ShiftTwice(mw - 0x100, k - 1);
      MatchBit(mw, k - 1);
      var u, mu, m := NodeAt(w, k), NodeAt(mw, k), Shifted(mw - 0x100, k - 1);
      var up, last := MatchedEvents(base, u / 2, mu / 2), Adaptive(Literal, base + MatchedOffset(u, mu) + u / 2, u % 2);
      MatchedOk(base, u / 2, mu / 2, lits);
      MatchedSnoc(base, u, mu);
      CarriesSnoc(input, d, up, last, lits);
      MatchedPrefix(input, d, base, w, mw, k - 1, lits);
      MatchedStep(input, After(input, d, up, lits), 1846 + base, u, mu, m);
    }
  }

  /** The matched-literal loop reads the byte that LitEnc_EncodeMatched sent. */
  lemma MatchedRead(input: seq<byte>, d: Receiver, base: nat, v: byte, matchByte: byte, lits: nat)
    requires ReceiverOk(d, lits) && base + 0x300 <= 768 * lits
    requires EventsOk(MatchedEvents(base, 0x100 + v, 0x100 + matchByte), lits)
    requires Carries(input, d, MatchedEvents(base, 0x100 + v, 0x100 + matchByte), lits)
    ensures MatchedDecode(input, d, 1846 + base, 0x100, 1, matchByte)
         == (After(input, d, MatchedEvents(base, 0x100 + v, 0x100 + matchByte), lits), 0x100 + v)
  {
    hide Take;
    var w, mw := 0x100 + v, 0x100 + matchByte;
    MatchedPrefix(input, d, base, w, mw, 8, lits);
  }

  lemma {:induction false} ReverseOk(t: Table, base: int, m: nat, n: nat, v: nat, lits: nat)
    requires 0 <= base + m && (n > 0 ==> base + LastNode(m, n) < Size(t, lits))
    ensures EventsOk(ReverseEvents(t, base, m, n, v), lits)
    decreases n
  {
    if n > 0 {
      LastNodeGrows(m, m, n);
      LastNodeGrows(2 * m + v % 2, 2 * m + 1, n - 1);
      ReverseOk(t, base, 2 * m + v % 2, n - 1, v / 2, lits);
    }
  }

  lemma NodeRoom(m: nat, n: nat, b: nat)
    requires n > 0 && b <= 1
    ensures n > 1 ==> LastNode(2 * m + b, n - 1) <= LastNode(m, n)
    ensures m <= LastNode(m, n)
  {
    LastNodeGrows(m, m, n);
    LastNodeGrows(2 * m + b, 2 * m + 1, n - 1);
  }

  /** The reverse loop reads the bits that RcTree_ReverseEncode sent: v itself when
      v has no more than n bits. */
  lemma {:induction false} ReverseRead(input: seq<byte>, d: Receiver, t: Table, base: int, m: nat, n: nat, v: nat,
                                       lits: nat)
    requires ReceiverOk(d, lits) && Shr(v, n) == 0
    requires 0 <= base + m && (n > 0 ==> base + LastNode(m, n) < Size(t, lits))
    requires EventsOk(ReverseEvents(t, base, m, n, v), lits) && Carries(input, d, ReverseEvents(t, base, m, n, v), lits)
    ensures Base(t) + Size(t, lits) <= NumProbs(lits)
    ensures ReverseDecode(input, d, Base(t) + base, m, n) == (After(input, d, ReverseEvents(t, base, m, n, v), lits), v)
    decreases n
  {
    hide Take, LastNode, Carries, After, EventsOk;
    TablesInside(t, lits);
    if n == 0 {
      CarriesNil(input, d, lits);
    } else {
      LastNodeGrows(m, m, n);
      NodeRoom(m, n, v % 2);
      var e, rest := Adaptive(t, base + m, v % 2), ReverseEvents(t, base, 2 * m + v % 2, n - 1, v / 2);
      assert ReverseEvents(t, base, m, n, v) == [e] + rest && ([e] + rest)[1..] == rest;
      ReverseOk(t, base, 2 * m + v % 2, n - 1, v / 2, lits);
      CarriesCons(input, d, e, rest, lits);
      ReverseRead(input, Take1(input, d, e, lits).0, t, base, 2 * m + v % 2, n - 1, v / 2, lits);
    }
  }

  lemma {:induction false} DirectOk(n: nat, v: nat, lits: nat)
    ensures EventsOk(DirectEvents(n, v), lits)
    decreases n
  {
    if n > 0 { DirectOk(n - 1, v / 2, lits); }
  }

  /** Reading the n highest bits of v leaves the loop with k more to read. */
  lemma {:induction false} DirectPrefix(input: seq<byte>, d: Receiver, n: nat, k: nat, v: nat, lits: nat)
    requires ReceiverOk(d, lits)
    requires EventsOk(DirectEvents(n, v), lits) && Carries(input, d, DirectEvents(n, v), lits)
    ensures DirectDecode(input, d, Shr(v, n), n + k)
         == DirectDecode(input, After(input, d, DirectEvents(n, v), lits), v, k)
    decreases n
  {
    hide TakeDirect;
    if n > 0 {
      DirectOk(n - 1, v / 2, lits);
      CarriesSnoc(input, d, DirectEvents(n - 1, v / 2), Direct(v % 2), lits);
      DirectPrefix(input, d, n - 1, k + 1, v / 2, lits);
    }
  }

  /** The direct-bit loop turns v >> n back into v. */
  lemma DirectRead(input: seq<byte>, d: Receiver, n: nat, v: nat, lits: nat)
    requires ReceiverOk(d, lits)
    requires EventsOk(DirectEvents(n, v), lits) && Carries(input, d, DirectEvents(n, v), lits)
    ensures DirectDecode(input, d, Shr(v, n), n) == (After(input, d, DirectEvents(n, v), lits), v)
  {
    DirectPrefix(input, d, n, 0, v, lits);
  }
}
