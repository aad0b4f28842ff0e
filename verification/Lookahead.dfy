/** How far the decoder reads: what each reader leaves alone, and a bound on the
    bytes that one symbol can consume. */
module Lookahead {
  import opened Bytes
  import opened RangeCoder
  import opened BitModels
  import opened Trees
  import opened Symbols

  // ------------------------------------------------------------------- frames

  /** r comes after d, changed only probabilities in [lo, hi) and gave nothing back. */
  ghost predicate Framed(d: Receiver, r: Receiver, lo: int, hi: int)
  {
    && |r.probs| == |d.probs| && r.rc.pos >= d.rc.pos
    && forall j :: 0 <= j < |d.probs| && !(lo <= j < hi) ==> r.probs[j] == d.probs[j]
  }

  lemma TakeFrame(input: seq<byte>, d: Receiver, index: nat)
    requires Ready(d.rc) && index < |d.probs|
    ensures Framed(d, Take(input, d, index).0, index, index + 1)
    ensures Take(input, d, index).0.rc.pos == Normalize(input, d.rc).pos
  {
  }

  lemma {:induction false} TreeFrame(input: seq<byte>, d: Receiver, base: nat, i: nat, limit: nat)
    requires Ready(d.rc) && 0 < i < 2 * limit && base + limit <= |d.probs|
    ensures Framed(d, TreeDecode(input, d, base, i, limit).0, base + i, base + limit)
    decreases 2 * limit - i
  {
    hide Take;
    if i < limit {
      TakeFrame(input, d, base + i);
      var (d', b) := Take(input, d, base + i);
      TreeFrame(input, d', base, 2 * i + b, limit);
    }
  }

  lemma {:induction false} MatchedFrame(input: seq<byte>, d: Receiver, base: nat, offs: nat, symbol: nat,
                                        matchByte: nat)
    requires Ready(d.rc) && 0 < symbol < 0x200 && offs in {0, 0x100} && base + 0x300 <= |d.probs|
    ensures Framed(d, MatchedDecode(input, d, base, offs, symbol, matchByte).0, base + symbol, base + 0x300)
    decreases 0x200 - symbol
  {
    hide Take;
    if symbol < 0x100 {
      var m := matchByte * 2;
      var bit := if offs == 0 then 0 else m / 0x100 % 2 * 0x100;
      TakeFrame(input, d, base + offs + bit + symbol);
      var (d', b) := Take(input, d, base + offs + bit + symbol);
      MatchedFrame(input, d', base, if b == 0 then offs - bit else bit, 2 * symbol + b, m);
    }
  }

  lemma {:induction false} ReverseFrame(input: seq<byte>, d: Receiver, base: int, i: nat, n: nat)
    requires Ready(d.rc) && 0 <= base + i && (n > 0 ==> base + LastNode(i, n) < |d.probs|)
    ensures Framed(d, ReverseDecode(input, d, base, i, n).0, base + i,
                   if n == 0 then base + i else base + LastNode(i, n) + 1)
    decreases n
  {
    hide Take;
    if n > 0 {
      LastNodeGrows(i, i, n);
      TakeFrame(input, d, base + i);
      var (d', b) := Take(input, d, base + i);
      LastNodeGrows(2 * i + b, 2 * i + 1, n - 1);
      ReverseFrame(input, d', base, 2 * i + b, n - 1);
    }
  }

  lemma {:induction false} DirectFrame(input: seq<byte>, d: Receiver, acc: nat, n: nat)
    requires Ready(d.rc)
    ensures DirectDecode(input, d, acc, n).0.rc.pos >= d.rc.pos
    decreases n
  {
    if n > 0 {
      var (d', b) := TakeDirect(input, d);
      assert d'.rc.pos >= d.rc.pos;
      hide TakeDirect;
      DirectFrame(input, d', 2 * acc + b, n - 1);
    }
  }

  lemma LenFrame(input: seq<byte>, d: Receiver, prob: nat, posState: nat)
    requires Ready(d.rc) && posState < 16 && prob + 514 <= |d.probs|
    ensures Framed(d, LenDecode(input, d, prob, posState).0, prob, prob + 514)
  {
    hide Take, TreeDecode;
    TakeFrame(input, d, prob);
    var (d1, b1) := Take(input, d, prob);
    if b1 == 0 {
      TreeFrame(input, d1, prob + 2 + posState * 8, 1, 8);
    } else {
      TakeFrame(input, d1, prob + 1);
      var (d2, b2) := Take(input, d1, prob + 1);
      if b2 == 0 {
        TreeFrame(input, d2, prob + 130 + posState * 8, 1, 8);
      } else {
        TreeFrame(input, d2, prob + 258, 1, 0x100);
      }
    }
  }

  lemma FooterFrame(input: seq<byte>, d: Receiver, slot: nat)
    requires Ready(d.rc) && 1846 <= |d.probs|
    ensures FooterDecode(input, d, slot).0.rc.pos >= d.rc.pos
  {
    hide Take, TakeDirect, ReverseDecode, DirectDecode, LastNode;
    if slot >= 4 {
      var n, high := slot / 2 - 1, 2 + slot % 2;
      if slot < 14 {
        SpecRoom(slot);
        ReverseFrame(input, d, 688 + high * Pow2(n) - slot - 1, 1, n);
      } else {
        DirectFrame(input, d, high, n - 4);
        AlignNodes();
        ReverseFrame(input, DirectDecode(input, d, high, n - 4).0, 802, 1, 4);
      }
    }
  }

  // ------------------------------------------------- bytes read by one symbol

  ghost function Pow(b: real, n: nat): (r: real)
    requires b > 0.0
    ensures r > 0.0
  {
    if n == 0 then 1.0 else b * Pow(b, n - 1)
  }

  /** Every byte read scales the range by 256, and coding shrank it by at most w. */
  ghost predicate Spent(d: Rc, r: Rc, w: real)
  {
    r.pos >= d.pos && w > 0.0 && d.range as real * Pow(256.0, r.pos - d.pos) <= r.range as real * w
  }

  lemma {:induction false} PowSum(b: real, m: nat, n: nat)
    requires b > 0.0
    ensures Pow(b, m + n) == Pow(b, m) * Pow(b, n)
    decreases m
  {
    if m > 0 {
      PowSum(b, m - 1, n);
      assert Pow(b, m + n) == b * (Pow(b, m - 1) * Pow(b, n));
    }
  }

  lemma Scale(x: real, y: real, z: real)
    requires x <= y && z >= 0.0
    ensures x * z <= y * z
  {
  }

  lemma SpentThen(a: Rc, b: Rc, c: Rc, v: real, w: real)
    requires Spent(a, b, v) && Spent(b, c, w)
    ensures Spent(a, c, v * w)
  {
    hide Pow;
    var p, q := Pow(256.0, b.pos - a.pos), Pow(256.0, c.pos - b.pos);
    PowSum(256.0, b.pos - a.pos, c.pos - b.pos);
    var ra, rb, rc := a.range as real, b.range as real, c.range as real;
    Scale(ra * p, rb * v, q);
    Scale(rb * q, rc * w, v);
    assert ra * (p * q) == ra * p * q;
    assert rb * v * q == rb * q * v;
    assert rc * w * v == rc * (v * w);
  }

  const ADAPTIVE := 66.1
  const DIRECT := 2.01

  lemma NormSpent(input: seq<byte>, d: Rc)
    requires Ready(d)
    ensures Spent(d, Normalize(input, d), 1.0)
  {
    assert Pow(256.0, 0) == 1.0 && Pow(256.0, 1) == 256.0 * Pow(256.0, 0);
  }

  /** One adaptive bit costs a factor below 66.1, whatever its probability. */
  lemma BitSpent(input: seq<byte>, d: Receiver, index: nat)
    requires Ready(d.rc) && index < |d.probs|
    ensures Spent(d.rc, Take(input, d, index).0.rc, ADAPTIVE)
  {
    var n, r := Normalize(input, d.rc), Take(input, d, index).0.rc;
    var p := d.probs[index];
    BoundCost(n.range, p);
    assert Pow(256.0, 0) == 1.0;
    assert Spent(n, r, ADAPTIVE);
    NormSpent(input, d.rc);
    SpentThen(d.rc, n, r, 1.0, ADAPTIVE);
  }

  lemma BoundCost(range: nat, p: Prob)
    requires TOP <= range < WORD
    ensures 10 * range <= 661 * Bound(range, p) && 10 * range <= 661 * (range - Bound(range, p))
  {
    var q := range / MODEL_TOTAL;
    ProductBounds(q, p);
    CostArith(q, range % MODEL_TOTAL, q * p);
  }

  lemma ProductBounds(q: nat, p: Prob)
    ensures q * 31 <= q * p <= q * 2017
  {
  }

  lemma CostArith(q: nat, r: nat, m: nat)
    requires 8192 <= q && r < 2048 && q * 31 <= m <= q * 2017
    ensures 10 * (q * 2048 + r) <= 661 * m && 10 * (q * 2048 + r) <= 661 * (q * 2048 + r - m)
  {
  }

  lemma DirectSpent(input: seq<byte>, d: Receiver)
    requires Ready(d.rc)
    ensures Spent(d.rc, TakeDirect(input, d).0.rc, DIRECT)
  {
    var n, r := Normalize(input, d.rc), TakeDirect(input, d).0.rc;
    assert Pow(256.0, 0) == 1.0;
    assert 100 * n.range <= 201 * r.range;
    assert Spent(n, r, DIRECT);
    NormSpent(input, d.rc);
    SpentThen(d.rc, n, r, 1.0, DIRECT);
  }

  // ------------------------------------------------------- counting the bits

  lemma PowStep(b: real, n: nat)
    requires b > 0.0 && n > 0
    ensures Pow(b, n) == b * Pow(b, n - 1)
  {
  }

  /** The allowance of a adaptive and k direct bits. */
  ghost function Allowance(a: nat, k: nat): (w: real)
    ensures w > 0.0
  {
    Pow(ADAPTIVE, a) * Pow(DIRECT, k)
  }

  /** r is reached from d by at most a adaptive and k direct bits' worth of coding. */
  ghost predicate Costs(d: Rc, r: Rc, a: nat, k: nat) { Spent(d, r, Allowance(a, k)) }

  lemma CostsThen(x: Rc, y: Rc, z: Rc, a: nat, k: nat, b: nat, l: nat)
    requires Costs(x, y, a, k) && Costs(y, z, b, l)
    ensures Costs(x, z, a + b, k + l)
  {
    hide Spent, Pow;
    SpentThen(x, y, z, Allowance(a, k), Allowance(b, l));
    PowSum(ADAPTIVE, a, b);
    PowSum(DIRECT, k, l);
    var p, q, r, s := Pow(ADAPTIVE, a), Pow(DIRECT, k), Pow(ADAPTIVE, b), Pow(DIRECT, l);
    assert (p * q) * (r * s) == (p * r) * (q * s);
  }

  lemma CostsNothing(d: Rc)
    ensures Costs(d, d, 0, 0)
  {
    assert Pow(256.0, 0) == Pow(ADAPTIVE, 0) == Pow(DIRECT, 0) == 1.0;
  }

  lemma CostsBit(input: seq<byte>, d: Receiver, index: nat)
    requires Ready(d.rc) && index < |d.probs|
    ensures Costs(d.rc, Take(input, d, index).0.rc, 1, 0)
  {
    hide Take, Spent;
    BitSpent(input, d, index);
    assert Pow(ADAPTIVE, 1) == ADAPTIVE * Pow(ADAPTIVE, 0) == ADAPTIVE && Pow(DIRECT, 0) == 1.0;
  }

  lemma CostsDirect(input: seq<byte>, d: Receiver)
    requires Ready(d.rc)
    ensures Costs(d.rc, TakeDirect(input, d).0.rc, 0, 1)
  {
    hide TakeDirect, Spent;
    DirectSpent(input, d);
    assert Pow(DIRECT, 1) == DIRECT * Pow(DIRECT, 0) == DIRECT && Pow(ADAPTIVE, 0) == 1.0;
  }

  /** A larger allowance covers a smaller one. */
  lemma {:induction false} CostsMore(d: Rc, r: Rc, a: nat, k: nat, b: nat, l: nat)
    requires a <= b && k <= l && Costs(d, r, a, k)
    ensures Costs(d, r, b, l)
    decreases b + l
  {
    hide Spent, Pow;
    if a < b {
      CostsMore(d, r, a, k, b - 1, l);
      PowStep(ADAPTIVE, b);
      var p, q := Pow(ADAPTIVE, b - 1), Pow(DIRECT, l);
      Scale(p, ADAPTIVE * p, q);
      AllowMore(d, r, Allowance(b - 1, l), Allowance(b, l));
    } else if k < l {
      CostsMore(d, r, a, k, b, l - 1);
      PowStep(DIRECT, l);
      var p, q := Pow(ADAPTIVE, b), Pow(DIRECT, l - 1);
      Scale(q, DIRECT * q, p);
      AllowMore(d, r, Allowance(b, l - 1), Allowance(b, l));
    }
  }

  lemma AllowMore(d: Rc, r: Rc, v: real, w: real)
    requires Spent(d, r, v) && v <= w
    ensures Spent(d, r, w)
  {
    Scale(v, w, r.range as real);
  }

  /** A tree walk takes at most n bits when n doublings of the node reach the limit. */
  lemma {:induction false} TreeCost(input: seq<byte>, d: Receiver, base: nat, i: nat, limit: nat, n: nat)
    requires Ready(d.rc) && 0 < i < 2 * limit && base + limit <= |d.probs| && limit <= i * Pow2(n)
    ensures Costs(d.rc, TreeDecode(input, d, base, i, limit).0.rc, n, 0)
    decreases n
  {
    hide Take, Costs;
    if i < limit {
      var (d', b) := Take(input, d, base + i);
      CostsBit(input, d, base + i);
      DoubleNode(i, b, n);
      TreeCost(input, d', base, 2 * i + b, limit, n - 1);
      CostsThen(d.rc, d'.rc, TreeDecode(input, d, base, i, limit).0.rc, 1, 0, n - 1, 0);
    } else {
      CostsNothing(d.rc);
      CostsMore(d.rc, d.rc, 0, 0, n, 0);
    }
  }

  lemma DoubleNode(i: nat, b: Bit, n: nat)
    requires n > 0
    ensures i * Pow2(n) <= (2 * i + b) * Pow2(n - 1)
  {
    assert i * Pow2(n) == (2 * i) * Pow2(n - 1);
  }

  lemma {:induction false} MatchedCost(input: seq<byte>, d: Receiver, base: nat, offs: nat, symbol: nat, matchByte: nat,
                                       n: nat)
    requires Ready(d.rc) && 0 < symbol < 0x200 && offs in {0, 0x100} && base + 0x300 <= |d.probs| &&
             0x100 <= symbol * Pow2(n)
    ensures Costs(d.rc, MatchedDecode(input, d, base, offs, symbol, matchByte).0.rc, n, 0)
    decreases n
  {
    hide Take, Costs;
    if symbol < 0x100 {
      var m := matchByte * 2;
      var bit := if offs == 0 then 0 else m / 0x100 % 2 * 0x100;
      var (d', b) := Take(input, d, base + offs + bit + symbol);
      CostsBit(input, d, base + offs + bit + symbol);
      DoubleNode(symbol, b, n);
      MatchedCost(input, d', base, if b == 0 then offs - bit else bit, 2 * symbol + b, m, n - 1);
      CostsThen(d.rc, d'.rc, MatchedDecode(input, d, base, offs, symbol, matchByte).0.rc, 1, 0, n - 1, 0);
    } else {
      CostsNothing(d.rc);
      CostsMore(d.rc, d.rc, 0, 0, n, 0);
    }
  }

  lemma {:induction false} ReverseCost(input: seq<byte>, d: Receiver, base: int, i: nat, n: nat)
    requires Ready(d.rc) && 0 <= base + i && (n > 0 ==> base + LastNode(i, n) < |d.probs|)
    ensures Costs(d.rc, ReverseDecode(input, d, base, i, n).0.rc, n, 0)
    decreases n
  {
    hide Take, Costs;
    if n == 0 {
      CostsNothing(d.rc);
    } else {
      LastNodeGrows(i, i, n);
      CostsBit(input, d, base + i);
      var (d', b) := Take(input, d, base + i);
      LastNodeGrows(2 * i + b, 2 * i + 1, n - 1);
      ReverseCost(input, d', base, 2 * i + b, n - 1);
      CostsThen(d.rc, d'.rc, ReverseDecode(input, d, base, i, n).0.rc, 1, 0, n - 1, 0);
    }
  }

  lemma {:induction false} DirectCost(input: seq<byte>, d: Receiver, acc: nat, n: nat)
    requires Ready(d.rc)
    ensures Costs(d.rc, DirectDecode(input, d, acc, n).0.rc, 0, n)
    decreases n
  {
    hide TakeDirect, Costs;
    if n == 0 {
      CostsNothing(d.rc);
    } else {
      CostsDirect(input, d);
      var (d', b) := TakeDirect(input, d);
      DirectCost(input, d', 2 * acc + b, n - 1);
      CostsThen(d.rc, d'.rc, DirectDecode(input, d, acc, n).0.rc, 0, 1, 0, n - 1);
    }
  }

  lemma LenCost(input: seq<byte>, d: Receiver, prob: nat, posState: nat)
    requires Ready(d.rc) && posState < 16 && prob + 514 <= |d.probs|
    ensures Costs(d.rc, LenDecode(input, d, prob, posState).0.rc, 10, 0)
  {
    hide Take, TreeDecode, Costs, Pow2;
    TreeSizes();
    var r := LenDecode(input, d, prob, posState).0;
    CostsBit(input, d, prob);
    var (d1, b1) := Take(input, d, prob);
    if b1 == 0 {
      TreeCost(input, d1, prob + 2 + posState * 8, 1, 8, 3);
      CostsMore(d1.rc, r.rc, 3, 0, 9, 0);
    } else {
      CostsBit(input, d1, prob + 1);
      var (d2, b2) := Take(input, d1, prob + 1);
      if b2 == 0 {
        TreeCost(input, d2, prob + 130 + posState * 8, 1, 8, 3);
        CostsMore(d2.rc, r.rc, 3, 0, 8, 0);
      } else {
        TreeCost(input, d2, prob + 258, 1, 0x100, 8);
      }
      CostsThen(d1.rc, d2.rc, r.rc, 1, 0, 8, 0);
    }
    CostsThen(d.rc, d1.rc, r.rc, 1, 0, 9, 0);
  }

  lemma FooterCost(input: seq<byte>, d: Receiver, slot: nat)
    requires Ready(d.rc) && 1846 <= |d.probs| && slot < 64
    ensures Costs(d.rc, FooterDecode(input, d, slot).0.rc, 5, 0) ||
            Costs(d.rc, FooterDecode(input, d, slot).0.rc, 4, 26)
  {
    hide Take, TakeDirect, ReverseDecode, DirectDecode, LastNode, Costs, Pow2;
    var r := FooterDecode(input, d, slot).0;
    if slot < 4 {
      CostsNothing(d.rc);
      CostsMore(d.rc, r.rc, 0, 0, 5, 0);
    } else {
      var n, high := slot / 2 - 1, 2 + slot % 2;
      if slot < 14 {
        SpecRoom(slot);
        ReverseCost(input, d, 688 + high * Pow2(n) - slot - 1, 1, n);
        CostsMore(d.rc, r.rc, n, 0, 5, 0);
      } else {
        AlignNodes();
        var d1 := DirectDecode(input, d, high, n - 4).0;
        DirectCost(input, d, high, n - 4);
        ReverseCost(input, d1, 802, 1, 4);
        CostsThen(d.rc, d1.rc, r.rc, 0, n - 4, 4, 0);
        CostsMore(d.rc, r.rc, 4, n - 4, 4, 26);
      }
    }
  }

  /** What one symbol can cost at most: 22 adaptive and 26 direct bits, or 23 adaptive ones. */
  ghost predicate SymbolCosts(d: Rc, r: Rc) { Costs(d, r, 22, 26) || Costs(d, r, 23, 0) }

  lemma MatchCost(input: seq<byte>, d: Receiver, posState: nat)
    requires Ready(d.rc) && posState < 16 && 1846 <= |d.probs|
    ensures var (d1, len) := LenDecode(input, d, 818, posState);
            var r := DistDecode(input, d1, len).0.rc; Costs(d.rc, r, 20, 26) || Costs(d.rc, r, 21, 0)
  {
    hide Take, TreeDecode, LenDecode, FooterDecode, Costs, Pow2;
    TreeSizes();
    LenCost(input, d, 818, posState);
    var (d1, len) := LenDecode(input, d, 818, posState);
    var base := 432 + (if len < 4 then len else 3) * 64;
    TreeCost(input, d1, base, 1, 64, 6);
    var (d2, w) := TreeDecode(input, d1, base, 1, 64);
    FooterCost(input, d2, w - 64);
    var r := FooterDecode(input, d2, w - 64).0;
    CostsThen(d.rc, d1.rc, d2.rc, 10, 0, 6, 0);
    if Costs(d2.rc, r.rc, 5, 0) {
      CostsThen(d.rc, d2.rc, r.rc, 16, 0, 5, 0);
    } else {
      CostsThen(d.rc, d2.rc, r.rc, 16, 0, 4, 26);
    }
  }

  lemma RepCost(input: seq<byte>, d: Receiver, state: nat, posState: nat)
    requires Ready(d.rc) && state < 12 && posState < 16 && 1846 <= |d.probs|
    ensures Costs(d.rc, ReadRep(input, d, state, posState).0.rc, 13, 0)
  {
    hide Take, LenDecode, Costs;
    var r := ReadRep(input, d, state, posState).0;
    CostsBit(input, d, 204 + state);
    var (d1, b1) := Take(input, d, 204 + state);
    var second := if b1 == 0 then 240 + state * 16 + posState else 216 + state;
    CostsBit(input, d1, second);
    var (d2, b2) := Take(input, d1, second);
    CostsThen(d.rc, d1.rc, d2.rc, 1, 0, 1, 0);
    if b1 == 0 && b2 == 0 {
      CostsMore(d.rc, r.rc, 2, 0, 13, 0);
    } else if b1 == 0 || b2 == 0 {
      LenCost(input, d2, 1332, posState);
      CostsThen(d.rc, d2.rc, r.rc, 2, 0, 10, 0);
      CostsMore(d.rc, r.rc, 12, 0, 13, 0);
    } else {
      CostsBit(input, d2, 228 + state);
      var (d3, _) := Take(input, d2, 228 + state);
      LenCost(input, d3, 1332, posState);
      CostsThen(d.rc, d2.rc, d3.rc, 2, 0, 1, 0);
      CostsThen(d.rc, d3.rc, r.rc, 3, 0, 10, 0);
    }
  }

  lemma SymbolCost(input: seq<byte>, d: Receiver, state: nat, posState: nat, litBase: nat, matchByte: nat)
    requires Ready(d.rc) && state < 12 && posState < 16 && 1846 + litBase + 768 <= |d.probs|
    ensures SymbolCosts(d.rc, ReadSymbol(input, d, state, posState, litBase, matchByte).0.rc)
  {
    hide Take, TreeDecode, MatchedDecode, LenDecode, DistDecode, ReadRep, Costs, Pow2;
    TreeSizes();
    var r := ReadSymbol(input, d, state, posState, litBase, matchByte).0;
    CostsBit(input, d, state * 16 + posState);
    var (d1, b1) := Take(input, d, state * 16 + posState);
    if b1 == 0 {
      if state < 7 {
        TreeCost(input, d1, 1846 + litBase, 1, 0x100, 8);
      } else {
        MatchedCost(input, d1, 1846 + litBase, 0x100, 1, matchByte, 8);
      }
      CostsThen(d.rc, d1.rc, r.rc, 1, 0, 8, 0);
      CostsMore(d.rc, r.rc, 9, 0, 23, 0);
    } else {
      CostsBit(input, d1, 192 + state);
      var (d2, b2) := Take(input, d1, 192 + state);
      CostsThen(d.rc, d1.rc, d2.rc, 1, 0, 1, 0);
      if b2 == 0 {
        MatchCost(input, d2, posState);
        if Costs(d2.rc, r.rc, 21, 0) {
          CostsThen(d.rc, d2.rc, r.rc, 2, 0, 21, 0);
        } else {
          CostsThen(d.rc, d2.rc, r.rc, 2, 0, 20, 26);
        }
      } else {
        RepCost(input, d2, state, posState);
        CostsThen(d.rc, d2.rc, r.rc, 2, 0, 13, 0);
        CostsMore(d.rc, r.rc, 15, 0, 23, 0);
      }
    }
  }

  lemma Product(x: real, y: real, cx: real, cy: real)
    requires 0.0 <= x <= cx && 0.0 <= y <= cy
    ensures x * y <= cx * cy
  {
    Scale(x, cx, y);
    Scale(y, cy, cx);
  }

  /** Pow(b, m + n) is bounded by the product of bounds for m and n. */
  lemma PowBound(b: real, m: nat, n: nat, cm: real, cn: real)
    requires b > 0.0 && Pow(b, m) <= cm && Pow(b, n) <= cn
    ensures Pow(b, m + n) <= cm * cn
  {
    hide Pow;
    PowSum(b, m, n);
    Product(Pow(b, m), Pow(b, n), cm, cn);
  }

  lemma AdaptiveBound()
    ensures Pow(ADAPTIVE, 22) <= 11110000000000000000000000000000000000000.0
    ensures Pow(ADAPTIVE, 23) <= 734000000000000000000000000000000000000000.0
  {
    PowStep(ADAPTIVE, 1);
    assert Pow(ADAPTIVE, 0) == 1.0;
    hide Pow;
    PowBound(ADAPTIVE, 1, 1, 66.1, 66.1);
    PowBound(ADAPTIVE, 2, 2, 4370.0, 4370.0);
    PowBound(ADAPTIVE, 4, 4, 19096900.0, 19096900.0);
    PowBound(ADAPTIVE, 8, 8, 364700000000000.0, 364700000000000.0);
    PowBound(ADAPTIVE, 16, 4, 133010000000000000000000000000.0, 19096900.0);
    PowBound(ADAPTIVE, 20, 2, 2541000000000000000000000000000000000.0, 4370.0);
    PowBound(ADAPTIVE, 22, 1, 11105000000000000000000000000000000000000.0, 66.1);
  }

  lemma DirectBound()
    ensures Pow(DIRECT, 26) <= 76500000.0
  {
    PowStep(DIRECT, 1);
    assert Pow(DIRECT, 0) == 1.0;
    hide Pow;
    PowBound(DIRECT, 1, 1, 2.01, 2.01);
    PowBound(DIRECT, 2, 2, 4.0401, 4.0401);
    PowBound(DIRECT, 4, 4, 16.3225, 16.3225);
    PowBound(DIRECT, 8, 8, 266.43, 266.43);
    PowBound(DIRECT, 16, 8, 70985.0, 266.43);
    PowBound(DIRECT, 24, 2, 18915000.0, 4.0401);
  }

  lemma StreamBound()
    ensures Pow(256.0, 21) >= 370000000000000000000000000000000000000000000000000.0
  {
    PowStep(256.0, 1);
    assert Pow(256.0, 0) == 1.0;
    hide Pow;
    PowSum(256.0, 1, 1);
    PowSum(256.0, 2, 2);
    PowSum(256.0, 4, 4);
    PowSum(256.0, 8, 8);
    PowSum(256.0, 16, 4);
    PowSum(256.0, 20, 1);
    assert Pow(256.0, 4) == 4294967296.0;
    assert Pow(256.0, 8) == 18446744073709551616.0;
    assert Pow(256.0, 16) == 18446744073709551616.0 * 18446744073709551616.0;
  }

  /** log2 of 66.1^22 * 2.01^26 stays below 160. */
  lemma AllowanceBounds()
    ensures 256.0 * Allowance(22, 26) < Pow(256.0, 21) && 256.0 * Allowance(23, 0) < Pow(256.0, 21)
  {
    hide Pow;
    AdaptiveBound();
    DirectBound();
    StreamBound();
    PowZero(DIRECT);
    Below160(Pow(ADAPTIVE, 22), Pow(DIRECT, 26), Pow(256.0, 21));
  }

  lemma PowZero(b: real)
    requires b > 0.0
    ensures Pow(b, 0) == 1.0
  {
  }

  lemma Below160(x: real, y: real, z: real)
    requires 0.0 <= x <= 11110000000000000000000000000000000000000.0 && 0.0 <= y <= 76500000.0
    requires z >= 370000000000000000000000000000000000000000000000000.0
    ensures 256.0 * (x * y) < z
  {
    Product(x, y, 11110000000000000000000000000000000000000.0, 76500000.0);
  }

  lemma {:induction false} PowGrows(m: nat, n: nat)
    requires m <= n
    ensures Pow(256.0, m) <= Pow(256.0, n)
    decreases n
  {
    if m < n { PowGrows(m, n - 1); }
  }

  /** LZMA_REQUIRED_INPUT_MAX: from a normalised state, any symbol together with its
      closing normalisation reads at most 20 bytes. */
  lemma TwentyBytes(input: seq<byte>, d: Receiver, state: nat, posState: nat, litBase: nat, matchByte: nat)
    requires Ready(d.rc) && TOP <= d.rc.range && state < 12 && posState < 16 && 1846 + litBase + 768 <= |d.probs|
    ensures Normalize(input, ReadSymbol(input, d, state, posState, litBase, matchByte).0.rc).pos <= d.rc.pos + 20
  {
    hide ReadSymbol, Pow, Allowance;
    var r := ReadSymbol(input, d, state, posState, litBase, matchByte).0.rc;
    var n := Normalize(input, r);
    SymbolCost(input, d, state, posState, litBase, matchByte);
    var w := if Costs(d.rc, r, 22, 26) then Allowance(22, 26) else Allowance(23, 0);
    NormSpent(input, r);
    SpentThen(d.rc, r, n, w, 1.0);
    AllowanceBounds();
    var p := Pow(256.0, n.pos - d.rc.pos);
    FinalRange(d.rc.range as real, n.range as real, p, w);
    if n.pos - d.rc.pos >= 21 { PowGrows(21, n.pos - d.rc.pos); }
  }

  lemma FinalRange(from: real, to: real, p: real, w: real)
    requires TOP as real <= from && to <= WORD as real && from * p <= to * (w * 1.0) && p > 0.0 && w > 0.0
    ensures p <= 256.0 * w
  {
    Scale(TOP as real, from, p);
    Scale(to, WORD as real, w);
  }
}
