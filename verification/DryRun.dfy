/** LzmaDec_TryDummy: reads the next symbol without touching the probabilities.

    Within one symbol no probability is used twice, so leaving them unadapted
    cannot be noticed: the dry run reads exactly the bits of the real run. */
module DryRun {
  import opened Bytes
  import opened RangeCoder
  import opened BitModels
  import opened Trees
  import opened Symbols
  import opened Codec
  import opened Decoding
  import opened Lookahead

  datatype Dummy = DummyError | DummyLit | DummyMatch | DummyRep

  /** The dry run's registers d against the real run's result r: equal as long as
      the input lasts, and given up exactly when the real run read past it. */
  ghost predicate Dry(ok: bool, d: Rc, r: Rc, bufLimit: nat)
  {
    if ok then d == r && r.pos <= bufLimit else r.pos > bufLimit
  }

  /** The real run stands where the dry run stands and has not yet adapted [lo, hi). */
  ghost predicate Shadow(live: Receiver, probs: seq<Prob>, d: Rc, bufLimit: nat, lo: int, hi: int)
  {
    && live.rc == d && Ready(d) && d.pos <= bufLimit && |live.probs| == |probs|
    && forall j :: lo <= j < hi && 0 <= j < |probs| ==> live.probs[j] == probs[j]
  }

  /** IF_BIT_0_CHECK with its update. */
  method CheckBit(src: seq<byte>, d: Rc, p: Prob, bufLimit: nat) returns (ok: bool, d': Rc, bit: Bit)
    requires Ready(d) && d.pos <= bufLimit
    ensures ok <==> Normalize(src, d).pos <= bufLimit
    ensures ok ==> (d', bit) == GetBit(src, d, p)
  {
    var range, code, buf := d.range, d.code, d.pos;
    if range < TOP {
      if buf >= bufLimit { return false, d, 0; }
      range := range * 256;
      code := (code * 256 + ByteAt(src, buf)) % WORD;
      buf := buf + 1;
    }
    var bound := Bound(range, p);
    if code < bound {
      return true, Rc(bound, code, buf), 0;
    }
    return true, Rc(range - bound, code - bound, buf), 1;
  }

  /** One bit of the dry run, next to the real run's bit. */
  method DummyBit(src: seq<byte>, probs: seq<Prob>, d: Rc, index: nat, bufLimit: nat, ghost live: Receiver)
    returns (ok: bool, d': Rc, bit: Bit)
    requires index < |probs| && Shadow(live, probs, d, bufLimit, index, index + 1)
    ensures Dry(ok, d', Take(src, live, index).0.rc, bufLimit)
    ensures ok ==> bit == Take(src, live, index).1
    ensures Framed(live, Take(src, live, index).0, index, index + 1)
  {
    TakeFrame(src, live, index);
    ok, d', bit := CheckBit(src, d, probs[index], bufLimit);
  }

  method DummyTree(src: seq<byte>, probs: seq<Prob>, d: Rc, base: nat, limit: nat, bufLimit: nat, ghost live: Receiver)
    returns (ok: bool, d': Rc, i: nat)
    requires limit > 1 && base + limit <= |probs| && Shadow(live, probs, d, bufLimit, base, base + limit)
    ensures var (r, n) := TreeDecode(src, live, base, 1, limit); Dry(ok, d', r.rc, bufLimit) && (ok ==> i == n)
  {
    hide Take;
    ghost var cur := live;
    ok, d', i := true, d, 1;
    while i < limit
      invariant 0 < i < 2 * limit && Shadow(cur, probs, d', bufLimit, base + i, base + limit)
      invariant TreeDecode(src, cur, base, i, limit) == TreeDecode(src, live, base, 1, limit)
      decreases 2 * limit - i
    {
      ghost var next := Take(src, cur, base + i);
      var bit;
      ok, d', bit := DummyBit(src, probs, d', base + i, bufLimit, cur);
      if !ok {
        TreeFrame(src, next.0, base, 2 * i + next.1, limit);
        return;
      }
      cur := next.0;
      i := i + i + bit;
    }
  }

  method DummyMatchedLiteral(src: seq<byte>, probs: seq<Prob>, d: Rc, base: nat, matchedByte: nat, bufLimit: nat,
                             ghost live: Receiver)
    returns (ok: bool, d': Rc)
    requires base + 0x300 <= |probs| && Shadow(live, probs, d, bufLimit, base, base + 0x300)
    ensures Dry(ok, d', MatchedDecode(src, live, base, 0x100, 1, matchedByte).0.rc, bufLimit)
  {
    hide Take, Unadapted;
    AllUnadapted(live, probs, base);
    ghost var cur := live;
    var symbol: nat, offs, matchByte := 1, 0x100, matchedByte;
    ok, d' := true, d;
    while symbol < 0x100
      invariant 0 < symbol < 0x200 && offs in {0, 0x100}
      invariant cur.rc == d' && Ready(d') && d'.pos <= bufLimit && |cur.probs| == |probs|
      invariant Unadapted(cur, probs, base, symbol)
      invariant MatchedDecode(src, cur, base, offs, symbol, matchByte) ==
                MatchedDecode(src, live, base, 0x100, 1, matchedByte)
      decreases 0x200 - symbol
    {
      matchByte := matchByte * 2;
      var bit := if offs == 0 then 0 else matchByte / 0x100 % 2 * 0x100;
      var index := base + offs + bit + symbol;
      UnadaptedNow(cur, probs, base, symbol, offs + bit + symbol);
      ghost var next := Take(src, cur, index);
      var b;
      ok, d', b := DummyBit(src, probs, d', index, bufLimit, cur);
      if !ok {
        MatchedFrame(src, next.0, base, if next.1 == 0 then offs - bit else bit, 2 * symbol + next.1, matchByte);
        return;
      }
      ghost var symbol' := symbol + symbol + b;
      UnadaptedNext(cur, probs, base, symbol, offs + bit + symbol, next.0, symbol');
      cur := next.0;
      symbol := symbol + symbol + b;
      offs := if b == 0 then offs - bit else bit;
    }
  }

  /** Offsets of a literal table that the matched loop may still use at a node. */
  ghost predicate Unread(k: nat, symbol: nat)
  {
    k < 0x300 && k % 0x100 >= symbol
  }

  /** The real run has not yet adapted what may still be used. */
  ghost predicate Unadapted(live: Receiver, probs: seq<Prob>, base: nat, symbol: nat)
    requires base + 0x300 <= |probs| == |live.probs|
  {
    forall k: nat :: Unread(k, symbol) ==> live.probs[base + k] == probs[base + k]
  }

  lemma AllUnadapted(live: Receiver, probs: seq<Prob>, base: nat)
    requires base + 0x300 <= |probs| == |live.probs|
    requires forall j :: base <= j < base + 0x300 ==> live.probs[j] == probs[j]
    ensures Unadapted(live, probs, base, 1)
  {
  }

  lemma UnadaptedNow(live: Receiver, probs: seq<Prob>, base: nat, symbol: nat, k: nat)
    requires base + 0x300 <= |probs| == |live.probs| && Unadapted(live, probs, base, symbol)
    requires k < 0x300 && k % 0x100 == symbol
    ensures live.probs[base + k] == probs[base + k]
  {
    assert Unread(k, symbol);
  }

  lemma UnadaptedNext(live: Receiver, probs: seq<Prob>, base: nat, symbol: nat, used: nat, next: Receiver, symbol': nat)
    requires base + 0x300 <= |probs| == |live.probs| == |next.probs| && Unadapted(live, probs, base, symbol)
    requires used < 0x300 && used % 0x100 == symbol < symbol'
    requires Framed(live, next, base + used, base + used + 1)
    ensures Unadapted(next, probs, base, symbol')
  {
    forall k: nat | Unread(k, symbol') ensures next.probs[base + k] == probs[base + k] {
      assert Unread(k, symbol) && k != used;
    }
  }

  method DummyReverse(src: seq<byte>, probs: seq<Prob>, d: Rc, base: int, n: nat, bufLimit: nat, ghost live: Receiver)
    returns (ok: bool, d': Rc)
    requires 0 <= base + 1 && n > 0 && base + LastNode(1, n) < |probs|
    requires Shadow(live, probs, d, bufLimit, base + 1, base + LastNode(1, n) + 1)
    ensures Dry(ok, d', ReverseDecode(src, live, base, 1, n).0.rc, bufLimit)
  {
    hide Take, LastNode;
    ghost var cur := live;
    ghost var last := LastNode(1, n);
    var i: nat, left := 1, n;
    ok, d' := true, d;
    while left != 0
      invariant 0 <= base + i && i > 0 && (left > 0 ==> LastNode(i, left) <= last)
      invariant Shadow(cur, probs, d', bufLimit, base + i, base + last + 1)
      invariant ReverseDecode(src, cur, base, i, left).0.rc == ReverseDecode(src, live, base, 1, n).0.rc
    {
      NodeRoom(i, left, 0);
      ghost var next := Take(src, cur, base + i);
      NodeRoom(i, left, next.1);
      var bit;
      ok, d', bit := DummyBit(src, probs, d', base + i, bufLimit, cur);
      if !ok {
        ReverseFrame(src, next.0, base, 2 * i + next.1, left - 1);
        return;
      }
      cur := next.0;
      i := i + i + bit;
      left := left - 1;
    }
  }

  method DummyDirect(src: seq<byte>, d: Rc, high: nat, n: nat, bufLimit: nat, ghost live: Receiver)
    returns (ok: bool, d': Rc)
    requires live.rc == d && Ready(d) && d.pos <= bufLimit
    ensures Dry(ok, d', DirectDecode(src, live, high, n).0.rc, bufLimit)
  {
    hide TakeDirect;
    ghost var cur, acc: nat := live, high;
    var left := n;
    ok, d' := true, d;
    while left != 0
      invariant cur.rc == d' && Ready(d') && d'.pos <= bufLimit
      invariant DirectDecode(src, cur, acc, left) == DirectDecode(src, live, high, n)
    {
      ghost var (next, b) := TakeDirect(src, cur);
      ok, d' := DummyDirectBit(src, d', bufLimit, cur);
      if !ok {
        DirectFrame(src, next, 2 * acc + b, left - 1);
        return;
      }
      cur, acc := next, 2 * acc + b;
      left := left - 1;
    }
  }

  /** Adding back what was subtracted in 32-bit arithmetic. */
  lemma BackAgain(code: nat, range: nat)
    requires code < WORD
    ensures ((code - range) % WORD + range) % WORD == code
  {
    var diff := code - range;
    assert diff == diff / WORD * WORD + diff % WORD;
    assert diff % WORD + range == code + -(diff / WORD) * WORD;
    WrapsBack(code, -(diff / WORD));
  }

  lemma WrapsBack(code: nat, k: int)
    requires code < WORD
    ensures (code + k * WORD) % WORD == code
  {
  }

  method DummyDirectBit(src: seq<byte>, d: Rc, bufLimit: nat, ghost cur: Receiver) returns (ok: bool, d': Rc)
    requires cur.rc == d && Ready(d) && d.pos <= bufLimit
    ensures Dry(ok, d', TakeDirect(src, cur).0.rc, bufLimit)
  {
    var range, code, buf := d.range, d.code, d.pos;
    if range < TOP {
      if buf >= bufLimit { return false, d; }
      range := range * 256;
      code := (code * 256 + ByteAt(src, buf)) % WORD;
      buf := buf + 1;
    }
    range := range / 2;
    BackAgain(code, range);
    if (code - range) % WORD < WORD / 2 { code := (code - range) % WORD; }
    ok, d' := true, Rc(range, code, buf);
  }

  method DummyLen(src: seq<byte>, probs: seq<Prob>, d: Rc, prob: nat, posState: nat, bufLimit: nat,
                  ghost live: Receiver)
    returns (ok: bool, d': Rc, len: nat)
    requires posState < 16 && prob + 514 <= |probs| && Shadow(live, probs, d, bufLimit, prob, prob + 514)
    ensures var (r, n) := LenDecode(src, live, prob, posState); Dry(ok, d', r.rc, bufLimit) && (ok ==> len == n)
  {
    hide Take, TreeDecode;
    LenFrame(src, live, prob, posState);
    len := 0;
    var bit;
    ghost var (l1, b1) := Take(src, live, prob);
    ok, d', bit := DummyBit(src, probs, d, prob, bufLimit, live);
    if !ok {
      LenPast(src, live, prob, posState);
      return;
    }
    var probLen, offset, limit;
    ghost var cur := l1;
    if bit == 0 {
      probLen, offset, limit := prob + 2 + posState * 8, 0, 8;
    } else {
      ghost var (l2, b2) := Take(src, l1, prob + 1);
      ok, d', bit := DummyBit(src, probs, d', prob + 1, bufLimit, l1);
      if !ok {
        LenPast(src, live, prob, posState);
        return;
      }
      cur := l2;
      if bit == 0 {
        probLen, offset, limit := prob + 130 + posState * 8, 8, 8;
      } else {
        probLen, offset, limit := prob + 258, 16, 0x100;
      }
    }
    var node;
    ok, d', node := DummyTree(src, probs, d', probLen, limit, bufLimit, cur);
    if ok { len := node - limit + offset; }
  }

  /** The length reader ends no earlier than after any of its leading bits. */
  lemma LenPast(src: seq<byte>, d: Receiver, prob: nat, posState: nat)
    requires Ready(d.rc) && posState < 16 && prob + 514 <= |d.probs|
    ensures var (d1, b1) := Take(src, d, prob);
            var r := LenDecode(src, d, prob, posState).0.rc.pos;
            r >= d1.rc.pos && (b1 == 1 ==> r >= Take(src, d1, prob + 1).0.rc.pos)
  {
    hide Take, TreeDecode;
    var (d1, b1) := Take(src, d, prob);
    TakeFrame(src, d, prob);
    if b1 == 0 {
      TreeFrame(src, d1, prob + 2 + posState * 8, 1, 8);
    } else {
      TakeFrame(src, d1, prob + 1);
      var (d2, b2) := Take(src, d1, prob + 1);
      if b2 == 0 {
        TreeFrame(src, d2, prob + 130 + posState * 8, 1, 8);
      } else {
        TreeFrame(src, d2, prob + 258, 1, 0x100);
      }
    }
  }

  /** The slot and what follows it. */
  method DummyDistance(src: seq<byte>, probs: seq<Prob>, d: Rc, len: nat, bufLimit: nat, ghost live: Receiver)
    returns (ok: bool, d': Rc)
    requires 1846 <= |probs| && Shadow(live, probs, d, bufLimit, 432, 818)
    ensures Dry(ok, d', DistDecode(src, live, len).0.rc, bufLimit)
  {
    hide Take, TakeDirect, TreeDecode, ReverseDecode, DirectDecode, LastNode, Pow2;
    var base := 432 + (if len < 4 then len else 3) * 64;
    TreeFrame(src, live, base, 1, 64);
    ghost var (l1, w) := TreeDecode(src, live, base, 1, 64);
    var node;
    ok, d', node := DummyTree(src, probs, d, base, 64, bufLimit, live);
    if !ok {
      FooterFrame(src, l1, w - 64);
      return;
    }
    var posSlot := node - 64;
    if posSlot >= 4 {
      var numDirectBits := posSlot / 2 - 1;
      var high := 2 + posSlot % 2;
      if posSlot < 14 {
        SpecRoom(posSlot);
        var spec := 688 + high * Pow2(numDirectBits) - posSlot - 1;
        ok, d' := DummyReverse(src, probs, d', spec, numDirectBits, bufLimit, l1);
      } else {
        ghost var l2 := DirectDecode(src, l1, high, numDirectBits - 4).0;
        AlignNodes();
        ok, d' := DummyDirect(src, d', high, numDirectBits - 4, bufLimit, l1);
        if !ok {
          ReverseFrame(src, l2, 802, 1, 4);
          return;
        }
        ok, d' := DummyReverse(src, probs, d', 802, 4, bufLimit, l2);
      }
    }
  }

  /** The repeated-match bits up to the length coder, or to the closing normalisation. */
  method DummyRepBits(src: seq<byte>, probs: seq<Prob>, d: Rc, state: nat, posState: nat, bufLimit: nat,
                      ghost live: Receiver)
    returns (ok: bool, d': Rc)
    requires state < 12 && posState < 16 && 1846 <= |probs|
    requires Shadow(live, probs, d, bufLimit, 204, 432) && Shadow(live, probs, d, bufLimit, 1332, 1846)
    ensures Dry(ok, d', ReadRep(src, live, state, posState).0.rc, bufLimit)
  {
    hide Take, LenDecode;
    var bit, len;
    ghost var (l1, b1) := Take(src, live, 204 + state);
    ghost var second := if b1 == 0 then 240 + state * 16 + posState else 216 + state;
    ghost var (l2, b2) := Take(src, l1, second);
    ghost var (l3, b3) := Take(src, l2, 228 + state);
    ghost var end := ReadRep(src, live, state, posState).0.rc.pos;
    assert end >= l2.rc.pos >= l1.rc.pos && (b1 == 1 && b2 == 1 ==> end >= l3.rc.pos) by {
      TakeFrame(src, live, 204 + state);
      TakeFrame(src, l1, second);
      TakeFrame(src, l2, 228 + state);
      LenFrame(src, l2, 1332, posState);
      LenFrame(src, l3, 1332, posState);
    }
    ok, d', bit := DummyBit(src, probs, d, 204 + state, bufLimit, live);
    if !ok { return; }
    if bit == 0 {
      ok, d', bit := DummyBit(src, probs, d', 240 + state * 16 + posState, bufLimit, l1);
      if !ok || bit == 0 { return; }
      ok, d', len := DummyLen(src, probs, d', 1332, posState, bufLimit, l2);
    } else {
      ok, d', bit := DummyBit(src, probs, d', 216 + state, bufLimit, l1);
      if !ok { return; }
      if bit == 0 {
        ok, d', len := DummyLen(src, probs, d', 1332, posState, bufLimit, l2);
      } else {
        ok, d', bit := DummyBit(src, probs, d', 228 + state, bufLimit, l2);
        if !ok { return; }
        ok, d', len := DummyLen(src, probs, d', 1332, posState, bufLimit, l3);
      }
    }
  }

  /** What the dry run reports against what the real run would do next. */
  ghost predicate Forecast(src: seq<byte>, real': (Receiver, Symbol), bufLimit: nat, res: Dummy)
  {
    var (r, sym) := real';
    var past := Normalize(src, r.rc).pos > bufLimit;
    match res
    case DummyError => past
    case DummyLit => !past && sym.Lit?
    case DummyMatch => !past && sym.Match?
    case DummyRep => !past && (sym.Rep? || sym.ShortRep?)
  }

  /** The match bits after isMatch and isRep. */
  method DummyMatchBits(src: seq<byte>, probs: seq<Prob>, d: Rc, posState: nat, bufLimit: nat, ghost live: Receiver)
    returns (ok: bool, d': Rc)
    requires posState < 16 && 1846 <= |probs| && Shadow(live, probs, d, bufLimit, 432, 1332)
    ensures var (r, n) := LenDecode(src, live, 818, posState); Dry(ok, d', DistDecode(src, r, n).0.rc, bufLimit)
  {
    hide Take, LenDecode, TreeDecode, FooterDecode;
    ghost var (l1, n) := LenDecode(src, live, 818, posState);
    LenFrame(src, live, 818, posState);
    var len;
    ok, d', len := DummyLen(src, probs, d, 818, posState, bufLimit, live);
    if !ok {
      ghost var base := 432 + (if n < 4 then n else 3) * 64;
      TreeFrame(src, l1, base, 1, 64);
      ghost var (l2, w) := TreeDecode(src, l1, base, 1, 64);
      FooterFrame(src, l2, w - 64);
      return;
    }
    ok, d' := DummyDistance(src, probs, d', len, bufLimit, l1);
  }

  /** LzmaDec_TryDummy reports missing input exactly when decoding the next symbol and
      its closing normalisation would read past bufLimit, and else names its kind. */
  method TryDummy(src: seq<byte>, prop: Props, s: Dec, bufLimit: nat) returns (res: Dummy)
    requires DecOk(prop, s) && s.bits.rc.pos <= bufLimit
    ensures Forecast(src, NextSymbol(prop, src, s), bufLimit, res)
  {
    hide Take, TreeDecode, MatchedDecode, LenDecode, DistDecode, ReadRep, PosState, DecLitBase;
    var probs, state, posState := s.bits.probs, s.state, PosState(prop, s.processedPos);
    ghost var live := s.bits;
    ghost var (l1, b1) := Take(src, live, state * 16 + posState);
    ghost var (l2, b2) := Take(src, l1, 192 + state);
    NextSymbolPast(src, prop, s);
    var ok, d, bit := DummyBit(src, probs, s.bits.rc, state * 16 + posState, bufLimit, live);
    if !ok { return DummyError; }
    if bit == 0 {
      var prob := 1846 + DecLitBase(prop, s);
      if state < 7 {
        var symbol;
        ok, d, symbol := DummyTree(src, probs, d, prob, 0x100, bufLimit, l1);
      } else {
        ok, d := DummyMatchedLiteral(src, probs, d, prob, DecMatchByte(prop, s), bufLimit, l1);
      }
      res := DummyLit;
    } else {
      ok, d, bit := DummyBit(src, probs, d, 192 + state, bufLimit, l1);
      if !ok { return DummyError; }
      if bit == 0 {
        ok, d := DummyMatchBits(src, probs, d, posState, bufLimit, l2);
        res := DummyMatch;
      } else {
        ok, d := DummyRepBits(src, probs, d, state, posState, bufLimit, l2);
        res := DummyRep;
      }
    }
    if !ok || (d.range < TOP && d.pos >= bufLimit) { res := DummyError; }
  }

  /** The symbol reader ends no earlier than after its two leading bits. */
  lemma NextSymbolPast(src: seq<byte>, prop: Props, s: Dec)
    requires DecOk(prop, s)
    ensures var (d1, b1) := Take(src, s.bits, s.state * 16 + PosState(prop, s.processedPos));
            var end := NextSymbol(prop, src, s).0.rc.pos;
            end >= d1.rc.pos && (b1 == 1 ==> end >= Take(src, d1, 192 + s.state).0.rc.pos)
  {
    hide Take, TreeDecode, MatchedDecode, LenDecode, DistDecode, ReadRep, PosState, DecLitBase, DecMatchByte, Pow,
        Allowance;
    var posState, prob := PosState(prop, s.processedPos), 1846 + DecLitBase(prop, s);
    var (d1, b1) := Take(src, s.bits, s.state * 16 + posState);
    if b1 == 0 {
      TreeFrame(src, d1, prob, 1, 0x100);
      MatchedFrame(src, d1, prob, 0x100, 1, DecMatchByte(prop, s));
    } else {
      TakeFrame(src, d1, 192 + s.state);
      var (d2, b2) := Take(src, d1, 192 + s.state);
      if b2 == 0 { MatchCost(src, d2, posState); } else { RepCost(src, d2, s.state, posState); }
    }
  }
}
