/** CLzmaDec: the decoder as the program runs it, proved against Symbols and Decoding. */
module Decoder {
  import opened Bytes
  import opened RangeCoder
  import opened BitModels
  import opened Trees
  import opened Symbols
  import opened Codec
  import opened Decoding
  import opened Lookahead
  import opened DryRun
  import opened Runs

  class LzmaDec {
    const src: seq<byte>
    const prop: Props
    const dic: array<byte>
    var probs: seq<Prob>
    var range: nat
    var code: nat
    var buf: nat
    var dicPos: nat
    var processedPos: nat
    var checkDicSize: nat
    var state: nat
    var reps: seq<nat>
    var remainLen: nat

    constructor (src: seq<byte>, prop: Props, dest: array<byte>)
      ensures this.src == src && this.prop == prop && this.dic == dest
      ensures dicPos == processedPos == checkDicSize == remainLen == 0
    {
      this.src, this.prop, this.dic := src, prop, dest;
      dicPos, processedPos, checkDicSize, remainLen := 0, 0, 0, 0;
      probs, range, code, buf, state, reps := [], 0, 0, 0, 0, [];
    }

    function Bits(): Receiver
      reads this`probs, this`range, this`code, this`buf
    {
      Receiver(Rc(range, code, buf), probs)
    }

    function St(): Dec
      reads this, dic
    {
      Dec(Bits(), state, reps, dic[..], dicPos, processedPos, checkDicSize, remainLen)
    }

    /** NORMALIZE. */
    method Norm()
      requires Ready(Bits().rc)
      modifies this`range, this`code, this`buf
      ensures Bits().rc == Normalize(src, old(Bits().rc)) && TOP <= range < WORD && code < WORD
    {
      if range < TOP {
        range := range * 256;
        code := (code * 256 + ByteAt(src, buf)) % WORD;
        buf := buf + 1;
      }
    }

    /** GET_BIT on the probability at `index`. */
    method GetBit(index: nat) returns (bit: Bit)
      requires Ready(Bits().rc) && index < |probs|
      modifies this`probs, this`range, this`code, this`buf
      ensures (Bits(), bit) == Take(src, old(Bits()), index)
    {
      var ttt := probs[index];
      Norm();
      var bound := Bound(range, ttt);
      if code < bound {
        range := bound;
        probs := probs[index := ttt + (MODEL_TOTAL - ttt) / 32];
        bit := 0;
      } else {
        range, code := range - bound, code - bound;
        probs := probs[index := ttt - ttt / 32];
        bit := 1;
      }
    }

    /** One direct bit. */
    method GetDirectBit() returns (bit: Bit)
      requires Ready(Bits().rc)
      modifies this`range, this`code, this`buf
      ensures (Bits(), bit) == TakeDirect(src, old(Bits()))
    {
      Norm();
      range := range / 2;
      code := (code - range) % WORD;
      if code >= WORD / 2 {
        bit, code := 0, (code + range) % WORD;
      } else {
        bit := 1;
      }
    }

    /** TREE_DECODE before the final subtraction; also the plain literal loop. */
    method DecodeTree(base: nat, limit: nat) returns (i: nat)
      requires Ready(Bits().rc) && limit > 1 && base + limit <= |probs|
      modifies this`probs, this`range, this`code, this`buf
      ensures (Bits(), i) == TreeDecode(src, old(Bits()), base, 1, limit)
    {
      hide Take;
      i := 1;
      while i < limit
        invariant 0 < i < 2 * limit && Ready(Bits().rc) && base + limit <= |probs|
        invariant TreeDecode(src, Bits(), base, i, limit) == TreeDecode(src, old(Bits()), base, 1, limit)
        decreases 2 * limit - i
      {
        var bit := GetBit(base + i);
        i := i + i + bit;
      }
    }

    method DecodeMatchedLiteral(base: nat, matchedByte: nat) returns (symbol: nat)
      requires Ready(Bits().rc) && base + 0x300 <= |probs|
      modifies this`probs, this`range, this`code, this`buf
      ensures (Bits(), symbol) == MatchedDecode(src, old(Bits()), base, 0x100, 1, matchedByte)
    {
      hide Take;
      var matchByte, offs := matchedByte, 0x100;
      symbol := 1;
      while symbol < 0x100
        invariant 0 < symbol < 0x200 && Ready(Bits().rc) && base + 0x300 <= |probs| && offs in {0, 0x100}
        invariant MatchedDecode(src, Bits(), base, offs, symbol, matchByte)
               == MatchedDecode(src, old(Bits()), base, 0x100, 1, matchedByte)
        decreases 0x200 - symbol
      {
        matchByte := matchByte * 2;
        var bit := if offs == 0 then 0 else matchByte / 0x100 % 2 * 0x100;
        var b := GetBit(base + offs + bit + symbol);
        symbol := symbol + symbol + b;
        offs := if b == 0 then offs - bit else bit;
      }
    }

    method DecodeReverse(base: int, n: nat) returns (value: nat)
      requires Ready(Bits().rc) && 0 <= base + 1 && n > 0 && base + LastNode(1, n) < |probs|
      modifies this`probs, this`range, this`code, this`buf
      ensures (Bits(), value) == ReverseDecode(src, old(Bits()), base, 1, n)
    {
      hide Take, LastNode, WithRest;
      ghost var whole := ReverseDecode(src, Bits(), base, 1, n);
      var i: nat, mask: nat, left := 1, 1, n;
      value := 0;
      NothingYet(whole);
      while left != 0
        invariant Ready(Bits().rc) && 0 <= base + i && (left > 0 ==> base + LastNode(i, left) < |probs|)
        invariant WithRest(value, mask, ReverseDecode(src, Bits(), base, i, left)) == whole
      {
        NodeRoom(i, left, 0);
        var bit := GetBit(base + i);
        NodeRoom(i, left, bit);
        Accumulate(value, mask, bit, ReverseDecode(src, Bits(), base, 2 * i + bit, left - 1));
        i := i + i + bit;
        value := if bit == 1 then value + mask else value;
        mask, left := mask * 2, left - 1;
      }
      NoRest(value, mask, Bits());
    }

    method DecodeDirect(high: nat, n: nat) returns (distance: nat)
      requires Ready(Bits().rc)
      modifies this`range, this`code, this`buf
      ensures (Bits(), distance) == DirectDecode(src, old(Bits()), high, n)
    {
      hide TakeDirect;
      distance := high;
      var left := n;
      while left != 0
        invariant Ready(Bits().rc)
        invariant DirectDecode(src, Bits(), distance, left) == DirectDecode(src, old(Bits()), high, n)
      {
        var bit := GetDirectBit();
        distance, left := distance * 2 + bit, left - 1;
      }
    }

    method DecodeLen(prob: nat, posState: nat) returns (len: nat)
      requires Ready(Bits().rc) && posState < 16 && prob + 514 <= |probs|
      modifies this`probs, this`range, this`code, this`buf
      ensures (Bits(), len) == LenDecode(src, old(Bits()), prob, posState)
    {
      hide Take, TreeDecode;
      var bit := GetBit(prob);
      var probLen, offset, limit;
      if bit == 0 {
        probLen, offset, limit := prob + 2 + posState * 8, 0, 8;
      } else {
        bit := GetBit(prob + 1);
        if bit == 0 {
          probLen, offset, limit := prob + 130 + posState * 8, 8, 8;
        } else {
          probLen, offset, limit := prob + 258, 16, 0x100;
        }
      }
      var node := DecodeTree(probLen, limit);
      len := node - limit + offset;
    }

    method DecodeDistance(len: nat) returns (distance: nat)
      requires Ready(Bits().rc) && 1846 <= |probs|
      modifies this`probs, this`range, this`code, this`buf
      ensures (Bits(), distance) == DistDecode(src, old(Bits()), len)
    {
      hide Take, TakeDirect, TreeDecode, ReverseDecode, DirectDecode;
      var node := DecodeTree(432 + (if len < 4 then len else 3) * 64, 64);
      distance := node - 64;
      if distance >= 4 {
        var posSlot, numDirectBits := distance, distance / 2 - 1;
        distance := 2 + distance % 2;
        if posSlot < 14 {
          SpecRoom(posSlot);
          distance := distance * Pow2(numDirectBits);
          var low := DecodeReverse(688 + distance - posSlot - 1, numDirectBits);
          distance := distance + low;
        } else {
          distance := DecodeDirect(distance, numDirectBits - 4);
          AlignNodes();
          var low := DecodeReverse(802, 4);
          distance := distance * 16 + low;
        }
      }
    }

    /** The copy loop while the source stays inside the buffer; it may overlap. */
    method CopyStraight(rep: nat, n: nat)
      requires 1 <= rep <= dicPos && dicPos + n <= dic.Length
      modifies this`dicPos, dic
      ensures dicPos == old(dicPos) + n
      ensures dic[..] == CopyMatch(old(dic[..]), old(dicPos), rep, n)
    {
      hide CopyMatch;
      var dest, lim := dicPos, dicPos + n;
      dicPos := dicPos + n;
      while dest != lim
        invariant old(dicPos) <= dest <= lim && dicPos == lim
        invariant CopyMatch(dic[..], dest, rep, lim - dest) == CopyMatch(old(dic[..]), old(dicPos), rep, n)
      {
        CopyUnfold(dic[..], dest, rep, lim - dest);
        ghost var before := dic[..];
        dic[dest] := dic[dest - rep];
        assert dic[..] == before[dest := before[dest - rep]];
        dest := dest + 1;
      }
      CopyNone(dic[..], dest, rep);
    }

    /** Writes one byte and advances. */
    method PutByte(b: byte)
      requires dicPos < dic.Length
      modifies this`dicPos, this`processedPos, dic
      ensures dic[..] == old(dic[..])[old(dicPos) := b]
      ensures dicPos == old(dicPos) + 1 && processedPos == old(processedPos) + 1
    {
      dic[dicPos] := b;
      dicPos, processedPos := dicPos + 1, processedPos + 1;
    }

    /** The bits of a literal, plain or guided by the byte at the latest distance. */
    method DecodeLiteralSymbol(prob: nat) returns (symbol: nat)
      requires Ready(Bits().rc) && prob + 0x300 <= |probs| && |reps| == 4 && state < 12
      requires state >= 7 ==> 0 <= DicIndex(dicPos, reps[0], dic.Length) < dic.Length
      modifies this`probs, this`range, this`code, this`buf, this`state
      ensures (Bits(), symbol)
           == if old(state) < 7 then TreeDecode(src, old(Bits()), prob, 1, 0x100)
              else MatchedDecode(src, old(Bits()), prob, 0x100, 1, dic[DicIndex(dicPos, reps[0], dic.Length)])
      ensures state == DecNext(old(state), Lit(symbol % 0x100))
    {
      hide Take, TreeDecode, MatchedDecode;
      if state < 7 {
        symbol := DecodeTree(prob, 0x100);
        state := state - (if state < 4 then state else 3);
      } else {
        var matchByte := dic[DicIndex(dicPos, reps[0], dic.Length)];
        symbol := DecodeMatchedLiteral(prob, matchByte);
        state := state - (if state < 10 then 3 else 6);
      }
    }

    /** The literal branch, after its leading 0 bit. */
    method DecodeLiteral(limit: nat, ghost s: Dec, ghost d: Receiver)
      requires DecOk(prop, s) && s.dicPos < limit <= |s.dic| && St() == s.(bits := d) && |s.dic| == dic.Length
      requires Take(src, s.bits, s.state * 16 + PosState(prop, s.processedPos)) == (d, 0)
      modifies this, dic
      ensures StepSymbol(prop, src, s, limit) == Continue(St())
    {
      hide Take, TreeDecode, MatchedDecode, LitBase, PosState, LenDecode, DistDecode, ReadRep, CopyStep;
      var prob, size := 1846, dic.Length;
      if checkDicSize != 0 || processedPos != 0 {
        prob := prob + LitBase(prop, processedPos, dic[(if dicPos == 0 then size else dicPos) - 1]);
      }
      var symbol := DecodeLiteralSymbol(prob);
      PutByte(symbol % 0x100);
    }

    /** The end of the match branch: copies as much of the match as the limit allows. */
    method CopyLimited(limit: nat, len: nat, ghost s: Dec)
      requires s.dicPos < limit <= |s.dic| && St() == s.(bits := Bits(), state := state, reps := reps)
      requires |s.dic| == dic.Length && |reps| == 4 && 1 <= reps[0] <= dicPos && len > 0
      modifies this`dicPos, this`processedPos, this`remainLen, dic
      ensures CopyStep(s, Bits(), state, reps, len, limit) == Continue(St())
    {
      hide CopyMatch;
      var rem := limit - dicPos;
      var curLen := if rem < len then rem else len;
      var size := dic.Length;
      var pos := DicIndex(dicPos, reps[0], size);
      processedPos := processedPos + curLen;
      remainLen := len - curLen;
      if pos + curLen <= dic.Length {
        CopyStraight(reps[0], curLen);
      } else {
        assert false;  // the dictionary never wraps when it holds the whole output
      }
    }

    /** The part of the repeated-match branch that reads bits: which distance, and
        whether it is a single byte. Rotates the distances. */
    method DecodeRepKind(posState: nat) returns (short: bool, ghost i: nat)
      requires Ready(Bits().rc) && state < 12 && posState < 16 && 1846 <= |probs| && |reps| == 4
      modifies this`probs, this`range, this`code, this`buf, this`reps
      ensures i < 4 && reps == NextReps(old(reps), Rep(i, 2)) && Ready(Bits().rc) && |probs| == old(|probs|)
      ensures ReadRep(src, old(Bits()), state, posState)
           == if short then (Bits(), ShortRep) else ReadRepLen(src, Bits(), posState, i)
      ensures short ==> i == 0
    {
      hide Take, ReadRepLen;
      short, i := false, 0;
      var bit := GetBit(204 + state);
      if bit == 0 {
        bit := GetBit(240 + state * 16 + posState);
        short := bit == 0;
      } else {
        var distance;
        bit := GetBit(216 + state);
        if bit == 0 {
          distance, i := reps[1], 1;
        } else {
          bit := GetBit(228 + state);
          if bit == 0 {
            distance, i := reps[2], 2;
          } else {
            distance, i := reps[3], 3;
            reps := reps[3 := reps[2]];
          }
          reps := reps[2 := reps[1]];
        }
        reps := [distance, reps[0]] + reps[2..];
      }
    }

    /** The outcome a result reports. */
    ghost predicate Reports(o: Outcome, res: Step)
      reads this, dic
    {
      match o
      case Continue(s) => res == More && St() == s
      case EndMark(s) => res == Ended && St() == s
      case DataError => res == Bad
    }

    /** The match branch, after its leading bits 1 0. */
    method DecodeMatch(limit: nat, posState: nat, ghost s: Dec) returns (res: Step)
      requires DecOk(prop, s) && s.dicPos < limit <= |s.dic| && St() == s.(bits := Bits())
      requires posState < 16 && Ready(Bits().rc) && |probs| == |s.bits.probs|
      modifies this, dic
      ensures var (d1, len) := LenDecode(src, old(Bits()), 818, posState);
              var (d2, dist) := DistDecode(src, d1, len);
              Bits() == d2 && Reports(ApplySymbol(prop, s, d2, Match(dist, len + 2), limit), res)
    {
      hide Take, LenDecode, DistDecode, CopyStep;
      var len := DecodeLen(818, posState);
      var distance := DecodeDistance(len);
      if distance == WORD - 1 {
        remainLen := len + SPEC_LEN;
        return Ended;
      }
      if (if checkDicSize == 0 then distance >= processedPos else distance >= checkDicSize) {
        return Bad;
      }
      reps := [distance + 1, reps[0], reps[1], reps[2]];
      state := if state < 7 then 7 else 10;
      CopyLimited(limit, len + 2, s);
      return More;
    }

    /** The repeated-match branch, after its leading bits 1 1. */
    method DecodeRep(limit: nat, posState: nat, ghost s: Dec) returns (res: Step)
      requires DecOk(prop, s) && s.dicPos < limit <= |s.dic| && St() == s.(bits := Bits())
      requires posState < 16 && Ready(Bits().rc) && |probs| == |s.bits.probs|
      modifies this, dic
      ensures var (d, sym) := ReadRep(src, old(Bits()), s.state, posState);
              Reports(ApplySymbol(prop, s, d, sym, limit), res)
      ensures res == Bad ==> Bits() == old(Bits())
    {
      hide Take, ReadRep, CopyStep, ReadRepLen;
      if checkDicSize == 0 && processedPos == 0 {
        return Bad;
      }
      var size := dic.Length;
      var short, i := DecodeRepKind(posState);
      if short {
        state := if state < 7 then 9 else 11;
        PutByte(dic[DicIndex(dicPos, reps[0], size)]);
        return More;
      }
      var len := DecodeRepLen(posState, i);
      state := if state < 7 then 8 else 11;
      CopyLimited(limit, len + 2, s);
      return More;
    }

    /** The branch of matches and repeated matches, after its leading bit 1. */
    method DecodeMatched(limit: nat, posState: nat, ghost s: Dec) returns (res: Step)
      requires DecOk(prop, s) && s.dicPos < limit <= |s.dic| && St() == s.(bits := Bits())
      requires posState < 16 && Ready(Bits().rc) && |probs| == |s.bits.probs| >= 1846 && s.state < 12
      modifies this, dic
      ensures var (d, sym) := ReadMatched(src, old(Bits()), s.state, posState);
              Reports(ApplySymbol(prop, s, d, sym, limit), res) && (res == Bad ==> buf <= d.rc.pos)
    {
      hide Take, LenDecode, DistDecode, ReadRep, ApplySymbol, DecOk;
      MatchedPast(src, Bits(), state, posState);
      var bit := GetBit(192 + state);
      if bit == 0 {
        res := DecodeMatch(limit, posState, s);
      } else {
        res := DecodeRep(limit, posState, s);
      }
    }

    /** One round of the loop of LzmaDec_DecodeReal. */
    method DecodeSymbol(limit: nat) returns (res: Step)
      requires DecOk(prop, St()) && dicPos < limit <= dic.Length && remainLen == 0
      modifies this, dic
      ensures Reports(StepSymbol(prop, src, old(St()), limit), res)
      ensures res == Bad ==> buf <= NextSymbol(prop, src, old(St())).0.rc.pos
    {
      StateShape(prop, St());
      NextMatched(prop, src, St());
      hide Take, NextSymbol, ReadMatched, LitBase, PosState, ApplySymbol, DecOk;
      ghost var s := St();
      var posState := PosState(prop, processedPos);
      var bit := GetBit(state * 16 + posState);
      if bit == 0 {
        DecodeLiteral(limit, s, Bits());
        res := More;
      } else {
        res := DecodeMatched(limit, posState, s);
      }
    }

    method DecodeRepLen(posState: nat, ghost i: nat) returns (len: nat)
      requires Ready(Bits().rc) && posState < 16 && 1846 <= |probs|
      modifies this`probs, this`range, this`code, this`buf
      ensures (Bits(), Rep(i, len + 2)) == ReadRepLen(src, old(Bits()), posState, i)
    {
      hide Take, LenDecode;
      len := DecodeLen(1332, posState);
    }

    /** How decoding will end, from here on. */
    ghost function Outlook(): Final
      reads this, dic
      requires InRun(prop, St())
    {
      Rest(prop, src, St())
    }

    /** A full dictionary has been noted, and the next symbol is there. */
    ghost predicate NextReady()
      reads this, dic
      requires DecOk(prop, St())
    {
      remainLen == 0 && checkDicSize == FullSize(prop, dicPos) && Fits(prop, src, St())
    }

    /** DecodeSymbol, as a step of the whole run. */
    method DecodeNext(limit: nat) returns (res: Step)
      requires DecOk(prop, St()) && dicPos < limit <= dic.Length && NextReady()
      modifies this, dic
      ensures res == Bad ==> buf <= |src| && old(Outlook()) == Malformed
      ensures res != Bad ==>
        && InRun(prop, St()) && Outlook() == old(Outlook()) && Normalize(src, Bits().rc).pos <= |src|
        && buf >= old(buf) && dicPos <= limit && checkDicSize == old(checkDicSize)
      ensures res == More ==> dicPos > old(dicPos) && remainLen < SPEC_LEN && (remainLen > 0 ==> dicPos == limit)
      ensures res == Ended ==> dicPos == old(dicPos) && remainLen >= SPEC_LEN
    {
      hide StepSymbol, NextSymbol, DecOk, Rest, FullSize;
      ghost var s := St();
      StepSafe(prop, src, s, limit);
      StepBits(prop, src, s, limit);
      NormGrows(src, NextSymbol(prop, src, s).0.rc);
      RestStep(prop, src, s, limit);
      res := DecodeSymbol(limit);
    }

    /** LzmaDec_DecodeReal: decodes symbols until `limit` or bufLimit is reached. */
    method DecodeReal(limit: nat, bufLimit: nat) returns (ok: bool)
      requires DecOk(prop, St()) && dicPos < limit <= dic.Length && NextReady()
      requires (bufLimit + 20 <= |src| || bufLimit <= buf) && (checkDicSize == 0 ==> limit <= prop.dictSize)
      modifies this, dic
      ensures if ok then InRun(prop, St()) && Outlook() == old(Outlook()) else old(Outlook()) == Malformed
      ensures buf <= |src|
      ensures ok ==> TOP <= range && checkDicSize == old(checkDicSize)
      ensures ok ==> old(dicPos) <= dicPos <= limit && buf >= old(buf)
      ensures ok && remainLen < SPEC_LEN ==> old(dicPos) < dicPos && (0 < remainLen ==> dicPos == limit)
    {
      hide NextSymbol, DecOk, Rest;
      StateShape(prop, St());
      var res := DecodeNext(limit);
      if res == Bad { return false; }
      while res == More && dicPos < limit && buf < bufLimit
        invariant res != Bad && InRun(prop, St()) && Outlook() == old(Outlook())
        invariant Normalize(src, Bits().rc).pos <= |src|
        invariant buf >= old(buf) && old(dicPos) <= dicPos <= limit && checkDicSize == old(checkDicSize)
        invariant res == More ==> old(dicPos) < dicPos && remainLen < SPEC_LEN && (remainLen > 0 ==> dicPos == limit)
        invariant res == Ended ==> remainLen >= SPEC_LEN
        decreases limit - dicPos, res == More
      {
        LookaheadFits(prop, src, St());
        StateShape(prop, St());
        res := DecodeNext(limit);
        if res == Bad { return false; }
      }
      ok := true;
      RestClosed(prop, src, St());
      Norm();
    }

    /** LzmaDec_WriteRem: copies what is left of the last match, up to `limit`. */
    method WriteRem(limit: nat)
      requires InRun(prop, St()) && dicPos <= limit <= dic.Length
      requires checkDicSize == 0 ==> processedPos < prop.dictSize
      modifies this`processedPos, this`remainLen, this`checkDicSize, this`dicPos, dic
      ensures InRun(prop, St()) && Outlook() == old(Outlook())
      ensures old(dicPos) <= dicPos <= limit
      ensures checkDicSize == 0 ==> processedPos < prop.dictSize
      ensures if old(remainLen) < SPEC_LEN then remainLen < SPEC_LEN && (remainLen > 0 ==> dicPos == limit > 0)
              else remainLen == old(remainLen) && dicPos == old(dicPos)
    {
      hide CopyMatch, DecOk, Rest;
      ghost var s := St();
      StateShape(prop, s);
      if remainLen != 0 && remainLen < SPEC_LEN {
        var len := if limit - dicPos < remainLen then limit - dicPos else remainLen;
        if checkDicSize == 0 && prop.dictSize - processedPos <= len {
          checkDicSize := prop.dictSize;
        }
        RestCopied(prop, src, s, len, checkDicSize);
        processedPos, remainLen := processedPos + len, remainLen - len;
        CopyStraight(reps[0], len);
      }
    }

    /** Once the dictionary has filled up, distances are checked against its size. */
    method NoteFull()
      requires InRun(prop, St())
      modifies this`checkDicSize
      ensures InRun(prop, St()) && Outlook() == old(Outlook()) && (checkDicSize == 0 ==> processedPos < prop.dictSize)
    {
      hide DecOk, Rest;
      StateShape(prop, St());
      if processedPos >= prop.dictSize {
        RestNoted(prop, src, St(), prop.dictSize);
        checkDicSize := prop.dictSize;
      }
    }

    /** The invariant between rounds of LzmaDec_DecodeReal2 and LzmaDec_DecodeToDic. */
    ghost predicate Between(dicLimit: nat)
      reads this, dic
    {
      && InRun(prop, St())
      && dicPos <= dicLimit <= dic.Length && TOP <= range && buf <= |src|
      && (checkDicSize == 0 ==> processedPos < prop.dictSize)
      && (0 < remainLen < SPEC_LEN ==> dicPos == dicLimit)
    }

    /** One round of LzmaDec_DecodeReal2. */
    method DecodeUpTo(limit: nat, bufLimit: nat) returns (ok: bool)
      requires Between(limit) && dicPos < limit && NextReady()
      requires bufLimit + 20 <= |src| || bufLimit <= buf
      modifies this, dic
      ensures buf <= |src|
      ensures if ok then Between(limit) && Outlook() == old(Outlook()) else old(Outlook()) == Malformed
      ensures ok ==> old(dicPos) <= dicPos && buf >= old(buf)
      ensures ok && remainLen < SPEC_LEN ==> old(dicPos) < dicPos && (0 < remainLen ==> dicPos == limit)
    {
      hide NextSymbol, DecOk, Rest;
      StateShape(prop, St());
      var limit2 := limit;
      if checkDicSize == 0 {
        var rem := prop.dictSize - processedPos;
        if limit - dicPos > rem { limit2 := dicPos + rem; }
      }
      ok := DecodeReal(limit2, bufLimit);
      if !ok { return; }
      NoteFull();
      WriteRem(limit);
      StateShape(prop, St());
    }

    /** LzmaDec_DecodeReal2: cuts the work where the dictionary first fills up. */
    method DecodeReal2(limit: nat, bufLimit: nat) returns (ok: bool)
      requires Between(limit) && dicPos < limit && NextReady()
      requires bufLimit + 20 <= |src| || bufLimit <= buf
      modifies this, dic
      ensures buf <= |src|
      ensures if ok then Between(limit) && Outlook() == old(Outlook()) else old(Outlook()) == Malformed
      ensures ok ==> remainLen <= SPEC_LEN && old(dicPos) <= dicPos && (old(dicPos) < dicPos || remainLen == SPEC_LEN)
    {
      hide NextSymbol, DecOk, Rest;
      ok := true;
      var more := true;
      while more
        invariant Between(limit) && Outlook() == old(Outlook()) && old(dicPos) <= dicPos && buf >= old(buf)
        invariant more ==> dicPos < limit && NextReady()
        invariant more ==> bufLimit + 20 <= |src| || bufLimit <= buf
        invariant !more ==> old(dicPos) < dicPos || remainLen >= SPEC_LEN
        decreases limit - dicPos, more
      {
        ok := DecodeUpTo(limit, bufLimit);
        if !ok { return; }
        more := dicPos < limit && buf < bufLimit && remainLen < SPEC_LEN;
        if more {
          StateShape(prop, St());
          LookaheadFits(prop, src, St());
        }
      }
      if remainLen > SPEC_LEN {
        RestMarked(prop, src, St(), SPEC_LEN);
        remainLen := SPEC_LEN;
      }
    }

    /** LzmaDec_InitStateReal: every probability even, every distance 1. */
    method InitStateReal()
      requires PropsOk(prop)
      modifies this`probs, this`reps, this`state
      ensures |probs| == NumProbs(Lits(prop)) && (forall i :: 0 <= i < |probs| ==> probs[i] == 1024)
      ensures reps == [1, 1, 1, 1] && state == 0
    {
      var numProbs := NumProbs(Lits(prop));
      probs := [];
      for i := 0 to numProbs
        invariant |probs| == i && forall j :: 0 <= j < i ==> probs[j] == 1024
      {
        probs := probs + [1024];
      }
      reps, state := [1, 1, 1, 1], 0;
    }

    /** LzmaDec_InitRc. */
    method InitRc()
      requires |src| >= 5
      modifies this`range, this`code, this`buf
      ensures Bits().rc == RangeCoder.InitRc(src) && TOP <= range && buf == 5
    {
      code := (src[1] as int) * 0x100_0000 + (src[2] as int) * 0x1_0000 + (src[3] as int) * 0x100 + src[4];
      range, buf := WORD - 1, 5;
    }

    /** One round of LzmaDec_DecodeToDic: a dry run when fewer than 20 bytes are left,
        otherwise as many symbols as surely fit. */
    method DecodeRound(dicLimit: nat) returns (res: SRes)
      requires Between(dicLimit) && dicPos < dicLimit && remainLen == 0
      modifies this, dic
      ensures buf <= |src|
      ensures res == OK ==> Between(dicLimit) && Outlook() == old(Outlook())
      ensures res == DataErrorRes ==> old(Outlook()) == Malformed
      ensures res == NeedsMoreInput ==> old(Outlook()) == Unfinished
      ensures res == OK ==>
              old(dicPos) <= dicPos && remainLen <= SPEC_LEN && (dicPos > old(dicPos) || remainLen == SPEC_LEN)
    {
      hide NextSymbol, Rest;
      var bufLimit;
      RestStep(prop, src, St(), dicLimit);
      if |src| - buf < 20 {
        var dummy := TryDummy(src, prop, St(), |src|);
        if dummy == DummyError { return NeedsMoreInput; }
        bufLimit := buf;
      } else {
        LookaheadFits(prop, src, St());
        bufLimit := |src| - 20;
      }
      var ok := DecodeReal2(dicLimit, bufLimit);
      res := if ok then OK else DataErrorRes;
    }

    /** What is reported of a run, and what is left in the buffer. */
    ghost predicate Tells(f: Final, res: SRes, srcLen: nat)
      reads this, dic
    {
      match f
      case Filled(d, read) => res == OK && dicPos == dic.Length && dic[..] == d && srcLen == read
      case Marked(d, at, code, read) =>
        res == (if code == 0 then OK else DataErrorRes) && dicPos == at && dic[..] == d && srcLen == read
      case Malformed => res == DataErrorRes
      case Unfinished => res == NeedsMoreInput
    }

    /** LzmaDec_DecodeToDic over a buffer that takes the whole output, in the mode
        LZMA_FINISH_ANY that the model loader uses: on any input the run that decodes symbol after
        symbol, and on an encoding of some data therefore that data. */
    method DecodeToDic(ghost data: seq<byte>, ghost ss: seq<Symbol>) returns (res: SRes, srcLen: nat)
      requires PropsOk(prop) && prop.dictSize < WORD
      requires dicPos == processedPos == checkDicSize == remainLen == 0
      modifies this, dic
      ensures srcLen <= |src| && (res == NeedsMoreInput ==> srcLen == |src|) && (|src| >= 5 ==> buf <= |src|)
      ensures |src| < 5 ==> res == NeedsMoreInput
      ensures |src| >= 5 && src[0] != 0 ==> res == DataErrorRes
      ensures |src| >= 5 && src[0] == 0 ==> Tells(Run(prop, src, Started(prop, src, old(dic[..]))), res, srcLen)
      ensures Encodes(prop, src, data, ss) && |data| == dic.Length ==>
              res == OK && srcLen == |src| && dicPos == dic.Length && dic[..] == data
    {
      hide NextSymbol, Encodes, DecOk, Run;
      if |src| >= 5 && Encodes(prop, src, data, ss) && |data| == dic.Length {
        StartRun(prop, src, dic[..], data, ss);
      }
      if Encodes(prop, src, data, ss) { StartInside(prop, src, data, ss); }
      if |src| < 5 { return NeedsMoreInput, |src|; }
      ghost var f := Run(prop, src, Started(prop, src, dic[..]));
      InitStateReal();
      InitRc();
      StartOutlook(prop, src, St());
      if src[0] != 0 { return DataErrorRes, 5; }
      while dicPos < dic.Length && remainLen != SPEC_LEN
        invariant Between(dic.Length) && remainLen <= SPEC_LEN && Outlook() == f
        decreases dic.Length - dicPos, SPEC_LEN - remainLen
      {
        srcLen := buf;
        res := DecodeRound(dic.Length);
        if res == DataErrorRes { return; }
        if res == NeedsMoreInput { return res, |src|; }
      }
      RestEnds(prop, src, St());
      res := if remainLen == SPEC_LEN && code != 0 then DataErrorRes else OK;
      srcLen := buf;
    }
  }

  /** The part of the symbol reader after a leading bit 1. */
  function ReadMatched(input: seq<byte>, d: Receiver, state: nat, posState: nat): (Receiver, Symbol)
    requires Ready(d.rc) && state < 12 && posState < 16 && 1846 <= |d.probs|
  {
    var (d1, bit) := Take(input, d, 192 + state);
    if bit == 0 then
      var (d2, len) := LenDecode(input, d1, 818, posState);
      var (d3, dist) := DistDecode(input, d2, len);
      (d3, Match(dist, len + 2))
    else ReadRep(input, d1, state, posState)
  }

  lemma MatchedPast(input: seq<byte>, d: Receiver, state: nat, posState: nat)
    requires Ready(d.rc) && state < 12 && posState < 16 && 1846 <= |d.probs|
    ensures ReadMatched(input, d, state, posState).0.rc.pos >= Take(input, d, 192 + state).0.rc.pos
  {
    hide Take, LenDecode, DistDecode, ReadRep, Pow, Allowance;
    TakeFrame(input, d, 192 + state);
    var (d1, bit) := Take(input, d, 192 + state);
    if bit == 0 { MatchCost(input, d1, posState); } else { RepCost(input, d1, state, posState); }
  }

  lemma NextMatched(p: Props, input: seq<byte>, s: Dec)
    requires DecOk(p, s)
    ensures PosState(p, s.processedPos) < 16 && Ready(s.bits.rc) && s.state < 12 && |s.bits.probs| >= 1846
    ensures var (d1, bit) := Take(input, s.bits, s.state * 16 + PosState(p, s.processedPos));
            && Ready(d1.rc) && |d1.probs| == |s.bits.probs|
            && (bit == 1 ==> NextSymbol(p, input, s) == ReadMatched(input, d1, s.state, PosState(p, s.processedPos)))
  {
    hide Take, LenDecode, DistDecode, ReadRep, TreeDecode, MatchedDecode, PosState, DecLitBase, DecMatchByte;
  }

  /** What DecOk says of the fields that the class reads directly. */
  lemma StateShape(p: Props, s: Dec)
    requires DecOk(p, s)
    ensures s.processedPos == s.dicPos <= |s.dic| && |s.reps| == 4
    ensures s.dicPos > 0 ==> 1 <= s.reps[0] <= s.dicPos
    ensures s.checkDicSize == 0 || s.checkDicSize == p.dictSize <= s.processedPos
    ensures p.dictSize > 0 && s.state < 12 && (s.dicPos == 0 ==> s.state < 7)
    ensures Ready(s.bits.rc) && |s.bits.probs| == NumProbs(Lits(p))
  {
  }

  /** With 21 bytes left, or 20 and a normalised state, the next symbol fits. */
  lemma LookaheadFits(p: Props, input: seq<byte>, s: Dec)
    requires DecOk(p, s)
    requires s.bits.rc.pos + (if s.bits.rc.range < TOP then 21 else 20) <= |input|
    ensures Normalize(input, NextSymbol(p, input, s).0.rc).pos <= |input|
  {
    hide ReadSymbol, LitBase, PosState;
    ReadClosed(p, input, s);
    var n := Closed(input, s);
    TwentyBytes(input, n.bits, s.state, PosState(p, s.processedPos), DecLitBase(p, n), DecMatchByte(p, n));
  }

  datatype Step = More | Ended | Bad

  /** SZ_OK, SZ_ERROR_DATA, and SZ_OK with LZMA_STATUS_NEEDS_MORE_INPUT. */
  datatype SRes = OK | DataErrorRes | NeedsMoreInput

  lemma CopyUnfold(dic: seq<byte>, dicPos: nat, rep: nat, n: nat)
    requires 1 <= rep <= dicPos && dicPos + n <= |dic| && n > 0
    ensures CopyMatch(dic, dicPos, rep, n) == CopyMatch(dic[dicPos := dic[dicPos - rep]], dicPos + 1, rep, n - 1)
  {
  }

  /** A value read so far, completed by what is read above it. */
  ghost function WithRest(value: nat, mask: nat, rest: (Receiver, nat)): (Receiver, nat)
  {
    (rest.0, value + mask * rest.1)
  }

  lemma NothingYet(rest: (Receiver, nat))
    ensures WithRest(0, 1, rest) == rest
  {
  }

  lemma NoRest(value: nat, mask: nat, d: Receiver)
    ensures WithRest(value, mask, (d, 0)) == (d, value)
  {
  }

  lemma Accumulate(value: nat, mask: nat, bit: Bit, rest: (Receiver, nat))
    ensures WithRest(value, mask, (rest.0, bit + 2 * rest.1))
         == WithRest(if bit == 1 then value + mask else value, mask * 2, rest)
  {
    assert mask * (bit + 2 * rest.1) == mask * bit + mask * 2 * rest.1;
  }
}
