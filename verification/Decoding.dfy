/** The decoder's treatment of one symbol, and why it retraces the encoder. */
module Decoding {
  import opened Bytes
  import opened RangeCoder
  import opened BitModels
  import opened Trees
  import opened Symbols
  import opened Codec

  /** CLzmaDec during one-call decoding into a buffer of |dic| bytes. Distances are
      one-based, as the decoder counts them. */
  datatype Dec = Dec(bits: Receiver, state: nat, reps: seq<nat>, dic: seq<byte>, dicPos: nat,
                     processedPos: nat, checkDicSize: nat, remainLen: nat)

  /** kMatchSpecLenStart: a remainLen from here on says that the end mark was read. */
  const SPEC_LEN := 274

  /** Holds on every input, well formed or not: no dictionary access leaves the
      part that was already written. */
  ghost predicate DecOk(p: Props, s: Dec)
  {
    && PropsOk(p) && ReceiverOk(s.bits, Lits(p))
    && s.state < 12 && |s.reps| == 4
    && s.processedPos == s.dicPos <= |s.dic|
    && (s.dicPos == 0 ==> s.state < 7)
    && (forall i :: 0 <= i < 4 ==> 1 <= s.reps[i] <= if s.dicPos == 0 then 1 else s.dicPos)
    && (s.checkDicSize == 0 || (s.checkDicSize == p.dictSize <= s.processedPos))
  }

  /** The circular dictionary index of the byte `rep` positions back. */
  function DicIndex(dicPos: nat, rep: nat, size: nat): int
  {
    dicPos - rep + (if dicPos < rep then size else 0)
  }

  /** n bytes copied one at a time from `rep` positions back. */
  function CopyMatch(dic: seq<byte>, dicPos: nat, rep: nat, n: nat): (r: seq<byte>)
    requires 1 <= rep <= dicPos && dicPos + n <= |dic|
    ensures |r| == |dic| && r[..dicPos] == dic[..dicPos]
    decreases n
  {
    if n == 0 then dic else
      var next: seq<byte> := dic[dicPos := dic[DicIndex(dicPos, rep, |dic|)]];
      var r := CopyMatch(next, dicPos + 1, rep, n - 1);
      assert r[..dicPos] == r[..dicPos + 1][..dicPos] == next[..dicPos];
      r
  }

  datatype Outcome = Continue(s: Dec) | EndMark(s: Dec) | DataError

  /** A match or repeated match of `len` bytes at the first of `reps`, cut at `limit`. */
  function CopyStep(s: Dec, bits: Receiver, state: nat, reps: seq<nat>, len: nat, limit: nat): Outcome
    requires s.dicPos <= limit <= |s.dic| && |reps| == 4 && 1 <= reps[0] <= s.dicPos
  {
    if limit == s.dicPos then DataError else
      var rem := limit - s.dicPos;
      var cur := if rem < len then rem else len;
      Continue(s.(bits := bits, state := state, reps := reps, dic := CopyMatch(s.dic, s.dicPos, reps[0], cur),
                  dicPos := s.dicPos + cur, processedPos := s.processedPos + cur, remainLen := len - cur))
  }

  function DecLitBase(p: Props, s: Dec): (r: nat)
    requires DecOk(p, s)
    ensures r + 768 <= 768 * Lits(p)
  {
    if s.checkDicSize != 0 || s.processedPos != 0
    then LitBase(p, s.processedPos, s.dic[(if s.dicPos == 0 then |s.dic| else s.dicPos) - 1])
    else 0
  }

  function DecMatchByte(p: Props, s: Dec): byte
    requires DecOk(p, s)
  {
    if s.state < 7 then 0 else s.dic[DicIndex(s.dicPos, s.reps[0], |s.dic|)]
  }

  /** The symbol that the decoder reads next. */
  function NextSymbol(p: Props, input: seq<byte>, s: Dec): (Receiver, Symbol)
    requires DecOk(p, s)
  {
    ReadSymbol(input, s.bits, s.state, PosState(p, s.processedPos), DecLitBase(p, s), DecMatchByte(p, s))
  }

  /** One round of LzmaDec_DecodeReal's loop. */
  function StepSymbol(p: Props, input: seq<byte>, s: Dec, limit: nat): Outcome
    requires DecOk(p, s) && s.dicPos < limit <= |s.dic|
  {
    var (bits, sym) := NextSymbol(p, input, s);
    ApplySymbol(p, s, bits, sym, limit)
  }

  /** The decoder's distances after a symbol. */
  function DecReps(reps: seq<nat>, sym: Symbol): (r: seq<nat>)
    requires |reps| == 4 && (sym.Rep? ==> sym.i < 4)
    ensures |r| == 4
  {
    if sym.Match? then [sym.dist + 1, reps[0], reps[1], reps[2]] else NextReps(reps, sym)
  }

  function ApplySymbol(p: Props, s: Dec, bits: Receiver, sym: Symbol, limit: nat): Outcome
    requires DecOk(p, s) && s.dicPos < limit <= |s.dic|
    requires sym.Rep? ==> sym.i < 4
  {
    match sym
    case Lit(b) => Put(s, bits, DecNext(s.state, sym), b)
    case ShortRep =>
      if s.checkDicSize == 0 && s.processedPos == 0 then DataError
      else Put(s, bits, DecNext(s.state, sym), s.dic[DicIndex(s.dicPos, s.reps[0], |s.dic|)])
    case Rep(i, len) =>
      if s.checkDicSize == 0 && s.processedPos == 0 then DataError
      else CopyStep(s, bits, DecNext(s.state, sym), DecReps(s.reps, sym), len, limit)
    case Match(dist, len) =>
      if dist == WORD - 1 then EndMark(s.(bits := bits, remainLen := len - 2 + SPEC_LEN))
      else if (if s.checkDicSize == 0 then dist >= s.processedPos else dist >= s.checkDicSize) then DataError
      else CopyStep(s, bits, DecNext(s.state, sym), DecReps(s.reps, sym), len, limit)
  }

  function Put(s: Dec, bits: Receiver, state: nat, b: byte): (o: Outcome)
    requires s.dicPos < |s.dic|
    ensures o.Continue?
  {
    Continue(s.(bits := bits, state := state, dic := s.dic[s.dicPos := b], dicPos := s.dicPos + 1,
                processedPos := s.processedPos + 1))
  }

  /** At least one byte was written, the limit was not passed and the invariant still holds. */
  ghost predicate Advanced(p: Props, s: Dec, next: Dec, limit: nat)
    requires s.dicPos < limit <= |s.dic|
  {
    && DecOk(p, next) && |next.dic| == |s.dic| && s.dicPos < next.dicPos <= limit
    && next.dic[..s.dicPos] == s.dic[..s.dicPos] && next.checkDicSize == s.checkDicSize
    && next.remainLen < SPEC_LEN && (next.remainLen > 0 ==> next.dicPos == limit)
  }

  lemma PutSafe(p: Props, s: Dec, bits: Receiver, state: nat, b: byte, limit: nat)
    requires DecOk(p, s) && s.dicPos < limit <= |s.dic| && s.remainLen == 0
    requires ReceiverOk(bits, Lits(p)) && state < 12
    ensures Advanced(p, s, Put(s, bits, state, b).s, limit)
  {
    hide ReceiverOk;
  }

  lemma CopySafe(p: Props, s: Dec, bits: Receiver, state: nat, reps: seq<nat>, len: nat, limit: nat)
    requires DecOk(p, s) && s.dicPos < limit <= |s.dic| && 2 <= len < SPEC_LEN
    requires ReceiverOk(bits, Lits(p)) && state < 12
    requires |reps| == 4 && forall i :: 0 <= i < 4 ==> 1 <= reps[i] <= s.dicPos
    ensures CopyStep(s, bits, state, reps, len, limit).Continue?
    ensures Advanced(p, s, CopyStep(s, bits, state, reps, len, limit).s, limit)
  {
    hide CopyMatch, ReceiverOk;
  }

  /** On every input a decoded symbol writes at least one byte, never passes the
      limit and leaves the decoder's invariant intact. */
  lemma StepSafe(p: Props, input: seq<byte>, s: Dec, limit: nat)
    requires DecOk(p, s) && s.dicPos < limit <= |s.dic| && s.remainLen == 0
    ensures var o := StepSymbol(p, input, s, limit);
            && (o.Continue? ==> Advanced(p, s, o.s, limit))
            && (o.EndMark? ==>
                 && DecOk(p, o.s) && o.s.remainLen >= SPEC_LEN
                 && o.s.dic == s.dic && o.s.dicPos == s.dicPos && o.s.checkDicSize == s.checkDicSize)
  {
    hide ReadSymbol, LitBase, PosState, CopyStep, Put, Advanced;
    var (bits, sym) := NextSymbol(p, input, s);
    assert ReceiverOk(bits, Lits(p));
    var state := DecNext(s.state, sym);
    match sym {
      case Lit(b) => PutSafe(p, s, bits, state, b, limit);
      case ShortRep => PutSafe(p, s, bits, state, s.dic[DicIndex(s.dicPos, s.reps[0], |s.dic|)], limit);
      case Rep(i, len) =>
        if s.checkDicSize != 0 || s.processedPos != 0 {
          CopySafe(p, s, bits, state, DecReps(s.reps, sym), len, limit);
        }
      case Match(dist, len) =>
        if dist < (if s.checkDicSize == 0 then s.processedPos else s.checkDicSize) {
          CopySafe(p, s, bits, state, DecReps(s.reps, sym), len, limit);
        }
    }
  }

  // ---------------------------------------------------- retracing the encoder

  /** The decoder has reproduced the data up to dicPos, and once the rest of its
      current match is copied it stands where the encoder's coder c stands. */
  ghost predicate Tracks(p: Props, input: seq<byte>, data: seq<byte>, c: Coder, s: Dec)
  {
    && CoderOk(p, data, c) && DecOk(p, s)
    && Linked(c.sender, s.bits, Lits(p), input)
    && s.state == c.state && (forall i :: 0 <= i < 4 ==> s.reps[i] == c.reps[i] + 1)
    && |s.dic| == |data| && s.dic[..s.dicPos] == data[..s.dicPos]
    && c.pos == s.dicPos + s.remainLen
    && (s.remainLen > 0 ==> Repeats(data, s.dicPos, s.reps[0] - 1, s.remainLen))
  }

  /** Copying from a correct prefix along a true repetition keeps the prefix correct. */
  lemma {:induction false} CopyCorrect(dic: seq<byte>, data: seq<byte>, dicPos: nat, rep: nat, n: nat)
    requires |dic| == |data| && dicPos <= |dic| && dic[..dicPos] == data[..dicPos]
    requires 1 <= rep && Repeats(data, dicPos, rep - 1, n)
    ensures CopyMatch(dic, dicPos, rep, n)[..dicPos + n] == data[..dicPos + n]
    decreases n
  {
    if n > 0 {
      var next: seq<byte> := dic[dicPos := dic[DicIndex(dicPos, rep, |dic|)]];
      assert dic[dicPos - rep] == dic[..dicPos][dicPos - rep] == data[dicPos - rep] == data[dicPos];
      assert next[..dicPos + 1] == dic[..dicPos] + [data[dicPos]] == data[..dicPos + 1];
      CopyCorrect(next, data, dicPos + 1, rep, n - 1);
    }
  }

  /** The decoder reads the very symbol that the encoder sent. */
  lemma NextSymbolTracks(p: Props, input: seq<byte>, data: seq<byte>, c: Coder, s: Dec, sym: Symbol)
    requires Tracks(p, input, data, c, s) && s.remainLen == 0
    requires Describes(p, data, c.pos, c.reps, sym)
    requires Inside(EncodeSymbol(p, data, c, sym).sender.x, input)
    ensures NextSymbol(p, input, s).1 == sym
    ensures Linked(EncodeSymbol(p, data, c, sym).sender, NextSymbol(p, input, s).0, Lits(p), input)
  {
    hide SenderOk, Linked, SymbolEvents, ReadSymbol, Send, Carries, After, LitBase, PosState, EventsOk;
    var es := CoderEvents(p, data, c, sym);
    LinkedReady(c.sender, s.bits, Lits(p), input);
    Transmit(c.sender, s.bits, es, Lits(p), input);
    if c.pos > 0 {
      assert s.dic[c.pos - 1] == s.dic[..c.pos][c.pos - 1] == data[c.pos - 1];
      assert s.dic[c.pos - s.reps[0]] == s.dic[..c.pos][c.pos - s.reps[0]] == data[c.pos - s.reps[0]];
    }
    var litBase := if c.pos == 0 then 0 else LitBase(p, c.pos, data[c.pos - 1]);
    var matchByte := if c.pos == 0 then 0 else data[c.pos - c.reps[0] - 1];
    assert es == SymbolEvents(c.state, PosState(p, c.pos), litBase, matchByte, sym);
    SymbolRead(input, s.bits, c.state, PosState(p, c.pos), litBase, matchByte, sym, Lits(p));
    if c.state < 7 {
      MatchByteUnused(input, s.bits, c.state, PosState(p, c.pos), litBase, matchByte, DecMatchByte(p, s));
    }
  }

  lemma LinkedReady(c: Sender, d: Receiver, lits: nat, input: seq<byte>)
    requires Linked(c, d, lits, input)
    ensures ReceiverOk(d, lits)
  {
  }

  lemma MatchByteUnused(input: seq<byte>, d: Receiver, state: nat, posState: nat, litBase: nat, a: byte, b: byte)
    requires Ready(d.rc) && state < 7 && posState < 16 && 1846 + litBase + 768 <= |d.probs|
    ensures ReadSymbol(input, d, state, posState, litBase, a) == ReadSymbol(input, d, state, posState, litBase, b)
  {
    hide Take, LenDecode, DistDecode, ReadRep;
  }

  /** The parts of Tracks that survive reading a symbol: s before it, c after it. */
  ghost predicate Reads(p: Props, input: seq<byte>, data: seq<byte>, c: Coder, s: Dec, bits: Receiver, state: nat,
                        reps: seq<nat>)
  {
    && CoderOk(p, data, c) && DecOk(p, s) && s.remainLen == 0
    && ReceiverOk(bits, Lits(p)) && Linked(c.sender, bits, Lits(p), input)
    && state == c.state < 12 && |reps| == 4 && (forall i :: 0 <= i < 4 ==> reps[i] == c.reps[i] + 1)
    && |s.dic| == |data| && s.dic[..s.dicPos] == data[..s.dicPos] && s.dicPos < c.pos
  }

  lemma PutTracks(p: Props, input: seq<byte>, data: seq<byte>, c: Coder, s: Dec, bits: Receiver, state: nat, b: byte)
    requires Reads(p, input, data, c, s, bits, state, s.reps) && c.pos == s.dicPos + 1 && data[s.dicPos] == b
    ensures Tracks(p, input, data, c, Put(s, bits, state, b).s)
  {
    hide SenderOk, Linked, ReceiverOk;
    assert s.dic[s.dicPos := b][..s.dicPos + 1] == s.dic[..s.dicPos] + [b] == data[..s.dicPos + 1];
  }

  lemma CopyTracks(p: Props, input: seq<byte>, data: seq<byte>, c: Coder, s: Dec, bits: Receiver, state: nat,
                   reps: seq<nat>, len: nat, limit: nat)
    requires Reads(p, input, data, c, s, bits, state, reps) && c.pos == s.dicPos + len && s.dicPos < limit <= |s.dic|
    requires (forall i :: 0 <= i < 4 ==> reps[i] <= s.dicPos) && Repeats(data, s.dicPos, reps[0] - 1, len)
    ensures CopyStep(s, bits, state, reps, len, limit).Continue?
    ensures Tracks(p, input, data, c, CopyStep(s, bits, state, reps, len, limit).s)
  {
    hide SenderOk, Linked, ReceiverOk, CopyMatch;
    var cur := if limit - s.dicPos < len then limit - s.dicPos else len;
    CopyCorrect(s.dic, data, s.dicPos, reps[0], cur);
  }

  /** Counted from one, the distances move as they do counted from zero. */
  lemma RepsAgree(p: Props, data: seq<byte>, c: Coder, reps: seq<nat>, sym: Symbol)
    requires CoderOk(p, data, c) && Describes(p, data, c.pos, c.reps, sym)
    requires |reps| == 4 && forall i :: 0 <= i < 4 ==> reps[i] == c.reps[i] + 1
    ensures var next := EncodeSymbol(p, data, c, sym).reps;
            |next| == 4 && forall i :: 0 <= i < 4 ==> DecReps(reps, sym)[i] == next[i] + 1
    ensures sym.Lit? || sym.ShortRep? ==> DecReps(reps, sym) == reps
  {
    hide SenderOk, Send, CoderEvents;
  }

  lemma StepReads(p: Props, input: seq<byte>, data: seq<byte>, c: Coder, s: Dec, sym: Symbol)
    requires Tracks(p, input, data, c, s) && s.remainLen == 0
    requires Describes(p, data, c.pos, c.reps, sym)
    requires Inside(EncodeSymbol(p, data, c, sym).sender.x, input)
    ensures var c' := EncodeSymbol(p, data, c, sym);
            && NextSymbol(p, input, s).1 == sym && DecNext(s.state, sym) == c'.state
            && Reads(p, input, data, c', s, NextSymbol(p, input, s).0, c'.state, DecReps(s.reps, sym))
  {
    hide SenderOk, Linked, ReceiverOk, ReadSymbol, Send, CoderEvents, LitBase, PosState, NextSymbol, DecReps;
    NextSymbolTracks(p, input, data, c, s, sym);
    EncodeSymbolOk(p, data, c, sym);
    NextStatesAgree(c.state, sym);
    RepsAgree(p, data, c, s.reps, sym);
    LinkedReady(EncodeSymbol(p, data, c, sym).sender, NextSymbol(p, input, s).0, Lits(p), input);
  }

  /** One decoded symbol retraces one encoded symbol, up to the cut at `limit`. */
  lemma StepTracks(p: Props, input: seq<byte>, data: seq<byte>, c: Coder, s: Dec, sym: Symbol, limit: nat)
    requires Tracks(p, input, data, c, s) && s.remainLen == 0 && s.dicPos < limit <= |s.dic| && p.dictSize < WORD
    requires Describes(p, data, c.pos, c.reps, sym)
    requires Inside(EncodeSymbol(p, data, c, sym).sender.x, input)
    ensures StepSymbol(p, input, s, limit).Continue?
    ensures Tracks(p, input, data, EncodeSymbol(p, data, c, sym), StepSymbol(p, input, s, limit).s)
  {
    hide SenderOk, Linked, ReceiverOk, ReadSymbol, Send, CoderEvents, LitBase, PosState, CopyMatch, NextSymbol,
        CopyStep, Put, Reads;
    var c' := EncodeSymbol(p, data, c, sym);
    StepReads(p, input, data, c, s, sym);
    RepsAgree(p, data, c, s.reps, sym);
    var bits := NextSymbol(p, input, s).0;
    match sym {
      case Lit(b) => PutTracks(p, input, data, c', s, bits, c'.state, b);
      case ShortRep =>
        var q := s.dicPos - s.reps[0];
        assert s.dic[q] == s.dic[..s.dicPos][q] == data[q] == data[s.dicPos];
        PutTracks(p, input, data, c', s, bits, c'.state, data[s.dicPos]);
      case _ => CopyTracks(p, input, data, c', s, bits, c'.state, DecReps(s.reps, sym), sym.len, limit);
    }
  }

  // --------------------------------------------------------- the whole stream

  /** What remains to be decoded: nothing known, or the rest of a parse. */
  datatype Trail = Lost | Trail(data: seq<byte>, c: Coder, rest: seq<Symbol>)

  ghost predicate OnTrail(p: Props, input: seq<byte>, t: Trail)
  {
    t.Trail? ==>
      && p.dictSize < WORD && CoderOk(p, t.data, t.c) && Parses(p, t.data, t.c, t.rest)
      && Ends(EncodeAll(p, t.data, t.c, t.rest).sender.x, input)
  }

  ghost predicate Follows(p: Props, input: seq<byte>, t: Trail, s: Dec)
  {
    OnTrail(p, input, t) && (t.Trail? ==> Tracks(p, input, t.data, t.c, s))
  }

  lemma EndsInside(x: Exact, input: seq<byte>)
    requires Normal(x) && Ends(x, input)
    ensures Inside(x, input)
  {
    assert input[..|input|] == input;
  }

  lemma {:induction false} EncodeAllBack(p: Props, data: seq<byte>, c: Coder, ss: seq<Symbol>, input: seq<byte>)
    requires CoderOk(p, data, c) && Parses(p, data, c, ss) && Inside(EncodeAll(p, data, c, ss).sender.x, input)
    ensures Inside(c.sender.x, input)
    decreases |ss|
  {
    hide SenderOk, Send, CoderEvents, Inside;
    if ss != [] {
      EncodeSymbolOk(p, data, c, ss[0]);
      EncodeAllBack(p, data, EncodeSymbol(p, data, c, ss[0]), ss[1..], input);
      SendBack(c.sender, CoderEvents(p, data, c, ss[0]), Lits(p), input);
    }
  }

  ghost function NextTrail(p: Props, t: Trail): Trail
    requires t.Trail? ==> CoderOk(p, t.data, t.c) && Parses(p, t.data, t.c, t.rest)
  {
    if t.Lost? || t.rest == [] then t else Trail(t.data, EncodeSymbol(p, t.data, t.c, t.rest[0]), t.rest[1..])
  }

  /** On the trail of an encoded stream a symbol never fails and leads further along it. */
  lemma FollowStep(p: Props, input: seq<byte>, t: Trail, s: Dec, limit: nat)
    requires Follows(p, input, t, s) && t.Trail? && s.remainLen == 0 && s.dicPos < limit <= |s.dic|
    ensures StepSymbol(p, input, s, limit).Continue?
    ensures Follows(p, input, NextTrail(p, t), StepSymbol(p, input, s, limit).s)
    ensures NextTrail(p, t).Trail? && NextTrail(p, t).data == t.data
  {
    hide Linked, Inside, Describes, EncodeSymbol, StepSymbol, Ends;
    assert t.rest != [];
    EncodeSymbolOk(p, t.data, t.c, t.rest[0]);
    var c' := EncodeSymbol(p, t.data, t.c, t.rest[0]);
    EndsInside(EncodeAll(p, t.data, c', t.rest[1..]).sender.x, input);
    EncodeAllBack(p, t.data, c', t.rest[1..], input);
    StepTracks(p, input, t.data, t.c, s, t.rest[0], limit);
  }

  function Closed(input: seq<byte>, s: Dec): Dec
  {
    s.(bits := s.bits.(rc := Normalize(input, s.bits.rc)))
  }

  /** The closing normalisation changes nothing but the registers' form. */
  lemma FollowClosed(p: Props, input: seq<byte>, t: Trail, s: Dec)
    requires Follows(p, input, t, s) && DecOk(p, s)
    ensures Ready(s.bits.rc)
    ensures Follows(p, input, t, Closed(input, s)) && DecOk(p, Closed(input, s)) &&
            TOP <= Closed(input, s).bits.rc.range
  {
  }

  /** Reading starts with a normalisation, so an earlier one makes no difference. */
  lemma ReadClosed(p: Props, input: seq<byte>, s: Dec)
    requires DecOk(p, s)
    ensures DecOk(p, Closed(input, s)) && NextSymbol(p, input, Closed(input, s)) == NextSymbol(p, input, s)
  {
    hide ReadSymbol, PosState, DecLitBase, DecMatchByte, Normalize;
    ClosedSame(p, input, s);
    ReadSymbolClosed(input, s.bits, s.state, PosState(p, s.processedPos), DecLitBase(p, s), DecMatchByte(p, s));
  }

  /** Only the first bit looks at the registers. */
  lemma ReadFrom(input: seq<byte>, d: Receiver, e: Receiver, state: nat, posState: nat, litBase: nat, matchByte: nat)
    requires Ready(d.rc) && Ready(e.rc) && state < 12 && posState < 16
    requires 1846 + litBase + 768 <= |d.probs| == |e.probs|
    requires Take(input, d, state * 16 + posState) == Take(input, e, state * 16 + posState)
    ensures ReadSymbol(input, d, state, posState, litBase, matchByte)
         == ReadSymbol(input, e, state, posState, litBase, matchByte)
  {
    hide Take, TreeDecode, MatchedDecode, LenDecode, DistDecode, ReadRep, Ready;
  }

  lemma ReadSymbolClosed(input: seq<byte>, d: Receiver, state: nat, posState: nat, litBase: nat, matchByte: nat)
    requires Ready(d.rc) && state < 12 && posState < 16 && 1846 + litBase + 768 <= |d.probs|
    ensures Ready(Normalize(input, d.rc))
    ensures ReadSymbol(input, d.(rc := Normalize(input, d.rc)), state, posState, litBase, matchByte)
         == ReadSymbol(input, d, state, posState, litBase, matchByte)
  {
    hide Take, TreeDecode, MatchedDecode, LenDecode, DistDecode, ReadRep, Normalize, Ready;
    TakeClosed(input, d, state * 16 + posState);
    ReadFrom(input, d, d.(rc := Normalize(input, d.rc)), state, posState, litBase, matchByte);
  }

  lemma ClosedSame(p: Props, input: seq<byte>, s: Dec)
    requires DecOk(p, s)
    ensures DecOk(p, Closed(input, s)) && Ready(s.bits.rc) && s.state < 12 && PosState(p, s.processedPos) < 16
    ensures |s.bits.probs| == NumProbs(Lits(p))
    ensures DecLitBase(p, Closed(input, s)) == DecLitBase(p, s)
    ensures DecMatchByte(p, Closed(input, s)) == DecMatchByte(p, s)
  {
    hide LitBase;
  }

  lemma TakeClosed(input: seq<byte>, d: Receiver, index: nat)
    requires Ready(d.rc) && index < |d.probs|
    ensures Ready(Normalize(input, d.rc))
    ensures Take(input, d.(rc := Normalize(input, d.rc)), index) == Take(input, d, index)
  {
  }

  /** A trail at its end leaves the decoder with code 0 and every byte consumed. */
  lemma TrailEnd(p: Props, input: seq<byte>, t: Trail, s: Dec)
    requires Follows(p, input, t, s) && t.Trail? && s.dicPos == |t.data| && TOP <= s.bits.rc.range
    ensures s.dic == t.data && s.bits.rc.pos == |input| && s.bits.rc.code == 0 && s.remainLen == 0
  {
    if t.rest != [] {
      EncodeSymbolOk(p, t.data, t.c, t.rest[0]);
      assert false;
    }
    assert s.dic[..s.dicPos] == s.dic && t.data[..s.dicPos] == t.data;
    assert input[..|input|] == input;
  }

  /** The decoder of an encoded stream starts on its trail. */
  lemma StartFollows(p: Props, input: seq<byte>, data: seq<byte>, ss: seq<Symbol>, s: Dec)
    requires Encodes(p, input, data, ss) && p.dictSize < WORD
    requires |s.dic| == |data| && s.dicPos == s.processedPos == s.checkDicSize == s.remainLen == s.state == 0
    requires s.reps == [1, 1, 1, 1] && |s.bits.probs| == NumProbs(Lits(p)) && |input| >= 5 && s.bits.rc == InitRc(input)
    requires forall i :: 0 <= i < |s.bits.probs| ==> s.bits.probs[i] == 1024
    ensures input[0] == 0 && Follows(p, input, Trail(data, StartCoder(p), ss), s)
  {
    StartInside(p, input, data, ss);
    StartInStep(input);
    hide Parses, EncodeAll, Inside;
    StartAgrees(s.bits.probs, Lits(p));
  }

  lemma StartInside(p: Props, input: seq<byte>, data: seq<byte>, ss: seq<Symbol>)
    requires Encodes(p, input, data, ss)
    ensures Inside(START, input) && |input| >= 5
  {
    hide Parses, Inside;
    EndsInside(EncodeAll(p, data, StartCoder(p), ss).sender.x, input);
    EncodeAllBack(p, data, StartCoder(p), ss, input);
    InsideSize(START, input);
  }

  lemma InsideSize(x: Exact, input: seq<byte>)
    requires Inside(x, input)
    ensures |input| >= x.count + 4
  {
  }

  lemma StartAgrees(flat: seq<Prob>, lits: nat)
    requires |flat| == NumProbs(lits) && forall i :: 0 <= i < |flat| ==> flat[i] == 1024
    ensures Agree(InitProbs(lits), flat, lits)
  {
    forall t: Table, i | 0 <= i < Size(t, lits) ensures flat[Base(t) + i] == InitProbs(lits)[t][i] {
      TablesInside(t, lits);
    }
  }
}
