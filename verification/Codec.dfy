/** One LZMA symbol as the encoder and the decoder process it: contexts, coder
    states, repeated distances and the dictionary. */
module Codec {
  import opened Arithmetic
  import opened Bytes
  import opened RangeCoder
  import opened BitModels
  import opened Trees
  import opened Symbols

  /** lc, lp and pb are the numbers of literal-context, literal-position and position bits. */
  datatype Props = Props(lc: nat, lp: nat, pb: nat, dictSize: nat)

  ghost predicate PropsOk(p: Props) { p.lc <= 8 && p.lp <= 4 && p.pb <= 4 && p.dictSize > 0 }

  function Lits(p: Props): nat { Pow2(p.lc + p.lp) }

  lemma {:induction false} Pow2Sum(a: nat, b: nat)
    ensures Pow2(a + b) == Pow2(a) * Pow2(b)
  {
    if a > 0 { Pow2Sum(a - 1, b); }
  }

  lemma {:induction false} Pow2Grows(a: nat, b: nat)
    requires a <= b
    ensures Pow2(a) <= Pow2(b)
    decreases b
  {
    if a < b { Pow2Grows(a, b - 1); }
  }

  function PosState(p: Props, pos: nat): (r: nat)
    requires PropsOk(p)
    ensures r < 16
  {
    Pow2Grows(p.pb, 4);
    assert Pow2(4) == 16;
    pos % Pow2(p.pb)
  }

  /** Where the literal probabilities of this position and previous byte start. */
  function LitBase(p: Props, pos: nat, prev: byte): (r: nat)
    requires PropsOk(p)
    ensures r + 768 <= 768 * Lits(p)
  {
    LitContextBound(p, pos, prev);
    768 * (pos % Pow2(p.lp) * Pow2(p.lc) + prev / Pow2(8 - p.lc))
  }

  lemma LitContextBound(p: Props, pos: nat, prev: byte)
    requires PropsOk(p)
    ensures 0 <= pos % Pow2(p.lp) * Pow2(p.lc) + prev / Pow2(8 - p.lc) < Lits(p)
  {
    Pow2Sum(p.lc, 8 - p.lc);
    assert Pow2(8) == 256;
    Pow2Sum(p.lc, p.lp);
    hide Pow2;
    DivBound(prev, Pow2(8 - p.lc), Pow2(p.lc));
    ContextBound(pos % Pow2(p.lp), prev / Pow2(8 - p.lc), Pow2(p.lp), Pow2(p.lc));
  }

  lemma ContextBound(r: nat, t: nat, b: nat, c: nat)
    requires r < b && t < c
    ensures 0 <= r * c + t < c * b
  {
    MulMono(r + 1, b, c);
    assert (r + 1) * c == r * c + c;
  }

  lemma MulMono(x: nat, y: nat, z: nat)
    requires x <= y
    ensures x * z <= y * z
  {
  }

  lemma DivBound(v: nat, q: nat, c: nat)
    requires q > 0 && v < c * q
    ensures v / q < c
  {
    if v / q >= c {
      MulMono(c, v / q, q);
    }
  }

  /** Two literals share their probabilities exactly if their positions agree in the lp lowest bits and the
      bytes before them in the lc highest; otherwise their tables do not overlap. */
  lemma LiteralContexts(p: Props, i: nat, a: byte, j: nat, b: byte)
    requires PropsOk(p)
    ensures LitBase(p, i, a) == LitBase(p, j, b)
       <==> LowBits(i, p.lp) == LowBits(j, p.lp) && Shr(a, 8 - p.lc) == Shr(b, 8 - p.lc)
    ensures LitBase(p, i, a) < LitBase(p, j, b) ==> LitBase(p, i, a) + 768 <= LitBase(p, j, b)
  {
    Pow2Sum(p.lc, 8 - p.lc);
    assert Pow2(8) == 256;
    BitsByDivision(i, p.lp);
    BitsByDivision(j, p.lp);
    BitsByDivision(a, 8 - p.lc);
    BitsByDivision(b, 8 - p.lc);
    hide Pow2, Shr, LowBits;
    DivBound(a, Pow2(8 - p.lc), Pow2(p.lc));
    DivBound(b, Pow2(8 - p.lc), Pow2(p.lc));
    TwoDigits(LowBits(i, p.lp), Shr(a, 8 - p.lc), LowBits(j, p.lp), Shr(b, 8 - p.lc), Pow2(p.lc));
  }

  lemma TwoDigits(q: nat, r: nat, q': nat, r': nat, m: nat)
    requires r < m && r' < m
    ensures q * m + r == q' * m + r' <==> q == q' && r == r'
  {
    ModUnique(q * m + r, m, q, r);
    ModUnique(q' * m + r', m, q', r');
  }

  /** Two positions share their position state exactly if they agree in the pb lowest bits. */
  lemma PositionStates(p: Props, i: nat, j: nat)
    requires PropsOk(p)
    ensures PosState(p, i) == PosState(p, j) <==> LowBits(i, p.pb) == LowBits(j, p.pb)
  {
    BitsByDivision(i, p.pb);
    BitsByDivision(j, p.pb);
  }

  // ------------------------------------------------------------- coder states

  const LITERAL_NEXT: seq<nat> := [0, 0, 0, 0, 1, 2, 3, 4, 5, 6, 4, 5]
  const MATCH_NEXT: seq<nat> := [7, 7, 7, 7, 7, 7, 7, 10, 10, 10, 10, 10]
  const REP_NEXT: seq<nat> := [8, 8, 8, 8, 8, 8, 8, 11, 11, 11, 11, 11]
  const SHORT_REP_NEXT: seq<nat> := [9, 9, 9, 9, 9, 9, 9, 11, 11, 11, 11, 11]

  /** The encoder's next state, from its tables. */
  function EncNext(state: nat, s: Symbol): (r: nat)
    requires state < 12
    ensures r < 12
  {
    match s
    case Lit(_) => LITERAL_NEXT[state]
    case Match(_, _) => MATCH_NEXT[state]
    case Rep(_, _) => REP_NEXT[state]
    case ShortRep => SHORT_REP_NEXT[state]
  }

  /** The decoder's next state, by arithmetic. */
  function DecNext(state: nat, s: Symbol): (r: nat)
    requires state < 12
    ensures r < 12
  {
    match s
    case Lit(_) => if state < 7 then state - (if state < 4 then state else 3) else state - (if state < 10 then 3 else 6)
    case Match(_, _) => if state < 7 then 7 else 10
    case Rep(_, _) => if state < 7 then 8 else 11
    case ShortRep => if state < 7 then 9 else 11
  }

  lemma NextStatesAgree(state: nat, s: Symbol)
    requires state < 12
    ensures EncNext(state, s) == DecNext(state, s)
  {
  }

  /** The coder's state after some symbols. */
  ghost function StateAfter(ss: seq<Symbol>): (r: nat)
    ensures r < 12
  {
    if ss == [] then 0 else EncNext(StateAfter(ss[..|ss| - 1]), ss[|ss| - 1])
  }

  /** The k-th symbol from the end is a literal, or there are not as many. */
  ghost predicate LitBack(ss: seq<Symbol>, k: nat)
    requires k > 0
  {
    |ss| < k || ss[|ss| - k].Lit?
  }

  /** A match of each kind, after a literal or not. */
  function MatchState(s: Symbol, alone: bool): nat
    requires !s.Lit?
  {
    if s.Match? then (if alone then 7 else 10) else if !alone then 11 else if s.Rep? then 8 else 9
  }

  /** A match of each kind, and k literals after it. */
  function LaterState(s: Symbol, alone: bool, k: nat): nat
    requires !s.Lit? && 1 <= k <= 2
  {
    (if s.Match? then 1 else if s.ShortRep? && alone then 3 else 2) + (if k == 1 then 3 else 0)
  }

  lemma StateLit(ss: seq<Symbol>)
    ensures StateAfter(ss) < 7 <==> LitBack(ss, 1)
  {
  }

  /** What the states stand for: the kind of the latest symbol that is no literal, how many literals came after
      it, up to three, and as far as that is told apart whether it followed a literal. */
  lemma StateHistory(ss: seq<Symbol>)
    ensures LitBack(ss, 1) && LitBack(ss, 2) && LitBack(ss, 3) ==> StateAfter(ss) == 0
    ensures !LitBack(ss, 1) ==> StateAfter(ss) == MatchState(ss[|ss| - 1], LitBack(ss, 2))
    ensures LitBack(ss, 1) && !LitBack(ss, 2) ==> StateAfter(ss) == LaterState(ss[|ss| - 2], LitBack(ss, 3), 1)
    ensures LitBack(ss, 1) && LitBack(ss, 2) && !LitBack(ss, 3) ==>
              StateAfter(ss) == LaterState(ss[|ss| - 3], LitBack(ss, 4), 2)
  {
    if !LitBack(ss, 1) { HistoryOne(ss); }
    if LitBack(ss, 1) && !LitBack(ss, 2) { HistoryTwo(ss); }
    if LitBack(ss, 1) && LitBack(ss, 2) { HistoryThree(ss); }
  }

  lemma LitShift(ss: seq<Symbol>, k: nat)
    requires ss != [] && k > 0
    ensures LitBack(ss[..|ss| - 1], k) <==> LitBack(ss, k + 1)
  {
  }

  lemma HistoryOne(ss: seq<Symbol>)
    requires !LitBack(ss, 1)
    ensures StateAfter(ss) == MatchState(ss[|ss| - 1], LitBack(ss, 2))
  {
    LitShift(ss, 1);
    StateLit(ss[..|ss| - 1]);
  }

  lemma HistoryTwo(ss: seq<Symbol>)
    requires LitBack(ss, 1) && !LitBack(ss, 2)
    ensures StateAfter(ss) == LaterState(ss[|ss| - 2], LitBack(ss, 3), 1)
  {
    hide StateAfter;
    LitShift(ss, 1);
    LitShift(ss, 2);
    HistoryOne(ss[..|ss| - 1]);
    StateNext(ss);
  }

  lemma HistoryThree(ss: seq<Symbol>)
    requires LitBack(ss, 1) && LitBack(ss, 2)
    ensures LitBack(ss, 3) ==> StateAfter(ss) == 0
    ensures !LitBack(ss, 3) ==> StateAfter(ss) == LaterState(ss[|ss| - 3], LitBack(ss, 4), 2)
  {
    hide StateAfter;
    if ss == [] {
      StateStart();
    } else {
      var s := ss[..|ss| - 1];
      LitShift(ss, 1);
      LitShift(ss, 2);
      LitShift(ss, 3);
      StateNext(ss);
      if LitBack(ss, 3) { FewLits(s); } else { HistoryTwo(s); }
    }
  }

  lemma StateStart()
    ensures StateAfter([]) == 0
  {
  }

  lemma StateNext(ss: seq<Symbol>)
    requires ss != []
    ensures StateAfter(ss) == EncNext(StateAfter(ss[..|ss| - 1]), ss[|ss| - 1])
  {
  }

  /** Two literals leave a state below 4. */
  lemma FewLits(ss: seq<Symbol>)
    requires LitBack(ss, 1) && LitBack(ss, 2)
    ensures StateAfter(ss) < 4
  {
    hide StateAfter;
    if ss == [] {
      StateStart();
    } else {
      var s := ss[..|ss| - 1];
      LitShift(ss, 1);
      StateNext(ss);
      StateLit(s);
    }
  }

  /** The four latest distances after a symbol. */
  function NextReps(reps: seq<nat>, s: Symbol): (r: seq<nat>)
    requires |reps| == 4 && (s.Rep? ==> s.i < 4)
    ensures |r| == 4
  {
    match s
    case Lit(_) | ShortRep => reps
    case Match(dist, _) => [dist, reps[0], reps[1], reps[2]]
    case Rep(i, _) =>
      if i == 0 then reps
      else if i == 1 then [reps[1], reps[0], reps[2], reps[3]]
      else if i == 2 then [reps[2], reps[0], reps[1], reps[3]]
      else [reps[3], reps[0], reps[1], reps[2]]
  }

  /** A repeated distance moves to the front, a new one is put there and the last falls out; the others keep their
      order. */
  lemma MovesToFront(reps: seq<nat>, i: nat, dist: nat, len: nat)
    requires |reps| == 4 && i < 4
    ensures NextReps(reps, Rep(i, len)) == [reps[i]] + reps[..i] + reps[i + 1..]
    ensures NextReps(reps, Match(dist, len)) == [dist] + reps[..3]
  {
  }

  function SymbolLen(s: Symbol): nat
  {
    match s case Lit(_) | ShortRep => 1 case Rep(_, len) => len case Match(_, len) => len
  }

  // ------------------------------------------------------------------- encoder

  /** The data repeats itself at distance dist + 1 for len bytes. */
  ghost predicate Repeats(data: seq<byte>, pos: nat, dist: nat, len: nat)
  {
    dist < pos && pos + len <= |data| && forall k :: pos <= k < pos + len ==> data[k] == data[k - dist - 1]
  }

  /** The symbol describes the data at pos; distances stay inside the dictionary. */
  ghost predicate Describes(p: Props, data: seq<byte>, pos: nat, reps: seq<nat>, s: Symbol)
    requires |reps| == 4
  {
    SymbolOk(s) &&
    match s
    case Lit(b) => pos < |data| && data[pos] == b
    case ShortRep => Repeats(data, pos, reps[0], 1)
    case Rep(i, len) => Repeats(data, pos, reps[i], len)
    case Match(dist, len) => dist < p.dictSize && Repeats(data, pos, dist, len)
  }

  datatype Coder = Coder(sender: Sender, state: nat, reps: seq<nat>, pos: nat)

  ghost predicate CoderOk(p: Props, data: seq<byte>, c: Coder)
  {
    && PropsOk(p) && SenderOk(c.sender, Lits(p))
    && c.state < 12 && |c.reps| == 4 && c.pos <= |data|
    && (c.pos == 0 ==> c.state < 7)
    && (forall i :: 0 <= i < 4 ==> c.reps[i] < if c.pos == 0 then 1 else c.pos)
  }

  /** The bits of the symbol at the coder's position. */
  ghost function CoderEvents(p: Props, data: seq<byte>, c: Coder, s: Symbol): (es: seq<Event>)
    requires CoderOk(p, data, c) && SymbolOk(s)
    ensures EventsOk(es, Lits(p))
  {
    var litBase := if c.pos == 0 then 0 else LitBase(p, c.pos, data[c.pos - 1]);
    var matchByte := if c.pos == 0 then 0 else data[c.pos - c.reps[0] - 1];
    SymbolEventsOk(c.state, PosState(p, c.pos), litBase, matchByte, s, Lits(p));
    SymbolEvents(c.state, PosState(p, c.pos), litBase, matchByte, s)
  }

  ghost function EncodeSymbol(p: Props, data: seq<byte>, c: Coder, s: Symbol): (r: Coder)
    requires CoderOk(p, data, c) && Describes(p, data, c.pos, c.reps, s)
  {
    Coder(Send(c.sender, CoderEvents(p, data, c, s), Lits(p)), EncNext(c.state, s), NextReps(c.reps, s),
        c.pos + SymbolLen(s))
  }

  lemma EncodeSymbolOk(p: Props, data: seq<byte>, c: Coder, s: Symbol)
    requires CoderOk(p, data, c) && Describes(p, data, c.pos, c.reps, s)
    ensures CoderOk(p, data, EncodeSymbol(p, data, c, s))
    ensures EncodeSymbol(p, data, c, s).pos == c.pos + SymbolLen(s) > c.pos
  {
    hide SenderOk, CoderEvents, Send;
    if c.pos == 0 { assert s.Lit?; }
  }

  /** A parse: symbols that describe the data from the coder's position to its end. */
  ghost predicate Parses(p: Props, data: seq<byte>, c: Coder, ss: seq<Symbol>)
    requires CoderOk(p, data, c)
    decreases |ss|
  {
    if ss == [] then c.pos == |data|
    else Describes(p, data, c.pos, c.reps, ss[0]) &&
         (EncodeSymbolOk(p, data, c, ss[0]); Parses(p, data, EncodeSymbol(p, data, c, ss[0]), ss[1..]))
  }

  /** Every data has a parse: its bytes one by one. */
  ghost function Literals(data: seq<byte>, pos: nat): (ss: seq<Symbol>)
    requires pos <= |data|
    ensures |ss| == |data| - pos
  {
    seq(|data| - pos, i requires 0 <= i < |data| - pos => Lit(data[pos + i]))
  }

  lemma {:induction false} LiteralsParse(p: Props, data: seq<byte>, c: Coder)
    requires CoderOk(p, data, c)
    ensures Parses(p, data, c, Literals(data, c.pos))
    decreases |data| - c.pos
  {
    hide CoderOk, EncodeSymbol;
    CoderSize(p, data, c);
    var ss := Literals(data, c.pos);
    if c.pos < |data| {
      EncodeSymbolOk(p, data, c, ss[0]);
      LiteralsParse(p, data, EncodeSymbol(p, data, c, ss[0]));
      assert ss[1..] == Literals(data, c.pos + 1);
    }
  }

  lemma CoderSize(p: Props, data: seq<byte>, c: Coder)
    requires CoderOk(p, data, c)
    ensures c.pos <= |data| && |c.reps| == 4
  {
  }

  ghost function EncodeAll(p: Props, data: seq<byte>, c: Coder, ss: seq<Symbol>): (r: Coder)
    requires CoderOk(p, data, c) && Parses(p, data, c, ss)
    ensures CoderOk(p, data, r) && r.pos == |data|
    decreases |ss|
  {
    if ss == [] then c
    else
      EncodeSymbolOk(p, data, c, ss[0]);
      EncodeAll(p, data, EncodeSymbol(p, data, c, ss[0]), ss[1..])
  }

  function InitProbs(lits: nat): (r: EncProbs)
    ensures Shaped(r, lits)
    ensures forall t: Table, i :: 0 <= i < Size(t, lits) ==> r[t][i] == 1024
  {
    AllTablesListed();
    var m: map<Table, seq<Prob>> := map t: Table | t in AllTables() :: seq(Size(t, lits), _ => 1024);
    m
  }

  function AllTables(): set<Table>
  {
    {IsMatch, IsRep, IsRepG0, IsRepG1, IsRepG2, IsRep0Long, PosSlot, PosSpec, PosAlign, Literal,
     Len(false, Choice), Len(false, Choice2), Len(false, LenPart.Low), Len(false, Mid), Len(false, High),
     Len(true, Choice), Len(true, Choice2), Len(true, LenPart.Low), Len(true, Mid), Len(true, High)}
  }

  lemma AllTablesListed()
    ensures forall t: Table :: t in AllTables()
  {
    forall t: Table ensures t in AllTables() {
      match t
      case Len(rep, part) => match part { case Choice => case Choice2 => case Low => case Mid => case High => }
      case _ =>
    }
  }

  ghost function StartCoder(p: Props): Coder
  {
    Coder(Sender(START, InitProbs(Lits(p))), 0, [0, 0, 0, 0], 0)
  }

  /** The stream is exactly the coder's lower bound, as RangeEnc_FlushData leaves it. */
  ghost predicate Ends(x: Exact, stream: seq<byte>) { |stream| == x.count + 4 && Num(stream) == x.low }

  /** The stream is what LzmaEnc_CodeOneBlock and Flush leave for some parse of the data. */
  ghost predicate Encodes(p: Props, stream: seq<byte>, data: seq<byte>, ss: seq<Symbol>)
  {
    && CoderOk(p, data, StartCoder(p)) && Parses(p, data, StartCoder(p), ss)
    && Ends(EncodeAll(p, data, StartCoder(p), ss).sender.x, stream)
  }
}
