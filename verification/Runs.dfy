/** The decoder's whole run on any input, symbol after symbol into one buffer, and why the program may cut it
    into pieces: where the dictionary first fills up, where the input gets short, and inside a match. */
module Runs {
  import opened Bytes
  import opened RangeCoder
  import opened BitModels
  import opened Trees
  import opened Symbols
  import opened Codec
  import opened Decoding
  import opened Lookahead
  import opened DryRun

  /** How decoding ends: with a full buffer, with an end mark, with an impossible distance, or without the
      bytes of the next symbol. `read` is the number of bytes taken from the input. */
  datatype Final = Filled(dic: seq<byte>, read: nat) | Marked(dic: seq<byte>, dicPos: nat, code: nat, read: nat)
                 | Malformed | Unfinished

  /** The bytes of the next symbol and of its closing normalisation are there. */
  ghost predicate Fits(p: Props, input: seq<byte>, s: Dec)
    requires DecOk(p, s)
  {
    Normalize(input, NextSymbol(p, input, s).0.rc).pos <= |input|
  }

  /** checkDicSize: 0 until the dictionary has filled up. */
  function FullSize(p: Props, dicPos: nat): nat { if dicPos < p.dictSize then 0 else p.dictSize }

  /** A match may have been cut, and then there is something to go on copying from. */
  ghost predicate InRun(p: Props, s: Dec)
  {
    DecOk(p, s) && (0 < s.remainLen < SPEC_LEN ==> s.dicPos > 0)
  }

  /** `len` more bytes of a cut match. */
  function CopyRest(s: Dec, len: nat): Dec
    requires |s.reps| == 4 && 1 <= s.reps[0] <= s.dicPos && s.dicPos + len <= |s.dic| && len <= s.remainLen
  {
    s.(dic := CopyMatch(s.dic, s.dicPos, s.reps[0], len), dicPos := s.dicPos + len,
       processedPos := s.processedPos + len, remainLen := s.remainLen - len)
  }

  lemma RestOk(p: Props, s: Dec, len: nat, checkDicSize: nat)
    requires DecOk(p, s) && s.dicPos > 0 && s.dicPos + len <= |s.dic| && len <= s.remainLen
    requires checkDicSize == s.checkDicSize || checkDicSize == p.dictSize <= s.processedPos + len
    ensures |s.reps| == 4 && 1 <= s.reps[0] <= s.dicPos
    ensures DecOk(p, CopyRest(s, len).(checkDicSize := checkDicSize))
  {
    hide CopyMatch, ReceiverOk;
  }

  /** A cut match copied as far as the buffer goes. */
  ghost function Copied(p: Props, s: Dec): (r: Dec)
    requires InRun(p, s) && s.remainLen < SPEC_LEN
    ensures DecOk(p, r) && r.bits == s.bits && |r.dic| == |s.dic| && s.dicPos <= r.dicPos
  {
    if s.remainLen == 0 then s else
      var len := if |s.dic| - s.dicPos < s.remainLen then |s.dic| - s.dicPos else s.remainLen;
      RestOk(p, s, len, s.checkDicSize);
      CopyRest(s, len)
  }

  /** Between two symbols: nothing left to copy, the registers normalised, a full dictionary noted. */
  ghost function Plain(p: Props, input: seq<byte>, s: Dec): (r: Dec)
    requires InRun(p, s) && s.remainLen < SPEC_LEN
    ensures DecOk(p, r) && r.remainLen == 0 && |r.dic| == |s.dic| && s.dicPos <= r.dicPos
  {
    hide InRun, DecOk;
    Tidy(p, input, Copied(p, s))
  }

  ghost function Tidy(p: Props, input: seq<byte>, s: Dec): (r: Dec)
    requires DecOk(p, s)
    ensures DecOk(p, r) && r.remainLen == 0 && r.dicPos == s.dicPos && |r.dic| == |s.dic|
  {
    hide ReceiverOk;
    NormalReady(p, input, s);
    Closed(input, s).(remainLen := 0, checkDicSize := FullSize(p, s.dicPos))
  }

  lemma NormalReady(p: Props, input: seq<byte>, s: Dec)
    requires DecOk(p, s)
    ensures ReceiverOk(Closed(input, s).bits, Lits(p))
  {
  }

  ghost function Mark(input: seq<byte>, s: Dec): Final
  {
    var rc := Normalize(input, s.bits.rc);
    Marked(s.dic, s.dicPos, rc.code, rc.pos)
  }

  /** From a state between two symbols to the end. */
  ghost function Run(p: Props, input: seq<byte>, s: Dec): Final
    requires DecOk(p, s) && s.remainLen == 0
    decreases |s.dic| - s.dicPos
  {
    if s.dicPos == |s.dic| then Filled(s.dic, s.bits.rc.pos)
    else if !Fits(p, input, s) then Unfinished
    else
      StepSafe(p, input, s, |s.dic|);
      match StepSymbol(p, input, s, |s.dic|)
      case Continue(n) => Run(p, input, Plain(p, input, n))
      case EndMark(n) => Mark(input, n)
      case DataError => Malformed
  }

  /** From any state of the program: inside a match, not yet normalised, or after the end mark. */
  ghost function Rest(p: Props, input: seq<byte>, s: Dec): Final
    requires InRun(p, s)
  {
    if s.remainLen >= SPEC_LEN then Mark(input, s) else Run(p, input, Plain(p, input, s))
  }

  /** The decoder after LzmaDec_Init and LzmaDec_InitRc. */
  function Started(p: Props, input: seq<byte>, dic: seq<byte>): (s: Dec)
    requires PropsOk(p) && |input| >= 5
    ensures DecOk(p, s) && s.remainLen == 0 && s.dic == dic
  {
    Dec(Receiver(InitRc(input), seq(NumProbs(Lits(p)), _ => 1024)), 0, [1, 1, 1, 1], dic, 0, 0, 0, 0)
  }

  // ------------------------------------------------------------ what makes no difference

  /** The first byte of a copy. */
  function CopyFirst(dic: seq<byte>, dicPos: nat, rep: nat): (next: seq<byte>)
    requires 1 <= rep <= dicPos < |dic|
    ensures |next| == |dic|
  {
    dic[dicPos := dic[DicIndex(dicPos, rep, |dic|)]]
  }

  lemma CopyMore(dic: seq<byte>, dicPos: nat, rep: nat, n: nat)
    requires 1 <= rep <= dicPos && dicPos + n <= |dic| && n > 0
    ensures CopyMatch(dic, dicPos, rep, n) == CopyMatch(CopyFirst(dic, dicPos, rep), dicPos + 1, rep, n - 1)
  {
  }

  lemma CopyNone(dic: seq<byte>, dicPos: nat, rep: nat)
    requires 1 <= rep <= dicPos <= |dic|
    ensures CopyMatch(dic, dicPos, rep, 0) == dic
  {
  }

  /** Copying in two pieces is copying in one. */
  lemma {:induction false} CopyTwice(dic: seq<byte>, dicPos: nat, rep: nat, a: nat, b: nat)
    requires 1 <= rep <= dicPos && dicPos + a + b <= |dic|
    ensures CopyMatch(CopyMatch(dic, dicPos, rep, a), dicPos + a, rep, b) == CopyMatch(dic, dicPos, rep, a + b)
    decreases a
  {
    hide CopyMatch, CopyFirst;
    if a == 0 {
      CopyNone(dic, dicPos, rep);
    } else {
      CopyMore(dic, dicPos, rep, a);
      CopyMore(dic, dicPos, rep, a + b);
      CopyTwice(CopyFirst(dic, dicPos, rep), dicPos + 1, rep, a - 1, b);
    }
  }

  lemma NormalTwice(input: seq<byte>, d: Rc)
    requires Ready(d)
    ensures Normalize(input, Normalize(input, d)) == Normalize(input, d)
  {
  }

  lemma TidyClosed(p: Props, input: seq<byte>, s: Dec, checkDicSize: nat, remainLen: nat)
    requires DecOk(p, s) && DecOk(p, s.(checkDicSize := checkDicSize, remainLen := remainLen))
    ensures DecOk(p, Closed(input, s)) && Tidy(p, input, Closed(input, s)) == Tidy(p, input, s)
    ensures Tidy(p, input, s.(checkDicSize := checkDicSize, remainLen := remainLen)) == Tidy(p, input, s)
  {
    NormalReady(p, input, s);
    NormalTwice(input, s.bits.rc);
    hide ReceiverOk, Normalize, FullSize;
  }

  lemma CopiedIs(p: Props, s: Dec, most: nat)
    requires InRun(p, s) && s.dicPos > 0 && s.remainLen < SPEC_LEN
    requires most == if |s.dic| - s.dicPos < s.remainLen then |s.dic| - s.dicPos else s.remainLen
    ensures |s.reps| == 4 && 1 <= s.reps[0] <= s.dicPos && Copied(p, s) == CopyRest(s, most)
  {
    RestOk(p, s, most, s.checkDicSize);
    CopyNone(s.dic, s.dicPos, s.reps[0]);
    hide CopyMatch;
  }

  lemma PlainClosed(p: Props, input: seq<byte>, s: Dec)
    requires InRun(p, s) && s.remainLen < SPEC_LEN
    ensures InRun(p, Closed(input, s)) && Plain(p, input, Closed(input, s)) == Plain(p, input, s)
  {
    NormalReady(p, input, s);
    hide ReceiverOk, Normalize, Tidy, CopyMatch;
    assert Copied(p, Closed(input, s)) == Closed(input, Copied(p, s));
    var c := Copied(p, s);
    TidyClosed(p, input, c, c.checkDicSize, c.remainLen);
  }

  lemma RestTwice(s: Dec, a: nat, b: nat)
    requires |s.reps| == 4 && 1 <= s.reps[0] <= s.dicPos && s.dicPos + a + b <= |s.dic| && a + b <= s.remainLen
    ensures CopyRest(CopyRest(s, a), b) == CopyRest(s, a + b)
  {
    hide CopyMatch;
    CopyTwice(s.dic, s.dicPos, s.reps[0], a, b);
  }

  /** Part of a cut match copied earlier. */
  lemma CopiedCopied(p: Props, s: Dec, len: nat)
    requires InRun(p, s) && 0 < s.remainLen < SPEC_LEN && s.dicPos + len <= |s.dic| && len <= s.remainLen
    ensures |s.reps| == 4 && 1 <= s.reps[0] <= s.dicPos && InRun(p, CopyRest(s, len))
    ensures Copied(p, CopyRest(s, len)) == Copied(p, s)
  {
    hide CopyMatch, Copied, ReceiverOk;
    RestOk(p, s, len, s.checkDicSize);
    var most := if |s.dic| - s.dicPos < s.remainLen then |s.dic| - s.dicPos else s.remainLen;
    CopiedIs(p, s, most);
    CopiedIs(p, CopyRest(s, len), most - len);
    RestTwice(s, len, most - len);
    hide CopyRest, DecOk;
  }

  /** Whatever is noted about the dictionary. */
  lemma PlainNoted(p: Props, input: seq<byte>, s: Dec, checkDicSize: nat)
    requires InRun(p, s) && s.remainLen < SPEC_LEN
    requires checkDicSize == s.checkDicSize || checkDicSize == p.dictSize <= s.processedPos
    ensures InRun(p, s.(checkDicSize := checkDicSize))
    ensures Plain(p, input, s.(checkDicSize := checkDicSize)) == Plain(p, input, s)
  {
    hide Normalize, Tidy, CopyMatch, ReceiverOk;
    var c := Copied(p, s);
    assert Copied(p, s.(checkDicSize := checkDicSize)) == c.(checkDicSize := checkDicSize);
    TidyClosed(p, input, c, checkDicSize, c.remainLen);
  }

  lemma PlainCopied(p: Props, input: seq<byte>, s: Dec, len: nat, checkDicSize: nat)
    requires InRun(p, s) && 0 < s.remainLen < SPEC_LEN && s.dicPos + len <= |s.dic| && len <= s.remainLen
    requires checkDicSize == s.checkDicSize || checkDicSize == p.dictSize <= s.processedPos + len
    ensures |s.reps| == 4 && 1 <= s.reps[0] <= s.dicPos
    ensures var n := CopyRest(s, len).(checkDicSize := checkDicSize);
            InRun(p, n) && Plain(p, input, n) == Plain(p, input, s)
  {
    hide CopyMatch, DecOk, Tidy, Copied;
    CopiedCopied(p, s, len);
    PlainNoted(p, input, CopyRest(s, len), checkDicSize);
  }

  lemma RestCopied(p: Props, input: seq<byte>, s: Dec, len: nat, checkDicSize: nat)
    requires InRun(p, s) && 0 < s.remainLen < SPEC_LEN && s.dicPos + len <= |s.dic| && len <= s.remainLen
    requires checkDicSize == s.checkDicSize || checkDicSize == p.dictSize <= s.processedPos + len
    ensures |s.reps| == 4 && 1 <= s.reps[0] <= s.dicPos
    ensures var n := CopyRest(s, len).(checkDicSize := checkDicSize);
            InRun(p, n) && Rest(p, input, n) == Rest(p, input, s)
  {
    hide DecOk, Plain, Run;
    PlainCopied(p, input, s, len, checkDicSize);
  }

  /** A full dictionary noted, and the registers normalised. */
  lemma RestNoted(p: Props, input: seq<byte>, s: Dec, checkDicSize: nat)
    requires InRun(p, s) && (checkDicSize == s.checkDicSize || checkDicSize == p.dictSize <= s.processedPos)
    ensures InRun(p, s.(checkDicSize := checkDicSize))
    ensures Rest(p, input, s.(checkDicSize := checkDicSize)) == Rest(p, input, s)
  {
    hide Run, Normalize, Plain, CopyMatch, ReceiverOk;
    if s.remainLen < SPEC_LEN { PlainNoted(p, input, s, checkDicSize); }
  }

  lemma RestClosed(p: Props, input: seq<byte>, s: Dec)
    requires InRun(p, s)
    ensures Ready(s.bits.rc) && InRun(p, Closed(input, s))
    ensures Rest(p, input, Closed(input, s)) == Rest(p, input, s)
  {
    NormalReady(p, input, s);
    NormalTwice(input, s.bits.rc);
    if s.remainLen < SPEC_LEN { PlainClosed(p, input, s); }
    hide Run, Plain, Normalize, ReceiverOk;
  }

  /** After the end mark only the registers matter. */
  lemma RestMarked(p: Props, input: seq<byte>, s: Dec, n: nat)
    requires InRun(p, s) && s.remainLen >= SPEC_LEN && n >= SPEC_LEN
    ensures InRun(p, s.(remainLen := n)) && Rest(p, input, s.(remainLen := n)) == Rest(p, input, s)
  {
    hide Run, Normalize, ReceiverOk;
  }

  // ------------------------------------------------------------ one symbol, cut at any limit

  /** Copying up to a limit and the rest later is copying as far as the buffer goes. */
  lemma CopyLimits(p: Props, input: seq<byte>, s: Dec, bits: Receiver, state: nat, reps: seq<nat>, len: nat, limit: nat)
    requires DecOk(p, s) && s.dicPos < limit <= |s.dic| && s.remainLen == 0 && 2 <= len < SPEC_LEN
    requires ReceiverOk(bits, Lits(p)) && state < 12
    requires |reps| == 4 && forall i :: 0 <= i < 4 ==> 1 <= reps[i] <= s.dicPos
    ensures var o, o' := CopyStep(s, bits, state, reps, len, limit), CopyStep(s, bits, state, reps, len, |s.dic|);
            && o.Continue? && o'.Continue? && InRun(p, o.s) && InRun(p, o'.s)
            && o.s.remainLen < SPEC_LEN && o'.s.remainLen < SPEC_LEN
            && Plain(p, input, o.s) == Plain(p, input, o'.s)
  {
    hide ReceiverOk, Tidy, CopyMatch;
    CopySafe(p, s, bits, state, reps, len, limit);
    CopySafe(p, s, bits, state, reps, len, |s.dic|);
    var o, o' := CopyStep(s, bits, state, reps, len, limit), CopyStep(s, bits, state, reps, len, |s.dic|);
    var a := if limit - s.dicPos < len then limit - s.dicPos else len;
    var b := if |s.dic| - s.dicPos < len then |s.dic| - s.dicPos else len;
    CopyTwice(s.dic, s.dicPos, reps[0], a, b - a);
    CopiedIs(p, o.s, b - a);
    CopiedIs(p, o'.s, 0);
    CopyNone(o'.s.dic, o'.s.dicPos, reps[0]);
    hide Copied, DecOk;
  }

  /** Two outcomes from which the run ends alike. */
  ghost predicate Alike(p: Props, input: seq<byte>, o: Outcome, o': Outcome)
  {
    match o
    case Continue(n) =>
      o'.Continue? && InRun(p, n) && InRun(p, o'.s) && n.remainLen < SPEC_LEN && o'.s.remainLen < SPEC_LEN
      && Plain(p, input, n) == Plain(p, input, o'.s)
    case EndMark(n) => o'.EndMark? && InRun(p, n) && n.remainLen >= SPEC_LEN && Mark(input, n) == Mark(input, o'.s)
    case DataError => o'.DataError?
  }

  lemma PutAlike(p: Props, input: seq<byte>, s: Dec, rc: Receiver, bits: Receiver, state: nat, b: byte)
    requires DecOk(p, s) && s.dicPos < |s.dic| && s.remainLen == 0 && ReceiverOk(bits, Lits(p)) && state < 12
    ensures Alike(p, input, Put(s, bits, state, b), Put(s.(bits := rc), bits, state, b))
  {
    hide ReceiverOk, Plain;
    PutSafe(p, s, bits, state, b, |s.dic|);
  }

  lemma CopyStepBits(s: Dec, rc: Receiver, bits: Receiver, state: nat, reps: seq<nat>, len: nat)
    requires s.dicPos <= |s.dic| && |reps| == 4 && 1 <= reps[0] <= s.dicPos
    ensures CopyStep(s.(bits := rc), bits, state, reps, len, |s.dic|) == CopyStep(s, bits, state, reps, len, |s.dic|)
  {
    hide CopyMatch;
  }

  lemma CopyAlike(p: Props, input: seq<byte>, s: Dec, rc: Receiver, bits: Receiver, state: nat, reps: seq<nat>,
                  len: nat, limit: nat)
    requires DecOk(p, s) && s.dicPos < limit <= |s.dic| && s.remainLen == 0 && 2 <= len < SPEC_LEN
    requires ReceiverOk(bits, Lits(p)) && state < 12
    requires |reps| == 4 && forall i :: 0 <= i < 4 ==> 1 <= reps[i] <= s.dicPos
    ensures Alike(p, input, CopyStep(s, bits, state, reps, len, limit),
                  CopyStep(s.(bits := rc), bits, state, reps, len, |s.dic|))
  {
    CopyLimits(p, input, s, bits, state, reps, len, limit);
    hide ReceiverOk, Plain, CopyStep, DecOk;
    CopyStepBits(s, rc, bits, state, reps, len);
  }

  /** What a symbol does depends neither on the limit nor on the registers before it. */
  lemma ApplyAlike(p: Props, input: seq<byte>, s: Dec, rc: Receiver, bits: Receiver, sym: Symbol, limit: nat)
    requires DecOk(p, s) && s.dicPos < limit <= |s.dic| && s.remainLen == 0 && ReceiverOk(rc, Lits(p))
    requires ReceiverOk(bits, Lits(p)) && (sym.Rep? ==> sym.i < 4) && (sym.Rep? || sym.Match? ==> 2 <= sym.len <= 273)
    ensures DecOk(p, s.(bits := rc))
    ensures Alike(p, input, ApplySymbol(p, s, bits, sym, limit),
                  ApplySymbol(p, s.(bits := rc), bits, sym, |s.dic|))
  {
    hide ReceiverOk, CopyStep, Put, Plain, Normalize;
    var state := DecNext(s.state, sym);
    match sym {
      case Lit(b) => PutAlike(p, input, s, rc, bits, state, b);
      case ShortRep => PutAlike(p, input, s, rc, bits, state, s.dic[DicIndex(s.dicPos, s.reps[0], |s.dic|)]);
      case Rep(i, len) =>
        if s.checkDicSize != 0 || s.processedPos != 0 {
          CopyAlike(p, input, s, rc, bits, state, DecReps(s.reps, sym), len, limit);
        }
      case Match(dist, len) =>
        if dist < (if s.checkDicSize == 0 then s.processedPos else s.checkDicSize) {
          CopyAlike(p, input, s, rc, bits, state, DecReps(s.reps, sym), len, limit);
        }
    }
  }

  /** From this outcome the run ends so. */
  ghost predicate LeadsTo(p: Props, input: seq<byte>, o: Outcome, f: Final)
  {
    match o
    case Continue(n) => InRun(p, n) && n.remainLen < SPEC_LEN && Rest(p, input, n) == f
    case EndMark(n) => InRun(p, n) && n.remainLen >= SPEC_LEN && Rest(p, input, n) == f
    case DataError => f == Malformed
  }

  /** The next symbol, wherever the program cuts its effect: the run goes on from what it leaves. */
  lemma RestStep(p: Props, input: seq<byte>, s: Dec, limit: nat)
    requires DecOk(p, s) && s.dicPos < limit <= |s.dic| && s.remainLen == 0 && s.checkDicSize == FullSize(p, s.dicPos)
    ensures !Fits(p, input, s) ==> Rest(p, input, s) == Unfinished
    ensures Fits(p, input, s) ==> LeadsTo(p, input, StepSymbol(p, input, s, limit), Rest(p, input, s))
  {
    hide NextSymbol, ApplySymbol, Normalize, ReceiverOk, CopyMatch;
    NormalReady(p, input, s);
    var c := Closed(input, s);
    assert Plain(p, input, s) == c;
    ReadClosed(p, input, s);
    var (bits, sym) := NextSymbol(p, input, s);
    NextOk(p, input, s);
    ApplyAlike(p, input, s, c.bits, bits, sym, limit);
    RunUnfold(p, input, c);
    hide Plain, Run, Fits, DecOk, Mark;
  }

  lemma NextOk(p: Props, input: seq<byte>, s: Dec)
    requires DecOk(p, s)
    ensures var (bits, sym) := NextSymbol(p, input, s);
            && ReceiverOk(bits, Lits(p)) && (sym.Rep? ==> sym.i < 4)
            && (sym.Rep? || sym.Match? ==> 2 <= sym.len <= 273)
  {
  }

  lemma RunUnfold(p: Props, input: seq<byte>, s: Dec)
    requires DecOk(p, s) && s.remainLen == 0 && s.dicPos < |s.dic|
    ensures !Fits(p, input, s) ==> Run(p, input, s) == Unfinished
    ensures Fits(p, input, s) ==> LeadsTo(p, input, StepSymbol(p, input, s, |s.dic|), Run(p, input, s))
  {
    hide Fits, StepSymbol, Plain;
    StepSafe(p, input, s, |s.dic|);
    hide DecOk;
  }

  // ------------------------------------------------------------ where a run ends

  /** An end mark is only read while the buffer has room. */
  lemma {:induction false} MarkedShort(p: Props, input: seq<byte>, s: Dec)
    requires DecOk(p, s) && s.remainLen == 0
    ensures var f := Run(p, input, s);
            (f.Marked? ==> f.dicPos < |s.dic|) && (f.Filled? ==> |f.dic| == |s.dic|)
    decreases |s.dic| - s.dicPos
  {
    hide StepSymbol, Fits, Plain;
    if s.dicPos < |s.dic| {
      RunUnfold(p, input, s);
      StepSafe(p, input, s, |s.dic|);
      hide DecOk, Run;
      if Fits(p, input, s) {
        match StepSymbol(p, input, s, |s.dic|)
        case Continue(n) => MarkedShort(p, input, Plain(p, input, n));
        case EndMark(n) =>
        case DataError =>
      }
    }
  }

  /** The next symbol of an encoded stream fits. */
  lemma TrailFits(p: Props, input: seq<byte>, t: Trail, s: Dec, limit: nat)
    requires Follows(p, input, t, s) && t.Trail? && s.remainLen == 0 && s.dicPos < limit <= |s.dic|
    ensures Normalize(input, NextSymbol(p, input, s).0.rc).pos <= |input|
  {
    hide NextSymbol, EncodeAll, Parses, StepSymbol;
    FollowStep(p, input, t, s, limit);
    StepBits(p, input, s, limit);
  }

  /** A symbol changes the registers only by being read. */
  lemma StepBits(p: Props, input: seq<byte>, s: Dec, limit: nat)
    requires DecOk(p, s) && s.dicPos < limit <= |s.dic|
    ensures var o := StepSymbol(p, input, s, limit);
            !o.DataError? ==> o.s.bits == NextSymbol(p, input, s).0 && o.s.bits.rc.pos >= s.bits.rc.pos
  {
    hide ReadSymbol, LitBase, PosState, CopyMatch, Take;
    NextSymbolPast(input, p, s);
    TakeFrame(input, s.bits, s.state * 16 + PosState(p, s.processedPos));
  }

  lemma NormGrows(input: seq<byte>, d: Rc)
    ensures d.pos <= Normalize(input, d).pos
  {
  }

  /** Along the trail of an encoding the buffer fills with the data, and every byte is used. */
  lemma {:induction false} TrailRun(p: Props, input: seq<byte>, t: Trail, s: Dec)
    requires Follows(p, input, t, s) && t.Trail? && s.remainLen == 0 && |s.dic| == |t.data| && TOP <= s.bits.rc.range
    ensures DecOk(p, s) && Run(p, input, s) == Filled(t.data, |input|)
    decreases |s.dic| - s.dicPos
  {
    FollowsOk(p, input, t, s);
    hide StepSymbol, Fits, Plain, Follows, OnTrail, Tracks, DecOk;
    if s.dicPos == |s.dic| {
      TrailEnd(p, input, t, s);
    } else {
      TrailFits(p, input, t, s, |s.dic|);
      RunUnfold(p, input, s);
      FollowStep(p, input, t, s, |s.dic|);
      var n := StepSymbol(p, input, s, |s.dic|).s;
      StepSafe(p, input, s, |s.dic|);
      TrailPlain(p, input, NextTrail(p, t), n);
      TrailRun(p, input, NextTrail(p, t), Plain(p, input, n));
    }
  }

  lemma FollowsOk(p: Props, input: seq<byte>, t: Trail, s: Dec)
    requires Follows(p, input, t, s) && t.Trail?
    ensures DecOk(p, s) && s.dicPos <= |s.dic| && |s.dic| == |t.data|
    ensures t.Trail? ==> CoderOk(p, t.data, t.c) && Parses(p, t.data, t.c, t.rest)
  {
  }

  /** On the trail no match is cut by the end of the buffer. */
  lemma TrailPlain(p: Props, input: seq<byte>, t: Trail, n: Dec)
    requires Follows(p, input, t, n) && t.Trail? && InRun(p, n) && (n.remainLen > 0 ==> n.dicPos == |n.dic|)
    ensures n.remainLen == 0 && Follows(p, input, t, Plain(p, input, n)) && TOP <= Plain(p, input, n).bits.rc.range
    ensures Plain(p, input, n).dicPos == n.dicPos
  {
    hide Linked, ReceiverOk, OnTrail;
    FollowClosed(p, input, t, n);
  }

  lemma StartRun(p: Props, input: seq<byte>, dic: seq<byte>, data: seq<byte>, ss: seq<Symbol>)
    requires Encodes(p, input, data, ss) && p.dictSize < WORD && |dic| == |data| && |input| >= 5
    ensures PropsOk(p) && input[0] == 0 && Run(p, input, Started(p, input, dic)) == Filled(data, |input|)
  {
    hide Run, Follows;
    StartFollows(p, input, data, ss, Started(p, input, dic));
    TrailRun(p, input, Trail(data, StartCoder(p), ss), Started(p, input, dic));
  }

  /** The program's state at the start. */
  lemma StartOutlook(p: Props, input: seq<byte>, s: Dec)
    requires PropsOk(p) && |input| >= 5 && s.bits.rc == InitRc(input) && s.reps == [1, 1, 1, 1]
    requires |s.bits.probs| == NumProbs(Lits(p)) && forall i :: 0 <= i < |s.bits.probs| ==> s.bits.probs[i] == 1024
    requires s.dicPos == s.processedPos == s.checkDicSize == s.state == s.remainLen == 0
    ensures InRun(p, s) && Rest(p, input, s) == Run(p, input, Started(p, input, s.dic))
  {
    hide Run;
    assert s.bits.probs == Started(p, input, s.dic).bits.probs;
  }

  /** Where the program stops, with the registers normalised. */
  lemma RestEnds(p: Props, input: seq<byte>, s: Dec)
    requires InRun(p, s) && TOP <= s.bits.rc.range && (0 < s.remainLen < SPEC_LEN ==> s.dicPos == |s.dic|)
    ensures s.remainLen >= SPEC_LEN ==> Rest(p, input, s) == Marked(s.dic, s.dicPos, s.bits.rc.code, s.bits.rc.pos)
    ensures s.remainLen < SPEC_LEN && s.dicPos == |s.dic| ==> Rest(p, input, s) == Filled(s.dic, s.bits.rc.pos)
  {
  }
}
