/** The adaptive models of the LZMA codec: the encoder's separate probability
    arrays, the decoder's one flat array, and the transmission of coded bits
    from one to the other. */
module BitModels {
  import opened Bytes
  import opened RangeCoder

  datatype LenPart = Choice | Choice2 | Low | Mid | High

  /** The encoder's probability arrays (two-dimensional ones in row-major order). */
  datatype Table =
    | IsMatch | IsRep | IsRepG0 | IsRepG1 | IsRepG2 | IsRep0Long
    | PosSlot | PosSpec | PosAlign
    | Len(rep: bool, part: LenPart)
    | Literal

  /** Number of entries; `lits` is the number of literal contexts, 2^(lc + lp). */
  function Size(t: Table, lits: nat): nat
  {
    match t
    case IsMatch | IsRep0Long => 192
    case IsRep | IsRepG0 | IsRepG1 | IsRepG2 => 12
    case PosSlot => 256
    case PosSpec => 114
    case PosAlign => 16
    case Len(_, part) => (match part case Choice | Choice2 => 1 case Low | Mid => 128 case High => 256)
    case Literal => 768 * lits
  }

  /** Where the decoder's flat array holds each table. */
  function Base(t: Table): nat
  {
    match t
    case IsMatch => 0
    case IsRep => 192
    case IsRepG0 => 204
    case IsRepG1 => 216
    case IsRepG2 => 228
    case IsRep0Long => 240
    case PosSlot => 432
    case PosSpec => 688
    case PosAlign => 802
    case Len(rep, part) =>
      (if rep then 1332 else 818) +
      (match part case Choice => 0 case Choice2 => 1 case Low => 2 case Mid => 130 case High => 258)
    case Literal => 1846
  }

  function NumProbs(lits: nat): nat { 1846 + 768 * lits }

  type EncProbs = map<Table, seq<Prob>>

  ghost predicate Shaped(probs: EncProbs, lits: nat)
  {
    forall t: Table :: t in probs && |probs[t]| == Size(t, lits)
  }

  /** The two layouts hold the same probabilities. */
  ghost predicate Agree(probs: EncProbs, flat: seq<Prob>, lits: nat)
  {
    && Shaped(probs, lits)
    && |flat| == NumProbs(lits)
    && forall t: Table, i :: 0 <= i < Size(t, lits) ==> flat[Base(t) + i] == probs[t][i]
  }

  function SetProb(probs: EncProbs, t: Table, i: nat, p: Prob): EncProbs
    requires t in probs && i < |probs[t]|
  {
    var row: seq<Prob> := probs[t][i := p];
    probs[t := row]
  }

  lemma TablesInside(t: Table, lits: nat)
    ensures Base(t) + Size(t, lits) <= NumProbs(lits)
  {
  }

  /** Distinct tables occupy disjoint parts of the flat array. */
  lemma TablesApart(t: Table, u: Table, lits: nat)
    requires t != u
    ensures Base(t) + Size(t, lits) <= Base(u) || Base(u) + Size(u, lits) <= Base(t)
  {
  }

  lemma AgreeUpdate(probs: EncProbs, flat: seq<Prob>, lits: nat, t: Table, i: nat, p: Prob)
    requires Agree(probs, flat, lits) && i < Size(t, lits)
    ensures Base(t) + i < |flat|
    ensures Agree(SetProb(probs, t, i, p), flat[Base(t) + i := p], lits)
  {
    TablesInside(t, lits);
    forall u: Table, j | 0 <= j < Size(u, lits)
      ensures flat[Base(t) + i := p][Base(u) + j] == SetProb(probs, t, i, p)[u][j]
    {
      TablesInside(u, lits);
      if t != u { TablesApart(t, u, lits); }
    }
  }

  // ------------------------------------------------------------- coded events

  /** One coded bit: under an adaptive probability, or direct. */
  datatype Event = Adaptive(table: Table, index: int, bit: Bit) | Direct(bit: Bit)

  ghost predicate EventOk(e: Event, lits: nat)
  {
    e.Adaptive? ==> 0 <= e.index < Size(e.table, lits)
  }

  ghost predicate EventsOk(es: seq<Event>, lits: nat)
  {
    forall i :: 0 <= i < |es| ==> EventOk(es[i], lits)
  }

  datatype Sender = Sender(x: Exact, probs: EncProbs)

  ghost predicate SenderOk(s: Sender, lits: nat) { Normal(s.x) && Shaped(s.probs, lits) }

  ghost function Send1(s: Sender, e: Event, lits: nat): (r: Sender)
    requires SenderOk(s, lits) && EventOk(e, lits)
    ensures SenderOk(r, lits)
  {
    match e
    case Adaptive(t, i, b) =>
      CodeNormal(s.x, s.probs[t][i], b);
      Sender(CodeBit(s.x, s.probs[t][i], b), SetProb(s.probs, t, i, Adapt(s.probs[t][i], b)))
    case Direct(b) =>
      CodeNormal(s.x, 1024, b);
      s.(x := CodeDirect(s.x, b))
  }

  ghost function Send(s: Sender, es: seq<Event>, lits: nat): (r: Sender)
    requires SenderOk(s, lits) && EventsOk(es, lits)
    ensures SenderOk(r, lits)
    decreases |es|
  {
    if es == [] then s else Send(Send1(s, es[0], lits), es[1..], lits)
  }

  lemma {:induction false} SendConcat(s: Sender, a: seq<Event>, b: seq<Event>, lits: nat)
    requires SenderOk(s, lits) && EventsOk(a, lits) && EventsOk(b, lits)
    ensures EventsOk(a + b, lits) && Send(s, a + b, lits) == Send(Send(s, a, lits), b, lits)
    decreases |a|
  {
    if a == [] {
      assert a + b == b;
    } else {
      assert (a + b)[1..] == a[1..] + b;
      SendConcat(Send1(s, a[0], lits), a[1..], b, lits);
    }
  }

  lemma {:induction false} SendBack(s: Sender, es: seq<Event>, lits: nat, input: seq<byte>)
    requires SenderOk(s, lits) && EventsOk(es, lits) && Inside(Send(s, es, lits).x, input)
    ensures Inside(s.x, input)
    decreases |es|
  {
    if es != [] {
      SendBack(Send1(s, es[0], lits), es[1..], lits, input);
      match es[0]
      case Adaptive(t, i, b) => InsideBack(s.x, s.probs[t][i], b, input);
      case Direct(b) => InsideBack(s.x, 1024, b, input);
    }
  }

  /** The decoder's registers and its flat probability array. */
  datatype Receiver = Receiver(rc: Rc, probs: seq<Prob>)

  ghost predicate ReceiverOk(d: Receiver, lits: nat) { Ready(d.rc) && |d.probs| == NumProbs(lits) }

  /** GET_BIT at a flat index. */
  function Take(input: seq<byte>, d: Receiver, index: nat): (r: (Receiver, Bit))
    requires Ready(d.rc) && index < |d.probs|
    ensures Ready(r.0.rc) && |r.0.probs| == |d.probs|
  {
    var (rc, b) := GetBit(input, d.rc, d.probs[index]);
    (Receiver(rc, d.probs[index := Adapt(d.probs[index], b)]), b)
  }

  function TakeDirect(input: seq<byte>, d: Receiver): (r: (Receiver, Bit))
    requires Ready(d.rc)
    ensures Ready(r.0.rc) && r.0.probs == d.probs
  {
    var (rc, b) := GetDirect(input, d.rc);
    (d.(rc := rc), b)
  }

  ghost function Take1(input: seq<byte>, d: Receiver, e: Event, lits: nat): (r: (Receiver, Bit))
    requires ReceiverOk(d, lits) && EventOk(e, lits)
    ensures ReceiverOk(r.0, lits)
  {
    match e
    case Adaptive(t, i, _) => TablesInside(t, lits); Take(input, d, Base(t) + i)
    case Direct(_) => TakeDirect(input, d)
  }

  /** The decoder, asked for these bits one after the other, reads them. */
  ghost predicate Carries(input: seq<byte>, d: Receiver, es: seq<Event>, lits: nat)
    requires ReceiverOk(d, lits) && EventsOk(es, lits)
    decreases |es|
  {
    es == [] || (Take1(input, d, es[0], lits).1 == es[0].bit
                 && Carries(input, Take1(input, d, es[0], lits).0, es[1..], lits))
  }

  ghost function After(input: seq<byte>, d: Receiver, es: seq<Event>, lits: nat): (r: Receiver)
    requires ReceiverOk(d, lits) && EventsOk(es, lits)
    ensures ReceiverOk(r, lits)
    decreases |es|
  {
    if es == [] then d else After(input, Take1(input, d, es[0], lits).0, es[1..], lits)
  }

  lemma {:induction false} CarriesConcat(input: seq<byte>, d: Receiver, a: seq<Event>, b: seq<Event>, lits: nat)
    requires ReceiverOk(d, lits) && EventsOk(a, lits) && EventsOk(b, lits)
    ensures EventsOk(a + b, lits)
    ensures Carries(input, d, a + b, lits) <==>
            Carries(input, d, a, lits) && Carries(input, After(input, d, a, lits), b, lits)
    ensures After(input, d, a + b, lits) == After(input, After(input, d, a, lits), b, lits)
    decreases |a|
  {
    if a == [] {
      assert a + b == b;
    } else {
      assert (a + b)[1..] == a[1..] + b;
      CarriesConcat(input, Take1(input, d, a[0], lits).0, a[1..], b, lits);
    }
  }

  lemma CarriesNil(input: seq<byte>, d: Receiver, lits: nat)
    requires ReceiverOk(d, lits)
    ensures EventsOk([], lits) && After(input, d, [], lits) == d
  {
  }

  lemma CarriesCons(input: seq<byte>, d: Receiver, e: Event, es: seq<Event>, lits: nat)
    requires ReceiverOk(d, lits) && EventsOk([e] + es, lits) && Carries(input, d, [e] + es, lits)
    ensures EventOk(e, lits) && EventsOk(es, lits)
    ensures Take1(input, d, e, lits).1 == e.bit && Carries(input, Take1(input, d, e, lits).0, es, lits)
    ensures After(input, d, [e] + es, lits) == After(input, Take1(input, d, e, lits).0, es, lits)
  {
    hide Take1;
    assert ([e] + es)[0] == e && ([e] + es)[1..] == es;
  }

  lemma CarriesSnoc(input: seq<byte>, d: Receiver, es: seq<Event>, e: Event, lits: nat)
    requires ReceiverOk(d, lits) && EventsOk(es + [e], lits)
    ensures EventsOk(es, lits) && EventOk(e, lits)
    ensures Carries(input, d, es + [e], lits)
       <==> Carries(input, d, es, lits) && Take1(input, After(input, d, es, lits), e, lits).1 == e.bit
    ensures After(input, d, es + [e], lits) == Take1(input, After(input, d, es, lits), e, lits).0
  {
    assert (es + [e])[|es|] == e;
    assert forall i :: 0 <= i < |es| ==> es[i] == (es + [e])[i];
    CarriesConcat(input, d, es, [e], lits);
    var m := After(input, d, es, lits);
    assert [e][1..] == [];
    assert After(input, m, [e], lits) == Take1(input, m, e, lits).0;
  }

  ghost predicate Linked(s: Sender, d: Receiver, lits: nat, input: seq<byte>)
  {
    InStep(s.x, d.rc, input) && Agree(s.probs, d.probs, lits)
  }

  lemma Transmit1(s: Sender, d: Receiver, e: Event, lits: nat, input: seq<byte>)
    requires SenderOk(s, lits) && EventOk(e, lits) && Linked(s, d, lits, input)
    requires Inside(Send1(s, e, lits).x, input)
    ensures ReceiverOk(d, lits) && Take1(input, d, e, lits).1 == e.bit
    ensures Linked(Send1(s, e, lits), Take1(input, d, e, lits).0, lits, input)
  {
    hide Inside, InStep, CodeBit, CodeDirect;
    StepReady(s, d, lits, input);
    match e {
      case Adaptive(t, i, b) =>
        TablesInside(t, lits);
        BitRecovered(s.x, d.rc, s.probs[t][i], b, input);
        AgreeUpdate(s.probs, d.probs, lits, t, i, Adapt(s.probs[t][i], b));
      case Direct(b) =>
        DirectRecovered(s.x, d.rc, b, input);
    }
  }

  lemma StepReady(s: Sender, d: Receiver, lits: nat, input: seq<byte>)
    requires Linked(s, d, lits, input)
    ensures ReceiverOk(d, lits)
  {
  }

  /** The range coder transmits every coded bit: whatever the encoder sends on the
      way to a stream, the decoder of that stream reads, with the same probabilities. */
  lemma {:induction false} Transmit(s: Sender, d: Receiver, es: seq<Event>, lits: nat, input: seq<byte>)
    requires SenderOk(s, lits) && EventsOk(es, lits) && Linked(s, d, lits, input)
    requires Inside(Send(s, es, lits).x, input)
    ensures Carries(input, d, es, lits)
    ensures Linked(Send(s, es, lits), After(input, d, es, lits), lits, input)
    decreases |es|
  {
    if es != [] {
      hide Send1, Take1, Linked, Inside;
      var s1 := Send1(s, es[0], lits);
      SendBack(s1, es[1..], lits, input);
      Transmit1(s, d, es[0], lits, input);
      Transmit(s1, Take1(input, d, es[0], lits).0, es[1..], lits, input);
    }
  }
}
