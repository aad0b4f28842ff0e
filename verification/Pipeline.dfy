/** One sentence from hard decisions and classifier outcomes to marked-up text. */
module Pipeline {
  import opened Bilou
  import opened Viterbi
  import opened BestDecoding
  import opened Recognition
  import opened Sentence
  import opened Gazetteers
  import opened Recognizer
  import opened Entities
  import opened Containers
  import opened PostMatches
  import XmlPrinter

  function NameOf(names: seq<string>, id: nat): string { if id < |names| then names[id] else "" }

  /** The decoded spans with their type names. */
  ghost function Named(names: seq<string>, spans: seq<Span>): (es: seq<Ent>)
    ensures |es| == |spans|
  {
    seq(|spans|, k requires 0 <= k < |spans| => Ent(spans[k].start, spans[k].length, NameOf(names, spans[k].entity)))
  }

  lemma NamedFlat(names: seq<string>, spans: seq<Span>, n: nat)
    requires Flat(spans, n)
    ensures FlatList(Named(names, spans), n)
  {
  }

  method NameSpans(names: seq<string>, spans: seq<Span>) returns (es: seq<Ent>)
    ensures es == Named(names, spans)
  {
    es := [];
    var k := 0;
    while k < |spans|
      invariant k <= |spans| && es == Named(names, spans)[..k]
    {
      es := es + [Ent(spans[k].start, spans[k].length, NameOf(names, spans[k].entity))];
      k := k + 1;
    }
  }

  lemma SpansFlat(ts: seq<Bilou>, spans: seq<Span>)
    requires SpansOf(ts, spans)
    ensures Flat(spans, |ts|)
  {
  }

  lemma NestedSorted(es: seq<Ent>, n: nat)
    requires Nested(es, n)
    ensures Sorted(es)
  {
  }

  /** An entity processor of the feature templates. */
  datatype EntityProcessor = CzechContainers | GapGazetteer(trie: Trie, forms: seq<seq<string>>, names: seq<string>)

  ghost predicate EntityProcessorOk(p: EntityProcessor, n: nat)
  {
    p.GapGazetteer? ==> TrieOk(p.trie) && NamesOk(p.trie, p.names) && |p.forms| == n
  }

  /** What a gazetteer makes of the entities: longest matches are added in the gaps, disjoint from
      everything, and words left over start no match. */
  ghost predicate Filled(p: EntityProcessor, n: nat, a: seq<Ent>, b: seq<Ent>, added: seq<Ent>)
    requires p.GapGazetteer?
  {
    && multiset(b) == multiset(a) + multiset(added) && FlatList(added, n)
    && (forall x, k :: x in added && 0 <= k < |a| ==> Apart(x, a[k]))
    && Explained(p.trie, p.forms, p.names, a, n, b, added)
  }

  ghost predicate WovenAs(a: seq<Ent>, b: seq<Ent>, g: seq<nat>)
  {
    Groups(a, g) && |g| == |a| && b == Woven(a, g)
  }

  /** What one processor makes of the entities. */
  ghost predicate Processed(p: EntityProcessor, n: nat, a: seq<Ent>, b: seq<Ent>)
  {
    if p.CzechContainers? then exists g :: WovenAs(a, b, g) else exists added :: Filled(p, n, a, b, added)
  }

  /** All processors in order, from the decoded entities to the output. */
  ghost predicate Run(ps: seq<EntityProcessor>, n: nat, steps: seq<seq<Ent>>)
  {
    |steps| == |ps| + 1 && forall k :: 0 <= k < |ps| ==> Processed(ps[k], n, steps[k], steps[k + 1])
  }

  ghost predicate OneContainerStep(ps: seq<EntityProcessor>)
  {
    forall j, k :: 0 <= j < k < |ps| ==> ps[j].GapGazetteer? || ps[k].GapGazetteer?
  }

  /** One processor: nothing is dropped and the entities stay layered. Containers for flat entities, and
      gazetteers, leave nested entities nested, and gazetteers keep flat entities flat. */
  method ProcessOne(p: EntityProcessor, es: seq<Ent>, ghost n: nat) returns (r: seq<Ent>)
    requires EntityProcessorOk(p, n) && Layered(es, n)
    ensures Processed(p, n, es, r) && Layered(r, n) && multiset(es) <= multiset(r)
    ensures Nested(es, n) && (p.CzechContainers? ==> FlatList(es, n)) ==> Nested(r, n)
    ensures p.GapGazetteer? && FlatList(es, n) ==> FlatList(r, n)
  {
    hide FlatList, Nested, Layered, Placed, TrieOk, NamesOk, Groups, All, Woven, Explained, Apart;
    match p {
      case CzechContainers =>
        ghost var g;
        r, g := AddContainers(es, n);
        assert WovenAs(es, r, g);
      case GapGazetteer(trie, forms, names) =>
        ghost var added;
        LayeredPlaced(es, n);
        r, added := PostGazetteers(trie, forms, names, es);
        assert Filled(p, n, es, r, added);
    }
  }

  /** The entity processors in template order, whatever that is, and the sort before printing: the result is
      nested. With at most one container step the sort finds the entities in order. */
  method ProcessEntities(decoded: seq<Ent>, ps: seq<EntityProcessor>, ghost n: nat)
    returns (es: seq<Ent>, ghost steps: seq<seq<Ent>>)
    requires FlatList(decoded, n) && forall k :: 0 <= k < |ps| ==> EntityProcessorOk(ps[k], n)
    ensures Run(ps, n, steps) && steps[0] == decoded && multiset(es) == multiset(steps[|ps|])
    ensures Nested(es, n) && multiset(decoded) <= multiset(es)
    ensures OneContainerStep(ps) ==> es == steps[|ps|]
  {
    hide FlatList, Nested, Layered, EntityProcessorOk, Processed, Sorted;
    FlatLayered(decoded, n);
    FlatIsNested(decoded, n);
    es, steps := decoded, [decoded];
    var k := 0;
    while k < |ps|
      invariant 0 <= k <= |ps| && |steps| == k + 1 && steps[0] == decoded && steps[k] == es
      invariant forall j :: 0 <= j < k ==> Processed(ps[j], n, steps[j], steps[j + 1])
      invariant Layered(es, n) && multiset(decoded) <= multiset(es)
      invariant OneContainerStep(ps) ==> Nested(es, n)
      invariant FlatList(es, n) || exists j :: 0 <= j < k && ps[j].CzechContainers?
    {
      es := ProcessOne(ps[k], es, n);
      steps := steps + [es];
      k := k + 1;
    }
    ghost var last := es;
    if OneContainerStep(ps) { NestedSorted(es, n); }
    es := SortEntities(es);
    LayeredSorted(last, es, n);
  }

  /** Sorting layered entities nests them. */
  lemma LayeredSorted(es: seq<Ent>, r: seq<Ent>, n: nat)
    requires Layered(es, n) && Sorted(r) && multiset(r) == multiset(es)
    ensures Nested(r, n)
  {
    forall k | 0 <= k < |es| ensures es[k].length > 0 && es[k].End() <= n { LayeredAt(es, n, k); }
    forall j, k | 0 <= j < |es| && 0 <= k < |es| ensures Laminar(es[j], es[k]) { assert Layer(es, j, k); }
    hide Layered, Sorted, Nested, Laminar;
    SortedNested(es, r, n);
  }

  lemma FlatIsNested(es: seq<Ent>, n: nat)
    requires FlatList(es, n)
    ensures Nested(es, n)
  {
  }

  /** A sentence from end to end: the labels are a legal best decoding that keeps what the sentence
      processors decided; its entities go through the entity processors, and the result is printed so that
      the tags read back as exactly it, around text that is put out once and in order. */
  method RecognizeAndPrint(sentence: NerSentence, ps: seq<Processor>, stages: seq<seq<seq<real>>>, ghost n: nat,
                           names: seq<string>, qs: seq<EntityProcessor>,
                           para: string, forms: seq<XmlPrinter.Form>, from: nat)
    returns (out: seq<XmlPrinter.Mark>, unprinted: nat, es: seq<Ent>,
             ghost spans: seq<Span>, ghost ts: seq<Bilou>, ghost hist: seq<Hard>, ghost steps: seq<seq<Ent>>)
    requires sentence.Valid() && 0 < sentence.size == |forms| && |stages| > 0 && n > 0 && Total(n) <= UNKNOWN
    requires forall k :: 0 <= k < |ps| ==> ProcessorOk(ps[k], sentence.size)
    requires forall k :: 0 <= k < |stages| ==> |stages[k]| == sentence.size
    requires forall k, i :: 0 <= k < |stages| && 0 <= i < sentence.size ==> Scores(stages[k][i], n)
    requires forall k :: 0 <= k < |qs| ==> EntityProcessorOk(qs[k], sentence.size)
    requires XmlPrinter.Ordered(para, forms, from)
    modifies sentence.local, sentence.localFilled, sentence.previousStage, sentence.global[..]
    ensures sentence.Valid() && Decisions(ps, hist) && |hist| == |ps| + 1
    ensures |ts| == sentence.size && Legal(ts) && SpansOf(ts, spans)
    ensures exists rows ::
              StageDone(sentence.local[..], rows, ts, hist[|ps|], stages[|stages| - 1])
              && Stored(rows, ts, hist[|ps|], spans)
    ensures Run(qs, sentence.size, steps) && steps[0] == Named(names, spans)
    ensures multiset(es) == multiset(steps[|qs|]) && (OneContainerStep(qs) ==> es == steps[|qs|])
    ensures Nested(es, sentence.size) && multiset(Named(names, spans)) <= multiset(es)
    ensures XmlPrinter.Read(XmlPrinter.Reader(0, [], []), out) == XmlPrinter.Reader(sentence.size, [], es)
    ensures from <= unprinted <= |para| && XmlPrinter.TextOf(out) == para[from..unprinted]
    ensures XmlPrinter.Framed(para, forms, out)
  {
    hide StageDone, ProcessorOk, Scores, EntityProcessorOk, FlatList, Nested, Run, OneContainerStep,
         XmlPrinter.Ordered, XmlPrinter.Read, XmlPrinter.TextOf, XmlPrinter.Framed, Decisions, SpansOf, Legal;
    ghost var rows;
    var found;
    found, rows, ts, hist := Recognize(sentence, ps, stages, n);
    HistorySize(ps, hist);
    spans := found;
    StoredSize(sentence.local[..], rows, ts, hist[|ps|], stages[|stages| - 1], spans);
    SpansFlat(ts, spans);
    NamedFlat(names, spans, |forms|);
    var decoded := NameSpans(names, found);
    es, steps := ProcessEntities(decoded, qs, |forms|);
    RunSize(qs, |forms|, steps);
    var ends;
    out, unprinted, ends := XmlPrinter.PrintSentence(para, forms, es, from);
  }

  lemma RunSize(ps: seq<EntityProcessor>, n: nat, steps: seq<seq<Ent>>)
    requires Run(ps, n, steps)
    ensures |steps| == |ps| + 1
  {
  }

  lemma StoredSize(xs: seq<Local>, rows: seq<Row>, ts: seq<Bilou>, hard: Hard, outcomes: seq<seq<real>>,
                   spans: seq<Span>)
    requires StageDone(xs, rows, ts, hard, outcomes) && Stored(rows, ts, hard, spans)
    ensures |ts| == |xs| && SpansOf(ts, spans)
  {
    hide Rows, Chain, HardWords, SpansOf, Summarizes;
    RowsSize(rows, xs, ts);
  }
}
