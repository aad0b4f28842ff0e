/** The whole recognition of a tagged sentence: hard decisions, stages of classification and
    decoding, and extraction. The networks' outcomes and the recased forms are inputs. */
module Recognizer {
  import opened Bilou
  import opened Viterbi
  import opened BestDecoding
  import opened Recognition
  import opened Sentence
  import opened Gazetteers
  import opened HardDecisions

  /** A sentence processor that may decide words. */
  datatype Processor = Gazetteer(trie: Trie, forms: seq<seq<string>>) | Urls(kinds: seq<UrlKind>, url: nat, email: nat)

  ghost predicate ProcessorOk(p: Processor, size: nat)
  {
    match p
    case Gazetteer(trie, forms) => TrieOk(trie) && |forms| == size
    case Urls(kinds, _, _) => |kinds| == size
  }

  datatype Hard = Hard(labels: seq<Bilou>, ents: seq<nat>)

  ghost function FilledOf(labels: seq<Bilou>): (r: seq<bool>)
    ensures |r| == |labels|
  {
    seq(|labels|, i requires 0 <= i < |labels| => labels[i] != O)
  }

  /** What one processor decides. */
  ghost predicate Decides(p: Processor, a: Hard, b: Hard)
  {
    match p
    case Gazetteer(trie, forms) =>
      exists spans :: LeftmostLongest(trie, forms, FilledOf(a.labels), spans, |a.labels|) &&
          Written(a.labels, a.ents, b.labels, b.ents, spans)
    case Urls(kinds, url, email) => UrlWritten(kinds, url, email, a.labels, a.ents, b.labels, b.ents, |kinds|)
  }

  /** All processors in order, from an undecided sentence. */
  ghost predicate Decisions(ps: seq<Processor>, hist: seq<Hard>)
  {
    && |hist| == |ps| + 1 && (forall i :: 0 <= i < |hist[0].labels| ==> hist[0].labels[i] == O)
    && forall k :: 0 <= k < |ps| ==> Decides(ps[k], hist[k], hist[k + 1])
  }

  method RunProcessor(sentence: NerSentence, p: Processor, ghost a: Hard) returns (ghost b: Hard)
    requires sentence.Valid() && sentence.HardState(a.labels, a.ents) && ProcessorOk(p, sentence.size)
    modifies sentence.local, sentence.localFilled
    ensures sentence.Valid() && sentence.HardState(b.labels, b.ents) && Decides(p, a, b)
  {
    hide LeftmostLongest, Written, TrieOk, HardLabels, HardWord, UrlWritten;
    ghost var labels, ents, spans;
    match p {
      case Gazetteer(trie, forms) =>
        ghost var filled := sentence.localFilled[..];
        assert filled == FilledOf(a.labels);
        labels, ents, spans := HardPreGazetteers(sentence, trie, forms, a.labels, a.ents);
      case Urls(kinds, url, email) =>
        labels, ents := UrlEmailDetector(sentence, kinds, url, email, a.labels, a.ents);
    }
    b := Hard(labels, ents);
  }

  lemma NothingHard(size: nat)
    ensures HardLabels(seq(size, _ => O), seq(size, _ => UNKNOWN))
  {
    var ts := seq(size, _ => O);
    forall i | 0 <= i < |ts| ensures Joined(ts, i) { }
  }

  /** feature_templates::process_sentence, as far as it decides words. */
  method ProcessSentence(sentence: NerSentence, ps: seq<Processor>) returns (ghost hist: seq<Hard>)
    requires sentence.Valid() && forall i :: 0 <= i < sentence.size ==> !sentence.localFilled[i]
    requires forall k :: 0 <= k < |ps| ==> ProcessorOk(ps[k], sentence.size)
    modifies sentence.local, sentence.localFilled
    ensures sentence.Valid() && Decisions(ps, hist) && sentence.HardState(hist[|ps|].labels, hist[|ps|].ents)
  {
    hide HardLabels, HardWord, ProcessorOk, Decides;
    NothingHard(sentence.size);
    hist := [Hard(seq(sentence.size, _ => O), seq(sentence.size, _ => UNKNOWN))];
    var k := 0;
    while k < |ps|
      invariant 0 <= k <= |ps| && |hist| == k + 1 && sentence.Valid() &&
                sentence.HardState(hist[k].labels, hist[k].ents)
      invariant forall i :: 0 <= i < |hist[0].labels| ==> hist[0].labels[i] == O
      invariant forall j :: 0 <= j < k ==> Decides(ps[j], hist[j], hist[j + 1])
    {
      ghost var b := RunProcessor(sentence, ps[k], hist[k]);
      hist := hist + [b];
      k := k + 1;
    }
  }

  /** What a stage leaves: rows and labels of a decoding of these words, with these hard labels. */
  ghost predicate StageDone(xs: seq<Local>, rows: seq<Row>, ts: seq<Bilou>, hard: Hard, outcomes: seq<seq<real>>)
  {
    && Rows(rows, xs) && Chain(rows, ts) && HardWords(xs, hard.labels, hard.ents) && |outcomes| == |xs|
    && forall i :: 0 <= i < |xs| && hard.labels[i] == O ==> Summarizes(outcomes[i], xs[i])
  }

  /** One stage: classification, decoding, and the record for the next stage. */
  method DecodeStage(sentence: NerSentence, outcomes: seq<seq<real>>, ghost n: nat, ghost hard: Hard)
    returns (ghost rows: seq<Row>, ghost ts: seq<Bilou>)
    requires sentence.Valid() && sentence.size > 0 && sentence.HardState(hard.labels, hard.ents)
    requires |outcomes| == sentence.size && n > 0 && Total(n) <= UNKNOWN && forall i :: 0 <= i < sentence.size ==>
             Scores(outcomes[i], n)
    modifies sentence.local, sentence.localFilled, sentence.previousStage, sentence.global[..]
    ensures sentence.Valid() && StageDone(sentence.local[..], rows, ts, hard, outcomes) && sentence.Holds(rows) &&
            |rows| == |ts| == sentence.size
    ensures forall i :: 0 <= i < sentence.size ==> sentence.global[i].best == ts[i]
    ensures forall i :: 0 <= i < sentence.size ==>
            sentence.previousStage[i] == Stage(To(ts[i]), rows[i].bilou.At(ts[i]).entity)
  {
    hide RowAt, WordOk, HardLabels, HardWord, Summarizes, Scores, LastLabel;
    rows := sentence.ClassifyWords(outcomes, n, hard.labels, hard.ents);
    ghost var xs := sentence.local[..];
    ts := sentence.ComputeBestDecoding(rows, xs);
    sentence.FillPreviousStage(rows, ts);
    assert sentence.local[..] == xs;
  }

  /** The optimum of a stage in terms of outcomes: a hard word has one possible outcome. */
  ghost function StageOutcomes(hard: Hard, outcomes: seq<seq<real>>, n: nat): (outs: seq<seq<real>>)
    requires |hard.labels| == |hard.ents| == |outcomes|
    ensures |outs| == |outcomes|
  {
    seq(|outcomes|, i requires 0 <= i < |outcomes| => if hard.labels[i] == O then outcomes[i]
        else OneOutcome(n, hard.labels[i], hard.ents[i]))
  }

  lemma StageSummarizes(xs: seq<Local>, rows: seq<Row>, ts: seq<Bilou>, hard: Hard, outcomes: seq<seq<real>>, n: nat)
    requires StageDone(xs, rows, ts, hard, outcomes) && Total(n) <= UNKNOWN
    requires forall i :: 0 <= i < |xs| ==> Scores(outcomes[i], n) && (hard.labels[i] != O ==> hard.ents[i] < n)
    ensures |hard.labels| == |hard.ents| == |xs| && AllNonNeg(xs) && AllSummarize(StageOutcomes(hard, outcomes, n), xs)
  {
    hide Summarizes, Rows, Chain, HardWord, NonNeg;
    var outs := StageOutcomes(hard, outcomes, n);
    forall i | 0 <= i < |xs| ensures NonNeg(xs[i]) && Summarizes(outs[i], xs[i]) {
      assert WordOk(xs[i], hard.labels[i], hard.ents[i]);
      WordNonNeg(xs[i], hard.labels[i], hard.ents[i]);
      if hard.labels[i] != O { HardSummarizes(n, hard.labels[i], hard.ents[i]); }
    }
    forall i, v | 0 <= i < |outs| && 0 <= v < |outs[i]| ensures outs[i][v] >= 0.0 { assert Scores(outcomes[i], n); }
  }

  /** End to end: among all legal sequences of outcomes that respect the hard decisions, none has a
      greater product of scores than the decoded one. */
  lemma StageOptimal(xs: seq<Local>, rows: seq<Row>, ts: seq<Bilou>, hard: Hard, outcomes: seq<seq<real>>, n: nat,
                     vs: seq<nat>, us: seq<nat>)
    requires StageDone(xs, rows, ts, hard, outcomes) && Total(n) <= UNKNOWN && Decoded(rows, ts, vs)
    requires forall i :: 0 <= i < |xs| ==> Scores(outcomes[i], n) && (hard.labels[i] != O ==> hard.ents[i] < n)
    requires |hard.labels| == |hard.ents| == |outcomes|
    requires var outs := StageOutcomes(hard, outcomes, n);
             InRange(outs, us) && Legal(Labels(us)) && OutcomeWeight(outs, us) > 0.0
    ensures Labels(vs) == ts && Legal(ts)
    ensures var outs := StageOutcomes(hard, outcomes, n);
            InRange(outs, vs) && OutcomeWeight(outs, us) <= OutcomeWeight(outs, vs)
  {
    hide Summarizes, Rows, Chain, HardWords, AllSummarize, OutcomeWeight, Legal, Labels, Decoded, InRange,
        StageOutcomes, Scores;
    StageSummarizes(xs, rows, ts, hard, outcomes, n);
    OutcomesOptimal(rows, xs, ts, vs, StageOutcomes(hard, outcomes, n), us);
  }

  /** The entities stored in the output. */
  ghost predicate Stored(rows: seq<Row>, ts: seq<Bilou>, hard: Hard, spans: seq<Span>)
  {
    && |rows| == |ts| == |hard.labels| == |hard.ents| && SpansOf(ts, spans)
    && (forall k, i :: 0 <= k < |spans| && spans[k].start <= i < spans[k].End() ==>
       spans[k].entity == rows[i].bilou.At(ts[i]).entity)
    && (forall s :: IsBlock(hard.labels, s) ==> Contains(spans, Span(s.start, s.length, hard.ents[s.start])))
  }

  ghost predicate Contains(spans: seq<Span>, s: Span) { s in spans }

  /** The extraction, for a decoded stage: exactly the decoded entities, each of one type, and
      every hard span among them as written. */
  lemma StoredSpans(xs: seq<Local>, rows: seq<Row>, ts: seq<Bilou>, hard: Hard, outcomes: seq<seq<real>>,
                    spans: seq<Span>)
    requires StageDone(xs, rows, ts, hard, outcomes) && SpansOf(ts, spans)
    requires forall k :: 0 <= k < |spans| ==>
             spans[k].entity == rows[spans[k].start].bilou.At(ts[spans[k].start]).entity
    ensures Stored(rows, ts, hard, spans)
  {
    hide RowAt, WordOk, Summarizes, LastLabel, P, HardLabels, BlockLabel;
    HardSizes(xs, hard);
    forall k, i: nat | 0 <= k < |spans| && spans[k].start <= i < spans[k].End()
        ensures spans[k].entity == rows[i].bilou.At(ts[i]).entity {
      EntityAlong(rows, xs, ts, spans[k], i);
      EntityAlong(rows, xs, ts, spans[k], spans[k].start);
    }
    forall s | IsBlock(hard.labels, s) ensures Contains(spans, Span(s.start, s.length, hard.ents[s.start])) {
      HardDecoded(rows, xs, ts, hard.labels, hard.ents, s);
      var k := BlockIsSpan(ts, spans, s);
      BlockSize(hard.labels, s);
      assert s.Covers(s.start);
    }
  }

  lemma HardSizes(xs: seq<Local>, hard: Hard)
    requires HardWords(xs, hard.labels, hard.ents)
    ensures |hard.labels| == |hard.ents| == |xs|
  {
  }

  lemma BlockSize(ts: seq<Bilou>, s: Span)
    requires IsBlock(ts, s)
    ensures s.length > 0 && s.End() <= |ts|
  {
  }

  /** recognize, up to the entity processors: at least one stage over a sentence of at least one word. */
  method Recognize(sentence: NerSentence, ps: seq<Processor>, stages: seq<seq<seq<real>>>, ghost n: nat)
    returns (spans: seq<Span>, ghost rows: seq<Row>, ghost ts: seq<Bilou>, ghost hist: seq<Hard>)
    requires sentence.Valid() && sentence.size > 0 && |stages| > 0 && n > 0 && Total(n) <= UNKNOWN
    requires forall k :: 0 <= k < |ps| ==> ProcessorOk(ps[k], sentence.size)
    requires forall k :: 0 <= k < |stages| ==> |stages[k]| == sentence.size
    requires forall k, i :: 0 <= k < |stages| && 0 <= i < sentence.size ==> Scores(stages[k][i], n)
    modifies sentence.local, sentence.localFilled, sentence.previousStage, sentence.global[..]
    ensures sentence.Valid() && Decisions(ps, hist)
    ensures StageDone(sentence.local[..], rows, ts, hist[|ps|], stages[|stages| - 1])
    ensures Legal(ts) && Stored(rows, ts, hist[|ps|], spans)
  {
    hide StageDone, ProcessorOk, Scores, Decisions, HardLabels, HardWord, Stored, Legal, SpansOf;
    rows, ts, hist := [], [], [];
    sentence.ClearPreviousStage();
    var k := 0;
    while k < |stages|
      invariant 0 <= k <= |stages| && sentence.Valid()
      invariant k > 0 ==> Decisions(ps, hist) && |hist| == |ps| + 1 && |rows| == |ts| == sentence.size
      invariant k > 0 ==> StageDone(sentence.local[..], rows, ts, hist[|ps|], stages[k - 1]) && sentence.Holds(rows)
      invariant k > 0 ==> forall i :: 0 <= i < sentence.size ==> sentence.global[i].best == ts[i]
    {
      sentence.ClearLocalFilled();
      hist := ProcessSentence(sentence, ps);
      HistorySize(ps, hist);
      rows, ts := DecodeStage(sentence, stages[k], n, hist[|ps|]);
      k := k + 1;
    }
    spans := StoreEntities(sentence, rows, ts);
    StageLegal(sentence.local[..], rows, ts, hist[|ps|], stages[|stages| - 1]);
    StoredSpans(sentence.local[..], rows, ts, hist[|ps|], stages[|stages| - 1], spans);
  }

  lemma HistorySize(ps: seq<Processor>, hist: seq<Hard>)
    requires Decisions(ps, hist)
    ensures |hist| == |ps| + 1
  {
  }

  lemma StageLegal(xs: seq<Local>, rows: seq<Row>, ts: seq<Bilou>, hard: Hard, outcomes: seq<seq<real>>)
    requires StageDone(xs, rows, ts, hard, outcomes)
    ensures Legal(ts)
  {
    hide Rows, Chain, HardWords, Summarizes;
    HardDecoded(rows, xs, ts, hard.labels, hard.ents, Span(0, 1, 0));
  }

  /** The loop that stores entities, over the best labels and their entities. */
  method StoreEntities(sentence: NerSentence, ghost rows: seq<Row>, ghost ts: seq<Bilou>) returns (spans: seq<Span>)
    requires sentence.Valid() && sentence.Holds(rows) && |rows| == |ts| == sentence.size
    requires forall i :: 0 <= i < sentence.size ==> sentence.global[i].best == ts[i]
    ensures Legal(ts) ==> SpansOf(ts, spans)
    ensures Flat(spans, |ts|) && forall k :: 0 <= k < |spans| ==>
            spans[k].entity == rows[spans[k].start].bilou.At(ts[spans[k].start]).entity
  {
    var best, entity, i := [], [], 0;
    while i < sentence.size
      invariant i <= sentence.size && |best| == |entity| == i && best == ts[..i]
      invariant forall j :: 0 <= j < i ==> entity[j] == rows[j].bilou.At(ts[j]).entity
    {
      best := best + [sentence.global[i].best];
      entity := entity + [sentence.global[i].bilou.At(sentence.global[i].best).entity];
      i := i + 1;
    }
    assert best == ts;
    spans := ExtractEntities(best, entity);
  }
}
