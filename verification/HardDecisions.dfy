/** The processors that decide words before classification: HARD_PRE gazetteers and URLs. */
module HardDecisions {
  import opened Bilou
  import opened Viterbi
  import opened Recognition
  import opened Sentence
  import opened Gazetteers

  // ------------------------------------------------------------ writing one span

  ghost function Painted(labels: seq<Bilou>, s: Span): (r: seq<Bilou>)
    ensures |r| == |labels|
  {
    seq(|labels|, k requires 0 <= k < |labels| => if s.Covers(k) then BlockLabel(s, k) else labels[k])
  }

  ghost function Typed(ents: seq<nat>, s: Span): (r: seq<nat>)
    ensures |r| == |ents|
  {
    seq(|ents|, k requires 0 <= k < |ents| => if s.Covers(k) then s.entity else ents[k])
  }

  ghost predicate FreeSpan(labels: seq<Bilou>, s: Span)
  {
    s.length > 0 && s.End() <= |labels| && forall k :: s.start <= k < s.End() ==> labels[k] == O
  }

  /** Writing a complete span over undecided words leaves complete spans. */
  lemma PaintedHard(labels: seq<Bilou>, ents: seq<nat>, s: Span)
    requires HardLabels(labels, ents) && FreeSpan(labels, s)
    ensures HardLabels(Painted(labels, s), Typed(ents, s))
    ensures IsBlock(Painted(labels, s), s)
  {
    var r, t := Painted(labels, s), Typed(ents, s);
    forall i | 0 <= i < |r| ensures Joined(r, i) {
      assert Joined(labels, i);
      if i > 0 { assert Joined(labels, i - 1); }
    }
    if s.End() < |labels| { assert Joined(labels, s.End()); }
    if s.start > 0 { assert Joined(labels, s.start); }
    if s.start == 0 { assert Joined(labels, 0); }
    forall i | 0 < i < |r| && Continues(r[i]) ensures t[i] == t[i - 1] {
      assert Joined(r, i);
      assert Joined(labels, i);
    }
  }

  /** Writes a hard span into the local rows. */
  method WriteSpan(sentence: NerSentence, s: Span, ghost labels: seq<Bilou>, ghost ents: seq<nat>)
    requires sentence.Valid() && sentence.HardState(labels, ents) && FreeSpan(labels, s)
    modifies sentence.local, sentence.localFilled
    ensures sentence.Valid() && sentence.HardState(Painted(labels, s), Typed(ents, s))
  {
    hide HardLabels, HardWord;
    PaintedHard(labels, ents, s);
    var j := s.start;
    while j < s.End()
      invariant s.start <= j <= s.End() && sentence.Valid()
      invariant forall k :: s.start <= k < j ==>
                  sentence.localFilled[k] && sentence.local[k] == HardWord(BlockLabel(s, k), s.entity)
      invariant forall k :: 0 <= k < sentence.size && !(s.start <= k < j) ==>
                  sentence.localFilled[k] == old(sentence.localFilled[k])
                  && sentence.local[k] == old(sentence.local[k])
    {
      var t := if s.length == 1 then U else if j == s.start then B else if j + 1 == s.End() then L else I;
      sentence.local[j] := HardWord(t, s.entity);
      sentence.localFilled[j] := true;
      j := j + 1;
    }
  }

  // ------------------------------------------------------------ the leftmost-longest choice

  /** The spans that HARD_PRE gazetteers decide, given the words that were decided before: at each
      word not inside an earlier span the longest match over undecided words is taken, with ties to
      the smallest node; words outside all spans start no match. */
  ghost predicate LeftmostLongest(trie: Trie, forms: seq<seq<string>>, filled: seq<bool>, spans: seq<Span>, upto: nat)
    requires upto <= |filled|
  {
    && Flat(spans, |filled|)
    && (forall k :: 0 <= k < |spans| ==> spans[k].start < upto && Chosen(trie, forms, filled, spans[k]))
    && (forall i :: 0 <= i < upto && !Covered(spans, i) ==> NoMatch(trie, forms, filled, i))
  }

  ghost predicate Chosen(trie: Trie, forms: seq<seq<string>>, filled: seq<bool>, s: Span)
  {
    && s.length > 0 && s.start <= |filled|
    && exists v: nat ::
         v < |trie| && trie[v].entity == s.entity
         && Longest(trie, forms, s.start, FreeUntil(filled, s.start), HardPre, s.length, v)
  }

  ghost predicate NoMatch(trie: Trie, forms: seq<seq<string>>, filled: seq<bool>, i: nat)
    requires i <= |filled|
  {
    forall l: nat, v: nat :: !Matches(trie, forms, i, FreeUntil(filled, i), HardPre, l, v)
  }

  /** At most one longest match exists. */
  lemma ChosenOnce(trie: Trie, forms: seq<seq<string>>, filled: seq<bool>, s: Span, t: Span)
    requires Chosen(trie, forms, filled, s) && Chosen(trie, forms, filled, t) && s.start == t.start
    ensures s == t
  {
    hide Reaches;
    var until := FreeUntil(filled, s.start);
    var v: nat :| v < |trie| && Longest(trie, forms, s.start, until, HardPre, s.length, v) &&
        trie[v].entity == s.entity;
    var w: nat :| w < |trie| && Longest(trie, forms, s.start, until, HardPre, t.length, w) &&
        trie[w].entity == t.entity;
    assert Matches(trie, forms, s.start, until, HardPre, s.length, v) &&
        Matches(trie, forms, s.start, until, HardPre, t.length, w);
  }

  lemma ChosenMatches(trie: Trie, forms: seq<seq<string>>, filled: seq<bool>, s: Span)
    requires Chosen(trie, forms, filled, s)
    ensures !NoMatch(trie, forms, filled, s.start)
  {
    var v: nat :| v < |trie| && Longest(trie, forms, s.start, FreeUntil(filled, s.start), HardPre, s.length, v) &&
        trie[v].entity == s.entity;
    assert Matches(trie, forms, s.start, FreeUntil(filled, s.start), HardPre, s.length, v);
  }

  /** The next span of one choice starts no earlier than that of the other. */
  lemma NotEarlier(trie: Trie, forms: seq<seq<string>>, filled: seq<bool>, xs: seq<Span>, ys: seq<Span>, j: nat)
    requires LeftmostLongest(trie, forms, filled, xs, |filled|) && LeftmostLongest(trie, forms, filled, ys, |filled|)
    requires j < |xs| && j <= |ys| && xs[..j] == ys[..j]
    ensures j < |ys| && ys[j].start <= xs[j].start
  {
    hide Longest, Chosen, NoMatch, Matches, Reaches;
    var i := xs[j].start;
    forall m | 0 <= m < j ensures xs[m] == ys[m] && xs[m].End() <= xs[j].start { assert xs[..j][m] == ys[..j][m]; }
    assert Chosen(trie, forms, filled, xs[j]);
    ChosenMatches(trie, forms, filled, xs[j]);
    assert Covered(ys, i);
    var k :| 0 <= k < |ys| && ys[k].Covers(i);
    if j < k { assert ys[j].End() <= ys[k].start; }
  }

  /** The choice is unique. */
  lemma {:induction false} ChoiceUnique(trie: Trie, forms: seq<seq<string>>, filled: seq<bool>, xs: seq<Span>,
                                        ys: seq<Span>, j: nat)
    requires LeftmostLongest(trie, forms, filled, xs, |filled|) && LeftmostLongest(trie, forms, filled, ys, |filled|)
    requires j <= |xs|
    ensures j <= |ys| && xs[..j] == ys[..j]
    decreases j
  {
    hide Longest, Chosen, NoMatch, Flat, Covered;
    if j > 0 {
      ChoiceUnique(trie, forms, filled, xs, ys, j - 1);
      NotEarlier(trie, forms, filled, xs, ys, j - 1);
      NotEarlier(trie, forms, filled, ys, xs, j - 1);
      ChosenOnce(trie, forms, filled, xs[j - 1], ys[j - 1]);
      assert xs[..j] == xs[..j - 1] + [xs[j - 1]] && ys[..j] == ys[..j - 1] + [ys[j - 1]];
    }
  }

  // ------------------------------------------------------------ process_sentence

  /** Labels and entities after the spans are written. */
  ghost predicate Written(labels0: seq<Bilou>, ents0: seq<nat>, labels: seq<Bilou>, ents: seq<nat>, spans: seq<Span>)
  {
    && |labels0| == |labels| == |ents0| == |ents|
    && (forall k :: 0 <= k < |spans| ==>
       IsBlock(labels, spans[k]) && forall i :: spans[k].start <= i < spans[k].End() ==> ents[i] == spans[k].entity)
    && (forall i :: 0 <= i < |labels| && !Covered(spans, i) ==> labels[i] == labels0[i] && ents[i] == ents0[i])
  }

  /** What is decided while the choice is being made. */
  ghost predicate Marked(filled0: seq<bool>, filled: seq<bool>, spans: seq<Span>)
  {
    |filled| == |filled0| && forall i :: 0 <= i < |filled| ==> (filled[i] <==> filled0[i] || Covered(spans, i))
  }

  lemma {:induction false} FreeUntilSame(a: seq<bool>, b: seq<bool>, i: nat)
    requires i <= |a| == |b| && forall k :: i <= k < |a| ==> a[k] == b[k]
    ensures FreeUntil(a, i) == FreeUntil(b, i)
    decreases |a| - i
  {
    if i < |a| { FreeUntilSame(a, b, i + 1); }
  }

  /** Spans that start before word i and do not cover it are over. */
  lemma PastSpans(trie: Trie, forms: seq<seq<string>>, filled0: seq<bool>, filled: seq<bool>, spans: seq<Span>, i: nat)
    requires i < |filled0| && LeftmostLongest(trie, forms, filled0, spans, i) && Marked(filled0, filled, spans)
    ensures if Covered(spans, i) then FreeUntil(filled, i) == i
            else FreeUntil(filled, i) == FreeUntil(filled0, i) && forall k :: 0 <= k < |spans| ==> spans[k].End() <= i
  {
    hide Chosen, NoMatch;
    if !Covered(spans, i) {
      forall k | 0 <= k < |spans| ensures spans[k].End() <= i { assert !spans[k].Covers(i); }
      forall k | i <= k < |filled| ensures filled[k] == filled0[k] { assert !Covered(spans, k); }
      FreeUntilSame(filled, filled0, i);
    }
  }

  /** One word of the choice. */
  lemma ChoiceStep(trie: Trie, forms: seq<seq<string>>, filled0: seq<bool>, filled: seq<bool>, spans: seq<Span>, i: nat,
                   length: nat, node: nat)
    requires i < |filled0| == |forms| && LeftmostLongest(trie, forms, filled0, spans, i) &&
             Marked(filled0, filled, spans)
    requires Longest(trie, forms, i, FreeUntil(filled, i), HardPre, length, node)
    ensures length == 0 ==> LeftmostLongest(trie, forms, filled0, spans, i + 1)
    ensures length > 0 ==>
            node < |trie| && i + length <= |filled| && !Covered(spans, i) &&
                (forall k :: i <= k < i + length ==> !filled[k])
    ensures length > 0 ==> LeftmostLongest(trie, forms, filled0, spans + [Span(i, length, trie[node].entity)], i + 1)
  {
    hide Reaches;
    PastSpans(trie, forms, filled0, filled, spans, i);
    if length > 0 {
      assert Matches(trie, forms, i, FreeUntil(filled, i), HardPre, length, node);
      var s := Span(i, length, trie[node].entity);
      CoveredMore(spans, s);
      assert Chosen(trie, forms, filled0, s);
    } else if !Covered(spans, i) {
      NoneLongest(trie, forms, i, FreeUntil(filled, i), node);
    }
  }

  lemma NoneLongest(trie: Trie, forms: seq<seq<string>>, i: nat, until: nat, node: nat)
    requires Longest(trie, forms, i, until, HardPre, 0, node)
    ensures forall l: nat, v: nat :: !Matches(trie, forms, i, until, HardPre, l, v)
  {
  }

  /** Writing one more span. */
  lemma WrittenStep(labels0: seq<Bilou>, ents0: seq<nat>, labels: seq<Bilou>, ents: seq<nat>, spans: seq<Span>, s: Span)
    requires Written(labels0, ents0, labels, ents, spans) && FreeSpan(labels, s)
    requires forall k :: 0 <= k < |spans| ==> spans[k].End() <= s.start
    ensures Written(labels0, ents0, Painted(labels, s), Typed(ents, s), spans + [s])
  {
    CoveredMore(spans, s);
    CoveredLess(spans, s);
  }

  lemma CoveredLess(spans: seq<Span>, s: Span)
    ensures forall i :: Covered(spans + [s], i) ==> Covered(spans, i) || s.Covers(i)
  {
    forall i | Covered(spans + [s], i) ensures Covered(spans, i) || s.Covers(i) {
      var k :| 0 <= k <= |spans| && (spans + [s])[k].Covers(i);
      if k < |spans| { assert spans[k].Covers(i); }
    }
  }

  /** gazetteers_enhanced::process_sentence: decides the leftmost-longest HARD_PRE matches. */
  method HardPreGazetteers(sentence: NerSentence, trie: Trie, forms: seq<seq<string>>, ghost labels0: seq<Bilou>,
                           ghost ents0: seq<nat>)
    returns (ghost labels: seq<Bilou>, ghost ents: seq<nat>, ghost spans: seq<Span>)
    requires sentence.Valid() && sentence.HardState(labels0, ents0) && TrieOk(trie) && |forms| == sentence.size
    modifies sentence.local, sentence.localFilled
    ensures sentence.Valid() && sentence.HardState(labels, ents)
    ensures LeftmostLongest(trie, forms, old(sentence.localFilled[..]), spans, sentence.size)
    ensures Written(labels0, ents0, labels, ents, spans)
  {
    hide LeftmostLongest, Written, Marked, Longest, TrieOk, HardLabels, HardWord;
    labels, ents, spans := labels0, ents0, [];
    ghost var filled0 := sentence.localFilled[..];
    var i := 0;
    ChoiceStart(trie, forms, filled0, labels0, ents0);
    while i < sentence.size
      invariant 0 <= i <= sentence.size && sentence.Valid() && sentence.HardState(labels, ents)
      invariant LeftmostLongest(trie, forms, filled0, spans, i) && Marked(filled0, sentence.localFilled[..], spans)
      invariant Written(labels0, ents0, labels, ents, spans)
    {
      ghost var filled := sentence.localFilled[..];
      var length, node := FindHardPre(trie, forms, sentence.localFilled[..], i);
      ChoiceStep(trie, forms, filled0, filled, spans, i, length, node);
      if length > 0 {
        var s := Span(i, length, trie[node].entity);
        PastSpans(trie, forms, filled0, filled, spans, i);
        WrittenStep(labels0, ents0, labels, ents, spans, s);
        WriteSpan(sentence, s, labels, ents);
        MarkedStep(filled0, filled, sentence.localFilled[..], spans, s);
        labels, ents, spans := Painted(labels, s), Typed(ents, s), spans + [s];
      }
      i := i + 1;
    }
  }

  lemma ChoiceStart(trie: Trie, forms: seq<seq<string>>, filled0: seq<bool>, labels0: seq<Bilou>, ents0: seq<nat>)
    requires |labels0| == |ents0|
    ensures LeftmostLongest(trie, forms, filled0, [], 0) && Marked(filled0, filled0, []) &&
            Written(labels0, ents0, labels0, ents0, [])
  {
  }

  lemma MarkedStep(filled0: seq<bool>, filled: seq<bool>, filled': seq<bool>, spans: seq<Span>, s: Span)
    requires Marked(filled0, filled, spans) && |filled'| == |filled| && s.End() <= |filled|
    requires forall k :: 0 <= k < |filled| ==> (filled'[k] <==> filled[k] || s.Covers(k))
    ensures Marked(filled0, filled', spans + [s])
  {
    CoveredMore(spans, s);
    CoveredLess(spans, s);
  }

  // ------------------------------------------------------------ URLs and emails

  datatype UrlKind = NoUrl | Url | Email

  /** The labels after the URL detector: undecided URLs and emails become unit entities. */
  ghost predicate UrlWritten(kinds: seq<UrlKind>, url: nat, email: nat, labels0: seq<Bilou>, ents0: seq<nat>,
                             labels: seq<Bilou>, ents: seq<nat>, upto: nat)
  {
    && |kinds| == |labels0| == |labels| == |ents0| == |ents|
    && forall i :: 0 <= i < |kinds| ==>
         if i < upto && kinds[i] != NoUrl && labels0[i] == O then labels[i] == U &&
             ents[i] == (if kinds[i] == Email then email else url)
         else labels[i] == labels0[i] && ents[i] == ents0[i]
  }

  /** url_email_detector::process_sentence. */
  method UrlEmailDetector(sentence: NerSentence, kinds: seq<UrlKind>, url: nat, email: nat, ghost labels0: seq<Bilou>,
                          ghost ents0: seq<nat>)
    returns (ghost labels: seq<Bilou>, ghost ents: seq<nat>)
    requires sentence.Valid() && sentence.HardState(labels0, ents0) && |kinds| == sentence.size
    modifies sentence.local, sentence.localFilled
    ensures sentence.Valid() && sentence.HardState(labels, ents)
    ensures UrlWritten(kinds, url, email, labels0, ents0, labels, ents, sentence.size)
  {
    hide HardLabels, HardWord;
    labels, ents := labels0, ents0;
    var i := 0;
    while i < sentence.size
      invariant 0 <= i <= sentence.size && sentence.Valid() && sentence.HardState(labels, ents)
      invariant UrlWritten(kinds, url, email, labels0, ents0, labels, ents, i)
    {
      if kinds[i] != NoUrl && !sentence.localFilled[i] {
        var s := Span(i, 1, if kinds[i] == Email then email else url);
        WriteSpan(sentence, s, labels, ents);
        labels, ents := Painted(labels, s), Typed(ents, s);
      }
      i := i + 1;
    }
  }
}
