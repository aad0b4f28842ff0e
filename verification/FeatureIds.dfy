/** Feature numbers: every key that a processor looks up owns a block of 2 * window + 1 numbers,
    and every number that training puts out is below the total. */
module FeatureIds {

  const UNKNOWN_FEATURE: nat := 0xFFFF_FFFF

  /** A processor: its window and the number in the middle of each key's block. */
  datatype KeyTable = KeyTable(window: nat, numbers: map<string, nat>)

  /** The block of a key lies between 1 and the total. */
  ghost predicate BlockOk(ps: seq<KeyTable>, total: nat, k: nat, key: string)
    requires k < |ps| && key in ps[k].numbers
  {
    ps[k].window + 1 <= ps[k].numbers[key] && ps[k].numbers[key] + ps[k].window < total
  }

  ghost predicate Has(ps: seq<KeyTable>, k: int, key: string) { 0 <= k < |ps| && key in ps[k].numbers }

  ghost predicate Apart(ps: seq<KeyTable>, k: nat, a: string, l: nat, b: string)
    requires Has(ps, k, a) && Has(ps, l, b)
  {
    ps[k].numbers[a] + ps[k].window < ps[l].numbers[b] - ps[l].window ||
        ps[l].numbers[b] + ps[l].window < ps[k].numbers[a] - ps[k].window
  }

  /** The invariant of any run: blocks are in range and pairwise disjoint, and every processor's
      window fits below the total, since each has looked up the empty string. */
  ghost predicate Allocated(ps: seq<KeyTable>, total: nat)
  {
    && total > 0
    && (forall k, a :: Has(ps, k, a) ==> BlockOk(ps, total, k, a))
    && (forall k, a, l, b :: Has(ps, k, a) && Has(ps, l, b) && (k != l || a != b) ==> Apart(ps, k, a, l, b))
    && (forall k :: 0 <= k < |ps| ==> Has(ps, k, ""))
  }

  ghost function Added(ps: seq<KeyTable>, total: nat, k: nat, key: string): seq<KeyTable>
    requires k < |ps|
  {
    ps[k := ps[k].(numbers := ps[k].numbers[key := ps[k].window + total])]
  }

  lemma AddedOk(ps: seq<KeyTable>, total: nat, k: nat, key: string)
    requires Allocated(ps, total) && k < |ps| && key !in ps[k].numbers
    ensures Allocated(Added(ps, total, k, key), total + 2 * ps[k].window + 1)
  {
    var qs, t := Added(ps, total, k, key), total + 2 * ps[k].window + 1;
    forall l, a | Has(qs, l, a) ensures BlockOk(qs, t, l, a) { if l != k || a != key { assert Has(ps, l, a); } }
    forall l, a, m, b | Has(qs, l, a) && Has(qs, m, b) && (l != m || a != b) ensures Apart(qs, l, a, m, b) {
      if l != k || a != key { assert Has(ps, l, a) && BlockOk(ps, total, l, a); }
      if m != k || b != key { assert Has(ps, m, b) && BlockOk(ps, total, m, b); }
    }
    forall l | 0 <= l < |qs| ensures Has(qs, l, "") { assert Has(ps, l, ""); }
  }

  lemma NewProcessorOk(ps: seq<KeyTable>, total: nat, window: nat)
    requires Allocated(ps, total)
    ensures Allocated(ps + [KeyTable(window, map["" := window + total])], total + 2 * window + 1)
  {
    var qs, t := ps + [KeyTable(window, map["" := window + total])], total + 2 * window + 1;
    forall l, a | Has(qs, l, a) ensures BlockOk(qs, t, l, a) { if l < |ps| { assert Has(ps, l, a); } }
    forall l, a, m, b | Has(qs, l, a) && Has(qs, m, b) && (l != m || a != b) ensures Apart(qs, l, a, m, b) {
      if l < |ps| { assert Has(ps, l, a) && BlockOk(ps, total, l, a); }
      if m < |ps| { assert Has(ps, m, b) && BlockOk(ps, total, m, b); }
    }
    forall l | 0 <= l < |qs| ensures Has(qs, l, "") { if l < |ps| { assert Has(ps, l, ""); } }
  }

  /** feature_templates, as the owner of the total and of the processors' key maps. */
  class FeatureTemplates {
    var total: nat
    var processors: seq<KeyTable>

    ghost predicate Valid()
      reads this
    {
      Allocated(processors, total)
    }

    /** Number 0 is the omnipresent feature. */
    constructor ()
      ensures Valid() && processors == [] && total == 1
    {
      total, processors := 1, [];
    }

    /** feature_processor::parse, which looks up the empty string at once. */
    method Parse(window: nat)
      requires Valid()
      modifies this
      ensures Valid() && total == old(total) + 2 * window + 1
      ensures processors == old(processors) + [KeyTable(window, map["" := window + old(total)])]
    {
      NewProcessorOk(processors, total, window);
      processors := processors + [KeyTable(window, map["" := window + total])];
      total := total + 2 * window + 1;
    }

    /** feature_processor::lookup: `adding` tells whether the caller passed the total. */
    method Lookup(k: nat, key: string, adding: bool) returns (feature: nat)
      requires Valid() && k < |processors|
      modifies this
      ensures Valid() && |processors| == old(|processors|) && forall l :: 0 <= l < |processors| ==>
              processors[l].window == old(processors)[l].window
      ensures forall l, a :: Has(old(processors), l, a) ==>
              Has(processors, l, a) && processors[l].numbers[a] == old(processors)[l].numbers[a]
      ensures old(Has(processors, k, key)) ==>
              processors == old(processors) && total == old(total) && feature == processors[k].numbers[key]
      ensures !old(Has(processors, k, key)) && adding ==>
              && Has(processors, k, key) && feature == processors[k].numbers[key] == old(total) + processors[k].window
              && total == old(total) + 2 * processors[k].window + 1
              && processors == Added(old(processors), old(total), k, key)
      ensures !old(Has(processors, k, key)) && !adding ==>
              processors == old(processors) && total == old(total) && feature == UNKNOWN_FEATURE
    {
      var p := processors[k];
      if key !in p.numbers && adding {
        AddedOk(processors, total, k, key);
        p := p.(numbers := p.numbers[key := p.window + total]);
        processors := processors[k := p];
        total := total + 2 * p.window + 1;
      }
      feature := if key in p.numbers then p.numbers[key] else UNKNOWN_FEATURE;
    }
  }

  // ------------------------------------------------------------ putting features out

  /** apply_in_range around word i of a sentence, which may lie outside it: one number for each
      word of the range inside the sentence, shifted by its offset. */
  method ApplyInRange(features: array<seq<nat>>, size: nat, i: int, feature: nat, left: int, right: int,
                      ghost total: nat)
    requires features.Length >= size && -left <= feature
    requires feature != UNKNOWN_FEATURE ==> feature + right < total
    modifies features
    ensures forall w :: 0 <= w < size ==>
              features[w] == if feature != UNKNOWN_FEATURE && i + left <= w <= i + right
                  then old(features[w]) + [feature + w - i] else old(features[w])
    ensures forall w :: size <= w < features.Length ==> features[w] == old(features[w])
  {
    if feature != UNKNOWN_FEATURE {
      var w := if i + left < 0 then 0 else i + left;
      var end := if i + right + 1 < size then i + right + 1 else size;
      ghost var start := w;
      while w < end
        invariant start <= w && (w <= end || w == start)
        invariant forall v :: 0 <= v < features.Length ==>
                  features[v] == if start <= v < w && v < end then old(features[v]) + [feature + v - i]
                      else old(features[v])
      {
        features[w] := features[w] + [feature + w - i];
        w := w + 1;
      }
    }
  }

  /** All numbers put out are below the total: for a key, over its processor's window. */
  lemma InWindowBelow(ps: seq<KeyTable>, total: nat, k: nat, key: string, d: int)
    requires Allocated(ps, total) && Has(ps, k, key) && 0 <= ps[k].window + d <= 2 * ps[k].window
    ensures 0 < ps[k].numbers[key] + d < total
  {
    assert BlockOk(ps, total, k, key);
  }

  /** And for words outside the sentence, whose numbers are based at the window itself. They are not
      the numbers of the empty string, which only ever has a greater one. */
  lemma OuterBelow(ps: seq<KeyTable>, total: nat, k: nat, d: int)
    requires Allocated(ps, total) && k < |ps| && 0 <= ps[k].window + d <= 2 * ps[k].window
    ensures 0 <= ps[k].window + d < total && Has(ps, k, "") && ps[k].window < ps[k].numbers[""]
  {
    assert Has(ps, k, "");
    assert BlockOk(ps, total, k, "");
  }

  ghost predicate AllBelow(features: seq<seq<nat>>, size: nat, total: nat)
  {
    size <= |features| && forall w :: 0 <= w < size ==> forall f :: f in features[w] ==> f < total
  }

  /** The number of a key, if it has one. */
  ghost function Number(ps: seq<KeyTable>, k: nat, key: string): nat
  {
    if Has(ps, k, key) then ps[k].numbers[key] else UNKNOWN_FEATURE
  }

  /** A number shifted by the offset of word w from word i, if it is in the window. */
  ghost function Shifted(feature: nat, window: nat, i: int, w: int): seq<int>
  {
    if feature != UNKNOWN_FEATURE && i - window <= w <= i + window then [feature + w - i] else []
  }

  /** What word w gets from the first n words. */
  ghost function FromWords(ps: seq<KeyTable>, k: nat, keys: seq<string>, w: int, n: nat): seq<int>
    requires k < |ps| && n <= |keys|
  {
    if n == 0 then [] else
      FromWords(ps, k, keys, w, n - 1) + Shifted(Number(ps, k, keys[n - 1]), ps[k].window, n - 1, w)
  }

  /** What word w gets from the n words next to the sentence on each side, all with the window itself for a number. */
  ghost function FromOutside(window: nat, size: nat, w: int, n: nat): seq<int>
  {
    if n == 0 then [] else
      FromOutside(window, size, w, n - 1) + Shifted(window, window, -(n as int), w)
      + Shifted(window, window, size - 1 + n, w)
  }

  /** A word gets exactly the shifted numbers of the known keys in its window. */
  lemma {:induction false} FromWordsExact(ps: seq<KeyTable>, k: nat, keys: seq<string>, w: int, n: nat, f: int)
    requires k < |ps| && n <= |keys|
    ensures f in FromWords(ps, k, keys, w, n) <==> exists i :: 0 <= i < n && FromWord(ps, k, keys, w, i, f)
  {
    if n > 0 {
      FromWordsExact(ps, k, keys, w, n - 1, f);
      if FromWord(ps, k, keys, w, n - 1, f) { assert f in Shifted(Number(ps, k, keys[n - 1]), ps[k].window, n - 1, w); }
    }
  }

  ghost predicate FromWord(ps: seq<KeyTable>, k: nat, keys: seq<string>, w: int, i: int, f: int)
    requires k < |ps|
  {
    && 0 <= i < |keys| && i - ps[k].window <= w <= i + ps[k].window
    && Number(ps, k, keys[i]) != UNKNOWN_FEATURE && f == Number(ps, k, keys[i]) + w - i
  }

  /** process_sentence of a processor that looks up one key per word and stands for outer words too
      (forms, lemmas, tags): each word gets the numbers of the keys in its window, shifted, and for the words
      outside the sentence those based at the window itself; every feature stays below the total. */
  method ProcessWords(templates: FeatureTemplates, k: nat, keys: seq<string>, adding: bool, features: array<seq<nat>>)
    requires templates.Valid() && k < |templates.processors| && features.Length >= |keys| &&
             AllBelow(features[..], |keys|, templates.total)
    modifies templates, features
    ensures templates.Valid() && |templates.processors| == old(|templates.processors|) &&
            templates.total >= old(templates.total)
    ensures AllBelow(features[..], |keys|, templates.total)
    ensures adding ==> forall i :: 0 <= i < |keys| ==> Has(templates.processors, k, keys[i])
    ensures forall w :: 0 <= w < |keys| ==>
              features[w] == old(features[w]) + FromWords(templates.processors, k, keys, w, |keys|)
                             + FromOutside(templates.processors[k].window, |keys|, w, templates.processors[k].window)
    ensures forall w :: |keys| <= w < features.Length ==> features[w] == old(features[w])
  {
    hide Allocated, FromWords, FromOutside, Shifted, Number;
    var size, window := |keys|, templates.processors[k].window;
    ghost var before := features[..];
    FromNothing(templates.processors, k, keys);
    var i := 0;
    while i < size
      invariant 0 <= i <= size && templates.Valid() && |templates.processors| == old(|templates.processors|) &&
                templates.processors[k].window == window
      invariant templates.total >= old(templates.total) && AllBelow(features[..], size, templates.total)
      invariant adding ==> forall j :: 0 <= j < i ==> Has(templates.processors, k, keys[j])
      invariant forall w :: 0 <= w < size ==>
                  features[w] == before[w] + FromWords(templates.processors, k, keys, w, i)
      invariant forall w :: size <= w < features.Length ==> features[w] == before[w]
      invariant !adding ==> templates.processors == old(templates.processors)
    {
      ghost var ps := templates.processors;
      var feature := templates.Lookup(k, keys[i], adding);
      NumberFound(templates.processors, k, keys[i], feature);
      forall w: int ensures FromWords(templates.processors, k, keys, w, i) == FromWords(ps, k, keys, w, i) {
        NumbersKept(ps, templates.processors, k, keys, w, i, adding);
      }
      ghost var now := features[..];
      Emit(templates, k, features, size, i, feature);
      forall w | 0 <= w < size
        ensures features[w] == before[w] + FromWords(templates.processors, k, keys, w, i + 1)
      {
        WordsNext(templates.processors, k, keys, w, i);
        Regroup(before[w], FromWords(ps, k, keys, w, i), Shifted(feature, window, i, w));
      }
      i := i + 1;
    }
    OuterWords(templates, k, features, size);
  }

  lemma Regroup(a: seq<int>, b: seq<int>, c: seq<int>)
    ensures a + b + c == a + (b + c)
  {
  }

  lemma FromNothing(ps: seq<KeyTable>, k: nat, keys: seq<string>)
    requires k < |ps|
    ensures forall w :: FromWords(ps, k, keys, w, 0) == []
    ensures forall window, size, w :: FromOutside(window, size, w, 0) == []
  {
  }

  lemma WordsNext(ps: seq<KeyTable>, k: nat, keys: seq<string>, w: int, n: nat)
    requires k < |ps| && n < |keys|
    ensures FromWords(ps, k, keys, w, n + 1)
         == FromWords(ps, k, keys, w, n) + Shifted(Number(ps, k, keys[n]), ps[k].window, n, w)
  {
  }

  lemma NumberFound(ps: seq<KeyTable>, k: nat, key: string, feature: nat)
    requires if Has(ps, k, key) then feature == ps[k].numbers[key] else feature == UNKNOWN_FEATURE
    ensures feature == Number(ps, k, key)
  {
  }

  /** Numbers found before stay what they were, and words without one stay without while none are added. */
  lemma {:induction false} NumbersKept(ps: seq<KeyTable>, qs: seq<KeyTable>, k: nat, keys: seq<string>, w: int, n: nat,
                                       adding: bool)
    requires k < |ps| == |qs| && n <= |keys| && ps[k].window == qs[k].window
    requires forall l, a :: Has(ps, l, a) ==> Has(qs, l, a) && qs[l].numbers[a] == ps[l].numbers[a]
    requires if adding then forall j :: 0 <= j < n ==> Has(ps, k, keys[j]) else ps == qs
    ensures FromWords(qs, k, keys, w, n) == FromWords(ps, k, keys, w, n)
  {
    if n > 0 { NumbersKept(ps, qs, k, keys, w, n - 1, adding); }
  }

  /** apply_outer_words_in_window: the words before and after the sentence. */
  method OuterWords(templates: FeatureTemplates, k: nat, features: array<seq<nat>>, size: nat)
    requires templates.Valid() && k < |templates.processors| && AllBelow(features[..], size, templates.total)
    modifies features
    ensures AllBelow(features[..], size, templates.total)
    ensures forall w :: 0 <= w < size ==>
              features[w] == old(features[w])
                             + FromOutside(templates.processors[k].window, size, w, templates.processors[k].window)
    ensures forall w :: size <= w < features.Length ==> features[w] == old(features[w])
  {
    hide Allocated, FromOutside, Shifted;
    var window := templates.processors[k].window;
    ghost var before := features[..];
    OutsideNothing();
    var i: nat := 1;
    while i <= window
      invariant 1 <= i <= window + 1 && AllBelow(features[..], size, templates.total)
      invariant forall w :: 0 <= w < size ==> features[w] == before[w] + FromOutside(window, size, w, i - 1)
      invariant forall w :: size <= w < features.Length ==> features[w] == before[w]
    {
      EmitOuter(templates, k, features, size, -(i as int));
      EmitOuter(templates, k, features, size, size - 1 + i);
      forall w | 0 <= w < size ensures features[w] == before[w] + FromOutside(window, size, w, i) {
        OutsideNext(window, size, w, i);
        Regroup(before[w], FromOutside(window, size, w, i - 1), Shifted(window, window, -(i as int), w));
        Regroup(before[w], FromOutside(window, size, w, i - 1) + Shifted(window, window, -(i as int), w),
                Shifted(window, window, size - 1 + i, w));
      }
      i := i + 1;
    }
  }

  lemma OutsideNothing()
    ensures forall window, size, w :: FromOutside(window, size, w, 0) == []
  {
  }

  lemma OutsideNext(window: nat, size: nat, w: int, n: nat)
    requires n > 0
    ensures FromOutside(window, size, w, n)
         == FromOutside(window, size, w, n - 1) + Shifted(window, window, -(n as int), w)
            + Shifted(window, window, size - 1 + n, w)
  {
  }

  method Emit(templates: FeatureTemplates, k: nat, features: array<seq<nat>>, size: nat, i: int, feature: nat)
    requires templates.Valid() && k < |templates.processors| && AllBelow(features[..], size, templates.total)
    requires feature == UNKNOWN_FEATURE
             || exists key :: Has(templates.processors, k, key) && templates.processors[k].numbers[key] == feature
    modifies features
    ensures AllBelow(features[..], size, templates.total)
    ensures forall w :: 0 <= w < size ==>
              features[w] == old(features[w]) + Shifted(feature, templates.processors[k].window, i, w)
    ensures forall w :: size <= w < features.Length ==> features[w] == old(features[w])
  {
    hide Allocated;
    var window: int := templates.processors[k].window;
    if feature != UNKNOWN_FEATURE {
      ghost var key :| Has(templates.processors, k, key) && templates.processors[k].numbers[key] == feature;
      InWindowBelow(templates.processors, templates.total, k, key, -window);
      InWindowBelow(templates.processors, templates.total, k, key, window);
      ApplyInRange(features, size, i, feature, -window, window, templates.total);
    }
  }

  method EmitOuter(templates: FeatureTemplates, k: nat, features: array<seq<nat>>, size: nat, i: int)
    requires templates.Valid() && k < |templates.processors| && AllBelow(features[..], size, templates.total)
    modifies features
    ensures AllBelow(features[..], size, templates.total)
    ensures forall w :: 0 <= w < size ==>
              features[w] == old(features[w])
                             + Shifted(templates.processors[k].window, templates.processors[k].window, i, w)
    ensures forall w :: size <= w < features.Length ==> features[w] == old(features[w])
  {
    hide Allocated;
    var window: int := templates.processors[k].window;
    OuterBelow(templates.processors, templates.total, k, window);
    ApplyInRange(features, size, i, window, -window, window, templates.total);
  }
}
