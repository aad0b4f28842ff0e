/** Building the gazetteer trie, and the recased forms by which its edges are labelled. */
module TrieBuilding {
  import opened Gazetteers
  import Bilou

  // ------------------------------------------------------------ recasing

  /** A tagged word. */
  datatype Word = Word(form: string, rawLemma: string, rawLemmasAll: seq<string>)

  /** The Unicode tables that recasing consults. */
  datatype Cases = Cases(lower: char -> char, upper: char -> char, isLower: char -> bool, isUpperOrTitle: char -> bool)

  datatype MatchBy = Form | RawLemma | RawLemmas
  datatype Recasing = ToLower | ToTitle | ToUpper

  function Map(f: char -> char, s: string): (r: string) { if s == "" then "" else [f(s[0])] + Map(f, s[1..]) }

  /** recase_text. */
  function RecaseText(c: Cases, text: string, how: Recasing): string
  {
    match how
    case ToUpper => Map(c.upper, text)
    case ToLower => Map(c.lower, text)
    case ToTitle => if text == "" then "" else [c.upper(text[0])] + Map(c.lower, text[1..])
  }

  lemma {:induction false} MapAt(f: char -> char, s: string, k: nat)
    requires k < |s|
    ensures |Map(f, s)| == |s| && Map(f, s)[k] == f(s[k])
    decreases |s|
  {
    if |s| > 1 { MapAt(f, s[1..], if k > 0 then k - 1 else 0); }
  }

  /** Recasing works letter by letter: all to one case, or the first letter to upper and the others to lower. */
  lemma RecasedAt(c: Cases, text: string, how: Recasing, k: nat)
    requires k < |text|
    ensures var r := RecaseText(c, text, how);
            && |r| == |text|
            && r[k] == if how == ToUpper || (how == ToTitle && k == 0) then c.upper(text[k]) else c.lower(text[k])
  {
    MapAt(c.upper, text, k);
    MapAt(c.lower, text, k);
    if |text| > 1 { MapAt(c.lower, text[1..], if k > 0 then k - 1 else 0); }
  }

  predicate AnyLower(c: Cases, form: string) { exists i :: 0 <= i < |form| && c.isLower(form[i]) }
  predicate FirstUpper(c: Cases, form: string) { form != "" && c.isUpperOrTitle(form[0]) }

  /** Which recasings are made: natively exactly one, otherwise all that the word's own shape allows. */
  predicate Performs(c: Cases, form: string, native: bool, how: Recasing)
  {
    match how
    case ToUpper => FirstUpper(c, form) && !AnyLower(c, form)
    case ToTitle => FirstUpper(c, form) && (native ==> AnyLower(c, form))
    case ToLower => native ==> !FirstUpper(c, form)
  }

  function Texts(mb: MatchBy, w: Word): seq<string>
  {
    match mb
    case Form => [w.form]
    case RawLemma => [w.rawLemma]
    case RawLemmas => w.rawLemmasAll
  }

  /** The match sources of a word. */
  ghost predicate IsSource(c: Cases, mb: MatchBy, w: Word, native: bool, f: string)
  {
    exists how, text :: Performs(c, w.form, native, how) && text in Texts(mb, w) && f == RecaseText(c, text, how)
  }

  /** Every native form of a word is among its forms in any case. */
  lemma NativeIsAny(c: Cases, mb: MatchBy, w: Word, f: string)
    requires IsSource(c, mb, w, true, f)
    ensures IsSource(c, mb, w, false, f)
  {
    var how, text :| Performs(c, w.form, true, how) && text in Texts(mb, w) && f == RecaseText(c, text, how);
    assert Performs(c, w.form, false, how);
  }

  /** A word has a native form as soon as it has a text to match by. */
  lemma NativeExists(c: Cases, mb: MatchBy, w: Word) returns (f: string)
    requires Texts(mb, w) != []
    ensures IsSource(c, mb, w, true, f)
  {
    var how := if !FirstUpper(c, w.form) then ToLower else if AnyLower(c, w.form) then ToTitle else ToUpper;
    var text := Texts(mb, w)[0];
    f := RecaseText(c, text, how);
    assert Performs(c, w.form, true, how) && text in Texts(mb, w);
  }

  /** The source is a recasing of a text that is matched by. */
  ghost predicate RecasedFrom(c: Cases, mb: MatchBy, w: Word, how: Recasing, f: string)
  {
    match mb
    case Form => f == RecaseText(c, w.form, how)
    case RawLemma => f == RecaseText(c, w.rawLemma, how)
    case RawLemmas => exists i :: 0 <= i < |w.rawLemmasAll| && f == RecaseText(c, w.rawLemmasAll[i], how)
  }

  /** Natively a word has one shape: upper case if it begins so and has no lowercase letter, title case if it
      begins so and has one, and lower case otherwise. In any case a word also matches in lower case, and in title
      case whenever it begins in upper case. */
  lemma SourcesByShape(c: Cases, mb: MatchBy, w: Word, f: string)
    ensures var upper := |w.form| > 0 && c.isUpperOrTitle(w.form[0]);
            var small := exists i :: 0 <= i < |w.form| && c.isLower(w.form[i]);
            && (IsSource(c, mb, w, true, f) <==>
                RecasedFrom(c, mb, w, if !upper then ToLower else if small then ToTitle else ToUpper, f))
            && (IsSource(c, mb, w, false, f) <==>
                RecasedFrom(c, mb, w, ToLower, f) || (upper && RecasedFrom(c, mb, w, ToTitle, f))
                || (upper && !small && RecasedFrom(c, mb, w, ToUpper, f)))
  {
    hide RecaseText, RecasedFrom;
    forall native: bool, how: Recasing
      ensures Performs(c, w.form, native, how) && RecasedFrom(c, mb, w, how, f) ==> IsSource(c, mb, w, native, f)
    {
      TextRecased(c, mb, w, how, f);
    }
    forall native: bool | IsSource(c, mb, w, native, f)
      ensures exists how :: Performs(c, w.form, native, how) && RecasedFrom(c, mb, w, how, f)
    {
      var how, text :| Performs(c, w.form, native, how) && text in Texts(mb, w) && f == RecaseText(c, text, how);
      TextRecased(c, mb, w, how, f);
    }
  }

  lemma TextRecased(c: Cases, mb: MatchBy, w: Word, how: Recasing, f: string)
    ensures RecasedFrom(c, mb, w, how, f) <==> exists text :: text in Texts(mb, w) && f == RecaseText(c, text, how)
  {
    hide RecaseText;
    match mb {
      case Form => assert w.form in Texts(mb, w);
      case RawLemma => assert w.rawLemma in Texts(mb, w);
      case RawLemmas =>
    }
  }

  lemma SourceText(c: Cases, mb: MatchBy, w: Word, f: string)
    requires IsSource(c, mb, w, true, f)
    ensures Texts(mb, w) != []
  {
  }

  /** The shape of a form: any lowercase letter, and an uppercase or titlecase first letter. */
  method Shape(c: Cases, form: string) returns (anyLower: bool, firstUc: bool)
    ensures anyLower == AnyLower(c, form) && firstUc == FirstUpper(c, form)
  {
    anyLower, firstUc := false, false;
    var i := 0;
    while i < |form|
      invariant i <= |form| && (anyLower <==> exists k :: 0 <= k < i && c.isLower(form[k]))
      invariant firstUc <==> i > 0 && c.isUpperOrTitle(form[0])
    {
      anyLower := anyLower || c.isLower(form[i]);
      if i == 0 { firstUc := c.isUpperOrTitle(form[i]); }
      i := i + 1;
    }
  }

  /** recase_match_source. */
  method RecaseMatchSource(c: Cases, mb: MatchBy, w: Word, native: bool) returns (recased: seq<string>)
    ensures forall f :: f in recased <==> IsSource(c, mb, w, native, f)
  {
    var anyLower, firstUc := Shape(c, w.form);
    var lower, title, upper := [], [], [];
    if native ==> !firstUc { lower := RecaseAll(c, Texts(mb, w), ToLower); }
    if firstUc && (native ==> anyLower) { title := RecaseAll(c, Texts(mb, w), ToTitle); }
    if firstUc && !anyLower { upper := RecaseAll(c, Texts(mb, w), ToUpper); }
    recased := lower + title + upper;
    forall f ensures f in recased <==> IsSource(c, mb, w, native, f) {
      if IsSource(c, mb, w, native, f) {
        var how, text :| Performs(c, w.form, native, how) && text in Texts(mb, w) && f == RecaseText(c, text, how);
      }
      if f in lower {
        var t :| t in Texts(mb, w) && f == RecaseText(c, t, ToLower);
        assert Performs(c, w.form, native, ToLower);
      }
      if f in title {
        var t :| t in Texts(mb, w) && f == RecaseText(c, t, ToTitle);
        assert Performs(c, w.form, native, ToTitle);
      }
      if f in upper {
        var t :| t in Texts(mb, w) && f == RecaseText(c, t, ToUpper);
        assert Performs(c, w.form, native, ToUpper);
      }
    }
  }

  method RecaseAll(c: Cases, texts: seq<string>, how: Recasing) returns (r: seq<string>)
    ensures forall f :: f in r <==> exists t :: t in texts && f == RecaseText(c, t, how)
  {
    r := [];
    var i := 0;
    while i < |texts|
      invariant i <= |texts| && forall f :: f in r <==> exists t :: t in texts[..i] && f == RecaseText(c, t, how)
    {
      assert texts[..i + 1] == texts[..i] + [texts[i]];
      r := r + [RecaseText(c, texts[i], how)];
      i := i + 1;
    }
    assert texts[..i] == texts;
  }

  // ------------------------------------------------------------ the trie of a gazetteer

  /** Node of a token prefix; the empty prefix is the root. */
  function NodeOf(prefixes: map<seq<string>, nat>, p: seq<string>): nat
  {
    if p in prefixes then prefixes[p] else 0
  }

  ghost predicate Known(prefixes: map<seq<string>, nat>, p: seq<string>) { p == [] || p in prefixes }

  /** How words are tagged and matched: the tables, the text to match by, and the tagger for a token on its own. */
  datatype Tagging = Tagging(c: Cases, mb: MatchBy, tag: string -> Word)

  /** The label of an edge: a native form of the last token of a prefix, tagged on its own. */
  ghost predicate EdgeOf(z: Tagging, prefixes: map<seq<string>, nat>, u: nat, f: string, v: nat)
  {
    exists p :: EdgeBy(z, prefixes, p, u, f, v)
  }

  ghost predicate EdgeBy(z: Tagging, prefixes: map<seq<string>, nat>, p: seq<string>, u: nat, f: string, v: nat)
  {
    p in prefixes && p != [] && prefixes[p] == v && NodeOf(prefixes, p[..|p| - 1]) == u &&
        IsSource(z.c, z.mb, z.tag(p[|p| - 1]), true, f)
  }

  /** Each known prefix has a node of its own below `size`, and its own prefixes are known. */
  ghost predicate Numbered(prefixes: map<seq<string>, nat>, size: nat)
  {
    && (forall p :: p in prefixes ==> p != [] && 0 < prefixes[p] < size && Known(prefixes, p[..|p| - 1]))
    && (forall p, q :: p in prefixes && q in prefixes && prefixes[p] == prefixes[q] ==> p == q)
  }

  lemma NumberedMore(prefixes: map<seq<string>, nat>, size: nat, p: seq<string>, token: string)
    requires Numbered(prefixes, size) && Known(prefixes, p) && p + [token] !in prefixes && size > 0
    ensures Numbered(prefixes[p + [token] := size], size + 1)
  {
    var q := p + [token];
    assert q[..|q| - 1] == p;
  }

  /** Nodes are prefixes, one each, and edges are exactly the native forms of their last tokens. */
  ghost predicate Built(z: Tagging, trie: Trie, prefixes: map<seq<string>, nat>)
  {
    && TrieOk(trie) && Numbered(prefixes, |trie|)
    && (forall u: nat, f, v: nat :: u < |trie| ==> ((f, v) in trie[u].children <==> EdgeOf(z, prefixes, u, f, v)))
  }

  /** A word of the text shares a form with a token of an entry. */
  ghost predicate Agrees(z: Tagging, forms: seq<string>, token: string)
  {
    exists f :: f in forms && IsSource(z.c, z.mb, z.tag(token), true, f)
  }

  ghost predicate AllAgree(z: Tagging, forms: seq<seq<string>>, i: nat, p: seq<string>)
  {
    i + |p| <= |forms| && forall k :: 0 <= k < |p| ==> Agrees(z, forms[i + k], p[k])
  }

  lemma EdgeIs(z: Tagging, trie: Trie, prefixes: map<seq<string>, nat>, forms: seq<string>, u: nat, p: seq<string>)
    requires Built(z, trie, prefixes) && p in prefixes && u < |trie|
    ensures p != [] &&
            (Edge(trie, forms, u, prefixes[p]) <==> u == NodeOf(prefixes, p[..|p| - 1]) && Agrees(z, forms, p[|p| - 1]))
  {
    hide IsSource, TrieOk;
    var v := prefixes[p];
    if Edge(trie, forms, u, v) {
      var f :| f in forms && (f, v) in trie[u].children;
      assert EdgeOf(z, prefixes, u, f, v);
      var q :| EdgeBy(z, prefixes, q, u, f, v);
    }
    if u == NodeOf(prefixes, p[..|p| - 1]) && Agrees(z, forms, p[|p| - 1]) {
      var f :| f in forms && IsSource(z.c, z.mb, z.tag(p[|p| - 1]), true, f);
      assert EdgeBy(z, prefixes, p, u, f, v);
      assert EdgeOf(z, prefixes, u, f, v);
    }
  }

  /** The walk reaches the node of a prefix exactly over words that agree with its tokens. */
  lemma {:induction false} ReachesPrefix(z: Tagging, trie: Trie, prefixes: map<seq<string>, nat>,
                                         forms: seq<seq<string>>, i: nat, j: nat, p: seq<string>)
    requires Built(z, trie, prefixes) && Known(prefixes, p) && i <= j <= |forms|
    ensures p !in prefixes || 0 < prefixes[p] < |trie|
    ensures Reaches(trie, forms, i, j, NodeOf(prefixes, p)) <==> (j - i == |p| && AllAgree(z, forms, i, p))
    decreases |p|, j
  {
    hide Reaches, EdgeOf, Agrees, TrieOk;
    if i == j {
      ReachesStart(trie, forms, i, NodeOf(prefixes, p));
    } else if p == [] {
      RootUnreached(z, trie, prefixes, forms, i, j);
    } else {
      PrefixFacts(z, trie, prefixes, p);
      ReachesPrefix(z, trie, prefixes, forms, i, j - 1, p[..|p| - 1]);
      hide Built, AllAgree;
      ReachesLast(z, trie, prefixes, forms, i, j, p);
      AgreeSnoc(z, forms, i, j, p);
    }
  }

  /** The node of a prefix is reached from the node of the prefix one token shorter, and only from there. */
  lemma ReachesLast(z: Tagging, trie: Trie, prefixes: map<seq<string>, nat>, forms: seq<seq<string>>, i: nat, j: nat,
                    p: seq<string>)
    requires Built(z, trie, prefixes) && p in prefixes && p != [] && i < j <= |forms|
    ensures Reaches(trie, forms, i, j, prefixes[p]) <==>
            Reaches(trie, forms, i, j - 1, NodeOf(prefixes, p[..|p| - 1])) && Agrees(z, forms[j - 1], p[|p| - 1])
  {
    hide Reaches, Agrees, Built, Edge, NodeOf;
    var v, u0, before, sources := prefixes[p], NodeOf(prefixes, p[..|p| - 1]), j - 1, forms[j - 1];
    PrefixFacts(z, trie, prefixes, p);
    ReachesStep(trie, forms, i, before, v);
    EdgeIs(z, trie, prefixes, sources, u0, p);
    forall u: nat | Reaches(trie, forms, i, before, u) && Edge(trie, sources, u, v)
        ensures u == u0 && Agrees(z, sources, p[|p| - 1]) {
      EdgeFrom(trie, sources, u, v);
      EdgeIs(z, trie, prefixes, sources, u, p);
    }
  }

  lemma EdgeFrom(trie: Trie, sources: seq<string>, u: nat, v: nat)
    requires Edge(trie, sources, u, v)
    ensures u < |trie|
  {
  }

  lemma PrefixFacts(z: Tagging, trie: Trie, prefixes: map<seq<string>, nat>, p: seq<string>)
    requires Built(z, trie, prefixes) && p in prefixes
    ensures p != [] && 0 < prefixes[p] < |trie| && Known(prefixes, p[..|p| - 1]) &&
            NodeOf(prefixes, p[..|p| - 1]) < |trie|
  {
  }

  lemma AgreeSnoc(z: Tagging, forms: seq<seq<string>>, i: nat, j: nat, p: seq<string>)
    requires p != [] && i < j <= |forms|
    ensures j - i == |p| ==>
            (AllAgree(z, forms, i, p) <==> AllAgree(z, forms, i, p[..|p| - 1]) && Agrees(z, forms[j - 1], p[|p| - 1]))
  {
    hide Agrees;
  }

  lemma RootUnreached(z: Tagging, trie: Trie, prefixes: map<seq<string>, nat>, forms: seq<seq<string>>, i: nat, j: nat)
    requires Built(z, trie, prefixes) && i < j <= |forms|
    ensures !Reaches(trie, forms, i, j, 0)
  {
    hide Reaches, Built;
    ReachesStep(trie, forms, i, j - 1, 0);
    var sources := forms[j - 1];
    forall u: nat ensures !Edge(trie, sources, u, 0) {
      if Edge(trie, sources, u, 0) {
        var f :| f in sources && (f, 0) in trie[u].children;
        RootChild(z, trie, prefixes, u, f);
      }
    }
  }

  lemma RootChild(z: Tagging, trie: Trie, prefixes: map<seq<string>, nat>, u: nat, f: string)
    requires Built(z, trie, prefixes) && u < |trie|
    ensures (f, 0) !in trie[u].children
  {
    hide EdgeOf;
    RootEdge(z, trie, prefixes, u, f);
  }

  lemma RootEdge(z: Tagging, trie: Trie, prefixes: map<seq<string>, nat>, u: nat, f: string)
    requires Built(z, trie, prefixes)
    ensures !EdgeOf(z, prefixes, u, f, 0)
  {
    hide Built, IsSource;
    if EdgeOf(z, prefixes, u, f, 0) {
      var p :| EdgeBy(z, prefixes, p, u, f, 0);
      PrefixFacts(z, trie, prefixes, p);
    }
  }

  /** An entry whose tokens stand in the text, tagged as they are on their own, reaches its node exactly
      if every token has a text to match by. */
  lemma EntryReached(z: Tagging, trie: Trie, prefixes: map<seq<string>, nat>,
                     words: seq<Word>, forms: seq<seq<string>>, i: nat, p: seq<string>)
    requires Built(z, trie, prefixes) && p in prefixes && i + |p| <= |words| == |forms|
    requires forall k :: 0 <= k < |words| ==> forall f :: f in forms[k] <==> IsSource(z.c, z.mb, words[k], false, f)
    requires forall k :: 0 <= k < |p| ==> words[i + k] == z.tag(p[k])
    ensures Reaches(trie, forms, i, i + |p|, prefixes[p]) <==>
            forall k :: 0 <= k < |p| ==> Texts(z.mb, z.tag(p[k])) != []
  {
    hide Reaches, IsSource, Built, Texts;
    forall k | 0 <= k < |p| ensures Agrees(z, forms[i + k], p[k]) <==> Texts(z.mb, z.tag(p[k])) != [] {
      var w := words[i + k];
      assert w == z.tag(p[k]);
      if Texts(z.mb, w) != [] {
        var f := NativeExists(z.c, z.mb, w);
        NativeIsAny(z.c, z.mb, w, f);
        assert f in forms[i + k];
      } else if Agrees(z, forms[i + k], p[k]) {
        var f :| f in forms[i + k] && IsSource(z.c, z.mb, w, true, f);
        SourceText(z.c, z.mb, w, f);
      }
    }
    ReachesPrefix(z, trie, prefixes, forms, i, i + |p|, p);
  }

  lemma RootBuilt(z: Tagging, trie: Trie, prefixes: map<seq<string>, nat>)
    requires Built(z, trie, prefixes)
    ensures [] !in prefixes
  {
  }

  lemma NodeBound(z: Tagging, trie: Trie, prefixes: map<seq<string>, nat>, p: seq<string>)
    requires Built(z, trie, prefixes) && Known(prefixes, p)
    ensures NodeOf(prefixes, p) < |trie|
  {
  }

  method Labelled(sources: seq<string>, v: nat) returns (r: seq<(string, nat)>)
    ensures forall f, w: nat :: (f, w) in r <==> w == v && f in sources
  {
    r := [];
    var i := 0;
    while i < |sources|
      invariant i <= |sources| && forall f, w: nat :: (f, w) in r <==> w == v && f in sources[..i]
    {
      assert sources[..i + 1] == sources[..i] + [sources[i]];
      r := r + [(sources[i], v)];
      i := i + 1;
    }
    assert sources[..i] == sources;
  }

  ghost function Grown(trie: Trie, node: nat, children: seq<(string, nat)>): Trie
    requires node < |trie|
  {
    trie[node := trie[node].(children := trie[node].children + children)] + [NEW_NODE]
  }

  /** The edges of the grown trie: the old ones and the native forms of the new token. */
  lemma GrownEdges(z: Tagging, trie: Trie, prefixes: map<seq<string>, nat>, p: seq<string>, token: string,
                   u: nat, f: string, v: nat)
    requires Built(z, trie, prefixes) && Known(prefixes, p) && p + [token] !in prefixes
    ensures EdgeOf(z, prefixes[p + [token] := |trie|], u, f, v) <==>
            EdgeOf(z, prefixes, u, f, v) ||
                (v == |trie| && u == NodeOf(prefixes, p) && IsSource(z.c, z.mb, z.tag(token), true, f))
  {
    hide Built, EdgeBy;
    var q := p + [token];
    var prefixes' := prefixes[q := |trie|];
    if EdgeOf(z, prefixes, u, f, v) {
      var r :| EdgeBy(z, prefixes, r, u, f, v);
      GrownEdge(z, trie, prefixes, p, token, r, u, f, v);
      EdgeIn(z, prefixes, r, u, f, v);
      assert EdgeBy(z, prefixes', r, u, f, v);
    }
    GrownEdge(z, trie, prefixes, p, token, q, u, f, v);
    if EdgeOf(z, prefixes', u, f, v) {
      var r :| EdgeBy(z, prefixes', r, u, f, v);
      GrownEdge(z, trie, prefixes, p, token, r, u, f, v);
    }
  }

  lemma EdgeIn(z: Tagging, prefixes: map<seq<string>, nat>, p: seq<string>, u: nat, f: string, v: nat)
    requires EdgeBy(z, prefixes, p, u, f, v)
    ensures p in prefixes
  {
  }

  lemma GrownEdge(z: Tagging, trie: Trie, prefixes: map<seq<string>, nat>, p: seq<string>, token: string,
                  r: seq<string>, u: nat, f: string, v: nat)
    requires Built(z, trie, prefixes) && Known(prefixes, p) && p + [token] !in prefixes
    ensures EdgeBy(z, prefixes[p + [token] := |trie|], r, u, f, v) <==>
            if r == p + [token] then v == |trie| && u == NodeOf(prefixes, p) &&
                IsSource(z.c, z.mb, z.tag(token), true, f) else EdgeBy(z, prefixes, r, u, f, v)
  {
    hide IsSource, EdgeOf, TrieOk;
    var q := p + [token];
    assert q[..|q| - 1] == p && q[|q| - 1] == token;
    if r in prefixes { PrefixFacts(z, trie, prefixes, r); }
  }

  lemma EdgeOld(z: Tagging, trie: Trie, prefixes: map<seq<string>, nat>, u: nat, f: string, v: nat)
    requires Built(z, trie, prefixes)
    ensures EdgeOf(z, prefixes, u, f, v) ==> u < |trie| && v < |trie|
  {
    hide IsSource, TrieOk;
    if EdgeOf(z, prefixes, u, f, v) {
      var r :| EdgeBy(z, prefixes, r, u, f, v);
      PrefixFacts(z, trie, prefixes, r);
    }
  }

  lemma GrownChildren(z: Tagging, trie: Trie, prefixes: map<seq<string>, nat>, p: seq<string>, token: string,
                      sources: seq<string>, children: seq<(string, nat)>, u: nat, f: string, v: nat)
    requires Built(z, trie, prefixes) && Known(prefixes, p) && p + [token] !in prefixes && NodeOf(prefixes, p) < |trie|
    requires forall g :: g in sources <==> IsSource(z.c, z.mb, z.tag(token), true, g)
    requires forall g, w: nat :: (g, w) in children <==> w == |trie| && g in sources
    requires u <= |trie|
    ensures (f, v) in Grown(trie, NodeOf(prefixes, p), children)[u].children <==>
            EdgeOf(z, prefixes[p + [token] := |trie|], u, f, v)
  {
    hide IsSource, TrieOk;
    hide EdgeOf;
    GrownEdges(z, trie, prefixes, p, token, u, f, v);
    EdgeOld(z, trie, prefixes, u, f, v);
  }

  lemma GrownBuilt(z: Tagging, trie: Trie, prefixes: map<seq<string>, nat>, p: seq<string>, token: string,
                   sources: seq<string>, children: seq<(string, nat)>)
    requires Built(z, trie, prefixes) && Known(prefixes, p) && p + [token] !in prefixes && NodeOf(prefixes, p) < |trie|
    requires forall g :: g in sources <==> IsSource(z.c, z.mb, z.tag(token), true, g)
    requires forall g, w: nat :: (g, w) in children <==> w == |trie| && g in sources
    ensures Built(z, Grown(trie, NodeOf(prefixes, p), children), prefixes[p + [token] := |trie|])
  {
    hide IsSource, EdgeOf, TrieOk, Numbered;
    var trie' := Grown(trie, NodeOf(prefixes, p), children);
    var prefixes' := prefixes[p + [token] := |trie|];
    forall u: nat, f, v: nat | u < |trie'| ensures (f, v) in trie'[u].children <==> EdgeOf(z, prefixes', u, f, v) {
      GrownChildren(z, trie, prefixes, p, token, sources, children, u, f, v);
    }
    GrownOk(trie, NodeOf(prefixes, p), children);
    NumberedMore(prefixes, |trie|, p, token);
  }

  lemma GrownOk(trie: Trie, node: nat, children: seq<(string, nat)>)
    requires TrieOk(trie) && node < |trie| && forall g, w: nat :: (g, w) in children ==> w == |trie|
    ensures TrieOk(Grown(trie, node, children))
  {
    var trie' := Grown(trie, node, children);
    forall u: nat, k: nat | u < |trie'| && k < |trie'[u].children| ensures trie'[u].children[k].1 < |trie'| {
      if u == node && k >= |trie[u].children| {
        var e := children[k - |trie[u].children|];
        assert (e.0, e.1) in children;
      }
    }
  }

  lemma MarkedBuilt(z: Tagging, trie: Trie, prefixes: map<seq<string>, nat>, node: nat, n: TrieNode)
    requires Built(z, trie, prefixes) && node < |trie| && n.children == trie[node].children
    ensures Built(z, trie[node := n], prefixes)
  {
    hide EdgeOf;
  }

  /** A node after an entry of the given kind ends there: the feature is added once, and the first entry of
      the strongest mode gives mode and entity, where HARD_PRE is stronger than HARD_POST and that than soft. */
  function MarkedNode(n: TrieNode, feature: nat, mode: Mode, entity: nat): TrieNode
  {
    var features := if feature in n.features then n.features else n.features + [feature];
    if (mode == HardPre && n.mode != HardPre) || (mode == HardPost && n.mode == Soft)
    then TrieNode(features, n.children, mode, entity) else n.(features := features)
  }

  /** The marks of a node, without its edges. */
  ghost predicate SameMarks(a: TrieNode, b: TrieNode)
  {
    a.features == b.features && a.mode == b.mode && a.entity == b.entity
  }

  /** What an entry does to the marks of the node where it ends. */
  ghost predicate Marked(n: TrieNode, n': TrieNode, feature: nat, mode: Mode, entity: nat)
  {
    && (if (mode == HardPre && n.mode != HardPre) || (mode == HardPost && n.mode == Soft)
        then n'.mode == mode && n'.entity == entity else n'.mode == n.mode && n'.entity == n.entity)
    && n.features <= n'.features && (forall f :: f in n'.features <==> f in n.features || f == feature)
    && (NoRepeats(n.features) ==> NoRepeats(n'.features))
  }

  ghost predicate NoRepeats(s: seq<nat>) { forall i, j :: 0 <= i < j < |s| ==> s[i] != s[j] }

  lemma MarkedIs(n: TrieNode, feature: nat, mode: Mode, entity: nat)
    ensures Marked(n, MarkedNode(n, feature, mode, entity), feature, mode, entity)
  {
  }

  lemma MarkedSame(n: TrieNode, n': TrieNode, feature: nat, mode: Mode, entity: nat)
    requires SameMarks(n', MarkedNode(n, feature, mode, entity))
    ensures Marked(n, n', feature, mode, entity)
  {
    MarkedIs(n, feature, mode, entity);
    hide NoRepeats;
  }

  /** An entry of a gazetteer list. */
  datatype Gazetteer = Gazetteer(tokens: seq<string>, feature: nat, mode: Mode, entity: nat)

  /** The marks of the node of p after some entries. */
  ghost function MarksAt(es: seq<Gazetteer>, p: seq<string>): TrieNode
  {
    if es == [] then NEW_NODE else
      var e, n := es[|es| - 1], MarksAt(es[..|es| - 1], p);
      if e.tokens == p then MarkedNode(n, e.feature, e.mode, e.entity) else n
  }

  ghost predicate EntryAt(es: seq<Gazetteer>, p: seq<string>, mode: Mode, i: int)
  {
    0 <= i < |es| && es[i].tokens == p && es[i].mode == mode
  }

  ghost predicate HasMode(es: seq<Gazetteer>, p: seq<string>, mode: Mode) { exists i :: EntryAt(es, p, mode, i) }

  ghost predicate HasFeature(es: seq<Gazetteer>, p: seq<string>, f: nat)
  {
    exists i :: 0 <= i < |es| && es[i].tokens == p && es[i].feature == f
  }

  /** The first entry of a mode that ends at p has this entity. */
  ghost predicate FirstEntity(es: seq<Gazetteer>, p: seq<string>, mode: Mode, entity: nat)
  {
    exists i :: EntryAt(es, p, mode, i) && es[i].entity == entity && forall j :: 0 <= j < i ==> !EntryAt(es, p, mode, j)
  }

  lemma ModeSnoc(es: seq<Gazetteer>, e: Gazetteer, p: seq<string>, mode: Mode)
    ensures HasMode(es + [e], p, mode) <==> HasMode(es, p, mode) || (e.tokens == p && e.mode == mode)
  {
    if HasMode(es, p, mode) { var i :| EntryAt(es, p, mode, i); assert EntryAt(es + [e], p, mode, i); }
    if e.tokens == p && e.mode == mode { assert EntryAt(es + [e], p, mode, |es|); }
    if HasMode(es + [e], p, mode) {
      var i :| EntryAt(es + [e], p, mode, i);
      if i < |es| { assert EntryAt(es, p, mode, i); }
    }
  }

  lemma FeatureSnoc(es: seq<Gazetteer>, e: Gazetteer, p: seq<string>, f: nat)
    ensures HasFeature(es + [e], p, f) <==> HasFeature(es, p, f) || (e.tokens == p && e.feature == f)
  {
    var r := es + [e];
    if HasFeature(es, p, f) {
      var i :| 0 <= i < |es| && es[i].tokens == p && es[i].feature == f;
      assert r[i].tokens == p && r[i].feature == f;
    }
    if e.tokens == p && e.feature == f { assert r[|es|].tokens == p && r[|es|].feature == f; }
    if HasFeature(r, p, f) {
      var i :| 0 <= i < |r| && r[i].tokens == p && r[i].feature == f;
      if i < |es| { assert es[i].tokens == p && es[i].feature == f; }
    }
  }

  lemma EntitySnoc(es: seq<Gazetteer>, e: Gazetteer, p: seq<string>, mode: Mode, entity: nat)
    ensures FirstEntity(es, p, mode, entity) ==> FirstEntity(es + [e], p, mode, entity)
    ensures !HasMode(es, p, mode) && e.tokens == p && e.mode == mode ==> FirstEntity(es + [e], p, mode, e.entity)
  {
    var r := es + [e];
    if FirstEntity(es, p, mode, entity) {
      var i :| EntryAt(es, p, mode, i) && es[i].entity == entity && forall j :: 0 <= j < i ==> !EntryAt(es, p, mode, j);
      assert EntryAt(r, p, mode, i);
      forall j | 0 <= j < i ensures !EntryAt(r, p, mode, j) { assert !EntryAt(es, p, mode, j); }
    }
    if !HasMode(es, p, mode) && e.tokens == p && e.mode == mode {
      assert EntryAt(r, p, mode, |es|);
      forall j | 0 <= j < |es| ensures !EntryAt(r, p, mode, j) { assert !EntryAt(es, p, mode, j); }
    }
  }

  /** Over any list of entries: the node of p has the strongest mode among those that end there, the entity of
      the first of that mode, and the features of all of them, each once. */
  lemma {:induction false} MarksStrongest(es: seq<Gazetteer>, p: seq<string>)
    ensures var n := MarksAt(es, p);
            && n.mode == (if HasMode(es, p, HardPre) then HardPre else if HasMode(es, p, HardPost) then HardPost
                          else Soft)
            && (if n.mode == Soft then n.entity == Bilou.UNKNOWN else FirstEntity(es, p, n.mode, n.entity))
            && NoRepeats(n.features) && forall f :: f in n.features <==> HasFeature(es, p, f)
    decreases |es|
  {
    hide HasMode, HasFeature, FirstEntity, MarkedNode, NoRepeats;
    if es == [] {
      NoMarks(p);
    } else {
      var s, e := es[..|es| - 1], es[|es| - 1];
      assert es == s + [e];
      MarksStrongest(s, p);
      MarkedIs(MarksAt(s, p), e.feature, e.mode, e.entity);
      ModeSnoc(s, e, p, HardPre);
      ModeSnoc(s, e, p, HardPost);
      EntitySnoc(s, e, p, HardPre, MarksAt(s, p).entity);
      EntitySnoc(s, e, p, HardPost, MarksAt(s, p).entity);
      forall f ensures f in MarksAt(es, p).features <==> HasFeature(es, p, f) { FeatureSnoc(s, e, p, f); }
    }
  }

  lemma NoMarks(p: seq<string>)
    ensures !HasMode([], p, HardPre) && !HasMode([], p, HardPost) && forall f :: !HasFeature([], p, f)
    ensures NoRepeats([])
  {
  }

  const NEW_NODE := TrieNode([], [], Soft, Bilou.UNKNOWN)

  /** The node before an entry was added, or a new one. */
  ghost function NodeBefore(trie: Trie, v: nat): TrieNode { if v < |trie| then trie[v] else NEW_NODE }

  /** Older nodes keep their marks, and nodes created on the way have none. */
  ghost predicate MarksKept(trie: Trie, trie': Trie, but: int)
  {
    |trie| <= |trie'| && forall v :: 0 <= v < |trie'| && v != but ==> SameMarks(trie'[v], NodeBefore(trie, v))
  }

  /** Every known prefix has the marks of the entries so far. */
  ghost predicate MarksOk(trie: Trie, prefixes: map<seq<string>, nat>, es: seq<Gazetteer>)
  {
    forall p :: Known(prefixes, p) ==>
      NodeOf(prefixes, p) < |trie| && SameMarks(trie[NodeOf(prefixes, p)], MarksAt(es, p))
  }

  lemma StartAt()
    ensures MarksOk([NEW_NODE], map[], [])
  {
  }

  lemma MarksSnoc(es: seq<Gazetteer>, e: Gazetteer, p: seq<string>)
    ensures MarksAt(es + [e], p) == if e.tokens == p then MarkedNode(MarksAt(es, p), e.feature, e.mode, e.entity)
                                    else MarksAt(es, p)
  {
    assert (es + [e])[..|es|] == es;
  }

  lemma MarksUnknown(es: seq<Gazetteer>, p: seq<string>)
    requires forall i :: 0 <= i < |es| ==> es[i].tokens != p
    ensures MarksAt(es, p) == NEW_NODE
  {
  }

  lemma SameMarked(a: TrieNode, b: TrieNode, c: TrieNode, feature: nat, mode: Mode, entity: nat)
    requires SameMarks(a, b) && SameMarks(c, MarkedNode(a, feature, mode, entity))
    ensures SameMarks(c, MarkedNode(b, feature, mode, entity))
  {
  }

  lemma NodesApart(z: Tagging, trie: Trie, prefixes: map<seq<string>, nat>, p: seq<string>, q: seq<string>)
    requires Built(z, trie, prefixes) && Known(prefixes, p) && Known(prefixes, q) && p != q
    ensures NodeOf(prefixes, p) != NodeOf(prefixes, q) && NodeOf(prefixes, p) < |trie|
  {
    hide TrieOk, EdgeOf;
    RootBuilt(z, trie, prefixes);
    if p in prefixes { PrefixFacts(z, trie, prefixes, p); }
    if q in prefixes { PrefixFacts(z, trie, prefixes, q); }
  }

  /** Adding an entry changes the marks of its own node only. */
  lemma MarksAdd(z: Tagging, trie: Trie, prefixes: map<seq<string>, nat>, trie': Trie,
                 prefixes': map<seq<string>, nat>, es: seq<Gazetteer>, e: Gazetteer)
    requires MarksOk(trie, prefixes, es) && forall i :: 0 <= i < |es| ==> Known(prefixes, es[i].tokens)
    requires Built(z, trie', prefixes') && Known(prefixes', e.tokens) && NodeOf(prefixes', e.tokens) < |trie'|
    requires forall q :: q in prefixes ==> q in prefixes' && prefixes'[q] == prefixes[q]
    requires forall q :: q in prefixes' && q !in prefixes ==> prefixes'[q] >= |trie|
    requires MarksKept(trie, trie', NodeOf(prefixes', e.tokens))
    requires var v := NodeOf(prefixes', e.tokens);
             SameMarks(trie'[v], MarkedNode(NodeBefore(trie, v), e.feature, e.mode, e.entity))
    ensures MarksOk(trie', prefixes', es + [e])
  {
    RootBuilt(z, trie', prefixes');
    hide Built, MarksAt, MarkedNode, SameMarks;
    forall p | Known(prefixes', p)
      ensures NodeOf(prefixes', p) < |trie'| && SameMarks(trie'[NodeOf(prefixes', p)], MarksAt(es + [e], p))
    {
      MarksSnoc(es, e, p);
      var v := NodeOf(prefixes', p);
      if p != e.tokens { NodesApart(z, trie', prefixes', p, e.tokens); }
      BeforeMarks(trie, prefixes, prefixes', es, p);
      if p == e.tokens {
        SameMarked(NodeBefore(trie, v), MarksAt(es, p), trie'[v], e.feature, e.mode, e.entity);
      } else {
        SameTrans(trie'[v], NodeBefore(trie, v), MarksAt(es, p));
      }
    }
  }

  lemma SameTrans(a: TrieNode, b: TrieNode, c: TrieNode)
    ensures SameMarks(a, b) && SameMarks(b, c) ==> SameMarks(a, c)
    ensures SameMarks(a, a)
  {
  }

  lemma BeforeMarks(trie: Trie, prefixes: map<seq<string>, nat>, prefixes': map<seq<string>, nat>,
                    es: seq<Gazetteer>, p: seq<string>)
    requires MarksOk(trie, prefixes, es) && forall i :: 0 <= i < |es| ==> Known(prefixes, es[i].tokens)
    requires forall q :: q in prefixes ==> q in prefixes' && prefixes'[q] == prefixes[q]
    requires forall q :: q in prefixes' && q !in prefixes ==> prefixes'[q] >= |trie|
    requires Known(prefixes', p) && [] !in prefixes'
    ensures SameMarks(NodeBefore(trie, NodeOf(prefixes', p)), MarksAt(es, p))
  {
    hide MarksAt, SameMarks;
    if !Known(prefixes, p) {
      MarksUnknown(es, p);
      SameTrans(NEW_NODE, NEW_NODE, NEW_NODE);
    }
  }

  class TrieBuilder {
    var trie: Trie
    var prefixes: map<seq<string>, nat>
    const z: Tagging

    ghost predicate Valid()
      reads this
    {
      Built(z, trie, prefixes)
    }

    constructor (z: Tagging)
      ensures Valid() && prefixes == map[] && trie == [NEW_NODE]
    {
      this.z := z;
      trie, prefixes := [NEW_NODE], map[];
    }

    /** The node of a prefix one token longer, created if it is new. */
    method Descend(p: seq<string>, token: string, node: nat) returns (next: nat)
      requires Valid() && Known(prefixes, p) && node == NodeOf(prefixes, p)
      modifies this
      ensures Valid() && Known(prefixes, p + [token]) && next == NodeOf(prefixes, p + [token])
      ensures MarksKept(old(trie), trie, -1)
      ensures forall q :: q in old(prefixes) ==> q in prefixes && prefixes[q] == old(prefixes[q])
      ensures forall q :: q in prefixes && q !in old(prefixes) ==> prefixes[q] >= |old(trie)|
    {
      hide IsSource, EdgeOf, Built;
      var q := p + [token];
      if q in prefixes { return prefixes[q]; }
      next := |trie|;
      var sources := RecaseMatchSource(z.c, z.mb, z.tag(token), true);
      var children := Labelled(sources, next);
      NodeBound(z, trie, prefixes, p);
      GrownBuilt(z, trie, prefixes, p, token, sources, children);
      trie := trie[node := trie[node].(children := trie[node].children + children)] + [NEW_NODE];
      prefixes := prefixes[q := next];
    }

    /** One gazetteer entry: its prefixes become nodes, and its last node takes over feature, mode and entity. */
    method Add(tokens: seq<string>, feature: nat, mode: Mode, entity: nat)
      requires Valid()
      modifies this
      ensures Valid() && Known(prefixes, tokens) && NodeOf(prefixes, tokens) < |trie|
      ensures forall q :: q in old(prefixes) ==> q in prefixes && prefixes[q] == old(prefixes[q])
      ensures MarksKept(old(trie), trie, NodeOf(prefixes, tokens))
      ensures forall q :: q in prefixes && q !in old(prefixes) ==> prefixes[q] >= |old(trie)|
      ensures var v := NodeOf(prefixes, tokens);
              && Marked(NodeBefore(old(trie), v), trie[v], feature, mode, entity)
              && SameMarks(trie[v], MarkedNode(NodeBefore(old(trie), v), feature, mode, entity))
    {
      hide Built, Marked;
      var node: nat, k: nat := 0, 0;
      RootBuilt(z, trie, prefixes);
      while k < |tokens|
        invariant k <= |tokens| && Valid() && Known(prefixes, tokens[..k]) && node == NodeOf(prefixes, tokens[..k])
        invariant forall q :: q in old(prefixes) ==> q in prefixes && prefixes[q] == old(prefixes[q])
        invariant forall q :: q in prefixes && q !in old(prefixes) ==> prefixes[q] >= |old(trie)|
        invariant MarksKept(old(trie), trie, -1)
      {
        assert tokens[..k + 1] == tokens[..k] + [tokens[k]];
        node := Descend(tokens[..k], tokens[k], node);
        k := k + 1;
      }
      assert tokens[..k] == tokens;
      NodeBound(z, trie, prefixes, tokens);
      var n := trie[node];
      var features := AppendUnlessExists(n.features, feature);
      n := n.(features := features);
      if (mode == HardPre && n.mode != HardPre) || (mode == HardPost && n.mode == Soft) {
        n := n.(mode := mode, entity := entity);
      }
      MarkedBuilt(z, trie, prefixes, node, n);
      trie := trie[node := n];
      MarkedSame(NodeBefore(old(trie), node), n, feature, mode, entity);
    }

    /** All entries of the gazetteer lists, one after another, into an empty trie. */
    method AddAll(es: seq<Gazetteer>)
      requires Valid() && prefixes == map[] && trie == [NEW_NODE]
      modifies this
      ensures Valid() && forall i :: 0 <= i < |es| ==> Known(prefixes, es[i].tokens)
      ensures forall p :: Known(prefixes, p) ==>
                NodeOf(prefixes, p) < |trie| && SameMarks(trie[NodeOf(prefixes, p)], MarksAt(es, p))
    {
      hide Built, MarksAt, MarkedNode, Marked;
      var k := 0;
      StartAt();
      assert es[..0] == [];
      while k < |es|
        invariant 0 <= k <= |es| && Valid() && forall i :: 0 <= i < k ==> Known(prefixes, es[i].tokens)
        invariant MarksOk(trie, prefixes, es[..k])
      {
        ghost var trie0, prefixes0 := trie, prefixes;
        Add(es[k].tokens, es[k].feature, es[k].mode, es[k].entity);
        MarksAdd(z, trie0, prefixes0, trie, prefixes, es[..k], es[k]);
        assert es[..k + 1] == es[..k] + [es[k]];
        k := k + 1;
      }
      assert es[..k] == es;
    }
  }
}
