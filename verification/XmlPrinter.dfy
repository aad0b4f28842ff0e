/** The XML output of untokenized recognition, as a sequence of marks: raw text between tokens,
    tokens, and opening and closing tags. */
module XmlPrinter {
  import opened Entities

  datatype Mark =
    | Raw(text: string)
    | Token(text: string)
    | OpenSentence
    | CloseSentence
    | OpenNe(kind: string)
    | CloseNe

  /** A token is a range of the paragraph. */
  datatype Form = Form(at: nat, len: nat)

  // ------------------------------------------------------------ reading the marks back

  /** The text of the paragraph, without markup. */
  ghost function TextOf(ms: seq<Mark>): string
  {
    if ms == [] then "" else TextOf(ms[..|ms| - 1]) + MarkText(ms[|ms| - 1])
  }

  ghost function MarkText(m: Mark): string
  {
    match m case Raw(t) => t case Token(t) => t case _ => ""
  }

  lemma {:induction false} TextAppend(a: seq<Mark>, b: seq<Mark>)
    ensures TextOf(a + b) == TextOf(a) + TextOf(b)
    decreases |b|
  {
    if b == [] { assert a + b == a; } else {
      hide MarkText;
      var b', last := b[..|b| - 1], b[|b| - 1];
      assert (a + b)[..|a + b| - 1] == a + b' && (a + b)[|a + b| - 1] == last;
      TextAppend(a, b');
      assert TextOf(a) + TextOf(b') + MarkText(last) == TextOf(a) + (TextOf(b') + MarkText(last));
    }
  }

  /** A reader of tags: the number of tokens seen, the stack of open tags as (first token, type), and
      the entities completed so far in the order of their opening, with 0 as the length of an open one. */
  datatype Reader = Reader(tokens: nat, open: seq<nat>, found: seq<Ent>) | Broken

  /** A closing tag ends the innermost open entity after the last token seen. */
  ghost function Read1(r: Reader, m: Mark): Reader
  {
    if r.Broken? then Broken else
    match m
    case Raw(_) => r
    case Token(_) => r.(tokens := r.tokens + 1)
    case OpenSentence => if r.tokens == 0 && r.open == [] then r else Broken
    case CloseSentence => if r.open == [] then r else Broken
    case OpenNe(kind) => r.(open := r.open + [|r.found|], found := r.found + [Ent(r.tokens, 0, kind)])
    case CloseNe =>
      if r.open == [] || r.open[|r.open| - 1] >= |r.found| || r.found[r.open[|r.open| - 1]].start > r.tokens
          then Broken else
        var k := r.open[|r.open| - 1];
        r.(open := r.open[..|r.open| - 1], found := r.found[k := r.found[k].(length := r.tokens - r.found[k].start)])
  }

  ghost function Read(r: Reader, ms: seq<Mark>): Reader
  {
    if ms == [] then r else Read1(Read(r, ms[..|ms| - 1]), ms[|ms| - 1])
  }

  lemma ReadSnoc(r: Reader, ms: seq<Mark>, m: Mark)
    ensures Read(r, ms + [m]) == Read1(Read(r, ms), m)
  {
    assert (ms + [m])[..|ms|] == ms;
  }

  // ------------------------------------------------------------ where the marks stand

  /** A mark that ends a token or an entity. */
  predicate Ends(m: Mark) { m.Token? || m.CloseNe? }

  /** Whether b may directly follow a: nothing but tags and the token itself stands between an opening and its
      token, nor between a token and its closing tags, and text is put out in one piece. */
  predicate Fits(a: Mark, b: Mark)
  {
    && (a.OpenNe? || a.OpenSentence? ==> b.OpenNe? || b.Token?)
    && (b.CloseNe? || b.CloseSentence? ==> Ends(a))
    && (b.Raw? ==> Ends(a)) && (b.OpenSentence? ==> a.Raw?)
  }

  ghost predicate Shaped(ms: seq<Mark>)
  {
    && (ms != [] ==> !ms[0].CloseNe? && !ms[0].CloseSentence?)
    && (forall k :: 0 < k < |ms| ==> Fits(ms[k - 1], ms[k]))
    && (forall m :: m in ms && m.Raw? ==> m.text != "")
  }

  /** Nothing is open that waits for its token. */
  predicate Settled(ms: seq<Mark>) { ms == [] || Ends(ms[|ms| - 1]) }

  lemma ShapedSnoc(ms: seq<Mark>, m: Mark)
    requires Shaped(ms) && (m.Raw? ==> m.text != "")
    requires if ms == [] then !m.CloseNe? && !m.CloseSentence? else Fits(ms[|ms| - 1], m)
    ensures Shaped(ms + [m])
  {
  }

  /** The marks without text and entity tags. */
  ghost function Frame(ms: seq<Mark>): seq<Mark>
  {
    if ms == [] then [] else
      var m := ms[|ms| - 1];
      Frame(ms[..|ms| - 1]) + if m.Token? || m.OpenSentence? || m.CloseSentence? then [m] else []
  }

  lemma FrameSnoc(ms: seq<Mark>, m: Mark)
    ensures Frame(ms + [m]) == Frame(ms) + if m.Token? || m.OpenSentence? || m.CloseSentence? then [m] else []
  {
    assert (ms + [m])[..|ms|] == ms;
  }

  /** The tokens of a sentence. */
  ghost function Tokens(para: string, forms: seq<Form>): (r: seq<Mark>)
    requires forall i :: 0 <= i < |forms| ==> forms[i].at + forms[i].len <= |para|
  {
    seq(|forms|, i requires 0 <= i < |forms| => Token(para[forms[i].at..forms[i].at + forms[i].len]))
  }

  /** A sentence is its tokens in order, between the two sentence tags. */
  ghost predicate Framed(para: string, forms: seq<Form>, ms: seq<Mark>)
  {
    && Shaped(ms) && (forall i :: 0 <= i < |forms| ==> forms[i].at + forms[i].len <= |para|)
    && Frame(ms) == if forms == [] then [] else [OpenSentence] + Tokens(para, forms) + [CloseSentence]
  }

  /** The same after i tokens. */
  ghost predicate FramedUpTo(para: string, forms: seq<Form>, i: nat, ms: seq<Mark>)
  {
    && i <= |forms| && Shaped(ms) && (forall j :: 0 <= j < |forms| ==> forms[j].at + forms[j].len <= |para|)
    && Settled(ms) && Frame(ms) == if i == 0 then [] else [OpenSentence] + Tokens(para, forms[..i])
  }

  // ------------------------------------------------------------ the printer's stack

  /** The reader and the printer's stack after t tokens, with e entities opened. */
  ghost predicate InStep(es: seq<Ent>, e: nat, t: nat, ends: seq<nat>, r: Reader)
  {
    && r.Reader? && e <= |es| && r.tokens == t && |r.found| == e && |r.open| == |ends|
    && (forall k :: 0 <= k < |ends| ==> r.open[k] < e && ends[k] + 1 == es[r.open[k]].End() && ends[k] + 1 >= t)
    && (forall j, k :: 0 <= j < k < |ends| ==> r.open[j] < r.open[k] && ends[j] >= ends[k])
    && (forall a :: 0 <= a < e && a in r.open ==> r.found[a] == Ent(es[a].start, 0, es[a].kind))
    && (forall a :: 0 <= a < e && a !in r.open ==> r.found[a] == es[a] && es[a].End() <= t)
    && (forall a :: 0 <= a < e ==> es[a].start <= t)
  }

  /** An entity starting at the next token is opened inside all that are open. */
  lemma OpenStep(es: seq<Ent>, n: nat, e: nat, t: nat, ends: seq<nat>, r: Reader)
    requires Nested(es, n) && InStep(es, e, t, ends, r) && e < |es| && es[e].start == t
    requires forall k :: 0 <= k < |ends| ==> ends[k] >= t
    ensures InStep(es, e + 1, t, ends + [es[e].End() - 1], Read1(r, OpenNe(es[e].kind)))
  {
    var r', last := Read1(r, OpenNe(es[e].kind)), es[e].End() - 1;
    forall k | 0 <= k < |ends| ensures ends[k] >= last { assert Precedes(es[r.open[k]], es[e]); }
    forall a | 0 <= a < e + 1 ensures a in r'.open <==> a == e || a in r.open { }
  }

  /** The innermost open entity ends with the last token. */
  lemma CloseStep(es: seq<Ent>, n: nat, e: nat, t: nat, ends: seq<nat>, r: Reader)
    requires Nested(es, n) && InStep(es, e, t, ends, r) && ends != [] && ends[|ends| - 1] + 1 == t
    ensures InStep(es, e, t, ends[..|ends| - 1], Read1(r, CloseNe))
  {
    hide Precedes;
    var m := |ends| - 1;
    var k, r' := r.open[m], Read1(r, CloseNe);
    assert k in r.open;
    forall a | 0 <= a < e ensures a in r'.open <==> a in r.open && a != k {
      if a in r.open && a != k {
        var j :| 0 <= j < |r.open| && r.open[j] == a;
        assert r'.open[j] == a;
      }
    }
  }

  lemma TokenStep(es: seq<Ent>, e: nat, t: nat, ends: seq<nat>, r: Reader, text: string)
    requires InStep(es, e, t, ends, r) && forall k :: 0 <= k < |ends| ==> ends[k] >= t
    ensures InStep(es, e, t + 1, ends, Read1(r, Token(text)))
  {
  }

  /** After the closing loop nothing open ends before the next token. */
  lemma StackAbove(es: seq<Ent>, e: nat, t: nat, ends: seq<nat>, r: Reader)
    requires InStep(es, e, t, ends, r) && (ends != [] ==> ends[|ends| - 1] + 1 != t)
    ensures forall k :: 0 <= k < |ends| ==> ends[k] >= t
  {
    if ends != [] { assert ends[|ends| - 1] >= t; }
  }

  /** An element, or a default beyond the end. */
  ghost function At<T>(s: seq<T>, k: nat, none: T): T { if k < |s| then s[k] else none }

  /** At the end of the sentence the stack is empty and every entity is complete. */
  lemma AllClosed(es: seq<Ent>, n: nat, e: nat, ends: seq<nat>, r: Reader)
    requires Nested(es, n) && InStep(es, e, n, ends, r) && (forall k :: 0 <= k < |ends| ==> ends[k] >= n)
    requires forall a :: e <= a < |es| ==> es[a].start >= n
    ensures ends == [] && e == |es| && r == Reader(n, [], es)
  {
    assert forall k :: 0 <= k < |ends| ==> ends[k] < n;
    var first, next := At(ends, 0, 0), At(es, e, Ent(0, 0, ""));
    assert r.found == es;
  }

  // ------------------------------------------------------------ printing

  /** The forms are ordered, disjoint ranges of the paragraph from `from` on. */
  ghost predicate Ordered(para: string, forms: seq<Form>, from: nat)
  {
    && from <= |para|
    && (forall i :: 0 <= i < |forms| ==> from <= forms[i].at && forms[i].at + forms[i].len <= |para|)
    && (forall i, j :: 0 <= i < j < |forms| ==> forms[i].at + forms[i].len <= forms[j].at)
  }

  /** Where printing stands after i tokens of a sentence. */
  ghost predicate Printed(para: string, forms: seq<Form>, es: seq<Ent>, from: nat, i: nat, e: nat, ends: seq<nat>,
                          unprinted: nat, out: seq<Mark>)
  {
    && i <= |forms| && e <= |es| && (i == 0 ==> e == 0)
    && unprinted == (if i == 0 then from else forms[i - 1].at + forms[i - 1].len) && from <= unprinted <= |para|
    && TextOf(out) == para[from..unprinted]
    && InStep(es, e, i, ends, Read(Reader(0, [], []), out)) && (forall k :: 0 <= k < |ends| ==> ends[k] >= i)
    && (forall a :: e <= a < |es| ==> es[a].start >= i)
  }

  lemma TextSnoc(ms: seq<Mark>, m: Mark)
    ensures TextOf(ms + [m]) == TextOf(ms) + MarkText(m)
  {
    assert (ms + [m])[..|ms|] == ms;
  }

  lemma StepSize(es: seq<Ent>, e: nat, t: nat, ends: seq<nat>, r: Reader)
    requires InStep(es, e, t, ends, r)
    ensures e <= |es|
  {
  }

  /** The tags opened before a token. */
  method OpenTags(es: seq<Ent>, ghost n: nat, i: nat, e0: nat, ends0: seq<nat>, out0: seq<Mark>)
    returns (e: nat, ends: seq<nat>, out: seq<Mark>)
    requires Nested(es, n) && InStep(es, e0, i, ends0, Read(Reader(0, [], []), out0))
    requires (forall k :: 0 <= k < |ends0| ==> ends0[k] >= i) && forall a :: e0 <= a < |es| ==> es[a].start >= i
    ensures InStep(es, e, i, ends, Read(Reader(0, [], []), out)) && TextOf(out) == TextOf(out0) && out0 <= out
    ensures (forall k :: 0 <= k < |ends| ==> ends[k] >= i) && e <= |es| && forall a :: e <= a < |es| ==> es[a].start > i
    ensures (Shaped(out0) ==> Shaped(out)) && Frame(out) == Frame(out0)
  {
    hide InStep, Read, Read1, TextOf, Nested, Shaped, Frame;
    e, ends, out := e0, ends0, out0;
    StepSize(es, e0, i, ends0, Read(Reader(0, [], []), out0));
    while e < |es| && es[e].start == i
      invariant e <= |es|
      invariant InStep(es, e, i, ends, Read(Reader(0, [], []), out)) && TextOf(out) == TextOf(out0) && out0 <= out
      invariant (forall k :: 0 <= k < |ends| ==> ends[k] >= i) && forall a :: e <= a < |es| ==> es[a].start >= i
      invariant (Shaped(out0) ==> Shaped(out)) && Frame(out) == Frame(out0)
    {
      OpenFits(out, es[e].kind);
      OpenStep(es, n, e, i, ends, Read(Reader(0, [], []), out));
      ReadSnoc(Reader(0, [], []), out, OpenNe(es[e].kind));
      TextSnoc(out, OpenNe(es[e].kind));
      NestedPositive(es, n, e);
      out := out + [OpenNe(es[e].kind)];
      ends := ends + [es[e].start + es[e].length - 1];
      e := e + 1;
    }
    LaterStarts(es, n, e, i);
  }

  /** An entity tag may open after anything that is in shape. */
  lemma OpenFits(out: seq<Mark>, kind: string)
    ensures Frame(out + [OpenNe(kind)]) == Frame(out)
    ensures Shaped(out) ==> Shaped(out + [OpenNe(kind)])
  {
    FrameSnoc(out, OpenNe(kind));
    hide Frame;
    if Shaped(out) && (out != [] ==> Fits(out[|out| - 1], OpenNe(kind))) { ShapedSnoc(out, OpenNe(kind)); }
  }

  lemma CloseFits(out: seq<Mark>)
    requires out != [] && Ends(out[|out| - 1])
    ensures Frame(out + [CloseNe]) == Frame(out)
    ensures Shaped(out) ==> Shaped(out + [CloseNe])
  {
    FrameSnoc(out, CloseNe);
    hide Frame;
    if Shaped(out) { ShapedSnoc(out, CloseNe); }
  }

  lemma NestedPositive(es: seq<Ent>, n: nat, e: nat)
    requires Nested(es, n) && e < |es|
    ensures es[e].length > 0
  {
  }

  lemma LaterStarts(es: seq<Ent>, n: nat, e: nat, i: nat)
    requires Nested(es, n) && (forall a :: e <= a < |es| ==> es[a].start >= i) && (e < |es| ==> es[e].start != i)
    ensures forall a :: e <= a < |es| ==> es[a].start > i
  {
    forall a | e < a < |es| ensures es[a].start > i { assert Precedes(es[e], es[a]); }
  }

  /** The tags closed after a token. */
  method CloseTags(es: seq<Ent>, ghost n: nat, i: nat, e: nat, ends0: seq<nat>, out0: seq<Mark>)
    returns (ends: seq<nat>, out: seq<Mark>)
    requires Nested(es, n) && InStep(es, e, i + 1, ends0, Read(Reader(0, [], []), out0))
    ensures InStep(es, e, i + 1, ends, Read(Reader(0, [], []), out)) && TextOf(out) == TextOf(out0) && out0 <= out
    requires out0 != [] && Ends(out0[|out0| - 1])
    ensures forall k :: 0 <= k < |ends| ==> ends[k] >= i + 1
    ensures (Shaped(out0) ==> Shaped(out)) && Frame(out) == Frame(out0) && out != [] && Ends(out[|out| - 1])
  {
    hide InStep, Read, Read1, TextOf, Nested, Shaped, Frame;
    ends, out := ends0, out0;
    while ends != [] && ends[|ends| - 1] == i
      invariant InStep(es, e, i + 1, ends, Read(Reader(0, [], []), out)) && TextOf(out) == TextOf(out0) && out0 <= out
      invariant (Shaped(out0) ==> Shaped(out)) && Frame(out) == Frame(out0) && out != [] && Ends(out[|out| - 1])
      decreases |ends|
    {
      CloseFits(out);
      CloseStep(es, n, e, i + 1, ends, Read(Reader(0, [], []), out));
      ReadSnoc(Reader(0, [], []), out, CloseNe);
      TextSnoc(out, CloseNe);
      out := out + [CloseNe];
      ends := ends[..|ends| - 1];
    }
    StackAbove(es, e, i + 1, ends, Read(Reader(0, [], []), out));
  }

  /** What is put out before the tags of a token: the text up to it, and the opening of the sentence. */
  method Before(para: string, forms: seq<Form>, es: seq<Ent>, from: nat, i: nat, e: nat, ends: seq<nat>, unprinted: nat,
                out0: seq<Mark>)
    returns (out: seq<Mark>)
    requires Ordered(para, forms, from) && i < |forms| && Printed(para, forms, es, from, i, e, ends, unprinted, out0)
    ensures InStep(es, e, i, ends, Read(Reader(0, [], []), out)) && TextOf(out) == para[from..forms[i].at] &&
            out0 <= out
    ensures i == 0 ==> OpenSentence in out
    ensures Shaped(out0) && Settled(out0) && (i == 0 ==> out0 == []) ==> Shaped(out)
    ensures Frame(out) == Frame(out0) + if i == 0 then [OpenSentence] else []
  {
    hide InStep, Read, Read1, TextOf, Shaped, Frame, Settled;
    out := out0;
    if unprinted < forms[i].at {
      var text := para[unprinted..forms[i].at];
      ReadSnoc(Reader(0, [], []), out, Raw(text));
      TextSnoc(out, Raw(text));
      Slices(para, from, unprinted, forms[i].at);
      RawStep(es, e, i, ends, Read(Reader(0, [], []), out), text);
      RawFits(out, text);
      out := out + [Raw(text)];
    }
    if i == 0 {
      ReadSnoc(Reader(0, [], []), out, OpenSentence);
      TextSnoc(out, OpenSentence);
      SentenceStep(es, ends, Read(Reader(0, [], []), out));
      SentenceFits(out);
      out := out + [OpenSentence];
    }
  }

  lemma RawFits(out: seq<Mark>, text: string)
    requires text != ""
    ensures Frame(out + [Raw(text)]) == Frame(out) && (out + [Raw(text)])[|out|] == Raw(text)
    ensures Shaped(out) && Settled(out) ==> Shaped(out + [Raw(text)])
  {
    FrameSnoc(out, Raw(text));
    hide Frame;
    if Shaped(out) && Settled(out) { ShapedSnoc(out, Raw(text)); }
  }

  lemma SentenceFits(out: seq<Mark>)
    ensures Frame(out + [OpenSentence]) == Frame(out) + [OpenSentence]
    ensures Shaped(out) && (out != [] ==> out[|out| - 1].Raw?) ==> Shaped(out + [OpenSentence])
  {
    FrameSnoc(out, OpenSentence);
    hide Frame;
    if Shaped(out) && (out != [] ==> out[|out| - 1].Raw?) { ShapedSnoc(out, OpenSentence); }
  }

  lemma Slices(s: string, a: nat, b: nat, c: nat)
    requires a <= b <= c <= |s|
    ensures s[a..b] + s[b..c] == s[a..c]
  {
  }

  lemma RawStep(es: seq<Ent>, e: nat, t: nat, ends: seq<nat>, r: Reader, text: string)
    requires InStep(es, e, t, ends, r)
    ensures Read1(r, Raw(text)) == r
  {
  }

  lemma SentenceStep(es: seq<Ent>, ends: seq<nat>, r: Reader)
    requires InStep(es, 0, 0, ends, r)
    ensures Read1(r, OpenSentence) == r
  {
    var first := At(if r.Reader? then r.open else [], 0, 0);
  }

  /** A token, and the tags that close after it. */
  method TokenTags(para: string, form: Form, es: seq<Ent>, ghost n: nat, from: nat, i: nat, e: nat, ends0: seq<nat>,
                   out0: seq<Mark>)
    returns (ends: seq<nat>, out: seq<Mark>)
    requires Nested(es, n) && from <= form.at && form.at + form.len <= |para| && TextOf(out0) == para[from..form.at]
    requires InStep(es, e, i, ends0, Read(Reader(0, [], []), out0)) && forall k :: 0 <= k < |ends0| ==> ends0[k] >= i
    ensures InStep(es, e, i + 1, ends, Read(Reader(0, [], []), out)) &&
            (forall k :: 0 <= k < |ends| ==> ends[k] >= i + 1)
    ensures TextOf(out) == para[from..form.at + form.len] && out0 <= out
    ensures (Shaped(out0) ==> Shaped(out)) && Settled(out) && out != []
    ensures Frame(out) == Frame(out0) + [Token(para[form.at..form.at + form.len])]
  {
    hide InStep, Read, Read1, TextOf, Nested, Shaped, Frame;
    var text := para[form.at..form.at + form.len];
    TokenStep(es, e, i, ends0, Read(Reader(0, [], []), out0), text);
    ReadSnoc(Reader(0, [], []), out0, Token(text));
    TextSnoc(out0, Token(text));
    FrameSnoc(out0, Token(text));
    if Shaped(out0) { TokenFits(out0, text); }
    assert para[from..form.at] + text == para[from..form.at + form.len];
    ends, out := CloseTags(es, n, i, e, ends0, out0 + [Token(text)]);
  }

  lemma TokenFits(out: seq<Mark>, text: string)
    requires Shaped(out)
    ensures Shaped(out + [Token(text)])
  {
    ShapedSnoc(out, Token(text));
  }

  /** The end of the sentence, after its last token. */
  lemma SentenceEnd(es: seq<Ent>, n: nat, e: nat, ends: seq<nat>, out: seq<Mark>)
    requires Nested(es, n) && InStep(es, e, n, ends, Read(Reader(0, [], []), out)) &&
             (forall k :: 0 <= k < |ends| ==> ends[k] >= n)
    requires forall a :: e <= a < |es| ==> es[a].start >= n
    ensures Read(Reader(0, [], []), out + [CloseSentence]) == Read(Reader(0, [], []), out) == Reader(n, [], es)
    ensures TextOf(out + [CloseSentence]) == TextOf(out) && ends == []
  {
    hide InStep, Nested;
    AllClosed(es, n, e, ends, Read(Reader(0, [], []), out));
    ReadSnoc(Reader(0, [], []), out, CloseSentence);
    TextSnoc(out, CloseSentence);
  }

  lemma PrintStart(para: string, forms: seq<Form>, es: seq<Ent>, from: nat)
    requires from <= |para|
    ensures Printed(para, forms, es, from, 0, 0, [], from, [])
  {
    assert para[from..from] == "";
  }

  /** A token with the text and the tags around it. */
  method PrintToken(para: string, forms: seq<Form>, es: seq<Ent>, from: nat, i: nat, e0: nat, ends0: seq<nat>,
                    unprinted: nat, out0: seq<Mark>)
    returns (e: nat, ends: seq<nat>, out: seq<Mark>)
    requires Ordered(para, forms, from) && Nested(es, |forms|) && i < |forms|
    requires Printed(para, forms, es, from, i, e0, ends0, unprinted, out0) && FramedUpTo(para, forms, i, out0)
    requires i == 0 ==> out0 == []
    ensures Printed(para, forms, es, from, i + 1, e, ends, forms[i].at + forms[i].len, out)
    ensures FramedUpTo(para, forms, i + 1, out) && out != []
    ensures i > 0 && OpenSentence in out0 ==> OpenSentence in out
    ensures i == 0 ==> OpenSentence in out
  {
    hide InStep, Read, Read1, TextOf, Nested, Shaped, Frame, Tokens, Settled;
    out := Before(para, forms, es, from, i, e0, ends0, unprinted, out0);
    e, ends, out := OpenTags(es, |forms|, i, e0, ends0, out);
    ends, out := TokenTags(para, forms[i], es, |forms|, from, i, e, ends, out);
    TokensNext(para, forms, i);
  }

  /** A sentence: the tags read back as exactly the entities, the stack is left empty, and the text
      from the pointer on is put out once and in order. */
  method PrintSentence(para: string, forms: seq<Form>, entities: seq<Ent>, unprinted0: nat)
    returns (out: seq<Mark>, unprinted: nat, ends: seq<nat>)
    requires Ordered(para, forms, unprinted0) && Nested(entities, |forms|)
    ensures unprinted0 <= unprinted <= |para| && TextOf(out) == para[unprinted0..unprinted] && ends == []
    ensures unprinted == if forms == [] then unprinted0 else forms[|forms| - 1].at + forms[|forms| - 1].len
    ensures Read(Reader(0, [], []), out) == Reader(|forms|, [], entities)
    ensures forms != [] ==> OpenSentence in out && out[|out| - 1] == CloseSentence
    ensures Framed(para, forms, out)
  {
    hide InStep, Read, Read1, TextOf, Nested, FramedUpTo, Framed;
    out, unprinted, ends := [], unprinted0, [];
    PrintStart(para, forms, entities, unprinted0);
    FrameStart(para, forms, unprinted0);
    var i: nat, e: nat := 0, 0;
    while i < |forms|
      invariant i <= |forms| && Printed(para, forms, entities, unprinted0, i, e, ends, unprinted, out)
      invariant i > 0 ==> OpenSentence in out
      invariant i == |forms| > 0 ==> out != [] && out[|out| - 1] == CloseSentence
      invariant if i == |forms| then Framed(para, forms, out)
                else FramedUpTo(para, forms, i, out) && (i == 0 ==> out == [])
    {
      e, ends, out := PrintToken(para, forms, entities, unprinted0, i, e, ends, unprinted, out);
      if i + 1 == |forms| {
        FrameEnd(para, forms, out);
        SentenceEnd(entities, |forms|, e, ends, out);
        out := out + [CloseSentence];
      }
      unprinted := forms[i].at + forms[i].len;
      i := i + 1;
    }
    PrintedEnd(para, forms, entities, unprinted0, e, ends, unprinted, out);
  }

  lemma FrameStart(para: string, forms: seq<Form>, from: nat)
    requires Ordered(para, forms, from)
    ensures FramedUpTo(para, forms, 0, []) && (forms == [] ==> Framed(para, forms, []))
  {
  }

  lemma TokensNext(para: string, forms: seq<Form>, i: nat)
    requires i < |forms| && forall j :: 0 <= j < |forms| ==> forms[j].at + forms[j].len <= |para|
    ensures Tokens(para, forms[..i + 1])
         == Tokens(para, forms[..i]) + [Token(para[forms[i].at..forms[i].at + forms[i].len])]
    ensures Tokens(para, forms[..0]) == []
  {
  }

  /** The closing tag of the sentence. */
  lemma FrameEnd(para: string, forms: seq<Form>, out: seq<Mark>)
    requires forms != [] && out != [] && FramedUpTo(para, forms, |forms|, out)
    ensures Framed(para, forms, out + [CloseSentence])
  {
    FrameSnoc(out, CloseSentence);
    hide Frame, Tokens;
    ShapedSnoc(out, CloseSentence);
    assert forms[..|forms|] == forms;
  }

  lemma PrintedEnd(para: string, forms: seq<Form>, es: seq<Ent>, from: nat, e: nat, ends: seq<nat>, unprinted: nat,
                   out: seq<Mark>)
    requires Nested(es, |forms|) && Printed(para, forms, es, from, |forms|, e, ends, unprinted, out)
    ensures ends == [] && Read(Reader(0, [], []), out) == Reader(|forms|, [], es)
  {
    hide InStep, Nested;
    AllClosed(es, |forms|, e, ends, Read(Reader(0, [], []), out));
  }

  // ------------------------------------------------------------ paragraphs

  datatype Sentence = Sentence(forms: seq<Form>, entities: seq<Ent>)

  /** The sentences of a paragraph, each going on where the one before ended. */
  ghost predicate Paragraph(para: string, ss: seq<Sentence>, from: nat)
    decreases |ss|
  {
    if ss == [] then from <= |para| else
      && Ordered(para, ss[0].forms, from) && Nested(ss[0].entities, |ss[0].forms|)
      && Paragraph(para, ss[1..], if ss[0].forms == [] then from
         else ss[0].forms[|ss[0].forms| - 1].at + ss[0].forms[|ss[0].forms| - 1].len)
  }

  /** Marks whose tags read back as the entities of the sentence. */
  ghost predicate ReadsAs(para: string, ms: seq<Mark>, s: Sentence)
  {
    Read(Reader(0, [], []), ms) == Reader(|s.forms|, [], s.entities) && Framed(para, s.forms, ms)
  }

  ghost predicate AllRead(para: string, parts: seq<seq<Mark>>, ss: seq<Sentence>)
  {
    |parts| == |ss| && forall k :: 0 <= k < |ss| ==> ReadsAs(para, parts[k], ss[k])
  }

  ghost function Flatten(parts: seq<seq<Mark>>): seq<Mark>
  {
    if parts == [] then [] else Flatten(parts[..|parts| - 1]) + parts[|parts| - 1]
  }

  lemma FlattenSnoc(parts: seq<seq<Mark>>, more: seq<Mark>)
    ensures Flatten(parts + [more]) == Flatten(parts) + more
  {
    assert (parts + [more])[..|parts|] == parts;
  }

  lemma {:induction false} ParagraphAt(para: string, ss: seq<Sentence>, from: nat)
    requires Paragraph(para, ss, from)
    ensures from <= |para|
  {
  }

  /** recognize_untokenized: the text of the paragraph is put out exactly once and in order, the marks
      are those of the sentences one after another and then only text, and each sentence's tags read
      back as its entities. */
  method PrintParagraph(para: string, ss: seq<Sentence>)
    returns (out: seq<Mark>, ghost parts: seq<seq<Mark>>, ghost rest: seq<Mark>)
    requires Paragraph(para, ss, 0)
    ensures TextOf(out) == para && out == Flatten(parts) + rest && AllRead(para, parts, ss) && forall m :: m in rest ==>
            m.Raw?
  {
    hide Ordered, Nested, Read, Read1, TextOf, Flatten, AllRead, ReadsAs, Paragraph, Framed;
    var unprinted: nat, i: nat, ends: seq<nat> := 0, 0, [];
    out, parts, rest := [], [], [];
    TextNone();
    ParagraphAt(para, ss, 0);
    assert ss[0..] == ss;
    NoneRead(para, ss);
    while i < |ss|
      invariant i <= |ss| && Paragraph(para, ss[i..], unprinted) && unprinted <= |para|
      invariant TextOf(out) == para[..unprinted] && out == Flatten(parts) && AllRead(para, parts, ss[..i]) && ends == []
    {
      ParagraphNext(para, ss, i, unprinted);
      ghost var u := unprinted;
      var marks;
      marks, unprinted, ends := PrintSentence(para, ss[i].forms, ss[i].entities, unprinted);
      TextAppend(out, marks);
      Slices(para, 0, u, unprinted);
      FlattenSnoc(parts, marks);
      ReadMore(para, parts, ss, i, marks);
      parts := parts + [marks];
      out := out + marks;
      i := i + 1;
    }
    assert ss[..i] == ss;
    if unprinted < |para| {
      TextSnoc(out, Raw(para[unprinted..]));
      assert para[..unprinted] + para[unprinted..] == para;
      rest := [Raw(para[unprinted..])];
      out := out + [Raw(para[unprinted..])];
    } else {
      assert para[..unprinted] == para && out + rest == out;
    }
  }

  lemma NoneRead(para: string, ss: seq<Sentence>)
    ensures AllRead(para, [], ss[..0]) && Flatten([]) == []
  {
  }

  /** The next sentence of a paragraph, and where the text stands after it. */
  lemma ParagraphNext(para: string, ss: seq<Sentence>, i: nat, from: nat)
    requires i < |ss| && Paragraph(para, ss[i..], from)
    ensures Ordered(para, ss[i].forms, from) && Nested(ss[i].entities, |ss[i].forms|)
    ensures var forms := ss[i].forms;
            Paragraph(para, ss[i + 1..], if forms == [] then from else forms[|forms| - 1].at + forms[|forms| - 1].len)
  {
    hide Ordered, Nested;
    assert ss[i..][0] == ss[i] && ss[i..][1..] == ss[i + 1..];
  }

  lemma ReadMore(para: string, parts: seq<seq<Mark>>, ss: seq<Sentence>, i: nat, marks: seq<Mark>)
    requires i < |ss| && AllRead(para, parts, ss[..i])
    requires Read(Reader(0, [], []), marks) == Reader(|ss[i].forms|, [], ss[i].entities)
    requires Framed(para, ss[i].forms, marks)
    ensures AllRead(para, parts + [marks], ss[..i + 1])
  {
    hide Read, Framed;
    assert ss[..i + 1] == ss[..i] + [ss[i]] && ReadsAs(para, marks, ss[i]);
  }

  lemma TextNone()
    ensures TextOf([]) == ""
  {
  }
}
