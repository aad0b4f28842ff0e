/** Stored models: the entity map, the key map of a feature processor, and the network's matrices.
    Each loader reads back what its saver wrote and consumes exactly that. */
module Models {
  import opened Bytes
  import opened Binary
  import opened Options
  import opened EntityMaps
  import Compressor
  import Codec
  import Symbols

  type Name = seq<byte>

  // ------------------------------------------------------------ entity map

  ghost predicate Short(s: Name) { |s| < WORD }

  ghost function Names(ns: seq<Name>): seq<byte>
    requires forall i :: 0 <= i < |ns| ==> Short(ns[i])
  {
    if ns == [] then [] else
      assert Short(ns[|ns| - 1]);
      Names(ns[..|ns| - 1]) + Str(ns[|ns| - 1])
  }

  ghost predicate EntitiesFit(ns: seq<Name>) { |ns| < WORD && forall i :: 0 <= i < |ns| ==> Short(ns[i]) }

  ghost function EntityImage(ns: seq<Name>): seq<byte>
    requires EntitiesFit(ns)
  {
    LE4(|ns|) + Names(ns)
  }

  lemma NamesSnoc(ns: seq<Name>, k: nat)
    requires k < |ns| && forall i :: 0 <= i < |ns| ==> Short(ns[i])
    ensures Names(ns[..k + 1]) == Names(ns[..k]) + Str(ns[k])
  {
    assert ns[..k + 1][..k] == ns[..k];
  }

  /** What comes first of a longer list of names. */
  lemma {:induction false} NamesAt(buffer: seq<byte>, p: nat, ns: seq<Name>, k: nat)
    requires k < |ns| && (forall i :: 0 <= i < |ns| ==> Short(ns[i])) && At(buffer, p, Names(ns))
    ensures At(buffer, p + |Names(ns[..k])|, Str(ns[k]))
    decreases |ns|
  {
    hide Str;
    var m := |ns| - 1;
    AtSplit(buffer, p, Names(ns[..m]), Str(ns[m]));
    if k < m {
      NamesAt(buffer, p, ns[..m], k);
      assert ns[..m][..k] == ns[..k];
    }
  }

  /** entity_map::save. */
  method SaveEntities(names: EntityMap<Name>) returns (r: Option<seq<byte>>)
    ensures r.Some? <==> EntitiesFit(names.id2str)
    ensures r.Some? ==> r.value == EntityImage(names.id2str)
  {
    hide LE4, Str;
    var enc := new BinaryEncoder();
    var ok := enc.Add4B(|names.id2str|);
    if !ok { return None; }
    var i := 0;
    ghost var head := enc.data;
    assert head == LE4(|names.id2str|) && names.id2str[..0] == [];
    while i < |names.id2str|
      invariant 0 <= i <= |names.id2str| && (forall k :: 0 <= k < i ==> Short(names.id2str[k]))
      invariant enc.data == head + Names(names.id2str[..i])
    {
      ok := enc.AddStr(names.id2str[i]);
      if !ok { return None; }
      assert names.id2str[..i + 1][..i] == names.id2str[..i];
      i := i + 1;
    }
    assert names.id2str[..i] == names.id2str;
    r := Some(enc.data);
  }

  /** The names one after another between two positions. */
  ghost predicate NamesIn(buffer: seq<byte>, p: nat, ns: seq<Name>, q: nat)
  {
    if ns == [] then p == q else
      var front, last := ns[..|ns| - 1], ns[|ns| - 1];
      exists m: nat :: NamesIn(buffer, p, front, m) && StrIn(buffer, m, last, q)
  }

  lemma NamesInMore(buffer: seq<byte>, p: nat, ns: seq<Name>, m: nat, s: Name, q: nat)
    requires NamesIn(buffer, p, ns, m) && StrIn(buffer, m, s, q)
    ensures NamesIn(buffer, p, ns + [s], q)
  {
    hide StrIn;
    assert (ns + [s])[..|ns|] == ns;
  }

  /** Exactly the names have numbers: each the place where it first stands. */
  ghost predicate Firsts(str2id: map<Name, nat>, ns: seq<Name>)
  {
    && (forall i :: 0 <= i < |ns| ==> ns[i] in str2id && str2id[ns[i]] <= i)
    && (forall s :: s in str2id ==> str2id[s] < |ns| && ns[str2id[s]] == s)
  }

  lemma FirstsNext(str2id: map<Name, nat>, ns: seq<Name>, s: Name)
    requires Firsts(str2id, ns)
    ensures Firsts(if s in str2id then str2id else str2id[s := |ns|], ns + [s])
  {
  }

  /** The whole buffer is a number of names and these names. */
  ghost predicate ReadsNames(buffer: seq<byte>, ns: seq<Name>)
  {
    |ns| < WORD && At(buffer, 0, LE4(|ns|)) && NamesIn(buffer, 4, ns, |buffer|)
  }

  /** entity_map::load: the names in order, and the inverse table; the first of equal names wins. It accepts
      a buffer only if nothing is left of it. */
  method LoadEntities(buffer: seq<byte>, ghost saved: seq<Name>) returns (names: EntityMap<Name>, ok: bool)
    ensures ok ==> ReadsNames(buffer, names.id2str) && Firsts(names.str2id, names.id2str)
    ensures EntitiesFit(saved) && buffer == EntityImage(saved) &&
            (forall i, j :: 0 <= i < j < |saved| ==> saved[i] != saved[j])
            ==> ok && names.Valid() && names.id2str == saved
  {
    hide LE4, Str, Names, At, Inverse, StrIn, NamesIn, Firsts;
    ghost var good := EntitiesFit(saved) && buffer == EntityImage(saved) &&
        (forall i, j :: 0 <= i < j < |saved| ==> saved[i] != saved[j]);
    names := new EntityMap();
    var data := new BinaryDecoder(buffer);
    if good {
      WholeAt(buffer);
      AtSplit(buffer, 0, LE4(|saved|), Names(saved));
    }
    var n := data.Next4B();
    if n.None? { return names, false; }
    assert good ==> n.value == |saved| && data.pos == 4 && At(buffer, 4, Names(saved));
    NoNames();
    assert saved[..0] == [];
    assert NamesIn(buffer, 4, [], 4) && Firsts(map[], []) by { NothingRead(buffer); }
    var i := 0;
    while i < n.value
      invariant |names.id2str| == i && data.pos <= |buffer|
      invariant NamesIn(buffer, 4, names.id2str, data.pos) && Firsts(names.str2id, names.id2str)
      invariant 0 <= i <= n.value && data.Valid() && data.buffer == buffer && fresh(data) && fresh(names)
      invariant good ==>
                names.Valid() && i <= |saved| && names.id2str == saved[..i] && data.pos == 4 + |Names(saved[..i])|
    {
      ghost var expected: Name := if good then saved[i] else [];
      if good {
        NamesAt(buffer, 4, saved, i);
        NamesSnoc(saved, i);
        InverseNext(names.str2id, names.id2str, saved, i);
      }
      ghost var at := data.pos;
      var name := data.NextStr(expected);
      if name.None? { return names, false; }
      NamesInMore(buffer, 4, names.id2str, at, name.value, data.pos);
      FirstsNext(names.str2id, names.id2str, name.value);
      if name.value !in names.str2id { names.str2id := names.str2id[name.value := i]; }
      names.id2str := names.id2str + [name.value];
      i := i + 1;
    }
    assert good ==> saved[..i] == saved;
    ok := data.IsEnd();
  }

  lemma NothingRead(buffer: seq<byte>)
    ensures NamesIn(buffer, 4, [], 4) && Firsts(map[], [])
  {
  }

  /** A name that differs from all before it is new to both tables. */
  lemma InverseNext(str2id: map<Name, nat>, id2str: seq<Name>, saved: seq<Name>, i: nat)
    requires Inverse(str2id, id2str) && i < |saved| && id2str == saved[..i]
    requires forall j, k :: 0 <= j < k < |saved| ==> saved[j] != saved[k]
    ensures saved[i] !in str2id && Inverse(str2id[saved[i] := i], id2str + [saved[i]])
    ensures id2str + [saved[i]] == saved[..i + 1]
  {
    if saved[i] in str2id { assert false; }
  }

  lemma NoNames()
    ensures Names([]) == []
  {
  }

  lemma WholeAt(buffer: seq<byte>)
    ensures At(buffer, 0, buffer)
  {
    assert buffer[0..|buffer|] == buffer;
  }

  // ------------------------------------------------------------ key map

  datatype Entry = Entry(key: Name, id: nat)

  ghost predicate EntryFits(e: Entry) { |e.key| < WORD && e.id < WORD }

  ghost function EntryImage(e: Entry): seq<byte>
    requires EntryFits(e)
  {
    Str(e.key) + LE4(e.id)
  }

  ghost function Entries(es: seq<Entry>): seq<byte>
    requires forall i :: 0 <= i < |es| ==> EntryFits(es[i])
  {
    if es == [] then [] else
      assert EntryFits(es[|es| - 1]);
      Entries(es[..|es| - 1]) + EntryImage(es[|es| - 1])
  }

  ghost function MapOf(es: seq<Entry>): map<Name, nat>
  {
    if es == [] then map[] else
      var m := MapOf(es[..|es| - 1]);
      var e := es[|es| - 1];
      if e.key in m then m else m[e.key := e.id]
  }

  ghost predicate DistinctKeys(es: seq<Entry>) { forall i, j :: 0 <= i < j < |es| ==> es[i].key != es[j].key }

  /** The list holds exactly the entries of the map, each once. */
  ghost predicate Lists(es: seq<Entry>, m: map<Name, nat>)
  {
    && DistinctKeys(es)
    && (forall i :: 0 <= i < |es| ==> es[i].key in m && m[es[i].key] == es[i].id)
    && (forall k :: k in m ==> Entry(k, m[k]) in es)
  }

  /** Inserting entries with distinct keys one after another gives the map with exactly these entries. */
  lemma {:induction false} MapOfIs(es: seq<Entry>)
    requires DistinctKeys(es)
    ensures forall i :: 0 <= i < |es| ==> es[i].key in MapOf(es) && MapOf(es)[es[i].key] == es[i].id
    ensures forall k :: k in MapOf(es) ==> exists i :: 0 <= i < |es| && es[i].key == k
    decreases |es|
  {
    if es != [] {
      var n := |es| - 1;
      var m := MapOf(es[..n]);
      MapOfIs(es[..n]);
      forall i | 0 <= i < |es| ensures es[i].key in MapOf(es) && MapOf(es)[es[i].key] == es[i].id {
        if i < n { assert es[..n][i] == es[i]; }
      }
      forall k | k in MapOf(es) ensures exists i :: 0 <= i < |es| && es[i].key == k {
        if k in m {
          var i :| 0 <= i < n && es[..n][i].key == k;
          assert es[i].key == k;
        } else {
          assert es[n].key == k;
        }
      }
    }
  }

  /** Any listing of a map's entries gives the map. */
  lemma ListingGivesMap(es: seq<Entry>, m: map<Name, nat>)
    requires Lists(es, m)
    ensures MapOf(es) == m
  {
    MapOfIs(es);
    forall k | k in m ensures k in MapOf(es) && MapOf(es)[k] == m[k] {
      var i :| 0 <= i < |es| && es[i] == Entry(k, m[k]);
      assert es[i].key == k;
    }
  }

  // The order of saved keys: by bytes, as strings compare.

  predicate Before(a: Name, b: Name)
  {
    b != [] && (a == [] || a[0] < b[0] || (a[0] == b[0] && Before(a[1..], b[1..])))
  }

  lemma {:induction false} BeforeTotal(a: Name, b: Name)
    requires a != b
    ensures Before(a, b) <==> !Before(b, a)
  {
    if a != [] && b != [] && a[0] == b[0] {
      assert a == [a[0]] + a[1..] && b == [b[0]] + b[1..];
      BeforeTotal(a[1..], b[1..]);
    }
  }

  lemma {:induction false} BeforeTrans(a: Name, b: Name, c: Name)
    requires Before(a, b) && Before(b, c)
    ensures Before(a, c)
  {
    if a != [] && a[0] == b[0] == c[0] { BeforeTrans(a[1..], b[1..], c[1..]); }
  }

  /** One key stands before another if it is a proper beginning of it, or if they differ first in a lower byte. */
  lemma {:induction false} BeforeMeans(a: Name, b: Name)
    ensures Before(a, b) <==> exists k: nat :: FirstLower(a, b, k)
  {
    forall k: nat | FirstLower(a, b, k) ensures b != [] && (a == [] || a[0] <= b[0]) { LowerHead(a, b, k); }
    if a != [] && b != [] && a[0] == b[0] {
      BeforeMeans(a[1..], b[1..]);
      if k: nat :| FirstLower(a[1..], b[1..], k) {
        assert a[..k + 1] == [a[0]] + a[1..][..k] && b[..k + 1] == [b[0]] + b[1..][..k];
        assert FirstLower(a, b, k + 1);
      }
      if k: nat :| FirstLower(a, b, k) {
        assert k > 0 && a[1..][..k - 1] == a[..k][1..] && b[1..][..k - 1] == b[..k][1..];
        assert FirstLower(a[1..], b[1..], k - 1);
      }
    } else if Before(a, b) {
      assert FirstLower(a, b, 0);
    }
  }

  lemma LowerHead(a: Name, b: Name, k: nat)
    requires FirstLower(a, b, k)
    ensures b != [] && (a == [] || a[0] <= b[0])
  {
    if k > 0 { assert a[..k][0] == b[..k][0]; }
  }

  ghost predicate FirstLower(a: Name, b: Name, k: nat)
  {
    k <= |a| && k < |b| && a[..k] == b[..k] && (k == |a| || a[k] < b[k])
  }

  ghost predicate InOrder(es: seq<Entry>) { forall i, j :: 0 <= i < j < |es| ==> Before(es[i].key, es[j].key) }

  /** The elements of the map, in no particular order. */
  method Elements(m: map<Name, nat>) returns (es: seq<Entry>)
    ensures Lists(es, m)
  {
    es := [];
    var rest := m.Keys;
    while rest != {}
      invariant rest <= m.Keys && DistinctKeys(es)
      invariant forall i :: 0 <= i < |es| ==> es[i].key in m && m[es[i].key] == es[i].id && es[i].key !in rest
      invariant forall k :: k in m && k !in rest ==> Entry(k, m[k]) in es
      decreases |rest|
    {
      var k :| k in rest;
      es := es + [Entry(k, m[k])];
      rest := rest - {k};
    }
  }

  method InsertEntry(s: seq<Entry>, e: Entry) returns (r: seq<Entry>)
    requires InOrder(s) && forall i :: 0 <= i < |s| ==> s[i].key != e.key
    ensures InOrder(r) && multiset(r) == multiset(s) + multiset{e}
  {
    var i: nat := 0;
    while i < |s| && Before(s[i].key, e.key)
      invariant i <= |s| && forall j :: 0 <= j < i ==> Before(s[j].key, e.key)
    {
      i := i + 1;
    }
    if i < |s| {
      BeforeTotal(s[i].key, e.key);
      forall k | i < k < |s| ensures Before(e.key, s[k].key) { BeforeTrans(e.key, s[i].key, s[k].key); }
    }
    r := s[..i] + [e] + s[i..];
    InsertedOrder(s, e, i);
    InsertedBag(s, e, i);
  }

  lemma InsertedOrder(s: seq<Entry>, e: Entry, i: nat)
    requires InOrder(s) && i <= |s|
    requires forall j :: 0 <= j < i ==> Before(s[j].key, e.key)
    requires forall j :: i <= j < |s| ==> Before(e.key, s[j].key)
    ensures InOrder(s[..i] + [e] + s[i..])
  {
    hide Before;
    var r := s[..i] + [e] + s[i..];
    forall j, k | 0 <= j < k < |r| ensures Before(r[j].key, r[k].key) {
      InsertedAt(s, e, i, j);
      InsertedAt(s, e, i, k);
    }
  }

  lemma InsertedAt(s: seq<Entry>, e: Entry, i: nat, k: nat)
    requires i <= |s| && k <= |s|
    ensures (s[..i] + [e] + s[i..])[k] == if k < i then s[k] else if k == i then e else s[k - 1]
  {
  }

  lemma InsertedBag(s: seq<Entry>, e: Entry, i: nat)
    requires i <= |s|
    ensures multiset(s[..i] + [e] + s[i..]) == multiset(s) + multiset{e}
  {
    assert s == s[..i] + s[i..];
  }

  /** The standard library's sort, which is a sorted insertion here. */
  method SortEntries(es: seq<Entry>) returns (r: seq<Entry>)
    requires DistinctKeys(es)
    ensures InOrder(r) && multiset(r) == multiset(es)
  {
    r := [];
    var k := 0;
    while k < |es|
      invariant 0 <= k <= |es| && InOrder(r) && multiset(r) == multiset(es[..k])
    {
      assert es[..k + 1] == es[..k] + [es[k]];
      forall i | 0 <= i < |r| ensures r[i].key != es[k].key {
        assert r[i] in multiset(r);
        assert r[i] in es[..k];
      }
      r := InsertEntry(r, es[k]);
      k := k + 1;
    }
    assert es[..k] == es;
  }

  lemma {:induction false} BeforeSelf(a: Name)
    ensures !Before(a, a)
  {
    if a != [] { BeforeSelf(a[1..]); }
  }

  /** A sorted listing is a listing. */
  lemma SortedLists(es: seq<Entry>, r: seq<Entry>, m: map<Name, nat>)
    requires Lists(es, m) && InOrder(r) && multiset(r) == multiset(es)
    ensures Lists(r, m)
  {
    forall i, j | 0 <= i < j < |r| ensures r[i].key != r[j].key { BeforeSelf(r[i].key); }
    forall i | 0 <= i < |r| ensures r[i].key in m && m[r[i].key] == r[i].id { assert r[i] in multiset(es); }
    forall k | k in m ensures Entry(k, m[k]) in r { assert Entry(k, m[k]) in multiset(r); }
  }

  ghost predicate KeysFit(window: nat, buckets: nat, es: seq<Entry>)
  {
    window < WORD && buckets < WORD && |es| < WORD && forall i :: 0 <= i < |es| ==> EntryFits(es[i])
  }

  ghost function KeyImage(window: nat, buckets: nat, es: seq<Entry>): seq<byte>
    requires KeysFit(window, buckets, es)
  {
    LE4(window) + (LE4(buckets) + (LE4(|es|) + Entries(es)))
  }

  lemma {:induction false} EntriesAt(buffer: seq<byte>, p: nat, es: seq<Entry>, k: nat)
    requires k < |es| && (forall i :: 0 <= i < |es| ==> EntryFits(es[i])) && At(buffer, p, Entries(es))
    ensures At(buffer, p + |Entries(es[..k])|, EntryImage(es[k])) &&
            |Entries(es[..k + 1])| == |Entries(es[..k])| + |EntryImage(es[k])|
    decreases |es|
  {
    hide EntryImage;
    var m := |es| - 1;
    AtSplit(buffer, p, Entries(es[..m]), EntryImage(es[m]));
    assert es[..k + 1][..k] == es[..k];
    if k < m {
      EntriesAt(buffer, p, es[..m], k);
      assert es[..m][..k] == es[..k] && es[..m][..k + 1] == es[..k + 1];
    } else {
      assert es[..k + 1] == es;
    }
  }

  /** feature_processor::save: the entries of the map, in the order of their keys. */
  method SaveKeys(window: nat, buckets: nat, m: map<Name, nat>) returns (r: Option<seq<byte>>, ghost saved: seq<Entry>)
    ensures Lists(saved, m) && InOrder(saved)
    ensures r.Some? <==> KeysFit(window, buckets, saved)
    ensures r.Some? ==> r.value == KeyImage(window, buckets, saved)
  {
    hide Lists, InOrder, KeysFit, KeyImage;
    var elements := Elements(m);
    ListsDistinct(elements, m);
    var es := SortEntries(elements);
    SortedLists(elements, es, m);
    saved := es;
    r := WriteKeys(window, buckets, es);
  }

  method WriteKeys(window: nat, buckets: nat, es: seq<Entry>) returns (r: Option<seq<byte>>)
    ensures r.Some? <==> KeysFit(window, buckets, es)
    ensures r.Some? ==> r.value == KeyImage(window, buckets, es)
  {
    hide LE4, Entries, EntryFits;
    var enc := new BinaryEncoder();
    var ok := enc.Add4B(window);
    if !ok { return None; }
    ok := enc.Add4B(buckets);
    if !ok { return None; }
    ok := enc.Add4B(|es|);
    if !ok { return None; }
    ghost var head := LE4(window) + LE4(buckets) + LE4(|es|);
    assert enc.data == head;
    ok := SaveEntries(enc, es);
    if !ok { return None; }
    Regrouped(LE4(window), LE4(buckets), LE4(|es|), Entries(es));
    r := Some(enc.data);
  }

  lemma Regrouped(a: seq<byte>, b: seq<byte>, c: seq<byte>, d: seq<byte>)
    ensures a + b + c + d == a + (b + (c + d))
  {
  }

  lemma ListsDistinct(es: seq<Entry>, m: map<Name, nat>)
    requires Lists(es, m)
    ensures DistinctKeys(es)
  {
  }

  method SaveEntries(enc: BinaryEncoder, elements: seq<Entry>) returns (ok: bool)
    modifies enc
    ensures ok <==> forall k :: 0 <= k < |elements| ==> EntryFits(elements[k])
    ensures ok ==> enc.data == old(enc.data) + Entries(elements)
  {
    hide Entries, EntryImage, EntryFits;
    ghost var head := enc.data;
    var i := 0;
    assert elements[..0] == [];
    NoEntries();
    while i < |elements|
      invariant 0 <= i <= |elements| && (forall k :: 0 <= k < i ==> EntryFits(elements[k]))
      invariant enc.data == head + Entries(elements[..i])
    {
      ok := SaveEntry(enc, elements[i]);
      if !ok { return; }
      EntriesMore(elements, i);
      Assoc(head, Entries(elements[..i]), EntryImage(elements[i]));
      i := i + 1;
    }
    assert elements[..i] == elements;
    ok := true;
  }

  method SaveEntry(enc: BinaryEncoder, e: Entry) returns (ok: bool)
    modifies enc
    ensures ok <==> EntryFits(e)
    ensures ok ==> enc.data == old(enc.data) + EntryImage(e)
  {
    hide LE4, Str;
    ok := enc.AddStr(e.key);
    if !ok { return; }
    ok := enc.Add4B(e.id);
    if ok { Assoc(old(enc.data), Str(e.key), LE4(e.id)); }
  }

  lemma Assoc(a: seq<byte>, b: seq<byte>, c: seq<byte>)
    ensures a + b + c == a + (b + c)
  {
  }

  lemma EntriesMore(es: seq<Entry>, k: nat)
    requires k < |es| && forall i :: 0 <= i <= k ==> EntryFits(es[i])
    ensures Entries(es[..k + 1]) == Entries(es[..k]) + EntryImage(es[k])
  {
    assert es[..k + 1][..k] == es[..k];
  }

  /** An entry between two positions: its key and its number. */
  ghost predicate EntryIn(buffer: seq<byte>, p: nat, e: Entry, q: nat)
  {
    q >= 4 && e.id < WORD && StrIn(buffer, p, e.key, q - 4) && At(buffer, q - 4, LE4(e.id))
  }

  ghost predicate EntriesIn(buffer: seq<byte>, p: nat, es: seq<Entry>, q: nat)
  {
    if es == [] then p == q else
      var front, last := es[..|es| - 1], es[|es| - 1];
      exists m: nat :: EntriesIn(buffer, p, front, m) && EntryIn(buffer, m, last, q)
  }

  lemma EntriesInMore(buffer: seq<byte>, p: nat, es: seq<Entry>, m: nat, e: Entry, q: nat)
    requires EntriesIn(buffer, p, es, m) && EntryIn(buffer, m, e, q)
    ensures EntriesIn(buffer, p, es + [e], q)
    ensures MapOf(es + [e]) == if e.key in MapOf(es) then MapOf(es) else MapOf(es)[e.key := e.id]
  {
    hide EntryIn;
    assert (es + [e])[..|es|] == es;
  }

  /** A window, some number and a number of entries, and these entries, the first of each key kept. */
  ghost predicate KeysIn(buffer: seq<byte>, p: nat, window: nat, keys: map<Name, nat>, q: nat)
  {
    var at := p + 8;
    window < WORD && At(buffer, p, LE4(window)) && at <= |buffer| && exists es :: ListedIn(buffer, at, es, keys, q)
  }

  ghost predicate ListedIn(buffer: seq<byte>, p: nat, es: seq<Entry>, keys: map<Name, nat>, q: nat)
  {
    |es| < WORD && At(buffer, p, LE4(|es|)) && EntriesIn(buffer, p + 4, es, q) && keys == MapOf(es)
  }

  /** One entry. */
  method NextEntry(data: BinaryDecoder, ghost e: Entry) returns (r: Option<Entry>)
    requires data.Valid()
    modifies data
    ensures data.Valid()
    ensures EntryFits(e) && At(data.buffer, old(data.pos), EntryImage(e)) ==>
            r == Some(e) && data.pos == old(data.pos) + |EntryImage(e)|
    ensures r.Some? ==> EntryIn(data.buffer, old(data.pos), r.value, data.pos)
  {
    hide LE4, Str;
    ghost var good := EntryFits(e) && At(data.buffer, data.pos, EntryImage(e));
    if good { AtSplit(data.buffer, data.pos, Str(e.key), LE4(e.id)); }
    var key := data.NextStr(e.key);
    if key.None? { return None; }
    var id := data.Next4B();
    if id.None? { return None; }
    r := Some(Entry(key.value, id.value));
  }

  /** feature_processor::load, from a decoder that more processors follow in: any listing of a map's
      entries restores the map. */
  method LoadKeys(data: BinaryDecoder, ghost window0: nat, ghost buckets: nat, ghost saved: seq<Entry>,
                  ghost m: map<Name, nat>)
    returns (ok: bool, window: nat, keys: map<Name, nat>)
    requires data.Valid()
    modifies data
    ensures data.Valid()
    ensures Lists(saved, m) && KeysFit(window0, buckets, saved) &&
            At(data.buffer, old(data.pos), KeyImage(window0, buckets, saved))
            ==> ok && window == window0 && keys == m && data.pos == old(data.pos) + |KeyImage(window0, buckets, saved)|
    ensures ok ==> KeysIn(data.buffer, old(data.pos), window, keys, data.pos)
  {
    hide LE4, Entries, EntryImage, Lists, MapOf, EntriesIn;
    ghost var p := data.pos;
    ghost var good := Lists(saved, m) && KeysFit(window0, buckets, saved) &&
        At(data.buffer, p, KeyImage(window0, buckets, saved));
    if good {
      KeyParts(data.buffer, p, window0, buckets, saved);
      ListingGivesMap(saved, m);
    }
    ok, window, keys := false, 0, map[];
    var w := data.Next4B();
    if w.None? { return; }
    window := w.value;
    var b := data.Next4B();
    if b.None? { return; }
    var n := data.Next4B();
    if n.None? { return; }
    ghost var es;
    ok, keys, es := LoadEntries(data, n.value, saved, good);
    assert ok ==> ListedIn(data.buffer, p + 8, es, keys, data.pos);
  }

  lemma KeyParts(buffer: seq<byte>, p: nat, window: nat, buckets: nat, es: seq<Entry>)
    requires KeysFit(window, buckets, es) && At(buffer, p, KeyImage(window, buckets, es))
    ensures At(buffer, p, LE4(window)) && At(buffer, p + 4, LE4(buckets)) && At(buffer, p + 8, LE4(|es|)) &&
            At(buffer, p + 12, Entries(es))
    ensures |KeyImage(window, buckets, es)| == 12 + |Entries(es)|
  {
    hide LE4, Entries;
    AtSplit(buffer, p, LE4(window), LE4(buckets) + (LE4(|es|) + Entries(es)));
    AtSplit(buffer, p + 4, LE4(buckets), LE4(|es|) + Entries(es));
    AtSplit(buffer, p + 8, LE4(|es|), Entries(es));
  }

  method LoadEntries(data: BinaryDecoder, n: nat, ghost saved: seq<Entry>, ghost good: bool)
    returns (ok: bool, keys: map<Name, nat>, ghost es: seq<Entry>)
    requires data.Valid()
    requires good ==>
             (forall i :: 0 <= i < |saved| ==> EntryFits(saved[i])) && n == |saved| &&
                 At(data.buffer, data.pos, Entries(saved))
    modifies data
    ensures data.Valid()
    ensures good ==> ok && keys == MapOf(saved) && data.pos == old(data.pos) + |Entries(saved)|
    ensures ok ==> |es| == n && EntriesIn(data.buffer, old(data.pos), es, data.pos) && keys == MapOf(es)
  {
    NoEntries();
    EntriesInNone(data.buffer, data.pos);
    hide EntryImage, Entries, EntriesIn, EntryIn, MapOf, At;
    ghost var p := data.pos;
    ok, keys, es := false, map[], [];
    NoneTaken(saved);
    var i := n;
    while i > 0
      invariant 0 <= i <= n && data.Valid() && n - i == |es|
      invariant good ==> n == |saved| && Taken(saved, es, p, data.pos)
      invariant EntriesIn(data.buffer, p, es, data.pos) && keys == MapOf(es)
    {
      hide Taken;
      var e;
      e, keys, es := NextKey(data, p, keys, es, saved, good);
      if e.None? { return; }
      i := i - 1;
    }
    AllTaken(saved, n);
    ok := true;
  }

  /** The first entries of the list, and the place behind them. */
  ghost predicate Taken(saved: seq<Entry>, es: seq<Entry>, p: nat, q: nat)
    requires forall i :: 0 <= i < |saved| ==> EntryFits(saved[i])
  {
    |es| <= |saved| && es == saved[..|es|] && q == p + |Entries(saved[..|es|])|
  }

  /** The entry that comes next of a list that is there. */
  lemma NextIs(buffer: seq<byte>, p: nat, saved: seq<Entry>, es: seq<Entry>, q: nat)
    requires (forall i :: 0 <= i < |saved| ==> EntryFits(saved[i])) && At(buffer, p, Entries(saved))
    requires |es| < |saved| && Taken(saved, es, p, q)
    ensures At(buffer, q, EntryImage(saved[|es|]))
    ensures Taken(saved, es + [saved[|es|]], p, q + |EntryImage(saved[|es|])|)
  {
    hide At, EntryImage, Entries;
    EntriesAt(buffer, p, saved, |es|);
    assert saved[..|es| + 1] == saved[..|es|] + [saved[|es|]];
  }

  /** One entry, kept if its key is new. */
  method NextKey(data: BinaryDecoder, ghost p: nat, keys: map<Name, nat>, ghost es: seq<Entry>,
                 ghost saved: seq<Entry>, ghost good: bool)
    returns (e: Option<Entry>, keys': map<Name, nat>, ghost es': seq<Entry>)
    requires data.Valid() && EntriesIn(data.buffer, p, es, data.pos) && keys == MapOf(es)
    requires good ==>
             (forall i :: 0 <= i < |saved| ==> EntryFits(saved[i])) && At(data.buffer, p, Entries(saved)) &&
             |es| < |saved| && Taken(saved, es, p, data.pos)
    modifies data
    ensures data.Valid()
    ensures good ==> e.Some? && Taken(saved, es', p, data.pos)
    ensures e.Some? ==> |es'| == |es| + 1 && EntriesIn(data.buffer, p, es', data.pos) && keys' == MapOf(es')
  {
    hide EntryImage, EntryIn, EntriesIn, Taken, Entries, MapOf, At;
    if good { NextIs(data.buffer, p, saved, es, data.pos); }
    ghost var at := data.pos;
    keys', es' := keys, es;
    e := NextEntry(data, if good then saved[|es|] else Entry([], 0));
    if e.None? { return; }
    EntriesInMore(data.buffer, p, es, at, e.value, data.pos);
    es' := es + [e.value];
    if e.value.key !in keys { keys' := keys[e.value.key := e.value.id]; }
  }

  lemma AllTaken<T>(s: seq<T>, n: nat)
    ensures n == |s| ==> s[..n] == s
  {
  }

  lemma NoneTaken<T>(s: seq<T>)
    ensures s[..0] == []
  {
  }

  lemma EntriesInNone(buffer: seq<byte>, p: nat)
    ensures EntriesIn(buffer, p, [], p)
  {
  }

  lemma NoEntries()
    ensures Entries([]) == [] && MapOf([]) == map[]
  {
  }

  /** When saving succeeds: every number has room in its four bytes. */
  ghost predicate MapFits(window: nat, buckets: nat, m: map<Name, nat>)
  {
    window < WORD && buckets < WORD && |m| < WORD && forall k :: k in m ==> EntryFits(Entry(k, m[k]))
  }

  lemma MapFitsIs(window: nat, buckets: nat, es: seq<Entry>, m: map<Name, nat>)
    requires Lists(es, m)
    ensures KeysFit(window, buckets, es) <==> MapFits(window, buckets, m)
  {
    ListSize(es, m);
    if KeysFit(window, buckets, es) {
      forall k | k in m ensures EntryFits(Entry(k, m[k])) {
        var i :| 0 <= i < |es| && es[i] == Entry(k, m[k]);
      }
    }
    if MapFits(window, buckets, m) {
      forall i | 0 <= i < |es| ensures EntryFits(es[i]) { assert es[i] == Entry(es[i].key, m[es[i].key]); }
    }
  }

  /** A listing has as many entries as the map. */
  lemma {:induction false} ListSize(es: seq<Entry>, m: map<Name, nat>)
    requires Lists(es, m)
    ensures |es| == |m|
    decreases |es|
  {
    if es == [] {
      assert m == map[];
    } else {
      ListLess(es, m);
      var last := es[|es| - 1].key;
      hide Lists;
      ListSize(es[..|es| - 1], m - {last});
      MapLess(m, last);
    }
  }

  /** Without its last entry a listing is one of the map without that key. */
  lemma ListLess(es: seq<Entry>, m: map<Name, nat>)
    requires Lists(es, m) && es != []
    ensures es[|es| - 1].key in m && Lists(es[..|es| - 1], m - {es[|es| - 1].key})
  {
    var n, rest := |es| - 1, m - {es[|es| - 1].key};
    forall j | j in rest ensures Entry(j, rest[j]) in es[..n] {
      var i :| 0 <= i < |es| && es[i] == Entry(j, m[j]);
      assert es[..n][i] == es[i];
    }
  }

  lemma MapLess(m: map<Name, nat>, k: Name)
    requires k in m
    ensures |m| == |m - {k}| + 1
  {
    assert (m - {k}).Keys == m.Keys - {k};
    assert |m| == |m.Keys| && |m - {k}| == |(m - {k}).Keys|;
  }

  /** A processor's keys, saved and loaded, are the same map, and exactly what was written is used up. */
  method KeysRoundTrip(window: nat, buckets: nat, m: map<Name, nat>, rest: seq<byte>)
    returns (saved: bool, window': nat, keys: map<Name, nat>, left: seq<byte>)
    ensures saved ==> window' == window && keys == m && left == rest
    ensures saved <==> MapFits(window, buckets, m)
  {
    hide Lists, InOrder, KeysFit, KeyImage;
    var image, es := SaveKeys(window, buckets, m);
    MapFitsIs(window, buckets, es, m);
    saved, window', keys, left := image.Some?, 0, map[], [];
    if saved {
      var data := new BinaryDecoder(image.value + rest);
      AtSplit(data.buffer, 0, image.value, rest);
      WholeAt(data.buffer);
      var ok;
      ok, window', keys := LoadKeys(data, window, buckets, es, m);
      left := data.buffer[data.pos..];
    }
  }

  // ------------------------------------------------------------ matrices

  /** A row of numbers of w bytes each, as they lie in memory. */
  type MemoryRow = seq<seq<byte>>

  ghost predicate RowFits(row: MemoryRow, w: nat) { |row| < 0x1_0000 && forall i :: 0 <= i < |row| ==> |row[i]| == w }

  function Flat(row: MemoryRow): seq<byte> { if row == [] then [] else Flat(row[..|row| - 1]) + row[|row| - 1] }

  ghost function RowImage(row: MemoryRow, w: nat): seq<byte>
    requires RowFits(row, w)
  {
    LE2(|row|) + Flat(row)
  }

  ghost predicate MatrixFits(m: seq<MemoryRow>, w: nat) { |m| < WORD && forall r :: 0 <= r < |m| ==> RowFits(m[r], w) }

  ghost function Rows(m: seq<MemoryRow>, w: nat): seq<byte>
    requires forall r :: 0 <= r < |m| ==> RowFits(m[r], w)
  {
    if m == [] then [] else
      assert RowFits(m[|m| - 1], w);
      Rows(m[..|m| - 1], w) + RowImage(m[|m| - 1], w)
  }

  ghost function MatrixImage(m: seq<MemoryRow>, w: nat): seq<byte>
    requires MatrixFits(m, w)
  {
    LE4(|m|) + Rows(m, w)
  }

  lemma {:induction false} RowsAt(buffer: seq<byte>, p: nat, m: seq<MemoryRow>, w: nat, k: nat)
    requires k < |m| && (forall r :: 0 <= r < |m| ==> RowFits(m[r], w)) && At(buffer, p, Rows(m, w))
    ensures RowFits(m[k], w) && At(buffer, p + |Rows(m[..k], w)|, RowImage(m[k], w)) &&
            |Rows(m[..k + 1], w)| == |Rows(m[..k], w)| + |RowImage(m[k], w)|
    decreases |m|
  {
    hide RowImage, RowFits;
    var n := |m| - 1;
    AtSplit(buffer, p, Rows(m[..n], w), RowImage(m[n], w));
    assert m[..k + 1][..k] == m[..k];
    if k < n {
      RowsAt(buffer, p, m[..n], w, k);
      assert m[..n][..k] == m[..k] && m[..n][..k + 1] == m[..k + 1];
    } else {
      assert m[..k + 1] == m;
    }
  }

  /** save_matrix; false when a size does not fit its field. */
  method SaveMatrix(enc: BinaryEncoder, m: seq<MemoryRow>, ghost w: nat) returns (ok: bool)
    requires forall r, i :: 0 <= r < |m| && 0 <= i < |m[r]| ==> |m[r][i]| == w
    modifies enc
    ensures ok <==> MatrixFits(m, w)
    ensures ok ==> enc.data == old(enc.data) + MatrixImage(m, w)
  {
    hide LE4, LE2, Flat, Rows;
    NoRows(w);
    ok := enc.Add4B(|m|);
    if !ok { return; }
    ghost var head := old(enc.data);
    var r := 0;
    assert m[..0] == [] && enc.data == head + (LE4(|m|) + Rows(m[..0], w));
    while r < |m|
      invariant 0 <= r <= |m| && ok && (forall k :: 0 <= k < r ==> RowFits(m[k], w))
      invariant enc.data == head + (LE4(|m|) + Rows(m[..r], w))
    {
      ok := enc.Add2B(|m[r]|);
      if !ok { return; }
      enc.AddData(Flat(m[r]));
      RowsMore(m, w, r);
      RowRegrouped(head, LE4(|m|), Rows(m[..r], w), LE2(|m[r]|), Flat(m[r]));
      r := r + 1;
    }
    assert m[..r] == m;
  }

  lemma NoRows(w: nat)
    ensures Rows([], w) == []
  {
  }

  lemma RowsMore(m: seq<MemoryRow>, w: nat, k: nat)
    requires k < |m| && forall r :: 0 <= r <= k ==> RowFits(m[r], w)
    ensures Rows(m[..k + 1], w) == Rows(m[..k], w) + (LE2(|m[k]|) + Flat(m[k]))
  {
    assert m[..k + 1][..k] == m[..k];
  }

  lemma RowRegrouped(a: seq<byte>, b: seq<byte>, c: seq<byte>, d: seq<byte>, e: seq<byte>)
    ensures a + (b + c) + d + e == a + (b + (c + (d + e)))
  {
    Regrouped(a, b + c, d, e);
    Regrouped(b, c, d, e);
  }

  /** Where element i of a row of elements of w bytes begins. */
  function Offset(i: nat, w: nat): nat { i * w }

  ghost predicate RowOf(row: MemoryRow, w: nat, n: nat, bytes: seq<byte>)
  {
    RowFits(row, w) && |row| == n && bytes == Flat(row)
  }

  /** The elements of a row, cut out of its memory. */
  method Cut(bytes: seq<byte>, n: nat, w: nat, ghost row: MemoryRow) returns (r: MemoryRow)
    requires |bytes| == Offset(n, w)
    ensures |r| == n && forall i :: 0 <= i < n ==> |r[i]| == w
    ensures RowOf(row, w, n, bytes) ==> r == row
    ensures Flat(r) == bytes
  {
    hide Offset, RowFits, Flat, RowOf;
    r := [];
    var i, p := 0, 0;
    RowStart(row, w, n, bytes);
    while i < n
      invariant 0 <= i <= n && |r| == i && p == Offset(i, w) && forall k :: 0 <= k < i ==> |r[k]| == w
      invariant RowOf(row, w, n, bytes) ==> |row| == n && r == row[..i]
      invariant p <= |bytes| && Flat(r) == bytes[..p]
    {
      Advance(i, n, w);
      if RowOf(row, w, n, bytes) { ElementAt(row, w, n, bytes, i); }
      FlatSnoc(r, bytes[p..p + w]);
      assert bytes[..p + w] == bytes[..p] + bytes[p..p + w];
      r := r + [bytes[p..p + w]];
      i, p := i + 1, p + w;
    }
    assert RowOf(row, w, n, bytes) ==> row[..n] == row;
    assert bytes[..p] == bytes;
  }

  lemma FlatSnoc(row: MemoryRow, e: seq<byte>)
    ensures Flat([]) == [] && Flat(row + [e]) == Flat(row) + e
  {
    assert (row + [e])[..|row|] == row;
  }

  lemma RowStart(row: MemoryRow, w: nat, n: nat, bytes: seq<byte>)
    ensures Offset(0, w) == 0 && Flat([]) == [] && (RowOf(row, w, n, bytes) ==> |row| == n)
  {
  }

  /** One more element still lies within n of them. */
  lemma {:induction false} Advance(i: nat, n: nat, w: nat)
    requires i < n
    ensures Offset(i + 1, w) == Offset(i, w) + w <= Offset(n, w)
    decreases n - i
  {
    NextOffset(i, w);
    if i + 1 < n {
      hide Offset;
      Advance(i + 1, n, w);
    }
  }

  lemma NextOffset(i: nat, w: nat)
    ensures Offset(i + 1, w) == Offset(i, w) + w
  {
  }

  lemma {:induction false} FlatLength(row: MemoryRow, w: nat)
    requires forall i :: 0 <= i < |row| ==> |row[i]| == w
    ensures |Flat(row)| == Offset(|row|, w)
  {
    if row != [] {
      FlatLength(row[..|row| - 1], w);
      NextOffset(|row| - 1, w);
    }
  }

  lemma ElementAt(row: MemoryRow, w: nat, n: nat, bytes: seq<byte>, k: nat)
    requires RowOf(row, w, n, bytes) && k < n
    ensures |row| == n && Offset(k, w) + w <= |bytes| && bytes[Offset(k, w)..Offset(k, w) + w] == row[k]
  {
    FlatAt(row, w, k);
  }

  lemma {:induction false} FlatAt(row: MemoryRow, w: nat, k: nat)
    requires k < |row| && forall i :: 0 <= i < |row| ==> |row[i]| == w
    ensures Offset(k, w) + w <= |Flat(row)| && Flat(row)[Offset(k, w)..Offset(k, w) + w] == row[k]
    decreases |row|
  {
    hide Offset;
    var n := |row| - 1;
    FlatLength(row[..n], w);
    if k < n {
      FlatAt(row[..n], w, k);
      var p := Offset(k, w);
      assert Flat(row)[p..p + w] == Flat(row[..n])[p..p + w];
    }
  }

  /** A row between two positions. */
  ghost predicate RowIn(buffer: seq<byte>, p: nat, row: MemoryRow, w: nat, q: nat)
  {
    RowFits(row, w) && At(buffer, p, RowImage(row, w)) && q == p + |RowImage(row, w)|
  }

  method LoadRow(data: BinaryDecoder, w: nat, ghost row: MemoryRow) returns (r: Option<MemoryRow>)
    requires data.Valid()
    modifies data
    ensures data.Valid()
    ensures RowFits(row, w) && At(data.buffer, old(data.pos), RowImage(row, w)) ==>
            r == Some(row) && data.pos == old(data.pos) + |RowImage(row, w)|
    ensures r.Some? ==> RowIn(data.buffer, old(data.pos), r.value, w, data.pos)
  {
    hide LE2, Flat;
    ghost var p, good := data.pos, RowFits(row, w) && At(data.buffer, data.pos, RowImage(row, w));
    if good {
      AtSplit(data.buffer, data.pos, LE2(|row|), Flat(row));
      FlatLength(row, w);
    }
    var n := data.Next2B();
    if n.None? { return None; }
    var bytes := data.Next(Offset(n.value, w));
    if bytes.None? { return None; }
    var elements := Cut(bytes.value, n.value, w, row);
    RowWhole(data.buffer, p, elements, w);
    r := Some(elements);
  }

  lemma RowWhole(buffer: seq<byte>, p: nat, row: MemoryRow, w: nat)
    requires RowFits(row, w) && At(buffer, p, LE2(|row|)) && At(buffer, p + 2, Flat(row))
    ensures RowIn(buffer, p, row, w, p + 2 + |Flat(row)|)
  {
    hide LE2, Flat;
    AtSplit(buffer, p, LE2(|row|), Flat(row));
  }

  ghost predicate RowsIn(buffer: seq<byte>, p: nat, m: seq<MemoryRow>, w: nat, q: nat)
  {
    (forall r :: 0 <= r < |m| ==> RowFits(m[r], w)) && At(buffer, p, Rows(m, w)) && q == p + |Rows(m, w)|
  }

  lemma RowsInMore(buffer: seq<byte>, p: nat, m: seq<MemoryRow>, w: nat, q: nat, row: MemoryRow, q': nat)
    requires RowsIn(buffer, p, m, w, q) && RowIn(buffer, q, row, w, q')
    ensures RowsIn(buffer, p, m + [row], w, q')
  {
    hide RowFits, RowImage;
    assert (m + [row])[..|m|] == m;
    AtSplit(buffer, p, Rows(m, w), RowImage(row, w));
  }

  lemma RowsInNone(buffer: seq<byte>, p: nat, w: nat)
    ensures p <= |buffer| ==> RowsIn(buffer, p, [], w, p)
  {
  }

  /** The row that comes next of a matrix that is there. */
  lemma NextRow(buffer: seq<byte>, p: nat, m: seq<MemoryRow>, w: nat, k: nat, rows: seq<MemoryRow>, q: nat)
    requires k < |m| && (forall r :: 0 <= r < |m| ==> RowFits(m[r], w)) && At(buffer, p, Rows(m, w))
    requires rows == m[..k] && RowsIn(buffer, p, rows, w, q)
    ensures RowFits(m[k], w) && At(buffer, q, RowImage(m[k], w)) && rows + [m[k]] == m[..k + 1]
  {
    hide At, RowImage, RowFits, Rows;
    RowsAt(buffer, p, m, w, k);
  }

  /** A matrix between two positions. */
  ghost predicate MatrixIn(buffer: seq<byte>, p: nat, m: seq<MemoryRow>, w: nat, q: nat)
  {
    MatrixFits(m, w) && At(buffer, p, MatrixImage(m, w)) && q == p + |MatrixImage(m, w)|
  }

  lemma MatrixWhole(buffer: seq<byte>, p: nat, m: seq<MemoryRow>, w: nat, q: nat)
    requires |m| < WORD && At(buffer, p, LE4(|m|)) && RowsIn(buffer, p + 4, m, w, q)
    ensures MatrixIn(buffer, p, m, w, q)
  {
    hide RowFits, Rows, LE4;
    AtSplit(buffer, p, LE4(|m|), Rows(m, w));
  }

  /** load_matrix. */
  method LoadMatrix(data: BinaryDecoder, w: nat, ghost m: seq<MemoryRow>) returns (r: Option<seq<MemoryRow>>)
    requires data.Valid()
    modifies data
    ensures data.Valid()
    ensures MatrixFits(m, w) && At(data.buffer, old(data.pos), MatrixImage(m, w)) ==>
            r == Some(m) && data.pos == old(data.pos) + |MatrixImage(m, w)|
    ensures r.Some? ==> MatrixIn(data.buffer, old(data.pos), r.value, w, data.pos)
  {
    hide LE4, RowImage, RowsIn, RowIn, RowFits, Rows;
    ghost var p, good := data.pos, MatrixFits(m, w) && At(data.buffer, data.pos, MatrixImage(m, w));
    if good { AtSplit(data.buffer, p, LE4(|m|), Rows(m, w)); }
    var n := data.Next4B();
    if n.None? { return None; }
    var rows: seq<MemoryRow>, k := [], 0;
    NoneTaken(m);
    RowsInNone(data.buffer, p + 4, w);
    while k < n.value
      invariant 0 <= k <= n.value && data.Valid()
      invariant good ==> n.value == |m| && rows == m[..k]
      invariant |rows| == k && RowsIn(data.buffer, p + 4, rows, w, data.pos)
    {
      ghost var expected: MemoryRow := if good then m[k] else [];
      if good { NextRow(data.buffer, p + 4, m, w, k, rows, data.pos); }
      ghost var at := data.pos;
      var row := LoadRow(data, w, expected);
      if row.None? { return None; }
      RowsInMore(data.buffer, p + 4, rows, w, at, row.value, data.pos);
      rows := rows + [row.value];
      k := k + 1;
    }
    AllTaken(m, k);
    MatrixWhole(data.buffer, p, rows, w, data.pos);
    r := Some(rows);
  }

  // ------------------------------------------------------------ the network

  /** The stored part of a network; numbers are their memory, of four or eight bytes. */
  datatype Network = Network(indices: seq<MemoryRow>, missing: seq<byte>, weights: seq<MemoryRow>,
                             hidden: nat, hidden0: seq<MemoryRow>, hidden1: seq<MemoryRow>, outcomes: nat)

  /** Rows of numbers of their width, and no hidden weights without a hidden layer. */
  ghost predicate Sized(n: Network)
  {
    && |n.missing| == 8 && WidthOf(n.indices, 4) && WidthOf(n.weights, 4) && WidthOf(n.hidden0, 4) &&
       WidthOf(n.hidden1, 4)
    && (n.hidden == 0 ==> n.hidden0 == [] && n.hidden1 == [])
  }

  ghost predicate WidthOf(m: seq<MemoryRow>, w: nat)
  {
    forall r, i :: 0 <= r < |m| && 0 <= i < |m[r]| ==> |m[r][i]| == w
  }

  ghost predicate NetworkFits(n: Network)
  {
    Sized(n) && MatrixFits(n.indices, 4) && MatrixFits(n.weights, 4) && n.hidden < 0x1_0000 &&
        MatrixFits(n.hidden0, 4) && MatrixFits(n.hidden1, 4) && n.outcomes < 0x1_0000
  }

  ghost function HiddenImage(n: Network): seq<byte>
    requires NetworkFits(n)
  {
    if n.hidden == 0 then [] else MatrixImage(n.hidden0, 4) + MatrixImage(n.hidden1, 4)
  }

  ghost function NetworkImage(n: Network): seq<byte>
    requires NetworkFits(n)
  {
    MatrixImage(n.indices, 4) + n.missing + MatrixImage(n.weights, 4) + LE2(n.hidden) + HiddenImage(n) + LE2(n.outcomes)
  }

  lemma NetworkParts(n: Network)
    requires NetworkFits(n)
    ensures var (a, b, c, d) :=
            (|MatrixImage(n.indices, 4)|, |MatrixImage(n.weights, 4)|, |HiddenImage(n)|, NetworkImage(n));
            && At(d, 0, MatrixImage(n.indices, 4)) && At(d, a, n.missing) && At(d, a + 8, MatrixImage(n.weights, 4)) &&
               At(d, a + 8 + b, LE2(n.hidden))
            && At(d, a + b + 10, HiddenImage(n)) && At(d, a + b + c + 10, LE2(n.outcomes)) && |d| == a + b + c + 12
  {
    hide MatrixImage, HiddenImage, LE2;
    var s1 := MatrixImage(n.indices, 4);
    var s2 := s1 + n.missing;
    var s3 := s2 + MatrixImage(n.weights, 4);
    var s4 := s3 + LE2(n.hidden);
    var s5 := s4 + HiddenImage(n);
    var d := s5 + LE2(n.outcomes);
    WholeAt(d);
    AtSplit(d, 0, s5, LE2(n.outcomes));
    AtSplit(d, 0, s4, HiddenImage(n));
    AtSplit(d, 0, s3, LE2(n.hidden));
    AtSplit(d, 0, s2, MatrixImage(n.weights, 4));
    AtSplit(d, 0, s1, n.missing);
  }

  /** network_classifier::save, before compression. */
  method SaveNetwork(n: Network) returns (r: Option<seq<byte>>)
    requires Sized(n)
    ensures r.Some? <==> NetworkFits(n)
    ensures r.Some? ==> r.value == NetworkImage(n)
  {
    hide MatrixImage, MatrixFits, LE2, HiddenImage;
    NoMatrix();
    var enc := new BinaryEncoder();
    var ok := SaveMatrix(enc, n.indices, 4);
    if !ok { return None; }
    enc.AddData(n.missing);
    ok := SaveMatrix(enc, n.weights, 4);
    if !ok { return None; }
    ok := enc.Add2B(n.hidden);
    if !ok { return None; }
    ghost var head := enc.data;
    assert head == MatrixImage(n.indices, 4) + n.missing + MatrixImage(n.weights, 4) + LE2(n.hidden);
    ok := SaveHidden(enc, n);
    if !ok { return None; }
    ok := enc.Add2B(n.outcomes);
    if !ok { return None; }
    assert enc.data == head + HiddenImage(n) + LE2(n.outcomes);
    r := Some(enc.data);
  }

  method SaveHidden(enc: BinaryEncoder, n: Network) returns (ok: bool)
    requires Sized(n) && MatrixFits(n.indices, 4) && MatrixFits(n.weights, 4) && n.hidden < 0x1_0000
    modifies enc
    ensures ok <==> MatrixFits(n.hidden0, 4) && MatrixFits(n.hidden1, 4)
    ensures ok && n.outcomes < 0x1_0000 ==> enc.data == old(enc.data) + HiddenImage(n)
  {
    hide MatrixImage, MatrixFits;
    ghost var head := enc.data;
    if n.hidden == 0 {
      NoMatrix();
      assert head + [] == head;
      return true;
    }
    ok := SaveMatrix(enc, n.hidden0, 4);
    if !ok { return; }
    ok := SaveMatrix(enc, n.hidden1, 4);
    if !ok { return; }
    assert enc.data == head + (MatrixImage(n.hidden0, 4) + MatrixImage(n.hidden1, 4));
  }

  lemma NoMatrix()
    ensures MatrixFits([], 4)
  {
  }

  /** network_classifier::load, after decompression: accepts a buffer exactly if it is the image of some
      network, with nothing before or after it, and gives that network. */
  method LoadNetwork(buffer: seq<byte>, ghost saved: Network) returns (r: Option<Network>)
    ensures NetworkFits(saved) && buffer == NetworkImage(saved) ==> r == Some(saved)
    ensures r.Some? ==> NetworkFits(r.value) && buffer == NetworkImage(r.value)
  {
    hide MatrixImage, MatrixIn, MatrixFits, LE2, NetworkImage, HiddenImage, Sized;
    ghost var good := NetworkFits(saved) && buffer == NetworkImage(saved);
    if good {
      NetworkParts(saved);
      MissingSize(saved);
    }
    var data := new BinaryDecoder(buffer);
    var indices := LoadMatrix(data, 4, saved.indices);
    if indices.None? { return None; }
    ghost var a := data.pos;
    var missing := data.Next(8);
    if missing.None? { return None; }
    var weights := LoadMatrix(data, 4, saved.weights);
    if weights.None? { return None; }
    ghost var b := data.pos;
    var hidden := data.Next2B();
    if hidden.None? { return None; }
    var hidden0, hidden1 := LoadHidden(data, hidden.value, saved, good);
    if hidden0.None? || hidden1.None? { return None; }
    ghost var c := data.pos;
    var outcomes := data.Next2B();
    if outcomes.None? { return None; }
    var done := data.IsEnd();
    if !done { return None; }
    var n := Network(indices.value, missing.value, weights.value, hidden.value, hidden0.value, hidden1.value,
        outcomes.value);
    NetworkWhole(buffer, n, a, b, c);
    r := Some(n);
  }

  /** Pieces that follow one another through the whole buffer make up the image. */
  lemma NetworkWhole(buffer: seq<byte>, n: Network, a: nat, b: nat, c: nat)
    requires MatrixIn(buffer, 0, n.indices, 4, a) && At(buffer, a, n.missing) && |n.missing| == 8
    requires MatrixIn(buffer, a + 8, n.weights, 4, b) && n.hidden < 0x1_0000 && At(buffer, b, LE2(n.hidden))
    requires HiddenIn(buffer, b + 2, n.hidden, n.hidden0, n.hidden1, c)
    requires n.outcomes < 0x1_0000 && At(buffer, c, LE2(n.outcomes)) && c + 2 == |buffer|
    ensures NetworkFits(n) && buffer == NetworkImage(n)
  {
    MatrixWidth(n.indices, 4);
    MatrixWidth(n.weights, 4);
    MatrixWidth(n.hidden0, 4);
    MatrixWidth(n.hidden1, 4);
    HiddenWhole(buffer, b + 2, n, c);
    hide MatrixImage, MatrixFits, LE2, WidthOf, At, HiddenImage;
    SixPieces(buffer, MatrixImage(n.indices, 4), n.missing, MatrixImage(n.weights, 4), LE2(n.hidden),
              HiddenImage(n), LE2(n.outcomes));
  }

  lemma HiddenWhole(buffer: seq<byte>, p: nat, n: Network, q: nat)
    requires NetworkFits(n) && HiddenIn(buffer, p, n.hidden, n.hidden0, n.hidden1, q) && q <= |buffer|
    ensures At(buffer, p, HiddenImage(n)) && q == p + |HiddenImage(n)|
  {
    hide MatrixImage, MatrixFits, NetworkFits;
    if n.hidden != 0 { AtSplit(buffer, p, MatrixImage(n.hidden0, 4), MatrixImage(n.hidden1, 4)); }
  }

  lemma SixPieces(buffer: seq<byte>, a: seq<byte>, b: seq<byte>, c: seq<byte>, d: seq<byte>, e: seq<byte>, f: seq<byte>)
    requires At(buffer, 0, a) && At(buffer, |a|, b) && At(buffer, |a| + |b|, c) && At(buffer, |a| + |b| + |c|, d)
    requires At(buffer, |a| + |b| + |c| + |d|, e) && At(buffer, |a| + |b| + |c| + |d| + |e|, f)
    requires |a| + |b| + |c| + |d| + |e| + |f| == |buffer|
    ensures buffer == a + b + c + d + e + f
  {
    hide At;
    AtSplit(buffer, 0, a, b);
    AtSplit(buffer, 0, a + b, c);
    AtSplit(buffer, 0, a + b + c, d);
    AtSplit(buffer, 0, a + b + c + d, e);
    AtSplit(buffer, 0, a + b + c + d + e, f);
    AllOf(buffer, a + b + c + d + e + f);
  }

  lemma AllOf(buffer: seq<byte>, s: seq<byte>)
    requires At(buffer, 0, s) && |s| == |buffer|
    ensures buffer == s
  {
    assert buffer[0..|buffer|] == buffer;
  }

  lemma MatrixWidth(m: seq<MemoryRow>, w: nat)
    ensures MatrixFits(m, w) ==> WidthOf(m, w)
  {
  }

  /** The hidden weights between two positions: nothing without a hidden layer. */
  ghost predicate HiddenIn(buffer: seq<byte>, p: nat, hidden: nat, m0: seq<MemoryRow>, m1: seq<MemoryRow>, q: nat)
  {
    && MatrixFits(m0, 4) && MatrixFits(m1, 4)
    && if hidden == 0 then m0 == [] && m1 == [] && p == q
       else var m := p + |MatrixImage(m0, 4)|; MatrixIn(buffer, p, m0, 4, m) && MatrixIn(buffer, m, m1, 4, q)
  }

  lemma MissingSize(n: Network)
    requires NetworkFits(n)
    ensures |n.missing| == 8
  {
  }

  method LoadHidden(data: BinaryDecoder, hidden: nat, ghost saved: Network, ghost good: bool)
    returns (hidden0: Option<seq<MemoryRow>>, hidden1: Option<seq<MemoryRow>>)
    requires data.Valid() &&
             (good ==> NetworkFits(saved) && hidden == saved.hidden && At(data.buffer, data.pos, HiddenImage(saved)))
    modifies data
    ensures data.Valid()
    ensures hidden0.Some? && hidden1.Some? ==>
            HiddenIn(data.buffer, old(data.pos), hidden, hidden0.value, hidden1.value, data.pos)
    ensures good ==>
            hidden0 == Some(saved.hidden0) && hidden1 == Some(saved.hidden1) &&
                data.pos == old(data.pos) + |HiddenImage(saved)|
  {
    hide MatrixImage, MatrixFits;
    if hidden == 0 {
      NoMatrix();
      return Some([]), Some([]);
    }
    if good { AtSplit(data.buffer, data.pos, MatrixImage(saved.hidden0, 4), MatrixImage(saved.hidden1, 4)); }
    hidden0 := LoadMatrix(data, 4, saved.hidden0);
    if hidden0.None? { return hidden0, None; }
    hidden1 := LoadMatrix(data, 4, saved.hidden1);
  }

  // ------------------------------------------------------------ through the compressor

  /** A network that is saved, compressed along any parse of its bytes, decompressed and loaded is the
      same network, and what follows it in the file is left in place. */
  method NetworkRoundTrip(n: Network, ss: seq<Symbols.Symbol>, rest: seq<byte>)
    returns (saved: bool, loaded: Option<Network>, left: seq<byte>)
    requires Sized(n) && (NetworkFits(n) ==> Compressor.ParsesDefault(NetworkImage(n), ss))
    ensures saved ==> loaded == Some(n) && left == rest
    ensures saved <==> NetworkFits(n) && Compressor.Saves(NetworkImage(n), ss)
  {
    hide Sized, NetworkFits, NetworkImage, Compressor.ParsesDefault, Compressor.Saves;
    var image := SaveNetwork(n);
    if image.None? { return false, None, []; }
    var bytes;
    saved, bytes, left := Compressor.SaveThenLoad(image.value, ss, rest);
    loaded := None;
    if saved { loaded := LoadNetwork(bytes, n); }
  }

  /** The same for the entity map. */
  method EntitiesRoundTrip(names: EntityMap<Name>, ss: seq<Symbols.Symbol>, rest: seq<byte>)
    returns (saved: bool, loaded: EntityMap<Name>, left: seq<byte>)
    requires names.Valid()
    requires EntitiesFit(names.id2str) ==> Compressor.ParsesDefault(EntityImage(names.id2str), ss)
    ensures saved ==> loaded.Valid() && loaded.id2str == names.id2str && left == rest
    ensures saved <==> EntitiesFit(names.id2str) && Compressor.Saves(EntityImage(names.id2str), ss)
  {
    hide EntitiesFit, EntityImage, Compressor.ParsesDefault, Compressor.Saves;
    var image := SaveEntities(names);
    if image.None? { return false, names, []; }
    var bytes;
    saved, bytes, left := Compressor.SaveThenLoad(image.value, ss, rest);
    loaded := names;
    if saved {
      var ok;
      NamesDistinct(names.str2id, names.id2str);
      loaded, ok := LoadEntities(bytes, names.id2str);
    }
  }

  lemma NamesDistinct(str2id: map<Name, nat>, id2str: seq<Name>)
    requires Inverse(str2id, id2str)
    ensures forall i, j :: 0 <= i < j < |id2str| ==> id2str[i] != id2str[j]
  {
    forall i, j | 0 <= i < j < |id2str| ensures id2str[i] != id2str[j] {
      assert str2id[id2str[i]] == i && str2id[id2str[j]] == j;
    }
  }
}
