/** compressor::save and compressor::load: a header with a checksum around an LZMA stream. */
module Compressor {
  import opened Options
  import opened RangeCoder
  import opened BitModels
  import opened Symbols
  import opened Codec
  import opened Encoder
  import opened Decoder
  import opened Decoding
  import opened Runs
  import opened Bytes

  /** What LzmaEncProps_Normalize makes of the properties that compressor::save leaves open. */
  const DEFAULT := Props(3, 0, 2, 0x100_0000)

  // -------------------------------------------------------------- properties

  /** The dictionary size that LzmaEnc_WriteProperties announces: 2 or 3 times a power of two. */
  function AnnouncedSize(dictSize: nat, i: nat): (r: nat)
    requires 11 <= i <= 31
    ensures dictSize <= r
    decreases 31 - i
  {
    if i == 31 then dictSize
    else if dictSize <= 2 * Pow2(i) then 2 * Pow2(i)
    else if dictSize <= 3 * Pow2(i) then 3 * Pow2(i)
    else AnnouncedSize(dictSize, i + 1)
  }

  lemma {:induction false} AnnouncedBound(dictSize: nat, i: nat, k: nat)
    requires 11 <= i <= k <= 30 && dictSize <= 2 * Pow2(k)
    ensures 4096 <= AnnouncedSize(dictSize, i) <= 3 * Pow2(k)
    decreases k - i
  {
    hide Pow2;
    Pow2Eleven();
    Pow2Grows(11, i);
    Pow2Grows(i, k);
    if i < k { AnnouncedBound(dictSize, i + 1, k); }
  }

  lemma Pow2Eleven()
    ensures Pow2(11) == 2048
  {
    assert Pow2(11) == 2 * Pow2(10);
    assert Pow2(5) == 32 && Pow2(10) == 1024;
  }

  lemma DictLimit(dictSize: nat)
    requires dictSize <= 0x800_0000
    ensures 4096 <= AnnouncedSize(dictSize, 11) < WORD
  {
    assert Pow2(8) == 0x100;
    assert Pow2(16) == 0x1_0000;
    assert Pow2(26) == 1024 * Pow2(16) by { Pow2Sum(10, 16); assert Pow2(5) == 32; assert Pow2(10) == 1024; }
    AnnouncedBound(dictSize, 11, 26);
  }

  /** It is the least such size that is large enough. */
  lemma {:induction false} AnnouncedLeast(dictSize: nat, i: nat, k: nat)
    requires 11 <= i <= k <= 30 && dictSize <= 3 * Pow2(k)
    ensures AnnouncedSize(dictSize, i) <= 3 * Pow2(k)
    ensures dictSize <= 2 * Pow2(k) ==> AnnouncedSize(dictSize, i) <= 2 * Pow2(k)
    ensures exists j :: AnnouncedAs(AnnouncedSize(dictSize, i), j)
    decreases k - i
  {
    hide Pow2;
    if dictSize <= 3 * Pow2(i) {
      assert AnnouncedAs(AnnouncedSize(dictSize, i), i);
      if i < k {
        Pow2Twice(i);
        Pow2Grows(i + 1, k);
      }
    } else {
      AnnouncedLeast(dictSize, i + 1, k);
    }
  }

  lemma Pow2Twice(i: nat)
    ensures Pow2(i + 1) == 2 * Pow2(i)
  {
  }

  ghost predicate AnnouncedAs(size: nat, j: nat) { size == 2 * Pow2(j) || size == 3 * Pow2(j) }

  /** LzmaEnc_WriteProperties. */
  function EncodedProps(p: Props): (r: seq<byte>)
    requires PropsOk(p) && p.dictSize <= 0x800_0000
    ensures |r| == 5
  {
    DictLimit(p.dictSize);
    [(p.pb * 5 + p.lp) * 9 + p.lc] + LE4(AnnouncedSize(p.dictSize, 11))
  }

  /** LzmaProps_Decode. */
  function DecodedProps(s: seq<byte>): (r: Option<Props>)
    requires |s| == 5
    ensures r.Some? ==> PropsOk(r.value) && 4096 <= r.value.dictSize < WORD
  {
    if s[0] >= 225 then None else
      var dicSize := Get4(s, 1);
      Some(Props(s[0] % 9, s[0] / 9 % 5, s[0] / 9 / 5, if dicSize < 4096 then 4096 else dicSize))
  }

  /** Reading the properties back restores them, with a dictionary at least as large. */
  lemma PropsRoundTrip(p: Props)
    requires PropsOk(p) && p.dictSize <= 0x800_0000
    ensures DecodedProps(EncodedProps(p)) == Some(p.(dictSize := AnnouncedSize(p.dictSize, 11)))
  {
    hide AnnouncedSize, LE4, Get4;
    DictLimit(p.dictSize);
    PropsDigits(p.pb, p.lp, p.lc);
    var s := EncodedProps(p);
    assert s[1..5] == LE4(AnnouncedSize(p.dictSize, 11));
    GetLE4(s, 1, AnnouncedSize(p.dictSize, 11));
  }

  /** The five property bytes of every file that compressor::save writes. */
  lemma DefaultProps()
    ensures EncodedProps(DEFAULT) == [0x5D, 0, 0, 0, 1]
  {
    assert Pow2(11) == 2048;
    assert Pow2(12) == 0x1000 && Pow2(13) == 0x2000;
    assert Pow2(14) == 0x4000 && Pow2(15) == 0x8000;
    assert Pow2(16) == 0x1_0000 && Pow2(17) == 0x2_0000;
    assert Pow2(18) == 0x4_0000 && Pow2(19) == 0x8_0000;
    assert Pow2(20) == 0x10_0000 && Pow2(21) == 0x20_0000;
    assert Pow2(22) == 0x40_0000 && Pow2(23) == 0x80_0000;
    var d := DEFAULT.dictSize;
    assert AnnouncedSize(d, 11) == AnnouncedSize(d, 13) == AnnouncedSize(d, 15) == AnnouncedSize(d, 17);
    assert AnnouncedSize(d, 17) == AnnouncedSize(d, 19) == AnnouncedSize(d, 21) == AnnouncedSize(d, 23) == d;
  }

  lemma PropsDigits(pb: nat, lp: nat, lc: nat)
    requires pb <= 4 && lp <= 4 && lc <= 8
    ensures var d := (pb * 5 + lp) * 9 + lc; d < 225 && d % 9 == lc && d / 9 % 5 == lp && d / 9 / 5 == pb
  {
    assert ((pb * 5 + lp) * 9 + lc) / 9 == pb * 5 + lp;
  }

  /** A larger dictionary admits the same parse and produces the same stream. */
  lemma {:induction false} LargerDictionary(p: Props, q: Props, data: seq<byte>, c: Coder, ss: seq<Symbol>)
    requires CoderOk(p, data, c) && Parses(p, data, c, ss) && p.dictSize <= q.dictSize &&
             q == p.(dictSize := q.dictSize)
    ensures CoderOk(q, data, c) && Parses(q, data, c, ss) && EncodeAll(q, data, c, ss) == EncodeAll(p, data, c, ss)
    decreases |ss|
  {
    hide SenderOk, Send, SymbolEvents, LitBase, PosState;
    assert CoderOk(q, data, c);
    if ss != [] {
      SameContexts(p, q, data, c, ss[0]);
      EncodeSymbolOk(p, data, c, ss[0]);
      LargerDictionary(p, q, data, EncodeSymbol(p, data, c, ss[0]), ss[1..]);
    }
  }

  lemma SameContexts(p: Props, q: Props, data: seq<byte>, c: Coder, s: Symbol)
    requires CoderOk(p, data, c) && Describes(p, data, c.pos, c.reps, s)
    requires p.dictSize <= q.dictSize && q == p.(dictSize := q.dictSize)
    ensures CoderOk(q, data, c) && Describes(q, data, c.pos, c.reps, s)
    ensures EncodeSymbol(q, data, c, s) == EncodeSymbol(p, data, c, s)
  {
    hide SenderOk, Send, SymbolEvents;
    assert Lits(p) == Lits(q) && PosState(p, c.pos) == PosState(q, c.pos);
  }

  // --------------------------------------------------------------- the file image

  /** The checksum of the two lengths, in 32-bit arithmetic. */
  function PoorCrc(uncompressed: nat, compressed: nat): (r: nat)
    ensures r < WORD
  {
    (uncompressed * 19991 + compressed * 199999991 + 1234567890) % WORD
  }

  /** Each byte more of data or stream moves the checksum on by a fixed step. */
  lemma CrcSteps(uncompressed: nat, compressed: nat)
    ensures PoorCrc(0, 0) == 1234567890
    ensures PoorCrc(uncompressed + 1, compressed) == (PoorCrc(uncompressed, compressed) + 19991) % WORD
    ensures PoorCrc(uncompressed, compressed + 1) == (PoorCrc(uncompressed, compressed) + 199999991) % WORD
  {
    var sum := uncompressed * 19991 + compressed * 199999991 + 1234567890;
    WordPlus(sum, 19991);
    WordPlus(sum, 199999991);
  }

  lemma WordPlus(v: nat, step: nat)
    ensures (v % WORD + step) % WORD == (v + step) % WORD
  {
    assert v == v / WORD * WORD + v % WORD;
  }

  /** Everything compressor::save writes. */
  function Image(data: seq<byte>, stream: seq<byte>): seq<byte>
    requires |data| < WORD && |stream| < WORD
  {
    LE4(|data|) + LE4(|stream|) + LE4(PoorCrc(|data|, |stream|)) + EncodedProps(DEFAULT) + stream
  }

  ghost predicate ParsesDefault(data: seq<byte>, ss: seq<Symbol>)
  {
    CoderOk(DEFAULT, data, StartCoder(DEFAULT)) && Parses(DEFAULT, data, StartCoder(DEFAULT), ss)
  }

  /** The size of the stream that a parse leads to: every stream that encodes the data along it has it. */
  ghost function StreamSize(data: seq<byte>, ss: seq<Symbol>): nat
    requires ParsesDefault(data, ss)
  {
    EncodeAll(DEFAULT, data, StartCoder(DEFAULT), ss).sender.x.count + 4
  }

  lemma StreamSizeIs(stream: seq<byte>, data: seq<byte>, ss: seq<Symbol>)
    requires Encodes(DEFAULT, stream, data, ss)
    ensures ParsesDefault(data, ss) && |stream| == StreamSize(data, ss)
  {
    hide EncodeAll, Parses, CoderOk;
  }

  /** When saving succeeds: the stream fits its buffer and both lengths their fields. */
  ghost predicate Saves(data: seq<byte>, ss: seq<Symbol>)
    requires ParsesDefault(data, ss)
  {
    |data| < WORD && StreamSize(data, ss) < WORD && StreamSize(data, ss) <= 2 * |data| + 100
  }

  /** Every data can be saved: it has a parse into literals. */
  lemma EveryDataParses(data: seq<byte>)
    ensures ParsesDefault(data, Literals(data, 0))
  {
    hide Literals, Parses;
    StartOk(data);
    LiteralsParse(DEFAULT, data, StartCoder(DEFAULT));
  }

  lemma StartOk(data: seq<byte>)
    ensures CoderOk(DEFAULT, data, StartCoder(DEFAULT))
  {
  }

  /** compressor::save. Fails when the stream outgrows its buffer or a length its field. */
  method Save(data: seq<byte>, ss: seq<Symbol>) returns (r: Option<seq<byte>>, ghost stream: seq<byte>)
    requires ParsesDefault(data, ss)
    ensures Encodes(DEFAULT, stream, data, ss) && (r.Some? <==> Saves(data, ss))
    ensures r == if |stream| <= 2 * |data| + 100 && |data| < WORD && |stream| < WORD then Some(Image(data, stream))
            else None
  {
    var enc := new LzmaEnc(DEFAULT);
    var compressed := enc.CodeAll(data, ss);
    stream := compressed;
    StreamSizeIs(stream, data, ss);
    if |compressed| > 2 * |data| + 100 || |data| >= WORD || |compressed| >= WORD {
      return None, stream;
    }
    r := Some(LE4(|data|) + LE4(|compressed|) + LE4(PoorCrc(|data|, |compressed|)) + EncodedProps(DEFAULT) +
        compressed);
  }

  lemma ImageFields(data: seq<byte>, stream: seq<byte>, rest: seq<byte>)
    requires |data| < WORD && |stream| < WORD
    ensures var f := Image(data, stream) + rest;
            && |f| >= 17 && Get4(f, 0) == |data| && Get4(f, 4) == |stream| && Get4(f, 8) == PoorCrc(|data|, |stream|)
            && f[12..17] == EncodedProps(DEFAULT) && |f| >= 17 + |stream| && f[17..17 + |stream|] == stream &&
               f[17 + |stream|..] == rest
  {
    hide LE4, Get4, PoorCrc, EncodedProps;
    var f := Image(data, stream) + rest;
    assert f[0..4] == LE4(|data|);
    GetLE4(f, 0, |data|);
    assert f[4..8] == LE4(|stream|);
    GetLE4(f, 4, |stream|);
    assert f[8..12] == LE4(PoorCrc(|data|, |stream|));
    GetLE4(f, 8, PoorCrc(|data|, |stream|));
  }

  /** The stream decodes, with these parameters, to the data, and is used up. */
  ghost predicate Decodes(props: seq<byte>, stream: seq<byte>, data: seq<byte>)
    requires |props| == 5
  {
    var p := DecodedProps(props);
    && p.Some? && |stream| >= 5 && stream[0] == 0
    && Run(p.value, stream, Started(p.value, stream, seq(|data|, _ => 0))) == Filled(data, |stream|)
  }

  /** The file holds the data: the checksum of its two lengths is right, and its stream of the announced length
      decodes to data of the announced length. */
  ghost predicate Holds(file: seq<byte>, data: seq<byte>, rest: seq<byte>)
  {
    && |file| >= 17 && Get4(file, 8) == PoorCrc(Get4(file, 0), Get4(file, 4)) && |data| == Get4(file, 0)
    && |file| >= 17 + Get4(file, 4) && rest == file[17 + Get4(file, 4)..]
    && Decodes(file[12..17], file[17..17 + Get4(file, 4)], data)
  }

  /** compressor::load, into a new buffer of zeros. It accepts exactly the files that hold something, and
      returns what they hold. Whatever save wrote for the data, load gives the data back and
      leaves the rest of the input unread. */
  method Load(file: seq<byte>, ghost data: seq<byte>, ghost ss: seq<Symbol>, ghost stream: seq<byte>,
              ghost rest: seq<byte>)
    returns (r: Option<(seq<byte>, seq<byte>)>)
    ensures |data| < WORD && |stream| < WORD && file == Image(data, stream) + rest && Encodes(DEFAULT, stream, data, ss)
            ==> r == Some((data, rest))
    ensures r.Some? ==> Holds(file, r.value.0, r.value.1)
    ensures r.None? ==> forall d, t :: !Holds(file, d, t)
  {
    hide LE4, Get4, PoorCrc, EncodedProps, DecodedProps, Image, Encodes, AnnouncedSize, Run, Started;
    ghost var good := |data| < WORD && |stream| < WORD && file == Image(data, stream) + rest &&
        Encodes(DEFAULT, stream, data, ss);
    if good {
      ImageFields(data, stream, rest);
      PropsRoundTrip(DEFAULT);
      AnnouncedEncodes(stream, data, ss);
    }
    if |file| < 17 { return None; }
    var uncompressedLen, compressedLen := Get4(file, 0), Get4(file, 4);
    if Get4(file, 8) != PoorCrc(uncompressedLen, compressedLen) { return None; }
    var props := DecodedProps(file[12..17]);
    if |file| < 17 + compressedLen { return None; }
    var compressed := file[17..17 + compressedLen];
    if |compressed| < 5 || props.None? {
      if good { ShortStream(stream, data, ss); }
      return None;
    }
    var dest := new byte[uncompressedLen](_ => 0);
    var dec := new LzmaDec(compressed, props.value, dest);
    assert dest[..] == seq(uncompressedLen, _ => 0);
    MarkedShort(props.value, compressed, Started(props.value, compressed, dest[..]));
    var res, srcLen := dec.DecodeToDic(data, ss);
    if res != OK || dec.dicPos != uncompressedLen || srcLen != compressedLen { return None; }
    return Some((dest[..], file[17 + compressedLen..]));
  }

  lemma AnnouncedEncodes(stream: seq<byte>, data: seq<byte>, ss: seq<Symbol>)
    requires Encodes(DEFAULT, stream, data, ss)
    ensures Encodes(DEFAULT.(dictSize := AnnouncedSize(DEFAULT.dictSize, 11)), stream, data, ss)
  {
    hide EncodeAll, Parses, CoderOk, AnnouncedSize;
    LargerDictionary(DEFAULT, DEFAULT.(dictSize := AnnouncedSize(DEFAULT.dictSize, 11)), data, StartCoder(DEFAULT), ss);
  }

  lemma ShortStream(stream: seq<byte>, data: seq<byte>, ss: seq<Symbol>)
    requires Encodes(DEFAULT, stream, data, ss)
    ensures |stream| >= 5
  {
    StartInside(DEFAULT, stream, data, ss);
  }

  /** Saving and loading any data along any parse of it restores the data. */
  method SaveThenLoad(data: seq<byte>, ss: seq<Symbol>, rest: seq<byte>)
    returns (saved: bool, loaded: seq<byte>, left: seq<byte>)
    requires ParsesDefault(data, ss)
    ensures saved ==> loaded == data && left == rest
    ensures saved <==> Saves(data, ss)
  {
    hide Encodes, Image, ParsesDefault, Saves;
    var image, stream := Save(data, ss);
    if image.None? {
      return false, [], [];
    }
    var r := Load(image.value + rest, data, ss, stream, rest);
    return true, r.value.0, r.value.1;
  }
}
